/**
 * The byte keys of every table. Distinct entries have distinct keys, a scan
 * prefix selects exactly the entries it is meant to, and within a prefix
 * keys sort as their entries do.
 */
module KeyCodec {
  import opened Values
  import opened Adjacency
  import opened GraphStore
  import opened ValueCodec
  import Lex

  datatype Key =
    | NodeK(id: nat)
    | EdgeK(id: nat)
    | OutK(e: EdgeRef)
    | InK(e: EdgeRef)
    | LabelK(entry: LabelEntry)
    | PropK(p: PropEntry)
    | UniqueK(c: Claim)
    | RelK(r: RelEntry)
    | CounterK(kind: Kind)
    | NameK(name: Name)
    | IdK(i: Id)
    | IndexK(on: Pair)
    | ConstraintK(on: Pair)
    | RelIndexK(on: Pair)

  function Tag(k: Key): byte
  {
    match k
    case NodeK(_) => 'n' as byte
    case EdgeK(_) => 'e' as byte
    case OutK(_) => 'o' as byte
    case InK(_) => 'i' as byte
    case LabelK(_) => 'l' as byte
    case PropK(_) => 'p' as byte
    case UniqueK(_) => 'u' as byte
    case RelK(_) => 'r' as byte
    case CounterK(_) => 'c' as byte
    case NameK(n) => KindByte(n.kind)
    case IdK(_) => 'R' as byte
    case IndexK(_) => 'X' as byte
    case ConstraintK(_) => 'U' as byte
    case RelIndexK(_) => 'Y' as byte
  }

  function KindByte(k: Kind): byte
  {
    match k
    case KLabel => 'L' as byte
    case KType => 'T' as byte
    case KKey => 'K' as byte
    case KNode => 'n' as byte
    case KEdge => 'e' as byte
  }

  function U32(n: nat): (b: Bytes)
    ensures |b| == 4
  {
    Lex.BigEndian(n, 4)
  }

  function U64(n: nat): (b: Bytes)
    ensures |b| == 8
  {
    Lex.BigEndian(n, 8)
  }

  function PairBytes(on: Pair): (b: Bytes)
    ensures |b| == 8
  {
    U32(on.owner) + U32(on.key)
  }

  /** Ids fit the width their key field has, and indexed values can be encoded. */
  predicate Fits(k: Key)
  {
    match k
    case NodeK(id) => id < TWO_64
    case EdgeK(id) => id < TWO_64
    case OutK(e) => RefFits(e)
    case InK(e) => RefFits(e)
    case LabelK(l) => l.lab <= MAX_U32 && l.node < TWO_64
    case PropK(p) => PairFits(p.on) && IsIndexable(p.value) && p.node < TWO_64
    case UniqueK(c) => PairFits(c.on) && IsIndexable(c.value)
    case RelK(r) => PairFits(r.on) && IsIndexable(r.value) && r.edge < TWO_64
    case CounterK(_) => true
    case NameK(n) => n.kind == KLabel || n.kind == KType || n.kind == KKey
    case IdK(i) => i.id <= MAX_U32
    case IndexK(on) => PairFits(on)
    case ConstraintK(on) => PairFits(on)
    case RelIndexK(on) => PairFits(on)
  }

  predicate RefFits(e: EdgeRef)
  {
    e.id < TWO_64 && e.typ <= MAX_U32 && e.src < TWO_64 && e.dst < TWO_64
  }

  /** What follows the tag. */
  function Rest(k: Key): Bytes
    requires Fits(k)
  {
    match k
    case NodeK(id) => U64(id)
    case EdgeK(id) => U64(id)
    case OutK(e) => U64(e.src) + U32(e.typ) + U64(e.dst) + U64(e.id)
    case InK(e) => U64(e.dst) + U32(e.typ) + U64(e.src) + U64(e.id)
    case LabelK(l) => U32(l.lab) + U64(l.node)
    case PropK(p) => PairBytes(p.on) + (Encode(p.value) + U64(p.node))
    case UniqueK(c) => PairBytes(c.on) + Encode(c.value)
    case RelK(r) => PairBytes(r.on) + (Encode(r.value) + U64(r.edge))
    case CounterK(kind) => [KindByte(kind)]
    case NameK(n) => n.text
    case IdK(i) => [KindByte(i.kind)] + U32(i.id)
    case IndexK(on) => PairBytes(on)
    case ConstraintK(on) => PairBytes(on)
    case RelIndexK(on) => PairBytes(on)
  }

  function EncodeKey(k: Key): Bytes
    requires Fits(k)
  {
    [Tag(k)] + Rest(k)
  }

  // ----- Fields -----

  lemma U32Injective(a: nat, b: nat)
    requires a <= MAX_U32 && b <= MAX_U32 && U32(a) == U32(b)
    ensures a == b
  {
    Lex.Power256Of4();
    Lex.BigEndianOrder(a, b, 4);
  }

  lemma U64Injective(a: nat, b: nat)
    requires a < TWO_64 && b < TWO_64 && U64(a) == U64(b)
    ensures a == b
  {
    Lex.Power256Of8();
    Lex.BigEndianOrder(a, b, 8);
  }

  /** Fields of the same width split a concatenation the same way. */
  lemma Split(a: Bytes, x: Bytes, b: Bytes, y: Bytes)
    requires |a| == |b| && a + x == b + y
    ensures a == b && x == y
  {
    assert a == (a + x)[..|a|] && b == (b + y)[..|b|];
    assert x == (a + x)[|a|..] && y == (b + y)[|b|..];
  }

  lemma PairInjective(a: Pair, x: Bytes, b: Pair, y: Bytes)
    requires PairFits(a) && PairFits(b) && PairBytes(a) + x == PairBytes(b) + y
    ensures a == b && x == y
  {
    Split(PairBytes(a), x, PairBytes(b), y);
    Split(U32(a.owner), U32(a.key), U32(b.owner), U32(b.key));
    U32Injective(a.owner, b.owner);
    U32Injective(a.key, b.key);
  }

  lemma FourFields(a: nat, t: nat, b: nat, c: nat, a': nat, t': nat, b': nat, c': nat)
    requires a < TWO_64 && t <= MAX_U32 && b < TWO_64 && c < TWO_64
    requires a' < TWO_64 && t' <= MAX_U32 && b' < TWO_64 && c' < TWO_64
    requires U64(a) + U32(t) + U64(b) + U64(c) == U64(a') + U32(t') + U64(b') + U64(c')
    ensures a == a' && t == t' && b == b' && c == c'
  {
    Split(U64(a) + U32(t) + U64(b), U64(c), U64(a') + U32(t') + U64(b'), U64(c'));
    Split(U64(a) + U32(t), U64(b), U64(a') + U32(t'), U64(b'));
    Split(U64(a), U32(t), U64(a'), U32(t'));
    U64Injective(a, a');
    U32Injective(t, t');
    U64Injective(b, b');
    U64Injective(c, c');
  }

  lemma ValueThenId(v: Value, n: nat, w: Value, m: nat)
    requires IsIndexable(v) && IsIndexable(w) && n < TWO_64 && m < TWO_64
    requires Encode(v) + U64(n) == Encode(w) + U64(m)
    ensures v == w && n == m
  {
    PrefixFree(v, w, U64(n), U64(m));
    U64Injective(n, m);
  }

  lemma RecordKeyInjective(a: Key, b: Key)
    requires Fits(a) && Fits(b) && Rest(a) == Rest(b)
    requires (a.NodeK? && b.NodeK?) || (a.EdgeK? && b.EdgeK?) || (a.OutK? && b.OutK?) || (a.InK? && b.InK?)
    ensures a == b
  {
    hide U32, U64;
    match (a, b)
    case (NodeK(i), NodeK(j)) => U64Injective(i, j);
    case (EdgeK(i), EdgeK(j)) => U64Injective(i, j);
    case (OutK(e), OutK(f)) => FourFields(e.src, e.typ, e.dst, e.id, f.src, f.typ, f.dst, f.id);
    case (InK(e), InK(f)) => FourFields(e.dst, e.typ, e.src, e.id, f.dst, f.typ, f.src, f.id);
  }

  lemma EntryKeyInjective(a: Key, b: Key)
    requires Fits(a) && Fits(b) && Rest(a) == Rest(b)
    requires (a.LabelK? && b.LabelK?) || (a.PropK? && b.PropK?) || (a.UniqueK? && b.UniqueK?) || (a.RelK? && b.RelK?)
    ensures a == b
  {
    hide U32, U64, PairBytes, Encode;
    match (a, b)
    case (LabelK(l), LabelK(m)) => LabelInjective(l, m);
    case (PropK(p), PropK(q)) =>
      PairInjective(p.on, Encode(p.value) + U64(p.node), q.on, Encode(q.value) + U64(q.node));
      ValueThenId(p.value, p.node, q.value, q.node);
    case (UniqueK(c), UniqueK(d)) =>
      PairInjective(c.on, Encode(c.value), d.on, Encode(d.value));
      assert Encode(c.value) + [] == Encode(d.value) + [];
      PrefixFree(c.value, d.value, [], []);
    case (RelK(r), RelK(q)) =>
      PairInjective(r.on, Encode(r.value) + U64(r.edge), q.on, Encode(q.value) + U64(q.edge));
      ValueThenId(r.value, r.edge, q.value, q.edge);
  }

  /** Two entries with the same bytes are the same entry, across all tables. */
  lemma KeyInjective(a: Key, b: Key)
    requires Fits(a) && Fits(b) && EncodeKey(a) == EncodeKey(b)
    ensures a == b
  {
    Split([Tag(a)], Rest(a), [Tag(b)], Rest(b));
    hide U32, U64, PairBytes, Encode;
    if a.NodeK? || a.EdgeK? || a.OutK? || a.InK? {
      RecordKeyInjective(a, b);
    } else if a.LabelK? || a.PropK? || a.UniqueK? || a.RelK? {
      EntryKeyInjective(a, b);
    } else {
      match (a, b)
      case (IdK(i), IdK(j)) => IdInjective(i, j);
      case (IndexK(x), IndexK(y)) => SamePair(x, y);
      case (ConstraintK(x), ConstraintK(y)) => SamePair(x, y);
      case (RelIndexK(x), RelIndexK(y)) => SamePair(x, y);
      case _ =>
    }
  }

  lemma SamePair(x: Pair, y: Pair)
    requires PairFits(x) && PairFits(y) && PairBytes(x) == PairBytes(y)
    ensures x == y
  {
    PairInjective(x, [], y, []);
  }

  lemma LabelInjective(l: LabelEntry, m: LabelEntry)
    requires Fits(LabelK(l)) && Fits(LabelK(m)) && U32(l.lab) + U64(l.node) == U32(m.lab) + U64(m.node)
    ensures l == m
  {
    Split(U32(l.lab), U64(l.node), U32(m.lab), U64(m.node));
    U32Injective(l.lab, m.lab);
    U64Injective(l.node, m.node);
  }

  lemma IdInjective(i: Id, j: Id)
    requires i.id <= MAX_U32 && j.id <= MAX_U32 && [KindByte(i.kind)] + U32(i.id) == [KindByte(j.kind)] + U32(j.id)
    ensures i == j
  {
    Split([KindByte(i.kind)], U32(i.id), [KindByte(j.kind)], U32(j.id));
    U32Injective(i.id, j.id);
  }

  // ----- Scan prefixes -----

  function OutPrefixAll(src: nat): Bytes { ['o' as byte] + U64(src) }
  function OutPrefix(src: nat, typ: nat): Bytes { ['o' as byte] + U64(src) + U32(typ) }
  function InPrefixAll(dst: nat): Bytes { ['i' as byte] + U64(dst) }
  function InPrefix(dst: nat, typ: nat): Bytes { ['i' as byte] + U64(dst) + U32(typ) }
  function LabelPrefix(l: nat): Bytes { ['l' as byte] + U32(l) }
  function PropIndexPrefix(on: Pair): Bytes { ['p' as byte] + PairBytes(on) }
  function PropBandPrefix(on: Pair, band: byte): Bytes { PropIndexPrefix(on) + [band] }
  function PropPrefix(on: Pair, v: Value): Bytes
    requires IsIndexable(v)
  { PropIndexPrefix(on) + Encode(v) }
  function PropStringPrefix(on: Pair, s: Bytes): Bytes { PropIndexPrefix(on) + StringPrefix(s) }
  function UniquePrefix(on: Pair): Bytes { ['u' as byte] + PairBytes(on) }
  function RelPropIndexPrefix(on: Pair): Bytes { ['r' as byte] + PairBytes(on) }
  function RelPropPrefix(on: Pair, v: Value): Bytes
    requires IsIndexable(v)
  { RelPropIndexPrefix(on) + Encode(v) }

  /** A prefix that starts with another tag matches nothing. */
  lemma TagDecides(tag: byte, p: Bytes, k: Key)
    requires Fits(k) && Tag(k) != tag && p != [] && p[0] == tag
    ensures !(p <= EncodeKey(k))
  {
  }

  /** Comparing the leading field of a key with that of a prefix. */
  lemma LeadingField(tag: byte, a: Bytes, x: Bytes, b: Bytes, y: Bytes)
    requires |a| == |b|
    ensures [tag] + a + x <= [tag] + b + y <==> a == b && x <= y
  {
    assert [tag] + a + x == [tag] + (a + x) && [tag] + b + y == [tag] + (b + y);
    SharedHead([tag], a + x, b + y);
    if a + x <= b + y {
      assert (a + x)[..|a|] == (b + y)[..|a|];
      assert a == (a + x)[..|a|] && b == (b + y)[..|b|];
    }
    if a == b {
      SharedHead(a, x, y);
    }
  }

  lemma OutPrefixExact(k: Key, src: nat, typ: nat)
    requires Fits(k) && src < TWO_64 && typ <= MAX_U32
    ensures OutPrefixAll(src) <= EncodeKey(k) <==> k.OutK? && k.e.src == src
    ensures OutPrefix(src, typ) <= EncodeKey(k) <==> k.OutK? && k.e.src == src && k.e.typ == typ
  {
    if k.OutK? {
      var e := k.e;
      var tail := U64(e.dst) + U64(e.id);
      assert Rest(k) == U64(e.src) + (U32(e.typ) + tail);
      AdjacencyField('o' as byte, src, typ, e.src, e.typ, tail);
    } else {
      TagDecides('o' as byte, OutPrefixAll(src), k);
      TagDecides('o' as byte, OutPrefix(src, typ), k);
    }
  }

  lemma InPrefixExact(k: Key, dst: nat, typ: nat)
    requires Fits(k) && dst < TWO_64 && typ <= MAX_U32
    ensures InPrefixAll(dst) <= EncodeKey(k) <==> k.InK? && k.e.dst == dst
    ensures InPrefix(dst, typ) <= EncodeKey(k) <==> k.InK? && k.e.dst == dst && k.e.typ == typ
  {
    if k.InK? {
      var e := k.e;
      var tail := U64(e.src) + U64(e.id);
      assert Rest(k) == U64(e.dst) + (U32(e.typ) + tail);
      AdjacencyField('i' as byte, dst, typ, e.dst, e.typ, tail);
    } else {
      TagDecides('i' as byte, InPrefixAll(dst), k);
      TagDecides('i' as byte, InPrefix(dst, typ), k);
    }
  }

  lemma AdjacencyField(tag: byte, n: nat, typ: nat, m: nat, t: nat, tail: Bytes)
    requires n < TWO_64 && m < TWO_64 && typ <= MAX_U32 && t <= MAX_U32
    ensures [tag] + U64(n) <= [tag] + (U64(m) + (U32(t) + tail)) <==> n == m
    ensures [tag] + U64(n) + U32(typ) <= [tag] + (U64(m) + (U32(t) + tail)) <==> n == m && typ == t
  {
    var rest := U32(t) + tail;
    assert [tag] + (U64(m) + rest) == [tag] + U64(m) + rest;
    assert [tag] + U64(n) == [tag] + U64(n) + [];
    LeadingField(tag, U64(n), [], U64(m), rest);
    LeadingField(tag, U64(n), U32(typ), U64(m), rest);
    if U64(n) == U64(m) {
      U64Injective(n, m);
    }
    if U32(typ) <= rest {
      assert U32(typ) == rest[..4] == U32(t);
      U32Injective(typ, t);
    }
  }

  lemma LabelPrefixExact(k: Key, l: nat)
    requires Fits(k) && l <= MAX_U32
    ensures LabelPrefix(l) <= EncodeKey(k) <==> k.LabelK? && k.entry.lab == l
  {
    if k.LabelK? {
      assert EncodeKey(k) == ['l' as byte] + U32(k.entry.lab) + U64(k.entry.node);
      assert LabelPrefix(l) == LabelPrefix(l) + [];
      LeadingField('l' as byte, U32(l), [], U32(k.entry.lab), U64(k.entry.node));
      if U32(l) == U32(k.entry.lab) {
        U32Injective(l, k.entry.lab);
      }
    } else {
      TagDecides('l' as byte, LabelPrefix(l), k);
    }
  }

  /** A prefix of the property index matches the entries of its pair whose value bytes continue it. */
  lemma PropPrefixSplit(k: Key, on: Pair, more: Bytes)
    requires Fits(k) && PairFits(on)
    ensures PropIndexPrefix(on) + more <= EncodeKey(k) <==>
            k.PropK? && k.p.on == on && more <= Encode(k.p.value) + U64(k.p.node)
  {
    if k.PropK? {
      var x := Encode(k.p.value) + U64(k.p.node);
      assert EncodeKey(k) == ['p' as byte] + PairBytes(k.p.on) + x;
      LeadingField('p' as byte, PairBytes(on), more, PairBytes(k.p.on), x);
      if PairBytes(on) == PairBytes(k.p.on) {
        SamePair(on, k.p.on);
      }
    } else {
      TagDecides('p' as byte, PropIndexPrefix(on) + more, k);
    }
  }

  lemma RelPropPrefixSplit(k: Key, on: Pair, more: Bytes)
    requires Fits(k) && PairFits(on)
    ensures RelPropIndexPrefix(on) + more <= EncodeKey(k) <==>
            k.RelK? && k.r.on == on && more <= Encode(k.r.value) + U64(k.r.edge)
  {
    if k.RelK? {
      var x := Encode(k.r.value) + U64(k.r.edge);
      assert EncodeKey(k) == ['r' as byte] + PairBytes(k.r.on) + x;
      LeadingField('r' as byte, PairBytes(on), more, PairBytes(k.r.on), x);
      if PairBytes(on) == PairBytes(k.r.on) {
        SamePair(on, k.r.on);
      }
    } else {
      TagDecides('r' as byte, RelPropIndexPrefix(on) + more, k);
    }
  }

  lemma ValuePrefix(v: Value, w: Value, rest: Bytes)
    requires IsIndexable(v) && IsIndexable(w)
    ensures Encode(v) <= Encode(w) + rest <==> v == w
  {
    if Encode(v) <= Encode(w) + rest {
      var x := (Encode(w) + rest)[|Encode(v)|..];
      assert Encode(v) + x == Encode(w) + rest;
      PrefixFree(v, w, x, rest);
    }
  }

  /** The equality prefix selects exactly the entries of its pair with that value. */
  lemma PropPrefixExact(k: Key, on: Pair, v: Value)
    requires Fits(k) && PairFits(on) && IsIndexable(v)
    ensures PropPrefix(on, v) <= EncodeKey(k) <==> k.PropK? && k.p.on == on && k.p.value == v
  {
    PropPrefixSplit(k, on, Encode(v));
    if k.PropK? {
      ValuePrefix(v, k.p.value, U64(k.p.node));
    }
  }

  lemma RelPropPrefixExact(k: Key, on: Pair, v: Value)
    requires Fits(k) && PairFits(on) && IsIndexable(v)
    ensures RelPropPrefix(on, v) <= EncodeKey(k) <==> k.RelK? && k.r.on == on && k.r.value == v
  {
    RelPropPrefixSplit(k, on, Encode(v));
    if k.RelK? {
      ValuePrefix(v, k.r.value, U64(k.r.edge));
    }
  }

  /** The prefixes that dropping an index or a constraint deletes select exactly its entries. */
  lemma IndexPrefixesExact(k: Key, on: Pair)
    requires Fits(k) && PairFits(on)
    ensures PropIndexPrefix(on) <= EncodeKey(k) <==> k.PropK? && k.p.on == on
    ensures RelPropIndexPrefix(on) <= EncodeKey(k) <==> k.RelK? && k.r.on == on
    ensures UniquePrefix(on) <= EncodeKey(k) <==> k.UniqueK? && k.c.on == on
  {
    PropPrefixSplit(k, on, []);
    RelPropPrefixSplit(k, on, []);
    assert PropIndexPrefix(on) + [] == PropIndexPrefix(on) && RelPropIndexPrefix(on) + [] == RelPropIndexPrefix(on);
    UniquePrefixSplit(k, on);
  }

  lemma UniquePrefixSplit(k: Key, on: Pair)
    requires Fits(k) && PairFits(on)
    ensures UniquePrefix(on) <= EncodeKey(k) <==> k.UniqueK? && k.c.on == on
  {
    if k.UniqueK? {
      var x := Encode(k.c.value);
      assert EncodeKey(k) == ['u' as byte] + PairBytes(k.c.on) + x;
      assert UniquePrefix(on) == ['u' as byte] + PairBytes(on) + [];
      LeadingField('u' as byte, PairBytes(on), [], PairBytes(k.c.on), x);
      if PairBytes(on) == PairBytes(k.c.on) {
        SamePair(on, k.c.on);
      }
    } else {
      TagDecides('u' as byte, UniquePrefix(on), k);
    }
  }

  /** A band prefix selects the entries of one type, a string prefix those that start with it. */
  lemma BandPrefixExact(k: Key, on: Pair, band: byte, s: Bytes)
    requires Fits(k) && PairFits(on)
    ensures PropBandPrefix(on, band) <= EncodeKey(k) <==> k.PropK? && k.p.on == on && Band(k.p.value) == band
    ensures PropStringPrefix(on, s) <= EncodeKey(k) <==> k.PropK? && k.p.on == on && k.p.value.Str? && s <= k.p.value.s
  {
    PropPrefixSplit(k, on, [band]);
    PropPrefixSplit(k, on, StringPrefix(s));
    if k.PropK? {
      StringPrefixExact(s, k.p.value, U64(k.p.node));
      assert (Encode(k.p.value) + U64(k.p.node))[0] == Band(k.p.value);
    }
  }

  // ----- Order within a prefix -----

  lemma LabelKeyOrder(l: nat, n: nat, m: nat)
    requires l <= MAX_U32 && n < TWO_64 && m < TWO_64
    ensures Lex.Less(EncodeKey(LabelK(LabelEntry(l, n))), EncodeKey(LabelK(LabelEntry(l, m)))) <==> n < m
  {
    Lex.Power256Of8();
    Lex.BigEndianOrder(n, m, 8);
    var head := LabelPrefix(l);
    assert EncodeKey(LabelK(LabelEntry(l, n))) == head + U64(n);
    assert EncodeKey(LabelK(LabelEntry(l, m))) == head + U64(m);
    Lex.DropPrefix(head, U64(n), U64(m));
  }

  /** An entry sorts at or after the start of a value exactly when its value is not before it. */
  lemma PropKeyFrom(p: PropEntry, v: Value)
    requires Fits(PropK(p)) && IsIndexable(v)
    ensures Lex.Leq(PropPrefix(p.on, v), EncodeKey(PropK(p))) <==> p.value == v || Before(v, p.value)
  {
    var head := PropIndexPrefix(p.on);
    var x := Encode(p.value) + U64(p.node);
    assert EncodeKey(PropK(p)) == head + x;
    Lex.DropPrefix(head, Encode(v), x);
    if p.value == v {
      Lex.PrefixFirst(Encode(v), U64(p.node));
    } else {
      EncodeOrder(v, [], p.value, U64(p.node));
      assert Encode(v) + [] == Encode(v);
      if head + Encode(v) == head + x {
        Split(head, Encode(v), head, x);
        PrefixFree(v, p.value, [], U64(p.node));
      }
    }
  }

  lemma EntryTail(v: Value, n: nat, w: Value, m: nat)
    requires IsIndexable(v) && IsIndexable(w) && n < TWO_64 && m < TWO_64
    ensures Lex.Less(Encode(v) + U64(n), Encode(w) + U64(m)) <==> if v == w then n < m else Before(v, w)
  {
    hide Encode, Lex.Less, Before, Lex.BigEndian, Lex.Power256;
    if v == w {
      Lex.DropPrefix(Encode(v), U64(n), U64(m));
      Lex.Power256Of8();
      Lex.BigEndianOrder(n, m, 8);
    } else {
      EncodeOrder(v, U64(n), w, U64(m));
    }
  }

  lemma PropKeyBytes(p: PropEntry)
    requires Fits(PropK(p))
    ensures EncodeKey(PropK(p)) == PropIndexPrefix(p.on) + (Encode(p.value) + U64(p.node))
  {
    hide Encode, U64, PairBytes;
  }

  /** Entries of one pair are ordered by value, then by node. */
  lemma PropKeyOrder(p: PropEntry, q: PropEntry)
    requires Fits(PropK(p)) && Fits(PropK(q)) && p.on == q.on
    ensures Lex.Less(EncodeKey(PropK(p)), EncodeKey(PropK(q))) <==>
            if p.value == q.value then p.node < q.node else Before(p.value, q.value)
  {
    hide Encode, EncodeKey, PropIndexPrefix, Lex.Less, Before, Lex.BigEndian, U64;
    PropKeyBytes(p);
    PropKeyBytes(q);
    Lex.DropPrefix(PropIndexPrefix(p.on), Encode(p.value) + U64(p.node), Encode(q.value) + U64(q.node));
    EntryTail(p.value, p.node, q.value, q.node);
  }
}
