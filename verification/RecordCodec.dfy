/**
 * The serialized form of node and edge records: values of any nesting, each
 * with a tag and, where it has one, a length.
 */
module RecordCodec {
  import opened Seqs
  import opened Values
  import opened Varint
  import opened GraphStore
  import KeyScan
  import Lex

  const REC_NULL: byte := 0
  const REC_BOOL: byte := 1
  const REC_INT: byte := 2
  const REC_FLOAT: byte := 3
  const REC_STR: byte := 4
  const REC_LIST: byte := 5
  const REC_MAP: byte := 6

  /** The 64 bits of a float, sign first. */
  function Bits(f: F64): (n: nat)
    ensures n < TWO_64
  {
    if f.neg then TWO_63 + f.mag else f.mag
  }

  function FromBits(n: nat): (f: F64)
    requires n < TWO_64
    ensures Bits(f) == n
  {
    if n >= TWO_63 then F64(true, n - TWO_63) else F64(false, n)
  }

  lemma FromBitsOf(f: F64)
    ensures FromBits(Bits(f)) == f
  {
  }

  // ----- Keys in order -----

  predicate IsLeast(k: Bytes, keys: set<Bytes>)
  {
    k in keys && forall j :: j in keys ==> Lex.Leq(k, j)
  }

  lemma LeastExists(keys: set<Bytes>)
    requires keys != {}
    ensures exists k :: IsLeast(k, keys)
  {
    var k :| k in keys;
    var others := keys - {k};
    assert keys == others + {k};
    if others == {} {
      assert IsLeast(k, keys);
    } else {
      LeastExists(others);
      var l :| IsLeast(l, others);
      Lex.Trichotomy(k, l);
      if Lex.Less(k, l) {
        forall j | j in others ensures Lex.Leq(k, j) {
          if j != l {
            Lex.Transitive(k, l, j);
          }
        }
        assert IsLeast(k, keys);
      } else {
        assert IsLeast(l, keys);
      }
    }
  }

  lemma LeastUnique(keys: set<Bytes>)
    ensures forall k, l :: IsLeast(k, keys) && IsLeast(l, keys) ==> k == l
  {
    forall k, l | IsLeast(k, keys) && IsLeast(l, keys) ensures k == l {
      Lex.Trichotomy(k, l);
    }
  }

  /** sort.Strings of the keys of a map. */
  function Ordered(keys: set<Bytes>): (ks: seq<Bytes>)
    ensures |ks| == |keys| && forall k :: k in ks <==> k in keys
  {
    if keys == {} then []
    else
      LeastExists(keys);
      LeastUnique(keys);
      var k :| IsLeast(k, keys);
      assert keys == (keys - {k}) + {k};
      [k] + Ordered(keys - {k})
  }

  lemma {:induction false} OrderedSorted(keys: set<Bytes>)
    ensures KeyScan.SortedKeys(Ordered(keys))
  {
    if keys != {} {
      LeastExists(keys);
      var k :| IsLeast(k, keys) && Ordered(keys) == [k] + Ordered(keys - {k});
      var rest := Ordered(keys - {k});
      OrderedSorted(keys - {k});
      assert forall j :: j in rest ==> j in keys && j != k;
      SortedCons(k, rest);
    }
  }

  lemma SortedCons(k: Bytes, rest: seq<Bytes>)
    requires KeyScan.SortedKeys(rest) && forall j :: j in rest ==> Lex.Less(k, j)
    ensures KeyScan.SortedKeys([k] + rest)
  {
  }

  predicate IsLeastId(k: nat, ids: set<nat>)
  {
    k in ids && forall j :: j in ids ==> k <= j
  }

  lemma LeastIdExists(ids: set<nat>)
    requires ids != {}
    ensures exists k :: IsLeastId(k, ids)
  {
    var k :| k in ids;
    var others := ids - {k};
    assert ids == others + {k};
    if others == {} {
      assert IsLeastId(k, ids);
    } else {
      LeastIdExists(others);
      var l :| IsLeastId(l, others);
      assert IsLeastId(if k < l then k else l, ids);
    }
  }

  /** The keys of a property map, ascending. */
  function OrderedIds(ids: set<nat>): (ks: seq<nat>)
    ensures |ks| == |ids| && forall k :: k in ks <==> k in ids
  {
    if ids == {} then []
    else
      LeastIdExists(ids);
      var k :| IsLeastId(k, ids);
      assert ids == (ids - {k}) + {k};
      [k] + OrderedIds(ids - {k})
  }

  lemma {:induction false} OrderedIdsAscend(ids: set<nat>)
    ensures StrictlyAscending(OrderedIds(ids))
  {
    if ids != {} {
      LeastIdExists(ids);
      var k :| IsLeastId(k, ids) && OrderedIds(ids) == [k] + OrderedIds(ids - {k});
      var rest := OrderedIds(ids - {k});
      OrderedIdsAscend(ids - {k});
      assert forall j :: j in rest ==> j in ids && j != k;
      AscendingCons(k, rest);
    }
  }

  lemma AscendingCons(k: nat, rest: seq<nat>)
    requires StrictlyAscending(rest) && forall j :: j in rest ==> k < j
    ensures StrictlyAscending([k] + rest)
  {
    var s := [k] + rest;
    forall i, j | 0 <= i < j < |s| ensures s[i] < s[j] {
      assert s[j] == rest[j-1] && rest[j-1] in rest;
      if i > 0 {
        assert s[i] == rest[i-1];
      }
    }
  }

  // ----- Encoding -----

  function AppendValue(v: Value): (b: Bytes)
    ensures b != []
    decreases v, 1, 0
  {
    match v
    case Null => [REC_NULL]
    case Bool(x) => [REC_BOOL, if x then 1 else 0]
    case Int(i) => [REC_INT] + AppendUvarint(ZigZag(i))
    case Float(f) => [REC_FLOAT] + Lex.BigEndian(Bits(f), 8)
    case Str(s) => [REC_STR] + (AppendUvarint(|s|) + s)
    case List(es) => [REC_LIST] + (AppendUvarint(|es|) + AppendElems(v, 0))
    case Map(m) =>
      var ks := Ordered(m.Keys);
      [REC_MAP] + (AppendUvarint(|ks|) + AppendEntries(v, ks))
  }

  function AppendElems(v: Value, i: nat): (b: Bytes)
    requires v.List? && i <= |v.elems|
    ensures |b| >= |v.elems| - i
    decreases v, 0, |v.elems| - i
  {
    if i == |v.elems| then [] else AppendValue(v.elems[i]) + AppendElems(v, i + 1)
  }

  function AppendEntries(v: Value, ks: seq<Bytes>): (b: Bytes)
    requires v.Map? && forall k :: k in ks ==> k in v.entries
    ensures |b| >= |ks|
    decreases v, 0, |ks|
  {
    if ks == [] then []
    else
      assert ks[0] in ks;
      AppendUvarint(|ks[0]|) + (ks[0] + (AppendValue(v.entries[ks[0]]) + AppendEntries(v, ks[1..])))
  }

  function AppendProps(props: Props, ks: seq<nat>): (b: Bytes)
    requires forall k :: k in ks ==> k in props
    ensures |b| >= |ks|
  {
    if ks == [] then []
    else
      assert ks[0] in ks;
      AppendUvarint(ks[0]) + (AppendValue(props[ks[0]]) + AppendProps(props, ks[1..]))
  }

  function EncodeProps(props: Props): Bytes
  {
    var ks := OrderedIds(props.Keys);
    AppendUvarint(|ks|) + AppendProps(props, ks)
  }

  function AppendLabels(ls: seq<nat>): (b: Bytes)
    ensures |b| >= |ls|
  {
    if ls == [] then [] else AppendUvarint(ls[0]) + AppendLabels(ls[1..])
  }

  function EncodeNode(rec: NodeRec): Bytes
  {
    var ls := SortNats(rec.labels);
    AppendUvarint(|ls|) + (AppendLabels(ls) + EncodeProps(rec.props))
  }

  function EncodeEdge(rec: EdgeRec): Bytes
  {
    AppendUvarint(rec.typ) + (AppendUvarint(rec.src) + (AppendUvarint(rec.dst) + EncodeProps(rec.props)))
  }

  // ----- Decoding, as a function of the bytes left -----

  /** A count that the bytes left could hold: every item takes at least one. */
  function ParseCount(b: Bytes): (r: Parsed<nat>)
    ensures r.Parsed? ==> r.value <= |r.rest| < |b|
  {
    match ParseUvarint(b)
    case Malformed => Malformed
    case Parsed(n, rest) => if n > |rest| then Malformed else Parsed(n, rest)
  }

  function ParseValue(b: Bytes): (r: Parsed<Value>)
    ensures r.Parsed? ==> |r.rest| < |b|
    decreases |b|, 0
  {
    if b == [] then Malformed
    else if b[0] == REC_NULL then Parsed(Null, b[1..])
    else if b[0] == REC_BOOL then
      if |b| < 2 then Malformed else Parsed(Bool(b[1] != 0), b[2..])
    else if b[0] == REC_INT then
      match ParseVarint(b[1..]) {
        case Parsed(i, rest) => Parsed(Int(i), rest)
        case Malformed => Malformed
      }
    else if b[0] == REC_FLOAT then
      if |b| < 9 then Malformed else Parsed(Float(FromBits(Lex.FromBigEndian(b[1..9]) % TWO_64)), b[9..])
    else if b[0] == REC_STR then
      match ParseCount(b[1..]) {
        case Parsed(n, rest) => Parsed(Str(rest[..n]), rest[n..])
        case Malformed => Malformed
      }
    else if b[0] == REC_LIST then
      match ParseCount(b[1..]) {
        case Parsed(n, rest) => ListOf(ParseElems(n, rest))
        case Malformed => Malformed
      }
    else if b[0] == REC_MAP then
      match ParseCount(b[1..]) {
        case Parsed(n, rest) => MapOf(ParseEntries(n, rest, map[]))
        case Malformed => Malformed
      }
    else Malformed
  }

  function ListOf(p: Parsed<seq<Value>>): Parsed<Value>
  {
    if p.Parsed? then Parsed(List(p.value), p.rest) else Malformed
  }

  function MapOf(p: Parsed<map<Bytes, Value>>): Parsed<Value>
  {
    if p.Parsed? then Parsed(Map(p.value), p.rest) else Malformed
  }

  function ParseElems(n: nat, b: Bytes): (r: Parsed<seq<Value>>)
    ensures r.Parsed? ==> |r.rest| <= |b|
    decreases |b|, 1
  {
    if n == 0 then Parsed([], b)
    else
      match ParseValue(b)
      case Malformed => Malformed
      case Parsed(v, rest) =>
        match ParseElems(n - 1, rest)
        case Malformed => Malformed
        case Parsed(vs, rest') => Parsed([v] + vs, rest')
  }

  function ParseEntries(n: nat, b: Bytes, m: map<Bytes, Value>): (r: Parsed<map<Bytes, Value>>)
    ensures r.Parsed? ==> |r.rest| <= |b|
    decreases |b|, 1
  {
    if n == 0 then Parsed(m, b)
    else
      match ParseCount(b)
      case Malformed => Malformed
      case Parsed(len, rest) =>
        match ParseValue(rest[len..])
        case Malformed => Malformed
        case Parsed(v, rest') => ParseEntries(n - 1, rest', m[rest[..len] := v])
  }

  /** Keys and labels are truncated to 32 bits. */
  function Truncate(n: nat): nat
  {
    n % 0x1_0000_0000
  }

  function ParseProps(n: nat, b: Bytes, props: Props): Parsed<Props>
    decreases |b|
  {
    if n == 0 then Parsed(props, b)
    else
      match ParseUvarint(b)
      case Malformed => Malformed
      case Parsed(k, rest) =>
        match ParseValue(rest)
        case Malformed => Malformed
        case Parsed(v, rest') => ParseProps(n - 1, rest', props[Truncate(k) := v])
  }

  function DecodeProps(b: Bytes): Parsed<Props>
  {
    match ParseCount(b)
    case Malformed => Malformed
    case Parsed(n, rest) => ParseProps(n, rest, map[])
  }

  function ParseLabels(n: nat, b: Bytes): (r: Parsed<seq<nat>>)
    decreases |b|
  {
    if n == 0 then Parsed([], b)
    else
      match ParseUvarint(b)
      case Malformed => Malformed
      case Parsed(l, rest) =>
        match ParseLabels(n - 1, rest)
        case Malformed => Malformed
        case Parsed(ls, rest') => Parsed([Truncate(l)] + ls, rest')
  }

  function DecodeNode(b: Bytes): Option<NodeRec>
  {
    match ParseCount(b)
    case Malformed => None
    case Parsed(n, rest) =>
      match ParseLabels(n, rest)
      case Malformed => None
      case Parsed(ls, rest') =>
        match DecodeProps(rest')
        case Malformed => None
        case Parsed(props, _) => Some(NodeRec(ls, props))
  }

  function DecodeEdge(b: Bytes): Option<EdgeRec>
  {
    match ParseUvarint(b)
    case Malformed => None
    case Parsed(typ, b1) =>
      match ParseUvarint(b1)
      case Malformed => None
      case Parsed(src, b2) =>
        match ParseUvarint(b2)
        case Malformed => None
        case Parsed(dst, b3) =>
          match DecodeProps(b3)
          case Malformed => None
          case Parsed(props, _) => Some(EdgeRec(Truncate(typ), src, dst, props))
  }

  // ----- Round trips -----

  /** Lengths are those a Go slice, string or map can have. */
  predicate Sized(v: Value)
    decreases v
  {
    match v
    case Str(s) => |s| < TWO_63
    case List(_) => |v.elems| < TWO_63 && forall i :: 0 <= i < |v.elems| ==> Sized(v.elems[i])
    case Map(_) => |v.entries| < TWO_63 && forall k :: k in v.entries ==> |k| < TWO_63 && Sized(v.entries[k])
    case _ => true
  }

  lemma CountRoundTrip(n: nat, items: Bytes, t: Bytes)
    requires n < TWO_64 && n <= |items|
    ensures ParseCount((AppendUvarint(n) + items) + t) == Parsed(n, items + t)
  {
    assert (AppendUvarint(n) + items) + t == AppendUvarint(n) + (items + t);
    UvarintRoundTrip(n, items + t);
  }

  lemma FloatRoundTrip(f: F64, t: Bytes)
    ensures ParseValue(AppendValue(Float(f)) + t) == Parsed(Float(f), t)
  {
    hide Lex.BigEndian, Lex.FromBigEndian, Lex.Power256;
    var b := AppendValue(Float(f)) + t;
    assert b[1..9] == Lex.BigEndian(Bits(f), 8) && b[9..] == t;
    Lex.Power256Of8();
    Lex.BigEndianRoundTrip(Bits(f), 8);
    FromBitsOf(f);
  }

  lemma TagOff(tag: byte, body: Bytes, t: Bytes)
    ensures ([tag] + body + t)[0] == tag && ([tag] + body + t)[1..] == body + t
  {
  }

  lemma StrRoundTrip(s: Bytes, t: Bytes)
    requires |s| < TWO_63
    ensures ParseValue(AppendValue(Str(s)) + t) == Parsed(Str(s), t)
  {
    hide AppendUvarint, ParseCount;
    TagOff(REC_STR, AppendUvarint(|s|) + s, t);
    CountRoundTrip(|s|, s, t);
    assert (s + t)[..|s|] == s && (s + t)[|s|..] == t;
  }

  lemma IntRoundTrip(i: Int64, t: Bytes)
    ensures ParseValue(AppendValue(Int(i)) + t) == Parsed(Int(i), t)
  {
    hide AppendUvarint, ParseVarint;
    TagOff(REC_INT, AppendUvarint(ZigZag(i)), t);
    VarintRoundTrip(i, t);
  }

  /** Decoding an encoded value gives it back, whatever follows. */
  lemma {:induction false} ValueRoundTrip(v: Value, t: Bytes)
    requires Sized(v)
    ensures ParseValue(AppendValue(v) + t) == Parsed(v, t)
    decreases v, 1, 0
  {
    match v
    case Null => assert (AppendValue(v) + t)[1..] == t;
    case Bool(_) => assert (AppendValue(v) + t)[2..] == t;
    case Int(i) => IntRoundTrip(i, t);
    case Float(f) => FloatRoundTrip(f, t);
    case Str(s) => StrRoundTrip(s, t);
    case List(_) => ListRoundTrip(v, t);
    case Map(_) => MapRoundTrip(v, t);
  }

  lemma {:induction false} ListRoundTrip(v: Value, t: Bytes)
    requires v.List? && Sized(v)
    ensures ParseValue(AppendValue(v) + t) == Parsed(v, t)
    decreases v, 0, |v.elems| + 1
  {
    hide AppendUvarint, ParseCount, AppendElems, ParseElems;
    var n, items := |v.elems|, AppendElems(v, 0);
    TagOff(REC_LIST, AppendUvarint(n) + items, t);
    CountRoundTrip(n, items, t);
    ElemsRoundTrip(v, 0, t);
  }

  lemma {:induction false} ElemsRoundTrip(v: Value, i: nat, t: Bytes)
    requires v.List? && i <= |v.elems| && Sized(v)
    ensures ParseElems(|v.elems| - i, AppendElems(v, i) + t) == Parsed(v.elems[i..], t)
    decreases v, 0, |v.elems| - i
  {
    hide AppendValue, ParseValue;
    if i < |v.elems| {
      var head, tail := AppendValue(v.elems[i]), AppendElems(v, i + 1);
      assert (head + tail) + t == head + (tail + t);
      ValueRoundTrip(v.elems[i], tail + t);
      ElemsRoundTrip(v, i + 1, t);
      assert [v.elems[i]] + v.elems[i+1..] == v.elems[i..];
    } else {
      assert AppendElems(v, i) + t == t && v.elems[i..] == [];
    }
  }

  lemma {:induction false} MapRoundTrip(v: Value, t: Bytes)
    requires v.Map? && Sized(v)
    ensures ParseValue(AppendValue(v) + t) == Parsed(v, t)
    decreases v, 0, |v.entries| + 1
  {
    hide AppendUvarint, ParseCount, AppendEntries, ParseEntries, Ordered, Restrict, Sized;
    SizedEntries(v);
    var ks := Ordered(v.entries.Keys);
    var n, items := |ks|, AppendEntries(v, ks);
    TagOff(REC_MAP, AppendUvarint(n) + items, t);
    CountRoundTrip(n, items, t);
    EntriesRoundTrip(v, ks, map[], t);
    RestrictAll(v.entries, ks);
  }

  lemma SizedEntries(v: Value)
    requires v.Map? && Sized(v)
    ensures |v.entries| < TWO_63
  {
  }

  lemma RestrictAll<K, W>(m: map<K, W>, ks: seq<K>)
    requires forall k :: k in m ==> k in ks
    ensures map[] + Restrict(m, ks) == m
  {
  }

  function Restrict<K, W>(m: map<K, W>, ks: seq<K>): map<K, W>
  {
    map k | k in m && k in ks :: m[k]
  }

  /** A key with its length, and what follows it. */
  lemma EntryHead(k: Bytes, val: Bytes, tail: Bytes, t: Bytes)
    requires |k| < TWO_63
    ensures var p := ParseCount((AppendUvarint(|k|) + (k + (val + tail))) + t);
            p.Parsed? && p.value == |k| && p.rest[..|k|] == k && p.rest[|k|..] == val + (tail + t)
  {
    hide AppendUvarint, ParseCount;
    var item := k + (val + tail);
    CountRoundTrip(|k|, item, t);
    KeyThenRest(k, val, tail, t);
  }

  lemma KeyThenRest(k: Bytes, val: Bytes, tail: Bytes, t: Bytes)
    ensures var b := (k + (val + tail)) + t; b[..|k|] == k && b[|k|..] == val + (tail + t)
  {
  }

  lemma {:induction false} EntriesRoundTrip(v: Value, ks: seq<Bytes>, m: map<Bytes, Value>, t: Bytes)
    requires v.Map? && Sized(v) && forall k :: k in ks ==> k in v.entries
    ensures ParseEntries(|ks|, AppendEntries(v, ks) + t, m) == Parsed(m + Restrict(v.entries, ks), t)
    decreases v, 0, |ks|
  {
    hide AppendValue, ParseValue, ParseCount, AppendUvarint, Restrict;
    if ks == [] {
      RestrictNone(v.entries, m);
      assert AppendEntries(v, ks) + t == t;
    } else {
      var k := ks[0];
      assert k in ks;
      var w := v.entries[k];
      var tail := AppendEntries(v, ks[1..]);
      EntryHead(k, AppendValue(w), tail, t);
      ValueRoundTrip(w, tail + t);
      EntriesRoundTrip(v, ks[1..], m[k := w], t);
      OneMoreEntry(v.entries, ks, m);
    }
  }

  lemma RestrictNone<K, W>(entries: map<K, W>, m: map<K, W>)
    ensures m + Restrict(entries, []) == m
  {
  }

  lemma OneMoreEntry<K, W>(entries: map<K, W>, ks: seq<K>, m: map<K, W>)
    requires ks != [] && ks[0] in entries
    ensures m[ks[0] := entries[ks[0]]] + Restrict(entries, ks[1..]) == m + Restrict(entries, ks)
  {
    assert forall k :: k in ks <==> k == ks[0] || k in ks[1..];
  }

  // ----- Records -----

  predicate SizedProps(props: Props)
  {
    |props| < TWO_63 && forall k :: k in props ==> k <= MAX_U32 && Sized(props[k])
  }

  lemma {:induction false} PropsRoundTrip(props: Props, ks: seq<nat>, m: Props, t: Bytes)
    requires SizedProps(props) && forall k :: k in ks ==> k in props
    ensures ParseProps(|ks|, AppendProps(props, ks) + t, m) == Parsed(m + Restrict(props, ks), t)
    decreases |ks|
  {
    hide AppendValue, ParseValue, ParseUvarint, AppendUvarint, Restrict;
    if ks == [] {
      RestrictNone(props, m);
      assert AppendProps(props, ks) + t == t;
    } else {
      var k := ks[0];
      assert k in ks;
      var tail := AppendProps(props, ks[1..]);
      var item := AppendValue(props[k]) + tail;
      assert (AppendUvarint(k) + item) + t == AppendUvarint(k) + (item + t);
      UvarintRoundTrip(k, item + t);
      assert item + t == AppendValue(props[k]) + (tail + t);
      ValueRoundTrip(props[k], tail + t);
      PropsRoundTrip(props, ks[1..], m[k := props[k]], t);
      OneMoreEntry(props, ks, m);
    }
  }

  lemma DecodePropsRoundTrip(props: Props, t: Bytes)
    requires SizedProps(props)
    ensures DecodeProps(EncodeProps(props) + t) == Parsed(props, t)
  {
    hide AppendProps, ParseProps, ParseCount, AppendUvarint, OrderedIds;
    var ks := OrderedIds(props.Keys);
    CountRoundTrip(|ks|, AppendProps(props, ks), t);
    PropsRoundTrip(props, ks, map[], t);
    RestrictAll(props, ks);
  }

  lemma {:induction false} LabelsRoundTrip(ls: seq<nat>, t: Bytes)
    requires forall l :: l in ls ==> l <= MAX_U32
    ensures ParseLabels(|ls|, AppendLabels(ls) + t) == Parsed(ls, t)
  {
    hide ParseUvarint, AppendUvarint;
    if ls == [] {
      assert AppendLabels(ls) + t == t;
    } else {
      assert ls[0] in ls && forall l :: l in ls[1..] ==> l in ls;
      var tail := AppendLabels(ls[1..]);
      assert (AppendUvarint(ls[0]) + tail) + t == AppendUvarint(ls[0]) + (tail + t);
      UvarintRoundTrip(ls[0], tail + t);
      LabelsRoundTrip(ls[1..], t);
      assert [ls[0]] + ls[1..] == ls;
    }
  }

  /** A node record comes back with its labels sorted. */
  lemma NodeRoundTrip(rec: NodeRec, t: Bytes)
    requires |rec.labels| < TWO_63 && (forall l :: l in rec.labels ==> l <= MAX_U32) && SizedProps(rec.props)
    ensures DecodeNode(EncodeNode(rec) + t) == Some(NodeRec(SortNats(rec.labels), rec.props))
  {
    hide ParseCount, AppendUvarint, AppendLabels, ParseLabels, DecodeProps, EncodeProps;
    var ls := SortNats(rec.labels);
    SortNatsMembers(rec.labels);
    assert |ls| == |multiset(ls)| == |multiset(rec.labels)|;
    var props := EncodeProps(rec.props);
    CountRoundTrip(|ls|, AppendLabels(ls) + props, t);
    assert (AppendLabels(ls) + props) + t == AppendLabels(ls) + (props + t);
    LabelsRoundTrip(ls, props + t);
    DecodePropsRoundTrip(rec.props, t);
  }

  lemma EdgeRoundTrip(rec: EdgeRec, t: Bytes)
    requires rec.typ <= MAX_U32 && rec.src < TWO_64 && rec.dst < TWO_64 && SizedProps(rec.props)
    ensures DecodeEdge(EncodeEdge(rec) + t) == Some(rec)
  {
    hide ParseUvarint, AppendUvarint, DecodeProps, EncodeProps;
    var props := EncodeProps(rec.props);
    var b2 := AppendUvarint(rec.dst) + props;
    var b1 := AppendUvarint(rec.src) + b2;
    assert (AppendUvarint(rec.typ) + b1) + t == AppendUvarint(rec.typ) + (b1 + t);
    assert b1 + t == AppendUvarint(rec.src) + (b2 + t);
    assert b2 + t == AppendUvarint(rec.dst) + (props + t);
    UvarintRoundTrip(rec.typ, b1 + t);
    UvarintRoundTrip(rec.src, b2 + t);
    UvarintRoundTrip(rec.dst, props + t);
    DecodePropsRoundTrip(rec.props, t);
  }
}
