/**
 * Index lookups against plain scans: on a consistent store, probing the
 * property index returns exactly what filtering the records would.
 */
module IndexAccess {
  import opened Seqs
  import opened Values
  import opened Compare
  import opened GraphStore
  import opened ValueCodec
  import opened KeyCodec
  import opened KeyScan
  import Lex

  // ----- The keys of a store -----

  predicate Has(s: Store, k: Key)
  {
    match k
    case NodeK(n) => n in s.nodes
    case EdgeK(e) => e in s.edges
    case OutK(e) => e in s.outs
    case InK(e) => e in s.ins
    case LabelK(l) => l in s.labels
    case PropK(p) => p in s.props
    case UniqueK(c) => c in s.owners
    case RelK(r) => r in s.rels
    case CounterK(kind) => kind in s.cat.counters
    case NameK(n) => n in s.cat.ids
    case IdK(i) => i in s.cat.names
    case IndexK(on) => on in s.cat.indexes
    case ConstraintK(on) => on in s.cat.constraints
    case RelIndexK(on) => on in s.cat.relIndexes
  }

  function RecordKeys(s: Store): set<Key>
  {
    (set n | n in s.nodes :: NodeK(n)) + (set e | e in s.edges :: EdgeK(e)) +
    (set e | e in s.outs :: OutK(e)) + (set e | e in s.ins :: InK(e))
  }

  function EntryKeys(s: Store): set<Key>
  {
    (set l | l in s.labels :: LabelK(l)) + (set p | p in s.props :: PropK(p)) +
    (set c | c in s.owners :: UniqueK(c)) + (set r | r in s.rels :: RelK(r))
  }

  function CatalogKeys(s: Store): set<Key>
  {
    (set k | k in s.cat.counters :: CounterK(k)) + (set n | n in s.cat.ids :: NameK(n)) +
    (set i | i in s.cat.names :: IdK(i)) + (set on | on in s.cat.indexes :: IndexK(on)) +
    (set on | on in s.cat.constraints :: ConstraintK(on)) + (set on | on in s.cat.relIndexes :: RelIndexK(on))
  }

  function KeysOf(s: Store): set<Key>
  {
    RecordKeys(s) + EntryKeys(s) + CatalogKeys(s)
  }

  lemma RecordKeysHas(s: Store, k: Key)
    ensures k in RecordKeys(s) <==> (k.NodeK? || k.EdgeK? || k.OutK? || k.InK?) && Has(s, k)
  {
  }

  lemma EntryKeysHas(s: Store, k: Key)
    ensures k in EntryKeys(s) <==> (k.LabelK? || k.PropK? || k.UniqueK? || k.RelK?) && Has(s, k)
  {
  }

  lemma CatalogKeysHas(s: Store, k: Key)
    ensures k in CatalogKeys(s) <==>
            (k.CounterK? || k.NameK? || k.IdK? || k.IndexK? || k.ConstraintK? || k.RelIndexK?) && Has(s, k)
  {
  }

  lemma KeysOfHas(s: Store, k: Key)
    ensures k in KeysOf(s) <==> Has(s, k)
  {
    hide RecordKeys, EntryKeys, CatalogKeys, Has;
    RecordKeysHas(s, k);
    EntryKeysHas(s, k);
    CatalogKeysHas(s, k);
  }

  /** Ids have the width of their key fields, as the source's types give them. */
  ghost predicate Encodable(s: Store)
  {
    forall k :: Has(s, k) ==> Fits(k)
  }

  lemma EncodableRecords(s: Store, k: Key)
    requires Consistent(s) && WidthsOk(s) && Has(s, k)
    requires k.NodeK? || k.EdgeK? || k.OutK? || k.InK? || k.LabelK?
    ensures Fits(k)
  {
    hide Agrees, RelsAgree, NamesKnown, IdsKnown;
    assert RecordsOk(s) && IdsInRange(s.cat);
  }

  lemma EncodableProp(s: Store, p: PropEntry)
    requires Consistent(s) && WidthsOk(s) && p in s.props
    ensures Fits(PropK(p))
  {
    hide LabelsAgree, EdgesAgree, RelsAgree, NamesKnown, IdsKnown, Owned;
    assert HasFact(s.nodes, p);
  }

  lemma EncodableClaim(s: Store, c: Claim)
    requires Consistent(s) && WidthsOk(s) && c in s.owners
    ensures Fits(UniqueK(c))
  {
    hide Others, Indexed, Facts;
    var p :| p in Facts(s.nodes) && ClaimedBy(s, p, c) && p.node == s.owners[c];
  }

  lemma EncodableRel(s: Store, r: RelEntry)
    requires Consistent(s) && WidthsOk(s) && r in s.rels
    ensures Fits(RelK(r))
  {
    hide LabelsAgree, EdgesAgree, NamesKnown, IdsKnown, Agrees;
    assert HasRelFact(s.edges, r);
  }

  lemma GivenHas(s: Store, k: Key)
    requires Has(s, k)
    ensures (k.PropK? ==> k.p in s.props) && (k.UniqueK? ==> k.c in s.owners) && (k.RelK? ==> k.r in s.rels)
  {
  }

  lemma EncodableCatalog(s: Store, k: Key)
    requires Consistent(s) && WidthsOk(s) && Has(s, k)
    requires k.CounterK? || k.NameK? || k.IdK? || k.IndexK? || k.ConstraintK? || k.RelIndexK?
    ensures Fits(k)
  {
    hide LabelsAgree, EdgesAgree, RelsAgree, Indexed, Owned, RecordsOk;
  }

  lemma WidthsFrom(s: Store)
    requires Consistent(s) && Encodable(s)
    ensures WidthsOk(s)
  {
    forall n, l | n in s.nodes && l in s.nodes[n].labels ensures l <= MAX_U32 {
      assert LabelEntry(l, n) in s.labels;
      assert Has(s, LabelK(LabelEntry(l, n)));
    }
    forall e | e in s.edges ensures s.edges[e].typ <= MAX_U32 {
      assert RefOf(e, s.edges[e]) in s.outs;
      assert Has(s, OutK(RefOf(e, s.edges[e])));
    }
    forall on | on in s.cat.indexes || on in s.cat.relIndexes ensures PairFits(on) {
      assert on in s.cat.indexes ==> Has(s, IndexK(on));
      assert on in s.cat.relIndexes ==> Has(s, RelIndexK(on));
    }
  }

  /** Every key of a consistent store can be encoded exactly when the interned ids have their width. */
  lemma EncodableExact(s: Store)
    requires Consistent(s)
    ensures Encodable(s) <==> WidthsOk(s)
  {
    if WidthsOk(s) {
      forall k | Has(s, k) ensures Fits(k) {
        hide Consistent, WidthsOk, Fits, Has;
        if k.NodeK? || k.EdgeK? || k.OutK? || k.InK? || k.LabelK? {
          EncodableRecords(s, k);
        } else if k.PropK? {
          GivenHas(s, k);
          EncodableProp(s, k.p);
        } else if k.UniqueK? {
          GivenHas(s, k);
          EncodableClaim(s, k.c);
        } else if k.RelK? {
          GivenHas(s, k);
          EncodableRel(s, k.r);
        } else {
          EncodableCatalog(s, k);
        }
      }
    }
    if Encodable(s) {
      WidthsFrom(s);
    }
  }

  function ByteKeys(s: Store): set<Bytes>
  {
    set k | k in KeysOf(s) && Fits(k) :: EncodeKey(k)
  }

  lemma ByteKey(s: Store, k: Key)
    requires Fits(k)
    ensures EncodeKey(k) in ByteKeys(s) <==> Has(s, k)
  {
    hide EncodeKey, Has, KeysOf, Fits;
    KeysOfHas(s, k);
    if EncodeKey(k) in ByteKeys(s) {
      var j :| j in KeysOf(s) && Fits(j) && EncodeKey(j) == EncodeKey(k);
      KeyInjective(j, k);
    }
  }

  lemma KeyOfBytes(s: Store, b: Bytes) returns (k: Key)
    requires b in ByteKeys(s)
    ensures Has(s, k) && Fits(k) && EncodeKey(k) == b
  {
    hide EncodeKey, Has, KeysOf, Fits;
    k :| k in KeysOf(s) && Fits(k) && EncodeKey(k) == b;
    KeysOfHas(s, k);
  }

  // ----- Parsing -----

  function LastId(key: Bytes): nat
    requires |key| >= 8
  {
    Lex.FromBigEndian(key[|key|-8..])
  }

  function ParsePropKeyNode(key: Bytes): Option<nat>
  {
    if |key| < 18 || key[0] != 'p' as byte then None else Some(LastId(key))
  }

  function ParsePropKey(key: Bytes): Option<(Value, nat)>
  {
    if |key| < 18 || key[0] != 'p' as byte then None
    else
      match Decode(key[9..])
      case Ok(v, n) => if |key| != 9 + n + 8 then None else Some((v, LastId(key)))
      case _ => None
  }

  function ParseRelPropKey(key: Bytes): Option<(Value, nat)>
  {
    if |key| < 18 || key[0] != 'r' as byte then None
    else
      match Decode(key[9..])
      case Ok(v, n) => if |key| != 9 + n + 8 then None else Some((v, LastId(key)))
      case _ => None
  }

  function ParseLabelKey(key: Bytes): Option<LabelEntry>
  {
    if |key| != 13 || key[0] != 'l' as byte then None
    else Some(LabelEntry(Lex.FromBigEndian(key[1..5]), Lex.FromBigEndian(key[5..13])))
  }

  lemma TailId(head: Bytes, n: nat)
    requires n < TWO_64
    ensures LastId(head + U64(n)) == n
  {
    assert (head + U64(n))[|head|..] == U64(n);
    Lex.Power256Of8();
    Lex.BigEndianRoundTrip(n, 8);
  }

  lemma EntryBytes(tag: byte, on: Pair, v: Value, n: nat)
    requires PairFits(on) && IsIndexable(v) && n < TWO_64
    ensures var key := [tag] + (PairBytes(on) + (Encode(v) + U64(n)));
            && |key| == 9 + |Encode(v)| + 8 && key[0] == tag && LastId(key) == n
            && Decode(key[9..]) == Ok(v, |Encode(v)|)
  {
    var key := [tag] + (PairBytes(on) + (Encode(v) + U64(n)));
    assert key == ([tag] + PairBytes(on) + Encode(v)) + U64(n);
    TailId([tag] + PairBytes(on) + Encode(v), n);
    assert key[9..] == Encode(v) + U64(n);
    DecodeRoundTrip(v, U64(n));
  }

  lemma ParsePropKeyOf(p: PropEntry)
    requires Fits(PropK(p))
    ensures ParsePropKey(EncodeKey(PropK(p))) == Some((p.value, p.node))
    ensures ParsePropKeyNode(EncodeKey(PropK(p))) == Some(p.node)
  {
    EntryBytes('p' as byte, p.on, p.value, p.node);
    hide Encode, Decode, PairBytes, U64;
  }

  lemma ParseRelPropKeyOf(r: RelEntry)
    requires Fits(RelK(r))
    ensures ParseRelPropKey(EncodeKey(RelK(r))) == Some((r.value, r.edge))
  {
    EntryBytes('r' as byte, r.on, r.value, r.edge);
    hide Encode, Decode, PairBytes, U64;
  }

  lemma ParseLabelKeyOf(l: LabelEntry)
    requires Fits(LabelK(l))
    ensures ParseLabelKey(EncodeKey(LabelK(l))) == Some(l)
  {
    var key := EncodeKey(LabelK(l));
    assert key == ['l' as byte] + (U32(l.lab) + U64(l.node));
    assert key[1..5] == U32(l.lab) && key[5..13] == U64(l.node);
    Lex.Power256Of4();
    Lex.Power256Of8();
    Lex.BigEndianRoundTrip(l.lab, 4);
    Lex.BigEndianRoundTrip(l.node, 8);
  }

  lemma ParseEdgeKeyOf(e: nat)
    requires e < TWO_64
    ensures ParseEdgeKey(EncodeKey(EdgeK(e))) == Some(e)
  {
    TailId(['e' as byte], e);
  }

  function ParseEdgeKey(key: Bytes): Option<nat>
  {
    if |key| != 9 || key[0] != 'e' as byte then None else Some(LastId(key))
  }

  lemma EdgeKeyOrder(e: nat, f: nat)
    requires e < TWO_64 && f < TWO_64
    ensures Lex.Less(EncodeKey(EdgeK(e)), EncodeKey(EdgeK(f))) <==> e < f
  {
    Lex.Power256Of8();
    Lex.BigEndianOrder(e, f, 8);
    Lex.DropPrefix(['e' as byte], U64(e), U64(f));
  }

  // ----- One equality probe -----

  /** The keys under an equality prefix are the entries with that value. */
  lemma ProbeKeys(s: Store, on: Pair, v: Value, key: Bytes)
    requires Encodable(s) && PairFits(on) && IsIndexable(v)
    ensures key in ByteKeys(s) && PropPrefix(on, v) <= key <==>
            exists n :: EntryKeyIs(s, on, v, key, n)
  {
    hide EncodeKey, PropPrefix, ByteKeys, Encode;
    if key in ByteKeys(s) && PropPrefix(on, v) <= key {
      var k := KeyOfBytes(s, key);
      PropPrefixExact(k, on, v);
      assert k == PropK(PropEntry(on, v, k.p.node));
      assert EntryKeyIs(s, on, v, key, k.p.node);
    }
    forall n | EntryKeyIs(s, on, v, key, n)
      ensures key in ByteKeys(s) && PropPrefix(on, v) <= key
    {
      var k := PropK(PropEntry(on, v, n));
      assert Has(s, k);
      ByteKey(s, k);
      PropPrefixExact(k, on, v);
    }
  }

  lemma RelProbeKeys(s: Store, on: Pair, v: Value, key: Bytes)
    requires Encodable(s) && PairFits(on) && IsIndexable(v)
    ensures key in ByteKeys(s) && RelPropPrefix(on, v) <= key <==>
            exists e :: RelKeyIs(s, on, v, key, e)
  {
    hide EncodeKey, RelPropPrefix, ByteKeys, Encode;
    if key in ByteKeys(s) && RelPropPrefix(on, v) <= key {
      var k := KeyOfBytes(s, key);
      RelPropPrefixExact(k, on, v);
      assert k == RelK(RelEntry(on, v, k.r.edge));
      assert RelKeyIs(s, on, v, key, k.r.edge);
    }
    forall e | RelKeyIs(s, on, v, key, e)
      ensures key in ByteKeys(s) && RelPropPrefix(on, v) <= key
    {
      var k := RelK(RelEntry(on, v, e));
      assert Has(s, k);
      ByteKey(s, k);
      RelPropPrefixExact(k, on, v);
    }
  }

  /** ids are, each once, the nodes with an entry of this value. */
  ghost predicate Hits(s: Store, on: Pair, v: Value, ids: seq<nat>)
  {
    NoDups(ids) && forall n :: n in ids <==> PropEntry(on, v, n) in s.props
  }

  ghost predicate RelHits(s: Store, on: Pair, v: Value, ids: seq<nat>)
  {
    NoDups(ids) && forall e :: e in ids <==> RelEntry(on, v, e) in s.rels
  }

  /** A key under the prefix parses to the node of the entry it stands for. */
  lemma ProbeParses(s: Store, on: Pair, v: Value, key: Bytes)
    requires Encodable(s) && PairFits(on) && IsIndexable(v)
    requires key in ByteKeys(s) && PropPrefix(on, v) <= key
    ensures ParsePropKeyNode(key).Some? && EntryKeyIs(s, on, v, key, ParsePropKeyNode(key).value)
  {
    hide ByteKeys, PropPrefix, EncodeKey, ParsePropKeyNode;
    ProbeKeys(s, on, v, key);
    var n :| EntryKeyIs(s, on, v, key, n);
    ParsePropKeyOf(PropEntry(on, v, n));
  }

  lemma RelProbeParses(s: Store, on: Pair, v: Value, key: Bytes)
    requires Encodable(s) && PairFits(on) && IsIndexable(v)
    requires key in ByteKeys(s) && RelPropPrefix(on, v) <= key
    ensures ParseRelPropKey(key).Some? && RelKeyIs(s, on, v, key, ParseRelPropKey(key).value.1)
  {
    hide ByteKeys, RelPropPrefix, EncodeKey, ParseRelPropKey;
    RelProbeKeys(s, on, v, key);
    var e :| RelKeyIs(s, on, v, key, e);
    ParseRelPropKeyOf(RelEntry(on, v, e));
  }

  /** appendIndexMatches on one probe. */
  method IndexMatches(s: Store, on: Pair, v: Value) returns (ids: seq<nat>)
    requires Encodable(s) && PairFits(on) && IsIndexable(v)
    ensures Hits(s, on, v, ids)
  {
    hide EncodeKey, PropPrefix, ByteKeys, ParsePropKeyNode, Lex.Less, Fits, Has;
    ids := [];
    var ks := ScanFrom(ByteKeys(s), PropPrefix(on, v), []);
    for i := 0 to |ks|
      invariant |ids| == i
      invariant forall j :: 0 <= j < i ==> EntryKeyIs(s, on, v, ks[j], ids[j])
    {
      ProbeParses(s, on, v, ks[i]);
      ids := ids + [ParsePropKeyNode(ks[i]).value];
    }
    MatchesExact(s, on, v, ks, ids);
  }

  ghost predicate EntryKeyIs(s: Store, on: Pair, v: Value, key: Bytes, n: nat)
  {
    var p := PropEntry(on, v, n);
    p in s.props && Fits(PropK(p)) && key == EncodeKey(PropK(p))
  }

  lemma MatchesExact(s: Store, on: Pair, v: Value, ks: seq<Bytes>, ids: seq<nat>)
    requires Encodable(s) && PairFits(on) && IsIndexable(v)
    requires IsScan(ByteKeys(s), PropPrefix(on, v), [], ks) && |ids| == |ks|
    requires forall j :: 0 <= j < |ids| ==> EntryKeyIs(s, on, v, ks[j], ids[j])
    ensures Hits(s, on, v, ids)
  {
    hide EncodeKey, PropPrefix, ByteKeys, Fits, Has;
    SortedDistinct(ks);
    forall n | PropEntry(on, v, n) in s.props ensures n in ids {
      var p := PropEntry(on, v, n);
      EntryFits(s, p);
      assert EntryKeyIs(s, on, v, EncodeKey(PropK(p)), n);
      ProbeKeys(s, on, v, EncodeKey(PropK(p)));
      var j :| 0 <= j < |ks| && ks[j] == EncodeKey(PropK(p));
      KeyInjective(PropK(p), PropK(PropEntry(on, v, ids[j])));
    }
  }

  lemma EntryFits(s: Store, p: PropEntry)
    requires Encodable(s) && p in s.props
    ensures Fits(PropK(p))
  {
    assert Has(s, PropK(p));
  }

  ghost predicate RelKeyIs(s: Store, on: Pair, v: Value, key: Bytes, e: nat)
  {
    var r := RelEntry(on, v, e);
    r in s.rels && Fits(RelK(r)) && key == EncodeKey(RelK(r))
  }

  lemma RelMatchesExact(s: Store, on: Pair, v: Value, ks: seq<Bytes>, ids: seq<nat>)
    requires Encodable(s) && PairFits(on) && IsIndexable(v)
    requires IsScan(ByteKeys(s), RelPropPrefix(on, v), [], ks) && |ids| == |ks|
    requires forall j :: 0 <= j < |ids| ==> RelKeyIs(s, on, v, ks[j], ids[j])
    ensures RelHits(s, on, v, ids)
  {
    hide EncodeKey, RelPropPrefix, ByteKeys, Fits, Has;
    SortedDistinct(ks);
    forall e | RelEntry(on, v, e) in s.rels ensures e in ids {
      var r := RelEntry(on, v, e);
      RelFits(s, r);
      assert RelKeyIs(s, on, v, EncodeKey(RelK(r)), e);
      RelProbeKeys(s, on, v, EncodeKey(RelK(r)));
      var j :| 0 <= j < |ks| && ks[j] == EncodeKey(RelK(r));
      KeyInjective(RelK(r), RelK(RelEntry(on, v, ids[j])));
    }
  }

  lemma RelFits(s: Store, r: RelEntry)
    requires Encodable(s) && r in s.rels
    ensures Fits(RelK(r))
  {
    assert Has(s, RelK(r));
  }

  method RelIndexMatches(s: Store, on: Pair, v: Value) returns (ids: seq<nat>)
    requires Encodable(s) && PairFits(on) && IsIndexable(v)
    ensures RelHits(s, on, v, ids)
  {
    hide EncodeKey, RelPropPrefix, ByteKeys, ParseRelPropKey, Lex.Less, Fits, Has;
    ids := [];
    var ks := ScanFrom(ByteKeys(s), RelPropPrefix(on, v), []);
    for i := 0 to |ks|
      invariant |ids| == i
      invariant forall j :: 0 <= j < i ==> RelKeyIs(s, on, v, ks[j], ids[j])
    {
      RelProbeParses(s, on, v, ks[i]);
      ids := ids + [ParseRelPropKey(ks[i]).value.1];
    }
    RelMatchesExact(s, on, v, ks, ids);
  }

  // ----- Label scans -----

  lemma LabelParses(s: Store, l: nat, key: Bytes)
    requires Encodable(s) && l <= MAX_U32 && key in ByteKeys(s) && LabelPrefix(l) <= key
    ensures ParseLabelKey(key).Some? && LabelKeyIs(s, l, key, ParseLabelKey(key).value.node)
  {
    hide EncodeKey, LabelPrefix, ByteKeys, ParseLabelKey;
    var k := KeyOfBytes(s, key);
    LabelPrefixExact(k, l);
    ParseLabelKeyOf(k.entry);
    assert k.entry == LabelEntry(l, k.entry.node);
  }

  ghost predicate LabelKeyIs(s: Store, l: nat, key: Bytes, n: nat)
  {
    var e := LabelEntry(l, n);
    e in s.labels && Fits(LabelK(e)) && key == EncodeKey(LabelK(e))
  }

  lemma LabelScanExact(s: Store, l: nat, ks: seq<Bytes>, ids: seq<nat>)
    requires Encodable(s) && l <= MAX_U32 && IsScan(ByteKeys(s), LabelPrefix(l), [], ks) && |ids| == |ks|
    requires forall j :: 0 <= j < |ids| ==> LabelKeyIs(s, l, ks[j], ids[j])
    ensures StrictlyAscending(ids) && forall n :: n in ids <==> LabelEntry(l, n) in s.labels
  {
    hide EncodeKey, LabelPrefix, ByteKeys;
    forall i, j | 0 <= i < j < |ids| ensures ids[i] < ids[j] {
      LabelKeyOrder(l, ids[i], ids[j]);
    }
    forall n | LabelEntry(l, n) in s.labels ensures n in ids {
      var k := LabelK(LabelEntry(l, n));
      assert Has(s, k);
      ByteKey(s, k);
      LabelPrefixExact(k, l);
      var j :| 0 <= j < |ks| && ks[j] == EncodeKey(k);
      KeyInjective(k, LabelK(LabelEntry(l, ids[j])));
    }
  }

  /** The labelled nodes, in id order. */
  method NodesByLabel(s: Store, l: nat) returns (ids: seq<nat>)
    requires Encodable(s) && l <= MAX_U32
    ensures StrictlyAscending(ids) && forall n :: n in ids <==> LabelEntry(l, n) in s.labels
  {
    hide EncodeKey, LabelPrefix, ByteKeys, ParseLabelKey, Lex.Less, Fits, Has;
    ids := [];
    var ks := ScanFrom(ByteKeys(s), LabelPrefix(l), []);
    for i := 0 to |ks|
      invariant |ids| == i
      invariant forall j :: 0 <= j < i ==> LabelKeyIs(s, l, ks[j], ids[j])
    {
      LabelParses(s, l, ks[i]);
      ids := ids + [ParseLabelKey(ks[i]).value.node];
    }
    LabelScanExact(s, l, ks, ids);
  }

  // ----- Lookup by value -----

  /** The node has the label and a value that a query considers equal. */
  predicate Matches(s: Store, on: Pair, value: Value, n: nat)
  {
    && n in s.nodes && on.owner in s.nodes[n].labels
    && on.key in s.nodes[n].props && QueryEqual(s.nodes[n].props[on.key], value)
  }

  predicate RelMatches(s: Store, on: Pair, value: Value, e: nat)
  {
    && e in s.edges && s.edges[e].typ == on.owner
    && on.key in s.edges[e].props && QueryEqual(s.edges[e].props[on.key], value)
  }

  lemma GivenTables(s: Store)
    requires Consistent(s)
    ensures LabelsAgree(s) && Indexed(s, Facts(s.nodes)) && RelsAgree(s) && RecordsOk(s)
  {
  }

  /** What the index holds for a node is one of its values, so entries of two values are of two nodes. */
  lemma OneEntry(s: Store, on: Pair, v: Value, w: Value, n: nat)
    requires Consistent(s) && PropEntry(on, v, n) in s.props && PropEntry(on, w, n) in s.props
    ensures v == w
  {
    GivenTables(s);
    hide Consistent;
    assert HasFact(s.nodes, PropEntry(on, v, n)) && HasFact(s.nodes, PropEntry(on, w, n));
  }

  lemma OneRelEntry(s: Store, on: Pair, v: Value, w: Value, e: nat)
    requires Consistent(s) && RelEntry(on, v, e) in s.rels && RelEntry(on, w, e) in s.rels
    ensures v == w
  {
    GivenTables(s);
    hide Consistent;
    assert HasRelFact(s.edges, RelEntry(on, v, e)) && HasRelFact(s.edges, RelEntry(on, w, e));
  }

  /** A node matches exactly when one of the probes has an entry for it. */
  lemma ProbesFindMatches(s: Store, on: Pair, value: Value, n: nat)
    requires Consistent(s) && on in s.cat.indexes && IsIndexable(value) && EqualityProbes(value).Some?
    ensures Matches(s, on, value, n) <==> exists v :: v in EqualityProbes(value).value && PropEntry(on, v, n) in s.props
  {
    GivenTables(s);
    hide Consistent, EqualityProbes, QueryEqual;
    if Matches(s, on, value, n) {
      var w := s.nodes[n].props[on.key];
      QueryEqualIndexable(w, value);
      ProbesExact(value, w);
      assert HasFact(s.nodes, PropEntry(on, w, n));
      assert PropEntry(on, w, n) in s.props;
    }
    forall v | v in EqualityProbes(value).value && PropEntry(on, v, n) in s.props ensures Matches(s, on, value, n) {
      assert HasFact(s.nodes, PropEntry(on, v, n));
      ProbesExact(value, v);
    }
  }

  lemma RelProbesFindMatches(s: Store, on: Pair, value: Value, e: nat)
    requires Consistent(s) && on in s.cat.relIndexes && IsIndexable(value) && EqualityProbes(value).Some?
    ensures RelMatches(s, on, value, e) <==>
            exists v :: v in EqualityProbes(value).value && RelEntry(on, v, e) in s.rels
  {
    GivenTables(s);
    hide Consistent, EqualityProbes, QueryEqual;
    if RelMatches(s, on, value, e) {
      var w := s.edges[e].props[on.key];
      QueryEqualIndexable(w, value);
      ProbesExact(value, w);
      assert HasRelFact(s.edges, RelEntry(on, w, e));
      assert RelEntry(on, w, e) in s.rels;
    }
    forall v | v in EqualityProbes(value).value && RelEntry(on, v, e) in s.rels ensures RelMatches(s, on, value, e) {
      assert HasRelFact(s.edges, RelEntry(on, v, e));
      ProbesExact(value, v);
    }
  }

  lemma QueryEqualIndexable(v: Value, w: Value)
    requires QueryEqual(v, w)
    ensures IsIndexable(v) && IsIndexable(w)
  {
  }

  lemma ProbesIndexable(v: Value)
    requires IsIndexable(v) && EqualityProbes(v).Some?
    ensures forall w :: w in EqualityProbes(v).value ==> IsIndexable(w)
  {
  }

  /** out holds, each once, the nodes that the given probes find. */
  ghost predicate Found(s: Store, on: Pair, probes: seq<Value>, out: seq<nat>)
  {
    NoDups(out) && forall n :: n in out <==> exists v :: v in probes && PropEntry(on, v, n) in s.props
  }

  lemma FoundMore(s: Store, on: Pair, probes: seq<Value>, out: seq<nat>, v: Value, ids: seq<nat>)
    requires Consistent(s) && Found(s, on, probes, out) && v !in probes && Hits(s, on, v, ids)
    ensures Found(s, on, probes + [v], out + ids)
  {
    hide Consistent;
    forall n | n in out ensures n !in ids {
      var w :| w in probes && PropEntry(on, w, n) in s.props;
      if n in ids {
        OneEntry(s, on, v, w, n);
      }
    }
    NoDupsConcat(out, ids);
    forall n ensures n in out + ids <==> exists w :: w in probes + [v] && PropEntry(on, w, n) in s.props {
      if PropEntry(on, v, n) in s.props {
        assert v in probes + [v];
      }
      if w :| w in probes && PropEntry(on, w, n) in s.props {
        assert w in probes + [v];
      }
    }
  }

  ghost predicate RelFound(s: Store, on: Pair, probes: seq<Value>, out: seq<nat>)
  {
    NoDups(out) && forall e :: e in out <==> exists v :: v in probes && RelEntry(on, v, e) in s.rels
  }

  lemma RelFoundMore(s: Store, on: Pair, probes: seq<Value>, out: seq<nat>, v: Value, ids: seq<nat>)
    requires Consistent(s) && RelFound(s, on, probes, out) && v !in probes && RelHits(s, on, v, ids)
    ensures RelFound(s, on, probes + [v], out + ids)
  {
    hide Consistent;
    forall e | e in out ensures e !in ids {
      var w :| w in probes && RelEntry(on, w, e) in s.rels;
      if e in ids {
        OneRelEntry(s, on, v, w, e);
      }
    }
    NoDupsConcat(out, ids);
    forall e ensures e in out + ids <==> exists w :: w in probes + [v] && RelEntry(on, w, e) in s.rels {
      if RelEntry(on, v, e) in s.rels {
        assert v in probes + [v];
      }
      if w :| w in probes && RelEntry(on, w, e) in s.rels {
        assert w in probes + [v];
      }
    }
  }

  lemma SortedIds(ids: seq<nat>)
    requires NoDups(ids)
    ensures StrictlyAscending(SortNats(ids)) && forall n :: n in SortNats(ids) <==> n in ids
  {
    SortNatsMembers(ids);
    SortNatsNoDups(ids);
  }

  method ProbeIndex(s: Store, on: Pair, value: Value) returns (out: seq<nat>)
    requires Consistent(s) && Encodable(s) && PairFits(on)
    requires on in s.cat.indexes && IsIndexable(value) && EqualityProbes(value).Some?
    ensures StrictlyAscending(out) && forall n :: n in out <==> Matches(s, on, value, n)
  {
    hide Consistent, Encodable, EqualityProbes, IsIndexable, Matches;
    out := [];
    var probes := EqualityProbes(value).value;
    ProbesOnce(value);
    ProbesIndexable(value);
    for i := 0 to |probes|
      invariant Found(s, on, probes[..i], out)
    {
      var ids := IndexMatches(s, on, probes[i]);
      FoundMore(s, on, probes[..i], out, probes[i], ids);
      assert probes[..i+1] == probes[..i] + [probes[i]];
      out := out + ids;
    }
    assert probes[..|probes|] == probes;
    forall n ensures n in out <==> Matches(s, on, value, n) {
      ProbesFindMatches(s, on, value, n);
    }
    SortedIds(out);
    out := SortNats(out);
  }

  method FilterByLabel(s: Store, on: Pair, value: Value) returns (out: seq<nat>)
    requires Consistent(s) && Encodable(s) && PairFits(on)
    ensures StrictlyAscending(out) && forall n :: n in out <==> Matches(s, on, value, n)
  {
    hide Consistent, Encodable, QueryEqual;
    GivenTables(s);
    var nodes := NodesByLabel(s, on.owner);
    out := [];
    for i := 0 to |nodes|
      invariant StrictlyAscending(out)
      invariant forall n :: n in out <==> n in nodes[..i] && Matches(s, on, value, n)
    {
      var n := nodes[i];
      assert LabelEntry(on.owner, n) in s.labels;
      if on.key in s.nodes[n].props && QueryEqual(s.nodes[n].props[on.key], value) {
        AscendingAppend(out, n);
        out := out + [n];
      }
    }
    forall n | Matches(s, on, value, n) ensures n in nodes {
      assert LabelEntry(on.owner, n) in s.labels;
    }
    assert nodes[..|nodes|] == nodes;
  }

  /**
   * The nodes with the label whose value a query considers equal, in id
   * order, whether or not the index can be used.
   */
  method NodesByProperty(s: Store, on: Pair, value: Value) returns (out: seq<nat>)
    requires Consistent(s) && Encodable(s) && PairFits(on)
    ensures StrictlyAscending(out) && forall n :: n in out <==> Matches(s, on, value, n)
  {
    hide Consistent, Encodable, EqualityProbes, Matches;
    if on in s.cat.indexes && EqualityProbes(value).Some? && IsIndexable(value) {
      out := ProbeIndex(s, on, value);
    } else {
      out := FilterByLabel(s, on, value);
    }
  }

  // ----- Relationships by value -----

  lemma EdgePrefixExact(k: Key)
    requires Fits(k)
    ensures ['e' as byte] <= EncodeKey(k) <==> k.EdgeK?
  {
    assert EncodeKey(k)[0] == Tag(k);
  }

  ghost predicate EdgeKeyIs(s: Store, key: Bytes, e: nat)
  {
    e in s.edges && e < TWO_64 && key == EncodeKey(EdgeK(e))
  }

  lemma EdgeParses(s: Store, key: Bytes)
    requires Encodable(s) && key in ByteKeys(s) && ['e' as byte] <= key
    ensures ParseEdgeKey(key).Some? && EdgeKeyIs(s, key, ParseEdgeKey(key).value)
  {
    hide EncodeKey, ByteKeys, ParseEdgeKey;
    var k := KeyOfBytes(s, key);
    EdgePrefixExact(k);
    ParseEdgeKeyOf(k.id);
  }

  lemma EdgeScanExact(s: Store, ks: seq<Bytes>, ids: seq<nat>)
    requires Encodable(s) && IsScan(ByteKeys(s), ['e' as byte], [], ks) && |ids| == |ks|
    requires forall j :: 0 <= j < |ids| ==> EdgeKeyIs(s, ks[j], ids[j])
    ensures StrictlyAscending(ids) && forall e :: e in ids <==> e in s.edges
  {
    hide EncodeKey, ByteKeys;
    forall i, j | 0 <= i < j < |ids| ensures ids[i] < ids[j] {
      EdgeKeyOrder(ids[i], ids[j]);
    }
    forall e | e in s.edges ensures e in ids {
      var k := EdgeK(e);
      assert Has(s, k);
      ByteKey(s, k);
      EdgePrefixExact(k);
      var j :| 0 <= j < |ks| && ks[j] == EncodeKey(k);
      KeyInjective(k, EdgeK(ids[j]));
    }
  }

  /** Every edge record of the type, in id order. */
  method ScanEdgesOfType(s: Store, typ: nat) returns (out: seq<nat>)
    requires Encodable(s)
    ensures StrictlyAscending(out) && forall e :: e in out <==> e in s.edges && s.edges[e].typ == typ
  {
    hide EncodeKey, ByteKeys, ParseEdgeKey, Lex.Less, Has, Fits;
    var ids := [];
    out := [];
    var ks := ScanFrom(ByteKeys(s), ['e' as byte], []);
    for i := 0 to |ks|
      invariant |ids| == i
      invariant forall j :: 0 <= j < i ==> EdgeKeyIs(s, ks[j], ids[j])
    {
      EdgeParses(s, ks[i]);
      ids := ids + [ParseEdgeKey(ks[i]).value];
    }
    EdgeScanExact(s, ks, ids);
    for i := 0 to |ids|
      invariant StrictlyAscending(out)
      invariant forall e :: e in out <==> e in ids[..i] && s.edges[e].typ == typ
    {
      if s.edges[ids[i]].typ == typ {
        AscendingAppend(out, ids[i]);
        out := out + [ids[i]];
      }
    }
    assert ids[..|ids|] == ids;
  }

  method EdgesByScan(s: Store, on: Pair, value: Value) returns (out: seq<nat>)
    requires Encodable(s)
    ensures StrictlyAscending(out) && forall e :: e in out <==> RelMatches(s, on, value, e)
  {
    hide Encodable, QueryEqual;
    var ids := ScanEdgesOfType(s, on.owner);
    out := [];
    for i := 0 to |ids|
      invariant StrictlyAscending(out)
      invariant forall e :: e in out <==> e in ids[..i] && RelMatches(s, on, value, e)
    {
      var e := ids[i];
      if on.key in s.edges[e].props && QueryEqual(s.edges[e].props[on.key], value) {
        AscendingAppend(out, e);
        out := out + [e];
      }
    }
    assert ids[..|ids|] == ids;
  }

  method ProbeRelIndex(s: Store, on: Pair, value: Value) returns (out: seq<nat>)
    requires Consistent(s) && Encodable(s) && PairFits(on)
    requires on in s.cat.relIndexes && IsIndexable(value) && EqualityProbes(value).Some?
    ensures StrictlyAscending(out) && forall e :: e in out <==> RelMatches(s, on, value, e)
  {
    hide Consistent, Encodable, EqualityProbes, IsIndexable, RelMatches;
    out := [];
    var probes := EqualityProbes(value).value;
    ProbesOnce(value);
    ProbesIndexable(value);
    for i := 0 to |probes|
      invariant RelFound(s, on, probes[..i], out)
    {
      var ids := RelIndexMatches(s, on, probes[i]);
      RelFoundMore(s, on, probes[..i], out, probes[i], ids);
      assert probes[..i+1] == probes[..i] + [probes[i]];
      out := out + ids;
    }
    assert probes[..|probes|] == probes;
    forall e ensures e in out <==> RelMatches(s, on, value, e) {
      RelProbesFindMatches(s, on, value, e);
    }
    SortedIds(out);
    out := SortNats(out);
  }

  /** The relationships of the type whose value a query considers equal, in id order. */
  method EdgesByProperty(s: Store, on: Pair, value: Value) returns (out: seq<nat>)
    requires Consistent(s) && Encodable(s) && PairFits(on)
    ensures StrictlyAscending(out) && forall e :: e in out <==> RelMatches(s, on, value, e)
  {
    hide Consistent, Encodable, EqualityProbes;
    if value == Null {
      return [];
    }
    if on !in s.cat.relIndexes || EqualityProbes(value).None? || !IsIndexable(value) {
      out := EdgesByScan(s, on, value);
    } else {
      out := ProbeRelIndex(s, on, value);
    }
  }
}
