/** Creating and deleting edges, and deleting nodes with or without their edges. */
module EdgeCrud {
  import opened Seqs
  import opened Values
  import opened GraphStore
  import opened GraphTxn
  import opened NodeCrud
  import opened NodeLabels
  import opened NodeUpdates

  // ----- Relationship index entries -----

  ghost function RelFactsOf(id: nat, rec: EdgeRec): set<RelEntry>
  {
    set k | k in rec.props :: RelEntry(Pair(rec.typ, k), rec.props[k], id)
  }

  predicate RelIndexed(c: Catalog, r: RelEntry)
  {
    r.on in c.relIndexes && IsIndexable(r.value)
  }

  method PutRelPropEntry(txn: Txn, r: RelEntry)
    modifies txn
    ensures txn.db == old(txn.db).(rels := txn.db.rels)
    ensures txn.db.rels == old(txn.db.rels) + if RelIndexed(old(txn.db.cat), r) then {r} else {}
  {
    if !IsIndexable(r.value) || r.on !in txn.db.cat.relIndexes {
      assert txn.db.rels == txn.db.rels + {};
      return;
    }
    txn.db := txn.db.(rels := txn.db.rels + {r});
  }

  method DelRelPropEntry(txn: Txn, r: RelEntry)
    modifies txn
    ensures txn.db == old(txn.db).(rels := txn.db.rels)
    ensures txn.db.rels == old(txn.db.rels) - if RelIndexed(old(txn.db.cat), r) then {r} else {}
  {
    if !IsIndexable(r.value) || r.on !in txn.db.cat.relIndexes {
      assert txn.db.rels == txn.db.rels - {};
      return;
    }
    txn.db := txn.db.(rels := txn.db.rels - {r});
  }

  method PutRelProps(txn: Txn, id: nat, rec: EdgeRec)
    modifies txn
    ensures txn.db == old(txn.db).(rels := txn.db.rels)
    ensures forall r :: r in txn.db.rels <==>
                          r in old(txn.db.rels) || (r in RelFactsOf(id, rec) && RelIndexed(old(txn.db.cat), r))
  {
    var rest := rec.props.Keys;
    while rest != {}
      invariant rest <= rec.props.Keys
      invariant txn.db == old(txn.db).(rels := txn.db.rels)
      invariant forall r :: r in txn.db.rels <==>
                  r in old(txn.db.rels) || (r in RelFactsOf(id, rec) && r.on.key !in rest &&
                                            RelIndexed(old(txn.db.cat), r))
      decreases rest
    {
      var k :| k in rest;
      PutRelPropEntry(txn, RelEntry(Pair(rec.typ, k), rec.props[k], id));
      rest := rest - {k};
    }
  }

  method DelRelProps(txn: Txn, id: nat, rec: EdgeRec)
    modifies txn
    ensures txn.db == old(txn.db).(rels := txn.db.rels)
    ensures forall r :: r in txn.db.rels <==>
                          r in old(txn.db.rels) && !(r in RelFactsOf(id, rec) && RelIndexed(old(txn.db.cat), r))
  {
    var rest := rec.props.Keys;
    while rest != {}
      invariant rest <= rec.props.Keys
      invariant txn.db == old(txn.db).(rels := txn.db.rels)
      invariant forall r :: r in txn.db.rels <==>
                  r in old(txn.db.rels) && !(r in RelFactsOf(id, rec) && r.on.key !in rest &&
                                             RelIndexed(old(txn.db.cat), r))
      decreases rest
    {
      var k :| k in rest;
      DelRelPropEntry(txn, RelEntry(Pair(rec.typ, k), rec.props[k], id));
      rest := rest - {k};
    }
  }

  // ----- CreateEdge -----

  ghost predicate EdgeAdded(s: Store, t: Store, id: nat, rec: EdgeRec)
  {
    && id !in s.edges && rec.src in s.nodes && rec.dst in s.nodes
    && (forall k :: k in rec.props ==> rec.props[k] != Null)
    && t == s.(edges := s.edges[id := rec], outs := s.outs + {RefOf(id, rec)}, ins := s.ins + {RefOf(id, rec)},
               rels := t.rels, cat := t.cat)
    && DictsOk(t.cat) && t.cat.relIndexes == s.cat.relIndexes
    && t.cat.Counter(KNode) == s.cat.Counter(KNode)
    && s.cat.Counter(KEdge) <= t.cat.Counter(KEdge) && 0 < id <= t.cat.Counter(KEdge)
    && forall r :: r in t.rels <==> r in s.rels || (r in RelFactsOf(id, rec) && RelIndexed(s.cat, r))
  }

  lemma OthersEdgeAdded(s: Store, t: Store, id: nat, rec: EdgeRec)
    requires Others(s) && EdgeAdded(s, t, id, rec)
    ensures Others(t)
  {
    RelsAdded(s, t, id, rec);
    EdgesAdded(s, t, id, rec);
    hide DictsOk, IsIndexable, RelsAgree, RelFactsOf, RelIndexed, EdgesAgree;
  }

  lemma EdgesAdded(s: Store, t: Store, id: nat, rec: EdgeRec)
    requires EdgesAgree(s) && EdgeAdded(s, t, id, rec)
    ensures EdgesAgree(t)
  {
    hide DictsOk, RelFactsOf, RelIndexed;
  }

  lemma RelsAdded(s: Store, t: Store, id: nat, rec: EdgeRec)
    requires RelsAgree(s) && EdgeAdded(s, t, id, rec)
    ensures RelsAgree(t)
  {
    hide DictsOk, IsIndexable;
    forall r ensures r in t.rels <==> HasRelFact(t.edges, r) && r.on in t.cat.relIndexes && IsIndexable(r.value) {
      assert r.edge == id ==> (r in RelFactsOf(id, rec) <==> HasRelFact(t.edges, r));
      assert r.edge != id ==> (HasRelFact(s.edges, r) <==> HasRelFact(t.edges, r));
    }
  }

  /** The edge has the type, the ends and the non-null properties asked for. */
  ghost predicate EdgeBuilt(c: Catalog, typ: Bytes, src: nat, dst: nat, props: map<Bytes, Value>, rec: EdgeRec)
  {
    && Name(KType, typ) in c.ids && rec.typ == c.ids[Name(KType, typ)] && rec.src == src && rec.dst == dst
    && Translated(c, props, props.Keys, false, rec.props)
  }

  /** Writes the record, both adjacency entries and the relationship index entries. */
  method PutEdge(txn: Txn, id: nat, rec: EdgeRec)
    modifies txn
    ensures txn.db == EdgePut(old(txn.db), id, rec, txn.db.rels)
    ensures forall r :: r in txn.db.rels <==>
                          r in old(txn.db.rels) || (r in RelFactsOf(id, rec) && RelIndexed(old(txn.db.cat), r))
  {
    txn.db := txn.db.(edges := txn.db.edges[id := rec]);
    txn.db := txn.db.(outs := txn.db.outs + {RefOf(id, rec)});
    txn.db := txn.db.(ins := txn.db.ins + {RefOf(id, rec)});
    PutRelProps(txn, id, rec);
  }

  ghost function EdgePut(s: Store, id: nat, rec: EdgeRec, rels: set<RelEntry>): Store
  {
    s.(edges := s.edges[id := rec], outs := s.outs + {RefOf(id, rec)}, ins := s.ins + {RefOf(id, rec)}, rels := rels)
  }

  lemma UsedUp(c: Catalog, k: Kind)
    requires c.Counter(k) == MAX_U32
    ensures Spent(c, k, 1)
  {
  }

  /** The ids of the type and of the keys of the non-null properties. */
  method InternEdge(txn: Txn, typ: Bytes, props: map<Bytes, Value>) returns (typeId: nat, p: Props, err: Err)
    requires DictsOk(txn.db.cat)
    modifies txn
    ensures txn.db == old(txn.db).(cat := txn.db.cat)
    ensures err == Ok || err == OutOfIds
    ensures err == OutOfIds ==> Spent(old(txn.db.cat), KType, 1) || Spent(old(txn.db.cat), KKey, KeyCount(props))
    ensures err == Ok ==> DictsOk(txn.db.cat) && Grows(old(txn.db.cat), txn.db.cat)
    ensures err == Ok ==> Name(KType, typ) in txn.db.cat.ids && txn.db.cat.ids[Name(KType, typ)] == typeId
    ensures err == Ok ==> Translated(txn.db.cat, props, props.Keys, false, p) && forall k :: k in p ==> p[k] != Null
  {
    hide DictsOk, Grows, Translated, AtMostMore, Spent, KeyCount;
    ghost var was := txn.db.cat;
    p := map[];
    typeId, err := Intern(txn, Name(KType, typ));
    if err != Ok {
      UsedUp(was, KType);
      return;
    }
    ghost var typed := txn.db.cat;
    p, err := InternProps(txn, props, false);
    if err != Ok {
      SpentBefore(was, typed, KType, 1, KKey, KeyCount(props));
      return;
    }
    GrowsTransitive(was, typed, txn.db.cat);
    GrowsKeeps(typed, txn.db.cat, Name(KType, typ));
    TranslatedNoNulls(txn.db.cat, props, p);
  }

  /** Creates an edge under the next id; the invariant survives unless the counter wraps to 0. */
  method CreateEdge(txn: Txn, typ: Bytes, src: nat, dst: nat, props: map<Bytes, Value>) returns (id: nat, err: Err)
    requires Consistent(txn.db)
    modifies txn
    ensures err == NodeNotFound <==> src !in old(txn.db.nodes) || dst !in old(txn.db.nodes)
    ensures err == Ok || err == NodeNotFound || err == OutOfIds
    ensures err == OutOfIds ==> Spent(old(txn.db.cat), KType, 1) || Spent(old(txn.db.cat), KKey, KeyCount(props))
    ensures err == Ok ==>
              && (Consistent(txn.db) <==> old(txn.db.cat.Counter(KEdge)) < MAX_U64)
              && id == (old(txn.db.cat.Counter(KEdge)) + 1) % TWO_64 == txn.db.cat.Counter(KEdge)
              && id !in old(txn.db.edges) && id in txn.db.edges
              && EdgeBuilt(txn.db.cat, typ, src, dst, props, txn.db.edges[id])
              && txn.db.edges == old(txn.db.edges)[id := txn.db.edges[id]]
              && txn.db.nodes == old(txn.db.nodes) && SameRegistry(old(txn.db.cat), txn.db.cat)
              && (Consistent(txn.db) ==> Continues(old(txn.db.cat), txn.db.cat))
              && txn.db.cat.Counter(KNode) == old(txn.db.cat.Counter(KNode))
  {
    hide Consistent, Others, Agrees, DictsOk, Grows, Continues, Translated, RelFactsOf, EdgeAdded, RelIndexed, Facts,
      AtMostMore, Spent, KeyCount;
    ghost var was := txn.db;
    GivenConsistent(was);
    id := 0;
    if src !in txn.db.nodes || dst !in txn.db.nodes {
      return 0, NodeNotFound;
    }
    var typeId, p;
    typeId, p, err := InternEdge(txn, typ, props);
    if err != Ok {
      return;
    }
    AfterInternCounters(was, txn.db);
    ghost var interned := txn.db;
    id := NextCounter(txn, KEdge);
    BumpedCounters(interned.cat, KEdge);
    var rec := EdgeRec(typeId, src, dst, p);
    PutEdge(txn, id, rec);
    EdgeIdFresh(was, id);
    TranslatedSame(interned.cat, txn.db.cat, props, p);
    AgreesElsewhere(interned, txn.db, Facts(was.nodes));
    EdgeOutcome(was, interned.cat, txn.db, id, rec);
  }

  /** The invariant after an edge was written under the next id. */
  lemma EdgeOutcome(s: Store, mid: Catalog, t: Store, id: nat, rec: EdgeRec)
    requires Others(s) && Grows(s.cat, mid) && DictsOk(mid)
    requires id == (s.cat.Counter(KEdge) + 1) % TWO_64 && id !in s.edges && rec.src in s.nodes && rec.dst in s.nodes
    requires forall k :: k in rec.props ==> rec.props[k] != Null
    requires t == EdgePut(s, id, rec, t.rels).(cat := Bumped(mid, KEdge))
    requires forall r :: r in t.rels <==> r in s.rels || (r in RelFactsOf(id, rec) && RelIndexed(t.cat, r))
    requires Agrees(t, Facts(t.nodes))
    ensures Consistent(t) <==> s.cat.Counter(KEdge) < MAX_U64
    ensures Consistent(t) ==> Continues(s.cat, t.cat)
  {
    BumpedCounters(mid, KEdge);
    if s.cat.Counter(KEdge) < MAX_U64 {
      BumpedOk(mid, KEdge);
      BumpContinues(s.cat, mid, KEdge);
      hide Agrees, DictsOk, RelFactsOf, RelIndexed, Others, Bumped, Continues, Facts;
      EdgeWasAdded(s, t, id, rec);
      OthersEdgeAdded(s, t, id, rec);
    } else {
      CountersBounded(s.cat, KEdge);
      NoEdgeZero(t);
    }
  }

  lemma GrowsKeeps(c: Catalog, d: Catalog, n: Name)
    requires Grows(c, d) && n in c.ids
    ensures n in d.ids && d.ids[n] == c.ids[n]
  {
  }

  lemma TranslatedSame(c: Catalog, d: Catalog, props: map<Bytes, Value>, out: Props)
    requires d.ids == c.ids && Translated(c, props, props.Keys, false, out)
    ensures Translated(d, props, props.Keys, false, out)
  {
  }

  lemma NoEdgeZero(s: Store)
    requires 0 in s.edges
    ensures !Consistent(s)
  {
  }

  lemma EdgeIdFresh(s: Store, id: nat)
    requires Others(s) && id == (s.cat.Counter(KEdge) + 1) % TWO_64
    ensures id !in s.edges
  {
  }

  lemma EdgeWasAdded(s: Store, t: Store, id: nat, rec: EdgeRec)
    requires id !in s.edges && rec.src in s.nodes && rec.dst in s.nodes
    requires forall k :: k in rec.props ==> rec.props[k] != Null
    requires t == s.(edges := s.edges[id := rec], outs := s.outs + {RefOf(id, rec)}, ins := s.ins + {RefOf(id, rec)},
                     rels := t.rels, cat := t.cat)
    requires DictsOk(t.cat) && t.cat.relIndexes == s.cat.relIndexes
    requires t.cat.Counter(KNode) == s.cat.Counter(KNode)
    requires s.cat.Counter(KEdge) <= t.cat.Counter(KEdge) && 0 < id <= t.cat.Counter(KEdge)
    requires forall r :: r in t.rels <==> r in s.rels || (r in RelFactsOf(id, rec) && RelIndexed(t.cat, r))
    ensures EdgeAdded(s, t, id, rec)
  {
  }

  // ----- DeleteEdge -----

  ghost predicate EdgeRemoved(s: Store, t: Store, id: nat)
  {
    && id in s.edges
    && t == s.(edges := s.edges - {id}, outs := s.outs - {RefOf(id, s.edges[id])},
               ins := s.ins - {RefOf(id, s.edges[id])},
               rels := t.rels)
    && forall r :: r in t.rels <==> r in s.rels && !(r in RelFactsOf(id, s.edges[id]) && RelIndexed(s.cat, r))
  }

  lemma RelsRemoved(s: Store, t: Store, id: nat)
    requires RelsAgree(s) && EdgeRemoved(s, t, id)
    ensures RelsAgree(t)
  {
    hide IsIndexable;
    forall r ensures r in t.rels <==> HasRelFact(t.edges, r) && r.on in t.cat.relIndexes && IsIndexable(r.value) {
      assert r.edge == id ==> (r in RelFactsOf(id, s.edges[id]) <==> HasRelFact(s.edges, r));
    }
  }

  lemma ConsistentEdgeRemoved(s: Store, t: Store, id: nat)
    requires Consistent(s) && EdgeRemoved(s, t, id)
    ensures Consistent(t)
  {
    RelsRemoved(s, t, id);
    AgreesElsewhere(s, t, Facts(s.nodes));
    hide DictsOk, RelsAgree, Agrees, RelFactsOf, LabelsAgree;
    assert LabelsAgree(t) by {
      LabelsSame(s, t);
    }
  }

  lemma LabelsSame(s: Store, t: Store)
    requires LabelsAgree(s) && t.nodes == s.nodes && t.labels == s.labels
    ensures LabelsAgree(t)
  {
  }

  method DeleteEdge(txn: Txn, id: nat) returns (err: Err)
    requires Consistent(txn.db)
    modifies txn
    ensures err == if id in old(txn.db.edges) then Ok else EdgeNotFound
    ensures err == EdgeNotFound ==> txn.db == old(txn.db)
    ensures err == Ok ==> Consistent(txn.db) && EdgeRemoved(old(txn.db), txn.db, id)
  {
    if id !in txn.db.edges {
      return EdgeNotFound;
    }
    hide Consistent, RelFactsOf;
    var e := txn.db.edges[id];
    txn.db := txn.db.(outs := txn.db.outs - {RefOf(id, e)});
    txn.db := txn.db.(ins := txn.db.ins - {RefOf(id, e)});
    DelRelProps(txn, id, e);
    txn.db := txn.db.(edges := txn.db.edges - {id});
    ConsistentEdgeRemoved(old(txn.db), txn.db, id);
    return Ok;
  }

  // ----- DeleteNode and DetachDeleteNode -----

  ghost predicate Incident(e: EdgeRec, n: nat)
  {
    e.src == n || e.dst == n
  }

  /** Whether some `o` or `i` entry starts with the node. */
  predicate HasIncidentEdges(s: Store, n: nat)
  {
    (exists e :: e in s.outs && e.src == n) || (exists e :: e in s.ins && e.dst == n)
  }

  lemma IncidentIsListed(s: Store, n: nat)
    requires EdgesAgree(s)
    ensures HasIncidentEdges(s, n) <==> exists id :: id in s.edges && Incident(s.edges[id], n)
  {
    if id :| id in s.edges && Incident(s.edges[id], n) {
      var e := RefOf(id, s.edges[id]);
      assert e in s.outs && e in s.ins;
    }
    if e :| e in s.outs && e.src == n {
      assert e.id in s.edges && Incident(s.edges[e.id], n);
    }
    if e :| e in s.ins && e.dst == n {
      assert e.id in s.edges && Incident(s.edges[e.id], n);
    }
  }

  ghost predicate NodeRemoved(s: Store, t: Store, n: nat)
  {
    && n in s.nodes
    && t == s.(nodes := s.nodes - {n}, labels := s.labels - LabelEntries(s.nodes[n].labels, n),
               props := t.props, owners := t.owners)
  }

  lemma FactsWithout(s: Store, n: nat)
    requires n in s.nodes
    ensures Facts(s.nodes) - AllEntries(s.nodes[n].labels, s.nodes[n].props, n) == Facts(s.nodes - {n})
  {
    OwnFacts(s.nodes, n);
    var a := Facts(s.nodes) - AllEntries(s.nodes[n].labels, s.nodes[n].props, n);
    forall p ensures p in a <==> p in Facts(s.nodes - {n}) {
      assert p in Facts(s.nodes) <==> HasFact(s.nodes, p);
      assert p in Facts(s.nodes - {n}) <==> HasFact(s.nodes - {n}, p);
      assert p in AllEntries(s.nodes[n].labels, s.nodes[n].props, n) ==> p.node == n;
    }
  }

  lemma OthersNodeRemoved(s: Store, t: Store, n: nat)
    requires Others(s) && NodeRemoved(s, t, n)
    requires forall id :: id in s.edges ==> !Incident(s.edges[id], n)
    ensures Others(t)
  {
    hide DictsOk;
  }

  method DeleteNode(txn: Txn, n: nat) returns (err: Err)
    requires Consistent(txn.db)
    modifies txn
    ensures err == NodeNotFound <==> n !in old(txn.db.nodes)
    ensures err == NodeHasEdges <==>
              n in old(txn.db.nodes) && exists id :: id in old(txn.db.edges) && Incident(old(txn.db.edges[id]), n)
    ensures err == Ok || err == NodeNotFound || err == NodeHasEdges
    ensures err == Ok ==> Consistent(txn.db) && NodeRemoved(old(txn.db), txn.db, n)
    ensures err != Ok ==> txn.db == old(txn.db)
  {
    if n !in txn.db.nodes {
      return NodeNotFound;
    }
    hide Agrees, Others, AllEntries, LabelEntries, Alone;
    ghost var was := txn.db;
    GivenConsistent(was);
    EdgesOf(was);
    IncidentIsListed(was, n);
    if HasIncidentEdges(txn.db, n) {
      return NodeHasEdges;
    }
    var node := txn.db.nodes[n];
    OwnFactsAlone(was.nodes, n, node.labels, node.props);
    DelLabels(txn, n, node.labels, node.props, Facts(was.nodes));
    ghost var deleted, facts := txn.db, Facts(was.nodes) - AllEntries(node.labels, node.props, n);
    txn.db := txn.db.(nodes := txn.db.nodes - {n});
    AgreesElsewhere(deleted, txn.db, facts);
    FactsWithout(was, n);
    OthersNodeRemoved(was, txn.db, n);
    return Ok;
  }

  lemma EdgesOf(s: Store)
    requires Others(s)
    ensures EdgesAgree(s)
  {
  }

  function IncidentIds(s: Store, n: nat): set<nat>
  {
    (set e | e in s.outs && e.src == n :: e.id) + (set e | e in s.ins && e.dst == n :: e.id)
  }

  lemma IncidentIdsExact(s: Store, n: nat)
    requires EdgesAgree(s)
    ensures forall id :: id in IncidentIds(s, n) <==> id in s.edges && Incident(s.edges[id], n)
  {
    forall id | id in s.edges && Incident(s.edges[id], n) ensures id in IncidentIds(s, n) {
      var e := RefOf(id, s.edges[id]);
      assert e in s.outs && e in s.ins && e.id == id;
    }
  }

  /**
   * Deletes the node and exactly its incident edges, self-loops included; on
   * an existing node it cannot fail.
   */
  method DetachDeleteNode(txn: Txn, n: nat) returns (err: Err)
    requires Consistent(txn.db)
    modifies txn
    ensures err == if n in old(txn.db.nodes) then Ok else NodeNotFound
    ensures err == Ok ==>
              && Consistent(txn.db)
              && txn.db.nodes == old(txn.db.nodes) - {n}
              && txn.db.cat == old(txn.db.cat)
              && forall id :: id in txn.db.edges <==> id in old(txn.db.edges) && !Incident(old(txn.db.edges[id]), n)
    ensures err == Ok ==> forall id :: id in txn.db.edges ==> txn.db.edges[id] == old(txn.db.edges[id])
  {
    if n !in txn.db.nodes {
      return NodeNotFound;
    }
    hide Consistent, Others, IncidentIds, RelFactsOf, RelIndexed, LabelEntries, EdgesAgree, NoDups, Agrees;
    ghost var was := txn.db;
    GivenConsistent(was);
    EdgesOf(was);
    var ids := IncidentIds(txn.db, n);
    IncidentIdsExact(was, n);
    DeleteEdges(txn, ids);
    err := DeleteNode(txn, n);
  }

  /** Deletes the edges in whatever order the set is walked. */
  method DeleteEdges(txn: Txn, ids: set<nat>)
    requires Consistent(txn.db) && ids <= txn.db.edges.Keys
    modifies txn
    ensures Consistent(txn.db) && txn.db.nodes == old(txn.db.nodes) && txn.db.cat == old(txn.db.cat)
    ensures txn.db.edges == old(txn.db.edges) - ids
  {
    hide Consistent, RelFactsOf, RelIndexed;
    var rest := ids;
    while rest != {}
      invariant rest <= ids
      invariant Consistent(txn.db) && txn.db.nodes == old(txn.db.nodes) && txn.db.cat == old(txn.db.cat)
      invariant txn.db.edges == old(txn.db.edges) - (ids - rest)
      decreases rest
    {
      var id :| id in rest;
      assert id in txn.db.edges;
      var err := DeleteEdge(txn, id);
      rest := rest - {id};
    }
  }
}
