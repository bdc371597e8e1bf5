/**
 * The keyspaces of the graph, one table per key tag, and the invariant that
 * ties every derived table to the node and edge records.
 */
module GraphStore {
  import opened Seqs
  import opened Values
  import opened Compare
  import opened Adjacency

  type Props = map<nat, Value>

  datatype NodeRec = NodeRec(labels: seq<nat>, props: Props)
  datatype EdgeRec = EdgeRec(typ: nat, src: nat, dst: nat, props: Props)

  /** An entry of the label index. */
  datatype LabelEntry = LabelEntry(lab: nat, node: nat)

  /** An indexed (label, property key) or (relationship type, property key) pair. */
  datatype Pair = Pair(owner: nat, key: nat)

  /** An entry of the property index, or the fact that it stands for. */
  datatype PropEntry = PropEntry(on: Pair, value: Value, node: nat)

  /** An entry of the relationship property index. */
  datatype RelEntry = RelEntry(on: Pair, value: Value, edge: nat)

  /** An owner key: a canonical value under a unique constraint. */
  datatype Claim = Claim(on: Pair, value: Value)

  datatype Kind = KLabel | KType | KKey | KNode | KEdge

  datatype Name = Name(kind: Kind, text: Bytes)
  datatype Id = Id(kind: Kind, id: nat)

  datatype Catalog = Catalog(
    ids: map<Name, nat>,
    names: map<Id, Bytes>,
    counters: map<Kind, nat>,
    indexes: set<Pair>,
    constraints: map<Pair, bool>,
    relIndexes: set<Pair>)
  {
    /** The last id handed out; ids start at 1. */
    function Counter(k: Kind): nat
    {
      if k in counters then counters[k] else 0
    }
  }

  datatype Store = Store(
    nodes: map<nat, NodeRec>,
    edges: map<nat, EdgeRec>,
    outs: set<EdgeRef>,
    ins: set<EdgeRef>,
    labels: set<LabelEntry>,
    props: set<PropEntry>,
    owners: map<Claim, nat>,
    rels: set<RelEntry>,
    cat: Catalog)

  // ----- What the records say -----

  /** The node has the label and, under the key, the value. */
  ghost predicate HasFact(nodes: map<nat, NodeRec>, p: PropEntry)
  {
    && p.node in nodes
    && p.on.owner in nodes[p.node].labels
    && p.on.key in nodes[p.node].props
    && nodes[p.node].props[p.on.key] == p.value
  }

  /** Every (label, key, value, node) that the node records hold. */
  ghost function Facts(nodes: map<nat, NodeRec>): (facts: set<PropEntry>)
    ensures forall p :: p in facts <==> HasFact(nodes, p)
  {
    set n, l, k | n in nodes && l in nodes[n].labels && k in nodes[n].props ::
      PropEntry(Pair(l, k), nodes[n].props[k], n)
  }

  ghost predicate HasRelFact(edges: map<nat, EdgeRec>, r: RelEntry)
  {
    && r.edge in edges
    && edges[r.edge].typ == r.on.owner
    && r.on.key in edges[r.edge].props
    && edges[r.edge].props[r.on.key] == r.value
  }

  function RefOf(id: nat, e: EdgeRec): EdgeRef
  {
    EdgeRef(id, e.typ, e.src, e.dst)
  }

  // ----- Index tables against facts -----

  /** The property index holds exactly the facts it should. */
  ghost predicate Indexed(s: Store, facts: set<PropEntry>)
  {
    forall p :: p in s.props <==> p in facts && p.on in s.cat.indexes && IsIndexable(p.value)
  }

  /** p is a fact that a unique constraint keys by c. */
  ghost predicate ClaimedBy(s: Store, p: PropEntry, c: Claim)
  {
    && p.on in s.cat.constraints && IsIndexable(p.value)
    && UniqueValue(p.value) == Some(c.value) && c.on == p.on
  }

  /** Every claimable fact owns its key, and every owner has such a fact. */
  ghost predicate Owned(s: Store, facts: set<PropEntry>)
  {
    && (forall p, c :: p in facts && ClaimedBy(s, p, c) ==> c in s.owners && s.owners[c] == p.node)
    && (forall c :: c in s.owners ==> exists p :: p in facts && ClaimedBy(s, p, c) && p.node == s.owners[c])
  }

  ghost predicate Backed(s: Store)
  {
    forall on :: on in s.cat.constraints ==> on in s.cat.indexes
  }

  ghost predicate Agrees(s: Store, facts: set<PropEntry>)
  {
    Indexed(s, facts) && Owned(s, facts) && Backed(s)
  }

  // ----- The invariant -----

  ghost predicate LabelsAgree(s: Store)
  {
    forall e :: e in s.labels <==> e.node in s.nodes && e.lab in s.nodes[e.node].labels
  }

  ghost predicate EdgesAgree(s: Store)
  {
    && (forall e :: e in s.outs <==> e.id in s.edges && e == RefOf(e.id, s.edges[e.id]))
    && (forall e :: e in s.ins <==> e.id in s.edges && e == RefOf(e.id, s.edges[e.id]))
    && (forall id :: id in s.edges ==> s.edges[id].src in s.nodes && s.edges[id].dst in s.nodes)
  }

  ghost predicate RelsAgree(s: Store)
  {
    forall r :: r in s.rels <==> HasRelFact(s.edges, r) && r.on in s.cat.relIndexes && IsIndexable(r.value)
  }

  /** Records: labels are listed in ascending order, null is never stored, ids were handed out. */
  ghost predicate RecordsOk(s: Store)
  {
    && (forall n :: n in s.nodes ==> StrictlyAscending(s.nodes[n].labels) && 0 < n <= s.cat.Counter(KNode))
    && (forall n, k :: n in s.nodes && k in s.nodes[n].props ==> s.nodes[n].props[k] != Null)
    && (forall e :: e in s.edges ==> 0 < e <= s.cat.Counter(KEdge))
    && (forall e, k :: e in s.edges && k in s.edges[e].props ==> s.edges[e].props[k] != Null)
  }

  ghost predicate IsDict(k: Kind)
  {
    k == KLabel || k == KType || k == KKey
  }

  /** The name of a name's id is that name. */
  ghost predicate NamesKnown(c: Catalog)
  {
    forall n :: n in c.ids ==> IsDict(n.kind) && Id(n.kind, c.ids[n]) in c.names
                               && c.names[Id(n.kind, c.ids[n])] == n.text
  }

  /** The id of an id's name is that id. */
  ghost predicate IdsKnown(c: Catalog)
  {
    forall i :: i in c.names ==> IsDict(i.kind) && Name(i.kind, c.names[i]) in c.ids
                                 && c.ids[Name(i.kind, c.names[i])] == i.id
  }

  ghost predicate IdsInRange(c: Catalog)
  {
    && (forall i :: i in c.names ==> 0 < i.id <= c.Counter(i.kind))
    && (forall k :: IsDict(k) ==> c.Counter(k) <= MAX_U32)
    && (forall k :: k in c.counters ==> c.counters[k] <= MAX_U64)
  }

  /** Forward and reverse dictionaries are inverse, with ids in 1..counter. */
  ghost predicate DictsOk(c: Catalog)
  {
    NamesKnown(c) && IdsKnown(c) && IdsInRange(c)
  }

  /** Every index entry exists exactly when the records and the registry imply it. */
  ghost predicate Consistent(s: Store)
  {
    Others(s) && Agrees(s, Facts(s.nodes))
  }

  /** The part of the invariant that property index entries do not touch. */
  ghost predicate Others(s: Store)
  {
    LabelsAgree(s) && EdgesAgree(s) && RelsAgree(s) && RecordsOk(s) && DictsOk(s.cat)
  }

  // ----- Id widths -----

  predicate PairFits(on: Pair)
  {
    on.owner <= MAX_U32 && on.key <= MAX_U32
  }

  /** Label, type and key ids that reach an index key have 32 bits. */
  ghost predicate WidthsOk(s: Store)
  {
    && (forall n, l :: n in s.nodes && l in s.nodes[n].labels ==> l <= MAX_U32)
    && (forall e :: e in s.edges ==> s.edges[e].typ <= MAX_U32)
    && (forall on :: on in s.cat.indexes || on in s.cat.relIndexes ==> PairFits(on))
  }

  const EMPTY: Store :=
    Store(map[], map[], {}, {}, {}, {}, map[], {}, Catalog(map[], map[], map[], {}, map[], {}))

  lemma EmptyConsistent()
    ensures Consistent(EMPTY)
  {
  }

  /** Owner keys follow from the facts and the registry. */
  lemma OwnersWithin(s: Store, t: Store, facts: set<PropEntry>)
    requires Owned(s, facts) && Owned(t, facts) && s.cat == t.cat
    ensures forall c :: c in s.owners ==> c in t.owners && s.owners[c] == t.owners[c]
  {
    forall c | c in s.owners ensures c in t.owners && s.owners[c] == t.owners[c] {
      var p :| p in facts && ClaimedBy(s, p, c) && p.node == s.owners[c];
      assert ClaimedBy(t, p, c);
    }
  }

  lemma EntriesDetermined(s: Store, t: Store)
    requires Others(s) && Others(t) && s.nodes == t.nodes && s.edges == t.edges && s.cat == t.cat
    ensures s.labels == t.labels && s.outs == t.outs && s.ins == t.ins && s.rels == t.rels
  {
    hide RecordsOk, DictsOk;
  }

  /** The index tables are a function of the records and the registry. */
  lemma Determined(s: Store, t: Store)
    requires Consistent(s) && Consistent(t)
    requires s.nodes == t.nodes && s.edges == t.edges && s.cat == t.cat
    ensures s == t
  {
    hide Others, Owned, Facts;
    EntriesDetermined(s, t);
    OwnersWithin(s, t, Facts(s.nodes));
    OwnersWithin(t, s, Facts(s.nodes));
    assert s.owners == t.owners;
    assert s.props == t.props;
  }

  // ----- Putting and deleting one entry -----

  /** What putPropEntry does when it succeeds. */
  function PutEntry(s: Store, p: PropEntry): Store
  {
    if !IsIndexable(p.value) || p.on !in s.cat.indexes then s
    else
      var indexed := s.(props := s.props + {p});
      if p.on !in s.cat.constraints || UniqueValue(p.value).None? then indexed
      else indexed.(owners := s.owners[Claim(p.on, UniqueValue(p.value).value) := p.node])
  }

  /** Whether another node holds the key that p would claim. */
  predicate Taken(s: Store, p: PropEntry)
  {
    && IsIndexable(p.value) && p.on in s.cat.indexes && p.on in s.cat.constraints
    && UniqueValue(p.value).Some?
    && var c := Claim(p.on, UniqueValue(p.value).value);
       c in s.owners && s.owners[c] != p.node
  }

  /** What delPropEntry does. */
  function DelEntry(s: Store, p: PropEntry): Store
  {
    if !IsIndexable(p.value) || p.on !in s.cat.indexes then s
    else
      var dropped := s.(props := s.props - {p});
      if p.on !in s.cat.constraints || UniqueValue(p.value).None? then dropped
      else
        var c := Claim(p.on, UniqueValue(p.value).value);
        if c in s.owners && s.owners[c] == p.node then dropped.(owners := s.owners - {c}) else dropped
  }

  lemma PutEntryOwned(s: Store, facts: set<PropEntry>, p: PropEntry)
    requires Owned(s, facts) && Backed(s) && !Taken(s, p)
    ensures Owned(PutEntry(s, p), facts + {p})
  {
    hide UniqueValue, IsIndexable;
    var t := PutEntry(s, p);
    assert t.cat == s.cat;
    forall c | c in t.owners
      ensures exists q :: q in facts + {p} && ClaimedBy(t, q, c) && q.node == t.owners[c]
    {
      if !ClaimedBy(t, p, c) || t.owners[c] != p.node {
        var q :| q in facts && ClaimedBy(s, q, c) && q.node == s.owners[c];
        assert ClaimedBy(t, q, c);
      }
    }
    forall q, c | q in facts + {p} && ClaimedBy(t, q, c) ensures c in t.owners && t.owners[c] == q.node {
      assert ClaimedBy(s, q, c);
    }
  }

  lemma PutEntryAgrees(s: Store, facts: set<PropEntry>, p: PropEntry)
    requires Agrees(s, facts) && !Taken(s, p)
    ensures Agrees(PutEntry(s, p), facts + {p})
  {
    PutEntryOwned(s, facts, p);
    hide Owned, Taken, UniqueValue;
  }

  lemma DelEntryOwned(s: Store, facts: set<PropEntry>, p: PropEntry)
    requires Owned(s, facts) && Backed(s)
    requires forall q :: q in facts && q.on == p.on && q.node == p.node ==> q == p
    ensures Owned(DelEntry(s, p), facts - {p})
  {
    hide UniqueValue, IsIndexable;
    var t := DelEntry(s, p);
    assert t.cat == s.cat;
    forall c | c in t.owners
      ensures exists q :: q in facts - {p} && ClaimedBy(t, q, c) && q.node == t.owners[c]
    {
      var q :| q in facts && ClaimedBy(s, q, c) && q.node == s.owners[c];
      assert ClaimedBy(t, q, c);
      assert q == p ==> ClaimedBy(s, p, c);
    }
    forall q, c | q in facts - {p} && ClaimedBy(t, q, c) ensures c in t.owners && t.owners[c] == q.node {
      assert ClaimedBy(s, q, c);
    }
  }

  lemma DelEntryAgrees(s: Store, facts: set<PropEntry>, p: PropEntry)
    requires Agrees(s, facts)
    requires forall q :: q in facts && q.on == p.on && q.node == p.node ==> q == p
    ensures Agrees(DelEntry(s, p), facts - {p})
  {
    DelEntryOwned(s, facts, p);
    hide Owned, UniqueValue;
  }

  // ----- Unique constraints -----

  /** Two facts that a unique constraint forbids together. */
  ghost predicate Clash(s: Store, p: PropEntry, q: PropEntry)
  {
    && p.node != q.node && p.on == q.on && p.on in s.cat.constraints
    && IsIndexable(p.value) && IsIndexable(q.value)
    && UniqueValue(p.value).Some? && UniqueValue(p.value) == UniqueValue(q.value)
  }

  /** No two nodes hold the same canonical value under a constraint. */
  lemma NoClash(s: Store, facts: set<PropEntry>, p: PropEntry, q: PropEntry)
    requires Owned(s, facts) && p in facts && q in facts
    ensures !Clash(s, p, q)
  {
    if Clash(s, p, q) {
      var c := Claim(p.on, UniqueValue(p.value).value);
      assert ClaimedBy(s, p, c) && ClaimedBy(s, q, c);
    }
  }

  /** A taken key is taken by a fact of another node. */
  lemma TakenBy(s: Store, facts: set<PropEntry>, p: PropEntry) returns (q: PropEntry)
    requires Owned(s, facts) && Taken(s, p)
    ensures q in facts && Clash(s, p, q)
  {
    var c := Claim(p.on, UniqueValue(p.value).value);
    q :| q in facts && ClaimedBy(s, q, c) && q.node == s.owners[c];
  }
}
