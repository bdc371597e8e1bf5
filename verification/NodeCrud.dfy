/** Creating and changing nodes, with every derived entry in the same transaction. */
module NodeCrud {
  import opened Seqs
  import opened Values
  import opened GraphStore
  import opened GraphTxn

  // ----- What a change of one record means for the invariant -----

  /** Only records, property entries and dictionaries differ. */
  ghost predicate NodeChange(s: Store, t: Store)
  {
    && t == s.(nodes := t.nodes, props := t.props, owners := t.owners, cat := t.cat)
    && Grows(s.cat, t.cat) && DictsOk(t.cat)
  }

  ghost predicate RecordOk(rec: NodeRec)
  {
    NoDups(rec.labels) && forall k :: k in rec.props ==> rec.props[k] != Null
  }

  /** A node that keeps its labels leaves everything but its property entries alone. */
  lemma OthersKept(s: Store, t: Store, n: nat)
    requires Others(s) && NodeChange(s, t) && n in s.nodes && n in t.nodes
    requires t.nodes == s.nodes[n := t.nodes[n]] && RecordOk(t.nodes[n]) && StrictlyAscending(t.nodes[n].labels)
    requires forall l :: l in t.nodes[n].labels <==> l in s.nodes[n].labels
    ensures Others(t)
  {
  }

  /** Agreement depends on the entries and the registries only. */
  lemma AgreesElsewhere(s: Store, t: Store, facts: set<PropEntry>)
    requires Agrees(s, facts) && t.props == s.props && t.owners == s.owners
    requires t.cat.indexes == s.cat.indexes && t.cat.constraints == s.cat.constraints
    ensures Agrees(t, facts)
  {
    forall c | c in t.owners ensures exists p :: p in facts && ClaimedBy(t, p, c) && p.node == t.owners[c] {
      var p :| p in facts && ClaimedBy(s, p, c) && p.node == s.owners[c];
      assert ClaimedBy(t, p, c);
    }
    forall p, c | p in facts && ClaimedBy(t, p, c) ensures c in t.owners && t.owners[c] == p.node {
      assert ClaimedBy(s, p, c);
    }
  }

  /** Facts about pairs without an index leave no trace. */
  lemma UnindexedFacts(s: Store, facts: set<PropEntry>, extra: set<PropEntry>)
    requires Agrees(s, facts + extra)
    requires forall p :: p in extra ==> p.on !in s.cat.indexes
    ensures Agrees(s, facts)
  {
    forall c | c in s.owners ensures exists p :: p in facts && ClaimedBy(s, p, c) && p.node == s.owners[c] {
      var p :| p in facts + extra && ClaimedBy(s, p, c) && p.node == s.owners[c];
    }
  }

  // ----- SetProperty and RemoveProperty -----

  ghost function Gone(ls: seq<nat>, k: nat, had: Option<Value>, n: nat): set<PropEntry>
  {
    if had.Some? then EntriesOf(ls, k, had.value, n) else {}
  }

  ghost function Swapped(facts: set<PropEntry>, ls: seq<nat>, k: nat, had: Option<Value>, v: Value,
                         n: nat): set<PropEntry>
  {
    facts - Gone(ls, k, had, n) + EntriesOf(ls, k, v, n)
  }

  lemma SwapStep(facts: set<PropEntry>, ls: seq<nat>, i: nat, k: nat, had: Option<Value>, v: Value, n: nat)
    requires NoDups(ls) && i < |ls| && Alone(facts, Gone(ls, k, had, n))
    ensures Alone(Swapped(facts, ls[..i], k, had, v, n), Gone([ls[i]], k, had, n))
    ensures Swapped(facts, ls[..i], k, had, v, n) - Gone([ls[i]], k, had, n) ==
            facts - Gone(ls[..i+1], k, had, n) + EntriesOf(ls[..i], k, v, n)
    ensures facts - Gone(ls[..i+1], k, had, n) + EntriesOf(ls[..i], k, v, n) + {PropEntry(Pair(ls[i], k), v, n)} ==
            Swapped(facts, ls[..i+1], k, had, v, n)
  {
    assert ls[..i+1] == ls[..i] + [ls[i]] && ls[i] !in ls[..i];
    assert had.Some? ==> PropEntry(Pair(ls[i], k), had.value, n) in Gone(ls, k, had, n);
  }

  lemma SwapClashes(s: Store, t: Store, facts: set<PropEntry>, ls: seq<nat>, i: nat, k: nat, had: Option<Value>,
                    v: Value, n: nat)
    requires i < |ls| && t.cat == s.cat
    requires Agrees(s, facts - Gone(ls[..i+1], k, had, n) + EntriesOf(ls[..i], k, v, n))
    requires Taken(s, PropEntry(Pair(ls[i], k), v, n))
    ensures Clashes(t, EntriesOf(ls, k, v, n), facts)
  {
    TakenClashes(s, t, facts - Gone(ls[..i+1], k, had, n), EntriesOf(ls[..i], k, v, n),
                 PropEntry(Pair(ls[i], k), v, n), EntriesOf(ls, k, v, n));
  }

  method DropOld(txn: Txn, l: nat, k: nat, had: Option<Value>, n: nat, ghost facts: set<PropEntry>)
    requires Agrees(txn.db, facts) && Alone(facts, Gone([l], k, had, n))
    modifies txn
    ensures OnlyEntries(old(txn.db), txn.db) && Agrees(txn.db, facts - Gone([l], k, had, n))
  {
    if had.Some? {
      var o := PropEntry(Pair(l, k), had.value, n);
      assert Gone([l], k, had, n) == {o};
      DelEntryAgrees(txn.db, facts, o);
      DelPropEntry(txn, o);
    } else {
      assert facts - {} == facts;
    }
  }

  /** Replaces, label by label, the entry of the old value with that of the new one. */
  method SwapProp(txn: Txn, ls: seq<nat>, k: nat, had: Option<Value>, v: Value, n: nat, ghost facts: set<PropEntry>)
    returns (err: Err)
    requires Agrees(txn.db, facts) && NoDups(ls) && Alone(facts, Gone(ls, k, had, n))
    modifies txn
    ensures OnlyEntries(old(txn.db), txn.db)
    ensures err == Ok || err == Violation
    ensures err == Ok ==> Agrees(txn.db, Swapped(facts, ls, k, had, v, n))
    ensures err == Violation ==> Clashes(old(txn.db), EntriesOf(ls, k, v, n), facts)
  {
    assert Swapped(facts, [], k, had, v, n) == facts;
    hide Agrees, Taken, PutEntry, DelEntry, Swapped, Alone, NoDups, EntriesOf, Clashes, Gone;
    for i := 0 to |ls|
      invariant OnlyEntries(old(txn.db), txn.db)
      invariant Agrees(txn.db, Swapped(facts, ls[..i], k, had, v, n))
    {
      SwapStep(facts, ls, i, k, had, v, n);
      DropOld(txn, ls[i], k, had, n, Swapped(facts, ls[..i], k, had, v, n));
      ghost var before := txn.db;
      err := PutPropEntry(txn, PropEntry(Pair(ls[i], k), v, n));
      if err != Ok {
        SwapClashes(before, old(txn.db), facts, ls, i, k, had, v, n);
        return;
      }
      PutEntryAgrees(before, facts - Gone(ls[..i+1], k, had, n) + EntriesOf(ls[..i], k, v, n),
                     PropEntry(Pair(ls[i], k), v, n));
    }
    assert ls[..|ls|] == ls;
    return Ok;
  }

  /** The record is written with its labels in ascending order. */
  function Stored(rec: NodeRec): NodeRec
  {
    rec.(labels := SortNats(rec.labels))
  }

  /** A record with one property set, or with null removed. */
  function WithProp(rec: NodeRec, k: nat, v: Value): NodeRec
  {
    rec.(props := if v == Null then rec.props - {k} else rec.props[k := v])
  }

  function Had(rec: NodeRec, k: nat): Option<Value>
  {
    if k in rec.props then Some(rec.props[k]) else None
  }

  /** How the facts change when one property of one node does. */
  lemma FactsWithProp(nodes: map<nat, NodeRec>, n: nat, k: nat, v: Value)
    requires n in nodes
    ensures var rec := nodes[n];
            var ls := rec.labels;
            && Alone(Facts(nodes), Gone(ls, k, Had(rec, k), n))
            && Swapped(Facts(nodes), ls, k, Had(rec, k), v, n) ==
               Facts(nodes[n := Stored(WithProp(rec, k, v))]) + (if v == Null then EntriesOf(ls, k, v, n) else {})
  {
    hide Swapped, Facts, Stored, WithProp, EntriesOf, Gone, Alone;
    FactsAlone(nodes, n, k);
    var rec := nodes[n];
    var ls := rec.labels;
    var a := Swapped(Facts(nodes), ls, k, Had(rec, k), v, n);
    var after := nodes[n := Stored(WithProp(rec, k, v))];
    var b := Facts(after) + (if v == Null then EntriesOf(ls, k, v, n) else {});
    forall p ensures p in a <==> p in b {
      SwappedFact(nodes, n, k, v, p);
    }
  }

  lemma SwappedFact(nodes: map<nat, NodeRec>, n: nat, k: nat, v: Value, p: PropEntry)
    requires n in nodes
    ensures var rec := nodes[n];
            var ls := rec.labels;
            p in Swapped(Facts(nodes), ls, k, Had(rec, k), v, n) <==>
            p in Facts(nodes[n := Stored(WithProp(rec, k, v))]) || (v == Null && p in EntriesOf(ls, k, v, n))
  {
    var rec := nodes[n];
    SortNatsMembers(rec.labels);
    var after := nodes[n := Stored(WithProp(rec, k, v))];
    assert p in Facts(nodes) <==> HasFact(nodes, p);
    assert p in Facts(after) <==> HasFact(after, p);
    hide Facts, SortNats;
  }

  lemma FactsAlone(nodes: map<nat, NodeRec>, n: nat, k: nat)
    requires n in nodes
    ensures Alone(Facts(nodes), Gone(nodes[n].labels, k, Had(nodes[n], k), n))
  {
  }

  lemma StoredOk(rec: NodeRec)
    ensures NoDups(rec.labels) ==> StrictlyAscending(Stored(rec).labels)
    ensures forall l :: l in Stored(rec).labels <==> l in rec.labels
  {
    SortNatsMembers(rec.labels);
    if NoDups(rec.labels) {
      SortNatsAscends(rec.labels);
    }
  }

  /** One of the node's labels is indexed on the key. */
  ghost predicate IndexedOn(s: Store, n: nat, k: nat)
    requires n in s.nodes
  {
    exists l :: l in s.nodes[n].labels && Pair(l, k) in s.cat.indexes
  }

  /** Facts in agreement with the owner keys do not clash. */
  lemma NoClashes(s: Store, facts: set<PropEntry>, added: set<PropEntry>, base: set<PropEntry>)
    requires Owned(s, facts) && added <= facts
    requires forall p, q :: p in added && q in base && q.node != p.node ==> q in facts
    ensures !Clashes(s, added, base)
  {
    forall p, q | p in added && q in base ensures !Clash(s, p, q) {
      if q.node != p.node {
        NoClash(s, facts, p, q);
      }
    }
  }

  /** What is left to show once the entries of one property have been swapped. */
  lemma PropSet(s: Store, t: Store, n: nat, k: nat, v: Value)
    requires Consistent(s) && n in s.nodes && NodeChange(s, t)
    requires t.nodes == s.nodes[n := Stored(WithProp(s.nodes[n], k, v))]
    requires Agrees(t, Swapped(Facts(s.nodes), s.nodes[n].labels, k, Had(s.nodes[n], k), v, n))
    ensures Consistent(t) <==> v != Null || !IndexedOn(s, n, k)
    ensures !Clashes(t, EntriesOf(s.nodes[n].labels, k, v, n), Facts(s.nodes))
  {
    var ls := s.nodes[n].labels;
    FactsWithProp(s.nodes, n, k, v);
    StoredOk(WithProp(s.nodes[n], k, v));
    OthersKept(s, t, n);
    NoClashes(t, Swapped(Facts(s.nodes), ls, k, Had(s.nodes[n], k), v, n), EntriesOf(ls, k, v, n), Facts(s.nodes));
    hide Others, Swapped, Clashes, Owned;
    if v == Null {
      if IndexedOn(s, n, k) {
        StrayEntry(s, t, n, k);
      } else {
        UnindexedFacts(t, Facts(t.nodes), EntriesOf(ls, k, v, n));
      }
    } else {
      assert Facts(t.nodes) + {} == Facts(t.nodes);
    }
  }

  /** Setting an indexed property to null leaves a null entry that no record explains. */
  lemma StrayEntry(s: Store, t: Store, n: nat, k: nat)
    requires n in s.nodes && IndexedOn(s, n, k) && n in t.nodes && k !in t.nodes[n].props
    requires t.cat.indexes == s.cat.indexes
    requires Agrees(t, Facts(t.nodes) + EntriesOf(s.nodes[n].labels, k, Null, n))
    ensures !Consistent(t)
  {
    var l :| l in s.nodes[n].labels && Pair(l, k) in s.cat.indexes;
    var p := PropEntry(Pair(l, k), Null, n);
    assert p in EntriesOf(s.nodes[n].labels, k, Null, n);
    assert p in t.props && !HasFact(t.nodes, p);
  }

  /**
   * Sets a property, or removes it when the value is null. The invariant is
   * kept except that a null value under an index leaves a stray entry.
   */
  method SetProperty(txn: Txn, n: nat, key: Bytes, value: Value) returns (err: Err)
    requires Consistent(txn.db)
    modifies txn
    ensures err == Ok || err == NodeNotFound || err == OutOfIds || err == Violation
    ensures err == NodeNotFound <==> n !in old(txn.db.nodes)
    ensures err == OutOfIds ==> Spent(old(txn.db.cat), KKey, 1)
    ensures err == Ok || err == Violation ==> Extends(old(txn.db.cat), txn.db.cat)
    ensures err == Ok || err == Violation ==>
              && Name(KKey, key) in txn.db.cat.ids
              && var k, rec := txn.db.cat.ids[Name(KKey, key)], old(txn.db.nodes[n]);
                 err == Violation <==> Clashes(txn.db, EntriesOf(rec.labels, k, value, n), Facts(old(txn.db.nodes)))
    ensures err == Ok ==>
              && NodeChange(old(txn.db), txn.db)
              && var k, rec := txn.db.cat.ids[Name(KKey, key)], old(txn.db.nodes[n]);
                 && txn.db.nodes == old(txn.db.nodes)[n := Stored(WithProp(rec, k, value))]
                 && (Consistent(txn.db) <==> value != Null || !IndexedOn(old(txn.db), n, k))
  {
    hide Consistent, Others, Agrees, Swapped, Clashes, DictsOk, Grows, Extends, HasFact, Alone, NoDups, EntriesOf,
      IndexedOn;
    GivenConsistent(txn.db);
    if n !in txn.db.nodes {
      return NodeNotFound;
    }
    var node := txn.db.nodes[n];
    ghost var was := txn.db;
    var k;
    k, err := Intern(txn, Name(KKey, key));
    if err != Ok {
      return;
    }
    AfterIntern(was, txn.db);
    ExtendsByGrows(was.cat, txn.db.cat);
    FactsWithProp(was.nodes, n, k, value);
    err := SwapProp(txn, node.labels, k, Had(node, k), value, n, Facts(was.nodes));
    if err != Ok {
      ClashesSame(was.(cat := txn.db.cat), txn.db, EntriesOf(node.labels, k, value, n), Facts(was.nodes));
      return;
    }
    var props := if value == Null then node.props - {k} else node.props[k := value];
    ghost var swapped := txn.db;
    PutNodeRecord(txn, n, node.(props := props));
    AgreesElsewhere(swapped, txn.db, Swapped(Facts(was.nodes), node.labels, k, Had(node, k), value, n));
    PropSet(was, txn.db, n, k, value);
  }

  lemma ExtendsByGrows(c: Catalog, d: Catalog)
    requires Grows(c, d) && DictsOk(d)
    ensures Extends(c, d)
  {
    hide DictsOk;
  }

  lemma GivenConsistent(s: Store)
    requires Consistent(s)
    ensures Agrees(s, Facts(s.nodes)) && DictsOk(s.cat) && Others(s)
    ensures forall n :: n in s.nodes ==> NoDups(s.nodes[n].labels)
  {
  }

  /** Interning names touches no entry and no registry. */
  lemma AfterIntern(s: Store, t: Store)
    requires t == s.(cat := t.cat) && Grows(s.cat, t.cat) && Agrees(s, Facts(s.nodes))
    ensures t.cat.indexes == s.cat.indexes && t.cat.constraints == s.cat.constraints
    ensures t.cat.relIndexes == s.cat.relIndexes
    ensures Agrees(t, Facts(s.nodes))
  {
    AgreesElsewhere(s, t, Facts(s.nodes));
  }

  lemma ClashesSame(s: Store, t: Store, added: set<PropEntry>, facts: set<PropEntry>)
    requires t.cat.constraints == s.cat.constraints
    ensures Clashes(s, added, facts) <==> Clashes(t, added, facts)
  {
    forall p, q ensures Clash(s, p, q) <==> Clash(t, p, q) {
    }
  }

  method PutNodeRecord(txn: Txn, n: nat, rec: NodeRec)
    modifies txn
    ensures txn.db == old(txn.db).(nodes := old(txn.db.nodes)[n := Stored(rec)])
  {
    txn.db := txn.db.(nodes := txn.db.nodes[n := Stored(rec)]);
  }
}
