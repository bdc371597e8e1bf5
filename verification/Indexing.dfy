/** Building and dropping indexes and unique constraints. */
module Indexing {
  import opened Values
  import opened Compare
  import opened GraphStore
  import opened GraphTxn
  import opened NodeCrud

  // ----- BuildIndex -----

  /** The nodes with the label, in some order of the scan. */
  function NodesWith(labels: set<LabelEntry>, l: nat): set<nat>
  {
    set e | e in labels && e.lab == l :: e.node
  }

  lemma NodesWithExact(s: Store, l: nat)
    requires LabelsAgree(s)
    ensures forall n :: n in NodesWith(s.labels, l) <==> n in s.nodes && l in s.nodes[n].labels
  {
    forall n | n in s.nodes && l in s.nodes[n].labels ensures n in NodesWith(s.labels, l) {
      assert LabelEntry(l, n) in s.labels;
    }
  }

  /** The facts of one pair whose node is among ns. */
  ghost predicate FactOn(s: Store, on: Pair, ns: set<nat>, p: PropEntry)
  {
    p in Facts(s.nodes) && p.on == on && p.node in ns && IsIndexable(p.value)
  }

  /** Backfills an entry for every node that carries the label. */
  method BuildIndex(txn: Txn, on: Pair)
    requires Consistent(txn.db)
    modifies txn
    ensures Consistent(txn.db)
    ensures txn.db == old(txn.db).(props := txn.db.props,
                                   cat := old(txn.db.cat).(indexes := old(txn.db.cat.indexes) + {on}))
  {
    hide Consistent, Others, Agrees, Facts, NodesWith;
    ghost var was := txn.db;
    GivenLabels(was, on.owner);
    txn.db := txn.db.(cat := txn.db.cat.(indexes := txn.db.cat.indexes + {on}));
    var all := NodesWith(txn.db.labels, on.owner);
    var rest := all;
    while rest != {}
      invariant rest <= all
      invariant txn.db == was.(props := txn.db.props, cat := was.cat.(indexes := was.cat.indexes + {on}))
      invariant forall p :: p in txn.db.props <==> p in was.props || FactOn(was, on, all - rest, p)
      decreases rest
    {
      var n :| n in rest;
      var props := txn.db.nodes[n].props;
      OneFact(was, on, n);
      if on.key in props && IsIndexable(props[on.key]) {
        txn.db := txn.db.(props := txn.db.props + {PropEntry(on, props[on.key], n)});
      }
      rest := rest - {n};
    }
    Backfilled(was, txn.db, on, all);
  }

  lemma GivenLabels(s: Store, l: nat)
    requires Consistent(s)
    ensures forall n :: n in NodesWith(s.labels, l) <==> n in s.nodes && l in s.nodes[n].labels
  {
    NodesWithExact(s, l);
  }

  /** What a labelled node contributes to the pair. */
  lemma OneFact(s: Store, on: Pair, n: nat)
    requires n in s.nodes && on.owner in s.nodes[n].labels
    ensures forall p: PropEntry :: p.node == n && p.on == on ==>
              (p in Facts(s.nodes) <==> on.key in s.nodes[n].props && p.value == s.nodes[n].props[on.key])
  {
    forall p: PropEntry | p.node == n && p.on == on
      ensures p in Facts(s.nodes) <==> on.key in s.nodes[n].props && p.value == s.nodes[n].props[on.key]
    {
      assert p in Facts(s.nodes) <==> HasFact(s.nodes, p);
    }
  }

  lemma Backfilled(s: Store, t: Store, on: Pair, all: set<nat>)
    requires Consistent(s)
    requires t == s.(props := t.props, cat := s.cat.(indexes := s.cat.indexes + {on}))
    requires forall n :: n in all <==> n in s.nodes && on.owner in s.nodes[n].labels
    requires forall p :: p in t.props <==> p in s.props || FactOn(s, on, all, p)
    ensures Consistent(t)
  {
    var facts := Facts(s.nodes);
    BackfilledEntries(s, t, on, all);
    OwnedSame(s, t, facts);
    OthersSame(s, t);
    hide Others, Indexed, Owned, Facts;
  }

  lemma BackfilledEntries(s: Store, t: Store, on: Pair, all: set<nat>)
    requires Indexed(s, Facts(s.nodes)) && t.cat.indexes == s.cat.indexes + {on}
    requires forall n :: n in all <==> n in s.nodes && on.owner in s.nodes[n].labels
    requires forall p :: p in t.props <==> p in s.props || FactOn(s, on, all, p)
    ensures Indexed(t, Facts(s.nodes))
  {
    forall p | p in Facts(s.nodes) && p.on == on ensures p.node in all {
      assert HasFact(s.nodes, p);
    }
  }

  lemma OwnedSame(s: Store, t: Store, facts: set<PropEntry>)
    requires Owned(s, facts) && t.owners == s.owners && t.cat.constraints == s.cat.constraints
    ensures Owned(t, facts)
  {
    forall c | c in t.owners ensures exists p :: p in facts && ClaimedBy(t, p, c) && p.node == t.owners[c] {
      var p :| p in facts && ClaimedBy(s, p, c) && p.node == s.owners[c];
      assert ClaimedBy(t, p, c);
    }
    forall p, c | p in facts && ClaimedBy(t, p, c) ensures c in t.owners && t.owners[c] == p.node {
      assert ClaimedBy(s, p, c);
    }
  }

  /** The rest of the invariant does not read the property registries. */
  lemma OthersSame(s: Store, t: Store)
    requires Others(s)
    requires t == s.(props := t.props, owners := t.owners,
                     cat := s.cat.(indexes := t.cat.indexes, constraints := t.cat.constraints))
    ensures Others(t)
  {
    DictsSame(s.cat, t.cat);
    hide DictsOk;
  }

  lemma DictsSame(c: Catalog, d: Catalog)
    requires DictsOk(c) && d.ids == c.ids && d.names == c.names && d.counters == c.counters
    ensures DictsOk(d)
  {
    assert forall k :: d.Counter(k) == c.Counter(k);
  }

  // ----- Dropping -----

  /** Deletes the entries of the pair and unregisters it, which is sound exactly when no constraint relies on it. */
  method DropIndexEntries(txn: Txn, on: Pair)
    requires Consistent(txn.db)
    modifies txn
    ensures Consistent(txn.db) <==> on !in txn.db.cat.constraints
    ensures txn.db == old(txn.db).(props := (set p | p in old(txn.db.props) && p.on != on),
                                   cat := old(txn.db.cat).(indexes := old(txn.db.cat.indexes) - {on}))
  {
    hide Others, Facts, Owned;
    ghost var was := txn.db;
    txn.db := txn.db.(props := set p | p in txn.db.props && p.on != on);
    txn.db := txn.db.(cat := txn.db.cat.(indexes := txn.db.cat.indexes - {on}));
    OwnedSame(was, txn.db, Facts(was.nodes));
    OthersSame(was, txn.db);
  }

  method DropUniqueConstraint(txn: Txn, on: Pair)
    requires Consistent(txn.db)
    modifies txn
    ensures Consistent(txn.db) && on !in txn.db.cat.constraints
    ensures txn.db.nodes == old(txn.db.nodes) && txn.db.edges == old(txn.db.edges)
    ensures on !in old(txn.db.cat.constraints) ==> txn.db == old(txn.db)
    ensures on in old(txn.db.cat.constraints) ==>
              txn.db.cat == old(txn.db.cat).(constraints := old(txn.db.cat.constraints) - {on},
                                             indexes := old(txn.db.cat.indexes) -
                                                        if old(txn.db.cat.constraints[on]) then {on} else {})
  {
    hide Consistent;
    if on !in txn.db.cat.constraints {
      return;
    }
    var ownsIndex := txn.db.cat.constraints[on];
    ghost var was := txn.db;
    txn.db := txn.db.(owners := map c | c in txn.db.owners && c.on != on :: txn.db.owners[c]);
    txn.db := txn.db.(cat := txn.db.cat.(constraints := txn.db.cat.constraints - {on}));
    Released(was, txn.db, on);
    if ownsIndex {
      DropIndexEntries(txn, on);
    } else {
      assert txn.db.cat.indexes == txn.db.cat.indexes - {};
    }
  }

  lemma ReleasedOwned(s: Store, t: Store, on: Pair, facts: set<PropEntry>)
    requires Owned(s, facts)
    requires t.owners == map c | c in s.owners && c.on != on :: s.owners[c]
    requires t.cat.constraints == s.cat.constraints - {on}
    ensures Owned(t, facts)
  {
    hide UniqueValue, IsIndexable;
    forall c | c in t.owners ensures exists p :: p in facts && ClaimedBy(t, p, c) && p.node == t.owners[c] {
      var p :| p in facts && ClaimedBy(s, p, c) && p.node == s.owners[c];
      assert ClaimedBy(t, p, c);
    }
    forall p, c | p in facts && ClaimedBy(t, p, c) ensures c in t.owners && t.owners[c] == p.node {
      assert ClaimedBy(s, p, c);
    }
  }

  lemma Released(s: Store, t: Store, on: Pair)
    requires Consistent(s)
    requires t == s.(owners := map c | c in s.owners && c.on != on :: s.owners[c],
                     cat := s.cat.(constraints := s.cat.constraints - {on}))
    ensures Consistent(t)
  {
    hide Others, Facts, Owned;
    OthersSame(s, t);
    ReleasedOwned(s, t, on, Facts(s.nodes));
  }

  // ----- AddUniqueConstraint -----

  /** Owner keys while the facts in pending still have to claim theirs. */
  ghost predicate Claiming(s: Store, facts: set<PropEntry>, pending: set<PropEntry>)
  {
    && (forall p, c :: p in facts - pending && ClaimedBy(s, p, c) ==> c in s.owners && s.owners[c] == p.node)
    && (forall c :: c in s.owners ==> exists p :: p in facts && ClaimedBy(s, p, c) && p.node == s.owners[c])
  }

  lemma ClaimOne(s: Store, t: Store, facts: set<PropEntry>, pending: set<PropEntry>, p: PropEntry)
    requires Claiming(s, facts, pending) && p in facts && p.on in s.cat.constraints && IsIndexable(p.value)
    requires t == s.(owners := t.owners)
    requires UniqueValue(p.value).None? ==> t.owners == s.owners
    requires UniqueValue(p.value).Some? ==>
               var c := Claim(p.on, UniqueValue(p.value).value);
               (c in s.owners ==> s.owners[c] == p.node) && t.owners == s.owners[c := p.node]
    ensures Claiming(t, facts, pending - {p})
  {
    hide UniqueValue, IsIndexable;
    forall c | c in t.owners ensures exists q :: q in facts && ClaimedBy(t, q, c) && q.node == t.owners[c] {
      if c in s.owners {
        var q :| q in facts && ClaimedBy(s, q, c) && q.node == s.owners[c];
        assert ClaimedBy(t, q, c);
      } else {
        assert ClaimedBy(t, p, c);
      }
    }
    forall q, c | q in facts - (pending - {p}) && ClaimedBy(t, q, c) ensures c in t.owners && t.owners[c] == q.node {
      assert ClaimedBy(s, q, c);
    }
  }

  lemma ClaimFails(s: Store, facts: set<PropEntry>, pending: set<PropEntry>, p: PropEntry)
    requires Claiming(s, facts, pending) && p in facts && p.on in s.cat.constraints && IsIndexable(p.value)
    requires UniqueValue(p.value).Some?
    requires var c := Claim(p.on, UniqueValue(p.value).value); c in s.owners && s.owners[c] != p.node
    ensures Clashes(s, facts, facts)
  {
    var c := Claim(p.on, UniqueValue(p.value).value);
    var q :| q in facts && ClaimedBy(s, q, c) && q.node == s.owners[c];
    assert Clash(s, p, q);
  }

  ghost function FactsOn(s: Store, on: Pair, ns: set<nat>): set<PropEntry>
  {
    set p | p in Facts(s.nodes) && p.on == on && p.node in ns
  }

  /** Claims the current values; fails exactly when two nodes already share one. */
  method ClaimAll(txn: Txn, on: Pair, all: set<nat>) returns (err: Err)
    requires on in txn.db.cat.constraints
    requires forall n :: n in all <==> n in txn.db.nodes && on.owner in txn.db.nodes[n].labels
    requires Claiming(txn.db, Facts(txn.db.nodes), FactsOn(txn.db, on, all))
    modifies txn
    ensures txn.db == old(txn.db).(owners := txn.db.owners)
    ensures err == Ok || err == Violation
    ensures err == Ok ==> Claiming(txn.db, Facts(txn.db.nodes), {})
    ensures err == Violation ==> Clashes(txn.db, Facts(txn.db.nodes), Facts(txn.db.nodes))
  {
    ghost var was, facts := txn.db, Facts(txn.db.nodes);
    hide Claiming, Facts, Clashes, UniqueValue;
    var rest := all;
    while rest != {}
      invariant rest <= all
      invariant txn.db == was.(owners := txn.db.owners)
      invariant Claiming(txn.db, facts, FactsOn(was, on, rest))
      decreases rest
    {
      var n :| n in rest;
      var props := txn.db.nodes[n].props;
      OneFact(was, on, n);
      if on.key in props && IsIndexable(props[on.key]) {
        var p := PropEntry(on, props[on.key], n);
        ghost var before := txn.db;
        err := ClaimValue(txn, p);
        if err != Ok {
          ClaimFails(before, facts, FactsOn(was, on, rest), p);
          ClashesSame(before, txn.db, facts, facts);
          return;
        }
        ClaimOne(before, txn.db, facts, FactsOn(was, on, rest), p);
        assert FactsOn(was, on, rest) - {p} == FactsOn(was, on, rest - {n});
      } else {
        NothingToClaim(txn.db, facts, on, n, FactsOn(was, on, rest), FactsOn(was, on, rest - {n}));
      }
      rest := rest - {n};
    }
    assert FactsOn(was, on, {}) == {};
    return Ok;
  }

  lemma NothingToClaim(s: Store, facts: set<PropEntry>, on: Pair, n: nat, pending: set<PropEntry>, rest: set<PropEntry>)
    requires Claiming(s, facts, pending)
    requires forall p :: p in pending && p !in rest ==> p.on == on && p.node == n
    requires forall p :: p in facts && p.on == on && p.node == n ==> !IsIndexable(p.value)
    ensures Claiming(s, facts, rest)
  {
  }

  method AddUniqueConstraint(txn: Txn, on: Pair) returns (err: Err)
    requires Consistent(txn.db)
    modifies txn
    ensures err == Ok || err == Violation
    ensures txn.db.nodes == old(txn.db.nodes) && txn.db.edges == old(txn.db.edges)
    ensures txn.db.cat ==
            old(txn.db.cat).(indexes := old(txn.db.cat.indexes) + {on},
                             constraints := old(txn.db.cat.constraints)[on := on !in old(txn.db.cat.indexes)])
    ensures err == Violation <==> Clashes(txn.db, Facts(txn.db.nodes), Facts(txn.db.nodes))
    ensures err == Ok ==> Consistent(txn.db)
  {
    hide Consistent, Others, Agrees, Facts, Claiming, Clashes, NodesWith;
    var hasIndex := on in txn.db.cat.indexes;
    if !hasIndex {
      BuildIndex(txn, on);
    } else {
      assert txn.db.cat.indexes == txn.db.cat.indexes + {on};
    }
    ghost var indexed := txn.db;
    txn.db := txn.db.(cat := txn.db.cat.(constraints := txn.db.cat.constraints[on := !hasIndex]));
    GivenLabels(indexed, on.owner);
    var all := NodesWith(txn.db.labels, on.owner);
    ClaimingStarts(indexed, txn.db, on, all);
    err := ClaimAll(txn, on, all);
    if err == Ok {
      Constrained(indexed, txn.db, on);
    }
  }

  lemma ClaimingStarts(s: Store, t: Store, on: Pair, all: set<nat>)
    requires Consistent(s) && on in s.cat.indexes
    requires t == s.(cat := s.cat.(constraints := t.cat.constraints)) && on in t.cat.constraints
    requires forall o :: o != on ==> (o in t.cat.constraints <==> o in s.cat.constraints)
    requires forall n :: n in all <==> n in s.nodes && on.owner in s.nodes[n].labels
    ensures Claiming(t, Facts(t.nodes), FactsOn(t, on, all))
  {
    var facts := Facts(s.nodes);
    hide UniqueValue, IsIndexable;
    forall c | c in t.owners ensures exists p :: p in facts && ClaimedBy(t, p, c) && p.node == t.owners[c] {
      var p :| p in facts && ClaimedBy(s, p, c) && p.node == s.owners[c];
      assert ClaimedBy(t, p, c);
    }
    forall p, c | p in facts - FactsOn(t, on, all) && ClaimedBy(t, p, c)
      ensures c in t.owners && t.owners[c] == p.node
    {
      assert HasFact(s.nodes, p);
      assert ClaimedBy(s, p, c);
    }
  }

  lemma Constrained(s: Store, t: Store, on: Pair)
    requires Consistent(s) && on in s.cat.indexes
    requires t == s.(owners := t.owners, cat := s.cat.(constraints := t.cat.constraints))
    requires forall o :: o in t.cat.constraints ==> o == on || o in s.cat.constraints
    requires Claiming(t, Facts(t.nodes), {})
    ensures Consistent(t) && !Clashes(t, Facts(t.nodes), Facts(t.nodes))
  {
    var facts := Facts(s.nodes);
    OthersSame(s, t);
    hide Others, Facts;
    assert facts - {} == facts;
    assert Owned(t, facts);
    NoClashes(t, facts, facts, facts);
    hide Clashes;
  }

  // ----- Relationship indexes -----

  method BuildRelIndex(txn: Txn, on: Pair)
    requires Consistent(txn.db)
    modifies txn
    ensures Consistent(txn.db)
    ensures txn.db == old(txn.db).(rels := txn.db.rels,
                                   cat := old(txn.db.cat).(relIndexes := old(txn.db.cat.relIndexes) + {on}))
  {
    hide Consistent;
    ghost var was := txn.db;
    GivenRels(was);
    txn.db := txn.db.(cat := txn.db.cat.(relIndexes := txn.db.cat.relIndexes + {on}));
    var rest := txn.db.edges.Keys;
    while rest != {}
      invariant rest <= was.edges.Keys
      invariant txn.db == was.(rels := txn.db.rels, cat := was.cat.(relIndexes := was.cat.relIndexes + {on}))
      invariant forall r :: r in txn.db.rels <==>
                  r in was.rels || (HasRelFact(was.edges, r) && r.on == on && IsIndexable(r.value) && r.edge !in rest)
      decreases rest
    {
      var id :| id in rest;
      var e := txn.db.edges[id];
      if e.typ == on.owner && on.key in e.props && IsIndexable(e.props[on.key]) {
        txn.db := txn.db.(rels := txn.db.rels + {RelEntry(on, e.props[on.key], id)});
      }
      rest := rest - {id};
    }
    RelRegistryChanged(was, txn.db);
  }

  method DropRelIndexEntries(txn: Txn, on: Pair)
    requires Consistent(txn.db)
    modifies txn
    ensures Consistent(txn.db)
    ensures txn.db == old(txn.db).(rels := txn.db.rels,
                                   cat := old(txn.db.cat).(relIndexes := old(txn.db.cat.relIndexes) - {on}))
  {
    hide Consistent;
    ghost var was := txn.db;
    GivenRels(was);
    txn.db := txn.db.(rels := set r | r in txn.db.rels && r.on != on);
    txn.db := txn.db.(cat := txn.db.cat.(relIndexes := txn.db.cat.relIndexes - {on}));
    RelRegistryChanged(was, txn.db);
  }

  lemma GivenRels(s: Store)
    requires Consistent(s)
    ensures RelsAgree(s)
  {
  }

  lemma RelRegistryChanged(s: Store, t: Store)
    requires Consistent(s)
    requires t == s.(rels := t.rels, cat := s.cat.(relIndexes := t.cat.relIndexes))
    requires RelsAgree(t)
    ensures Consistent(t)
  {
    DictsSame(s.cat, t.cat);
    AgreesElsewhere(s, t, Facts(s.nodes));
    hide DictsOk, Agrees;
  }
}
