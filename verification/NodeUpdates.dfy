/** AddLabels, RemoveLabels, RemoveProperty and SetNodeProperties. */
module NodeUpdates {
  import opened Seqs
  import opened Values
  import opened Compare
  import opened GraphStore
  import opened GraphTxn
  import opened NodeCrud
  import opened NodeLabels

  /** One node's record changed; its label entries with it. */
  ghost predicate Relabelled(s: Store, t: Store, n: nat, rec: NodeRec)
  {
    && n in s.nodes && RecordOk(rec)
    && t == s.(nodes := s.nodes[n := Stored(rec)], labels := t.labels, props := t.props, owners := t.owners,
               cat := t.cat)
    && Grows(s.cat, t.cat) && DictsOk(t.cat)
    && forall e :: e in t.labels <==> if e.node == n then e.lab in rec.labels else e in s.labels
  }

  lemma OthersRelabelled(s: Store, t: Store, n: nat, rec: NodeRec)
    requires Others(s) && Relabelled(s, t, n, rec)
    ensures Others(t)
  {
    StoredOk(rec);
    hide SortNats, DictsOk;
  }

  /** Everything the facts of a node's record say. */
  lemma FactsOfRecord(nodes: map<nat, NodeRec>, n: nat, rec: NodeRec, facts: set<PropEntry>)
    requires forall p: PropEntry :: p.node != n ==> (p in facts <==> p in Facts(nodes))
    requires forall p: PropEntry :: p.node == n ==> (p in facts <==> p in AllEntries(rec.labels, rec.props, n))
    ensures facts == Facts(nodes[n := Stored(rec)])
  {
    SortNatsMembers(rec.labels);
    var after := nodes[n := Stored(rec)];
    forall p ensures p in facts <==> p in Facts(after) {
      assert p in Facts(after) <==> HasFact(after, p);
      assert p in Facts(nodes) <==> HasFact(nodes, p);
    }
  }

  lemma OwnFacts(nodes: map<nat, NodeRec>, n: nat)
    requires n in nodes
    ensures forall p: PropEntry :: p.node == n ==>
              (p in Facts(nodes) <==> p in AllEntries(nodes[n].labels, nodes[n].props, n))
  {
    forall p: PropEntry | p.node == n
      ensures p in Facts(nodes) <==> p in AllEntries(nodes[n].labels, nodes[n].props, n)
    {
      assert p in Facts(nodes) <==> HasFact(nodes, p);
    }
  }

  /** The facts of a node are alone at their label and key. */
  lemma OwnFactsAlone(nodes: map<nat, NodeRec>, n: nat, ls: seq<nat>, props: Props)
    requires n in nodes && forall k :: k in props ==> k in nodes[n].props && nodes[n].props[k] == props[k]
    ensures Alone(Facts(nodes), AllEntries(ls, props, n))
  {
    forall p, q | p in AllEntries(ls, props, n) && q in Facts(nodes) && q.on == p.on && q.node == p.node
      ensures q == p
    {
      assert HasFact(nodes, q);
    }
  }

  lemma Finish(s: Store, t: Store, n: nat, rec: NodeRec, facts: set<PropEntry>)
    requires Others(s) && Relabelled(s, t, n, rec) && Agrees(t, facts)
    requires forall p: PropEntry :: p.node != n ==> (p in facts <==> p in Facts(s.nodes))
    requires forall p: PropEntry :: p.node == n ==> (p in facts <==> p in AllEntries(rec.labels, rec.props, n))
    ensures Consistent(t)
  {
    FactsOfRecord(s.nodes, n, rec, facts);
    OthersRelabelled(s, t, n, rec);
  }

  // ----- AddLabels -----

  lemma AddedFacts(s: Store, n: nat, added: seq<nat>)
    requires n in s.nodes
    ensures var rec := s.nodes[n].(labels := s.nodes[n].labels + added);
            var facts := Facts(s.nodes) + AllEntries(added, rec.props, n);
            && (forall p: PropEntry :: p.node != n ==> (p in facts <==> p in Facts(s.nodes)))
            && (forall p: PropEntry :: p.node == n ==> (p in facts <==> p in AllEntries(rec.labels, rec.props, n)))
  {
    OwnFacts(s.nodes, n);
    hide Facts;
  }

  lemma AddedLabels(s: Store, t: Store, n: nat, added: seq<nat>)
    requires Others(s) && n in s.nodes && NoDups(s.nodes[n].labels + added)
    requires t == s.(nodes := s.nodes[n := Stored(s.nodes[n].(labels := s.nodes[n].labels + added))],
                     labels := s.labels + LabelEntries(added, n), props := t.props, owners := t.owners, cat := t.cat)
    requires Grows(s.cat, t.cat) && DictsOk(t.cat)
    ensures Relabelled(s, t, n, s.nodes[n].(labels := s.nodes[n].labels + added))
  {
    hide Stored, DictsOk, Grows;
  }

  /** The labels a node has after the names were added. */
  ghost predicate LabelsAdded(c: Catalog, was: NodeRec, names: seq<Bytes>, rec: NodeRec)
  {
    rec.props == was.props && forall l :: l in rec.labels <==> l in was.labels || Resolves(c, names, l)
  }

  method AddLabels(txn: Txn, n: nat, names: seq<Bytes>) returns (err: Err)
    requires Consistent(txn.db)
    modifies txn
    ensures err == Ok || err == NodeNotFound || err == OutOfIds || err == Violation
    ensures err == OutOfIds ==> Spent(old(txn.db.cat), KLabel, |names|)
    ensures err == Violation || (err == Ok && names != []) ==> Extends(old(txn.db.cat), txn.db.cat)
    ensures names == [] ==> err == Ok && txn.db == old(txn.db)
    ensures names != [] ==> (err == NodeNotFound <==> n !in old(txn.db.nodes))
    ensures err == Ok ==> Consistent(txn.db) && txn.db.edges == old(txn.db.edges)
    ensures err == Ok && names != [] ==>
              && Grows(old(txn.db.cat), txn.db.cat) && n in txn.db.nodes
              && txn.db.nodes == old(txn.db.nodes)[n := txn.db.nodes[n]]
              && LabelsAdded(txn.db.cat, old(txn.db.nodes[n]), names, txn.db.nodes[n])
              && !Clashes(txn.db, AllEntries(txn.db.nodes[n].labels, txn.db.nodes[n].props, n),
                          Facts(old(txn.db.nodes)))
    ensures err == Violation ==>
              exists added ::
                && (forall l :: l in added ==> Resolves(txn.db.cat, names, l))
                && Clashes(txn.db, AllEntries(added, old(txn.db.nodes[n].props), n), Facts(old(txn.db.nodes)))
  {
    if |names| == 0 {
      return Ok;
    }
    hide Consistent, Others, Agrees, DictsOk, Grows, Clashes, LabelEntries, AllEntries, NoDups, Stored, Relabelled,
      Facts, Resolves, Fresh, LabelsAdded, Extends, AtMostMore, Spent;
    ghost var was := txn.db;
    GivenConsistent(was);
    if n !in txn.db.nodes {
      return NodeNotFound;
    }
    var node := txn.db.nodes[n];
    var added;
    added, err := InternLabels(txn, names, node.labels);
    if err != Ok {
      return;
    }
    AfterInternCounters(was, txn.db);
    ExtendsByGrows(was.cat, txn.db.cat);
    FreshGives(txn.db.cat, node, names, added);
    if |added| == 0 {
      InternedConsistent(was, txn.db);
      ChangedNoClash(was, txn.db, n);
      return Ok;
    }
    ghost var interned := txn.db;
    err := PutLabels(txn, n, added, node.props, Facts(was.nodes));
    if err != Ok {
      ClashesSame(interned, txn.db, AllEntries(added, node.props, n), Facts(was.nodes));
      return;
    }
    ghost var put, facts := txn.db, Facts(was.nodes) + AllEntries(added, node.props, n);
    var rec := node.(labels := node.labels + added);
    PutNodeRecord(txn, n, rec);
    AgreesElsewhere(put, txn.db, facts);
    AddedLabels(was, txn.db, n, added);
    AddedFacts(was, n, added);
    Finish(was, txn.db, n, rec, facts);
    ChangedNoClash(was, txn.db, n);
  }

  /** A consistent store that differs in one node shows that the node's entries clash with nothing. */
  lemma ChangedNoClash(s: Store, t: Store, n: nat)
    requires Consistent(t) && n in t.nodes && t.nodes == s.nodes[n := t.nodes[n]]
    ensures !Clashes(t, AllEntries(t.nodes[n].labels, t.nodes[n].props, n), Facts(s.nodes))
  {
    var facts, added := Facts(t.nodes), AllEntries(t.nodes[n].labels, t.nodes[n].props, n);
    forall p | p in added ensures p in facts {
      assert HasFact(t.nodes, p);
    }
    forall q | q in Facts(s.nodes) && q.node != n ensures q in facts {
      assert HasFact(s.nodes, q) && HasFact(t.nodes, q);
    }
    assert Owned(t, facts);
    hide Consistent, Facts;
    NoClashes(t, facts, added, Facts(s.nodes));
  }

  lemma FreshGives(c: Catalog, was: NodeRec, names: seq<Bytes>, added: seq<nat>)
    requires Fresh(c, names, was.labels, added)
    ensures NoDups(was.labels + added)
    ensures LabelsAdded(c, was, names, Stored(was.(labels := was.labels + added)))
    ensures added == [] ==> LabelsAdded(c, was, names, was)
    ensures forall l :: l in added ==> Resolves(c, names, l)
  {
    StoredOk(was.(labels := was.labels + added));
    hide Resolves;
  }

  lemma InternedConsistent(s: Store, t: Store)
    requires Consistent(s) && t == s.(cat := t.cat) && Grows(s.cat, t.cat) && DictsOk(t.cat)
    ensures Consistent(t)
  {
    AfterIntern(s, t);
    hide DictsOk, Agrees;
  }

  // ----- RemoveLabels -----

  /** The labels to take away and the ones to keep, in record order. */
  method Partition(ls: seq<nat>, remove: set<nat>) returns (gone: seq<nat>, kept: seq<nat>)
    requires NoDups(ls)
    ensures forall l :: l in gone <==> l in ls && l in remove
    ensures forall l :: l in kept <==> l in ls && l !in remove
    ensures NoDups(kept)
  {
    gone, kept := [], [];
    for i := 0 to |ls|
      invariant forall l :: l in gone <==> l in ls[..i] && l in remove
      invariant forall l :: l in kept <==> l in ls[..i] && l !in remove
      invariant NoDups(kept)
    {
      assert ls[..i+1] == ls[..i] + [ls[i]] && ls[i] !in ls[..i];
      if ls[i] in remove {
        gone := gone + [ls[i]];
      } else {
        kept := kept + [ls[i]];
      }
    }
    assert ls[..|ls|] == ls;
  }

  lemma RemovedFacts(s: Store, n: nat, gone: seq<nat>, kept: seq<nat>)
    requires n in s.nodes
    requires forall l :: l in kept <==> l in s.nodes[n].labels && l !in gone
    ensures var rec := s.nodes[n].(labels := kept);
            var facts := Facts(s.nodes) - AllEntries(gone, rec.props, n);
            && (forall p: PropEntry :: p.node != n ==> (p in facts <==> p in Facts(s.nodes)))
            && (forall p: PropEntry :: p.node == n ==> (p in facts <==> p in AllEntries(kept, rec.props, n)))
  {
    OwnFacts(s.nodes, n);
    hide Facts;
  }

  lemma RemovedLabels(s: Store, t: Store, n: nat, gone: seq<nat>, kept: seq<nat>)
    requires Others(s) && n in s.nodes && NoDups(kept)
    requires forall l :: l in kept <==> l in s.nodes[n].labels && l !in gone
    requires t == s.(nodes := s.nodes[n := Stored(s.nodes[n].(labels := kept))],
                     labels := s.labels - LabelEntries(gone, n), props := t.props, owners := t.owners)
    ensures Relabelled(s, t, n, s.nodes[n].(labels := kept))
  {
    GrowsReflexive(s.cat);
    hide Stored, DictsOk, Grows;
  }

  /** The labels a node has after the names were taken away. */
  ghost predicate LabelsRemoved(c: Catalog, was: NodeRec, names: seq<Bytes>, rec: NodeRec)
  {
    rec.props == was.props && forall l :: l in rec.labels <==> l in was.labels && !Resolves(c, names, l)
  }

  /** The ids of the names the catalog knows. */
  function KnownLabels(c: Catalog, names: seq<Bytes>): set<nat>
  {
    set name | name in names && Name(KLabel, name) in c.ids :: c.ids[Name(KLabel, name)]
  }

  method RemoveLabels(txn: Txn, n: nat, names: seq<Bytes>) returns (err: Err)
    requires Consistent(txn.db)
    modifies txn
    ensures names == [] ==> err == Ok && txn.db == old(txn.db)
    ensures names != [] ==> err == if n in old(txn.db.nodes) then Ok else NodeNotFound
    ensures err == Ok ==>
              && Consistent(txn.db) && txn.db.edges == old(txn.db.edges) && txn.db.cat == old(txn.db.cat)
              && (names != [] ==>
                    && n in txn.db.nodes && txn.db.nodes == old(txn.db.nodes)[n := txn.db.nodes[n]]
                    && LabelsRemoved(txn.db.cat, old(txn.db.nodes[n]), names, txn.db.nodes[n]))
  {
    if |names| == 0 {
      return Ok;
    }
    hide Consistent, Others, Agrees, DictsOk, LabelEntries, AllEntries, NoDups, Stored, Relabelled, Facts, Alone,
      KnownLabels, Resolves;
    ghost var was := txn.db;
    GivenConsistent(was);
    if n !in txn.db.nodes {
      return NodeNotFound;
    }
    var node := txn.db.nodes[n];
    var remove := KnownLabels(txn.db.cat, names);
    KnownResolve(txn.db.cat, names);
    if remove == {} {
      return Ok;
    }
    var gone, kept := Partition(node.labels, remove);
    OwnFactsAlone(was.nodes, n, gone, node.props);
    DelLabels(txn, n, gone, node.props, Facts(was.nodes));
    ghost var deleted, facts := txn.db, Facts(was.nodes) - AllEntries(gone, node.props, n);
    var rec := node.(labels := kept);
    PutNodeRecord(txn, n, rec);
    AgreesElsewhere(deleted, txn.db, facts);
    RemovedLabels(was, txn.db, n, gone, kept);
    RemovedFacts(was, n, gone, kept);
    Finish(was, txn.db, n, rec, facts);
    RemovedGives(txn.db.cat, node, names, remove, kept);
    return Ok;
  }

  lemma KnownResolve(c: Catalog, names: seq<Bytes>)
    ensures forall l :: l in KnownLabels(c, names) <==> Resolves(c, names, l)
  {
  }

  lemma RemovedGives(c: Catalog, was: NodeRec, names: seq<Bytes>, remove: set<nat>, kept: seq<nat>)
    requires forall l :: l in remove <==> Resolves(c, names, l)
    requires forall l :: l in kept <==> l in was.labels && l !in remove
    ensures LabelsRemoved(c, was, names, Stored(was.(labels := kept)))
  {
    StoredOk(was.(labels := kept));
  }

  // ----- Property maps -----

  /** What is left to show when a node keeps its labels and gets new properties. */
  lemma PropsReplaced(s: Store, t: Store, n: nat, props: Props)
    requires Others(s) && n in s.nodes && forall k :: k in props ==> props[k] != Null
    requires t == s.(nodes := s.nodes[n := Stored(s.nodes[n].(props := props))], props := t.props, owners := t.owners,
                     cat := t.cat)
    requires Grows(s.cat, t.cat) && DictsOk(t.cat)
    ensures Relabelled(s, t, n, s.nodes[n].(props := props))
  {
    hide Stored, DictsOk, Grows;
  }

  function Restricted(props: Props, keys: set<nat>): (r: Props)
    ensures r.Keys == props.Keys * keys && forall k :: k in r ==> r[k] == props[k]
  {
    map k | k in props && k in keys :: props[k]
  }

  /** Deletes the entries of the properties that are not kept. */
  method DropStale(txn: Txn, n: nat, ls: seq<nat>, props: Props, keep: set<nat>, ghost facts: set<PropEntry>)
    requires Agrees(txn.db, facts) && Alone(facts, AllEntries(ls, props, n))
    modifies txn
    ensures OnlyEntries(old(txn.db), txn.db)
    ensures Agrees(txn.db, facts - AllEntries(ls, Restricted(props, props.Keys - keep), n))
  {
    hide Agrees, Alone, AllEntries, Restricted;
    var rest := props.Keys;
    NoProps(ls, props, props.Keys - keep - rest, n);
    assert facts - {} == facts;
    while rest != {}
      invariant rest <= props.Keys
      invariant OnlyEntries(old(txn.db), txn.db)
      invariant Agrees(txn.db, facts - AllEntries(ls, Restricted(props, props.Keys - keep - rest), n))
      decreases rest
    {
      var k :| k in rest;
      ghost var done := props.Keys - keep - rest;
      if k in keep {
        assert props.Keys - keep - (rest - {k}) == done;
      } else {
        KeyStep(ls, props, n, done, k);
        assert props.Keys - keep - (rest - {k}) == done + {k};
        AloneLess(facts, AllEntries(ls, props, n), EntriesOf(ls, k, props[k], n),
                  AllEntries(ls, Restricted(props, done), n));
        DelPropFor(txn, ls, k, props[k], n, facts - AllEntries(ls, Restricted(props, done), n));
        assert facts - AllEntries(ls, Restricted(props, done), n) - EntriesOf(ls, k, props[k], n) ==
               facts - AllEntries(ls, Restricted(props, done + {k}), n);
      }
      rest := rest - {k};
    }
    assert props.Keys - keep - {} == props.Keys - keep;
  }

  lemma NoProps(ls: seq<nat>, props: Props, keys: set<nat>, n: nat)
    requires keys == {}
    ensures AllEntries(ls, Restricted(props, keys), n) == {}
  {
    assert Restricted(props, keys) == map[];
  }

  lemma KeyStep(ls: seq<nat>, props: Props, n: nat, done: set<nat>, k: nat)
    requires k in props
    ensures AllEntries(ls, Restricted(props, done + {k}), n) ==
            AllEntries(ls, Restricted(props, done), n) + EntriesOf(ls, k, props[k], n)
    ensures EntriesOf(ls, k, props[k], n) <= AllEntries(ls, props, n)
  {
    forall p ensures p in AllEntries(ls, Restricted(props, done + {k}), n) <==>
                     p in AllEntries(ls, Restricted(props, done), n) + EntriesOf(ls, k, props[k], n) {
    }
  }

  /** Puts the entries of every property under every label. */
  method PutProps(txn: Txn, n: nat, ls: seq<nat>, props: Props, ghost facts: set<PropEntry>) returns (err: Err)
    requires Agrees(txn.db, facts)
    modifies txn
    ensures OnlyEntries(old(txn.db), txn.db)
    ensures err == Ok || err == Violation
    ensures err == Ok ==> Agrees(txn.db, facts + AllEntries(ls, props, n))
    ensures err == Violation ==> Clashes(old(txn.db), AllEntries(ls, props, n), facts)
  {
    hide Agrees, AllEntries, Restricted, Clashes;
    var rest := props.Keys;
    NoProps(ls, props, props.Keys - rest, n);
    assert facts + {} == facts;
    while rest != {}
      invariant rest <= props.Keys
      invariant OnlyEntries(old(txn.db), txn.db)
      invariant Agrees(txn.db, facts + AllEntries(ls, Restricted(props, props.Keys - rest), n))
      decreases rest
    {
      var k :| k in rest;
      ghost var done := props.Keys - rest;
      ghost var before, now := txn.db, facts + AllEntries(ls, Restricted(props, done), n);
      KeyStep(ls, props, n, done, k);
      err := PutPropFor(txn, ls, k, props[k], n, now);
      if err != Ok {
        KeyNode(ls, props, n, done, k);
        ClashesWider(before, old(txn.db), EntriesOf(ls, k, props[k], n), AllEntries(ls, props, n),
                     facts, AllEntries(ls, Restricted(props, done), n));
        return;
      }
      assert props.Keys - (rest - {k}) == done + {k};
      assert now + EntriesOf(ls, k, props[k], n) == facts + AllEntries(ls, Restricted(props, done + {k}), n);
      rest := rest - {k};
    }
    WholeMap(props);
    assert props.Keys - {} == props.Keys;
    return Ok;
  }

  lemma WholeMap(props: Props)
    ensures Restricted(props, props.Keys) == props
  {
  }

  lemma KeyNode(ls: seq<nat>, props: Props, n: nat, done: set<nat>, k: nat)
    requires k in props
    ensures forall p, q :: p in EntriesOf(ls, k, props[k], n) && q in AllEntries(ls, Restricted(props, done), n) ==>
            p.node == q.node
  {
  }

  // ----- RemoveProperty -----

  lemma WithoutProp(s: Store, n: nat, k: nat)
    requires n in s.nodes && k in s.nodes[n].props
    ensures var rec := s.nodes[n];
            var facts := Facts(s.nodes) - EntriesOf(rec.labels, k, rec.props[k], n);
            && Alone(Facts(s.nodes), EntriesOf(rec.labels, k, rec.props[k], n))
            && (forall p: PropEntry :: p.node != n ==> (p in facts <==> p in Facts(s.nodes)))
            && (forall p: PropEntry :: p.node == n ==>
                (p in facts <==> p in AllEntries(rec.labels, rec.props - {k}, n)))
  {
    OwnFacts(s.nodes, n);
    hide Facts;
  }

  method RemoveProperty(txn: Txn, n: nat, key: Bytes) returns (err: Err)
    requires Consistent(txn.db)
    modifies txn
    ensures err == if n in old(txn.db.nodes) then Ok else NodeNotFound
    ensures err == Ok ==>
              && Consistent(txn.db) && txn.db.edges == old(txn.db.edges) && txn.db.cat == old(txn.db.cat)
              && n in txn.db.nodes && txn.db.nodes == old(txn.db.nodes)[n := txn.db.nodes[n]]
              && (Name(KKey, key) in txn.db.cat.ids ==>
                    txn.db.nodes[n].props == old(txn.db.nodes[n].props) - {txn.db.cat.ids[Name(KKey, key)]})
              && (Name(KKey, key) !in txn.db.cat.ids ==> txn.db.nodes[n].props == old(txn.db.nodes[n].props))
              && (forall l :: l in txn.db.nodes[n].labels <==> l in old(txn.db.nodes[n].labels))
  {
    hide Consistent, Others, Agrees, DictsOk, AllEntries, NoDups, SortNats, Relabelled, Facts, Alone, Grows, EntriesOf;
    ghost var was := txn.db;
    GivenConsistent(was);
    if n !in txn.db.nodes {
      return NodeNotFound;
    }
    var node := txn.db.nodes[n];
    if Name(KKey, key) !in txn.db.cat.ids {
      return Ok;
    }
    var k := txn.db.cat.ids[Name(KKey, key)];
    if k !in node.props {
      assert node.props == node.props - {k};
      return Ok;
    }
    WithoutProp(was, n, k);
    var rec := node.(props := node.props - {k});
    DelPropFor(txn, node.labels, k, node.props[k], n, Facts(was.nodes));
    ghost var deleted, facts := txn.db, Facts(was.nodes) - EntriesOf(node.labels, k, node.props[k], n);
    PutNodeRecord(txn, n, rec);
    AgreesElsewhere(deleted, txn.db, facts);
    GrowsReflexive(was.cat);
    NoNulls(was, n);
    PropsReplaced(was, txn.db, n, rec.props);
    Finish(was, txn.db, n, rec, facts);
    StoredOk(rec);
    return Ok;
  }

  lemma NoNulls(s: Store, n: nat)
    requires Others(s) && n in s.nodes
    ensures forall k :: k in s.nodes[n].props ==> s.nodes[n].props[k] != Null
  {
  }

  // ----- SetNodeProperties -----

  /** The properties a node ends up with: replaced, or merged onto the old ones. */
  function Applied(was: Props, desired: Props, replace: bool): (r: Props)
    ensures (forall k :: k in was ==> was[k] != Null) ==> forall k :: k in r ==> r[k] != Null
  {
    var kept := if replace then map[] else was - desired.Keys;
    kept + map k | k in desired && desired[k] != Null :: desired[k]
  }

  /** k is the id of a key that is given. */
  ghost predicate GivenKey(c: Catalog, props: map<Bytes, Value>, k: nat)
  {
    exists key :: key in props && Name(KKey, key) in c.ids && c.ids[Name(KKey, key)] == k
  }

  /**
   * What becomes of the properties of a node: a key given a value has it, a
   * key given null is gone, and a key not given is gone or stays as it was.
   */
  ghost predicate PropsSet(c: Catalog, was: Props, props: map<Bytes, Value>, replace: bool, now: Props)
  {
    && (forall key :: key in props ==> Name(KKey, key) in c.ids)
    && (forall key :: key in props && props[key] != Null ==>
          var k := c.ids[Name(KKey, key)]; k in now && now[k] == props[key])
    && (forall key :: key in props && props[key] == Null ==> c.ids[Name(KKey, key)] !in now)
    && (forall k :: !GivenKey(c, props, k) && replace ==> k !in now)
    && (forall k :: !GivenKey(c, props, k) && !replace ==> (k in now <==> k in was) && (k in was ==> now[k] == was[k]))
  }

  lemma AppliedIsSet(c: Catalog, was: Props, props: map<Bytes, Value>, desired: Props, replace: bool)
    requires Translated(c, props, props.Keys, true, desired)
    ensures PropsSet(c, was, props, replace, Applied(was, desired, replace))
  {
    forall k ensures k in desired <==> GivenKey(c, props, k) {
      if k in desired {
        var key :| key in props.Keys && key in props && Name(KKey, key) in c.ids && c.ids[Name(KKey, key)] == k;
      }
    }
  }

  /** The old properties whose entries need not be rewritten. */
  function Unchanged(was: Props, desired: Props, replace: bool): set<nat>
  {
    set k | k in was && (if k in desired then SameValue(desired[k], was[k]) else !replace)
  }

  lemma UnchangedStay(was: Props, desired: Props, replace: bool, k: nat)
    requires k in was && was[k] != Null
    ensures k in Unchanged(was, desired, replace) ==>
              k in Applied(was, desired, replace) && Applied(was, desired, replace)[k] == was[k]
  {
  }

  lemma AppliedFacts(s: Store, n: nat, desired: Props, replace: bool)
    requires n in s.nodes && forall k :: k in s.nodes[n].props ==> s.nodes[n].props[k] != Null
    ensures var rec := s.nodes[n];
            var stale := Restricted(rec.props, rec.props.Keys - Unchanged(rec.props, desired, replace));
            var props := Applied(rec.props, desired, replace);
            var facts := Facts(s.nodes) - AllEntries(rec.labels, stale, n) + AllEntries(rec.labels, props, n);
            && (forall p: PropEntry :: p.node != n ==> (p in facts <==> p in Facts(s.nodes)))
            && (forall p: PropEntry :: p.node == n ==> (p in facts <==> p in AllEntries(rec.labels, props, n)))
  {
    var rec := s.nodes[n];
    OwnFacts(s.nodes, n);
    hide Facts, Applied, Unchanged;
    var keep := Unchanged(rec.props, desired, replace);
    var stale := Restricted(rec.props, rec.props.Keys - keep);
    var props := Applied(rec.props, desired, replace);
    forall p | p in AllEntries(rec.labels, rec.props, n) && p !in AllEntries(rec.labels, stale, n)
      ensures p in AllEntries(rec.labels, props, n)
    {
      UnchangedStay(rec.props, desired, replace, p.on.key);
    }
  }

  method SetNodeProperties(txn: Txn, n: nat, props: map<Bytes, Value>, replace: bool) returns (err: Err)
    requires Consistent(txn.db)
    modifies txn
    ensures err == Ok || err == NodeNotFound || err == OutOfIds || err == Violation
    ensures err == OutOfIds ==> Spent(old(txn.db.cat), KKey, KeyCount(props))
    ensures err == Ok || err == Violation ==> Extends(old(txn.db.cat), txn.db.cat)
    ensures err == NodeNotFound <==> n !in old(txn.db.nodes)
    ensures err == Ok || err == Violation ==>
              exists now ::
                && PropsSet(txn.db.cat, old(txn.db.nodes[n].props), props, replace, now)
                && (err == Violation <==>
                      Clashes(txn.db, AllEntries(old(txn.db.nodes[n].labels), now, n), Facts(old(txn.db.nodes))))
                && (err == Ok ==>
                      txn.db.nodes == old(txn.db.nodes)[n := Stored(old(txn.db.nodes[n]).(props := now))])
    ensures err == Ok ==> Consistent(txn.db) && txn.db.edges == old(txn.db.edges) && Grows(old(txn.db.cat), txn.db.cat)
  {
    hide Consistent, Others, Agrees, DictsOk, AllEntries, NoDups, Stored, Relabelled, Facts, Alone, Grows, Clashes,
      Restricted, Applied, Unchanged, Translated, PropsSet, Extends, AtMostMore, Spent;
    ghost var was := txn.db;
    GivenConsistent(was);
    if n !in txn.db.nodes {
      return NodeNotFound;
    }
    var node := txn.db.nodes[n];
    var desired;
    desired, err := InternProps(txn, props, true);
    if err != Ok {
      return;
    }
    AppliedIsSet(txn.db.cat, node.props, props, desired, replace);
    ExtendsByGrows(was.cat, txn.db.cat);
    AfterInternCounters(was, txn.db);
    var keep, after := Unchanged(node.props, desired, replace), Applied(node.props, desired, replace);
    OwnFactsAlone(was.nodes, n, node.labels, node.props);
    DropStale(txn, n, node.labels, node.props, keep, Facts(was.nodes));
    ghost var stale := AllEntries(node.labels, Restricted(node.props, node.props.Keys - keep), n);
    ghost var dropped := txn.db;
    err := PutProps(txn, n, node.labels, after, Facts(was.nodes) - stale);
    NoNulls(was, n);
    AppliedFacts(was, n, desired, replace);
    if err != Ok {
      ClashesAnyway(dropped, txn.db, AllEntries(node.labels, after, n), Facts(was.nodes), stale);
      return;
    }
    ghost var put, facts := txn.db, Facts(was.nodes) - stale + AllEntries(node.labels, after, n);
    NodeNoClashes(txn.db, facts, node.labels, after, n, Facts(was.nodes));
    PutNodeRecord(txn, n, node.(props := after));
    ClashesSame(put, txn.db, AllEntries(node.labels, after, n), Facts(was.nodes));
    AgreesElsewhere(put, txn.db, facts);
    PropsReplaced(was, txn.db, n, after);
    Finish(was, txn.db, n, node.(props := after), facts);
  }

  lemma NodeNoClashes(s: Store, facts: set<PropEntry>, ls: seq<nat>, props: Props, n: nat, base: set<PropEntry>)
    requires Agrees(s, facts) && AllEntries(ls, props, n) <= facts
    requires forall p: PropEntry :: p.node != n ==> (p in facts <==> p in base)
    ensures !Clashes(s, AllEntries(ls, props, n), base)
  {
    NoClashes(s, facts, AllEntries(ls, props, n), base);
  }

  lemma ClashesAnyway(s: Store, t: Store, added: set<PropEntry>, facts: set<PropEntry>, gone: set<PropEntry>)
    requires Clashes(s, added, facts - gone) && t.cat == s.cat
    ensures Clashes(t, added, facts)
  {
    var p, q :| p in added && q in facts - gone && Clash(s, p, q);
    assert Clash(t, p, q);
  }
}
