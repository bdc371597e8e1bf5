/** Whole runs of mutations: every step commits or rolls back, and the invariant survives. */
module GraphRun {
  import opened Seqs
  import opened Values
  import opened Compare
  import opened GraphStore
  import opened GraphTxn
  import opened NodeCrud
  import opened NodeLabels
  import opened NodeUpdates
  import opened EdgeCrud
  import opened Indexing
  import opened GraphEffects
  import IndexAccess

  predicate SetsNoNull(c: Command)
  {
    c.CSetProperty? ==> c.value != Null
  }

  /** What a committed step may do to the catalog. */
  ghost predicate Stepped(c: Catalog, d: Catalog)
  {
    && Continues(c, d)
    && d.Counter(KNode) <= c.Counter(KNode) + 1 && d.Counter(KEdge) <= c.Counter(KEdge) + 1
  }

  lemma SteppedByGrows(c: Catalog, d: Catalog)
    requires Grows(c, d)
    ensures Stepped(c, d)
  {
  }

  lemma SteppedByRegistry(c: Catalog, d: Catalog, e: Catalog)
    requires Grows(c, d)
    requires e == d.(indexes := e.indexes, constraints := e.constraints, relIndexes := e.relIndexes)
    ensures Stepped(c, e)
  {
    assert forall k :: e.Counter(k) == d.Counter(k);
  }

  // ----- Id widths -----

  lemma ResolvedFits(c: Catalog, n: Name)
    requires DictsOk(c) && n in c.ids
    ensures c.ids[n] <= MAX_U32
  {
    assert Id(n.kind, c.ids[n]) in c.names;
  }

  /** Labels that were there before or resolve from a name fit. */
  lemma LabelsFit(c: Catalog, names: seq<Bytes>)
    requires DictsOk(c)
    ensures forall l: nat :: Resolves(c, names, l) ==> l <= MAX_U32
  {
    forall l: nat | Resolves(c, names, l) ensures l <= MAX_U32 {
      var name :| name in names && Name(KLabel, name) in c.ids && c.ids[Name(KLabel, name)] == l;
      ResolvedFits(c, Name(KLabel, name));
    }
  }

  lemma WidthsNode(s: Store, t: Store, n: nat)
    requires n in t.nodes && t.nodes == s.nodes[n := t.nodes[n]]
    requires t.edges == s.edges && SameRegistry(s.cat, t.cat)
    requires forall l :: l in t.nodes[n].labels ==> l <= MAX_U32 || (n in s.nodes && l in s.nodes[n].labels)
    ensures WidthsOk(s) ==> WidthsOk(t)
  {
  }

  lemma WidthsEdge(s: Store, t: Store, e: nat)
    requires e in t.edges && t.edges == s.edges[e := t.edges[e]] && t.edges[e].typ <= MAX_U32
    requires t.nodes == s.nodes && SameRegistry(s.cat, t.cat)
    ensures WidthsOk(s) ==> WidthsOk(t)
  {
  }

  lemma WidthsFewer(s: Store, t: Store)
    requires forall n :: n in t.nodes ==> n in s.nodes && t.nodes[n] == s.nodes[n]
    requires forall e :: e in t.edges ==> e in s.edges && t.edges[e] == s.edges[e]
    requires SameRegistry(s.cat, t.cat)
    ensures WidthsOk(s) ==> WidthsOk(t)
  {
  }

  lemma WidthsRegistry(s: Store, t: Store)
    requires t.nodes == s.nodes && t.edges == s.edges
    requires forall on :: on in t.cat.indexes ==> on in s.cat.indexes || PairFits(on)
    requires forall on :: on in t.cat.relIndexes ==> on in s.cat.relIndexes || PairFits(on)
    ensures WidthsOk(s) ==> WidthsOk(t)
  {
  }

  lemma SameByGrows(c: Catalog, d: Catalog)
    requires Grows(c, d)
    ensures SameRegistry(c, d)
  {
  }

  lemma GivenDicts(s: Store)
    requires Consistent(s)
    ensures DictsOk(s.cat)
  {
  }

  lemma StoredLabels(rec: NodeRec)
    ensures forall l :: l in Stored(rec).labels <==> l in rec.labels
    ensures Stored(rec).props == rec.props
  {
    SortNatsMembers(rec.labels);
  }

  // ----- Steps -----

  /** Steps on a node's properties. */
  method ChangeProps(txn: Txn, c: Command) returns (err: Err)
    requires Consistent(txn.db) && (c.CSetProperty? || c.CRemoveProperty? || c.CSetProperties?)
    modifies txn
    ensures Refusal(old(txn.db), c, err)
    ensures err == Ok ==> NodeEffect(old(txn.db), txn.db, c) && !Clashing(old(txn.db), c, txn.db.cat)
    ensures err == Ok ==> Grows(old(txn.db.cat), txn.db.cat) && (WidthsOk(old(txn.db)) ==> WidthsOk(txn.db))
    ensures err == Ok ==> (Consistent(txn.db) <==> Safe(old(txn.db), txn.db.cat, c))
  {
    hide Consistent, Grows, DictsOk, Clashes, Facts, WidthsOk, Stored, IndexedOn, PropsSet, Extends, Barred, AllEntries,
      EntriesOf, Spent;
    ghost var was := txn.db;
    GrowsReflexive(was.cat);
    match c {
      case CSetProperty(n, key, v) =>
        err := SetProperty(txn, n, key, v);
        if err == Ok || err == Violation {
          PropClash(was, txn.db, n, key, v);
        }
        if err == Violation {
          BarredBy(was, c, txn.db.cat);
        }
        if err == Ok {
          StoredLabels(WithProp(was.nodes[n], txn.db.cat.ids[Name(KKey, key)], v));
          SameByGrows(was.cat, txn.db.cat);
          WidthsNode(was, txn.db, n);
        }
      case CRemoveProperty(n, key) =>
        err := RemoveProperty(txn, n, key);
        if err == Ok {
          WidthsNode(was, txn.db, n);
        }
      case CSetProperties(n, props, replace) =>
        err := SetNodeProperties(txn, n, props, replace);
        if err == Violation {
          ghost var now :| PropsSet(txn.db.cat, was.nodes[n].props, props, replace, now)
                           && Clashes(txn.db, AllEntries(was.nodes[n].labels, now, n), Facts(was.nodes));
          PropsClash(was, txn.db, n, props, replace, now);
          BarredBy(was, c, txn.db.cat);
        }
        if err == Ok {
          ghost var now :| PropsSet(txn.db.cat, was.nodes[n].props, props, replace, now)
                           && !Clashes(txn.db, AllEntries(was.nodes[n].labels, now, n), Facts(was.nodes))
                           && txn.db.nodes == was.nodes[n := Stored(was.nodes[n].(props := now))];
          PropsClash(was, txn.db, n, props, replace, now);
          StoredLabels(was.nodes[n].(props := now));
          SameByGrows(was.cat, txn.db.cat);
          WidthsNode(was, txn.db, n);
        }
    }
  }

  /** Steps on a node's labels. */
  method ChangeLabels(txn: Txn, c: Command) returns (err: Err)
    requires Consistent(txn.db) && (c.CAddLabels? || c.CRemoveLabels?)
    modifies txn
    ensures Refusal(old(txn.db), c, err)
    ensures err == Ok ==> NodeEffect(old(txn.db), txn.db, c) && !Clashing(old(txn.db), c, txn.db.cat)
    ensures err == Ok ==> Grows(old(txn.db.cat), txn.db.cat) && (WidthsOk(old(txn.db)) ==> WidthsOk(txn.db))
    ensures err == Ok ==> Consistent(txn.db)
  {
    hide Consistent, Grows, DictsOk, Clashes, Resolves, Facts, WidthsOk, Extends, Barred, AllEntries, Spent, Clashing;
    ghost var was := txn.db;
    GrowsReflexive(was.cat);
    match c {
      case CAddLabels(n, ls) =>
        err := AddLabels(txn, n, ls);
        if err == Violation {
          ghost var added :| (forall l :: l in added ==> Resolves(txn.db.cat, ls, l))
                             && Clashes(txn.db, AllEntries(added, was.nodes[n].props, n), Facts(was.nodes));
          LabelsClash(was, txn.db, n, ls, added);
          BarredBy(was, c, txn.db.cat);
        }
        if err == Ok && ls == [] {
          NoLabelsNoClash(was, n);
        }
        if err == Ok && ls != [] {
          LabelsNoClash(was, txn.db, n, ls);
          GivenDicts(txn.db);
          LabelsFit(txn.db.cat, ls);
          SameByGrows(was.cat, txn.db.cat);
          WidthsNode(was, txn.db, n);
        }
      case CRemoveLabels(n, ls) =>
        err := RemoveLabels(txn, n, ls);
        NeverClashing(was, c, txn.db.cat);
        if err == Ok && ls != [] {
          WidthsNode(was, txn.db, n);
        }
    }
  }

  /** The ids a step hands out when it succeeds. */
  function NextIds(c: Catalog, cmd: Command): seq<nat>
  {
    if cmd.CCreateNode? then [(c.Counter(KNode) + 1) % TWO_64]
    else if cmd.CCreateEdge? then [(c.Counter(KEdge) + 1) % TWO_64]
    else []
  }

  /** What a step that creates leaves of the counters. */
  ghost predicate Counted(c: Catalog, d: Catalog, cmd: Command)
  {
    && d.Counter(KNode) == (if cmd.CCreateNode? then NextIds(c, cmd)[0] else c.Counter(KNode))
    && d.Counter(KEdge) == (if cmd.CCreateEdge? then NextIds(c, cmd)[0] else c.Counter(KEdge))
  }

  lemma SteppedByCount(c: Catalog, d: Catalog, cmd: Command)
    requires Continues(c, d) && Counted(c, d, cmd)
    ensures Stepped(c, d)
  {
  }

  /** Steps that create. */
  method Create(txn: Txn, c: Command) returns (err: Err, made: seq<nat>)
    requires Consistent(txn.db) && (c.CCreateNode? || c.CCreateEdge?)
    modifies txn
    ensures Refusal(old(txn.db), c, err)
    ensures err == Ok ==> RecordEffect(old(txn.db), txn.db, c, made) && !Clashing(old(txn.db), c, txn.db.cat)
    ensures err == Ok ==> (Consistent(txn.db) <==> Safe(old(txn.db), txn.db.cat, c))
    ensures err == Ok ==> made == NextIds(old(txn.db.cat), c) && Counted(old(txn.db.cat), txn.db.cat, c)
    ensures err == Ok && Consistent(txn.db) ==> Stepped(old(txn.db.cat), txn.db.cat)
    ensures err == Ok && Consistent(txn.db) && WidthsOk(old(txn.db)) ==> WidthsOk(txn.db)
  {
    hide Consistent, Translated, Clashes, Facts, AllEntries, Resolves, WidthsOk, Continues, Stepped, DictsOk, Extends,
      Barred, Spent, KeyCount;
    ghost var was := txn.db;
    var id;
    match c {
      case CCreateNode(ls, props) =>
        id, err := CreateNode(txn, ls, props);
        made := [id];
        if err == Violation {
          ghost var rec :| Built(txn.db.cat, ls, props, rec)
                           && Clashes(txn.db, AllEntries(rec.labels, rec.props, id), Facts(was.nodes));
          NodeClash(was, txn.db, ls, props, rec, id);
          BarredBy(was, c, txn.db.cat);
        }
        if err == Ok {
          NodeClash(was, txn.db, ls, props, txn.db.nodes[id], id);
        }
        if err == Ok && Safe(was, txn.db.cat, c) {
          GivenDicts(txn.db);
          LabelsFit(txn.db.cat, ls);
          WidthsNode(was, txn.db, id);
          SteppedByCount(was.cat, txn.db.cat, c);
        }
      case CCreateEdge(typ, src, dst, props) =>
        id, err := CreateEdge(txn, typ, src, dst, props);
        made := [id];
        if err == Ok && Safe(was, txn.db.cat, c) {
          GivenDicts(txn.db);
          ResolvedFits(txn.db.cat, Name(KType, typ));
          WidthsEdge(was, txn.db, id);
          SteppedByCount(was.cat, txn.db.cat, c);
        }
    }
  }

  /** Steps that delete. */
  method Delete(txn: Txn, c: Command) returns (err: Err)
    requires Consistent(txn.db) && (c.CDeleteEdge? || c.CDeleteNode? || c.CDetachDelete?)
    modifies txn
    ensures Refusal(old(txn.db), c, err)
    ensures err == Ok ==> RecordEffect(old(txn.db), txn.db, c, [])
    ensures err == Ok ==> Consistent(txn.db) && txn.db.cat == old(txn.db.cat)
    ensures err == Ok && WidthsOk(old(txn.db)) ==> WidthsOk(txn.db)
  {
    hide Consistent, Facts, RelFactsOf, LabelEntries, RelIndexed, WidthsOk;
    ghost var was := txn.db;
    match c {
      case CDeleteEdge(e) => err := DeleteEdge(txn, e);
      case CDeleteNode(n) => err := DeleteNode(txn, n);
      case CDetachDelete(n) => err := DetachDeleteNode(txn, n);
    }
    if err == Ok {
      WidthsFewer(was, txn.db);
    }
  }

  method InternPair(txn: Txn, kind: Kind, owner: Bytes, key: Bytes) returns (on: Pair, err: Err)
    requires Consistent(txn.db) && IsDict(kind) && kind != KKey
    modifies txn
    ensures err == Ok ==> Consistent(txn.db) && Grows(old(txn.db.cat), txn.db.cat)
    ensures err == Ok || err == OutOfIds
    ensures err == OutOfIds ==> Spent(old(txn.db.cat), kind, 1) || Spent(old(txn.db.cat), KKey, 1)
    ensures err == Ok ==> txn.db == old(txn.db).(cat := txn.db.cat) && PairFits(on)
    ensures err == Ok ==> Named(txn.db.cat, kind, owner, key, on)
  {
    hide Consistent, DictsOk, Grows, Agrees, Others, AtMostMore, Spent;
    ghost var was := txn.db;
    GivenConsistent(was);
    on := Pair(0, 0);
    var o, k;
    o, err := Intern(txn, Name(kind, owner));
    if err != Ok {
      UsedUp(was.cat, kind);
      return;
    }
    ResolvedFits(txn.db.cat, Name(kind, owner));
    ghost var half := txn.db.cat;
    k, err := Intern(txn, Name(KKey, key));
    if err != Ok {
      UsedUp(half, KKey);
      SpentBefore(was.cat, half, kind, 1, KKey, 1);
      return;
    }
    ResolvedFits(txn.db.cat, Name(KKey, key));
    GrowsTransitive(was.cat, half, txn.db.cat);
    GrowsKeeps(half, txn.db.cat, Name(kind, owner));
    InternedConsistent(was, txn.db);
    on := Pair(o, k);
  }

  /** Statements that build an index: names are interned first, and a registered pair is left alone. */
  method Define(txn: Txn, c: Command) returns (err: Err)
    requires Consistent(txn.db) && (c.CCreateIndex? || c.CCreateRelIndex?)
    modifies txn
    ensures Refusal(old(txn.db), c, err)
    ensures err == Ok ==> RegistryEffect(old(txn.db), txn.db, c)
    ensures err == Ok ==> Consistent(txn.db) && Stepped(old(txn.db.cat), txn.db.cat)
    ensures err == Ok && WidthsOk(old(txn.db)) ==> WidthsOk(txn.db)
  {
    hide Consistent, Grows, Stepped, WidthsOk, Spent, Named, RegistryEffect, Barred;
    ghost var was := txn.db;
    var on;
    match c {
      case CCreateIndex(l, k) => on, err := InternPair(txn, KLabel, l, k);
      case CCreateRelIndex(t, k) => on, err := InternPair(txn, KType, t, k);
    }
    if err != Ok {
      return;
    }
    ghost var before, mid := txn.db, txn.db.cat;
    if c.CCreateIndex? && on !in txn.db.cat.indexes {
      BuildIndex(txn, on);
    } else if c.CCreateRelIndex? && on !in txn.db.cat.relIndexes {
      BuildRelIndex(txn, on);
    }
    SteppedByRegistry(was.cat, mid, txn.db.cat);
    SameByGrows(was.cat, mid);
    WidthsRegistry(was, txn.db);
    GivenBacked(before);
    Registers(was, mid, txn.db, c, on);
  }

  /** The statement that makes a unique constraint; a constrained pair is left alone. */
  method Constrain(txn: Txn, c: Command) returns (err: Err)
    requires Consistent(txn.db) && c.CCreateConstraint?
    modifies txn
    ensures Refusal(old(txn.db), c, err)
    ensures err == Ok ==> RegistryEffect(old(txn.db), txn.db, c) && !Clashing(old(txn.db), c, txn.db.cat)
    ensures err == Ok ==> Consistent(txn.db) && Stepped(old(txn.db.cat), txn.db.cat)
    ensures err == Ok && WidthsOk(old(txn.db)) ==> WidthsOk(txn.db)
  {
    hide Consistent, Grows, Stepped, Clashes, Facts, WidthsOk, Spent, Named, RegistryEffect, Extends, Barred, Clashing,
      DictsOk;
    ghost var was := txn.db;
    var on;
    on, err := InternPair(txn, KLabel, c.lab, c.key);
    if err != Ok {
      return;
    }
    ghost var before, mid := txn.db, txn.db.cat;
    SameByGrows(was.cat, mid);
    if on !in txn.db.cat.constraints {
      err := AddUniqueConstraint(txn, on);
      Claims(was, mid, txn.db, c, on);
      if err != Ok {
        GivenDicts(before);
        ExtendsByGrows(was.cat, mid);
        BarredBy(was, c, mid);
        return;
      }
    } else {
      NoConstraintClash(was, txn.db.cat, c.lab, c.key, on);
    }
    SteppedByRegistry(was.cat, mid, txn.db.cat);
    WidthsRegistry(was, txn.db);
    GivenBacked(before);
    Registers(was, mid, txn.db, c, on);
  }

  lemma Claims(s: Store, mid: Catalog, t: Store, c: Command, on: Pair)
    requires c.CCreateConstraint? && Named(mid, KLabel, c.lab, c.key, on) && on !in s.cat.constraints
    requires t.nodes == s.nodes && t.cat.ids == mid.ids
    requires t.cat.constraints.Keys == s.cat.constraints.Keys + {on}
    ensures Clashes(t, Facts(t.nodes), Facts(t.nodes)) <==> Clashing(s, c, mid)
    ensures Clashing(s, c, mid) <==> Clashing(s, c, t.cat)
  {
    hide Clashes, Facts, Clashing, Named;
    ConstraintClash(s, mid, t, c.lab, c.key, on);
    ClashingSame(s, c, mid, t.cat);
  }

  lemma Registers(s: Store, mid: Catalog, t: Store, c: Command, on: Pair)
    requires c.CCreateIndex? || c.CCreateConstraint? || c.CCreateRelIndex?
    requires SameRegistry(s.cat, mid) && SameRecords(s, t) && t.cat.ids == mid.ids
    requires if c.CCreateRelIndex? then Named(mid, KType, c.typ, c.key, on) else Named(mid, KLabel, c.lab, c.key, on)
    requires forall p :: p in mid.constraints ==> p in mid.indexes
    requires c.CCreateIndex? ==>
               && t.cat.indexes == mid.indexes + {on}
               && t.cat.constraints == mid.constraints && t.cat.relIndexes == mid.relIndexes
    requires c.CCreateRelIndex? ==>
               && t.cat.relIndexes == mid.relIndexes + {on}
               && t.cat.indexes == mid.indexes && t.cat.constraints == mid.constraints
    requires c.CCreateConstraint? ==>
               && t.cat.relIndexes == mid.relIndexes && t.cat.indexes == mid.indexes + {on}
               && t.cat.constraints == if on in mid.constraints then mid.constraints
                                       else mid.constraints[on := on !in mid.indexes]
    ensures RegistryEffect(s, t, c)
  {
    assert Registered(s, t, c, on);
  }

  lemma GivenBacked(s: Store)
    requires Consistent(s)
    ensures forall on :: on in s.cat.constraints ==> on in s.cat.indexes
  {
  }

  /** Statements that drop one; an index that backs a constraint is refused. */
  method Undefine(txn: Txn, c: Command) returns (err: Err)
    requires Consistent(txn.db) && (c.CDropIndex? || c.CDropConstraint? || c.CDropRelIndex?)
    modifies txn
    ensures Refusal(old(txn.db), c, err)
    ensures err == Ok ==> RegistryEffect(old(txn.db), txn.db, c)
    ensures err == Ok ==> Consistent(txn.db) && Stepped(old(txn.db.cat), txn.db.cat)
    ensures err == Ok && WidthsOk(old(txn.db)) ==> WidthsOk(txn.db)
  {
    hide Consistent, Grows, Stepped, WidthsOk;
    ghost var was := txn.db;
    GrowsReflexive(was.cat);
    if c.CDropIndex? && c.on in txn.db.cat.constraints {
      return Violation;
    }
    match c {
      case CDropIndex(on) => DropIndexEntries(txn, on);
      case CDropConstraint(on) => DropUniqueConstraint(txn, on);
      case CDropRelIndex(on) => DropRelIndexEntries(txn, on);
    }
    SteppedByRegistry(was.cat, was.cat, txn.db.cat);
    WidthsRegistry(was, txn.db);
    return Ok;
  }

  /**
   * One transaction: an error leaves the store as it was; a step that
   * commits has its effect, and keeps the invariant exactly when it is safe.
   */
  method Execute(txn: Txn, c: Command) returns (err: Err, made: seq<nat>)
    requires Consistent(txn.db)
    modifies txn
    ensures Refusal(old(txn.db), c, err)
    ensures err != Ok ==> txn.db == old(txn.db) && made == []
    ensures err == Ok ==> Effect(old(txn.db), txn.db, c, made) && !Clashing(old(txn.db), c, txn.db.cat)
    ensures err == Ok ==> (Consistent(txn.db) <==> Safe(old(txn.db), txn.db.cat, c))
    ensures err == Ok ==> made == NextIds(old(txn.db.cat), c)
    ensures made != [] ==> Counted(old(txn.db.cat), txn.db.cat, c)
    ensures Consistent(txn.db) ==> Stepped(old(txn.db.cat), txn.db.cat)
    ensures Consistent(txn.db) && WidthsOk(old(txn.db)) ==> WidthsOk(txn.db)
  {
    hide Consistent, Grows, Stepped, WidthsOk, Counted, IndexedOn, Refusal, NodeEffect, RecordEffect, RegistryEffect,
      Clashing;
    GrowsReflexive(txn.db.cat);
    SteppedByGrows(txn.db.cat, txn.db.cat);
    var saved := txn.db;
    made := [];
    if c.CSetProperty? || c.CRemoveProperty? || c.CSetProperties? {
      err := ChangeProps(txn, c);
      if err == Ok {
        SteppedByGrows(saved.cat, txn.db.cat);
      }
    } else if c.CAddLabels? || c.CRemoveLabels? {
      err := ChangeLabels(txn, c);
      if err == Ok {
        SteppedByGrows(saved.cat, txn.db.cat);
      }
    } else if c.CCreateNode? || c.CCreateEdge? {
      err, made := Create(txn, c);
    } else if c.CDeleteEdge? || c.CDeleteNode? || c.CDetachDelete? {
      err := Delete(txn, c);
    } else if c.CCreateIndex? || c.CCreateRelIndex? {
      err := Define(txn, c);
    } else if c.CCreateConstraint? {
      err := Constrain(txn, c);
    } else {
      err := Undefine(txn, c);
    }
    if !c.CSetProperty? && !c.CSetProperties? && !c.CAddLabels? && !c.CCreateNode? && !c.CCreateConstraint? {
      NeverClashing(saved, c, txn.db.cat);
    }
    if err != Ok {
      txn.db := saved;
      made := [];
    }
  }

  lemma ContinuesTransitive(a: Catalog, b: Catalog, c: Catalog)
    requires Continues(a, b) && Continues(b, c)
    ensures Continues(a, c)
  {
  }

  /** The command was refused, or had its effect. */
  ghost predicate Did(s: Store, t: Store, c: Command)
  {
    t == s || exists made :: Effect(s, t, c, made)
  }

  /** ids were handed out in ascending order, after the start's counter and up to the present one. */
  ghost predicate HandedOut(start: Catalog, now: Catalog, k: Kind, ids: seq<nat>)
  {
    StrictlyAscending(ids) && forall id :: id in ids ==> start.Counter(k) < id <= now.Counter(k)
  }

  lemma HandOutMore(start: Catalog, before: Catalog, now: Catalog, k: Kind, ids: seq<nat>, more: seq<nat>)
    requires HandedOut(start, before, k, ids) && Continues(start, before) && Continues(before, now)
    requires more == [] || (more == [before.Counter(k) + 1] && now.Counter(k) == before.Counter(k) + 1)
    ensures HandedOut(start, now, k, ids + more)
  {
    ContinuesCounter(start, before, k);
    ContinuesCounter(before, now, k);
    if more == [] {
      assert ids + more == ids;
    } else {
      AscendingAppend(ids, more[0]);
    }
  }

  /**
   * Any sequence of steps from a consistent store goes through consistent
   * stores, each the last one or what a command made of it; names keep their
   * ids, no node or edge id is handed out twice, and the keys of the store
   * stay encodable.
   */
  method Run(txn: Txn, cmds: seq<Command>) returns (nodes: seq<nat>, edges: seq<nat>, ghost stores: seq<Store>)
    requires Consistent(txn.db) && forall c :: c in cmds ==> SetsNoNull(c)
    requires txn.db.cat.Counter(KNode) + |cmds| <= MAX_U64 && txn.db.cat.Counter(KEdge) + |cmds| <= MAX_U64
    modifies txn
    ensures |stores| == |cmds| + 1 && stores[0] == old(txn.db) && stores[|cmds|] == txn.db
    ensures forall i :: 0 <= i <= |cmds| ==> Consistent(stores[i])
    ensures forall i :: 0 <= i < |cmds| ==> Did(stores[i], stores[i+1], cmds[i])
    ensures Consistent(txn.db) && Continues(old(txn.db.cat), txn.db.cat)
    ensures HandedOut(old(txn.db.cat), txn.db.cat, KNode, nodes)
    ensures HandedOut(old(txn.db.cat), txn.db.cat, KEdge, edges)
    ensures IndexAccess.Encodable(old(txn.db)) ==> IndexAccess.Encodable(txn.db)
  {
    hide Consistent, Continues, HandedOut, WidthsOk, IndexAccess.Encodable, IndexedOn, Effect, Refusal;
    IndexAccess.EncodableExact(txn.db);
    nodes, edges, stores := [], [], [txn.db];
    ghost var start := txn.db.cat;
    ContinuesReflexive(start);
    NothingHandedOut(start);
    for i := 0 to |cmds|
      invariant |stores| == i + 1 && stores[0] == old(txn.db) && stores[i] == txn.db
      invariant forall j :: 0 <= j <= i ==> Consistent(stores[j])
      invariant forall j :: 0 <= j < i ==> Did(stores[j], stores[j+1], cmds[j])
      invariant Consistent(txn.db) && Continues(start, txn.db.cat)
      invariant txn.db.cat.Counter(KNode) <= start.Counter(KNode) + i
      invariant txn.db.cat.Counter(KEdge) <= start.Counter(KEdge) + i
      invariant HandedOut(start, txn.db.cat, KNode, nodes) && HandedOut(start, txn.db.cat, KEdge, edges)
      invariant WidthsOk(old(txn.db)) ==> WidthsOk(txn.db)
    {
      ghost var before, was := txn.db.cat, txn.db;
      assert cmds[i] in cmds;
      var err, made := Execute(txn, cmds[i]);
      assert Did(was, txn.db, cmds[i]);
      ContinuesTransitive(start, before, txn.db.cat);
      var newNodes := if cmds[i].CCreateNode? then made else [];
      var newEdges := if cmds[i].CCreateEdge? then made else [];
      HandOutMore(start, before, txn.db.cat, KNode, nodes, newNodes);
      HandOutMore(start, before, txn.db.cat, KEdge, edges, newEdges);
      nodes, edges, stores := nodes + newNodes, edges + newEdges, stores + [txn.db];
    }
    IndexAccess.EncodableExact(txn.db);
  }

  lemma EmptyEncodable()
    ensures Consistent(EMPTY) && IndexAccess.Encodable(EMPTY)
  {
    EmptyConsistent();
    IndexAccess.EncodableExact(EMPTY);
  }

  lemma NothingHandedOut(c: Catalog)
    ensures forall k :: HandedOut(c, c, k, [])
  {
  }

  lemma ContinuesReflexive(c: Catalog)
    ensures Continues(c, c)
  {
  }

  lemma ContinuesCounter(c: Catalog, d: Catalog, k: Kind)
    requires Continues(c, d)
    ensures c.Counter(k) <= d.Counter(k)
  {
  }

  /** In a consistent store a constrained pair has a backing index and no two nodes hold one canonical value. */
  lemma OneHolder(s: Store, p: PropEntry, q: PropEntry)
    requires Consistent(s) && HasFact(s.nodes, p) && HasFact(s.nodes, q)
    requires p.on == q.on && p.on in s.cat.constraints && p.node != q.node
    requires IsIndexable(p.value) && IsIndexable(q.value) && UniqueValue(p.value).Some?
    ensures p.on in s.cat.indexes && UniqueValue(p.value) != UniqueValue(q.value)
  {
    NoClash(s, Facts(s.nodes), p, q);
  }

  /** p and q are facts of two nodes under one constrained pair of a consistent store. */
  ghost predicate BothHeld(s: Store, p: PropEntry, q: PropEntry)
  {
    && Consistent(s) && HasFact(s.nodes, p) && HasFact(s.nodes, q)
    && p.on == q.on && p.on in s.cat.constraints && p.node != q.node
  }

  /** No two nodes hold equal values under a unique constraint, unless an integer among them converts inexactly. */
  lemma UniqueHolds(s: Store, p: PropEntry, q: PropEntry)
    requires BothHeld(s, p, q) && MixedExactly(p.value, q.value)
    ensures !QueryEqual(p.value, q.value)
  {
    if QueryEqual(p.value, q.value) {
      NoNulls(s, p.node);
      NoNulls(s, q.node);
      SharedKeyExact(p.value, q.value);
      NoClash(s, Facts(s.nodes), p, q);
    }
  }

  /** In particular within 2^53, where every integer converts exactly. */
  lemma UniqueWithinRange(s: Store, p: PropEntry, q: PropEntry)
    requires BothHeld(s, p, q) && (InExactRange(p.value) || InExactRange(q.value))
    ensures !QueryEqual(p.value, q.value)
  {
    if QueryEqual(p.value, q.value) {
      NoNulls(s, p.node);
      NoNulls(s, q.node);
      SharedKeyIsEquality(p.value, q.value);
      NoClash(s, Facts(s.nodes), p, q);
    }
  }

  /** Two nodes with one label, one property each, and a constraint on the pair. */
  ghost function TwoNodes(v: Value, w: Value): Store
    requires UniqueValue(v).Some? && UniqueValue(w).Some?
  {
    var on := Pair(1, 1);
    Store(map[1 := NodeRec([1], map[1 := v]), 2 := NodeRec([1], map[1 := w])], map[], {}, {},
          {LabelEntry(1, 1), LabelEntry(1, 2)}, {PropEntry(on, v, 1), PropEntry(on, w, 2)},
          map[Claim(on, UniqueValue(v).value) := 1, Claim(on, UniqueValue(w).value) := 2], {},
          Catalog(map[Name(KLabel, []) := 1, Name(KKey, []) := 1], map[Id(KLabel, 1) := [], Id(KKey, 1) := []],
                  map[KLabel := 1, KKey := 1, KNode := 2], {on}, map[on := true], {}))
  }

  lemma TwoNodesOthers(v: Value, w: Value)
    requires UniqueValue(v).Some? && UniqueValue(w).Some? && v != Null && w != Null
    ensures Others(TwoNodes(v, w))
  {
    var s := TwoNodes(v, w);
    TwoRecords(s, v, w);
    hide UniqueValue, RecordsOk, LabelsAgree, DictsOk;
    assert EdgesAgree(s) && RelsAgree(s);
    TwoNames(s.cat);
  }

  lemma TwoRecords(s: Store, v: Value, w: Value)
    requires v != Null && w != Null && s.edges == map[]
    requires s.nodes == map[1 := NodeRec([1], map[1 := v]), 2 := NodeRec([1], map[1 := w])]
    requires s.labels == {LabelEntry(1, 1), LabelEntry(1, 2)} && s.cat.Counter(KNode) == 2
    ensures RecordsOk(s) && LabelsAgree(s)
  {
    assert RecordsOk(s);
  }

  lemma TwoNames(c: Catalog)
    requires c.ids == map[Name(KLabel, []) := 1, Name(KKey, []) := 1]
    requires c.names == map[Id(KLabel, 1) := [], Id(KKey, 1) := []]
    requires c.counters == map[KLabel := 1, KKey := 1, KNode := 2]
    ensures DictsOk(c)
  {
    assert NamesKnown(c) && IdsKnown(c);
    hide NamesKnown, IdsKnown;
  }

  lemma TwoNodesAgree(v: Value, w: Value)
    requires IsIndexable(v) && IsIndexable(w) && UniqueValue(v).Some? && UniqueValue(w).Some?
    requires UniqueValue(v) != UniqueValue(w)
    ensures var s := TwoNodes(v, w); Agrees(s, Facts(s.nodes))
  {
    hide UniqueValue, IsIndexable;
    var s, on := TwoNodes(v, w), Pair(1, 1);
    var p, q := PropEntry(on, v, 1), PropEntry(on, w, 2);
    forall x ensures x in Facts(s.nodes) <==> x == p || x == q {
      assert x in Facts(s.nodes) <==> HasFact(s.nodes, x);
    }
    hide Facts;
    assert ClaimedBy(s, p, Claim(on, UniqueValue(v).value)) && ClaimedBy(s, q, Claim(on, UniqueValue(w).value));
  }

  /**
   * Of two values a query considers equal, some consistent store holds both
   * under a constraint exactly when they are an integer and a float of which
   * the integer converts inexactly.
   */
  lemma UniqueExact(v: Value, w: Value)
    requires QueryEqual(v, w)
    ensures (exists s, p, q :: BothHeld(s, p, q) && p.value == v && q.value == w) <==> !MixedExactly(v, w)
  {
    if s, p, q :| BothHeld(s, p, q) && p.value == v && q.value == w && MixedExactly(v, w) {
      UniqueHolds(s, p, q);
    }
    if !MixedExactly(v, w) {
      SharedKeyExact(v, w);
      TwoNodesOthers(v, w);
      TwoNodesAgree(v, w);
      var on := Pair(1, 1);
      assert BothHeld(TwoNodes(v, w), PropEntry(on, v, 1), PropEntry(on, w, 2));
    }
  }
}
