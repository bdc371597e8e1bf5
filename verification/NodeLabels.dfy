/** Operations that add or take away several labels or properties of a node at once. */
module NodeLabels {
  import opened Seqs
  import opened Values
  import opened GraphStore
  import opened GraphTxn
  import opened NodeCrud

  // ----- Interning several names -----

  ghost predicate Resolves(c: Catalog, names: seq<Bytes>, l: nat)
  {
    exists name :: name in names && Name(KLabel, name) in c.ids && c.ids[Name(KLabel, name)] == l
  }

  ghost predicate LabelsKnown(c: Catalog, names: seq<Bytes>)
  {
    forall name :: name in names ==> Name(KLabel, name) in c.ids
  }

  lemma GrowsTransitive(a: Catalog, b: Catalog, c: Catalog)
    requires Grows(a, b) && Grows(b, c)
    ensures Grows(a, c)
  {
  }

  lemma GrowsReflexive(c: Catalog)
    ensures Grows(c, c)
  {
  }

  lemma ResolvesMore(c: Catalog, d: Catalog, names: seq<Bytes>, name: Bytes, l: nat)
    requires Grows(c, d) && LabelsKnown(c, names) && Name(KLabel, name) in d.ids
    ensures Resolves(d, names + [name], l) <==> Resolves(c, names, l) || d.ids[Name(KLabel, name)] == l
  {
    if Resolves(c, names, l) {
      var m :| m in names && Name(KLabel, m) in c.ids && c.ids[Name(KLabel, m)] == l;
      assert m in names + [name];
    }
    if d.ids[Name(KLabel, name)] == l {
      assert name in names + [name];
    }
  }

  /** added are the ids of the names that are not in existing, each once. */
  ghost predicate Fresh(c: Catalog, names: seq<Bytes>, existing: seq<nat>, added: seq<nat>)
  {
    && LabelsKnown(c, names) && NoDups(existing + added)
    && forall l :: l in added <==> l !in existing && Resolves(c, names, l)
  }

  lemma FreshNone(c: Catalog, existing: seq<nat>)
    requires NoDups(existing)
    ensures Fresh(c, [], existing, [])
  {
    assert existing + [] == existing;
  }

  lemma FreshMore(c: Catalog, d: Catalog, names: seq<Bytes>, name: Bytes, existing: seq<nat>, added: seq<nat>)
    requires Grows(c, d) && Fresh(c, names, existing, added) && Name(KLabel, name) in d.ids
    ensures var id := d.ids[Name(KLabel, name)];
            Fresh(d, names + [name], existing, if id in existing || id in added then added else added + [id])
  {
    var id := d.ids[Name(KLabel, name)];
    forall l ensures Resolves(d, names + [name], l) <==> Resolves(c, names, l) || id == l {
      ResolvesMore(c, d, names, name, l);
    }
    assert LabelsKnown(d, names + [name]);
    hide Resolves, Grows;
    if id !in existing && id !in added {
      assert existing + (added + [id]) == existing + added + [id];
      NoDupsAppend(existing + added, id);
    }
  }

  /** The ids of the names that are not there yet, each once. */
  method InternLabels(txn: Txn, names: seq<Bytes>, existing: seq<nat>) returns (added: seq<nat>, err: Err)
    requires DictsOk(txn.db.cat) && NoDups(existing)
    modifies txn
    ensures txn.db == old(txn.db).(cat := txn.db.cat)
    ensures err == Ok || err == OutOfIds
    ensures err == Ok ==> DictsOk(txn.db.cat) && Grows(old(txn.db.cat), txn.db.cat)
    ensures err == Ok ==> Fresh(txn.db.cat, names, existing, added)
    ensures err == Ok ==> AtMostMore(old(txn.db.cat), txn.db.cat, KLabel, |names|)
    ensures err == OutOfIds ==> Spent(old(txn.db.cat), KLabel, |names|)
  {
    hide Grows, DictsOk, Fresh, NoDups;
    added := [];
    GrowsReflexive(txn.db.cat);
    FreshNone(txn.db.cat, existing);
    for i := 0 to |names|
      invariant txn.db == old(txn.db).(cat := txn.db.cat)
      invariant DictsOk(txn.db.cat) && Grows(old(txn.db.cat), txn.db.cat)
      invariant Fresh(txn.db.cat, names[..i], existing, added)
      invariant AtMostMore(old(txn.db.cat), txn.db.cat, KLabel, i)
    {
      ghost var before := txn.db.cat;
      var id;
      id, err := Intern(txn, Name(KLabel, names[i]));
      if err != Ok {
        return;
      }
      GrowsTransitive(old(txn.db.cat), before, txn.db.cat);
      FreshMore(before, txn.db.cat, names[..i], names[i], existing, added);
      assert names[..i+1] == names[..i] + [names[i]];
      if id !in existing && id !in added {
        added := added + [id];
      }
    }
    assert names[..|names|] == names;
    return added, Ok;
  }

  function KeyCount(props: map<Bytes, Value>): nat
  {
    |props.Keys|
  }

  /** Interning names of one kind leaves the ids of another. */
  lemma SpentBefore(c: Catalog, d: Catalog, k: Kind, used: nat, j: Kind, more: nat)
    requires AtMostMore(c, d, k, used) && j != k && Spent(d, j, more)
    ensures Spent(c, j, more)
  {
  }

  /** So many keys are not left in rest. */
  ghost predicate Walked(props: map<Bytes, Value>, rest: set<Bytes>, tried: nat)
  {
    tried + |rest| == KeyCount(props)
  }

  lemma WalkedNone(props: map<Bytes, Value>)
    ensures Walked(props, props.Keys, 0)
  {
  }

  lemma WalkedMore(props: map<Bytes, Value>, rest: set<Bytes>, tried: nat, key: Bytes)
    requires Walked(props, rest, tried) && key in rest
    ensures Walked(props, rest - {key}, tried + 1) && tried < KeyCount(props)
  {
  }

  lemma WalkedAll(props: map<Bytes, Value>, tried: nat)
    requires Walked(props, {}, tried)
    ensures tried == KeyCount(props)
  {
  }

  /** The catalog after at most so many names of the kind were interned. */
  ghost predicate Reached(c: Catalog, d: Catalog, k: Kind, used: nat)
  {
    DictsOk(d) && Grows(c, d) && AtMostMore(c, d, k, used)
  }

  lemma ReachedNone(c: Catalog, k: Kind)
    requires DictsOk(c)
    ensures Reached(c, c, k, 0)
  {
    hide DictsOk;
  }

  lemma ReachedSkip(c: Catalog, d: Catalog, k: Kind, used: nat)
    requires Reached(c, d, k, used)
    ensures Reached(c, d, k, used + 1)
  {
    hide DictsOk, Grows;
  }

  lemma GivenReached(c: Catalog, d: Catalog, k: Kind, used: nat)
    requires Reached(c, d, k, used)
    ensures DictsOk(d) && Grows(c, d) && AtMostMore(c, d, k, used)
  {
  }

  /** Interns one more name; it fails only when the names so far have used up the ids. */
  method InternMore(txn: Txn, n: Name, ghost start: Catalog, ghost used: nat) returns (id: nat, err: Err)
    requires IsDict(n.kind) && Reached(start, txn.db.cat, n.kind, used)
    modifies txn
    ensures txn.db == old(txn.db).(cat := txn.db.cat)
    ensures err == Ok || err == OutOfIds
    ensures err == Ok ==> Reached(start, txn.db.cat, n.kind, used + 1) && n in txn.db.cat.ids && txn.db.cat.ids[n] == id
    ensures err == Ok ==> Grows(old(txn.db.cat), txn.db.cat) && DictsOk(txn.db.cat)
    ensures err == OutOfIds ==> start.Counter(n.kind) + used >= MAX_U32
  {
    hide Grows, DictsOk;
    ghost var before := txn.db.cat;
    id, err := Intern(txn, n);
    if err == Ok {
      GrowsTransitive(start, before, txn.db.cat);
    }
  }

  /** out holds, under the ids of the keys, the given values; null ones only if asked for. */
  ghost predicate Translated(c: Catalog, props: map<Bytes, Value>, keys: set<Bytes>, nulls: bool, out: Props)
  {
    && (forall key :: key in keys && key in props && (nulls || props[key] != Null) ==>
                        && Name(KKey, key) in c.ids && c.ids[Name(KKey, key)] in out
                        && out[c.ids[Name(KKey, key)]] == props[key])
    && (forall k :: k in out ==>
                      exists key :: key in keys && key in props && (nulls || props[key] != Null)
                                    && Name(KKey, key) in c.ids && c.ids[Name(KKey, key)] == k)
  }

  lemma TranslatedMore(c: Catalog, d: Catalog, props: map<Bytes, Value>, keys: set<Bytes>, nulls: bool, out: Props,
                       key: Bytes)
    requires Grows(c, d) && DictsOk(d) && Translated(c, props, keys, nulls, out)
    requires key in props && key !in keys && (nulls || props[key] != Null) && Name(KKey, key) in d.ids
    ensures Translated(d, props, keys + {key}, nulls, out[d.ids[Name(KKey, key)] := props[key]])
  {
    var id := d.ids[Name(KKey, key)];
    var more := out[id := props[key]];
    forall x | x in keys + {key} && x in props && (nulls || props[x] != Null)
      ensures Name(KKey, x) in d.ids && d.ids[Name(KKey, x)] in more && more[d.ids[Name(KKey, x)]] == props[x]
    {
      if x != key && d.ids[Name(KKey, x)] == id {
        IdsDistinct(d, Name(KKey, x), Name(KKey, key));
      }
    }
    forall k | k in more
      ensures exists x :: x in keys + {key} && x in props && (nulls || props[x] != Null)
                          && Name(KKey, x) in d.ids && d.ids[Name(KKey, x)] == k
    {
      if k != id {
        var x :| x in keys && x in props && (nulls || props[x] != Null)
                 && Name(KKey, x) in c.ids && c.ids[Name(KKey, x)] == k;
        assert x in keys + {key};
      }
    }
  }

  lemma TranslatedSkip(c: Catalog, props: map<Bytes, Value>, keys: set<Bytes>, out: Props, key: Bytes)
    requires Translated(c, props, keys, false, out) && key in props && props[key] == Null
    ensures Translated(c, props, keys + {key}, false, out)
  {
    forall k | k in out
      ensures exists x :: x in keys + {key} && x in props && props[x] != Null
                          && Name(KKey, x) in c.ids && c.ids[Name(KKey, x)] == k
    {
      var x :| x in keys && x in props && props[x] != Null && Name(KKey, x) in c.ids && c.ids[Name(KKey, x)] == k;
      assert x in keys + {key};
    }
  }

  /** out holds what the keys that are not in rest give. */
  ghost predicate Rendered(c: Catalog, props: map<Bytes, Value>, rest: set<Bytes>, nulls: bool, out: Props)
  {
    Translated(c, props, props.Keys - rest, nulls, out)
  }

  lemma RenderedNone(c: Catalog, props: map<Bytes, Value>, nulls: bool)
    ensures Rendered(c, props, props.Keys, nulls, map[])
  {
  }

  lemma RenderedAll(c: Catalog, props: map<Bytes, Value>, nulls: bool, out: Props)
    requires Rendered(c, props, {}, nulls, out)
    ensures Translated(c, props, props.Keys, nulls, out)
  {
    assert props.Keys - {} == props.Keys;
    hide Translated;
  }

  lemma RenderedMore(c: Catalog, d: Catalog, props: map<Bytes, Value>, rest: set<Bytes>, nulls: bool, out: Props,
                     key: Bytes)
    requires Grows(c, d) && DictsOk(d) && Rendered(c, props, rest, nulls, out)
    requires key in props && key in rest && (nulls || props[key] != Null) && Name(KKey, key) in d.ids
    ensures Rendered(d, props, rest - {key}, nulls, out[d.ids[Name(KKey, key)] := props[key]])
  {
    hide Grows, DictsOk, Translated;
    TranslatedMore(c, d, props, props.Keys - rest, nulls, out, key);
    assert props.Keys - (rest - {key}) == props.Keys - rest + {key};
  }

  lemma RenderedSkip(c: Catalog, props: map<Bytes, Value>, rest: set<Bytes>, out: Props, key: Bytes)
    requires Rendered(c, props, rest, false, out) && key in props && key in rest && props[key] == Null
    ensures Rendered(c, props, rest - {key}, false, out)
  {
    hide Translated;
    TranslatedSkip(c, props, props.Keys - rest, out, key);
    assert props.Keys - (rest - {key}) == props.Keys - rest + {key};
  }

  /** The properties under the ids of their keys, in whatever order the map is walked. */
  method InternProps(txn: Txn, props: map<Bytes, Value>, nulls: bool) returns (out: Props, err: Err)
    requires DictsOk(txn.db.cat)
    modifies txn
    ensures txn.db == old(txn.db).(cat := txn.db.cat)
    ensures err == Ok || err == OutOfIds
    ensures err == Ok ==> DictsOk(txn.db.cat) && Grows(old(txn.db.cat), txn.db.cat)
    ensures err == Ok ==> Translated(txn.db.cat, props, props.Keys, nulls, out)
    ensures err == Ok ==> AtMostMore(old(txn.db.cat), txn.db.cat, KKey, KeyCount(props))
    ensures err == OutOfIds ==> Spent(old(txn.db.cat), KKey, KeyCount(props))
  {
    hide Grows, DictsOk, Translated, Reached, Catalog.Counter, Walked, KeyCount, Rendered, AtMostMore;
    out := map[];
    var rest := props.Keys;
    ghost var start, tried: nat := txn.db.cat, 0;
    ReachedNone(start, KKey);
    WalkedNone(props);
    RenderedNone(start, props, nulls);
    while rest != {}
      invariant rest <= props.Keys && Walked(props, rest, tried)
      invariant txn.db == old(txn.db).(cat := txn.db.cat)
      invariant Reached(start, txn.db.cat, KKey, tried)
      invariant Rendered(txn.db.cat, props, rest, nulls, out)
      decreases rest
    {
      var key :| key in rest;
      WalkedMore(props, rest, tried, key);
      if !nulls && props[key] == Null {
        RenderedSkip(txn.db.cat, props, rest, out, key);
        ReachedSkip(start, txn.db.cat, KKey, tried);
      } else {
        ghost var before := txn.db.cat;
        var id;
        id, err := InternMore(txn, Name(KKey, key), start, tried);
        if err != Ok {
          return;
        }
        RenderedMore(before, txn.db.cat, props, rest, nulls, out, key);
        out := out[id := props[key]];
      }
      rest, tried := rest - {key}, tried + 1;
    }
    WalkedAll(props, tried);
    RenderedAll(txn.db.cat, props, nulls, out);
    GivenReached(start, txn.db.cat, KKey, tried);
    return out, Ok;
  }

  // ----- Entries of several labels -----

  ghost function AllEntries(ls: seq<nat>, props: Props, n: nat): set<PropEntry>
  {
    set l, k | l in ls && k in props :: PropEntry(Pair(l, k), props[k], n)
  }

  ghost function LabelEntries(ls: seq<nat>, n: nat): set<LabelEntry>
  {
    set l | l in ls :: LabelEntry(l, n)
  }

  lemma EntriesStep(ls: seq<nat>, i: nat, props: Props, n: nat)
    requires i < |ls|
    ensures AllEntries(ls[..i+1], props, n) == AllEntries(ls[..i], props, n) + EntriesAt(ls[i], props, n)
    ensures LabelEntries(ls[..i+1], n) == LabelEntries(ls[..i], n) + {LabelEntry(ls[i], n)}
    ensures EntriesAt(ls[i], props, n) <= AllEntries(ls, props, n)
  {
    assert ls[..i+1] == ls[..i] + [ls[i]];
    forall p ensures p in AllEntries(ls[..i+1], props, n) <==>
                     p in AllEntries(ls[..i], props, n) + EntriesAt(ls[i], props, n) {
    }
  }

  lemma NoEntries(props: Props, n: nat)
    ensures AllEntries([], props, n) == {} && LabelEntries([], n) == {}
  {
  }

  lemma ClashesWider(s: Store, t: Store, small: set<PropEntry>, big: set<PropEntry>, facts: set<PropEntry>,
                     more: set<PropEntry>)
    requires Clashes(s, small, facts + more) && small <= big && t.cat == s.cat
    requires forall p, q :: p in small && q in more ==> p.node == q.node
    ensures Clashes(t, big, facts)
  {
    var p, q :| p in small && q in facts + more && Clash(s, p, q);
    assert p in big && q in facts && Clash(t, p, q);
  }

  lemma EntriesNode(ls: seq<nat>, l: nat, props: Props, n: nat)
    ensures forall p, q :: p in EntriesAt(l, props, n) && q in AllEntries(ls, props, n) ==> p.node == q.node
  {
  }

  ghost predicate OnlyLabels(s: Store, t: Store)
  {
    t == s.(labels := t.labels, props := t.props, owners := t.owners)
  }

  /** Puts the label entry and the property entries of each label. */
  method PutLabels(txn: Txn, n: nat, ls: seq<nat>, props: Props, ghost facts: set<PropEntry>) returns (err: Err)
    requires Agrees(txn.db, facts)
    modifies txn
    ensures OnlyLabels(old(txn.db), txn.db)
    ensures err == Ok || err == Violation
    ensures err == Ok ==> txn.db.labels == old(txn.db.labels) + LabelEntries(ls, n)
    ensures err == Ok ==> Agrees(txn.db, facts + AllEntries(ls, props, n))
    ensures err == Violation ==> Clashes(old(txn.db), AllEntries(ls, props, n), facts)
  {
    hide Agrees, Clashes, AllEntries, LabelEntries, EntriesAt;
    NoEntries(props, n);
    assert facts + {} == facts;
    for i := 0 to |ls|
      invariant OnlyLabels(old(txn.db), txn.db)
      invariant txn.db.labels == old(txn.db.labels) + LabelEntries(ls[..i], n)
      invariant Agrees(txn.db, facts + AllEntries(ls[..i], props, n))
    {
      EntriesStep(ls, i, props, n);
      ghost var now, before := facts + AllEntries(ls[..i], props, n), txn.db;
      txn.db := txn.db.(labels := txn.db.labels + {LabelEntry(ls[i], n)});
      AgreesElsewhere(before, txn.db, now);
      ghost var mid := txn.db;
      err := PutPropsAt(txn, ls[i], props, n, now);
      if err != Ok {
        EntriesNode(ls[..i], ls[i], props, n);
        ClashesWider(mid, old(txn.db), EntriesAt(ls[i], props, n), AllEntries(ls, props, n),
                     facts, AllEntries(ls[..i], props, n));
        return;
      }
      assert now + EntriesAt(ls[i], props, n) == facts + AllEntries(ls[..i+1], props, n);
      assert txn.db.labels == old(txn.db.labels) + LabelEntries(ls[..i+1], n);
    }
    assert ls[..|ls|] == ls;
    return Ok;
  }

  lemma AloneLess(facts: set<PropEntry>, gone: set<PropEntry>, part: set<PropEntry>, done: set<PropEntry>)
    requires Alone(facts, gone) && part <= gone
    ensures Alone(facts - done, part)
  {
  }

  /** Deletes the label entry and the property entries of each label. */
  method DelLabels(txn: Txn, n: nat, ls: seq<nat>, props: Props, ghost facts: set<PropEntry>)
    requires Agrees(txn.db, facts) && Alone(facts, AllEntries(ls, props, n))
    modifies txn
    ensures OnlyLabels(old(txn.db), txn.db)
    ensures txn.db.labels == old(txn.db.labels) - LabelEntries(ls, n)
    ensures Agrees(txn.db, facts - AllEntries(ls, props, n))
  {
    hide Agrees, Alone, AllEntries, LabelEntries, EntriesAt;
    NoEntries(props, n);
    assert facts - {} == facts && txn.db.labels - {} == txn.db.labels;
    for i := 0 to |ls|
      invariant OnlyLabels(old(txn.db), txn.db)
      invariant txn.db.labels == old(txn.db.labels) - LabelEntries(ls[..i], n)
      invariant Agrees(txn.db, facts - AllEntries(ls[..i], props, n))
    {
      EntriesStep(ls, i, props, n);
      ghost var now, before := facts - AllEntries(ls[..i], props, n), txn.db;
      txn.db := txn.db.(labels := txn.db.labels - {LabelEntry(ls[i], n)});
      AgreesElsewhere(before, txn.db, now);
      AloneLess(facts, AllEntries(ls, props, n), EntriesAt(ls[i], props, n), AllEntries(ls[..i], props, n));
      DelPropsAt(txn, ls[i], props, n, now);
      assert now - EntriesAt(ls[i], props, n) == facts - AllEntries(ls[..i+1], props, n);
      assert txn.db.labels == old(txn.db.labels) - LabelEntries(ls[..i+1], n);
    }
    assert ls[..|ls|] == ls;
  }

  // ----- CreateNode -----

  lemma FactsOfNew(nodes: map<nat, NodeRec>, n: nat, rec: NodeRec)
    requires n !in nodes
    ensures Facts(nodes[n := Stored(rec)]) == Facts(nodes) + AllEntries(rec.labels, rec.props, n)
  {
    SortNatsMembers(rec.labels);
    var after := nodes[n := Stored(rec)];
    forall p ensures p in Facts(after) <==> p in Facts(nodes) + AllEntries(rec.labels, rec.props, n) {
      assert p in Facts(after) <==> HasFact(after, p);
      assert p in Facts(nodes) <==> HasFact(nodes, p);
    }
  }

  lemma OthersCreated(s: Store, t: Store, n: nat, rec: NodeRec)
    requires Others(s) && n !in s.nodes && RecordOk(rec)
    requires t == s.(nodes := s.nodes[n := Stored(rec)], labels := s.labels + LabelEntries(rec.labels, n),
                     props := t.props, owners := t.owners, cat := t.cat)
    requires DictsOk(t.cat) && t.cat.relIndexes == s.cat.relIndexes && t.cat.Counter(KEdge) == s.cat.Counter(KEdge)
    requires s.cat.Counter(KNode) <= t.cat.Counter(KNode) && 0 < n <= t.cat.Counter(KNode)
    ensures Others(t)
  {
    StoredOk(rec);
    hide DictsOk, SortNats;
  }

  lemma BumpedOk(c: Catalog, k: Kind)
    requires DictsOk(c) && !IsDict(k) && c.Counter(k) < MAX_U64
    ensures DictsOk(Bumped(c, k)) && Bumped(c, k).Counter(k) == c.Counter(k) + 1
    ensures forall j :: j != k ==> Bumped(c, k).Counter(j) == c.Counter(j)
  {
    var d := Bumped(c, k);
    assert NamesKnown(d) && IdsKnown(d);
    hide NamesKnown, IdsKnown;
  }

  lemma BumpedExtends(c: Catalog, d: Catalog, k: Kind)
    requires Grows(c, d) && DictsOk(d) && !IsDict(k)
    ensures Extends(c, Bumped(d, k))
  {
    var e := Bumped(d, k);
    assert NamesKnown(e) && IdsKnown(e);
    hide NamesKnown, IdsKnown;
    assert forall j :: IsDict(j) ==> e.Counter(j) == d.Counter(j);
  }

  lemma BumpedCounters(c: Catalog, k: Kind)
    ensures forall j :: Bumped(c, k).Counter(j) == if j == k then (c.Counter(k) + 1) % TWO_64 else c.Counter(j)
    ensures Bumped(c, k).ids == c.ids && SameRegistry(c, Bumped(c, k))
  {
  }

  lemma CountersBounded(c: Catalog, k: Kind)
    requires DictsOk(c)
    ensures c.Counter(k) <= MAX_U64
  {
  }

  lemma NoNodeZero(s: Store)
    requires 0 in s.nodes
    ensures !Consistent(s)
  {
  }

  ghost predicate SameRegistry(c: Catalog, d: Catalog)
  {
    d.indexes == c.indexes && d.constraints == c.constraints && d.relIndexes == c.relIndexes
  }

  lemma TranslatedNoNulls(c: Catalog, props: map<Bytes, Value>, out: Props)
    requires Translated(c, props, props.Keys, false, out)
    ensures forall k :: k in out ==> out[k] != Null
  {
    forall k | k in out ensures out[k] != Null {
      var key :| key in props.Keys && key in props && props[key] != Null
                 && Name(KKey, key) in c.ids && c.ids[Name(KKey, key)] == k;
    }
  }

  /** The node has the labels and the non-null properties asked for. */
  ghost predicate Built(c: Catalog, names: seq<Bytes>, props: map<Bytes, Value>, rec: NodeRec)
  {
    && LabelsKnown(c, names)
    && (forall l :: l in rec.labels <==> Resolves(c, names, l))
    && Translated(c, props, props.Keys, false, rec.props)
  }

  /** The ids of the labels, each once, and of the keys of the non-null properties. */
  method InternNode(txn: Txn, names: seq<Bytes>, props: map<Bytes, Value>) returns (ls: seq<nat>, p: Props, err: Err)
    requires DictsOk(txn.db.cat)
    modifies txn
    ensures txn.db == old(txn.db).(cat := txn.db.cat)
    ensures err == Ok || err == OutOfIds
    ensures err == OutOfIds ==> Spent(old(txn.db.cat), KLabel, |names|) || Spent(old(txn.db.cat), KKey, KeyCount(props))
    ensures err == Ok ==> DictsOk(txn.db.cat) && Grows(old(txn.db.cat), txn.db.cat)
    ensures err == Ok ==> Fresh(txn.db.cat, names, [], ls) && NoDups(ls)
    ensures err == Ok ==> Translated(txn.db.cat, props, props.Keys, false, p)
  {
    hide DictsOk, Grows, Fresh, NoDups, Translated, AtMostMore, Spent, KeyCount;
    ghost var was := txn.db.cat;
    p := map[];
    NoDupsEmpty();
    ls, err := InternLabels(txn, names, []);
    if err != Ok {
      return;
    }
    ghost var labelled := txn.db.cat;
    p, err := InternProps(txn, props, false);
    if err != Ok {
      SpentBefore(was, labelled, KLabel, |names|, KKey, KeyCount(props));
      return;
    }
    GrowsTransitive(was, labelled, txn.db.cat);
    FreshLater(labelled, txn.db.cat, names, ls);
  }

  /**
   * Creates a node under the next id. It fails only when ids run out or when
   * a value it would have to claim is held by another node. At 2^64 - 1 the
   * counter wraps and the node gets id 0, which the invariant rules out.
   */
  method CreateNode(txn: Txn, names: seq<Bytes>, props: map<Bytes, Value>) returns (id: nat, err: Err)
    requires Consistent(txn.db)
    modifies txn
    ensures err == Ok || err == Violation || err == OutOfIds
    ensures err == OutOfIds ==> Spent(old(txn.db.cat), KLabel, |names|) || Spent(old(txn.db.cat), KKey, KeyCount(props))
    ensures err == Ok || err == Violation ==> Extends(old(txn.db.cat), txn.db.cat)
    ensures err == Ok || err == Violation ==> id == (old(txn.db.cat.Counter(KNode)) + 1) % TWO_64
    ensures err == Ok ==>
              && (Consistent(txn.db) <==> old(txn.db.cat.Counter(KNode)) < MAX_U64)
              && id == (old(txn.db.cat.Counter(KNode)) + 1) % TWO_64 == txn.db.cat.Counter(KNode)
              && id !in old(txn.db.nodes) && id in txn.db.nodes
              && Built(txn.db.cat, names, props, txn.db.nodes[id])
              && txn.db.nodes == old(txn.db.nodes)[id := txn.db.nodes[id]]
              && txn.db.edges == old(txn.db.edges)
              && SameRegistry(old(txn.db.cat), txn.db.cat)
              && (Consistent(txn.db) ==> Continues(old(txn.db.cat), txn.db.cat))
              && txn.db.cat.Counter(KEdge) == old(txn.db.cat.Counter(KEdge))
              && !Clashes(txn.db, AllEntries(txn.db.nodes[id].labels, txn.db.nodes[id].props, id),
                          Facts(old(txn.db.nodes)))
    ensures err == Violation ==>
              exists rec :: Built(txn.db.cat, names, props, rec) &&
                            Clashes(txn.db, AllEntries(rec.labels, rec.props, id), Facts(old(txn.db.nodes)))
  {
    hide Consistent, Others, Agrees, DictsOk, Grows, Continues, Fresh, Translated, Clashes, LabelEntries, AllEntries,
      NoDups, Stored, Built, AtMostMore, Spent, KeyCount, Facts, Extends;
    ghost var was := txn.db;
    GivenConsistent(was);
    id := 0;
    var ls, p;
    ls, p, err := InternNode(txn, names, props);
    if err != Ok {
      return;
    }
    AfterInternCounters(was, txn.db);
    ghost var interned := txn.db;
    id := NextCounter(txn, KNode);
    BumpedCounters(interned.cat, KNode);
    BumpedExtends(was.cat, interned.cat, KNode);
    var rec := NodeRec(ls, p);
    PutNodeRecord(txn, id, rec);
    ghost var facts := Facts(was.nodes);
    AgreesElsewhere(interned, txn.db, facts);
    ghost var written := txn.db;
    err := PutLabels(txn, id, ls, p, facts);
    BuiltFrom(interned.cat, txn.db.cat, names, props, rec);
    if err != Ok {
      ClashesSame(written, txn.db, AllEntries(ls, p, id), facts);
      return;
    }
    NodeIdFresh(was, id);
    FactsOfNew(was.nodes, id, rec);
    if was.cat.Counter(KNode) < MAX_U64 {
      BumpedOk(interned.cat, KNode);
      OthersCreated(was, txn.db, id, rec);
      ConsistentFrom(txn.db);
      BumpContinues(was.cat, interned.cat, KNode);
    } else {
      CountersBounded(was.cat, KNode);
      NoNodeZero(txn.db);
    }
    CreatedNoClash(was, txn.db, id, rec);
  }

  lemma CreatedNoClash(s: Store, t: Store, n: nat, rec: NodeRec)
    requires n !in s.nodes && t.nodes == s.nodes[n := Stored(rec)] && Agrees(t, Facts(t.nodes))
    ensures !Clashes(t, AllEntries(t.nodes[n].labels, t.nodes[n].props, n), Facts(s.nodes))
  {
    FactsOfNew(s.nodes, n, rec);
    SortNatsMembers(rec.labels);
    assert AllEntries(Stored(rec).labels, rec.props, n) == AllEntries(rec.labels, rec.props, n);
    hide Facts, AllEntries, Stored;
    NoClashes(t, Facts(t.nodes), AllEntries(rec.labels, rec.props, n), Facts(s.nodes));
  }

  lemma BumpContinues(c: Catalog, d: Catalog, k: Kind)
    requires Grows(c, d) && d.Counter(k) < MAX_U64
    ensures Continues(c, Bumped(d, k))
  {
  }

  lemma NoDupsEmpty()
    ensures NoDups<nat>([])
  {
  }

  lemma NodeIdFresh(s: Store, id: nat)
    requires Others(s) && id == (s.cat.Counter(KNode) + 1) % TWO_64
    ensures id !in s.nodes
  {
  }

  lemma ConsistentFrom(s: Store)
    requires Others(s) && Agrees(s, Facts(s.nodes))
    ensures Consistent(s)
  {
  }

  lemma FreshLater(c: Catalog, d: Catalog, names: seq<Bytes>, ls: seq<nat>)
    requires Grows(c, d) && Fresh(c, names, [], ls)
    ensures Fresh(d, names, [], ls) && NoDups(ls)
  {
    assert [] + ls == ls;
    forall l ensures Resolves(d, names, l) <==> Resolves(c, names, l) {
    }
  }

  lemma AfterInternCounters(s: Store, t: Store)
    requires t == s.(cat := t.cat) && Grows(s.cat, t.cat) && Agrees(s, Facts(s.nodes))
    ensures Agrees(t, Facts(s.nodes)) && t.cat.relIndexes == s.cat.relIndexes
    ensures t.cat.Counter(KNode) == s.cat.Counter(KNode) && t.cat.Counter(KEdge) == s.cat.Counter(KEdge)
    ensures t.cat.indexes == s.cat.indexes && t.cat.constraints == s.cat.constraints
  {
    AfterIntern(s, t);
  }

  lemma BuiltFrom(c: Catalog, d: Catalog, names: seq<Bytes>, props: map<Bytes, Value>, rec: NodeRec)
    requires d.ids == c.ids && Fresh(c, names, [], rec.labels) && Translated(c, props, props.Keys, false, rec.props)
    requires NoDups(rec.labels)
    ensures Built(d, names, props, rec) && Built(d, names, props, Stored(rec))
    ensures RecordOk(rec)
  {
    StoredOk(rec);
    TranslatedNoNulls(c, props, rec.props);
    forall l ensures Resolves(d, names, l) <==> Resolves(c, names, l) {
    }
  }
}
