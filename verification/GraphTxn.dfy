/**
 * The transaction that mutations run in, the catalog operations on it and
 * the two primitives through which every `p` and `u` write passes.
 */
module GraphTxn {
  import opened Values
  import opened Compare
  import opened GraphStore

  datatype Err = Ok | NodeNotFound | EdgeNotFound | NodeHasEdges | Violation | OutOfIds

  class Txn {
    var db: Store

    constructor ()
      ensures db == EMPTY && Consistent(db)
    {
      db := EMPTY;
      EmptyConsistent();
    }
  }

  // ----- Catalog -----

  /** The registries and the node and edge counters stay, names keep their ids. */
  ghost predicate Grows(c: Catalog, d: Catalog)
  {
    && (forall n :: n in c.ids ==> n in d.ids && d.ids[n] == c.ids[n])
    && (forall i :: i in c.names ==> i in d.names && d.names[i] == c.names[i])
    && (forall k :: c.Counter(k) <= d.Counter(k))
    && (forall k :: !IsDict(k) ==> c.Counter(k) == d.Counter(k))
    && c.indexes == d.indexes && c.constraints == d.constraints && c.relIndexes == d.relIndexes
  }

  /** Names keep their ids and ids their names; counters never go back. */
  ghost predicate Continues(c: Catalog, d: Catalog)
  {
    && (forall n :: n in c.ids ==> n in d.ids && d.ids[n] == c.ids[n])
    && (forall i :: i in c.names ==> i in d.names && d.names[i] == c.names[i])
    && (forall k :: c.Counter(k) <= d.Counter(k))
  }

  /** Every name of c resolves in d as it did, and the same pairs are constrained. */
  ghost predicate Extends(c: Catalog, d: Catalog)
  {
    && DictsOk(d) && d.constraints == c.constraints
    && forall n :: n in c.ids ==> n in d.ids && d.ids[n] == c.ids[n]
  }

  function Bumped(c: Catalog, k: Kind): Catalog
  {
    c.(counters := c.counters[k := (c.Counter(k) + 1) % TWO_64])
  }

  /** Pre-increments a counter; at 2^64 - 1 it wraps to 0. */
  method NextCounter(txn: Txn, k: Kind) returns (id: nat)
    modifies txn
    ensures txn.db == old(txn.db).(cat := Bumped(old(txn.db.cat), k))
    ensures id == (old(txn.db.cat.Counter(k)) + 1) % TWO_64
  {
    var cur := 0;
    if k in txn.db.cat.counters {
      cur := txn.db.cat.counters[k];
    }
    id := (cur + 1) % TWO_64;
    txn.db := txn.db.(cat := txn.db.cat.(counters := txn.db.cat.counters[k := id]));
  }

  /** At most so many ids of the kind were handed out, and none of another kind. */
  ghost predicate AtMostMore(c: Catalog, d: Catalog, k: Kind, more: nat)
  {
    d.Counter(k) <= c.Counter(k) + more && forall j :: j != k ==> d.Counter(j) == c.Counter(j)
  }

  /** There are not so many ids of the kind left. */
  predicate Spent(c: Catalog, k: Kind, more: nat)
  {
    c.Counter(k) + more > MAX_U32
  }

  /** The id of the name, allocated if it is new. */
  method Intern(txn: Txn, n: Name) returns (id: nat, err: Err)
    requires DictsOk(txn.db.cat) && IsDict(n.kind)
    modifies txn
    ensures err == if n !in old(txn.db.cat.ids) && old(txn.db.cat.Counter(n.kind)) == MAX_U32 then OutOfIds else Ok
    ensures txn.db == old(txn.db).(cat := txn.db.cat)
    ensures err == Ok ==> DictsOk(txn.db.cat) && Grows(old(txn.db.cat), txn.db.cat)
    ensures err == Ok ==> n in txn.db.cat.ids && txn.db.cat.ids[n] == id
    ensures err == Ok ==> forall m :: m in txn.db.cat.ids ==> m == n || m in old(txn.db.cat.ids)
    ensures err == Ok && n !in old(txn.db.cat.ids) ==> Id(n.kind, id) !in old(txn.db.cat.names)
    ensures err == Ok ==> AtMostMore(old(txn.db.cat), txn.db.cat, n.kind, 1)
  {
    if n in txn.db.cat.ids {
      return txn.db.cat.ids[n], Ok;
    }
    ghost var before := txn.db.cat;
    id := NextCounter(txn, n.kind);
    if id > MAX_U32 {
      return id, OutOfIds;
    }
    var c := txn.db.cat;
    txn.db := txn.db.(cat := c.(ids := c.ids[n := id], names := c.names[Id(n.kind, id) := n.text]));
    InternOk(before, n, id);
    return id, Ok;
  }

  function Interned(c: Catalog, n: Name, id: nat): Catalog
  {
    var d := Bumped(c, n.kind);
    d.(ids := d.ids[n := id], names := d.names[Id(n.kind, id) := n.text])
  }

  lemma InternKnown(c: Catalog, n: Name, id: nat)
    requires NamesKnown(c) && IdsKnown(c) && IsDict(n.kind) && n !in c.ids && Id(n.kind, id) !in c.names
    ensures NamesKnown(Interned(c, n, id)) && IdsKnown(Interned(c, n, id))
  {
    var d := Interned(c, n, id);
    forall m | m in d.ids && m != n ensures Id(m.kind, c.ids[m]) != Id(n.kind, id) {
      assert Id(m.kind, c.ids[m]) in c.names;
    }
    forall i | i in d.names && i != Id(n.kind, id) ensures Name(i.kind, c.names[i]) != n {
      assert Name(i.kind, c.names[i]) in c.ids;
    }
  }

  lemma InternGrows(c: Catalog, n: Name, id: nat)
    requires IdsInRange(c) && IsDict(n.kind) && n !in c.ids && Id(n.kind, id) !in c.names
    requires id == c.Counter(n.kind) + 1 <= MAX_U32
    ensures IdsInRange(Interned(c, n, id)) && Grows(c, Interned(c, n, id))
  {
    var d := Interned(c, n, id);
    assert d.counters == c.counters[n.kind := id];
    hide Interned;
    assert forall k :: d.Counter(k) == if k == n.kind then id else c.Counter(k);
  }

  lemma InternOk(c: Catalog, n: Name, id: nat)
    requires DictsOk(c) && IsDict(n.kind) && n !in c.ids
    requires id == c.Counter(n.kind) + 1 <= MAX_U32
    ensures DictsOk(Interned(c, n, id)) && Grows(c, Interned(c, n, id))
    ensures Id(n.kind, id) !in c.names
  {
    assert Id(n.kind, id) !in c.names;
    hide NamesKnown, IdsKnown, IdsInRange, Interned, Grows;
    InternKnown(c, n, id);
    InternGrows(c, n, id);
  }

  /** Distinct names have distinct ids. */
  lemma IdsDistinct(c: Catalog, m: Name, n: Name)
    requires DictsOk(c) && m in c.ids && n in c.ids && m.kind == n.kind && c.ids[m] == c.ids[n]
    ensures m == n
  {
    assert c.names[Id(m.kind, c.ids[m])] == m.text;
    assert c.names[Id(n.kind, c.ids[n])] == n.text;
  }

  // ----- Property index entries -----

  ghost predicate OnlyEntries(s: Store, t: Store)
  {
    t == s.(props := t.props, owners := t.owners)
  }

  method ClaimValue(txn: Txn, p: PropEntry) returns (err: Err)
    modifies txn
    ensures txn.db == old(txn.db).(owners := txn.db.owners)
    ensures err == Ok || err == Violation
    ensures UniqueValue(p.value).None? ==> err == Ok && txn.db == old(txn.db)
    ensures UniqueValue(p.value).Some? ==>
              var c := Claim(p.on, UniqueValue(p.value).value);
              && (err == Violation <==> c in old(txn.db.owners) && old(txn.db.owners[c]) != p.node)
              && (err == Ok ==> txn.db.owners == old(txn.db.owners)[c := p.node])
  {
    var canon := UniqueValue(p.value);
    if canon.None? {
      return Ok;
    }
    var c := Claim(p.on, canon.value);
    var found := c in txn.db.owners;
    if found && txn.db.owners[c] != p.node {
      return Violation;
    }
    if found {
      assert txn.db.owners == txn.db.owners[c := p.node];
      return Ok;
    }
    txn.db := txn.db.(owners := txn.db.owners[c := p.node]);
    return Ok;
  }

  /** Writes the `p` entry if the pair is indexed, and claims the value if it is constrained. */
  method PutPropEntry(txn: Txn, p: PropEntry) returns (err: Err)
    modifies txn
    ensures OnlyEntries(old(txn.db), txn.db)
    ensures err == if Taken(old(txn.db), p) then Violation else Ok
    ensures err == Ok ==> txn.db == PutEntry(old(txn.db), p)
  {
    if !IsIndexable(p.value) {
      return Ok;
    }
    if p.on !in txn.db.cat.indexes {
      return Ok;
    }
    txn.db := txn.db.(props := txn.db.props + {p});
    if p.on !in txn.db.cat.constraints {
      return Ok;
    }
    err := ClaimValue(txn, p);
  }

  /** Removes the `p` entry and releases the value if the node holds it. */
  method DelPropEntry(txn: Txn, p: PropEntry)
    modifies txn
    ensures OnlyEntries(old(txn.db), txn.db)
    ensures txn.db == DelEntry(old(txn.db), p)
  {
    if !IsIndexable(p.value) || p.on !in txn.db.cat.indexes {
      return;
    }
    txn.db := txn.db.(props := txn.db.props - {p});
    if p.on !in txn.db.cat.constraints {
      return;
    }
    var canon := UniqueValue(p.value);
    if canon.None? {
      return;
    }
    var c := Claim(p.on, canon.value);
    if c !in txn.db.owners || txn.db.owners[c] != p.node {
      return;
    }
    txn.db := txn.db.(owners := txn.db.owners - {c});
  }

  /** The facts that a label contributes for a node with these properties. */
  ghost function EntriesAt(l: nat, props: Props, n: nat): set<PropEntry>
  {
    set k | k in props :: PropEntry(Pair(l, k), props[k], n)
  }

  /** The facts that one property contributes for a node with these labels. */
  ghost function EntriesOf(ls: seq<nat>, k: nat, v: Value, n: nat): set<PropEntry>
  {
    set l | l in ls :: PropEntry(Pair(l, k), v, n)
  }

  /** Some of the new facts clashes with a fact already there. */
  ghost predicate Clashes(s: Store, added: set<PropEntry>, facts: set<PropEntry>)
  {
    exists p, q :: p in added && q in facts && Clash(s, p, q)
  }

  lemma TakenClashes(s: Store, t: Store, facts: set<PropEntry>, done: set<PropEntry>, p: PropEntry,
                     added: set<PropEntry>)
    requires Agrees(s, facts + done) && Taken(s, p) && p in added && t.cat == s.cat
    requires forall q :: q in done ==> q.node == p.node
    ensures Clashes(t, added, facts)
  {
    var q := TakenBy(s, facts + done, p);
    assert Clash(t, p, q);
  }

  /** Puts an entry for every property under one label. */
  method PutPropsAt(txn: Txn, l: nat, props: Props, n: nat, ghost facts: set<PropEntry>) returns (err: Err)
    requires Agrees(txn.db, facts)
    modifies txn
    ensures OnlyEntries(old(txn.db), txn.db)
    ensures err == Ok || err == Violation
    ensures err == Ok ==> Agrees(txn.db, facts + EntriesAt(l, props, n))
    ensures err == Violation ==> Clashes(old(txn.db), EntriesAt(l, props, n), facts)
  {
    hide Agrees, Taken, PutEntry;
    var rest := props.Keys;
    ghost var done: set<PropEntry> := {};
    assert facts + done == facts;
    while rest != {}
      invariant rest <= props.Keys
      invariant OnlyEntries(old(txn.db), txn.db)
      invariant forall p :: p in done <==> p in EntriesAt(l, props, n) && p.on.key !in rest
      invariant Agrees(txn.db, facts + done)
      decreases rest
    {
      var k :| k in rest;
      var p := PropEntry(Pair(l, k), props[k], n);
      ghost var before := txn.db;
      err := PutPropEntry(txn, p);
      if err != Ok {
        TakenClashes(before, old(txn.db), facts, done, p, EntriesAt(l, props, n));
        return;
      }
      PutEntryAgrees(before, facts + done, p);
      assert facts + done + {p} == facts + (done + {p});
      done := done + {p};
      rest := rest - {k};
    }
    assert done == EntriesAt(l, props, n);
    return Ok;
  }

  /** Each fact is the only one at its label, key and node. */
  ghost predicate Alone(facts: set<PropEntry>, gone: set<PropEntry>)
  {
    forall p, q :: p in gone && q in facts && q.on == p.on && q.node == p.node ==> q == p
  }

  /** Deletes the entry of every property under one label. */
  method DelPropsAt(txn: Txn, l: nat, props: Props, n: nat, ghost facts: set<PropEntry>)
    requires Agrees(txn.db, facts) && Alone(facts, EntriesAt(l, props, n))
    modifies txn
    ensures OnlyEntries(old(txn.db), txn.db)
    ensures Agrees(txn.db, facts - EntriesAt(l, props, n))
  {
    hide Agrees, DelEntry;
    var rest := props.Keys;
    ghost var done: set<PropEntry> := {};
    assert facts - done == facts;
    while rest != {}
      invariant rest <= props.Keys
      invariant OnlyEntries(old(txn.db), txn.db)
      invariant forall p :: p in done <==> p in EntriesAt(l, props, n) && p.on.key !in rest
      invariant Agrees(txn.db, facts - done)
      decreases rest
    {
      var k :| k in rest;
      var p := PropEntry(Pair(l, k), props[k], n);
      assert p in EntriesAt(l, props, n);
      DelEntryAgrees(txn.db, facts - done, p);
      DelPropEntry(txn, p);
      assert facts - done - {p} == facts - (done + {p});
      done := done + {p};
      rest := rest - {k};
    }
    assert done == EntriesAt(l, props, n);
  }

  /** Puts an entry for one property under every label. */
  method PutPropFor(txn: Txn, ls: seq<nat>, k: nat, v: Value, n: nat, ghost facts: set<PropEntry>) returns (err: Err)
    requires Agrees(txn.db, facts)
    modifies txn
    ensures OnlyEntries(old(txn.db), txn.db)
    ensures err == Ok || err == Violation
    ensures err == Ok ==> Agrees(txn.db, facts + EntriesOf(ls, k, v, n))
    ensures err == Violation ==> Clashes(old(txn.db), EntriesOf(ls, k, v, n), facts)
  {
    hide Agrees, Taken, PutEntry;
    assert facts + EntriesOf([], k, v, n) == facts;
    for i := 0 to |ls|
      invariant OnlyEntries(old(txn.db), txn.db)
      invariant Agrees(txn.db, facts + EntriesOf(ls[..i], k, v, n))
    {
      var p := PropEntry(Pair(ls[i], k), v, n);
      ghost var before, done := txn.db, EntriesOf(ls[..i], k, v, n);
      err := PutPropEntry(txn, p);
      if err != Ok {
        TakenClashes(before, old(txn.db), facts, done, p, EntriesOf(ls, k, v, n));
        return;
      }
      PutEntryAgrees(before, facts + done, p);
      assert facts + done + {p} == facts + EntriesOf(ls[..i+1], k, v, n);
    }
    assert ls[..|ls|] == ls;
    return Ok;
  }

  /** Deletes the entry of one property under every label. */
  method DelPropFor(txn: Txn, ls: seq<nat>, k: nat, v: Value, n: nat, ghost facts: set<PropEntry>)
    requires Agrees(txn.db, facts) && Alone(facts, EntriesOf(ls, k, v, n))
    modifies txn
    ensures OnlyEntries(old(txn.db), txn.db)
    ensures Agrees(txn.db, facts - EntriesOf(ls, k, v, n))
  {
    hide Agrees, DelEntry;
    assert facts - EntriesOf([], k, v, n) == facts;
    for i := 0 to |ls|
      invariant OnlyEntries(old(txn.db), txn.db)
      invariant Agrees(txn.db, facts - EntriesOf(ls[..i], k, v, n))
    {
      var p := PropEntry(Pair(ls[i], k), v, n);
      ghost var done := EntriesOf(ls[..i], k, v, n);
      assert p in EntriesOf(ls, k, v, n);
      DelEntryAgrees(txn.db, facts - done, p);
      DelPropEntry(txn, p);
      assert facts - done - {p} == facts - EntriesOf(ls[..i+1], k, v, n);
    }
    assert ls[..|ls|] == ls;
  }
}
