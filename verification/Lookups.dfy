/** The lookups that the access methods of a plan run, down to the scans of the keys. */
module Lookups {
  import opened Seqs
  import opened Values
  import opened Adjacency
  import opened GraphStore
  import opened PlanRows
  import opened Predicates
  import opened PlanMeaning
  import opened AccessPaths
  import IndexAccess
  import RangeBands
  import RangeScan

  // ----- Nodes by property -----

  /** Of the first ids, out holds those whose property equals the value. */
  ghost predicate Picked(w: World, on: Pair, v: Value, ids: seq<nat>, out: seq<nat>)
  {
    StrictlyAscending(out) && forall n :: n in out <==> n in ids && FilteredBy(w, on, v, n)
  }

  lemma PickNext(w: World, on: Pair, v: Value, ids: seq<nat>, i: nat, out: seq<nat>)
    requires StrictlyAscending(ids) && i < |ids| && Picked(w, on, v, ids[..i], out)
    ensures Picked(w, on, v, ids[..i+1], if FilteredBy(w, on, v, ids[i]) then out + [ids[i]] else out)
  {
    hide FilteredBy;
    assert ids[..i+1] == ids[..i] + [ids[i]];
    assert forall n :: n in ids[..i] ==> n < ids[i];
    if FilteredBy(w, on, v, ids[i]) {
      AscendingAppend(out, ids[i]);
    }
  }

  /** Lists and maps have no index keys: the label is scanned and compared with query equality. */
  method NodesWithEqualProperty(w: World, on: Pair, v: Value) returns (out: seq<nat>)
    requires w.Ok() && IndexAccess.Encodable(w.s) && PairFits(on)
    ensures StrictlyAscending(out) && forall n :: n in out <==> FilteredBy(w, on, v, n)
  {
    hide IndexAccess.Encodable, Consistent, Equality;
    var ids := IndexAccess.NodesByLabel(w.s, on.owner);
    IndexAccess.GivenTables(w.s);
    out := [];
    for i := 0 to |ids|
      invariant Picked(w, on, v, ids[..i], out)
    {
      PickNext(w, on, v, ids, i, out);
      assert ids[i] in ids && LabelEntry(on.owner, ids[i]) in w.s.labels;
      var props := w.s.nodes[ids[i]].props;
      if on.key in props && Equality(props[on.key], v) == True {
        out := out + [ids[i]];
      }
    }
    assert ids[..|ids|] == ids;
    Labelled(w, on, v, ids, out);
  }

  lemma Labelled(w: World, on: Pair, v: Value, ids: seq<nat>, out: seq<nat>)
    requires LabelsAgree(w.s) && Picked(w, on, v, ids, out)
    requires forall n :: n in ids <==> LabelEntry(on.owner, n) in w.s.labels
    ensures forall n :: n in out <==> FilteredBy(w, on, v, n)
  {
    forall n | FilteredBy(w, on, v, n) ensures n in ids {
      assert LabelEntry(on.owner, n) in w.s.labels;
    }
  }

  /** What a node seek returns for a value. */
  method PropertyScanIds(w: World, on: Pair, v: Value) returns (ids: seq<nat>)
    requires w.Ok() && IndexAccess.Encodable(w.s) && PairFits(on)
    ensures LooksUp(w, on, v, ids)
  {
    hide IndexAccess.Encodable, IndexAccess.Matches, FilteredBy, Consistent;
    if v == Null {
      return [];
    }
    if !IsIndexable(v) {
      ids := NodesWithEqualProperty(w, on, v);
    } else {
      ids := IndexAccess.NodesByProperty(w.s, on, v);
    }
    AscendingNoDups(ids);
  }

  // ----- Relationships by property -----

  ghost predicate RelFiltered(w: World, on: Pair, v: Value, e: nat)
  {
    && e in w.s.edges && w.s.edges[e].typ == on.owner && on.key in w.s.edges[e].props
    && Equality(w.s.edges[e].props[on.key], v) == True
  }

  ghost predicate RelsPicked(w: World, on: Pair, v: Value, ids: seq<nat>, out: seq<nat>)
  {
    StrictlyAscending(out) && forall e :: e in out <==> e in ids && RelFiltered(w, on, v, e)
  }

  lemma PickNextRel(w: World, on: Pair, v: Value, ids: seq<nat>, i: nat, out: seq<nat>)
    requires StrictlyAscending(ids) && i < |ids| && RelsPicked(w, on, v, ids[..i], out)
    ensures RelsPicked(w, on, v, ids[..i+1], if RelFiltered(w, on, v, ids[i]) then out + [ids[i]] else out)
  {
    hide RelFiltered;
    assert ids[..i+1] == ids[..i] + [ids[i]];
    assert forall e :: e in ids[..i] ==> e < ids[i];
    if RelFiltered(w, on, v, ids[i]) {
      AscendingAppend(out, ids[i]);
    }
  }

  method EdgesWithEqualProperty(w: World, on: Pair, v: Value) returns (out: seq<nat>)
    requires w.Ok() && IndexAccess.Encodable(w.s)
    ensures StrictlyAscending(out) && forall e :: e in out <==> RelFiltered(w, on, v, e)
  {
    hide IndexAccess.Encodable, Consistent, Equality;
    var ids := IndexAccess.ScanEdgesOfType(w.s, on.owner);
    out := [];
    for i := 0 to |ids|
      invariant RelsPicked(w, on, v, ids[..i], out)
    {
      PickNextRel(w, on, v, ids, i, out);
      assert ids[i] in ids;
      var props := w.s.edges[ids[i]].props;
      if on.key in props && Equality(props[on.key], v) == True {
        out := out + [ids[i]];
      }
    }
    assert ids[..|ids|] == ids;
  }

  /** The edge references of ascending ids. */
  function RefsOf(w: World, ids: seq<nat>): seq<EdgeRef>
    requires forall e :: e in ids ==> e in w.s.edges
  {
    seq(|ids|, i requires 0 <= i < |ids| => assert ids[i] in ids; RefOf(ids[i], w.s.edges[ids[i]]))
  }

  lemma RefsOfIds(w: World, ids: seq<nat>)
    requires StrictlyAscending(ids) && forall e :: e in ids ==> e in w.s.edges
    ensures NoDups(RefsOf(w, ids))
    ensures forall r :: r in RefsOf(w, ids) <==> r.id in ids && r == RefOf(r.id, w.s.edges[r.id])
  {
    var rs := RefsOf(w, ids);
    forall r | r in rs ensures r.id in ids && r == RefOf(r.id, w.s.edges[r.id]) {
      var i :| 0 <= i < |rs| && rs[i] == r;
      assert ids[i] in ids;
    }
    forall r: EdgeRef | r.id in ids && r == RefOf(r.id, w.s.edges[r.id]) ensures r in rs {
      var i :| 0 <= i < |ids| && ids[i] == r.id;
      assert rs[i] == r;
    }
    forall i, j | 0 <= i < j < |rs| ensures rs[i] != rs[j] {
      assert rs[i].id == ids[i] && rs[j].id == ids[j];
    }
  }

  /** What a relationship seek returns for a value. */
  method RelSeekRefs(w: World, on: Pair, v: Value) returns (es: seq<EdgeRef>)
    requires w.Ok() && IndexAccess.Encodable(w.s) && PairFits(on)
    ensures LooksUpRels(w, on, v, es)
  {
    hide IndexAccess.Encodable, Consistent, Equality, RefsOf;
    var ids;
    if v == Null {
      ids := [];
    } else if !IsIndexable(v) {
      ids := EdgesWithEqualProperty(w, on, v);
    } else {
      ids := IndexAccess.EdgesByProperty(w.s, on, v);
    }
    RefsOfIds(w, ids);
    es := RefsOf(w, ids);
  }

  // ----- Nodes by a range -----

  /** What a range scan streams for a row. */
  method RangeScanIds(w: World, a: Access, b: Row) returns (ids: seq<nat>)
    requires w.Ok() && IndexAccess.Encodable(w.s) && a.Range? && PairFits(Pair(a.lab, a.key))
    requires a.prefix.Some? || a.lower.Some? || a.upper.Some?
    ensures Streams(w, a, b, ids)
  {
    hide IndexAccess.Encodable, Consistent, Eval, RangeBands.Bands, RangeScan.Visits, RangeScan.NodeCursor.Valid,
      RangeScan.NodeCursor.Left, RangeAt;
    ids := [];
    if a.prefix.Some? && !Eval(w, a.prefix.value, b).Str? {
      return;
    }
    GivenBounded(w, a, b);
    var c := RangeScan.ScanPropertyRange(w.s, Pair(a.lab, a.key), RangeAt(w, a, b));
    if c == null {
      return;
    }
    ghost var all := c.Left();
    var n := c.Next();
    while n.Some?
      invariant c.Valid() && fresh(c)
      invariant all == if n.Some? then ids + [n.value] + c.Left() else ids
      decreases n.Some?, |c.Left()|
    {
      ids := ids + [n.value];
      n := c.Next();
    }
  }
}
