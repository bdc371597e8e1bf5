/**
 * The access methods of a plan are the lookups of the graph layer: what
 * those return is what the planner assumes of a scan or a seek.
 */
module AccessPaths {
  import opened Seqs
  import opened Values
  import opened Adjacency
  import opened GraphStore
  import opened PlanRows
  import opened Predicates
  import opened PlanMeaning
  import Compare
  import RangeBands
  import IndexAccess
  import RangeScan

  /** Equality with a scalar is the equality the indexes use. */
  lemma ScalarEquality(a: Value, v: Value)
    requires IsIndexable(v) && v != Null
    ensures Equality(a, v) == True <==> Compare.QueryEqual(a, v)
  {
    hide Compare.QueryEqual;
    if !IsIndexable(a) || a == Null {
      NotScalar(a, v);
    }
  }

  lemma NotScalar(a: Value, v: Value)
    requires IsIndexable(v) && (!IsIndexable(a) || a == Null)
    ensures !Compare.QueryEqual(a, v)
  {
  }

  /** What a property lookup returns: nothing for null, the index lookup for scalars, a filtered scan otherwise. */
  ghost predicate LooksUp(w: World, on: Pair, v: Value, ids: seq<nat>)
  {
    && NoDups(ids)
    && if v == Null then ids == []
       else if IsIndexable(v) then forall n :: n in ids <==> IndexAccess.Matches(w.s, on, v, n)
       else forall n :: n in ids <==> FilteredBy(w, on, v, n)
  }

  ghost predicate FilteredBy(w: World, on: Pair, v: Value, n: nat)
  {
    && n in w.s.nodes && on.owner in w.s.nodes[n].labels && on.key in w.s.nodes[n].props
    && Equality(w.s.nodes[n].props[on.key], v) == True
  }

  lemma NullEquals(a: Value)
    ensures Equality(a, Null) == Unknown
  {
  }

  /** A node seek finds exactly the labelled nodes whose property equals the value. */
  lemma SeekScans(w: World, lab: nat, key: nat, t: Term, scan: Row -> seq<nat>)
    requires forall b :: LooksUp(w, Pair(lab, key), Eval(w, t, b), scan(b))
    ensures ScanOk(w, Seek(lab, key, t), scan)
  {
    hide Equality, Compare.QueryEqual, Eval;
    var a := Seek(lab, key, t);
    forall b ensures NoDups(scan(b)) && forall n :: n in scan(b) <==> Found(w, a, b, n) {
      var v := Eval(w, t, b);
      assert LooksUp(w, Pair(lab, key), v, scan(b));
      forall n ensures n in scan(b) <==> Found(w, a, b, n) {
        if n in w.s.nodes && key in w.s.nodes[n].props {
          var p := w.s.nodes[n].props[key];
          NullEquals(p);
          if IsIndexable(v) && v != Null {
            ScalarEquality(p, v);
          }
        }
      }
    }
  }

  /** A full scan finds exactly the nodes. */
  lemma FullScans(w: World, scan: Row -> seq<nat>)
    requires forall b :: NoDups(scan(b)) && forall n :: n in scan(b) <==> n in w.s.nodes
    ensures ScanOk(w, AllNodes, scan)
  {
  }

  /** A label scan finds exactly the labelled nodes. */
  lemma LabelScans(w: World, lab: nat, scan: Row -> seq<nat>)
    requires w.Ok()
    requires forall b :: NoDups(scan(b)) && forall n :: n in scan(b) <==> LabelEntry(lab, n) in w.s.labels
    ensures ScanOk(w, ByLabel(lab), scan)
  {
    IndexAccess.GivenTables(w.s);
    hide Consistent;
    forall b, n ensures n in scan(b) <==> Found(w, ByLabel(lab), b, n) {
      assert LabelEntry(lab, n) in w.s.labels <==> Found(w, ByLabel(lab), b, n);
    }
  }

  // ----- Range scans -----

  /** The range of values a scan covers for a row. */
  function RangeAt(w: World, a: Access, b: Row): RangeBands.PropRange
    requires a.Range?
  {
    RangeBands.PropRange(
      BoundAt(w, a.lower, b), BoundAt(w, a.upper, b),
      if a.prefix.Some? && Eval(w, a.prefix.value, b).Str? then Some(Eval(w, a.prefix.value, b).s) else None)
  }

  function BoundAt(w: World, l: Option<Limit>, b: Row): Option<RangeBands.Bound>
  {
    if l.None? then None else Some(RangeBands.Bound(Eval(w, l.value.value, b), l.value.inclusive))
  }

  /** Nothing is scanned for a prefix that is not a string, or when no value can match; else the cursor's nodes are. */
  ghost predicate Streams(w: World, a: Access, b: Row, ids: seq<nat>)
    requires a.Range?
  {
    if a.prefix.Some? && !Eval(w, a.prefix.value, b).Str? then ids == []
    else if RangeBands.Bands(RangeAt(w, a, b)).None? then ids == []
    else RangeScan.Visits(w.s, Pair(a.lab, a.key), RangeAt(w, a, b), ids)
  }

  /** A value within the limits of the plan is accepted by the range of the scan. */
  lemma WithinAccepted(w: World, a: Access, b: Row, n: nat)
    requires a.Range? && (a.prefix.Some? || a.lower.Some? || a.upper.Some?) &&
             (a.prefix.Some? ==> a.lower.None? && a.upper.None?)
    requires a.prefix.Some? ==> Eval(w, a.prefix.value, b).Str?
    requires n in w.s.nodes && Within(w, a, b, n)
    ensures RangeBands.Bounded(RangeAt(w, a, b))
    ensures RangeBands.Accepts(RangeAt(w, a, b), w.s.nodes[n].props[a.key])
  {
    hide Compare.Compares, Eval;
  }

  /** A range scan returns only labelled nodes and misses none within the limits. */
  lemma RangeScans(w: World, a: Access, scan: Row -> seq<nat>)
    requires w.Ok() && a.Range? && Pair(a.lab, a.key) in w.s.cat.indexes
    requires (a.prefix.Some? || a.lower.Some? || a.upper.Some?) && (a.prefix.Some? ==> a.lower.None? && a.upper.None?)
    requires forall b :: Streams(w, a, b, scan(b))
    ensures ScanOk(w, a, scan)
  {
    hide Consistent, RangeBands.Accepts, RangeBands.Bands, Eval, Within, RangeAt;
    forall b ensures NoDups(scan(b)) && (forall n :: n in scan(b) ==> Found(w, a, b, n))
                     && (forall n :: Found(w, a, b, n) && Within(w, a, b, n) ==> n in scan(b)) {
      RangeScanAt(w, a, b, scan(b));
    }
  }

  lemma RangeScanAt(w: World, a: Access, b: Row, ids: seq<nat>)
    requires w.Ok() && a.Range? && Pair(a.lab, a.key) in w.s.cat.indexes
    requires (a.prefix.Some? || a.lower.Some? || a.upper.Some?) && (a.prefix.Some? ==> a.lower.None? && a.upper.None?)
    requires Streams(w, a, b, ids)
    ensures NoDups(ids) && (forall n :: n in ids ==> Found(w, a, b, n))
    ensures forall n :: Found(w, a, b, n) && Within(w, a, b, n) ==> n in ids
  {
    hide Consistent, RangeBands.Accepts, RangeBands.Bands, RangeBands.Bounded;
    var on, r := Pair(a.lab, a.key), RangeAt(w, a, b);
    if ids != [] {
      GivenBounded(w, a, b);
      forall n | n in ids ensures Found(w, a, b, n) {
        RangeScan.VisitedMatches(w.s, on, r, ids, n);
      }
    }
    forall n | Found(w, a, b, n) && Within(w, a, b, n) ensures n in ids {
      assert a.prefix.Some? ==> Eval(w, a.prefix.value, b).Str?;
      WithinAccepted(w, a, b, n);
      assert RangeScan.RangeMatches(w.s, on, r, n);
      if RangeBands.Bands(r).None? {
        RangeScan.NothingMatches(w.s, on, r);
      } else {
        RangeScan.VisitedMatches(w.s, on, r, ids, n);
      }
    }
  }

  lemma GivenBounded(w: World, a: Access, b: Row)
    requires a.Range? && (a.prefix.Some? || a.lower.Some? || a.upper.Some?)
    requires a.prefix.Some? ==> Eval(w, a.prefix.value, b).Str?
    ensures RangeBands.Bounded(RangeAt(w, a, b))
  {
  }

  // ----- Relationship seeks -----

  /** The ids of a relationship lookup, as the edges they stand for. */
  ghost predicate LooksUpRels(w: World, on: Pair, v: Value, es: seq<EdgeRef>)
  {
    && NoDups(es)
    && (forall e :: e in es ==> e.id in w.s.edges && e == RefOf(e.id, w.s.edges[e.id]))
    && forall id :: id in w.s.edges ==>
         (RefOf(id, w.s.edges[id]) in es <==>
          if v == Null then false
          else if IsIndexable(v) then IndexAccess.RelMatches(w.s, on, v, id)
          else w.s.edges[id].typ == on.owner && on.key in w.s.edges[id].props
               && Equality(w.s.edges[id].props[on.key], v) == True)
  }

  /** A relationship seek finds exactly the relationships of the type whose property equals the value. */
  lemma RelSeekScans(w: World, typ: nat, key: nat, t: Term, seek: Row -> seq<EdgeRef>)
    requires w.Ok() && forall b :: LooksUpRels(w, Pair(typ, key), Eval(w, t, b), seek(b))
    ensures SeekOk(w, typ, key, t, seek)
  {
    GivenEdges(w.s);
    hide Consistent, Equality, Compare.QueryEqual, Eval;
    forall b ensures NoDups(seek(b)) && forall e :: e in seek(b) <==> SeekFinds(w, typ, key, t, b, e) {
      var v := Eval(w, t, b);
      assert LooksUpRels(w, Pair(typ, key), v, seek(b));
      forall e ensures e in seek(b) <==> SeekFinds(w, typ, key, t, b, e) {
        if e.id in w.s.edges && key in w.s.edges[e.id].props {
          var p := w.s.edges[e.id].props[key];
          NullEquals(p);
          if IsIndexable(v) && v != Null {
            ScalarEquality(p, v);
          }
        }
      }
    }
  }

  // ----- The adjacency keyspaces of a store -----

  /** The `o` and `i` entries of a consistent store, listed in any order, mirror each other. */
  lemma StoredAdjacency(s: Store, g: Adj)
    requires Consistent(s) && NoDups(g.outKeys) && NoDups(g.inKeys)
    requires (forall e :: e in g.outKeys <==> e in s.outs) && forall e :: e in g.inKeys <==> e in s.ins
    ensures g.Valid()
  {
    GivenEdges(s);
    hide Consistent;
  }
}
