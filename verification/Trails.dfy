/**
 * Variable-length expansion: which trails it returns and how often. A trail
 * is a walk that uses no relationship twice.
 */
module Trails {
  import opened Seqs
  import opened Adjacency
  import opened Walks

  /** A node reached, with the relationships taken to reach it. */
  datatype Hit = Hit(node: nat, edges: seq<EdgeRef>)

  const MAX_DEPTH: nat := 100

  predicate HasEdge(edges: seq<EdgeRef>, id: nat)
  {
    exists i :: 0 <= i < |edges| && edges[i].id == id
  }

  // ----- The reference -----

  ghost predicate OncePerEdge(edges: seq<EdgeRef>)
  {
    forall i, j :: 0 <= i < j < |edges| ==> edges[i].id != edges[j].id
  }

  /** The relationships lead from a to b along steps, none of them twice. */
  ghost predicate IsTrail(g: Adj, f: Follow, a: nat, edges: seq<EdgeRef>, b: nat)
  {
    OncePerEdge(edges) && exists nodes :: Joins(g, f, Path(nodes, edges), a, b)
  }

  /** Where the relationships lead from a. */
  function End(a: nat, edges: seq<EdgeRef>): nat
  {
    if edges == [] then a else OtherEnd(edges[|edges|-1], End(a, edges[..|edges|-1]))
  }

  /** How often the last relationship extends the ones before it. */
  ghost function Extensions(g: Adj, f: Follow, a: nat, edges: seq<EdgeRef>, e: EdgeRef): nat
  {
    if e in g.outKeys && !HasEdge(edges, e.id) then HitCount(f, a, e) else 0
  }

  /** How often the relationships are enumerated from a. */
  ghost function Weight(g: Adj, f: Follow, a: nat, edges: seq<EdgeRef>): nat
  {
    if edges == [] then 1
    else
      var before := edges[..|edges|-1];
      Weight(g, f, a, before) * Extensions(g, f, End(a, before), before, edges[|edges|-1])
  }

  // ----- Weights are about trails -----

  lemma Positive(w: nat, x: nat)
    ensures w * x > 0 <==> w > 0 && x > 0
  {
  }

  lemma ExtensionIsStep(g: Adj, f: Follow, m: nat, before: seq<EdgeRef>, e: EdgeRef)
    requires g.Valid()
    ensures Extensions(g, f, m, before, e) > 0 <==> !HasEdge(before, e.id) && Step(g, f, m, e, OtherEnd(e, m))
  {
    hide HitCount, HasEdge, Step, Neighbors;
    NeighborsAreSteps(g, m, f, e);
    NeighborsCount(g, m, f, e);
    assert e in Neighbors(g, m, f) <==> multiset(Neighbors(g, m, f))[e] > 0;
  }

  lemma {:induction false} WeightIsTrail(g: Adj, f: Follow, a: nat, edges: seq<EdgeRef>)
    requires g.Valid()
    ensures Weight(g, f, a, edges) > 0 <==> IsTrail(g, f, a, edges, End(a, edges))
  {
    hide Extensions, IsTrail, HasEdge, Step;
    if edges == [] {
      EmptyTrail(g, f, a);
    } else {
      var before, e := edges[..|edges|-1], edges[|edges|-1];
      var m := End(a, before);
      assert edges == before + [e];
      WeightIsTrail(g, f, a, before);
      ExtensionIsStep(g, f, m, before, e);
      Positive(Weight(g, f, a, before), Extensions(g, f, m, before, e));
      if Weight(g, f, a, edges) > 0 {
        TrailGrows(g, f, a, before, e, m);
      }
      if IsTrail(g, f, a, edges, End(a, edges)) {
        TrailShrinks(g, f, a, before, e, End(a, edges));
      }
    }
  }

  lemma EmptyTrail(g: Adj, f: Follow, a: nat)
    ensures IsTrail(g, f, a, [], a)
  {
    assert Joins(g, f, Path([a], []), a, a);
  }

  lemma TrailGrows(g: Adj, f: Follow, a: nat, before: seq<EdgeRef>, e: EdgeRef, m: nat)
    requires IsTrail(g, f, a, before, m) && !HasEdge(before, e.id) && Step(g, f, m, e, OtherEnd(e, m))
    ensures IsTrail(g, f, a, before + [e], OtherEnd(e, m))
  {
    var nodes :| Joins(g, f, Path(nodes, before), a, m);
    assert Joins(g, f, Path(nodes + [OtherEnd(e, m)], before + [e]), a, OtherEnd(e, m));
  }

  lemma TrailShrinks(g: Adj, f: Follow, a: nat, before: seq<EdgeRef>, e: EdgeRef, b: nat)
    requires g.Valid() && IsTrail(g, f, a, before + [e], b)
    ensures IsTrail(g, f, a, before, End(a, before)) && !HasEdge(before, e.id)
    ensures Step(g, f, End(a, before), e, b) && b == OtherEnd(e, End(a, before))
  {
    var edges := before + [e];
    var nodes :| Joins(g, f, Path(nodes, edges), a, b);
    var n := |before|;
    assert Step(g, f, nodes[n], edges[n], nodes[n+1]);
    assert forall i :: 0 <= i < n ==> before[i] == edges[i];
    assert Joins(g, f, Path(nodes[..n+1], before), a, nodes[n]) by {
      forall i | 0 <= i < n ensures Step(g, f, nodes[..n+1][i], before[i], nodes[..n+1][i+1]) {
        assert Step(g, f, nodes[i], edges[i], nodes[i+1]);
      }
    }
    assert OncePerEdge(before);
    EndIsEnd(g, f, a, before, nodes[n]);
    NeighborsAreSteps(g, nodes[n], f, e);
  }

  /** Relationships lead from a to one node only. */
  lemma {:induction false} EndIsEnd(g: Adj, f: Follow, a: nat, edges: seq<EdgeRef>, b: nat)
    requires g.Valid() && IsTrail(g, f, a, edges, b)
    ensures b == End(a, edges)
  {
    if edges != [] {
      var before, e := edges[..|edges|-1], edges[|edges|-1];
      assert edges == before + [e];
      var nodes :| Joins(g, f, Path(nodes, edges), a, b);
      var n := |before|;
      assert Step(g, f, nodes[n], edges[n], nodes[n+1]);
      assert Joins(g, f, Path(nodes[..n+1], before), a, nodes[n]) by {
        forall i | 0 <= i < n ensures Step(g, f, nodes[..n+1][i], before[i], nodes[..n+1][i+1]) {
          assert Step(g, f, nodes[i], edges[i], nodes[i+1]);
        }
      }
      EndIsEnd(g, f, a, before, nodes[n]);
      NeighborsAreSteps(g, nodes[n], f, e);
    }
  }

  /** With one direction and distinct types, every trail is enumerated once. */
  lemma {:induction false} DirectedOnce(g: Adj, f: Follow, a: nat, edges: seq<EdgeRef>)
    requires DistinctTypes(f) && !(f.out && f.inc)
    ensures Weight(g, f, a, edges) <= 1
  {
    if edges != [] {
      var before, e := edges[..|edges|-1], edges[|edges|-1];
      DirectedOnce(g, f, a, before);
      FollowTypeCount(f, e.typ);
      var w, x := Weight(g, f, a, before), Extensions(g, f, End(a, before), before, e);
      assert x <= 1;
      assert w == 0 || w == 1;
    }
  }

  ghost function Loops(edges: seq<EdgeRef>): nat
  {
    if edges == [] then 0
    else (if edges[|edges|-1].src == edges[|edges|-1].dst then 1 else 0) + Loops(edges[..|edges|-1])
  }

  ghost function Doubled(n: nat): nat
  {
    if n == 0 then 1 else 2 * Doubled(n - 1)
  }

  /** Without a direction, each self-loop on a trail doubles how often the trail is enumerated. */
  lemma {:induction false} UndirectedDoubles(g: Adj, f: Follow, a: nat, edges: seq<EdgeRef>)
    requires DistinctTypes(f) && f.out && f.inc && Weight(g, f, a, edges) > 0
    ensures Weight(g, f, a, edges) == Doubled(Loops(edges))
  {
    if edges != [] {
      var before, e := edges[..|edges|-1], edges[|edges|-1];
      var w, x := Weight(g, f, a, before), Extensions(g, f, End(a, before), before, e);
      Positive(w, x);
      UndirectedDoubles(g, f, a, before);
      FollowTypeCount(f, e.typ);
      assert x == if e.src == e.dst then 2 else 1;
    }
  }

  // ----- One level of the enumeration -----

  /** One element extended by each neighbour it has not used yet. */
  function Grow(x: Hit, nbs: seq<EdgeRef>): seq<Hit>
  {
    if nbs == [] then []
    else (if HasEdge(x.edges, nbs[0].id) then [] else [Hit(OtherEnd(nbs[0], x.node), x.edges + [nbs[0]])]) +
         Grow(x, nbs[1..])
  }

  function GrowAll(g: Adj, f: Follow, frontier: seq<Hit>): seq<Hit>
  {
    if frontier == [] then []
    else Grow(frontier[0], Neighbors(g, frontier[0].node, f)) + GrowAll(g, f, frontier[1..])
  }

  lemma {:induction false} GrowCount(x: Hit, nbs: seq<EdgeRef>, edges: seq<EdgeRef>, e: EdgeRef, n: nat)
    ensures multiset(Grow(x, nbs))[Hit(n, edges + [e])] ==
            if x.edges == edges && n == OtherEnd(e, x.node) && !HasEdge(edges, e.id) then multiset(nbs)[e] else 0
  {
    if nbs != [] {
      assert nbs == [nbs[0]] + nbs[1..];
      GrowCount(x, nbs[1..], edges, e, n);
      if x.edges + [nbs[0]] == edges + [e] {
        assert x.edges == (x.edges + [nbs[0]])[..|edges|] && edges == (edges + [e])[..|edges|];
        assert nbs[0] == (edges + [e])[|edges|] == e;
      }
    }
  }

  /** Elements with these relationships are all at the node they lead to. */
  ghost predicate EndsThere(frontier: seq<Hit>, a: nat)
  {
    forall x :: x in frontier ==> x.node == End(a, x.edges)
  }

  lemma GrowOneCount(g: Adj, f: Follow, a: nat, x: Hit, edges: seq<EdgeRef>, e: EdgeRef, n: nat)
    requires g.Valid() && x.node == End(a, x.edges)
    ensures multiset(Grow(x, Neighbors(g, x.node, f)))[Hit(n, edges + [e])] ==
            if x == Hit(End(a, edges), edges) && n == End(a, edges + [e])
            then Extensions(g, f, End(a, edges), edges, e) else 0
  {
    hide Grow, Neighbors, HitCount, End;
    EndStep(a, edges, e);
    GrowCount(x, Neighbors(g, x.node, f), edges, e, n);
    NeighborsCount(g, x.node, f, e);
  }

  lemma OneMore(k: nat, c: nat)
    ensures (k + 1) * c == k * c + c
  {
  }

  lemma {:induction false} GrowAllCount(g: Adj, f: Follow, a: nat, frontier: seq<Hit>, edges: seq<EdgeRef>, e: EdgeRef,
                                        n: nat)
    requires g.Valid() && EndsThere(frontier, a)
    ensures multiset(GrowAll(g, f, frontier))[Hit(n, edges + [e])] ==
            if n == End(a, edges + [e])
            then multiset(frontier)[Hit(End(a, edges), edges)] * Extensions(g, f, End(a, edges), edges, e) else 0
  {
    hide Grow, Neighbors, End, Extensions;
    if frontier != [] {
      var x, rest, m := frontier[0], frontier[1..], End(a, edges);
      assert frontier == [x] + rest;
      GrowAllCount(g, f, a, rest, edges, e, n);
      GrowOneCount(g, f, a, x, edges, e, n);
      OneMore(multiset(rest)[Hit(m, edges)], Extensions(g, f, m, edges, e));
      assert multiset(frontier) == multiset{x} + multiset(rest);
      assert multiset(frontier)[Hit(m, edges)] ==
             multiset(rest)[Hit(m, edges)] + if x == Hit(m, edges) then 1 else 0;
    }
  }

  lemma EndStep(a: nat, edges: seq<EdgeRef>, e: EdgeRef)
    ensures End(a, edges + [e]) == OtherEnd(e, End(a, edges))
  {
    assert (edges + [e])[..|edges|] == edges;
  }

  lemma {:induction false} GrowAllEnds(g: Adj, f: Follow, a: nat, frontier: seq<Hit>)
    requires EndsThere(frontier, a)
    ensures EndsThere(GrowAll(g, f, frontier), a)
    ensures forall x :: x in GrowAll(g, f, frontier) ==> x.edges != []
  {
    if frontier != [] {
      assert frontier == [frontier[0]] + frontier[1..];
      GrowAllEnds(g, f, a, frontier[1..]);
      GrowEnds(a, frontier[0], Neighbors(g, frontier[0].node, f));
    }
  }

  lemma {:induction false} GrowEnds(a: nat, x: Hit, nbs: seq<EdgeRef>)
    requires x.node == End(a, x.edges)
    ensures EndsThere(Grow(x, nbs), a)
    ensures forall y :: y in Grow(x, nbs) ==> y.edges != []
  {
    if nbs != [] {
      GrowEnds(a, x, nbs[1..]);
      EndStep(a, x.edges, nbs[0]);
    }
  }

  // ----- Counting a level -----

  /** The frontier holds every trail of length d, as often as its weight says. */
  ghost predicate Level(g: Adj, f: Follow, a: nat, d: nat, frontier: seq<Hit>)
  {
    && EndsThere(frontier, a)
    && forall n, edges :: multiset(frontier)[Hit(n, edges)] ==
                            if |edges| == d && n == End(a, edges) then Weight(g, f, a, edges) else 0
  }

  lemma FirstLevel(g: Adj, f: Follow, a: nat)
    ensures Level(g, f, a, 0, [Hit(a, [])])
  {
  }

  lemma NextLevel(g: Adj, f: Follow, a: nat, d: nat, frontier: seq<Hit>)
    requires g.Valid() && Level(g, f, a, d, frontier)
    ensures Level(g, f, a, d + 1, GrowAll(g, f, frontier))
  {
    hide End, Extensions;
    var next := GrowAll(g, f, frontier);
    GrowAllEnds(g, f, a, frontier);
    forall n, edges
      ensures multiset(next)[Hit(n, edges)] ==
              if |edges| == d + 1 && n == End(a, edges) then Weight(g, f, a, edges) else 0
    {
      if edges == [] {
        assert Hit(n, edges) !in next;
      } else {
        var before, e := edges[..|edges|-1], edges[|edges|-1];
        assert edges == before + [e];
        GrowAllCount(g, f, a, frontier, before, e, n);
        assert multiset(frontier)[Hit(End(a, before), before)] == if |before| == d then Weight(g, f, a, before) else 0;
      }
    }
  }

  /** hits holds the trails of lengths lo to hi - 1. */
  ghost predicate Counted(g: Adj, f: Follow, a: nat, lo: int, hi: int, hits: seq<Hit>)
  {
    forall n, edges :: multiset(hits)[Hit(n, edges)] ==
                         if lo <= |edges| < hi && n == End(a, edges) then Weight(g, f, a, edges) else 0
  }

  lemma CountedMore(g: Adj, f: Follow, a: nat, lo: int, d: nat, hits: seq<Hit>, level: seq<Hit>)
    requires Counted(g, f, a, lo, d, hits) && Level(g, f, a, d, level)
    ensures Counted(g, f, a, lo, d + 1, if d >= lo then hits + level else hits)
  {
    hide End, Weight;
  }

  /** Once a level is empty, every longer one is. */
  lemma {:induction false} NothingLonger(g: Adj, f: Follow, a: nat, d: nat, edges: seq<EdgeRef>)
    requires Level(g, f, a, d, []) && |edges| >= d
    ensures Weight(g, f, a, edges) == 0
    decreases |edges|
  {
    if |edges| == d {
      assert multiset([])[Hit(End(a, edges), edges)] == 0;
    } else {
      NothingLonger(g, f, a, d, edges[..|edges|-1]);
    }
  }

  lemma CountedRest(g: Adj, f: Follow, a: nat, lo: int, d: nat, hi: nat, hits: seq<Hit>)
    requires Counted(g, f, a, lo, d, hits) && Level(g, f, a, d, []) && d <= hi
    ensures Counted(g, f, a, lo, hi, hits)
  {
    hide End;
    forall n, edges
      ensures multiset(hits)[Hit(n, edges)] ==
              if lo <= |edges| < hi && n == End(a, edges) then Weight(g, f, a, edges) else 0
    {
      if |edges| >= d {
        NothingLonger(g, f, a, d, edges);
      }
    }
  }

  // ----- The enumeration -----

  /** A length within the bounds; absent ones are negative and stand for 1 and 100. */
  ghost predicate InRange(minHops: int, maxHops: int, len: nat)
  {
    (if minHops < 0 then 1 <= len else minHops <= len) && (if maxHops < 0 then len <= 100 else len <= maxHops)
  }

  method GrowElement(x: Hit, nbs: seq<EdgeRef>, collect: bool, next0: seq<Hit>, hits0: seq<Hit>)
    returns (next: seq<Hit>, hits: seq<Hit>)
    ensures next == next0 + Grow(x, nbs)
    ensures hits == if collect then hits0 + Grow(x, nbs) else hits0
  {
    hide HasEdge;
    next, hits := next0, hits0;
    for j := 0 to |nbs|
      invariant next + Grow(x, nbs[j..]) == next0 + Grow(x, nbs)
      invariant if collect then hits + Grow(x, nbs[j..]) == hits0 + Grow(x, nbs) else hits == hits0
    {
      var e := nbs[j];
      assert nbs[j..][1..] == nbs[j+1..];
      if !HasEdge(x.edges, e.id) {
        var y := Hit(OtherEnd(e, x.node), x.edges + [e]);
        assert forall s: seq<Hit> :: s + ([y] + Grow(x, nbs[j+1..])) == (s + [y]) + Grow(x, nbs[j+1..]);
        next := next + [y];
        if collect {
          hits := hits + [y];
        }
      }
    }
  }

  method GrowLevel(g: Adj, f: Follow, frontier: seq<Hit>, collect: bool, hits0: seq<Hit>)
    returns (next: seq<Hit>, hits: seq<Hit>)
    ensures next == GrowAll(g, f, frontier)
    ensures hits == if collect then hits0 + next else hits0
  {
    hide Grow, Neighbors;
    next, hits := [], hits0;
    for i := 0 to |frontier|
      invariant next + GrowAll(g, f, frontier[i..]) == GrowAll(g, f, frontier)
      invariant hits == if collect then hits0 + next else hits0
    {
      var x := frontier[i];
      assert frontier[i..][1..] == frontier[i+1..];
      next, hits := GrowElement(x, Neighbors(g, x.node, f), collect, next, hits);
    }
  }

  /**
   * Every trail from a whose length is in range, as often as scans and
   * directions enumerate it, and nothing else.
   */
  method Enumerate(g: Adj, f: Follow, a: nat, minHops: int, maxHops: int) returns (hits: seq<Hit>)
    requires g.Valid()
    ensures forall n, edges :: multiset(hits)[Hit(n, edges)] ==
              if InRange(minHops, maxHops, |edges|) && n == End(a, edges) then Weight(g, f, a, edges) else 0
  {
    hide End, Weight, Level, Counted, InRange;
    var minH: nat := if minHops < 0 then 1 else minHops;
    var maxH: nat := if maxHops < 0 then MAX_DEPTH else maxHops;
    hits := [];
    FirstLevel(g, f, a);
    NothingYet(g, f, a, minH);
    var frontier := [Hit(a, [])];
    CountedMore(g, f, a, minH, 0, hits, frontier);
    if minH <= 0 <= maxH {
      hits := hits + [Hit(a, [])];
    }
    if maxH == 0 {
      CountedInRange(g, f, a, minHops, maxHops, hits);
      return;
    }
    var d := 1;
    while d <= maxH
      invariant 1 <= d <= maxH + 1
      invariant Level(g, f, a, d - 1, frontier)
      invariant Counted(g, f, a, minH, d, hits)
    {
      NextLevel(g, f, a, d - 1, frontier);
      var next;
      ghost var before := hits;
      next, hits := GrowLevel(g, f, frontier, d >= minH, hits);
      CountedMore(g, f, a, minH, d, before, next);
      if next == [] {
        CountedRest(g, f, a, minH, d, maxH + 1, before);
        assert hits == before;
        CountedInRange(g, f, a, minHops, maxHops, hits);
        return;
      }
      frontier := next;
      d := d + 1;
    }
    CountedInRange(g, f, a, minHops, maxHops, hits);
  }

  lemma CountedInRange(g: Adj, f: Follow, a: nat, minHops: int, maxHops: int, hits: seq<Hit>)
    requires Counted(g, f, a, if minHops < 0 then 1 else minHops,
                     (if maxHops < 0 then MAX_DEPTH else maxHops) + 1, hits)
    ensures forall n, edges :: multiset(hits)[Hit(n, edges)] ==
              if InRange(minHops, maxHops, |edges|) && n == End(a, edges) then Weight(g, f, a, edges) else 0
  {
    hide End, Weight;
  }

  lemma NothingYet(g: Adj, f: Follow, a: nat, lo: nat)
    ensures Counted(g, f, a, lo, 0, [])
  {
  }

  /** Only trails are returned, and every trail in range is. */
  lemma ReturnsTrails(g: Adj, f: Follow, a: nat, minHops: int, maxHops: int, hits: seq<Hit>, n: nat,
                      edges: seq<EdgeRef>)
    requires g.Valid() && multiset(hits)[Hit(n, edges)] ==
                          if InRange(minHops, maxHops, |edges|) && n == End(a, edges) then Weight(g, f, a, edges) else 0
    ensures Hit(n, edges) in hits <==> InRange(minHops, maxHops, |edges|) && IsTrail(g, f, a, edges, n)
  {
    assert Hit(n, edges) in hits <==> multiset(hits)[Hit(n, edges)] > 0;
    WeightIsTrail(g, f, a, edges);
    if IsTrail(g, f, a, edges, n) {
      EndIsEnd(g, f, a, edges, n);
    }
  }

  /** A directed pattern with distinct types returns every trail exactly once. */
  lemma ReturnsOnce(g: Adj, f: Follow, a: nat, minHops: int, maxHops: int, hits: seq<Hit>)
    requires g.Valid() && DistinctTypes(f) && !(f.out && f.inc)
    requires forall n, edges :: multiset(hits)[Hit(n, edges)] ==
               if InRange(minHops, maxHops, |edges|) && n == End(a, edges) then Weight(g, f, a, edges) else 0
    ensures NoDups(hits)
  {
    hide End, Weight;
    forall i, j | 0 <= i < j < |hits| ensures hits[i] != hits[j] {
      var x := hits[i];
      DirectedOnce(g, f, a, x.edges);
      assert multiset(hits)[Hit(x.node, x.edges)] <= 1;
      if hits[i] == hits[j] {
        CountTwice(hits, i, j);
      }
    }
  }
}
