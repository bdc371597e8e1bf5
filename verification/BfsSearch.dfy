/**
 * The imperative search: the mutable tables of the two sides, the expansion
 * of a layer, and the driver, proved against the walks of module Walks.
 */
module BfsSearch {
  import opened Seqs
  import opened Adjacency
  import opened Walks
  import opened ShortestPath

  class BfsSide {
    var depth: map<nat, nat>
    var preds: map<nat, seq<Pred>>
    var frontier: seq<nat>
    var level: nat
    const start: nat
    const follow: Follow

    ghost function View(): Side
      reads this
    {
      Side(start, follow, level, depth, preds, frontier)
    }

    ghost predicate Valid(g: Adj)
      reads this
    {
      View().Complete(g) && View().WellFounded() && (DistinctTypes(follow) ==> View().PredsOnce())
    }

    constructor (start: nat, follow: Follow)
      ensures View() == Side(start, follow, 0, map[start := 0], map[], [start])
      ensures forall g :: Valid(g)
    {
      this.start := start;
      this.follow := follow;
      this.level := 0;
      this.depth := map[start := 0];
      this.preds := map[];
      this.frontier := [start];
    }

    /** The switch inside the loop over a node's edges. */
    method Visit(p: Pred)
      modifies this
      ensures View() == Relax(old(View()), p)
    {
      var m := p.edge.src;
      if m == p.prev {
        m := p.edge.dst;
      }
      if m == p.prev {
        return;
      }
      if m !in depth {
        depth := depth[m := level];
        frontier := frontier + [m];
      } else if depth[m] != level {
        return;
      }
      preds := preds[m := (if m in preds then preds[m] else []) + [p]];
    }

    /** Looks at every edge of one frontier node. */
    method VisitNode(g: Adj, n: nat)
      modifies this
      ensures View() == RelaxEdges(old(View()), n, Neighbors(g, n, follow))
    {
      hide Neighbors, Relax;
      var edges := Neighbors(g, n, follow);
      for j := 0 to |edges|
        invariant View() == RelaxEdges(old(View()), n, edges[..j])
      {
        assert edges[..j+1][..j] == edges[..j];
        Visit(Pred(n, edges[j]));
      }
      assert edges[..|edges|] == edges;
    }

    /**
     * Advances by one layer and returns the new nodes that the other side
     * knows, at its smallest depth.
     */
    method Expand(g: Adj, other: BfsSide) returns (meet: seq<nat>)
      requires g.Valid() && Valid(g) && other != this
      modifies this
      ensures Valid(g) && View() == NextLayer(g, old(View()))
      ensures Nearest(frontier, other.depth, meet)
    {
      ghost var begun := Opened(View());
      NextLayerComplete(g, View());
      var layer := frontier;
      level := level + 1;
      frontier := [];
      for i := 0 to |layer|
        invariant View() == RelaxNodes(g, begun, layer[..i])
      {
        assert layer[..i+1][..i] == layer[..i];
        VisitNode(g, layer[i]);
      }
      assert layer[..|layer|] == layer;
      meet := KeepNearest(frontier, other.depth);
    }

    /** The walks to m as the tables spell them out. */
    method ListWalks(m: nat, one: bool) returns (ws: seq<Path>)
      requires View().WellFounded() && m in depth
      ensures ws == WalksTo(View(), m, one)
      decreases depth[m], 1
    {
      var ps := if m in preds then preds[m] else [];
      if |ps| == 0 {
        return [Path([m], [])];
      }
      if one {
        ps := ps[..1];
      }
      ws := ListVia(m, ps, one);
    }

    method ListVia(m: nat, ps: seq<Pred>, one: bool) returns (ws: seq<Path>)
      requires View().WellFounded() && m in depth
      requires forall p :: p in ps ==> p in View().PredsOf(m)
      ensures ws == WalksVia(View(), m, ps, one)
      decreases depth[m], 0
    {
      ghost var s := View();
      ws := [];
      for i := 0 to |ps|
        invariant ws + WalksVia(s, m, ps[i..], one) == WalksVia(s, m, ps, one)
      {
        WalksViaAt(s, m, ps, i, one, ws);
        var shorter := ListWalks(ps[i].prev, one);
        ws := ws + ExtendAll(shorter, ps[i].edge, m);
      }
    }
  }

  lemma WalksViaAt(s: Side, m: nat, ps: seq<Pred>, i: nat, one: bool, ws: seq<Path>)
    requires s.WellFounded() && m in s.depth && i < |ps|
    requires forall p :: p in ps ==> p in s.PredsOf(m)
    ensures ps[i].prev in s.depth && s.depth[ps[i].prev] < s.depth[m]
    ensures ws + WalksVia(s, m, ps[i..], one) ==
            ws + ExtendAll(WalksTo(s, ps[i].prev, one), ps[i].edge, m) + WalksVia(s, m, ps[i+1..], one)
  {
    assert ps[i..][1..] == ps[i+1..] && ps[i] in ps;
  }

  method KeepNearest(next: seq<nat>, depth: map<nat, nat>) returns (meet: seq<nat>)
    requires NoDups(next)
    ensures Nearest(next, depth, meet)
  {
    var best: int := -1;
    meet := [];
    for i := 0 to |next|
      invariant Nearest(next[..i], depth, meet)
      invariant best < 0 <==> meet == []
      invariant forall m :: m in meet ==> depth[m] == best
    {
      var m := next[i];
      assert next[..i+1] == next[..i] + [m];
      assert meet != [] ==> meet[0] in meet;
      if m in depth {
        if best < 0 || depth[m] < best {
          best, meet := depth[m], [m];
        } else if depth[m] == best {
          meet := meet + [m];
        }
      }
    }
    assert next[..|next|] == next;
  }

  /** Appends the tail, read from its end, to the head. */
  method ConcatPaths(head: Path, tail: Path) returns (p: Path)
    requires |tail.nodes| == |tail.rels| + 1
    ensures p == Concat(head, tail)
  {
    p := head;
    var i := |tail.rels|;
    while i > 0
      invariant 0 <= i <= |tail.rels|
      invariant p.rels == head.rels + Backwards(tail.rels[i..])
      invariant p.nodes == head.nodes + Backwards(tail.nodes[i..|tail.rels|])
    {
      i := i - 1;
      assert Backwards(tail.rels[i..]) == Backwards(tail.rels[i+1..]) + [tail.rels[i]];
      assert Backwards(tail.nodes[i..|tail.rels|]) == Backwards(tail.nodes[i+1..|tail.rels|]) + [tail.nodes[i]];
      p := Path(p.nodes + [tail.nodes[i]], p.rels + [tail.rels[i]]);
    }
    assert tail.rels[0..] == tail.rels && tail.nodes[0..|tail.rels|] == tail.nodes[..|tail.rels|];
  }

  ghost predicate Joinable(g: Adj, fwd: BfsSide, bwd: BfsSide, meet: seq<nat>)
    reads fwd, bwd
  {
    && Met(g, fwd.View(), bwd.View())
    && forall m :: m in meet ==> m in fwd.depth && m in bwd.depth && Walkish(WalksTo(bwd.View(), m, false))
  }

  /** With all unset, the first path found, of the ones JoinAll lists. */
  method JoinOne(g: Adj, fwd: BfsSide, bwd: BfsSide, meet: seq<nat>) returns (paths: seq<Path>)
    requires Joinable(g, fwd, bwd, meet)
    ensures |paths| == if meet == [] then 0 else 1
    ensures forall p :: p in paths ==>
                          Joins(g, fwd.follow, p, fwd.start, bwd.start) && |p.rels| == fwd.level + bwd.level
  {
    if meet == [] {
      return [];
    }
    var m := meet[0];
    var heads := fwd.ListWalks(m, true);
    var tails := bwd.ListWalks(m, true);
    FirstJoin(g, fwd.View(), bwd.View(), m);
    var p := ConcatPaths(heads[0], tails[0]);
    return [p];
  }

  /** Every head joined with every tail. */
  method JoinEvery(g: Adj, fwd: BfsSide, bwd: BfsSide, meet: seq<nat>) returns (paths: seq<Path>)
    requires Joinable(g, fwd, bwd, meet)
    ensures paths == JoinAll(fwd.View(), bwd.View(), meet)
  {
    ghost var f, b := fwd.View(), bwd.View();
    paths := [];
    for i := 0 to |meet|
      invariant paths + JoinAll(f, b, meet[i..]) == JoinAll(f, b, meet)
    {
      var heads := fwd.ListWalks(meet[i], false);
      var tails := bwd.ListWalks(meet[i], false);
      var joined := JoinProduct(heads, tails);
      JoinAllAt(f, b, meet, i, paths);
      paths := paths + joined;
    }
  }

  lemma JoinAllAt(f: Side, b: Side, meet: seq<nat>, i: nat, paths: seq<Path>)
    requires f.WellFounded() && b.WellFounded() && i < |meet|
    requires forall m :: m in meet ==> m in f.depth && m in b.depth && Walkish(WalksTo(b, m, false))
    ensures paths + JoinAll(f, b, meet[i..]) ==
            paths + JoinHeads(WalksTo(f, meet[i], false), WalksTo(b, meet[i], false)) + JoinAll(f, b, meet[i+1..])
  {
    assert meet[i..][1..] == meet[i+1..];
  }

  method JoinProduct(heads: seq<Path>, tails: seq<Path>) returns (paths: seq<Path>)
    requires Walkish(tails)
    ensures paths == JoinHeads(heads, tails)
  {
    paths := [];
    for i := 0 to |heads|
      invariant paths + JoinHeads(heads[i..], tails) == JoinHeads(heads, tails)
    {
      var joined := JoinWith(heads[i], tails);
      assert heads[i..][1..] == heads[i+1..];
      assert paths + (joined + JoinHeads(heads[i+1..], tails)) == paths + joined + JoinHeads(heads[i+1..], tails);
      paths := paths + joined;
    }
  }

  method JoinWith(h: Path, tails: seq<Path>) returns (paths: seq<Path>)
    requires Walkish(tails)
    ensures paths == JoinHead(h, tails)
  {
    paths := [];
    for j := 0 to |tails|
      invariant paths == JoinHead(h, tails)[..j]
    {
      assert tails[j] in tails;
      var p := ConcatPaths(h, tails[j]);
      paths := paths + [p];
    }
  }

  /** Both sides are valid and no node is known to both. */
  ghost predicate Searching(g: Adj, fwd: BfsSide, bwd: BfsSide)
    reads fwd, bwd
  {
    && g.Valid() && fwd != bwd && fwd.Valid(g) && bwd.Valid(g)
    && Opposed(fwd.View(), bwd.View()) && Apart(fwd.View(), bwd.View())
  }

  /** The paths joined where the searches met: all of them, or the first. */
  method JoinPaths(g: Adj, spec: PathSpec, fwd: BfsSide, bwd: BfsSide, meet: seq<nat>) returns (paths: seq<Path>)
    requires g.Valid() && fwd.Valid(g) && bwd.Valid(g) && fwd.follow == spec.follow
    requires Met(g, fwd.View(), bwd.View()) && MeetsAt(fwd.View(), bwd.View(), meet) && meet != []
    requires spec.maxHops < 0 || fwd.level + bwd.level <= spec.maxHops
    ensures forall p :: p in paths ==> IsShortest(g, spec, fwd.start, bwd.start, p)
    ensures paths != []
    ensures !spec.all ==> |paths| == 1
    ensures spec.all ==> forall p :: IsShortest(g, spec, fwd.start, bwd.start, p) ==> p in paths
    ensures spec.all && DistinctTypes(spec.follow) ==> NoDups(paths)
  {
    hide Joins, JoinAll, WalksTo, Walkish;
    AllTailsAreWalks(g, fwd.View(), bwd.View(), meet);
    if spec.all {
      paths := JoinEvery(g, fwd, bwd, meet);
      assert forall p :: p in paths <==> Joins(g, fwd.follow, p, fwd.start, bwd.start)
                                         && |p.rels| == fwd.level + bwd.level by {
        forall p { JoinedExactly(g, fwd.View(), bwd.View(), meet, p); }
      }
      JoinedSome(g, fwd.View(), bwd.View(), meet);
      assert paths[0] in paths;
      if DistinctTypes(spec.follow) {
        JoinedOnce(g, fwd.View(), bwd.View(), meet);
      }
    } else {
      paths := JoinOne(g, fwd, bwd, meet);
    }
  }

  /** How many layers the search can still open. */
  ghost function Room(g: Adj, fwd: BfsSide, bwd: BfsSide): nat
    reads fwd, bwd
  {
    var all := Ends(g) + {fwd.start, bwd.start};
    |all - fwd.depth.Keys| + |all - bwd.depth.Keys| + if fwd.frontier == [] || bwd.frontier == [] then 0 else 1
  }

  lemma RoomShrinks(all: set<nat>, was: set<nat>, now: set<nat>)
    requires was <= now <= all
    ensures |all - now| <= |all - was|
    ensures was != now ==> |all - now| < |all - was|
  {
    assert all - was == (all - now) + (now - was);
  }

  /** Expands one side; the sides stay apart or have met. */
  method Advance(g: Adj, side: BfsSide, other: BfsSide) returns (meet: seq<nat>)
    requires Searching(g, side, other) && side.frontier != [] && other.frontier != []
    modifies side
    ensures side.Valid(g) && other.Valid(g) && Opposed(side.View(), other.View())
    ensures side.level == old(side.level) + 1
    ensures meet == [] ==> Searching(g, side, other) && Room(g, side, other) < old(Room(g, side, other))
    ensures meet != [] ==> Met(g, side.View(), other.View()) && MeetsAt(side.View(), other.View(), meet)
  {
    hide Side.Complete;
    ghost var before := side.View();
    NextLayerComplete(g, before);
    meet := side.Expand(g, other);
    AfterLayer(g, before, side.View(), other.View(), meet);
    ReachedNodesAreEnds(g, side.View());
    assert side.frontier != [] ==> side.frontier[0] in side.depth && side.frontier[0] !in before.depth;
    RoomShrinks(Ends(g) + {side.start, other.start}, before.depth.Keys, side.depth.Keys);
  }

  lemma BeyondLimit(g: Adj, spec: PathSpec, fwd: BfsSide, bwd: BfsSide)
    requires Searching(g, fwd, bwd) && fwd.follow == spec.follow
    requires 0 <= spec.maxHops < fwd.level + bwd.level + 1
    ensures forall p :: !IsShortest(g, spec, fwd.start, bwd.start, p)
  {
    forall p ensures !IsShortest(g, spec, fwd.start, bwd.start, p) {
      if IsShortest(g, spec, fwd.start, bwd.start, p) {
        ApartMeansLonger(g, fwd.View(), bwd.View(), p);
      }
    }
  }

  lemma RanDry(g: Adj, spec: PathSpec, fwd: BfsSide, bwd: BfsSide)
    requires Searching(g, fwd, bwd) && fwd.follow == spec.follow
    requires fwd.frontier == [] || bwd.frontier == []
    ensures forall p :: !IsShortest(g, spec, fwd.start, bwd.start, p)
  {
    forall p ensures !IsShortest(g, spec, fwd.start, bwd.start, p) {
      DryMeansNone(g, fwd.View(), bwd.View(), p);
    }
  }

  /** Which side advanced does not matter. */
  lemma Swapped(g: Adj, fwd: BfsSide, bwd: BfsSide, meet: seq<nat>)
    requires meet == [] ==> Searching(g, bwd, fwd)
    requires meet != [] ==> Met(g, bwd.View(), fwd.View()) && MeetsAt(bwd.View(), fwd.View(), meet)
    ensures meet == [] ==> Searching(g, fwd, bwd) && Room(g, fwd, bwd) == Room(g, bwd, fwd)
    ensures meet != [] ==> Met(g, fwd.View(), bwd.View()) && MeetsAt(fwd.View(), bwd.View(), meet)
  {
    if meet != [] {
      MetEitherWay(g, bwd.View(), fwd.View());
    } else {
      assert {fwd.start, bwd.start} == {bwd.start, fwd.start};
    }
  }

  lemma RoomEitherWay(g: Adj, fwd: BfsSide, bwd: BfsSide)
    ensures Room(g, fwd, bwd) == Room(g, bwd, fwd)
  {
    assert {fwd.start, bwd.start} == {bwd.start, fwd.start};
  }

  lemma SearchingEitherWay(g: Adj, fwd: BfsSide, bwd: BfsSide)
    requires Searching(g, fwd, bwd)
    ensures Searching(g, bwd, fwd) && g.Valid() && fwd.Valid(g) && bwd.Valid(g)
  {
  }

  /** The layered search proper, between two different nodes. */
  method Search(g: Adj, src: nat, dst: nat, spec: PathSpec) returns (paths: seq<Path>)
    requires g.Valid() && src != dst && spec.maxHops != 0
    ensures forall p :: p in paths ==> IsShortest(g, spec, src, dst, p)
    ensures paths == [] ==> forall p :: !IsShortest(g, spec, src, dst, p)
    ensures !spec.all ==> |paths| <= 1
    ensures spec.all ==> forall p :: IsShortest(g, spec, src, dst, p) ==> p in paths
    ensures spec.all && DistinctTypes(spec.follow) ==> NoDups(paths)
  {
    var fwd := new BfsSide(src, spec.follow);
    var bwd := new BfsSide(dst, Reverse(spec.follow));
    assert Searching(g, fwd, bwd);
    hide *;
    while |fwd.frontier| > 0 && |bwd.frontier| > 0
      invariant fresh(fwd) && fresh(bwd) && fwd.start == src && bwd.start == dst && fwd.follow == spec.follow
      invariant Searching(g, fwd, bwd)
      decreases Room(g, fwd, bwd)
    {
      if spec.maxHops > 0 && fwd.level + bwd.level + 1 > spec.maxHops {
        BeyondLimit(g, spec, fwd, bwd);
        return [];
      }
      var meet;
      if |bwd.frontier| < |fwd.frontier| {
        SearchingEitherWay(g, fwd, bwd);
        RoomEitherWay(g, fwd, bwd);
        meet := Advance(g, bwd, fwd);
        Swapped(g, fwd, bwd, meet);
      } else {
        meet := Advance(g, fwd, bwd);
      }
      if |meet| > 0 {
        paths := JoinPaths(g, spec, fwd, bwd, meet);
        return;
      }
    }
    RanDry(g, spec, fwd, bwd);
    return [];
  }

  lemma NoFirstHop(g: Adj, spec: PathSpec, src: nat, dst: nat, p: Path)
    requires src != dst && (spec.maxHops == 0 || spec.follow.types == Some([]))
    ensures !IsShortest(g, spec, src, dst, p)
  {
    if |p.rels| > 0 && |p.nodes| > 1 {
      assert spec.follow.types == Some([]) ==> !Step(g, spec.follow, p.nodes[0], p.rels[0], p.nodes[1]);
    }
  }

  /**
   * With all set the result is every shortest path, with it unset one of
   * them; either way it is empty only if there is none within the limit.
   */
  method ShortestPaths(g: Adj, src: nat, dst: nat, spec: PathSpec) returns (paths: seq<Path>)
    requires g.Valid()
    ensures src == dst ==> paths == if spec.minHops == 0 then [Path([src], [])] else []
    ensures src != dst ==> forall p :: p in paths ==> IsShortest(g, spec, src, dst, p)
    ensures src != dst && paths == [] ==> forall p :: !IsShortest(g, spec, src, dst, p)
    ensures src != dst && !spec.all ==> |paths| <= 1
    ensures src != dst && spec.all ==> forall p :: IsShortest(g, spec, src, dst, p) ==> p in paths
    ensures src != dst && spec.all && DistinctTypes(spec.follow) ==> NoDups(paths)
  {
    if src == dst {
      return if spec.minHops == 0 then [Path([src], [])] else [];
    }
    if spec.maxHops == 0 || spec.follow.types == Some([]) {
      forall p ensures !IsShortest(g, spec, src, dst, p) {
        NoFirstHop(g, spec, src, dst, p);
      }
      return [];
    }
    paths := Search(g, src, dst, spec);
  }
}
