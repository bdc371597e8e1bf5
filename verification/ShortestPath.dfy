/**
 * Bidirectional breadth-first search for shortest paths: one full layer at a
 * time from the smaller frontier, until the two searches meet.
 */
module ShortestPath {
  import opened Seqs
  import opened Adjacency
  import opened Walks

  /** minHops is 0 or 1; a negative maxHops means unbounded. */
  datatype PathSpec = PathSpec(follow: Follow, minHops: nat, maxHops: int, all: bool)

  ghost predicate WithinHops(spec: PathSpec, p: Path)
  {
    spec.maxHops < 0 || |p.rels| <= spec.maxHops
  }

  /** p is a shortest path from src to dst, and within the hop limit. */
  ghost predicate IsShortest(g: Adj, spec: PathSpec, src: nat, dst: nat, p: Path)
  {
    && Joins(g, spec.follow, p, src, dst)
    && WithinHops(spec, p)
    && forall q :: Joins(g, spec.follow, q, src, dst) ==> |p.rels| <= |q.rels|
  }

  // ----- One layer -----

  /** The layer being built holds the new nodes; earlier layers stay as they were. */
  ghost predicate Layered(before: Side, now: Side)
  {
    && now.start == before.start && now.follow == before.follow && now.level == before.level + 1
    && NoDups(now.frontier)
    && (forall m :: m in before.frontier ==> m in before.depth)
    && (forall m :: m in before.depth ==> m in now.depth && now.depth[m] == before.depth[m] < now.level)
    && (forall m :: m in now.frontier <==> m in now.depth && m !in before.depth)
    && (forall m :: m in now.frontier ==> now.depth[m] == now.level)
  }

  /** The new nodes list exactly the pairs looked at that lead to them. */
  ghost predicate Listed(before: Side, now: Side, done: set<Pred>)
  {
    && (forall m :: m in before.depth ==> now.PredsOf(m) == before.PredsOf(m))
    && (forall m :: m in now.preds ==> m in now.depth)
    && (forall m, p :: m in now.frontier ==>
                         (p in now.PredsOf(m) <==> p in done && OtherEnd(p.edge, p.prev) == m))
    && (forall m :: m in now.frontier ==> now.PredsOf(m) != [])
  }

  ghost predicate Followed(g: Adj, before: Side, now: Side, done: set<Pred>)
  {
    forall p :: p in done ==> p.prev in before.frontier
                              && Step(g, before.follow, p.prev, p.edge, OtherEnd(p.edge, p.prev))
                              && OtherEnd(p.edge, p.prev) in now.depth
  }

  /**
   * The state inside the expansion of one layer: every pair (n, edge) in
   * done has been looked at, nothing else has.
   */
  ghost predicate Expanding(g: Adj, before: Side, now: Side, done: set<Pred>)
  {
    Layered(before, now) && Listed(before, now, done) && Followed(g, before, now, done)
  }

  function AddPred(s: Side, m: nat, p: Pred): Side
  {
    s.(preds := s.preds[m := s.PredsOf(m) + [p]])
  }

  /** What the search does with one edge at a frontier node. */
  function Relax(s: Side, p: Pred): Side
  {
    var m := OtherEnd(p.edge, p.prev);
    if m == p.prev then s
    else if m !in s.depth then AddPred(s.(depth := s.depth[m := s.level], frontier := s.frontier + [m]), m, p)
    else if s.depth[m] != s.level then s
    else AddPred(s, m, p)
  }

  lemma RelaxLayers(before: Side, now: Side, p: Pred)
    requires Layered(before, now) && p.prev in before.frontier
    ensures Layered(before, Relax(now, p))
    ensures OtherEnd(p.edge, p.prev) in Relax(now, p).depth
    ensures forall m :: m in now.depth ==> m in Relax(now, p).depth
  {
  }

  /** Appending a pair to the list of the new node it leads to. */
  lemma AddPredLists(before: Side, now: Side, done: set<Pred>, p: Pred)
    requires Listed(before, now, done)
    requires OtherEnd(p.edge, p.prev) in now.frontier && OtherEnd(p.edge, p.prev) !in before.depth
    requires forall m :: m in now.frontier ==> m in now.depth
    ensures Listed(before, AddPred(now, OtherEnd(p.edge, p.prev), p), done + {p})
  {
    var m := OtherEnd(p.edge, p.prev);
    var next := AddPred(now, m, p);
    assert next.PredsOf(m) == now.PredsOf(m) + [p];
    assert forall k :: k != m ==> next.PredsOf(k) == now.PredsOf(k);
  }

  /** A node reached for the first time: its list is started with the pair that led to it. */
  lemma NewNodeLists(before: Side, now: Side, done: set<Pred>, p: Pred)
    requires Layered(before, now) && Listed(before, now, done)
    requires forall q :: q in done ==> OtherEnd(q.edge, q.prev) in now.depth
    requires OtherEnd(p.edge, p.prev) !in now.depth
    ensures Listed(before, Relax(now, p), done + {p}) || OtherEnd(p.edge, p.prev) == p.prev
  {
    var m := OtherEnd(p.edge, p.prev);
    if m != p.prev {
      var next := Relax(now, p);
      assert next.PredsOf(m) == [p];
      assert forall k :: k != m ==> next.PredsOf(k) == now.PredsOf(k);
    }
  }

  lemma RelaxLists(before: Side, now: Side, done: set<Pred>, p: Pred)
    requires Layered(before, now) && Listed(before, now, done) && p.prev in before.frontier
    requires forall q :: q in done ==> OtherEnd(q.edge, q.prev) in now.depth
    ensures Listed(before, Relax(now, p), done + {p})
  {
    var m := OtherEnd(p.edge, p.prev);
    if m !in now.depth {
      NewNodeLists(before, now, done, p);
    } else if m !in before.depth {
      AddPredLists(before, now, done, p);
    }
  }

  lemma RelaxKeeps(g: Adj, before: Side, now: Side, done: set<Pred>, p: Pred)
    requires Expanding(g, before, now, done) && p.prev in before.frontier
    requires Step(g, before.follow, p.prev, p.edge, OtherEnd(p.edge, p.prev))
    ensures Expanding(g, before, Relax(now, p), done + {p})
  {
    RelaxLayers(before, now, p);
    RelaxLists(before, now, done, p);
  }

  /** Relaxing a pair not yet seen keeps the predecessor lists free of duplicates. */
  lemma RelaxOnce(g: Adj, before: Side, now: Side, done: set<Pred>, p: Pred)
    requires Expanding(g, before, now, done) && now.PredsOnce()
    requires p.prev != OtherEnd(p.edge, p.prev) ==> p !in done
    ensures Relax(now, p).PredsOnce()
  {
    var m := OtherEnd(p.edge, p.prev);
    var next := Relax(now, p);
    forall k | k in next.preds ensures NoDups(next.preds[k]) {
      if k == m && next != now {
        assert p !in now.PredsOf(m);
        NoDupsAppend(now.PredsOf(m), p);
      }
    }
  }

  /** The pairs that one node contributes. */
  ghost function PairsAt(n: nat, edges: seq<EdgeRef>): set<Pred>
  {
    set e | e in edges :: Pred(n, e)
  }

  function RelaxEdges(s: Side, n: nat, edges: seq<EdgeRef>): Side
  {
    if edges == [] then s
    else Relax(RelaxEdges(s, n, edges[..|edges|-1]), Pred(n, edges[|edges|-1]))
  }

  /** Expanding, and with no predecessor listed twice unless a type is scanned twice. */
  ghost predicate Sound(g: Adj, before: Side, now: Side, done: set<Pred>)
  {
    Expanding(g, before, now, done) && (DistinctTypes(before.follow) ==> now.PredsOnce())
  }

  lemma RelaxNext(g: Adj, before: Side, now: Side, seen: set<Pred>, n: nat, k: nat)
    requires g.Valid() && Sound(g, before, now, seen) && n in before.frontier
    requires k < |Neighbors(g, n, before.follow)|
    requires forall p :: p in seen && p.prev == n ==> p.edge in Neighbors(g, n, before.follow)[..k]
    ensures var p := Pred(n, Neighbors(g, n, before.follow)[k]);
            Sound(g, before, Relax(now, p), seen + {p})
  {
    var all := Neighbors(g, n, before.follow);
    var e := all[k];
    hide Expanding, Side.PredsOnce, Neighbors;
    NeighborsAreSteps(g, n, before.follow, e);
    RelaxKeeps(g, before, now, seen, Pred(n, e));
    if DistinctTypes(before.follow) {
      if Pred(n, e) in seen {
        var i :| 0 <= i < k && all[i] == e;
        NeighborsOnce(g, n, before.follow, i, k);
      }
      RelaxOnce(g, before, now, seen, Pred(n, e));
    }
  }

  lemma {:induction false} RelaxEdgesKeeps(g: Adj, before: Side, s: Side, done: set<Pred>, n: nat, k: nat)
    requires g.Valid() && Sound(g, before, s, done) && n in before.frontier
    requires k <= |Neighbors(g, n, before.follow)|
    requires forall p :: p in done ==> p.prev != n
    ensures var edges := Neighbors(g, n, before.follow)[..k];
            Sound(g, before, RelaxEdges(s, n, edges), done + PairsAt(n, edges))
    decreases k
  {
    hide Sound, Neighbors;
    var all := Neighbors(g, n, before.follow);
    if k == 0 {
      assert done + PairsAt(n, []) == done;
    } else {
      RelaxEdgesKeeps(g, before, s, done, n, k - 1);
      var edges, e := all[..k-1], all[k-1];
      var now, seen := RelaxEdges(s, n, edges), done + PairsAt(n, edges);
      RelaxNext(g, before, now, seen, n, k - 1);
      assert all[..k][..k-1] == edges && all[..k][k-1] == e;
      assert seen + {Pred(n, e)} == done + PairsAt(n, all[..k]);
    }
  }

  function RelaxNodes(g: Adj, s: Side, nodes: seq<nat>): Side
  {
    if nodes == [] then s
    else
      var n := nodes[|nodes|-1];
      RelaxEdges(RelaxNodes(g, s, nodes[..|nodes|-1]), n, Neighbors(g, n, s.follow))
  }

  lemma {:induction false} RelaxNodesKeeps(g: Adj, before: Side, k: nat) returns (done: set<Pred>)
    requires g.Valid() && NoDups(before.frontier) && Sound(g, before, Opened(before), {})
    requires k <= |before.frontier|
    ensures Sound(g, before, RelaxNodes(g, Opened(before), before.frontier[..k]), done)
    ensures forall p :: p in done <==> p.prev in before.frontier[..k] && p.edge in Neighbors(g, p.prev, before.follow)
    decreases k
  {
    hide Sound, Neighbors;
    if k == 0 {
      done := {};
    } else {
      var nodes, n := before.frontier[..k-1], before.frontier[k-1];
      done := RelaxNodesKeeps(g, before, k - 1);
      var edges := Neighbors(g, n, before.follow);
      assert n !in nodes;
      RelaxEdgesKeeps(g, before, RelaxNodes(g, Opened(before), nodes), done, n, |edges|);
      assert edges[..|edges|] == edges;
      assert before.frontier[..k] == nodes + [n];
      assert before.frontier[..k][..k-1] == nodes;
      done := done + PairsAt(n, edges);
    }
  }

  /** The side at the moment a new layer is begun. */
  function Opened(s: Side): Side
  {
    s.(level := s.level + 1, frontier := [])
  }

  /** One whole layer: what the search knows when it has looked at every frontier node. */
  function NextLayer(g: Adj, s: Side): Side
  {
    RelaxNodes(g, Opened(s), s.frontier)
  }

  /** When every edge at the frontier has been looked at, the next level is complete. */
  lemma LayerDone(g: Adj, before: Side, now: Side, done: set<Pred>)
    requires g.Valid() && before.Complete(g) && before.WellFounded()
    requires Expanding(g, before, now, done)
    requires forall p: Pred :: p.prev in before.frontier && p.edge in Neighbors(g, p.prev, before.follow) ==> p in done
    ensures now.Complete(g) && now.WellFounded()
  {
    forall a, e, b | a in now.depth && now.depth[a] < now.level && Step(g, now.follow, a, e, b)
      ensures b in now.depth && now.depth[b] <= now.depth[a] + 1
    {
      if now.depth[a] == before.level {
        NeighborsAreSteps(g, a, before.follow, e);
        assert Pred(a, e) in done;
      }
    }
    forall m, p | m in now.depth ensures p in now.PredsOf(m) <==> now.IsPred(g, m, p) {
      if m in before.depth {
        assert p in before.PredsOf(m) <==> before.IsPred(g, m, p);
      } else if now.IsPred(g, m, p) {
        NeighborsAreSteps(g, p.prev, before.follow, p.edge);
        assert p in done;
      } else if p in done {
        assert p.prev in before.depth;
      }
    }
  }

  lemma NextLayerComplete(g: Adj, s: Side)
    requires g.Valid() && s.Complete(g) && s.WellFounded() && (DistinctTypes(s.follow) ==> s.PredsOnce())
    ensures NextLayer(g, s).Complete(g) && NextLayer(g, s).WellFounded()
    ensures DistinctTypes(s.follow) ==> NextLayer(g, s).PredsOnce()
    ensures Layered(s, NextLayer(g, s))
  {
    assert Sound(g, s, Opened(s), {});
    var done := RelaxNodesKeeps(g, s, |s.frontier|);
    assert s.frontier[..|s.frontier|] == s.frontier;
    LayerDone(g, s, NextLayer(g, s), done);
  }

  // ----- Where the two searches meet -----

  ghost predicate Opposed(fwd: Side, bwd: Side)
  {
    bwd.follow == Reverse(fwd.follow)
  }

  ghost predicate Apart(fwd: Side, bwd: Side)
  {
    forall m :: m in fwd.depth ==> m !in bwd.depth
  }

  /** A node that splits a walk within both levels is known to both sides. */
  lemma SplitsWalk(g: Adj, fwd: Side, bwd: Side, p: Path, i: nat)
    requires fwd.Complete(g) && bwd.Complete(g) && Opposed(fwd, bwd)
    requires Joins(g, fwd.follow, p, fwd.start, bwd.start)
    requires i <= |p.rels| && i <= fwd.level && |p.rels| - i <= bwd.level
    ensures p.nodes[i] in fwd.depth && fwd.depth[p.nodes[i]] <= i
    ensures p.nodes[i] in bwd.depth && bwd.depth[p.nodes[i]] <= |p.rels| - i
  {
    WithinLevel(g, fwd, Prefix(p, i));
    var tail := Suffix(p, i);
    ReversedWalk(g, fwd.follow, tail);
    WithinLevel(g, bwd, Reversed(tail));
  }

  /** While no node is known to both sides, every path is longer than the levels add up to. */
  lemma ApartMeansLonger(g: Adj, fwd: Side, bwd: Side, p: Path)
    requires fwd.Complete(g) && bwd.Complete(g) && Opposed(fwd, bwd) && Apart(fwd, bwd)
    requires Joins(g, fwd.follow, p, fwd.start, bwd.start)
    ensures |p.rels| > fwd.level + bwd.level
  {
    if |p.rels| <= fwd.level + bwd.level {
      SplitsWalk(g, fwd, bwd, p, if |p.rels| < fwd.level then |p.rels| else fwd.level);
    }
  }

  /** A search that has run dry while apart proves that there is no path. */
  lemma DryMeansNone(g: Adj, fwd: Side, bwd: Side, p: Path)
    requires fwd.Complete(g) && bwd.Complete(g) && Opposed(fwd, bwd) && Apart(fwd, bwd)
    requires fwd.frontier == [] || bwd.frontier == []
    ensures !Joins(g, fwd.follow, p, fwd.start, bwd.start)
  {
    if Joins(g, fwd.follow, p, fwd.start, bwd.start) {
      if fwd.frontier == [] {
        Exhausted(g, fwd, p);
      } else {
        ReversedWalk(g, fwd.follow, p);
        Exhausted(g, bwd, Reversed(p));
      }
    }
  }

  /** A head from src and a tail from dst, joined at their common last node. */
  function Concat(head: Path, tail: Path): Path
    requires |tail.nodes| == |tail.rels| + 1
  {
    Path(head.nodes + Backwards(tail.nodes[..|tail.rels|]), head.rels + Backwards(tail.rels))
  }

  lemma ConcatJoins(g: Adj, f: Follow, head: Path, tail: Path, src: nat, m: nat, dst: nat)
    requires Joins(g, f, head, src, m) && Joins(g, Reverse(f), tail, dst, m)
    ensures Joins(g, f, Concat(head, tail), src, dst)
  {
    var p := Concat(head, tail);
    var h, t := |head.rels|, |tail.rels|;
    forall i | 0 <= i < |p.rels| ensures Step(g, f, p.nodes[i], p.rels[i], p.nodes[i+1]) {
      if i < h {
        assert Step(g, f, head.nodes[i], head.rels[i], head.nodes[i+1]);
      } else {
        var k := t - 1 - (i - h);
        assert Step(g, Reverse(f), tail.nodes[k], tail.rels[k], tail.nodes[k+1]);
        assert p.rels[i] == tail.rels[k] && p.nodes[i+1] == tail.nodes[k];
        assert p.nodes[i] == tail.nodes[k+1];
      }
    }
  }

  lemma ConcatSplit(p: Path, k: nat)
    requires |p.nodes| == |p.rels| + 1 && k <= |p.rels|
    ensures Concat(Prefix(p, k), Reversed(Suffix(p, k))) == p
  {
    var tail := Reversed(Suffix(p, k));
    assert Backwards(tail.rels) == p.rels[k..];
    assert Backwards(tail.nodes[..|tail.rels|]) == p.nodes[k+1..];
    assert p.nodes[..k+1] + p.nodes[k+1..] == p.nodes;
    assert p.rels[..k] + p.rels[k..] == p.rels;
  }

  lemma ConcatParts(head: Path, tail: Path)
    requires |head.nodes| == |head.rels| + 1 && |tail.nodes| == |tail.rels| + 1
    requires head.nodes[|head.rels|] == tail.nodes[|tail.rels|]
    ensures Prefix(Concat(head, tail), |head.rels|) == head
    ensures Reversed(Suffix(Concat(head, tail), |head.rels|)) == tail
  {
    var p, k := Concat(head, tail), |head.rels|;
    assert p.nodes[..k+1] == head.nodes && p.rels[..k] == head.rels;
    assert Suffix(p, k).rels == Backwards(tail.rels);
    assert Suffix(p, k).nodes == Backwards(tail.nodes);
    ReversedTwice(tail);
  }

  /** The levels add up to the length of a shortest path and the sides have met. */
  ghost predicate Met(g: Adj, fwd: Side, bwd: Side)
  {
    && fwd.Complete(g) && bwd.Complete(g) && Opposed(fwd, bwd)
    && fwd.WellFounded() && bwd.WellFounded()
    && forall p :: Joins(g, fwd.follow, p, fwd.start, bwd.start) ==> |p.rels| >= fwd.level + bwd.level
  }

  /** When the sides have just met, a common node is on the last layer of both. */
  lemma CommonNodeIsOnLastLayers(g: Adj, fwd: Side, bwd: Side, m: nat)
    requires Met(g, fwd, bwd) && m in fwd.depth && m in bwd.depth
    ensures fwd.depth[m] == fwd.level && bwd.depth[m] == bwd.level
  {
    var h := AWalk(g, fwd, m);
    var t := AWalk(g, bwd, m);
    ConcatJoins(g, fwd.follow, h, t, fwd.start, m, bwd.start);
  }

  lemma AWalk(g: Adj, s: Side, m: nat) returns (w: Path)
    requires s.Complete(g) && s.WellFounded() && m in s.depth
    ensures w in WalksTo(s, m, true) && Joins(g, s.follow, w, s.start, m) && |w.rels| == s.depth[m]
  {
    WalksToOne(s, m);
    w := WalksTo(s, m, true)[0];
    WalksToSound(g, s, m, true, w);
  }

  lemma MetEitherWay(g: Adj, fwd: Side, bwd: Side)
    requires Met(g, fwd, bwd)
    ensures Met(g, bwd, fwd)
  {
    forall p | Joins(g, bwd.follow, p, bwd.start, fwd.start) ensures |p.rels| >= fwd.level + bwd.level {
      ReversedWalk(g, bwd.follow, p);
      assert Joins(g, fwd.follow, Reversed(p), fwd.start, bwd.start);
    }
  }

  /** meet lists, once each, the nodes of next that depth knows at the least depth. */
  ghost predicate Nearest(next: seq<nat>, depth: map<nat, nat>, meet: seq<nat>)
  {
    && NoDups(meet)
    && (forall m :: m in meet ==> m in next && m in depth)
    && (forall m :: m in next && m in depth ==> meet != [])
    && (forall m, k :: m in meet && k in next && k in depth ==>
                         depth[m] <= depth[k] && (depth[k] == depth[m] ==> k in meet))
  }

  /** The first head and the first tail at a common node join to a shortest path. */
  lemma FirstJoin(g: Adj, fwd: Side, bwd: Side, m: nat)
    requires Met(g, fwd, bwd) && m in fwd.depth && m in bwd.depth
    ensures var h, t := WalksTo(fwd, m, true), WalksTo(bwd, m, true);
            && |h| == |t| == 1 && Joins(g, Reverse(fwd.follow), t[0], bwd.start, m)
            && Joins(g, fwd.follow, Concat(h[0], t[0]), fwd.start, bwd.start)
            && |Concat(h[0], t[0]).rels| == fwd.level + bwd.level
  {
    hide Joins, WalksTo;
    WalksToOne(fwd, m);
    WalksToOne(bwd, m);
    var h, t := WalksTo(fwd, m, true), WalksTo(bwd, m, true);
    WalksToSound(g, fwd, m, true, h[0]);
    WalksToSound(g, bwd, m, true, t[0]);
    CommonNodeIsOnLastLayers(g, fwd, bwd, m);
    ConcatJoins(g, fwd.follow, h[0], t[0], fwd.start, m, bwd.start);
  }

  ghost predicate MeetsAt(fwd: Side, bwd: Side, meet: seq<nat>)
  {
    NoDups(meet) && forall m :: m in meet <==> m in fwd.depth && m in bwd.depth
  }

  /** After one more layer the sides are still apart, or they have met at exactly the nodes found. */
  lemma AfterLayer(g: Adj, before: Side, now: Side, other: Side, meet: seq<nat>)
    requires before.Complete(g) && other.Complete(g) && Opposed(before, other) && Apart(before, other)
    requires now.Complete(g) && now.WellFounded() && other.WellFounded()
    requires Layered(before, now) && Nearest(now.frontier, other.depth, meet)
    ensures meet == [] ==> Apart(now, other)
    ensures meet != [] ==> Met(g, now, other) && MeetsAt(now, other, meet)
  {
    if meet != [] {
      forall p | Joins(g, now.follow, p, now.start, other.start) ensures |p.rels| >= now.level + other.level {
        ApartMeansLonger(g, before, other, p);
      }
      assert Met(g, now, other);
      assert meet[0] in meet;
      forall m | m in now.depth && m in other.depth ensures m in meet {
        CommonNodeIsOnLastLayers(g, now, other, m);
        CommonNodeIsOnLastLayers(g, now, other, meet[0]);
      }
    }
  }

  /** The nodes an adjacency mentions. */
  ghost function Ends(g: Adj): set<nat>
  {
    (set e | e in g.outKeys :: e.src) + (set e | e in g.outKeys :: e.dst)
  }

  lemma ReachedNodesAreEnds(g: Adj, s: Side)
    requires s.Complete(g)
    ensures s.depth.Keys <= Ends(g) + {s.start}
  {
    forall m | m in s.depth.Keys ensures m in Ends(g) + {s.start} {
      if m != s.start {
        var p := s.PredsOf(m)[0];
        assert p in s.PredsOf(m) && s.IsPred(g, m, p);
      }
    }
  }

  // ----- Joining heads and tails -----

  ghost predicate Walkish(ws: seq<Path>)
  {
    forall w :: w in ws ==> |w.nodes| == |w.rels| + 1
  }

  function JoinHead(h: Path, tails: seq<Path>): (r: seq<Path>)
    requires Walkish(tails)
    ensures |r| == |tails| && forall i :: 0 <= i < |tails| ==> r[i] == Concat(h, tails[i])
  {
    seq(|tails|, i requires 0 <= i < |tails| => assert tails[i] in tails; Concat(h, tails[i]))
  }

  function JoinHeads(heads: seq<Path>, tails: seq<Path>): seq<Path>
    requires Walkish(tails)
  {
    if heads == [] then [] else JoinHead(heads[0], tails) + JoinHeads(heads[1..], tails)
  }

  /** Every head joined with every tail, meeting node by meeting node. */
  function JoinAll(fwd: Side, bwd: Side, meet: seq<nat>): seq<Path>
    requires fwd.WellFounded() && bwd.WellFounded()
    requires forall m :: m in meet ==> m in fwd.depth && m in bwd.depth && Walkish(WalksTo(bwd, m, false))
  {
    if meet == [] then []
    else
      assert meet[0] in meet;
      JoinHeads(WalksTo(fwd, meet[0], false), WalksTo(bwd, meet[0], false)) + JoinAll(fwd, bwd, meet[1..])
  }

  lemma {:induction false} JoinHeadsMember(heads: seq<Path>, tails: seq<Path>, p: Path)
    requires Walkish(tails)
    ensures p in JoinHeads(heads, tails) <==> exists h, t :: h in heads && t in tails && p == Concat(h, t)
  {
    if heads != [] {
      JoinHeadsMember(heads[1..], tails, p);
      var first := JoinHead(heads[0], tails);
      if p in first {
        var i :| 0 <= i < |first| && first[i] == p;
        assert heads[0] in heads && tails[i] in tails;
      }
      forall t | t in tails && p == Concat(heads[0], t) ensures p in first {
        var i :| 0 <= i < |tails| && tails[i] == t;
        assert first[i] == p;
      }
    }
  }

  lemma {:induction false} JoinAllMember(fwd: Side, bwd: Side, meet: seq<nat>, p: Path)
    requires fwd.WellFounded() && bwd.WellFounded()
    requires forall m :: m in meet ==> m in fwd.depth && m in bwd.depth && Walkish(WalksTo(bwd, m, false))
    ensures p in JoinAll(fwd, bwd, meet) <==>
            exists m :: m in meet && p in JoinHeads(WalksTo(fwd, m, false), WalksTo(bwd, m, false))
  {
    if meet != [] {
      JoinAllMember(fwd, bwd, meet[1..], p);
    }
  }

  lemma TailsAreWalks(g: Adj, s: Side, m: nat, one: bool)
    requires s.Complete(g) && s.WellFounded() && m in s.depth
    ensures Walkish(WalksTo(s, m, one))
  {
    forall w | w in WalksTo(s, m, one) ensures |w.nodes| == |w.rels| + 1 {
      WalksToSound(g, s, m, one, w);
    }
  }

  lemma AllTailsAreWalks(g: Adj, fwd: Side, bwd: Side, meet: seq<nat>)
    requires Met(g, fwd, bwd) && forall m :: m in meet ==> m in fwd.depth && m in bwd.depth
    ensures forall m :: m in meet ==> m in fwd.depth && m in bwd.depth && Walkish(WalksTo(bwd, m, false))
  {
    forall m | m in meet ensures Walkish(WalksTo(bwd, m, false)) {
      TailsAreWalks(g, bwd, m, false);
    }
  }

  /** A joined path splits, at the forward level, into the head and tail it was made of. */
  lemma JoinedSound(g: Adj, fwd: Side, bwd: Side, m: nat, h: Path, t: Path)
    requires Met(g, fwd, bwd) && m in fwd.depth && m in bwd.depth
    requires h in WalksTo(fwd, m, false) && t in WalksTo(bwd, m, false)
    ensures |t.nodes| == |t.rels| + 1
    ensures var p := Concat(h, t);
            && Joins(g, fwd.follow, p, fwd.start, bwd.start) && |p.rels| == fwd.level + bwd.level
            && p.nodes[fwd.level] == m && Prefix(p, fwd.level) == h && Reversed(Suffix(p, fwd.level)) == t
  {
    CommonNodeIsOnLastLayers(g, fwd, bwd, m);
    WalksToSound(g, fwd, m, false, h);
    WalksToSound(g, bwd, m, false, t);
    ConcatJoins(g, fwd.follow, h, t, fwd.start, m, bwd.start);
    ConcatParts(h, t);
  }

  lemma JoinedIsWalk(g: Adj, fwd: Side, bwd: Side, m: nat, p: Path)
    requires Met(g, fwd, bwd) && m in fwd.depth && m in bwd.depth && Walkish(WalksTo(bwd, m, false))
    requires p in JoinHeads(WalksTo(fwd, m, false), WalksTo(bwd, m, false))
    ensures Joins(g, fwd.follow, p, fwd.start, bwd.start) && |p.rels| == fwd.level + bwd.level
    ensures p.nodes[fwd.level] == m
  {
    JoinHeadsMember(WalksTo(fwd, m, false), WalksTo(bwd, m, false), p);
    var h, t :| h in WalksTo(fwd, m, false) && t in WalksTo(bwd, m, false) && p == Concat(h, t);
    JoinedSound(g, fwd, bwd, m, h, t);
  }

  lemma WalkIsJoined(g: Adj, fwd: Side, bwd: Side, p: Path)
    requires Met(g, fwd, bwd)
    requires Joins(g, fwd.follow, p, fwd.start, bwd.start) && |p.rels| == fwd.level + bwd.level
    ensures var m := p.nodes[fwd.level];
            && m in fwd.depth && m in bwd.depth && Walkish(WalksTo(bwd, m, false))
            && p in JoinHeads(WalksTo(fwd, m, false), WalksTo(bwd, m, false))
  {
    var k := fwd.level;
    var m := p.nodes[k];
    SplitsWalk(g, fwd, bwd, p, k);
    CommonNodeIsOnLastLayers(g, fwd, bwd, m);
    var h, t := Prefix(p, k), Reversed(Suffix(p, k));
    ReversedWalk(g, fwd.follow, Suffix(p, k));
    WalksToComplete(g, fwd, m, h);
    WalksToComplete(g, bwd, m, t);
    ConcatSplit(p, k);
    TailsAreWalks(g, bwd, m, false);
    JoinHeadsMember(WalksTo(fwd, m, false), WalksTo(bwd, m, false), p);
  }

  /** The joined paths are the walks as long as the levels add up to, no more and no fewer. */
  lemma JoinedExactly(g: Adj, fwd: Side, bwd: Side, meet: seq<nat>, p: Path)
    requires Met(g, fwd, bwd) && MeetsAt(fwd, bwd, meet)
    requires forall m :: m in meet ==> m in fwd.depth && m in bwd.depth && Walkish(WalksTo(bwd, m, false))
    ensures p in JoinAll(fwd, bwd, meet) <==>
            Joins(g, fwd.follow, p, fwd.start, bwd.start) && |p.rels| == fwd.level + bwd.level
  {
    JoinAllMember(fwd, bwd, meet, p);
    if p in JoinAll(fwd, bwd, meet) {
      var m :| m in meet && p in JoinHeads(WalksTo(fwd, m, false), WalksTo(bwd, m, false));
      JoinedIsWalk(g, fwd, bwd, m, p);
    }
    if Joins(g, fwd.follow, p, fwd.start, bwd.start) && |p.rels| == fwd.level + bwd.level {
      WalkIsJoined(g, fwd, bwd, p);
    }
  }

  /** Where the sides have met there is something to join. */
  lemma JoinedSome(g: Adj, fwd: Side, bwd: Side, meet: seq<nat>)
    requires Met(g, fwd, bwd) && MeetsAt(fwd, bwd, meet) && meet != []
    requires forall m :: m in meet ==> m in fwd.depth && m in bwd.depth && Walkish(WalksTo(bwd, m, false))
    ensures JoinAll(fwd, bwd, meet) != []
  {
    hide JoinAll, WalksTo;
    FirstJoin(g, fwd, bwd, meet[0]);
    JoinedExactly(g, fwd, bwd, meet, Concat(WalksTo(fwd, meet[0], true)[0], WalksTo(bwd, meet[0], true)[0]));
  }

  /** The joined path shows its two parts again. */
  ghost predicate Recovers(h: Path, t: Path, k: nat)
    requires |t.nodes| == |t.rels| + 1
  {
    var p := Concat(h, t);
    |p.nodes| == |p.rels| + 1 && k <= |p.rels| && Prefix(p, k) == h && Reversed(Suffix(p, k)) == t
  }

  ghost predicate AllRecover(heads: seq<Path>, tails: seq<Path>, k: nat)
    requires Walkish(tails)
  {
    forall h, t :: h in heads && t in tails ==> Recovers(h, t, k)
  }

  lemma OneHeadOnce(h: Path, tails: seq<Path>, k: nat)
    requires Walkish(tails) && NoDups(tails) && AllRecover([h], tails, k)
    ensures NoDups(JoinHead(h, tails))
  {
    hide Concat, Prefix, Suffix, Reversed;
    var r := JoinHead(h, tails);
    forall i, j | 0 <= i < j < |r| ensures r[i] != r[j] {
      assert tails[i] in tails && tails[j] in tails && h in [h];
      assert Recovers(h, tails[i], k) && Recovers(h, tails[j], k);
    }
  }

  lemma OtherHeads(h: Path, rest: seq<Path>, tails: seq<Path>, k: nat, p: Path)
    requires Walkish(tails) && AllRecover([h] + rest, tails, k) && h !in rest && p in JoinHead(h, tails)
    ensures p !in JoinHeads(rest, tails)
  {
    hide Concat, Prefix, Suffix, Reversed, JoinHeads;
    JoinHeadsMember(rest, tails, p);
    var i :| 0 <= i < |tails| && p == Concat(h, tails[i]);
    assert h in [h] + rest && Recovers(h, tails[i], k);
    forall g, t | g in rest && t in tails ensures p != Concat(g, t) {
      assert g in [h] + rest && Recovers(g, t, k);
    }
  }

  lemma {:induction false} JoinHeadsApart(heads: seq<Path>, tails: seq<Path>, k: nat)
    requires Walkish(tails) && NoDups(heads) && NoDups(tails) && AllRecover(heads, tails, k)
    ensures NoDups(JoinHeads(heads, tails))
  {
    hide Recovers, JoinHead;
    if heads != [] {
      var h, rest := heads[0], heads[1..];
      assert heads == [h] + rest;
      OneHeadOnce(h, tails, k);
      JoinHeadsApart(rest, tails, k);
      forall p | p in JoinHead(h, tails) ensures p !in JoinHeads(rest, tails) {
        OtherHeads(h, rest, tails, k, p);
      }
      NoDupsConcat(JoinHead(h, tails), JoinHeads(rest, tails));
    }
  }

  lemma JoinHeadsOnce(g: Adj, fwd: Side, bwd: Side, m: nat)
    requires Met(g, fwd, bwd) && m in fwd.depth && m in bwd.depth
    requires Walkish(WalksTo(bwd, m, false)) && NoDups(WalksTo(bwd, m, false)) && NoDups(WalksTo(fwd, m, false))
    ensures NoDups(JoinHeads(WalksTo(fwd, m, false), WalksTo(bwd, m, false)))
  {
    hide WalksTo, Concat, Joins, Side.Complete;
    var heads, tails := WalksTo(fwd, m, false), WalksTo(bwd, m, false);
    forall h, t | h in heads && t in tails ensures |t.nodes| == |t.rels| + 1 && Recovers(h, t, fwd.level) {
      JoinedSound(g, fwd, bwd, m, h, t);
      JoinedLength(g, fwd.follow, Concat(h, t), fwd.start, bwd.start);
    }
    JoinHeadsApart(heads, tails, fwd.level);
  }

  lemma JoinedLength(g: Adj, f: Follow, p: Path, a: nat, b: nat)
    requires Joins(g, f, p, a, b)
    ensures |p.nodes| == |p.rels| + 1
  {
  }

  /** No path is joined twice. */
  lemma {:induction false} JoinedOnce(g: Adj, fwd: Side, bwd: Side, meet: seq<nat>)
    requires Met(g, fwd, bwd) && fwd.PredsOnce() && bwd.PredsOnce() && NoDups(meet)
    requires forall m :: m in meet ==> m in fwd.depth && m in bwd.depth && Walkish(WalksTo(bwd, m, false))
    ensures NoDups(JoinAll(fwd, bwd, meet))
    decreases |meet|
  {
    if meet != [] {
      var m := meet[0];
      assert m in meet;
      WalksToOnce(fwd, m);
      WalksToOnce(bwd, m);
      JoinHeadsOnce(g, fwd, bwd, m);
      JoinedOnce(g, fwd, bwd, meet[1..]);
      var first := JoinHeads(WalksTo(fwd, m, false), WalksTo(bwd, m, false));
      forall p | p in first ensures p !in JoinAll(fwd, bwd, meet[1..]) {
        if p in JoinAll(fwd, bwd, meet[1..]) {
          JoinedIsWalk(g, fwd, bwd, m, p);
          JoinAllMember(fwd, bwd, meet[1..], p);
          var k :| k in meet[1..] && p in JoinHeads(WalksTo(fwd, k, false), WalksTo(bwd, k, false));
          JoinedIsWalk(g, fwd, bwd, k, p);
        }
      }
      NoDupsConcat(first, JoinAll(fwd, bwd, meet[1..]));
    }
  }

  // ----- What a shortest path is -----

  /** A node visited twice could be skipped, so a shortest path visits none twice. */
  lemma ShortestVisitsOnce(g: Adj, spec: PathSpec, src: nat, dst: nat, p: Path, i: nat, j: nat)
    requires IsShortest(g, spec, src, dst, p) && i < j < |p.nodes|
    ensures p.nodes[i] != p.nodes[j]
  {
    if p.nodes[i] == p.nodes[j] {
      var q := Path(p.nodes[..i] + p.nodes[j..], p.rels[..i] + p.rels[j..]);
      forall k | 0 <= k < |q.rels| ensures Step(g, spec.follow, q.nodes[k], q.rels[k], q.nodes[k+1]) {
        var o := if k < i then k else k + (j - i);
        assert Step(g, spec.follow, p.nodes[o], p.rels[o], p.nodes[o+1]);
      }
      assert Joins(g, spec.follow, q, src, dst);
    }
  }

  /** A shortest path is a trail: it repeats no relationship. */
  lemma ShortestIsTrail(g: Adj, spec: PathSpec, src: nat, dst: nat, p: Path)
    requires IsShortest(g, spec, src, dst, p)
    ensures NoDups(p.rels)
  {
    forall i, j | 0 <= i < j < |p.rels| ensures p.rels[i] != p.rels[j] {
      assert Step(g, spec.follow, p.nodes[i], p.rels[i], p.nodes[i+1]);
      assert Step(g, spec.follow, p.nodes[j], p.rels[j], p.nodes[j+1]);
      ShortestVisitsOnce(g, spec, src, dst, p, i, j + 1);
      ShortestVisitsOnce(g, spec, src, dst, p, i, j);
      ShortestVisitsOnce(g, spec, src, dst, p, i + 1, j + 1);
    }
  }
}
