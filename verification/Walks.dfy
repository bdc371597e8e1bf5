/**
 * Walks over an adjacency, and one side of a breadth-first search: what the
 * depth and predecessor tables of a side say about walks from its start.
 */
module Walks {
  import opened Seqs
  import opened Adjacency

  /** rels[i] joins nodes[i] and nodes[i+1]. */
  datatype Path = Path(nodes: seq<nat>, rels: seq<EdgeRef>)

  ghost predicate IsWalk(g: Adj, f: Follow, p: Path)
  {
    && |p.nodes| == |p.rels| + 1
    && forall i :: 0 <= i < |p.rels| ==> Step(g, f, p.nodes[i], p.rels[i], p.nodes[i+1])
  }

  ghost predicate Joins(g: Adj, f: Follow, p: Path, a: nat, b: nat)
  {
    IsWalk(g, f, p) && p.nodes[0] == a && p.nodes[|p.rels|] == b
  }

  function Prefix(p: Path, k: nat): Path
    requires |p.nodes| == |p.rels| + 1 && k <= |p.rels|
  {
    Path(p.nodes[..k+1], p.rels[..k])
  }

  function Suffix(p: Path, k: nat): Path
    requires |p.nodes| == |p.rels| + 1 && k <= |p.rels|
  {
    Path(p.nodes[k..], p.rels[k..])
  }

  function Backwards<T>(s: seq<T>): (r: seq<T>)
    ensures |r| == |s|
    ensures forall i :: 0 <= i < |s| ==> r[i] == s[|s| - 1 - i]
  {
    seq(|s|, i requires 0 <= i < |s| => s[|s| - 1 - i])
  }

  function Reversed(p: Path): Path
  {
    Path(Backwards(p.nodes), Backwards(p.rels))
  }

  /** A walk read from its end is a walk along the reversed directions. */
  lemma ReversedWalk(g: Adj, f: Follow, p: Path)
    requires IsWalk(g, f, p)
    ensures IsWalk(g, Reverse(f), Reversed(p))
  {
    var q := Reversed(p);
    forall i | 0 <= i < |q.rels| ensures Step(g, Reverse(f), q.nodes[i], q.rels[i], q.nodes[i+1]) {
      var k := |p.rels| - 1 - i;
      assert Step(g, f, p.nodes[k], p.rels[k], p.nodes[k+1]);
    }
  }

  lemma ReversedTwice(p: Path)
    ensures Reversed(Reversed(p)) == p
  {
    assert Backwards(Backwards(p.nodes)) == p.nodes;
    assert Backwards(Backwards(p.rels)) == p.rels;
  }

  function Extend(p: Path, e: EdgeRef, m: nat): Path
  {
    Path(p.nodes + [m], p.rels + [e])
  }

  /** How a search reached a node: from prev, over edge. */
  datatype Pred = Pred(prev: nat, edge: EdgeRef)

  /** The tables of one side of the search. */
  datatype Side = Side(start: nat, follow: Follow, level: nat, depth: map<nat, nat>,
                       preds: map<nat, seq<Pred>>, frontier: seq<nat>)
  {
    function PredsOf(m: nat): seq<Pred>
    {
      if m in preds then preds[m] else []
    }

    /** Predecessors are one level up, so following them ends. */
    ghost predicate WellFounded()
    {
      forall m, p :: m in depth && p in PredsOf(m) ==> p.prev in depth && depth[p.prev] < depth[m]
    }

    /** The search is complete up to its level; see ShortestWalk for what that means. */
    ghost predicate Complete(g: Adj)
    {
      && start in depth && depth[start] == 0
      && (forall m :: m in depth ==> depth[m] <= level && (depth[m] == 0 ==> m == start))
      && NoDups(frontier)
      && (forall m :: m in frontier <==> m in depth && depth[m] == level)
      && (forall m :: m in preds ==> m in depth)
      && (forall m, p :: m in depth ==> (p in PredsOf(m) <==> IsPred(g, m, p)))
      && (forall m :: m in depth && m != start ==> PredsOf(m) != [])
      && Closed(g)
    }

    ghost predicate IsPred(g: Adj, m: nat, p: Pred)
      requires m in depth
    {
      p.prev in depth && depth[p.prev] + 1 == depth[m] && Step(g, follow, p.prev, p.edge, m)
    }

    ghost predicate Closed(g: Adj)
    {
      forall a, e, b :: a in depth && depth[a] < level && Step(g, follow, a, e, b) ==>
                          b in depth && depth[b] <= depth[a] + 1
    }

    /** No predecessor is listed twice. */
    ghost predicate PredsOnce()
    {
      forall m :: m in preds ==> NoDups(preds[m])
    }
  }

  /** A walk of at most level hops ends at a node no deeper than the walk is long. */
  lemma {:induction false} WithinLevel(g: Adj, s: Side, p: Path)
    requires s.Complete(g)
    requires IsWalk(g, s.follow, p) && p.nodes[0] == s.start && |p.rels| <= s.level
    ensures p.nodes[|p.rels|] in s.depth && s.depth[p.nodes[|p.rels|]] <= |p.rels|
    decreases |p.rels|
  {
    var k := |p.rels|;
    if k > 0 {
      var q := Prefix(p, k - 1);
      WithinLevel(g, s, q);
      assert q.nodes[k-1] == p.nodes[k-1];
      assert Step(g, s.follow, p.nodes[k-1], p.rels[k-1], p.nodes[k]);
    }
  }

  /** An empty frontier means that the search reached everything reachable. */
  lemma {:induction false} Exhausted(g: Adj, s: Side, p: Path)
    requires s.Complete(g) && s.frontier == []
    requires IsWalk(g, s.follow, p) && p.nodes[0] == s.start
    ensures p.nodes[|p.rels|] in s.depth
    decreases |p.rels|
  {
    var k := |p.rels|;
    if k > 0 {
      var q := Prefix(p, k - 1);
      Exhausted(g, s, q);
      var a := q.nodes[k-1];
      assert a == p.nodes[k-1] && a in s.depth && a !in s.frontier;
      assert Step(g, s.follow, a, p.rels[k-1], p.nodes[k]);
    }
  }

  /** The walks from the start to m that the predecessor tables spell out. */
  function WalksTo(s: Side, m: nat, one: bool): seq<Path>
    requires s.WellFounded() && m in s.depth
    decreases s.depth[m], 1, 0
  {
    var ps := s.PredsOf(m);
    if ps == [] then [Path([m], [])]
    else WalksVia(s, m, if one then ps[..1] else ps, one)
  }

  function WalksVia(s: Side, m: nat, ps: seq<Pred>, one: bool): seq<Path>
    requires s.WellFounded() && m in s.depth
    requires forall p :: p in ps ==> p in s.PredsOf(m)
    decreases s.depth[m], 0, |ps|
  {
    if ps == [] then []
    else
      assert ps[0] in ps;
      ExtendAll(WalksTo(s, ps[0].prev, one), ps[0].edge, m) + WalksVia(s, m, ps[1..], one)
  }

  function ExtendAll(ws: seq<Path>, e: EdgeRef, m: nat): (r: seq<Path>)
    ensures |r| == |ws| && forall i :: 0 <= i < |ws| ==> r[i] == Extend(ws[i], e, m)
  {
    seq(|ws|, i requires 0 <= i < |ws| => Extend(ws[i], e, m))
  }

  lemma {:induction false} WalksViaMember(s: Side, m: nat, ps: seq<Pred>, one: bool, w: Path)
    requires s.WellFounded() && m in s.depth
    requires forall p :: p in ps ==> p in s.PredsOf(m)
    ensures w in WalksVia(s, m, ps, one) <==>
            exists p, v :: p in ps && p.prev in s.depth && v in WalksTo(s, p.prev, one) && w == Extend(v, p.edge, m)
    decreases |ps|
  {
    if ps != [] {
      var p := ps[0];
      assert p in ps;
      var head := WalksTo(s, p.prev, one);
      WalksViaMember(s, m, ps[1..], one, w);
      if w in ExtendAll(head, p.edge, m) {
        var i :| 0 <= i < |head| && ExtendAll(head, p.edge, m)[i] == w;
        assert head[i] in WalksTo(s, p.prev, one);
      }
      forall v | v in head && w == Extend(v, p.edge, m) ensures w in ExtendAll(head, p.edge, m) {
        var i :| 0 <= i < |head| && head[i] == v;
        assert ExtendAll(head, p.edge, m)[i] == w;
      }
    }
  }

  /** Every listed walk is a walk to m of exactly its depth. */
  lemma {:induction false} WalksToSound(g: Adj, s: Side, m: nat, one: bool, w: Path)
    requires s.Complete(g) && s.WellFounded() && m in s.depth
    requires w in WalksTo(s, m, one)
    ensures Joins(g, s.follow, w, s.start, m) && |w.rels| == s.depth[m]
    decreases s.depth[m]
  {
    hide Joins, Step, Side.Complete, Side.IsPred, WalksVia, Extend;
    var ps := s.PredsOf(m);
    if ps != [] {
      var qs := if one then ps[..1] else ps;
      assert forall p :: p in qs ==> p in ps;
      WalksViaMember(s, m, qs, one, w);
      var p, v :| p in qs && p.prev in s.depth && v in WalksTo(s, p.prev, one) && w == Extend(v, p.edge, m);
      ListedPred(g, s, m, p);
      GivenPred(g, s, m, p);
      WalksToSound(g, s, p.prev, one, v);
      ExtendJoins(g, s.follow, v, s.start, p.prev, p.edge, m);
    } else {
      NoPreds(g, s, m);
    }
  }

  lemma GivenPred(g: Adj, s: Side, m: nat, p: Pred)
    requires m in s.depth && s.IsPred(g, m, p)
    ensures p.prev in s.depth && s.depth[p.prev] + 1 == s.depth[m] && Step(g, s.follow, p.prev, p.edge, m)
  {
  }

  lemma ListedPred(g: Adj, s: Side, m: nat, p: Pred)
    requires s.Complete(g) && m in s.depth && p in s.PredsOf(m)
    ensures s.IsPred(g, m, p)
  {
  }

  lemma NoPreds(g: Adj, s: Side, m: nat)
    requires s.Complete(g) && m in s.depth && s.PredsOf(m) == []
    ensures m == s.start && s.depth[m] == 0 && Joins(g, s.follow, Path([m], []), s.start, m)
  {
  }

  lemma ExtendJoins(g: Adj, f: Follow, v: Path, a: nat, b: nat, e: EdgeRef, c: nat)
    requires Joins(g, f, v, a, b) && Step(g, f, b, e, c)
    ensures Joins(g, f, Extend(v, e, c), a, c) && |Extend(v, e, c).rels| == |v.rels| + 1
  {
    var w := Extend(v, e, c);
    forall i | 0 <= i < |w.rels| ensures Step(g, f, w.nodes[i], w.rels[i], w.nodes[i+1]) {
      if i < |v.rels| {
        assert Step(g, f, v.nodes[i], v.rels[i], v.nodes[i+1]);
      }
    }
  }

  /** Every walk to m of exactly its depth is listed. */
  lemma {:induction false} WalksToComplete(g: Adj, s: Side, m: nat, w: Path)
    requires s.Complete(g) && s.WellFounded() && m in s.depth
    requires Joins(g, s.follow, w, s.start, m) && |w.rels| == s.depth[m]
    ensures w in WalksTo(s, m, false)
    decreases s.depth[m]
  {
    var k := |w.rels|;
    if k == 0 {
      assert m == s.start && w == Path([m], []);
      assert forall p :: p in s.PredsOf(m) ==> s.IsPred(g, m, p);
    } else {
      var v := Prefix(w, k - 1);
      var a := w.nodes[k-1];
      var p := Pred(a, w.rels[k-1]);
      assert Step(g, s.follow, a, p.edge, m);
      WithinLevel(g, s, v);
      assert v.nodes[k-1] == a;
      assert a in s.depth && s.depth[a] + 1 == s.depth[m];
      assert s.IsPred(g, m, p);
      WalksToComplete(g, s, a, v);
      assert w == Extend(v, p.edge, m);
      WalksViaMember(s, m, s.PredsOf(m), false, w);
    }
  }

  /** Each walk is listed once when each predecessor is. */
  lemma {:induction false} WalksToOnce(s: Side, m: nat)
    requires s.WellFounded() && s.PredsOnce() && m in s.depth
    ensures NoDups(WalksTo(s, m, false))
    decreases s.depth[m], 1, 0
  {
    if s.PredsOf(m) != [] {
      WalksViaOnce(s, m, s.PredsOf(m));
    }
  }

  lemma {:induction false} WalksViaOnce(s: Side, m: nat, ps: seq<Pred>)
    requires s.WellFounded() && s.PredsOnce() && m in s.depth
    requires NoDups(ps) && forall p :: p in ps ==> p in s.PredsOf(m)
    ensures NoDups(WalksVia(s, m, ps, false))
    decreases s.depth[m], 0, |ps|
  {
    if ps != [] {
      var p, rest := ps[0], ps[1..];
      assert p in ps;
      var ws := WalksTo(s, p.prev, false);
      WalksToOnce(s, p.prev);
      ExtendAllOnce(ws, p.edge, m);
      WalksViaOnce(s, m, rest);
      forall w | w in ExtendAll(ws, p.edge, m) ensures w !in WalksVia(s, m, rest, false) {
        NotViaOthers(s, m, p, rest, w);
      }
      NoDupsConcat(ExtendAll(ws, p.edge, m), WalksVia(s, m, rest, false));
    }
  }

  lemma ExtendAllOnce(ws: seq<Path>, e: EdgeRef, m: nat)
    requires NoDups(ws)
    ensures NoDups(ExtendAll(ws, e, m))
  {
    forall i, j | 0 <= i < j < |ws| ensures ExtendAll(ws, e, m)[i] != ExtendAll(ws, e, m)[j] {
      ExtendInjective(ws[i], e, ws[j], e, m);
    }
  }

  /** The last hop of a walk tells which predecessor it came through. */
  lemma NotViaOthers(s: Side, m: nat, p: Pred, rest: seq<Pred>, w: Path)
    requires s.WellFounded() && m in s.depth && p in s.PredsOf(m) && p !in rest
    requires forall q :: q in rest ==> q in s.PredsOf(m)
    requires w in ExtendAll(WalksTo(s, p.prev, false), p.edge, m)
    ensures w !in WalksVia(s, m, rest, false)
  {
    var ws := WalksTo(s, p.prev, false);
    var i :| 0 <= i < |ws| && ExtendAll(ws, p.edge, m)[i] == w;
    EndsAt(s, p.prev, ws[i]);
    if w in WalksVia(s, m, rest, false) {
      WalksViaMember(s, m, rest, false, w);
      var q, v :| q in rest && q.prev in s.depth && v in WalksTo(s, q.prev, false) && w == Extend(v, q.edge, m);
      ExtendInjective(ws[i], p.edge, v, q.edge, m);
      EndsAt(s, q.prev, v);
    }
  }

  lemma ExtendInjective(u: Path, e: EdgeRef, v: Path, d: EdgeRef, m: nat)
    ensures Extend(u, e, m) == Extend(v, d, m) ==> u == v && e == d
  {
    if Extend(u, e, m) == Extend(v, d, m) {
      assert u.nodes == (u.nodes + [m])[..|u.nodes|] == v.nodes;
      assert u.rels == (u.rels + [e])[..|u.rels|] == v.rels;
      assert e == (u.rels + [e])[|u.rels|] == d;
    }
  }

  lemma {:induction false} EndsAt(s: Side, m: nat, w: Path)
    requires s.WellFounded() && m in s.depth
    requires w in WalksTo(s, m, false)
    ensures w.nodes != [] && w.nodes[|w.nodes|-1] == m
  {
    if s.PredsOf(m) != [] {
      WalksViaMember(s, m, s.PredsOf(m), false, w);
    }
  }

  /** Keeping only the first predecessor picks one of the walks. */
  lemma {:induction false} WalksToOne(s: Side, m: nat)
    requires s.WellFounded() && m in s.depth
    ensures |WalksTo(s, m, true)| == 1
    decreases s.depth[m]
  {
    var ps := s.PredsOf(m);
    if ps != [] {
      var first := ps[..1];
      assert first[0] == ps[0] && ps[0] in ps;
      WalksToOne(s, ps[0].prev);
      assert WalksVia(s, m, first[1..], true) == [];
      assert WalksVia(s, m, first, true) ==
             ExtendAll(WalksTo(s, ps[0].prev, true), ps[0].edge, m) + WalksVia(s, m, first[1..], true);
    }
  }
}
