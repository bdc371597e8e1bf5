/**
 * How a match starts: rows joined with the rows of a leaf that binds a node,
 * a relationship with both its ends, or nothing new.
 */
module Anchors {
  import opened Seqs
  import opened Adjacency
  import opened PlanRows
  import opened Chain
  import Operators

  /** Each row joined with the rows its leaf has for it. */
  ghost function Joined(rows: seq<Row>, leaf: Row -> seq<Row>): seq<Row>
  {
    if rows == [] then [] else Operators.Merged(rows[0], leaf(rows[0])) + Joined(rows[1..], leaf)
  }

  /** A leaf that does not look at the row is a Cartesian product. */
  lemma {:induction false} JoinedIsProduct(rows: seq<Row>, rs: seq<Row>)
    ensures Joined(rows, b => rs) == Operators.Product(rows, rs)
  {
    if rows != [] {
      JoinedIsProduct(rows[1..], rs);
    }
  }

  /** A leaf that does is a plain Apply over a product with the single outer row. */
  lemma {:induction false} JoinedIsApply(rows: seq<Row>, leaf: Row -> seq<Row>)
    ensures Operators.Applied(Operators.Stream(rows, false),
                              b => Operators.Stream(Operators.Product([b], leaf(b)), false), [], true)
            == Operators.Stream(Joined(rows, leaf), false)
    decreases |rows|
  {
    if rows != [] {
      JoinedIsApply(rows[1..], leaf);
      var b := rows[0];
      assert [b][1..] == [];
      assert Operators.Product([b], leaf(b)) == Operators.Merged(b, leaf(b)) + [];
    }
  }

  // ----- Counting joined rows -----

  /** The leaf binds exactly these variables, and these of them to nodes. */
  ghost predicate LeafFits(leaf: Row -> seq<Row>, l: set<Var>, nodes: set<Var>)
  {
    forall b, r :: r in leaf(b) ==> r.Keys == l && forall v :: v in nodes ==> IsNode(r, v)
  }

  lemma MergeInverse(b: Row, r: Row, d: set<Var>, l: set<Var>, w: Row)
    requires b.Keys == d && r.Keys == l && d !! l
    ensures b + r == w <==> w.Keys == d + l && b == Narrow(w, d) && r == Narrow(w, l)
  {
    var x := b + r;
    assert x.Keys == d + l;
    assert Narrow(x, d) == b && Narrow(x, l) == r;
    if w.Keys == d + l && b == Narrow(w, d) && r == Narrow(w, l) {
      forall v | v in w ensures v in x && x[v] == w[v] {
        if v in l {
          assert r[v] == w[v];
        } else {
          assert b[v] == w[v];
        }
      }
      assert x == w;
    }
  }

  lemma MergedSteps(b: Row, rs: seq<Row>)
    ensures Operators.Merged(b, rs) == if rs == [] then [] else [b + rs[0]] + Operators.Merged(b, rs[1..])
  {
  }

  lemma {:induction false} MergedCount(b: Row, rs: seq<Row>, d: set<Var>, l: set<Var>, w: Row)
    requires b.Keys == d && d !! l && forall r :: r in rs ==> r.Keys == l
    ensures multiset(Operators.Merged(b, rs))[w] ==
            if w.Keys == d + l && b == Narrow(w, d) then multiset(rs)[Narrow(w, l)] else 0
  {
    hide Narrow, Operators.Merged;
    MergedSteps(b, rs);
    if rs != [] {
      var r, rest := rs[0], rs[1..];
      assert rs == [r] + rest;
      MergedCount(b, rest, d, l, w);
      MergeInverse(b, r, d, l, w);
      assert multiset(rs) == multiset{r} + multiset(rest);
      assert multiset(Operators.Merged(b, rs)) == multiset{b + r} + multiset(Operators.Merged(b, rest));
    }
  }

  ghost function MergeBy(leaf: Row -> seq<Row>): Row -> seq<Row>
  {
    b => Operators.Merged(b, leaf(b))
  }

  lemma {:induction false} JoinedFlat(rows: seq<Row>, leaf: Row -> seq<Row>)
    ensures Joined(rows, leaf) == Flat(rows, MergeBy(leaf))
  {
    hide Operators.Merged;
    if rows != [] {
      JoinedFlat(rows[1..], leaf);
    }
  }

  lemma JoinedCount(rows: seq<Row>, leaf: Row -> seq<Row>, d: set<Var>, l: set<Var>, n: set<Var>, w: Row)
    requires Uniform(rows, d, {}) && LeafFits(leaf, l, n) && d !! l
    ensures multiset(Joined(rows, leaf))[w] ==
            if w.Keys == d + l then multiset(rows)[Narrow(w, d)] * multiset(leaf(Narrow(w, d)))[Narrow(w, l)] else 0
  {
    hide Narrow, Operators.Merged, Joined;
    JoinedFlat(rows, leaf);
    var k := Narrow(w, d);
    var c := if w.Keys == d + l then multiset(leaf(k))[Narrow(w, l)] else 0;
    forall b | b in rows ensures multiset(MergeBy(leaf)(b))[w] == if b == k then c else 0 {
      MergedCount(b, leaf(b), d, l, w);
    }
    FlatCount(rows, MergeBy(leaf), w, k, c);
  }

  lemma {:induction false} MergedUniform(b: Row, rs: seq<Row>, d: set<Var>, l: set<Var>, n0: set<Var>, n: set<Var>)
    requires b.Keys == d && d !! l && n0 <= d && (forall v :: v in n0 ==> IsNode(b, v))
    requires forall r :: r in rs ==> r.Keys == l && forall v :: v in n ==> IsNode(r, v)
    ensures Uniform(Operators.Merged(b, rs), d + l, n0 + n)
  {
    if rs != [] {
      MergedUniform(b, rs[1..], d, l, n0, n);
      var x := b + rs[0];
      assert rs[0] in rs && x.Keys == d + l;
      assert forall v :: v in n0 + n ==> IsNode(x, v);
    }
  }

  lemma {:induction false} JoinedUniform(rows: seq<Row>, leaf: Row -> seq<Row>, d: set<Var>, l: set<Var>, n0: set<Var>,
                                         n: set<Var>)
    requires Uniform(rows, d, n0) && LeafFits(leaf, l, n) && d !! l && n0 <= d
    ensures Uniform(Joined(rows, leaf), d + l, n0 + n)
  {
    if rows != [] {
      JoinedUniform(rows[1..], leaf, d, l, n0, n);
      MergedUniform(rows[0], leaf(rows[0]), d, l, n0, n);
    }
  }

  // ----- The leaves -----

  /** A node scan: one row per id. */
  function NodeRows(v: Var, ids: seq<nat>): seq<Row>
  {
    if ids == [] then [] else [map[v := Some(N(ids[0]))]] + NodeRows(v, ids[1..])
  }

  lemma {:induction false} NodeRowsCount(v: Var, ids: seq<nat>, r: Row)
    requires r.Keys == {v}
    ensures multiset(NodeRows(v, ids))[r] == if IsNode(r, v) then multiset(ids)[NodeAt(r, v)] else 0
  {
    if ids != [] {
      assert ids == [ids[0]] + ids[1..];
      NodeRowsCount(v, ids[1..], r);
      assert r == map[v := Some(N(ids[0]))] <==> r[v] == Some(N(ids[0]));
    }
  }

  lemma {:induction false} NodeRowsFit(v: Var, ids: seq<nat>)
    ensures forall r :: r in NodeRows(v, ids) ==> r.Keys == {v} && IsNode(r, v)
  {
    if ids != [] {
      NodeRowsFit(v, ids[1..]);
    }
  }

  /** The row of a sought relationship read from one end to the other. */
  function EdgeRow(h: Hop, e: EdgeRef, a: nat, b: nat): Row
  {
    map[h.rel := Some(R(e))][h.from := Some(N(a))][h.to := Some(N(b))]
  }

  /** The rows of one relationship: outgoing reading first; a pattern (a)-[r]-(a) keeps self-loops only. */
  function Readings(h: Hop, e: EdgeRef): seq<Row>
  {
    if h.from == h.to && e.src != e.dst then []
    else
      (if h.follow.out then [EdgeRow(h, e, e.src, e.dst)] else []) +
      (if h.follow.inc then [EdgeRow(h, e, e.dst, e.src)] else [])
  }

  function EdgeRows(h: Hop, es: seq<EdgeRef>): seq<Row>
  {
    if es == [] then [] else Readings(h, es[0]) + EdgeRows(h, es[1..])
  }

  /** Directions in which the relationship is read from a to b. */
  function Directions(f: Follow, a: nat, e: EdgeRef, b: nat): nat
  {
    (if f.out && e.src == a && e.dst == b then 1 else 0) + (if f.inc && e.dst == a && e.src == b then 1 else 0)
  }

  lemma EdgeRowIs(h: Hop, e: EdgeRef, a: nat, b: nat, r: Row)
    requires h.rel != h.from && h.rel != h.to && r.Keys == {h.rel, h.from, h.to} && (h.from == h.to ==> a == b)
    ensures r == EdgeRow(h, e, a, b) <==>
            r[h.rel] == Some(R(e)) && r[h.from] == Some(N(a)) && r[h.to] == Some(N(b))
  {
    assert EdgeRow(h, e, a, b).Keys == {h.rel, h.from, h.to};
  }

  lemma ReadingsCount(h: Hop, e: EdgeRef, r: Row)
    requires h.rel != h.from && h.rel != h.to && r.Keys == {h.rel, h.from, h.to}
    ensures multiset(Readings(h, e))[r] ==
            if IsNode(r, h.from) && IsNode(r, h.to) && r[h.rel] == Some(R(e))
            then Directions(h.follow, NodeAt(r, h.from), e, NodeAt(r, h.to)) else 0
  {
    hide EdgeRow;
    if h.from != h.to || e.src == e.dst {
      EdgeRowIs(h, e, e.src, e.dst, r);
      EdgeRowIs(h, e, e.dst, e.src, r);
    }
  }

  lemma {:induction false} EdgeRowsCount(h: Hop, es: seq<EdgeRef>, r: Row)
    requires h.rel != h.from && h.rel != h.to && r.Keys == {h.rel, h.from, h.to}
    ensures multiset(EdgeRows(h, es))[r] ==
            if IsNode(r, h.from) && IsNode(r, h.to) && IsEdge(r, h.rel)
            then multiset(es)[r[h.rel].value.e] *
                 Directions(h.follow, NodeAt(r, h.from), r[h.rel].value.e, NodeAt(r, h.to))
            else 0
  {
    hide Readings, Directions;
    if es != [] {
      var e, rest := es[0], es[1..];
      assert es == [e] + rest;
      EdgeRowsCount(h, rest, r);
      ReadingsCount(h, e, r);
      if IsNode(r, h.from) && IsNode(r, h.to) && IsEdge(r, h.rel) {
        var x := r[h.rel].value.e;
        MoreTimes(multiset(rest)[x], Directions(h.follow, NodeAt(r, h.from), x, NodeAt(r, h.to)));
      }
    }
  }

  lemma {:induction false} EdgeRowsFit(h: Hop, es: seq<EdgeRef>)
    requires h.rel != h.from && h.rel != h.to
    ensures forall r :: r in EdgeRows(h, es) ==>
              r.Keys == {h.rel, h.from, h.to} && IsNode(r, h.from) && IsNode(r, h.to)
  {
    if es != [] {
      EdgeRowsFit(h, es[1..]);
    }
  }

  // ----- A whole chain -----

  /** The rows of a chain started by a leaf that binds nodes lo to hi. */
  ghost function ChainRows(g: Adj, p: Shape, rows: seq<Row>, leaf: Row -> seq<Row>, d0: set<Var>, n0: set<Var>,
                           l: set<Var>, n: set<Var>, lo: nat, hi: nat): seq<Row>
    requires Starts(p, rows, leaf, d0, n0, l, n, lo, hi)
  {
    JoinedUniform(rows, leaf, d0, l, n0, n);
    HopsFromFit(p, d0, n0, lo, hi);
    RunHops(g, Joined(rows, leaf), HopsFrom(p, d0, lo, hi), d0 + l, n0 + n)
  }

  /** The leaf binds what the hops start from. */
  ghost predicate Starts(p: Shape, rows: seq<Row>, leaf: Row -> seq<Row>, d0: set<Var>, n0: set<Var>,
                         l: set<Var>, n: set<Var>, lo: nat, hi: nat)
  {
    && p.Valid() && Chain.Before(p, d0, n0) && lo <= hi <= |p.rels|
    && Uniform(rows, d0, n0) && LeafFits(leaf, l, n) && d0 !! l
    && d0 + l == Done(p, d0, lo, hi) && n0 + n == DoneNodes(p, n0, lo, hi)
  }

  lemma ChainCount(g: Adj, p: Shape, rows: seq<Row>, leaf: Row -> seq<Row>, d0: set<Var>, n0: set<Var>,
                   l: set<Var>, n: set<Var>, lo: nat, hi: nat, w: Row)
    requires g.Valid() && Starts(p, rows, leaf, d0, n0, l, n, lo, hi)
    ensures multiset(ChainRows(g, p, rows, leaf, d0, n0, l, n, lo, hi))[w] ==
            if w.Keys == d0 + AllVars(p)
            then multiset(rows)[Narrow(w, d0)] *
                 (multiset(leaf(Narrow(w, d0)))[Narrow(w, l)] * Product(g, w, HopsFrom(p, d0, lo, hi)))
            else 0
  {
    hide Joined, RunHops, HopsFit, HopsFrom, Product, Narrow, Done, DoneNodes;
    JoinedUniform(rows, leaf, d0, l, n0, n);
    HopsFromFit(p, d0, n0, lo, hi);
    var hops := HopsFrom(p, d0, lo, hi);
    RunHopsCount(g, Joined(rows, leaf), hops, d0 + l, n0 + n, w);
    BoundGrows(d0 + l, hops);
    if w.Keys == d0 + AllVars(p) {
      NarrowTwice(w, d0 + l, d0);
      NarrowTwice(w, d0 + l, l);
      JoinedCount(rows, leaf, d0, l, n, Narrow(w, d0 + l));
      Regroup(multiset(rows)[Narrow(w, d0)], multiset(leaf(Narrow(w, d0)))[Narrow(w, l)], Product(g, w, hops));
    }
  }
}
