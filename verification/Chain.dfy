/**
 * Matching a chain of single-hop relationships from different starting
 * points: every order of expanding counts every row alike.
 */
module Chain {
  import opened Seqs
  import opened Adjacency
  import opened PlanRows

  /** The variables of a chain: rels[i] joins nodes[i] and nodes[i+1]; a node variable may repeat. */
  datatype Shape = Shape(nodes: seq<Var>, rels: seq<Var>, follows: seq<Follow>) {
    /** Relationship variables are distinct and no node has their name. */
    ghost predicate Valid()
    {
      && |nodes| == |rels| + 1 && |follows| == |rels|
      && NoDups(rels) && forall v :: v in nodes ==> v !in rels
    }
  }

  function VarsOf(vs: seq<Var>): set<Var>
  {
    set v | v in vs
  }

  function AllVars(p: Shape): set<Var>
  {
    VarsOf(p.nodes) + VarsOf(p.rels)
  }

  /** Relationship i as the pattern reads it. */
  ghost function Forward(p: Shape, i: nat): Hop
    requires p.Valid() && i < |p.rels|
  {
    Hop(p.nodes[i], p.rels[i], p.nodes[i+1], p.follows[i], false)
  }

  // ----- The hops the planner emits -----

  /** Expands from node i to the right end. */
  function Rightward(p: Shape, i: nat, d: set<Var>): seq<Hop>
    requires |p.nodes| == |p.rels| + 1 && |p.follows| == |p.rels| && i <= |p.rels|
    decreases |p.rels| - i
  {
    if i == |p.rels| then []
    else
      [Hop(p.nodes[i], p.rels[i], p.nodes[i+1], p.follows[i], p.nodes[i+1] in d)] +
      Rightward(p, i + 1, d + {p.rels[i], p.nodes[i+1]})
  }

  /** Expands from node i to the left end, against the pattern's directions. */
  function Leftward(p: Shape, i: nat, d: set<Var>): seq<Hop>
    requires |p.nodes| == |p.rels| + 1 && |p.follows| == |p.rels| && i <= |p.rels|
    decreases i
  {
    if i == 0 then []
    else
      [Hop(p.nodes[i], p.rels[i-1], p.nodes[i-1], Reverse(p.follows[i-1]), p.nodes[i-1] in d)] +
      Leftward(p, i - 1, d + {p.rels[i-1], p.nodes[i-1]})
  }

  // ----- Products of hop counts -----

  /** The factors of relationships lo to hi - 1. */
  ghost function Over(g: Adj, p: Shape, w: Row, lo: nat, hi: nat): nat
    requires p.Valid() && hi <= |p.rels|
    decreases hi - lo
  {
    if lo >= hi then 1 else HopCount(g, w, Forward(p, lo)) * Over(g, p, w, lo + 1, hi)
  }

  lemma {:induction false} OverSplit(g: Adj, p: Shape, w: Row, lo: nat, mid: nat, hi: nat)
    requires p.Valid() && lo <= mid <= hi <= |p.rels|
    ensures Over(g, p, w, lo, hi) == Over(g, p, w, lo, mid) * Over(g, p, w, mid, hi)
    decreases mid - lo
  {
    hide HopCount;
    if lo < mid {
      OverSplit(g, p, w, lo + 1, mid, hi);
      Regroup(HopCount(g, w, Forward(p, lo)), Over(g, p, w, lo + 1, mid), Over(g, p, w, mid, hi));
    }
  }

  lemma FlippedHop(g: Adj, p: Shape, w: Row, i: nat, bound: bool)
    requires p.Valid() && i < |p.rels|
    ensures HopCount(g, w, Hop(p.nodes[i+1], p.rels[i], p.nodes[i], Reverse(p.follows[i]), bound)) ==
            HopCount(g, w, Forward(p, i))
  {
    hide Joining;
    var h := Forward(p, i);
    if IsNode(w, h.from) && IsNode(w, h.to) && IsEdge(w, h.rel) {
      JoiningFlips(p.follows[i], NodeAt(w, h.from), w[h.rel].value.e, NodeAt(w, h.to));
    }
  }

  lemma BoundIrrelevant(g: Adj, w: Row, h: Hop, bound: bool)
    ensures HopCount(g, w, h.(toBound := bound)) == HopCount(g, w, h)
  {
  }

  lemma {:induction false} RightwardProduct(g: Adj, p: Shape, w: Row, i: nat, d: set<Var>)
    requires p.Valid() && i <= |p.rels|
    ensures Product(g, w, Rightward(p, i, d)) == Over(g, p, w, i, |p.rels|)
    decreases |p.rels| - i
  {
    hide HopCount;
    if i < |p.rels| {
      RightwardProduct(g, p, w, i + 1, d + {p.rels[i], p.nodes[i+1]});
      BoundIrrelevant(g, w, Forward(p, i), p.nodes[i+1] in d);
    }
  }

  lemma {:induction false} LeftwardProduct(g: Adj, p: Shape, w: Row, i: nat, d: set<Var>)
    requires p.Valid() && i <= |p.rels|
    ensures Product(g, w, Leftward(p, i, d)) == Over(g, p, w, 0, i)
    decreases i
  {
    hide HopCount;
    if i > 0 {
      LeftwardProduct(g, p, w, i - 1, d + {p.rels[i-1], p.nodes[i-1]});
      FlippedHop(g, p, w, i - 1, p.nodes[i-1] in d);
      OverSplit(g, p, w, 0, i - 1, i);
      var x, y := HopCount(g, w, Forward(p, i - 1)), Over(g, p, w, 0, i - 1);
      assert Over(g, p, w, i - 1, i) == x by {
        assert Over(g, p, w, i, i) == 1;
      }
      assert x * y == y * x;
    }
  }

  // ----- The hops fit -----

  /** What is bound when relationships lo to hi - 1 have been bound, on top of d0. */
  function Done(p: Shape, d0: set<Var>, lo: nat, hi: nat): set<Var>
    requires |p.nodes| == |p.rels| + 1 && lo <= hi <= |p.rels|
  {
    d0 + VarsOf(p.nodes[lo..hi+1]) + VarsOf(p.rels[lo..hi])
  }

  function DoneNodes(p: Shape, n0: set<Var>, lo: nat, hi: nat): set<Var>
    requires |p.nodes| == |p.rels| + 1 && lo <= hi <= |p.rels|
  {
    n0 + VarsOf(p.nodes[lo..hi+1])
  }

  /** d0 is bound beforehand: no relationship of the chain is, and bound nodes of the chain are nodes. */
  ghost predicate Before(p: Shape, d0: set<Var>, n0: set<Var>)
  {
    && n0 <= d0
    && (forall v :: v in p.rels ==> v !in d0)
    && (forall v :: v in p.nodes && v in d0 ==> v in n0)
  }

  lemma DoneRight(p: Shape, d0: set<Var>, n0: set<Var>, lo: nat, hi: nat)
    requires p.Valid() && lo <= hi < |p.rels|
    ensures Done(p, d0, lo, hi + 1) == Done(p, d0, lo, hi) + {p.rels[hi], p.nodes[hi+1]}
    ensures DoneNodes(p, n0, lo, hi + 1) == DoneNodes(p, n0, lo, hi) + {p.nodes[hi+1]}
  {
    assert p.nodes[lo..hi+2] == p.nodes[lo..hi+1] + [p.nodes[hi+1]];
    assert p.rels[lo..hi+1] == p.rels[lo..hi] + [p.rels[hi]];
  }

  lemma DoneLeft(p: Shape, d0: set<Var>, n0: set<Var>, lo: nat, hi: nat)
    requires p.Valid() && 0 < lo <= hi <= |p.rels|
    ensures Done(p, d0, lo - 1, hi) == Done(p, d0, lo, hi) + {p.rels[lo-1], p.nodes[lo-1]}
    ensures DoneNodes(p, n0, lo - 1, hi) == DoneNodes(p, n0, lo, hi) + {p.nodes[lo-1]}
  {
    assert p.nodes[lo-1..hi+1] == [p.nodes[lo-1]] + p.nodes[lo..hi+1];
    assert p.rels[lo-1..hi] == [p.rels[lo-1]] + p.rels[lo..hi];
  }

  /** A relationship outside the bound stretch can be expanded from its bound end. */
  lemma NextFits(p: Shape, d0: set<Var>, n0: set<Var>, lo: nat, hi: nat, from: nat, rel: nat, to: nat, f: Follow)
    requires p.Valid() && Before(p, d0, n0) && lo <= hi <= |p.rels|
    requires lo <= from <= hi && to < |p.nodes| && rel < |p.rels| && (rel < lo || hi <= rel)
    ensures var d := Done(p, d0, lo, hi);
            HopFits(Hop(p.nodes[from], p.rels[rel], p.nodes[to], f, p.nodes[to] in d), d, DoneNodes(p, n0, lo, hi))
  {
    var d, n := Done(p, d0, lo, hi), DoneNodes(p, n0, lo, hi);
    assert p.nodes[from] in n by {
      assert p.nodes[from] == p.nodes[lo..hi+1][from - lo];
    }
    assert p.rels[rel] !in p.rels[lo..hi] by {
      forall j | lo <= j < hi ensures p.rels[j] != p.rels[rel] {
      }
    }
    assert p.rels[rel] in p.rels && p.nodes[to] in p.nodes;
    assert forall v :: v in p.rels[lo..hi] ==> v in p.rels;
    assert forall v :: v in p.nodes[lo..hi+1] ==> v in p.nodes;
    assert p.rels[rel] !in d;
  }

  lemma {:induction false} RightwardFits(p: Shape, d0: set<Var>, n0: set<Var>, lo: nat, i: nat)
    requires p.Valid() && Before(p, d0, n0) && lo <= i <= |p.rels|
    ensures HopsFit(Rightward(p, i, Done(p, d0, lo, i)), Done(p, d0, lo, i), DoneNodes(p, n0, lo, i))
    ensures BoundAfter(Done(p, d0, lo, i), Rightward(p, i, Done(p, d0, lo, i))) == Done(p, d0, lo, |p.rels|)
    ensures NodesAfter(DoneNodes(p, n0, lo, i), Rightward(p, i, Done(p, d0, lo, i))) == DoneNodes(p, n0, lo, |p.rels|)
    decreases |p.rels| - i
  {
    hide HopFits, Done, DoneNodes;
    if i < |p.rels| {
      NextFits(p, d0, n0, lo, i, i, i, i + 1, p.follows[i]);
      DoneRight(p, d0, n0, lo, i);
      RightwardFits(p, d0, n0, lo, i + 1);
    }
  }

  lemma {:induction false} LeftwardFits(p: Shape, d0: set<Var>, n0: set<Var>, i: nat, hi: nat)
    requires p.Valid() && Before(p, d0, n0) && i <= hi <= |p.rels|
    ensures HopsFit(Leftward(p, i, Done(p, d0, i, hi)), Done(p, d0, i, hi), DoneNodes(p, n0, i, hi))
    ensures BoundAfter(Done(p, d0, i, hi), Leftward(p, i, Done(p, d0, i, hi))) == Done(p, d0, 0, hi)
    decreases i
  {
    hide HopFits, Done, DoneNodes;
    if i > 0 {
      NextFits(p, d0, n0, i, hi, i, i - 1, i - 1, Reverse(p.follows[i-1]));
      DoneLeft(p, d0, n0, i, hi);
      LeftwardFits(p, d0, n0, i - 1, hi);
    }
  }

  function NodesAfter(n: set<Var>, hops: seq<Hop>): set<Var>
    decreases |hops|
  {
    if hops == [] then n else NodesAfter(n + {hops[0].to}, hops[1..])
  }

  lemma {:induction false} FitsConcat(a: seq<Hop>, b: seq<Hop>, d: set<Var>, n: set<Var>)
    requires HopsFit(a, d, n) && HopsFit(b, BoundAfter(d, a), NodesAfter(n, a))
    ensures HopsFit(a + b, d, n) && BoundAfter(d, a + b) == BoundAfter(BoundAfter(d, a), b)
    decreases |a|
  {
    hide HopFits;
    if a == [] {
      assert a + b == b;
    } else {
      assert (a + b)[1..] == a[1..] + b && (a + b)[0] == a[0];
      FitsConcat(a[1..], b, d + {a[0].rel, a[0].to}, n + {a[0].to});
    }
  }

  lemma {:induction false} ProductConcat(g: Adj, w: Row, a: seq<Hop>, b: seq<Hop>)
    ensures Product(g, w, a + b) == Product(g, w, a) * Product(g, w, b)
  {
    hide HopCount;
    if a == [] {
      assert a + b == b;
    } else {
      assert (a + b)[1..] == a[1..] + b && (a + b)[0] == a[0];
      ProductConcat(g, w, a[1..], b);
      Regroup(HopCount(g, w, a[0]), Product(g, w, a[1..]), Product(g, w, b));
    }
  }

  // ----- From a bound stretch to the whole chain -----

  /** The hops after nodes lo to hi have been bound: rightward, then leftward. */
  function HopsFrom(p: Shape, d0: set<Var>, lo: nat, hi: nat): seq<Hop>
    requires |p.nodes| == |p.rels| + 1 && |p.follows| == |p.rels| && lo <= hi <= |p.rels|
  {
    Rightward(p, hi, Done(p, d0, lo, hi)) + Leftward(p, lo, Done(p, d0, lo, |p.rels|))
  }

  lemma HopsFromFit(p: Shape, d0: set<Var>, n0: set<Var>, lo: nat, hi: nat)
    requires p.Valid() && Before(p, d0, n0) && lo <= hi <= |p.rels|
    ensures HopsFit(HopsFrom(p, d0, lo, hi), Done(p, d0, lo, hi), DoneNodes(p, n0, lo, hi))
    ensures BoundAfter(Done(p, d0, lo, hi), HopsFrom(p, d0, lo, hi)) == d0 + AllVars(p)
  {
    hide Rightward, Leftward, HopsFit;
    RightwardFits(p, d0, n0, lo, hi);
    LeftwardFits(p, d0, n0, lo, |p.rels|);
    FitsConcat(Rightward(p, hi, Done(p, d0, lo, hi)), Leftward(p, lo, Done(p, d0, lo, |p.rels|)),
               Done(p, d0, lo, hi), DoneNodes(p, n0, lo, hi));
    assert p.nodes[0..|p.rels|+1] == p.nodes && p.rels[0..|p.rels|] == p.rels;
  }

  /** Every order of expanding contributes the same factors: those of the other relationships. */
  lemma HopsFromProduct(g: Adj, p: Shape, w: Row, d0: set<Var>, lo: nat, hi: nat)
    requires p.Valid() && lo <= hi <= |p.rels|
    ensures Product(g, w, HopsFrom(p, d0, lo, hi)) * Over(g, p, w, lo, hi) == Over(g, p, w, 0, |p.rels|)
  {
    hide Rightward, Leftward, Product, Over, Done;
    var k := |p.rels|;
    var r, l := Rightward(p, hi, Done(p, d0, lo, hi)), Leftward(p, lo, Done(p, d0, lo, k));
    ProductConcat(g, w, r, l);
    RightwardProduct(g, p, w, hi, Done(p, d0, lo, hi));
    LeftwardProduct(g, p, w, lo, Done(p, d0, lo, k));
    OverSplit(g, p, w, 0, lo, k);
    OverSplit(g, p, w, lo, hi, k);
    Rearranged(Over(g, p, w, hi, k), Over(g, p, w, 0, lo), Over(g, p, w, lo, hi));
  }

  lemma Rearranged(a: nat, b: nat, c: nat)
    ensures (a * b) * c == b * (c * a)
  {
    assert (a * b) * c == (b * a) * c == b * (a * c);
    assert a * c == c * a;
  }
}
