/**
 * What the operators of a match plan do to rows, and how often each row
 * comes out: expanding along a relationship multiplies the count of a row by
 * the number of ways the relationship joins its two nodes.
 */
module PlanRows {
  import opened Seqs
  import opened Values
  import opened Adjacency
  import Operators

  type Var = Bytes

  /** A bound entity. */
  datatype Ent = N(id: nat) | R(e: EdgeRef)

  type Row = Operators.Row<Ent>

  predicate IsNode(b: Row, v: Var)
  {
    v in b && b[v].Some? && b[v].value.N?
  }

  predicate IsEdge(b: Row, v: Var)
  {
    v in b && b[v].Some? && b[v].value.R?
  }

  function NodeAt(b: Row, v: Var): nat
    requires IsNode(b, v)
  {
    b[v].value.id
  }

  function Narrow(w: Row, d: set<Var>): Row
  {
    map v | v in w && v in d :: w[v]
  }

  /** One single-hop expand of a plan. */
  datatype Hop = Hop(from: Var, rel: Var, to: Var, follow: Follow, toBound: bool)

  function Bind(b: Row, h: Hop, e: EdgeRef): Row
    requires IsNode(b, h.from)
  {
    b[h.to := Some(N(OtherEnd(e, NodeAt(b, h.from))))][h.rel := Some(R(e))]
  }

  /** A bound target that is not the node reached drops the hit. */
  predicate Rejects(b: Row, h: Hop, e: EdgeRef)
    requires IsNode(b, h.from)
  {
    h.toBound && IsNode(b, h.to) && NodeAt(b, h.to) != OtherEnd(e, NodeAt(b, h.from))
  }

  function Hits(b: Row, h: Hop, nbs: seq<EdgeRef>): seq<Row>
    requires IsNode(b, h.from)
  {
    if nbs == [] then []
    else (if Rejects(b, h, nbs[0]) then [] else [Bind(b, h, nbs[0])]) + Hits(b, h, nbs[1..])
  }

  function ExpandRow(g: Adj, b: Row, h: Hop): seq<Row>
    requires IsNode(b, h.from)
  {
    Hits(b, h, Neighbors(g, NodeAt(b, h.from), h.follow))
  }

  function ExpandAll(g: Adj, rows: seq<Row>, h: Hop): seq<Row>
    requires forall b :: b in rows ==> IsNode(b, h.from)
  {
    if rows == [] then [] else ExpandRow(g, rows[0], h) + ExpandAll(g, rows[1..], h)
  }

  // ----- How a relationship joins two nodes -----

  /** In how many ways the traversal takes e from a to b: a self-loop in two when both directions are on. */
  function Joining(f: Follow, a: nat, e: EdgeRef, b: nat): nat
  {
    TypeCount(ScanTypes(f), e.typ) *
    ((if f.out && e.src == a && e.dst == b then 1 else 0) + (if f.inc && e.dst == a && e.src == b then 1 else 0))
  }

  /** Expanding from either end counts the same. */
  lemma JoiningFlips(f: Follow, a: nat, e: EdgeRef, b: nat)
    ensures Joining(Reverse(f), b, e, a) == Joining(f, a, e, b)
  {
  }

  lemma JoiningIsHits(f: Follow, a: nat, e: EdgeRef, b: nat)
    ensures Joining(f, a, e, b) == if b == OtherEnd(e, a) then HitCount(f, a, e) else 0
  {
    var t := TypeCount(ScanTypes(f), e.typ);
    hide TypeCount;
    assert t * 0 == 0;
  }

  /** The factor that a hop contributes to the count of a row. */
  ghost function HopCount(g: Adj, w: Row, h: Hop): nat
  {
    if IsNode(w, h.from) && IsNode(w, h.to) && IsEdge(w, h.rel) && w[h.rel].value.e in g.outKeys
    then Joining(h.follow, NodeAt(w, h.from), w[h.rel].value.e, NodeAt(w, h.to)) else 0
  }

  /** The rows bind exactly these variables, and these of them to nodes. */
  ghost predicate Uniform(rows: seq<Row>, d: set<Var>, nodes: set<Var>)
  {
    forall b :: b in rows ==> b.Keys == d && forall v :: v in nodes ==> IsNode(b, v)
  }

  /** A hop that the planner emits when the variables d are bound. */
  ghost predicate HopFits(h: Hop, d: set<Var>, nodes: set<Var>)
  {
    && h.from in nodes && nodes <= d && h.rel !in d && h.rel != h.to
    && (h.toBound <==> h.to in d) && (h.to in d ==> h.to in nodes)
  }

  /** The row that an output row was expanded from, and whether it was. */
  lemma BindInverse(b: Row, h: Hop, e: EdgeRef, d: set<Var>, nodes: set<Var>, w: Row)
    requires HopFits(h, d, nodes) && b.Keys == d && forall v :: v in nodes ==> IsNode(b, v)
    ensures !Rejects(b, h, e) && Bind(b, h, e) == w <==>
            && w.Keys == d + {h.rel, h.to} && b == Narrow(w, d)
            && w[h.rel] == Some(R(e)) && w[h.to] == Some(N(OtherEnd(e, NodeAt(b, h.from))))
  {
    var x := Bind(b, h, e);
    assert x.Keys == d + {h.rel, h.to};
    if !Rejects(b, h, e) && x == w {
      assert Narrow(w, d) == b;
    }
    if w.Keys == d + {h.rel, h.to} && b == Narrow(w, d)
       && w[h.rel] == Some(R(e)) && w[h.to] == Some(N(OtherEnd(e, NodeAt(b, h.from)))) {
      forall v | v in w ensures x[v] == w[v] {
        if v != h.rel && v != h.to {
          assert b[v] == w[v];
        }
      }
      assert x == w;
      if h.to in d {
        assert b[h.to] == w[h.to];
      }
    }
  }

  /** The hit over e is the row w. */
  ghost predicate Makes(b: Row, h: Hop, e: EdgeRef, w: Row)
    requires IsNode(b, h.from)
  {
    !Rejects(b, h, e) && Bind(b, h, e) == w
  }

  function HitBy(b: Row, h: Hop): EdgeRef -> seq<Row>
  {
    e => if !IsNode(b, h.from) || Rejects(b, h, e) then [] else [Bind(b, h, e)]
  }

  lemma {:induction false} HitsFlat(b: Row, h: Hop, nbs: seq<EdgeRef>)
    requires IsNode(b, h.from)
    ensures Hits(b, h, nbs) == Flat(nbs, HitBy(b, h))
  {
    hide Bind, Rejects;
    if nbs != [] {
      HitsFlat(b, h, nbs[1..]);
    }
  }

  /** A row that only the hit over x can be, counts as often as x does. */
  lemma HitsOf(b: Row, h: Hop, nbs: seq<EdgeRef>, w: Row, x: EdgeRef, made: bool)
    requires IsNode(b, h.from) && forall e :: Makes(b, h, e, w) <==> made && e == x
    ensures multiset(Hits(b, h, nbs))[w] == if made then multiset(nbs)[x] else 0
  {
    hide Bind, Rejects, Hits;
    HitsFlat(b, h, nbs);
    forall e ensures multiset(HitBy(b, h)(e))[w] == if e == x then (if made then 1 else 0) else 0 {
      assert Makes(b, h, e, w) <==> made && e == x;
    }
    FlatCount(nbs, HitBy(b, h), w, x, if made then 1 else 0);
  }

  lemma HitsCount(b: Row, h: Hop, nbs: seq<EdgeRef>, d: set<Var>, nodes: set<Var>, w: Row)
    requires HopFits(h, d, nodes) && b.Keys == d && forall v :: v in nodes ==> IsNode(b, v)
    ensures multiset(Hits(b, h, nbs))[w] ==
            if w.Keys == d + {h.rel, h.to} && b == Narrow(w, d) && IsEdge(w, h.rel)
               && w[h.to] == Some(N(OtherEnd(w[h.rel].value.e, NodeAt(b, h.from))))
            then multiset(nbs)[w[h.rel].value.e] else 0
  {
    hide Bind, Rejects, Narrow, Hits;
    var shaped := w.Keys == d + {h.rel, h.to} && b == Narrow(w, d) && IsEdge(w, h.rel);
    var x := if shaped then w[h.rel].value.e else EdgeRef(0, 0, 0, 0);
    var made := shaped && w[h.to] == Some(N(OtherEnd(x, NodeAt(b, h.from))));
    forall e ensures Makes(b, h, e, w) <==> made && e == x {
      BindInverse(b, h, e, d, nodes, w);
    }
    HitsOf(b, h, nbs, w, x, made);
  }

  lemma ExpandRowCount(g: Adj, b: Row, h: Hop, d: set<Var>, nodes: set<Var>, w: Row)
    requires g.Valid() && HopFits(h, d, nodes) && b.Keys == d && forall v :: v in nodes ==> IsNode(b, v)
    ensures multiset(ExpandRow(g, b, h))[w] ==
            if w.Keys == d + {h.rel, h.to} && b == Narrow(w, d) then HopCount(g, w, h) else 0
  {
    hide Hits, Neighbors, HitCount, Joining;
    var a := NodeAt(b, h.from);
    HitsCount(b, h, Neighbors(g, a, h.follow), d, nodes, w);
    if w.Keys == d + {h.rel, h.to} && b == Narrow(w, d) {
      assert b[h.from] == w[h.from];
      if IsEdge(w, h.rel) {
        var e := w[h.rel].value.e;
        NeighborsCount(g, a, h.follow, e);
        if IsNode(w, h.to) {
          JoiningIsHits(h.follow, a, e, NodeAt(w, h.to));
        }
      }
    }
  }

  function ExpandBy(g: Adj, h: Hop): Row -> seq<Row>
  {
    b => if IsNode(b, h.from) then ExpandRow(g, b, h) else []
  }

  lemma {:induction false} ExpandFlat(g: Adj, rows: seq<Row>, h: Hop)
    requires forall b :: b in rows ==> IsNode(b, h.from)
    ensures ExpandAll(g, rows, h) == Flat(rows, ExpandBy(g, h))
  {
    hide ExpandRow;
    if rows != [] {
      ExpandFlat(g, rows[1..], h);
    }
  }

  /** One expand over all rows. */
  lemma ExpandCount(g: Adj, rows: seq<Row>, h: Hop, d: set<Var>, nodes: set<Var>, w: Row)
    requires g.Valid() && HopFits(h, d, nodes) && Uniform(rows, d, nodes)
    ensures forall b :: b in rows ==> IsNode(b, h.from)
    ensures multiset(ExpandAll(g, rows, h))[w] ==
            if w.Keys == d + {h.rel, h.to} then multiset(rows)[Narrow(w, d)] * HopCount(g, w, h) else 0
  {
    hide ExpandRow, HopCount, Narrow, ExpandAll;
    ExpandFlat(g, rows, h);
    var shaped := w.Keys == d + {h.rel, h.to};
    forall b | b in rows
      ensures multiset(ExpandBy(g, h)(b))[w] ==
              if b == Narrow(w, d) then (if shaped then HopCount(g, w, h) else 0) else 0
    {
      ExpandRowCount(g, b, h, d, nodes, w);
    }
    FlatCount(rows, ExpandBy(g, h), w, Narrow(w, d), if shaped then HopCount(g, w, h) else 0);
  }

  lemma {:induction false} HitsUniform(b: Row, h: Hop, nbs: seq<EdgeRef>, d: set<Var>, nodes: set<Var>)
    requires HopFits(h, d, nodes) && b.Keys == d && forall v :: v in nodes ==> IsNode(b, v)
    ensures Uniform(Hits(b, h, nbs), d + {h.rel, h.to}, nodes + {h.to})
  {
    if nbs != [] {
      HitsUniform(b, h, nbs[1..], d, nodes);
      var x := Bind(b, h, nbs[0]);
      assert x.Keys == d + {h.rel, h.to};
      assert forall v :: v in nodes + {h.to} ==> IsNode(x, v);
    }
  }

  lemma {:induction false} ExpandUniform(g: Adj, rows: seq<Row>, h: Hop, d: set<Var>, nodes: set<Var>)
    requires HopFits(h, d, nodes) && Uniform(rows, d, nodes)
    ensures forall b :: b in rows ==> IsNode(b, h.from)
    ensures Uniform(ExpandAll(g, rows, h), d + {h.rel, h.to}, nodes + {h.to})
  {
    if rows != [] {
      assert rows == [rows[0]] + rows[1..];
      ExpandUniform(g, rows[1..], h, d, nodes);
      HitsUniform(rows[0], h, Neighbors(g, NodeAt(rows[0], h.from), h.follow), d, nodes);
    }
  }

  // ----- Several hops -----

  function BoundAfter(d: set<Var>, hops: seq<Hop>): set<Var>
    decreases |hops|
  {
    if hops == [] then d else BoundAfter(d + {hops[0].rel, hops[0].to}, hops[1..])
  }

  ghost predicate HopsFit(hops: seq<Hop>, d: set<Var>, nodes: set<Var>)
    decreases |hops|
  {
    hops == [] || (HopFits(hops[0], d, nodes) &&
                   HopsFit(hops[1..], d + {hops[0].rel, hops[0].to}, nodes + {hops[0].to}))
  }

  ghost function RunHops(g: Adj, rows: seq<Row>, hops: seq<Hop>, d: set<Var>, nodes: set<Var>): seq<Row>
    requires HopsFit(hops, d, nodes) && Uniform(rows, d, nodes)
    decreases |hops|
  {
    if hops == [] then rows
    else
      ExpandUniform(g, rows, hops[0], d, nodes);
      RunHops(g, ExpandAll(g, rows, hops[0]), hops[1..], d + {hops[0].rel, hops[0].to}, nodes + {hops[0].to})
  }

  ghost function Product(g: Adj, w: Row, hops: seq<Hop>): nat
  {
    if hops == [] then 1 else HopCount(g, w, hops[0]) * Product(g, w, hops[1..])
  }

  lemma {:induction false} BoundGrows(d: set<Var>, hops: seq<Hop>)
    ensures d <= BoundAfter(d, hops)
    decreases |hops|
  {
    if hops != [] {
      BoundGrows(d + {hops[0].rel, hops[0].to}, hops[1..]);
    }
  }

  lemma NarrowTwice(w: Row, c: set<Var>, d: set<Var>)
    requires d <= c <= w.Keys
    ensures Narrow(Narrow(w, c), d) == Narrow(w, d) && Narrow(w, c).Keys == c
  {
  }

  lemma HopCountNarrow(g: Adj, w: Row, h: Hop, c: set<Var>)
    requires h.from in c && h.rel in c && h.to in c && c <= w.Keys
    ensures HopCount(g, Narrow(w, c), h) == HopCount(g, w, h)
  {
  }

  lemma Regroup(a: nat, b: nat, c: nat)
    ensures (a * b) * c == a * (b * c)
  {
  }

  /** The count of a row after all hops: its count before them times the factor of each hop. */
  lemma {:induction false} RunHopsCount(g: Adj, rows: seq<Row>, hops: seq<Hop>, d: set<Var>, nodes: set<Var>, w: Row)
    requires g.Valid() && HopsFit(hops, d, nodes) && Uniform(rows, d, nodes)
    ensures multiset(RunHops(g, rows, hops, d, nodes))[w] ==
            if w.Keys == BoundAfter(d, hops) then multiset(rows)[Narrow(w, d)] * Product(g, w, hops) else 0
    decreases |hops|
  {
    hide HopCount, ExpandAll, Narrow;
    if hops == [] {
      NarrowAll(w, d);
      assert w in rows ==> w.Keys == d;
    } else {
      var h, rest := hops[0], hops[1..];
      var c := d + {h.rel, h.to};
      ExpandUniform(g, rows, h, d, nodes);
      var mid := ExpandAll(g, rows, h);
      RunHopsCount(g, mid, rest, c, nodes + {h.to}, w);
      BoundGrows(c, rest);
      if w.Keys == BoundAfter(d, hops) {
        NarrowTwice(w, c, d);
        ExpandCount(g, rows, h, d, nodes, Narrow(w, c));
        HopCountNarrow(g, w, h, c);
        Regroup(multiset(rows)[Narrow(w, d)], HopCount(g, w, h), Product(g, w, rest));
      }
    }
  }

  lemma NarrowAll(w: Row, d: set<Var>)
    ensures w.Keys == d ==> Narrow(w, d) == w
  {
  }
}
