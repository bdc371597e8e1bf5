/** The operators that follow relationships, as they run: expand and relationship seek. */
module ExpandOps {
  import opened Adjacency
  import opened Operators
  import opened PlanRows
  import opened Anchors

  // ----- Expand -----

  lemma ScansStep(keys: seq<EdgeRef>, n: nat, types: seq<nat>, i: nat)
    requires i < |types|
    ensures OutScans(keys, n, types[i..]) == OutEdges(keys, n, types[i]) + OutScans(keys, n, types[i+1..])
    ensures InScans(keys, n, types[i..]) == InEdges(keys, n, types[i]) + InScans(keys, n, types[i+1..])
  {
    hide OutEdges, InEdges;
    assert types[i..][1..] == types[i+1..];
  }

  lemma ScansEnd(keys: seq<EdgeRef>, n: nat)
    ensures OutScans(keys, n, []) == [] && InScans(keys, n, []) == []
  {
  }

  lemma Regrouped(a: seq<EdgeRef>, b: seq<EdgeRef>, c: seq<EdgeRef>)
    ensures (a + b) + c == a + (b + c)
  {
  }

  method GatherOut(keys: seq<EdgeRef>, n: nat, types: seq<nat>) returns (hits: seq<EdgeRef>)
    ensures hits == OutScans(keys, n, types)
  {
    hide OutEdges, OutScans;
    hits := [];
    ScansEnd(keys, n);
    assert types[0..] == types && types[|types|..] == [];
    for i := 0 to |types|
      invariant hits + OutScans(keys, n, types[i..]) == OutScans(keys, n, types)
    {
      ScansStep(keys, n, types, i);
      Regrouped(hits, OutEdges(keys, n, types[i]), OutScans(keys, n, types[i+1..]));
      hits := hits + OutEdges(keys, n, types[i]);
    }
    assert hits + [] == hits;
  }

  method GatherIn(keys: seq<EdgeRef>, n: nat, types: seq<nat>) returns (hits: seq<EdgeRef>)
    ensures hits == InScans(keys, n, types)
  {
    hide InEdges, InScans;
    hits := [];
    ScansEnd(keys, n);
    assert types[0..] == types && types[|types|..] == [];
    for i := 0 to |types|
      invariant hits + InScans(keys, n, types[i..]) == InScans(keys, n, types)
    {
      ScansStep(keys, n, types, i);
      Regrouped(hits, InEdges(keys, n, types[i]), InScans(keys, n, types[i+1..]));
      hits := hits + InEdges(keys, n, types[i]);
    }
    assert hits + [] == hits;
  }

  /** The candidate edges of a node: outgoing scans type by type, then incoming ones. */
  method Gather(g: Adj, n: nat, f: Follow) returns (hits: seq<EdgeRef>)
    ensures hits == Neighbors(g, n, f)
  {
    hide OutScans, InScans, ScanTypes;
    hits := [];
    if f.out {
      hits := GatherOut(g.outKeys, n, ScanTypes(f));
    }
    if f.inc {
      var ins := GatherIn(g.inKeys, n, ScanTypes(f));
      hits := hits + ins;
    }
  }

  /** The whole output of an expand; a source variable that is not a node is an error. */
  ghost function Expanded(g: Adj, s: Stream<Ent>, h: Hop): Stream<Ent>
    decreases |s.rows|
  {
    if s.rows == [] then s
    else if !IsNode(s.rows[0], h.from) then Stream([], true)
    else
      var rest := Expanded(g, Stream(s.rows[1..], s.broken), h);
      Stream(ExpandRow(g, s.rows[0], h) + rest.rows, rest.broken)
  }

  /** On rows that bind the source to a node, it is what the counting results are about. */
  lemma {:induction false} ExpandedIsAll(g: Adj, rows: seq<PlanRows.Row>, h: Hop)
    requires forall b :: b in rows ==> IsNode(b, h.from)
    ensures Expanded(g, Stream(rows, false), h) == Stream(ExpandAll(g, rows, h), false)
  {
    if rows != [] {
      ExpandedIsAll(g, rows[1..], h);
    }
  }

  /** What is still to be produced from the hits of the current row and the input. */
  ghost function Coming(g: Adj, cur: PlanRows.Row, h: Hop, hits: seq<EdgeRef>, input: Stream<Ent>): Stream<Ent>
    requires hits != [] ==> IsNode(cur, h.from)
  {
    var later := Expanded(g, input, h);
    if hits == [] then later else Stream(Hits(cur, h, hits) + later.rows, later.broken)
  }

  lemma TakeHit(g: Adj, cur: PlanRows.Row, h: Hop, hits: seq<EdgeRef>, input: Stream<Ent>)
    requires hits != [] && IsNode(cur, h.from)
    ensures if Rejects(cur, h, hits[0]) then Coming(g, cur, h, hits, input) == Coming(g, cur, h, hits[1..], input)
            else Pulled(Coming(g, cur, h, hits, input), Got(Bind(cur, h, hits[0])), Coming(g, cur, h, hits[1..], input))
  {
    hide Expanded, Bind, Rejects;
    var later := Expanded(g, input, h);
    HeadOff(Bind(cur, h, hits[0]), Hits(cur, h, hits[1..]), later.rows);
    assert [] + Hits(cur, h, hits[1..]) == Hits(cur, h, hits[1..]);
    assert [] + later.rows == later.rows;
  }

  lemma TakeRow(g: Adj, h: Hop, input: Stream<Ent>, cur: PlanRows.Row)
    requires input.rows != []
    ensures var b, rest := input.rows[0], Stream(input.rows[1..], input.broken);
            Coming(g, cur, h, [], input) ==
            if !IsNode(b, h.from) then Stream([], true)
            else Coming(g, b, h, Neighbors(g, NodeAt(b, h.from), h.follow), rest)
  {
    var b := input.rows[0];
    if IsNode(b, h.from) && Neighbors(g, NodeAt(b, h.from), h.follow) == [] {
      var rest := Expanded(g, Stream(input.rows[1..], input.broken), h);
      assert [] + rest.rows == rest.rows;
    }
  }

  class Expand {
    const g: Adj
    const h: Hop
    const input: Source<Ent>
    var cur: PlanRows.Row
    var pending: seq<EdgeRef>
    var pidx: nat
    var failed: bool

    ghost predicate Valid()
      reads this
    {
      pidx <= |pending| && (pidx < |pending| ==> IsNode(cur, h.from))
    }

    ghost function Rest(): Stream<Ent>
      requires Valid()
      reads this, input
    {
      if failed then Stream([], true) else Coming(g, cur, h, pending[pidx..], input.left)
    }

    constructor (g: Adj, h: Hop, input: Source<Ent>)
      ensures Valid() && Rest() == Expanded(g, input.left, h) && this.input == input
    {
      this.g, this.h, this.input := g, h, input;
      cur, pending, pidx, failed := map[], [], 0, false;
    }

    method Next() returns (p: Pull<Ent>)
      requires Valid()
      modifies this, input
      ensures Valid() && Pulled(old(Rest()), p, Rest())
    {
      hide Coming, Expanded, Neighbors, Bind, Rejects;
      if failed {
        return Failed;
      }
      while true
        invariant Valid() && !failed && Rest() == old(Rest())
        decreases |input.left.rows|, |pending| - pidx
      {
        if pidx >= |pending| {
          assert pending[pidx..] == [];
          NoHits(g, cur, h, input.left);
          if input.left.rows != [] {
            TakeRow(g, h, input.left, cur);
          }
          p := input.Next();
          if !p.Got? {
            return;
          }
          if !IsNode(p.row, h.from) {
            failed := true;
            return Failed;
          }
          cur := p.row;
          pending := Gather(g, NodeAt(cur, h.from), h.follow);
          pidx := 0;
          assert pending[0..] == pending;
          continue;
        }
        var hit := pending[pidx];
        assert pending[pidx..][0] == hit && pending[pidx..][1..] == pending[pidx+1..];
        TakeHit(g, cur, h, pending[pidx..], input.left);
        pidx := pidx + 1;
        if Rejects(cur, h, hit) {
          continue;
        }
        return Got(Bind(cur, h, hit));
      }
    }
  }

  lemma NoHits(g: Adj, cur: PlanRows.Row, h: Hop, input: Stream<Ent>)
    ensures input.rows == [] ==> Coming(g, cur, h, [], input) == input
  {
  }

  // ----- Relationship seek -----

  lemma SeekStep(h: Hop, rows: seq<PlanRows.Row>, es: seq<EdgeRef>)
    ensures rows == [] && es != [] ==> EdgeRows(h, es) == Readings(h, es[0]) + EdgeRows(h, es[1..])
  {
  }

  class RelSeek {
    const h: Hop
    const ids: seq<EdgeRef>
    var pos: nat
    var rows: seq<PlanRows.Row>

    ghost predicate Valid()
      reads this
    {
      pos <= |ids|
    }

    ghost function Rest(): Stream<Ent>
      requires Valid()
      reads this
    {
      Stream(rows + EdgeRows(h, ids[pos..]), false)
    }

    constructor (h: Hop, ids: seq<EdgeRef>)
      ensures Valid() && Rest() == Stream(EdgeRows(h, ids), false)
    {
      this.h, this.ids := h, ids;
      pos, rows := 0, [];
      new;
      assert ids[0..] == ids && [] + EdgeRows(h, ids) == EdgeRows(h, ids);
    }

    /** One row per relationship and reading. */
    method Next() returns (p: Pull<Ent>)
      requires Valid()
      modifies this
      ensures Valid() && Pulled(old(Rest()), p, Rest())
    {
      hide EdgeRows, Readings;
      while true
        invariant Valid() && Rest() == old(Rest())
        decreases |ids| - pos, |rows|
      {
        if rows != [] {
          p := Got(rows[0]);
          assert rows == [rows[0]] + rows[1..];
          HeadOff(rows[0], rows[1..], EdgeRows(h, ids[pos..]));
          rows := rows[1..];
          return;
        }
        if pos >= |ids| {
          NoneLeft(h, ids[pos..]);
          return Done;
        }
        assert ids[pos..][0] == ids[pos] && ids[pos..][1..] == ids[pos+1..];
        SeekStep(h, rows, ids[pos..]);
        var e := ids[pos];
        pos := pos + 1;
        rows := Orientations(h, e);
      }
    }
  }

  lemma NoneLeft(h: Hop, es: seq<EdgeRef>)
    ensures es == [] ==> EdgeRows(h, es) == []
  {
  }

  /** The readings of one relationship, outgoing first; (a)-[r]-(a) keeps self-loops only. */
  method Orientations(h: Hop, e: EdgeRef) returns (rows: seq<PlanRows.Row>)
    ensures rows == Readings(h, e)
  {
    var pairs: seq<(nat, nat)> := [];
    if h.follow.out {
      pairs := pairs + [(e.src, e.dst)];
    }
    if h.follow.inc {
      pairs := pairs + [(e.dst, e.src)];
    }
    rows := [];
    for i := 0 to |pairs|
      invariant |rows| == if h.from == h.to && e.src != e.dst then 0 else i
      invariant forall j :: 0 <= j < |rows| ==> rows[j] == EdgeRow(h, e, pairs[j].0, pairs[j].1)
    {
      if h.from != h.to || pairs[i].0 == pairs[i].1 {
        rows := rows + [EdgeRow(h, e, pairs[i].0, pairs[i].1)];
      }
    }
  }
}
