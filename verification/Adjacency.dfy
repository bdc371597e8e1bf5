/**
 * The two adjacency keyspaces: every edge is written once under its source
 * (`o`) and once under its destination (`i`).
 */
module Adjacency {
  import opened Seqs

  /** An edge as an adjacency key shows it. */
  datatype EdgeRef = EdgeRef(id: nat, typ: nat, src: nat, dst: nat)

  /**
   * The `o` and `i` entries in key order. A type id of 0 stands for "any
   * type" in a scan; edges themselves have types from 1.
   */
  datatype Adj = Adj(outKeys: seq<EdgeRef>, inKeys: seq<EdgeRef>) {
    /** `o` and `i` mirror each other and an id names one edge. */
    ghost predicate Valid()
    {
      && NoDups(outKeys) && NoDups(inKeys)
      && (forall e :: e in outKeys <==> e in inKeys)
      && (forall e, f :: e in outKeys && f in outKeys && e.id == f.id ==> e == f)
    }
  }

  /** Which edges a traversal follows; `None` types means every type. */
  datatype Follow = Follow(out: bool, inc: bool, types: Option<seq<nat>>)

  function Reverse(f: Follow): Follow
  {
    Follow(f.inc, f.out, f.types)
  }

  predicate TypeMatches(scanned: nat, typ: nat)
  {
    scanned == 0 || scanned == typ
  }

  /** How many of the scans a traversal makes return an edge of this type. */
  function TypeCount(types: seq<nat>, typ: nat): nat
  {
    if types == [] then 0
    else (if TypeMatches(types[0], typ) then 1 else 0) + TypeCount(types[1..], typ)
  }

  function ScanTypes(f: Follow): seq<nat>
  {
    match f.types
    case None => [0]
    case Some(ts) => ts
  }

  /** The prefix scan of the `o` keyspace at n. */
  function OutEdges(keys: seq<EdgeRef>, n: nat, typ: nat): seq<EdgeRef>
  {
    if keys == [] then []
    else (if keys[0].src == n && TypeMatches(typ, keys[0].typ) then [keys[0]] else []) + OutEdges(keys[1..], n, typ)
  }

  /** The prefix scan of the `i` keyspace at n. */
  function InEdges(keys: seq<EdgeRef>, n: nat, typ: nat): seq<EdgeRef>
  {
    if keys == [] then []
    else (if keys[0].dst == n && TypeMatches(typ, keys[0].typ) then [keys[0]] else []) + InEdges(keys[1..], n, typ)
  }

  function OutScans(keys: seq<EdgeRef>, n: nat, types: seq<nat>): seq<EdgeRef>
  {
    if types == [] then [] else OutEdges(keys, n, types[0]) + OutScans(keys, n, types[1..])
  }

  function InScans(keys: seq<EdgeRef>, n: nat, types: seq<nat>): seq<EdgeRef>
  {
    if types == [] then [] else InEdges(keys, n, types[0]) + InScans(keys, n, types[1..])
  }

  /** The edges a traversal follows from n: outgoing scans, then incoming ones. */
  function Neighbors(g: Adj, n: nat, f: Follow): seq<EdgeRef>
  {
    (if f.out then OutScans(g.outKeys, n, ScanTypes(f)) else []) +
    (if f.inc then InScans(g.inKeys, n, ScanTypes(f)) else [])
  }

  /** One hop from a to b over e, in an allowed direction and of an allowed type. */
  ghost predicate Step(g: Adj, f: Follow, a: nat, e: EdgeRef, b: nat)
  {
    && e in g.outKeys
    && TypeCount(ScanTypes(f), e.typ) > 0
    && ((f.out && e.src == a && e.dst == b) || (f.inc && e.dst == a && e.src == b))
  }

  /** How often the edge e shows up among the neighbours of n. */
  function HitCount(f: Follow, n: nat, e: EdgeRef): nat
  {
    TypeCount(ScanTypes(f), e.typ) *
    ((if f.out && e.src == n then 1 else 0) + (if f.inc && e.dst == n then 1 else 0))
  }

  lemma {:induction false} TypeCountExact(ts: seq<nat>, typ: nat)
    ensures TypeCount(ts, typ) == multiset(ts)[typ] + if typ == 0 then 0 else multiset(ts)[0]
  {
    if ts != [] {
      TypeCountExact(ts[1..], typ);
      assert ts == [ts[0]] + ts[1..];
    }
  }

  /** How often the scans return a type: once without types, else as often as it or 0 is named. */
  lemma ScansExact(f: Follow, typ: nat)
    ensures f.types.None? ==> TypeCount(ScanTypes(f), typ) == 1
    ensures f.types.Some? ==>
              TypeCount(ScanTypes(f), typ) ==
              multiset(f.types.value)[typ] + if typ == 0 then 0 else multiset(f.types.value)[0]
  {
    TypeCountExact(ScanTypes(f), typ);
  }

  /**
   * One hop goes along a stored edge in an allowed direction; a pattern
   * without types allows all, and one with types those it names.
   */
  lemma StepExact(g: Adj, f: Follow, a: nat, e: EdgeRef, b: nat)
    ensures Step(g, f, a, e, b) <==>
            && e in g.outKeys
            && (f.types.None? || e.typ in f.types.value || 0 in f.types.value)
            && ((f.out && e.src == a && e.dst == b) || (f.inc && e.dst == a && e.src == b))
  {
    ScansExact(f, e.typ);
    if f.types.Some? {
      assert e.typ in f.types.value <==> multiset(f.types.value)[e.typ] > 0;
      assert 0 in f.types.value <==> multiset(f.types.value)[0] > 0;
    }
  }

  lemma {:induction false} OutEdgesCount(keys: seq<EdgeRef>, n: nat, typ: nat, e: EdgeRef)
    ensures multiset(OutEdges(keys, n, typ))[e] ==
            if e.src == n && TypeMatches(typ, e.typ) then multiset(keys)[e] else 0
  {
    if keys != [] {
      assert keys == [keys[0]] + keys[1..];
      OutEdgesCount(keys[1..], n, typ, e);
    }
  }

  lemma {:induction false} InEdgesCount(keys: seq<EdgeRef>, n: nat, typ: nat, e: EdgeRef)
    ensures multiset(InEdges(keys, n, typ))[e] ==
            if e.dst == n && TypeMatches(typ, e.typ) then multiset(keys)[e] else 0
  {
    if keys != [] {
      assert keys == [keys[0]] + keys[1..];
      InEdgesCount(keys[1..], n, typ, e);
    }
  }

  lemma {:induction false} OutScansCount(keys: seq<EdgeRef>, n: nat, types: seq<nat>, e: EdgeRef)
    requires NoDups(keys)
    ensures multiset(OutScans(keys, n, types))[e] ==
            if e in keys && e.src == n then TypeCount(types, e.typ) else 0
  {
    if types != [] {
      OutEdgesCount(keys, n, types[0], e);
      NoDupsCount(keys, e);
      OutScansCount(keys, n, types[1..], e);
    }
  }

  lemma {:induction false} InScansCount(keys: seq<EdgeRef>, n: nat, types: seq<nat>, e: EdgeRef)
    requires NoDups(keys)
    ensures multiset(InScans(keys, n, types))[e] ==
            if e in keys && e.dst == n then TypeCount(types, e.typ) else 0
  {
    if types != [] {
      InEdgesCount(keys, n, types[0], e);
      NoDupsCount(keys, e);
      InScansCount(keys, n, types[1..], e);
    }
  }

  /**
   * The neighbour list holds exactly the edges at n, each as often as scans
   * and directions return it: a self-loop twice when both directions are on.
   */
  lemma NeighborsCount(g: Adj, n: nat, f: Follow, e: EdgeRef)
    requires g.Valid()
    ensures multiset(Neighbors(g, n, f))[e] == if e in g.outKeys then HitCount(f, n, e) else 0
  {
    OutScansCount(g.outKeys, n, ScanTypes(f), e);
    InScansCount(g.inKeys, n, ScanTypes(f), e);
  }

  /** From a node, an edge leads to one other end. */
  function OtherEnd(e: EdgeRef, n: nat): nat
  {
    if e.src == n then e.dst else e.src
  }

  lemma NeighborsAreSteps(g: Adj, n: nat, f: Follow, e: EdgeRef)
    requires g.Valid()
    ensures e in Neighbors(g, n, f) <==> Step(g, f, n, e, OtherEnd(e, n))
    ensures forall b :: Step(g, f, n, e, b) ==> b == OtherEnd(e, n)
  {
    hide Neighbors, TypeCount, ScanTypes;
    NeighborsCount(g, n, f, e);
    assert e in Neighbors(g, n, f) <==> multiset(Neighbors(g, n, f))[e] > 0;
    PositiveProduct(TypeCount(ScanTypes(f), e.typ),
                    (if f.out && e.src == n then 1 else 0) + (if f.inc && e.dst == n then 1 else 0));
  }

  lemma PositiveProduct(t: nat, d: nat)
    ensures t * d > 0 <==> t > 0 && d > 0
  {
  }

  /** No type is scanned twice. */
  predicate DistinctTypes(f: Follow)
  {
    match f.types
    case None => true
    case Some(ts) => (forall i, j :: 0 <= i < j < |ts| ==> ts[i] != ts[j]) && (0 in ts ==> |ts| == 1)
  }

  lemma {:induction false} TypeCountDistinct(ts: seq<nat>, typ: nat)
    requires NoDups(ts) && 0 !in ts
    ensures TypeCount(ts, typ) <= 1
    ensures TypeCount(ts, typ) == 1 ==> typ in ts
  {
    if ts != [] {
      TypeCountDistinct(ts[1..], typ);
    }
  }

  lemma FollowTypeCount(f: Follow, typ: nat)
    requires DistinctTypes(f)
    ensures TypeCount(ScanTypes(f), typ) <= 1
  {
    var ts := ScanTypes(f);
    if 0 in ts {
      assert |ts| == 1 && ts[1..] == [];
    } else {
      TypeCountDistinct(ts, typ);
    }
  }

  /** An edge that is not a self-loop is listed at most once at each end. */
  lemma NeighborsOnce(g: Adj, n: nat, f: Follow, i: nat, j: nat)
    requires g.Valid() && DistinctTypes(f)
    requires i < j < |Neighbors(g, n, f)|
    requires Neighbors(g, n, f)[i] == Neighbors(g, n, f)[j]
    ensures var e := Neighbors(g, n, f)[i]; e.src == e.dst
  {
    var e := Neighbors(g, n, f)[i];
    CountTwice(Neighbors(g, n, f), i, j);
    NeighborsCount(g, n, f, e);
    FollowTypeCount(f, e.typ);
  }
}
