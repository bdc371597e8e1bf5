/**
 * Pull operators: a row source is asked for one row at a time, and each
 * operator's whole output is a function of its inputs' whole outputs.
 */
module Operators {
  import opened Seqs
  import opened Values

  /** A row binds variables; None is null. */
  type Row<V> = map<Bytes, Option<V>>

  /** What a source still has: rows, and whether it then fails. */
  datatype Stream<V> = Stream(rows: seq<Row<V>>, broken: bool)

  datatype Pull<V> = Got(row: Row<V>) | Done | Failed

  /** One pull takes the first row; at the end it reports how the stream ends. */
  ghost predicate Pulled<V>(before: Stream<V>, p: Pull<V>, after: Stream<V>)
  {
    if before.rows == [] then after == before && p == if before.broken then Failed else Done
    else p == Got(before.rows[0]) && after == Stream(before.rows[1..], before.broken)
  }

  class Source<V> {
    var left: Stream<V>

    constructor (s: Stream<V>)
      ensures left == s
    {
      left := s;
    }

    method Next() returns (p: Pull<V>)
      modifies this
      ensures Pulled(old(left), p, left)
    {
      if left.rows == [] {
        return if left.broken then Failed else Done;
      }
      p := Got(left.rows[0]);
      left := Stream(left.rows[1..], left.broken);
    }
  }

  // ----- Product -----

  function Merged<V>(l: Row<V>, rs: seq<Row<V>>): (out: seq<Row<V>>)
    ensures |out| == |rs|
  {
    if rs == [] then [] else [l + rs[0]] + Merged(l, rs[1..])
  }

  /** Every left row with every right row, left-major. */
  function Product<V>(ls: seq<Row<V>>, rs: seq<Row<V>>): seq<Row<V>>
  {
    if ls == [] then [] else Merged(ls[0], rs) + Product(ls[1..], rs)
  }

  lemma {:induction false} ProductAt<V>(ls: seq<Row<V>>, rs: seq<Row<V>>, i: nat, j: nat)
    requires i < |ls| && j < |rs|
    ensures |Product(ls, rs)| == |ls| * |rs| && 0 <= i * |rs| + j < |ls| * |rs|
    ensures Product(ls, rs)[i * |rs| + j] == ls[i] + rs[j]
  {
    ProductSize(ls, rs);
    IndexFits(|ls|, |rs|, i, j);
    MergedAt(ls[0], rs, j);
    if i > 0 {
      ProductSize(ls[1..], rs);
      IndexFits(|ls| - 1, |rs|, i - 1, j);
      ProductAt(ls[1..], rs, i - 1, j);
      assert i * |rs| + j == |rs| + ((i - 1) * |rs| + j);
      assert Product(ls, rs)[|rs| + ((i - 1) * |rs| + j)] == Product(ls[1..], rs)[(i - 1) * |rs| + j];
    }
  }

  lemma {:induction false} MergedAt<V>(l: Row<V>, rs: seq<Row<V>>, j: nat)
    requires j < |rs|
    ensures Merged(l, rs)[j] == l + rs[j]
  {
    if j > 0 {
      MergedAt(l, rs[1..], j - 1);
    }
  }

  lemma IndexFits(n: nat, m: nat, i: nat, j: nat)
    requires i < n && j < m
    ensures 0 <= i * m + j < n * m
  {
    assert i * m + m == (i + 1) * m <= n * m;
  }

  lemma {:induction false} ProductSize<V>(ls: seq<Row<V>>, rs: seq<Row<V>>)
    ensures |Product(ls, rs)| == |ls| * |rs|
  {
    if ls != [] {
      ProductSize(ls[1..], rs);
      assert |ls| * |rs| == |rs| + |ls[1..]| * |rs|;
    }
  }

  /** The product of two streams: the right one matters only if there is a left row. */
  function ProductStream<V>(l: Stream<V>, r: Stream<V>): Stream<V>
  {
    if l.rows == [] then l
    else if r.broken then Stream([], true)
    else Stream(Product(l.rows, r.rows), l.broken)
  }

  /** The fields of a product, with what its inputs still have. */
  datatype Joined<V> = Joined(rightRows: seq<Row<V>>, loaded: bool, curLeft: Option<Row<V>>, ri: nat,
                                  left: Stream<V>, right: Stream<V>)
  {
    ghost predicate Ok()
    {
      ri <= |rightRows| && (!loaded ==> ri == 0 && (curLeft.None? ==> rightRows == []))
    }

    /** The left rows not finished yet. */
    ghost function Lefts(): Stream<V>
    {
      Stream((if curLeft.Some? then [curLeft.value] else []) + left.rows, left.broken)
    }

    /** What is still to be produced. */
    ghost function Rest(): Stream<V>
      requires Ok()
    {
      if !loaded then ProductStream(Lefts(), Stream(rightRows + right.rows, right.broken))
      else
        Stream((if curLeft.Some? then Merged(curLeft.value, rightRows[ri..]) else []) + Product(left.rows, rightRows),
               left.broken)
    }
  }

  lemma TakeLeft<V>(s: Joined<V>)
    requires s.Ok() && s.curLeft.None? && s.left.rows != []
    ensures var t := s.(curLeft := Some(s.left.rows[0]), ri := 0, left := Stream(s.left.rows[1..], s.left.broken));
            t.Ok() && t.Rest() == s.Rest() && t.Lefts() == s.Lefts()
  {
    var ls := s.left.rows;
    assert s.rightRows[0..] == s.rightRows;
    assert [ls[0]] + ls[1..] == ls && [] + ls == ls;
    assert [] + Product(ls, s.rightRows) == Product(ls, s.rightRows);
  }

  lemma NoLeft<V>(s: Joined<V>)
    requires s.Ok() && s.curLeft.None? && s.left.rows == []
    ensures s.Rest() == Stream([], s.left.broken) && s.Lefts().rows == []
  {
  }

  /** Moving a right row into the buffer, while it is being read. */
  lemma BufferRight<V>(s: Joined<V>)
    requires s.Ok() && !s.loaded && s.curLeft.Some? && s.right.rows != []
    ensures var t := s.(rightRows := s.rightRows + [s.right.rows[0]],
                        right := Stream(s.right.rows[1..], s.right.broken));
            t.Ok() && t.Rest() == s.Rest()
  {
    var rs := s.right.rows;
    assert s.rightRows + [rs[0]] + rs[1..] == s.rightRows + rs;
  }

  lemma RightRead<V>(s: Joined<V>)
    requires s.Ok() && !s.loaded && s.curLeft.Some? && s.right.rows == []
    ensures s.right.broken ==> s.Rest() == Stream([], true)
    ensures !s.right.broken ==> s.(loaded := true).Ok() && s.(loaded := true).Rest() == s.Rest()
  {
    assert s.rightRows[0..] == s.rightRows && s.rightRows + [] == s.rightRows;
    assert s.Lefts().rows[1..] == s.left.rows;
  }

  lemma LeftDone<V>(s: Joined<V>)
    requires s.Ok() && s.loaded && s.curLeft.Some? && s.ri == |s.rightRows|
    ensures s.(curLeft := None).Ok() && s.(curLeft := None).Rest() == s.Rest()
  {
    assert s.rightRows[s.ri..] == [];
  }

  lemma {:induction false} TakeRight<V>(s: Joined<V>)
    requires s.Ok() && s.loaded && s.curLeft.Some? && s.ri < |s.rightRows|
    ensures s.(ri := s.ri + 1).Ok()
    ensures Pulled(s.Rest(), Got(s.curLeft.value + s.rightRows[s.ri]), s.(ri := s.ri + 1).Rest())
  {
    hide Product, Merged, ProductStream;
    var l, rs := s.curLeft.value, s.rightRows[s.ri..];
    assert rs[1..] == s.rightRows[s.ri+1..] && rs[0] == s.rightRows[s.ri];
    MergedHead(l, rs);
    HeadOff(l + rs[0], Merged(l, rs[1..]), Product(s.left.rows, s.rightRows));
  }

  lemma MergedHead<V>(l: Row<V>, rs: seq<Row<V>>)
    requires rs != []
    ensures Merged(l, rs) == [l + rs[0]] + Merged(l, rs[1..])
  {
  }

  lemma HeadOff<T>(x: T, a: seq<T>, b: seq<T>)
    ensures ([x] + a + b)[0] == x && ([x] + a + b)[1..] == a + b
  {
  }

  class Cartesian<V> {
    const left: Source<V>
    const right: Source<V>
    var rightRows: seq<Row<V>>
    var loaded: bool
    var curLeft: Option<Row<V>>
    var ri: nat

    ghost function View(): Joined<V>
      reads this, left, right
    {
      Joined(rightRows, loaded, curLeft, ri, left.left, right.left)
    }

    ghost predicate Valid()
      reads this, left, right
    {
      left != right && View().Ok()
    }

    constructor (left: Source<V>, right: Source<V>)
      requires left != right
      ensures Valid() && this.left == left && this.right == right
      ensures View() == Joined([], false, None, 0, left.left, right.left)
    {
      this.left, this.right := left, right;
      rightRows, loaded, curLeft, ri := [], false, None, 0;
    }

    /** Takes the next left row. */
    method NextLeft() returns (p: Pull<V>)
      requires Valid() && curLeft.None?
      modifies this, left
      ensures Valid() && View().Rest() == old(View()).Rest() && View().Lefts() == old(View()).Lefts()
      ensures loaded == old(loaded)
      ensures p.Got? <==> curLeft.Some?
      ensures p.Got? ==> ri == 0 && |left.left.rows| < |old(left.left.rows)|
      ensures !p.Got? ==> View() == old(View()) && Pulled(View().Rest(), p, View().Rest()) && View().Lefts().rows == []
    {
      hide Joined.Rest, Joined.Lefts;
      if left.left.rows == [] {
        NoLeft(View());
      } else {
        TakeLeft(View());
      }
      p := left.Next();
      if p.Got? {
        curLeft, ri := Some(p.row), 0;
      }
    }

    /** Reads the whole right side. */
    method Load() returns (ok: bool)
      requires Valid() && !loaded && curLeft.Some?
      modifies this, right
      ensures Valid() && View().Rest() == old(View()).Rest()
      ensures ok ==> loaded && curLeft.Some?
      ensures !ok ==> View().Rest() == Stream([], true)
    {
      hide Joined.Rest, Joined.Lefts;
      while true
        invariant Valid() && !loaded && curLeft.Some? && View().Rest() == old(View()).Rest()
        decreases |right.left.rows|
      {
        if right.left.rows == [] {
          RightRead(View());
        } else {
          BufferRight(View());
        }
        var p := right.Next();
        if p == Failed {
          return false;
        }
        if p == Done {
          break;
        }
        rightRows := rightRows + [p.row];
      }
      loaded := true;
      ok := true;
    }

    /**
     * Pulls one row of the product. The right side is not touched when there
     * is no left row, nor again once it has been read.
     */
    method Next() returns (p: Pull<V>)
      requires Valid()
      modifies this, left, right
      ensures Valid() && Pulled(old(View()).Rest(), p, View().Rest())
      ensures old(loaded) || old(View()).Lefts().rows == [] ==> right.left == old(right.left)
      ensures old(loaded) ==> loaded
    {
      hide Joined.Rest, Joined.Lefts, Joined.Ok;
      if !loaded && curLeft.None? {
        p := NextLeft();
        if !p.Got? {
          return;
        }
        SomeLeft(View());
      }
      if !loaded {
        SomeLeft(View());
        var ok := Load();
        if !ok {
          return Failed;
        }
      }
      while true
        invariant Valid() && loaded && View().Rest() == old(View()).Rest()
        invariant old(loaded) || old(View()).Lefts().rows == [] ==> right.left == old(right.left)
        decreases |left.left.rows|, curLeft.Some?
      {
        if curLeft.None? {
          p := NextLeft();
          if !p.Got? {
            return;
          }
        }
        if ri >= |rightRows| {
          GivenOk(View());
          LeftDone(View());
          curLeft := None;
          continue;
        }
        TakeRight(View());
        p := Got(curLeft.value + rightRows[ri]);
        ri := ri + 1;
        return;
      }
    }
  }

  lemma SomeLeft<V>(s: Joined<V>)
    requires s.curLeft.Some?
    ensures s.Lefts().rows != []
  {
  }

  lemma GivenOk<V>(s: Joined<V>)
    requires s.Ok()
    ensures s.ri <= |s.rightRows|
  {
  }

  // ----- Outer apply -----

  function NullExtended<V>(r: Row<V>, vars: seq<Bytes>): Row<V>
  {
    r + map v | v in vars :: None
  }

  /** The rows of one outer row: its inner rows or, in an outer join without any, itself with nulls. */
  function Filled<V>(outer: Row<V>, rows: seq<Row<V>>, vars: seq<Bytes>, plain: bool): seq<Row<V>>
  {
    if rows == [] && !plain then [NullExtended(outer, vars)] else rows
  }

  /** The whole output: outer rows in order, each replaced by its inner rows. */
  ghost function Applied<V>(outer: Stream<V>, inner: Row<V> -> Stream<V>, vars: seq<Bytes>, plain: bool): Stream<V>
    decreases |outer.rows|
  {
    if outer.rows == [] then outer
    else
      var i := inner(outer.rows[0]);
      if i.broken then i
      else
        var rest := Applied(Stream(outer.rows[1..], outer.broken), inner, vars, plain);
        Stream(Filled(outer.rows[0], i.rows, vars, plain) + rest.rows, rest.broken)
  }

  /** The outer row with the new variables null and everything else as it was. */
  ghost predicate WithNulls<V>(outer: Row<V>, vars: seq<Bytes>, r: Row<V>)
  {
    && (forall v :: v in r <==> v in outer || v in vars)
    && (forall v :: v in vars ==> v in r && r[v] == None)
    && (forall v :: v in outer && v !in vars ==> v in r && r[v] == outer[v])
  }

  /** The block of one outer row: its inner rows; without any, one row with nulls, or none in a plain Apply. */
  ghost predicate Block<V>(outer: Row<V>, rows: seq<Row<V>>, vars: seq<Bytes>, plain: bool, block: seq<Row<V>>)
  {
    if rows != [] then block == rows
    else if plain then block == []
    else |block| == 1 && WithNulls(outer, vars, block[0])
  }

  /** One block after another. */
  function InTurn<V>(blocks: seq<seq<Row<V>>>): seq<Row<V>>
  {
    if blocks == [] then [] else blocks[0] + InTurn(blocks[1..])
  }

  /** The blocks of the first outer rows, up to the first whose inner tree fails. */
  ghost predicate BlocksOf<V>(outer: seq<Row<V>>, inner: Row<V> -> Stream<V>, vars: seq<Bytes>, plain: bool,
                              blocks: seq<seq<Row<V>>>)
  {
    && |blocks| <= |outer|
    && (forall i :: 0 <= i < |blocks| ==> !inner(outer[i]).broken)
    && (forall i :: 0 <= i < |blocks| ==> Block(outer[i], inner(outer[i]).rows, vars, plain, blocks[i]))
    && (|blocks| < |outer| ==> inner(outer[|blocks|]).broken)
  }

  lemma FilledIsBlock<V>(outer: Row<V>, rows: seq<Row<V>>, vars: seq<Bytes>, plain: bool)
    ensures Block(outer, rows, vars, plain, Filled(outer, rows, vars, plain))
  {
  }

  /**
   * The whole output: one block per outer row, in their order, up to the
   * first inner tree that fails, and then the rows it gave before it failed.
   */
  lemma {:induction false} OutputInBlocks<V>(outer: Stream<V>, inner: Row<V> -> Stream<V>, vars: seq<Bytes>,
                                             plain: bool)
      returns (blocks: seq<seq<Row<V>>>)
    ensures BlocksOf(outer.rows, inner, vars, plain, blocks)
    ensures var out, k := Applied(outer, inner, vars, plain), |blocks|;
            && out.rows == InTurn(blocks) + (if k < |outer.rows| then inner(outer.rows[k]).rows else [])
            && (out.broken <==> k < |outer.rows| || outer.broken)
    decreases |outer.rows|
  {
    blocks := [];
    if outer.rows != [] && !inner(outer.rows[0]).broken {
      var first, later := outer.rows[0], Stream(outer.rows[1..], outer.broken);
      var block := Filled(first, inner(first).rows, vars, plain);
      var rest := OutputInBlocks(later, inner, vars, plain);
      FilledIsBlock(first, inner(first).rows, vars, plain);
      hide Filled, Block;
      blocks := [block] + rest;
      MoreBlocks(outer.rows, inner, vars, plain, block, rest);
    }
  }

  lemma MoreBlocks<V>(outer: seq<Row<V>>, inner: Row<V> -> Stream<V>, vars: seq<Bytes>, plain: bool,
                      block: seq<Row<V>>, rest: seq<seq<Row<V>>>)
    requires outer != [] && !inner(outer[0]).broken && BlocksOf(outer[1..], inner, vars, plain, rest)
    requires Block(outer[0], inner(outer[0]).rows, vars, plain, block)
    ensures BlocksOf(outer, inner, vars, plain, [block] + rest)
    ensures forall tail :: InTurn([block] + rest) + tail == block + (InTurn(rest) + tail)
  {
    hide Block;
    var all := [block] + rest;
    assert all[1..] == rest;
    forall i | 0 < i < |all|
      ensures !inner(outer[i]).broken && Block(outer[i], inner(outer[i]).rows, vars, plain, all[i])
    {
      assert outer[1..][i-1] == outer[i] && rest[i-1] == all[i];
    }
  }

  /** What the operator is doing: nothing, draining an inner tree, or owing a null-extended row. */
  datatype Phase<V> =
    | Idle
    | Draining(outer: Row<V>, inner: Stream<V>, emitted: nat)
    | OwingNull(outer: Row<V>)

  /** What is still to be produced. */
  ghost function Owed<V>(phase: Phase<V>, later: Stream<V>, vars: seq<Bytes>, plain: bool): Stream<V>
  {
    match phase
    case Idle => later
    case OwingNull(r) => Stream([NullExtended(r, vars)] + later.rows, later.broken)
    case Draining(r, i, emitted) =>
      if i.broken then i
      else Stream((if emitted == 0 then Filled(r, i.rows, vars, plain) else i.rows) + later.rows, later.broken)
  }

  lemma OwedRow<V>(r: Row<V>, i: Stream<V>, emitted: nat, later: Stream<V>, vars: seq<Bytes>, plain: bool)
    requires i.rows != []
    ensures Pulled(Owed(Draining(r, i, emitted), later, vars, plain), Got(i.rows[0]),
                   Owed(Draining(r, Stream(i.rows[1..], i.broken), emitted + 1), later, vars, plain))
  {
    assert [i.rows[0]] + i.rows[1..] == i.rows;
    HeadOff(i.rows[0], i.rows[1..], later.rows);
  }

  lemma OwedNull<V>(r: Row<V>, later: Stream<V>, vars: seq<Bytes>, plain: bool)
    ensures Pulled(Owed(OwingNull(r), later, vars, plain), Got(NullExtended(r, vars)), Owed(Idle, later, vars, plain))
  {
    hide NullExtended;
    HeadOff(NullExtended(r, vars), [], later.rows);
  }

  /** An inner tree that is drained leaves a null-extended row if it had no rows. */
  lemma OwedEnd<V>(r: Row<V>, i: Stream<V>, emitted: nat, later: Stream<V>, vars: seq<Bytes>, plain: bool)
    requires i.rows == [] && !i.broken
    ensures Owed(Draining(r, i, emitted), later, vars, plain) ==
            Owed(if emitted == 0 && !plain then OwingNull(r) else Idle, later, vars, plain)
  {
  }

  class OuterApply<V> {
    const outer: Source<V>
    const inner: Row<V> -> Stream<V>
    const newVars: seq<Bytes>
    const plain: bool
    var curOuter: Row<V>
    var curOuterValid: bool
    var curInner: Stream<V>
    var rowsEmitted: nat
    var pendingEmpty: bool

    ghost function Now(): Phase<V>
      reads this
    {
      if pendingEmpty then OwingNull(curOuter)
      else if curOuterValid then Draining(curOuter, curInner, rowsEmitted)
      else Idle
    }

    ghost function Rest(): Stream<V>
      reads this, outer
    {
      Owed(Now(), Applied(outer.left, inner, newVars, plain), newVars, plain)
    }

    constructor (outer: Source<V>, inner: Row<V> -> Stream<V>, newVars: seq<Bytes>, plain: bool)
      ensures Rest() == Applied(outer.left, inner, newVars, plain)
      ensures this.outer == outer
    {
      this.outer, this.inner, this.newVars, this.plain := outer, inner, newVars, plain;
      curOuter, curOuterValid, curInner, rowsEmitted, pendingEmpty := map[], false, Stream([], false), 0, false;
    }

    method Next() returns (p: Pull<V>)
      modifies this, outer
      ensures Pulled(old(Rest()), p, Rest())
    {
      hide NullExtended, Owed, Applied;
      while true
        invariant Rest() == old(Rest())
        decreases |outer.left.rows|, if pendingEmpty then 1 else if curOuterValid then 2 else 0
      {
        ghost var later := Applied(outer.left, inner, newVars, plain);
        if pendingEmpty {
          OwedNull(curOuter, later, newVars, plain);
          pendingEmpty, curOuterValid := false, false;
          return Got(NullExtended(curOuter, newVars));
        }
        if curOuterValid {
          if curInner.rows != [] {
            OwedRow(curOuter, curInner, rowsEmitted, later, newVars, plain);
            p := Got(curInner.rows[0]);
            curInner, rowsEmitted := Stream(curInner.rows[1..], curInner.broken), rowsEmitted + 1;
            return;
          }
          if curInner.broken {
            OwedFailure(curOuter, curInner, rowsEmitted, later, newVars, plain);
            return Failed;
          }
          OwedEnd(curOuter, curInner, rowsEmitted, later, newVars, plain);
          if rowsEmitted == 0 && !plain {
            pendingEmpty := true;
            continue;
          }
          curOuterValid := false;
        }
        ApplyNext(outer.left, inner, newVars, plain);
        p := outer.Next();
        if !p.Got? {
          return;
        }
        curOuter, curOuterValid, curInner, rowsEmitted := p.row, true, inner(p.row), 0;
      }
    }
  }

  lemma OwedFailure<V>(r: Row<V>, i: Stream<V>, emitted: nat, later: Stream<V>, vars: seq<Bytes>, plain: bool)
    requires i == Stream([], true)
    ensures Owed(Draining(r, i, emitted), later, vars, plain) == i
  {
  }

  /** Taking an outer row, or finding that there is none. */
  lemma ApplyNext<V>(o: Stream<V>, inner: Row<V> -> Stream<V>, vars: seq<Bytes>, plain: bool)
    ensures Owed(Idle, Applied(o, inner, vars, plain), vars, plain) ==
            if o.rows == [] then o
            else Owed(Draining(o.rows[0], inner(o.rows[0]), 0),
                      Applied(Stream(o.rows[1..], o.broken), inner, vars, plain), vars, plain)
  {
  }
}
