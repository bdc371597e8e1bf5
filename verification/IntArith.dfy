/**
 * Integer arithmetic on int64 that reports overflow. Go's operators wrap;
 * the checks after them must accept exactly the results that did not.
 */
module IntArith {
  import opened Seqs
  import opened Values

  const MIN: int := -0x8000_0000_0000_0000
  const MAX: int := 0x7FFF_FFFF_FFFF_FFFF

  predicate InInt64(x: int)
  {
    MIN <= x <= MAX
  }

  /** The int64 that a result wraps to. */
  function Wrap(x: int): (r: Int64)
    ensures (r - x) % TWO_64 == 0
    ensures InInt64(x) ==> r == x
  {
    (x + TWO_63) % TWO_64 - TWO_63
  }

  /** Division and remainder truncated toward zero. */
  function Quot(a: int, b: int): int
    requires b != 0
  {
    if (a >= 0) == (b > 0) then Abs(a) / Abs(b) else 0 - Abs(a) / Abs(b)
  }

  function Rem(a: int, b: int): int
    requires b != 0
  {
    a - b * Quot(a, b)
  }

  function Abs(x: int): nat
  {
    if x < 0 then 0 - x else x
  }

  /** The sign bit of a ^ b. */
  predicate SignsDiffer(a: Int64, b: Int64)
  {
    (a < 0) != (b < 0)
  }

  datatype Result = Value(n: Int64) | Overflow | DivisionByZero

  datatype Op = Add | Sub | Mul | Div | Mod

  function AddInt(a: Int64, b: Int64): Result
  {
    var c := Wrap(a + b);
    if SignsDiffer(a, c) && SignsDiffer(b, c) then Overflow else Value(c)
  }

  function SubInt(a: Int64, b: Int64): Result
  {
    var c := Wrap(a - b);
    if SignsDiffer(a, b) && SignsDiffer(a, c) then Overflow else Value(c)
  }

  function MulInt(a: Int64, b: Int64): Result
  {
    if a == 0 || b == 0 then Value(0)
    else
      var c := Wrap(a * b);
      if Wrap(Quot(c, b)) != a || (a == -1 && b == MIN) || (b == -1 && a == MIN) then Overflow else Value(c)
  }

  function DivInt(a: Int64, b: Int64): Result
  {
    if b == 0 then DivisionByZero
    else if a == MIN && b == -1 then Overflow
    else Value(Wrap(Quot(a, b)))
  }

  function ModInt(a: Int64, b: Int64): Result
  {
    if b == 0 then DivisionByZero else Value(Wrap(Rem(a, b)))
  }

  function IntArithmetic(op: Op, a: Int64, b: Int64): Result
  {
    match op
    case Add => AddInt(a, b)
    case Sub => SubInt(a, b)
    case Mul => MulInt(a, b)
    case Div => DivInt(a, b)
    case Mod => ModInt(a, b)
  }

  function NegateInt(n: Int64): Result
  {
    if n == MIN then Overflow else Value(0 - n)
  }

  // ----- The reference: unbounded arithmetic -----

  /** The mathematical result, or None for a zero divisor. */
  function Exact(op: Op, a: int, b: int): Option<int>
  {
    match op
    case Add => Some(a + b)
    case Sub => Some(a - b)
    case Mul => Some(a * b)
    case Div => if b == 0 then None else Some(Quot(a, b))
    case Mod => if b == 0 then None else Some(Rem(a, b))
  }

  /** The value that is q, or an overflow if it does not fit. */
  function Checked(x: int): Result
  {
    if InInt64(x) then Value(x) else Overflow
  }

  lemma WrapFar(x: int)
    requires !InInt64(x) && MIN - TWO_64 < x <= MAX + TWO_64
    ensures Wrap(x) == x - TWO_64 || Wrap(x) == x + TWO_64
  {
  }

  lemma AddChecked(a: Int64, b: Int64)
    ensures AddInt(a, b) == Checked(a + b)
  {
    if !InInt64(a + b) {
      WrapFar(a + b);
    }
    hide Wrap;
  }

  lemma SubChecked(a: Int64, b: Int64)
    ensures SubInt(a, b) == Checked(a - b)
  {
    if !InInt64(a - b) {
      WrapFar(a - b);
    }
    hide Wrap;
  }

  // ----- Products and quotients -----

  lemma MulGrows(y: nat, q: nat)
    requires y > 0
    ensures q <= y * q
  {
    assert y * q == (y - 1) * q + q;
    assert (y - 1) * q >= 0;
  }

  lemma MulNeg(b: int, q: int)
    ensures (0 - b) * q == 0 - b * q && b * (0 - q) == 0 - b * q
  {
  }

  lemma DivBound(x: nat, y: nat)
    requires y > 0
    ensures 0 <= x / y <= y * (x / y) <= x
    ensures x == y * (x / y) + x % y && 0 <= x % y < y
  {
    MulGrows(y, x / y);
  }

  /** The divisor times the quotient, in magnitudes. */
  lemma QuotTimes(a: int, b: int)
    requires b != 0
    ensures var p := Abs(b) * (Abs(a) / Abs(b)); b * Quot(a, b) == if a >= 0 then p else 0 - p
  {
    var y, q := Abs(b), Abs(a) / Abs(b);
    MulNeg(y, q);
    MulNeg(y, 0 - q);
  }

  lemma QuotBound(a: int, b: int)
    requires b != 0
    ensures Abs(Quot(a, b)) <= Abs(a)
    ensures Abs(b * Quot(a, b)) <= Abs(a)
    ensures b * Quot(a, b) == 0 || (b * Quot(a, b) > 0 <==> a > 0)
  {
    DivBound(Abs(a), Abs(b));
    QuotTimes(a, b);
  }

  lemma DivProduct(x: nat, y: nat)
    requires y > 0
    ensures (y * x) / y == x
  {
    var p := y * x;
    var q, r := p / y, p % y;
    DivBound(p, y);
    assert y * (x - q) == y * x - y * q == r;
    Between(y, x - q, r);
  }

  /** A nonzero multiple is at least as large. */
  lemma MultipleGrows(y: nat, d: int)
    requires d != 0
    ensures Abs(y * d) >= y
  {
    if d > 0 {
      MulGrows(d, y);
      Commute(d, y);
    } else {
      MulGrows(0 - d, y);
      Commute(0 - d, y);
      MulNeg(y, 0 - d);
    }
  }

  lemma Between(y: nat, d: int, r: nat)
    requires y > 0 && y * d == r && r < y
    ensures d == 0
  {
    if d != 0 {
      MultipleGrows(y, d);
    }
  }

  lemma Commute(x: int, y: int)
    ensures x * y == y * x
  {
  }

  lemma AbsProduct(a: int, b: int)
    ensures Abs(a * b) == Abs(b) * Abs(a)
    ensures a * b == if (a >= 0) == (b >= 0) then Abs(b) * Abs(a) else 0 - Abs(b) * Abs(a)
    ensures a != 0 && b != 0 ==> Abs(b) * Abs(a) > 0
  {
    var x: int, y: int := Abs(a), Abs(b);
    var p := y * x;
    Commute(a, b);
    MulNeg(y, x);
    MulNeg(y, 0 - x);
    if x > 0 && y > 0 {
      MulGrows(y, x);
    }
    assert p >= 0;
    assert b * a == if (a >= 0) == (b >= 0) then p else 0 - p by {
      if a >= 0 {
        assert b * a == b * x;
      } else {
        assert b * a == b * (0 - x);
      }
    }
  }

  /** Dividing a product by one factor gives the other. */
  lemma QuotOfProduct(a: int, b: int)
    requires b != 0
    ensures Quot(a * b, b) == a
  {
    AbsProduct(a, b);
    DivProduct(Abs(a), Abs(b));
  }

  /**
   * The division test after a wrapped product finds every overflow; the one
   * product it misses, MIN * -1, is caught by name.
   */
  lemma MulChecked(a: Int64, b: Int64)
    ensures MulInt(a, b) == Checked(a * b)
  {
    if a != 0 && b != 0 {
      var c := Wrap(a * b);
      QuotBound(c, b);
      if InInt64(a * b) {
        QuotOfProduct(a, b);
        SmallFactors(a, b);
      } else {
        OverflowFound(a, b, c);
      }
    }
  }

  lemma SmallFactors(a: Int64, b: Int64)
    requires InInt64(a * b)
    ensures !(a == -1 && b == MIN) && !(b == -1 && a == MIN)
  {
  }

  lemma OverflowFound(a: Int64, b: Int64, c: Int64)
    requires b != 0 && !InInt64(a * b)
    ensures Wrap(Quot(c, b)) != a || (b == -1 && a == MIN)
  {
    QuotBound(c, b);
    var q := Quot(c, b);
    if InInt64(q) {
      assert b * a == a * b;
    } else {
      assert c == MIN && Abs(q) == Abs(c);
      QuotientOfMin(b);
    }
  }

  /** Only MIN / -1 leaves the range. */
  lemma QuotientOfMin(b: Int64)
    requires b != 0 && !InInt64(Quot(MIN, b))
    ensures b == -1 && Wrap(Quot(MIN, b)) == MIN
  {
    QuotBound(MIN, b);
    if Abs(b) >= 2 {
      assert Abs(MIN) / Abs(b) <= TWO_63 / 2 by {
        DivShrinks(TWO_63, Abs(b));
      }
    }
  }

  lemma DivShrinks(x: nat, y: nat)
    requires y >= 2
    ensures x / y <= x / 2
  {
    var q := x / y;
    DivBound(x, y);
    assert y * q == 2 * q + (y - 2) * q;
    assert (y - 2) * q >= 0;
  }

  lemma DivChecked(a: Int64, b: Int64)
    requires b != 0
    ensures DivInt(a, b) == Checked(Quot(a, b))
  {
    QuotBound(a, b);
    if a == MIN && !InInt64(Quot(a, b)) {
      QuotientOfMin(b);
    }
  }

  /** A remainder is smaller than the divisor, has the dividend's sign and always fits. */
  lemma ModChecked(a: Int64, b: Int64)
    requires b != 0
    ensures ModInt(a, b) == Value(Rem(a, b)) && Checked(Rem(a, b)) == Value(Rem(a, b))
    ensures Abs(Rem(a, b)) < Abs(b) && (Rem(a, b) != 0 ==> (Rem(a, b) > 0 <==> a > 0))
  {
    DivBound(Abs(a), Abs(b));
    QuotTimes(a, b);
  }

  /**
   * Every operator returns the mathematical result when it fits, an overflow
   * exactly when it does not, and fails on a zero divisor.
   */
  lemma ArithmeticExact(op: Op, a: Int64, b: Int64)
    ensures IntArithmetic(op, a, b) ==
            match Exact(op, a, b)
            case None => DivisionByZero
            case Some(x) => Checked(x)
  {
    hide Wrap, Quot, Rem, AddInt, SubInt, MulInt, Checked;
    match op
    case Add => AddChecked(a, b);
    case Sub => SubChecked(a, b);
    case Mul => MulChecked(a, b);
    case Div => if b != 0 { DivChecked(a, b); }
    case Mod => if b != 0 { ModChecked(a, b); }
  }

  lemma NegateExact(n: Int64)
    ensures NegateInt(n) == Checked(0 - n)
  {
  }

  // ----- Sums -----

  /** The sum of the values; null contributes nothing. */
  function Total(vs: seq<Option<Int64>>): int
  {
    if vs == [] then 0
    else Total(vs[..|vs|-1]) + if vs[|vs|-1].Some? then vs[|vs|-1].value else 0
  }

  ghost predicate PrefixesFit(vs: seq<Option<Int64>>)
  {
    forall k :: 0 <= k <= |vs| ==> InInt64(Total(vs[..k]))
  }

  class Accumulator {
    var intSum: Int64

    constructor ()
      ensures intSum == 0
    {
      intSum := 0;
    }

    /** Adds one value; a failure leaves the sum alone. */
    method Take(v: Option<Int64>) returns (ok: bool)
      modifies this
      ensures ok <==> v.None? || InInt64(old(intSum) + v.value)
      ensures intSum == if ok && v.Some? then old(intSum) + v.value else old(intSum)
    {
      if v.None? {
        return true;
      }
      AddChecked(intSum, v.value);
      match AddInt(intSum, v.value) {
        case Value(n) => intSum := n; ok := true;
        case _ => ok := false;
      }
    }
  }

  /** sum() over integers is exact, and fails exactly when a running prefix does not fit. */
  method Sum(vs: seq<Option<Int64>>) returns (r: Result)
    ensures r == if PrefixesFit(vs) then Checked(Total(vs)) else Overflow
    ensures r.Value? <==> PrefixesFit(vs)
  {
    var acc := new Accumulator();
    for i := 0 to |vs|
      invariant fresh(acc)
      invariant acc.intSum == Total(vs[..i])
      invariant forall k :: 0 <= k <= i ==> InInt64(Total(vs[..k]))
    {
      assert vs[..i+1][..i] == vs[..i] && vs[..i+1][i] == vs[i];
      var ok := acc.Take(vs[i]);
      if !ok {
        assert !InInt64(Total(vs[..i+1]));
        return Overflow;
      }
    }
    assert vs[..|vs|] == vs;
    r := Value(acc.intSum);
  }

  /** The order of the values matters: MAX, 1, -1 overflows although its total fits. */
  lemma OrderMatters()
    ensures var vs: seq<Option<Int64>> := [Some(MAX), Some(1), Some(-1)]; InInt64(Total(vs)) && !PrefixesFit(vs)
    ensures var vs: seq<Option<Int64>> := [Some(MAX), Some(-1), Some(1)]; PrefixesFit(vs) && Total(vs) == MAX
  {
    var vs: seq<Option<Int64>> := [Some(MAX), Some(1), Some(-1)];
    var ws: seq<Option<Int64>> := [Some(MAX), Some(-1), Some(1)];
    assert vs[..3] == vs && vs[..2][..1] == vs[..1] && vs[..1][..0] == [];
    assert ws[..3] == ws && ws[..2][..1] == ws[..1] && ws[..1][..0] == [] == ws[..0];
    assert Total(ws[..0]) == 0 && Total(ws[..1]) == MAX && Total(ws[..2]) == MAX - 1 && Total(ws[..3]) == MAX;
    assert Total(vs[..2]) == MAX + 1;
  }
}
