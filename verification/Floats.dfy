/**
 * float64 values, their comparison (IEEE 754-2008 section 5.11) and the
 * conversion of an int64, rounding to nearest with ties to even (section 4.3.1).
 */
module Floats {
  import opened Values

  const TWO_52: nat := 0x10_0000_0000_0000
  const TWO_53: nat := 0x20_0000_0000_0000
  const INF_MAG: nat := 0x7FF0_0000_0000_0000

  predicate IsNaN(f: F64)
  {
    f.mag > INF_MAG
  }

  predicate IsInf(f: F64)
  {
    f.mag == INF_MAG
  }

  function Pow2(k: int): (r: real)
    ensures r > 0.0
    decreases if k < 0 then -k else k
  {
    if k == 0 then 1.0 else if k > 0 then 2.0 * Pow2(k - 1) else Pow2(k + 1) / 2.0
  }

  function Exponent(m: nat): nat
  {
    m / TWO_52
  }

  /** Subnormals have no hidden bit and share the exponent of the smallest normals. */
  function Significand(m: nat): nat
  {
    if Exponent(m) == 0 then m % TWO_52 else TWO_52 + m % TWO_52
  }

  function Scale(m: nat): int
  {
    (if Exponent(m) == 0 then 1 else Exponent(m)) - 1075
  }

  /**
   * The magnitude a bit pattern stands for. The pattern of infinity reads as
   * the power of two after the largest finite number, which orders it right.
   */
  function MagValue(m: nat): real
  {
    Significand(m) as real * Pow2(Scale(m))
  }

  function Val(f: F64): real
  {
    if f.neg then -MagValue(f.mag) else MagValue(f.mag)
  }

  predicate Equal(a: F64, b: F64)
  {
    !IsNaN(a) && !IsNaN(b) && Val(a) == Val(b)
  }

  predicate Less(a: F64, b: F64)
  {
    !IsNaN(a) && !IsNaN(b) && Val(a) < Val(b)
  }

  // ----- Bit patterns order like the numbers they stand for -----

  lemma {:induction false} Pow2Grows(j: int, k: int)
    requires j <= k
    ensures Pow2(j) <= Pow2(k)
    ensures j < k ==> 2.0 * Pow2(j) <= Pow2(k)
    decreases k - j
  {
    if j < k {
      Pow2Grows(j, k - 1);
      Pow2Step(k - 1);
    }
  }

  lemma Pow2Step(k: int)
    ensures Pow2(k + 1) == 2.0 * Pow2(k)
  {
  }

  lemma MulLess(x: real, y: real, p: real)
    requires x < y && p > 0.0
    ensures x * p < y * p
  {
  }

  lemma MulLeq(x: real, p: real, q: real)
    requires x >= 0.0 && p <= q
    ensures x * p <= x * q
  {
  }

  lemma MagValueGrows(a: nat, b: nat)
    requires a < b
    ensures MagValue(a) < MagValue(b)
  {
    var p, q := Pow2(Scale(a)), Pow2(Scale(b));
    var x, y := Significand(a), Significand(b);
    hide Pow2;
    if Scale(a) == Scale(b) {
      MulLess(x as real, y as real, p);
    } else {
      assert Scale(a) < Scale(b) && x < TWO_53 && TWO_52 <= y;
      Pow2Grows(Scale(a), Scale(b));
      BinadesGrow(x, y, p, q);
    }
  }

  lemma BinadesGrow(x: nat, y: nat, p: real, q: real)
    requires x < TWO_53 && TWO_52 <= y && 0.0 < p && 2.0 * p <= q
    ensures x as real * p < y as real * q
  {
    MulLess(x as real, TWO_53 as real, p);
    MulLeq(TWO_52 as real, 2.0 * p, q);
    MulLeq(q, TWO_52 as real, y as real);
  }

  /** A bit pattern read as a signed magnitude. */
  function Rank(f: F64): int
  {
    if f.neg then 0 - f.mag else f.mag
  }

  lemma MagValueZero(m: nat)
    ensures MagValue(m) >= 0.0
    ensures MagValue(m) == 0.0 <==> m == 0
  {
    if m > 0 {
      MagValueGrows(0, m);
    }
  }

  /** Comparing numbers is comparing signed magnitudes; the two zeros coincide. */
  lemma RankOrders(a: F64, b: F64)
    ensures Val(a) < Val(b) <==> Rank(a) < Rank(b)
    ensures Val(a) == Val(b) <==> Rank(a) == Rank(b)
  {
    MagValueZero(a.mag);
    MagValueZero(b.mag);
    if a.mag < b.mag {
      MagValueGrows(a.mag, b.mag);
    } else if b.mag < a.mag {
      MagValueGrows(b.mag, a.mag);
    }
  }

  // ----- Conversion from int64 -----

  function Pow2Nat(k: nat): (r: nat)
    ensures r > 0
  {
    if k == 0 then 1 else 2 * Pow2Nat(k - 1)
  }

  lemma {:induction false} Pow2NatGrows(j: nat, k: nat)
    requires j <= k
    ensures Pow2Nat(j) <= Pow2Nat(k)
    decreases k - j
  {
    if j < k {
      Pow2NatGrows(j, k - 1);
    }
  }

  /** How many doublings bring m up to 53 bits. */
  function ShiftUp(m: nat): (s: nat)
    requires 0 < m < TWO_53
    ensures TWO_52 <= m * Pow2Nat(s) < TWO_53
    ensures s <= 52
    decreases TWO_53 - m
  {
    if m >= TWO_52 then 0
    else
      var s := 1 + ShiftUp(2 * m);
      assert m * (2 * Pow2Nat(s - 1)) == (2 * m) * Pow2Nat(s - 1);
      ShiftUpBound(m, s);
      s
  }

  lemma ShiftUpBound(m: nat, s: nat)
    requires 0 < m && m * Pow2Nat(s) < TWO_53
    ensures s <= 52
  {
    if s > 52 {
      Pow2NatOf53();
      Pow2NatGrows(53, s);
      var p := Pow2Nat(s);
      hide Pow2Nat;
      MulGrows(1, m, p);
    }
  }

  lemma Pow2NatOf53()
    ensures Pow2Nat(53) == TWO_53
  {
    assert Pow2Nat(10) == 0x400;
    assert Pow2Nat(20) == 0x10_0000;
    assert Pow2Nat(30) == 0x4000_0000;
    assert Pow2Nat(40) == 0x100_0000_0000;
  }

  lemma MulGrows(a: nat, b: nat, d: nat)
    requires a <= b
    ensures a * d <= b * d
  {
  }

  /** How many halvings bring m down to 53 bits. */
  function ShiftDown(m: nat): (s: nat)
    ensures m < TWO_53 * Pow2Nat(s)
    ensures s > 0 ==> TWO_52 * Pow2Nat(s) <= m
  {
    if m < TWO_53 then 0 else 1 + ShiftDown(m / 2)
  }

  /** m / 2^s, rounded to nearest with ties to even. */
  function RoundShift(m: nat, s: nat): nat
  {
    var q, r := m / Pow2Nat(s), m % Pow2Nat(s);
    if 2 * r > Pow2Nat(s) || (2 * r == Pow2Nat(s) && q % 2 == 1) then q + 1 else q
  }

  lemma QuotientBounds(m: nat, d: nat, lo: nat, hi: nat)
    requires d > 0 && lo * d <= m < hi * d
    ensures lo <= m / d < hi
  {
    var q := m / d;
    assert m == q * d + m % d;
    if q < lo {
      MulGrows(q + 1, lo, d);
    }
    if q >= hi {
      MulGrows(hi, q, d);
    }
  }

  lemma RoundShiftBounds(m: nat)
    requires m >= TWO_53
    ensures TWO_52 <= RoundShift(m, ShiftDown(m)) <= TWO_53
  {
    QuotientBounds(m, Pow2Nat(ShiftDown(m)), TWO_52, TWO_53);
  }

  /** The bit pattern of the float64 nearest to m. Rounding up to 2^53 carries into the exponent. */
  function MagOf(m: nat): nat
  {
    if m == 0 then 0
    else if m < TWO_53 then (1075 - ShiftUp(m)) * TWO_52 + (m * Pow2Nat(ShiftUp(m)) - TWO_52)
    else RoundShiftBounds(m); (1075 + ShiftDown(m)) * TWO_52 + (RoundShift(m, ShiftDown(m)) - TWO_52)
  }

  /** Integers up to 2^53 are converted exactly. */
  lemma MagOfExact(m: nat)
    requires m <= TWO_53
    ensures MagValue(MagOf(m)) == m as real
  {
    if m == TWO_53 {
      assert ShiftDown(m) == 1 && MagOf(m) == 1076 * TWO_52;
    } else if m > 0 {
      var s: int := ShiftUp(m);
      FieldsOf(1075 - s, m * Pow2Nat(s) - TWO_52);
      assert MagValue(MagOf(m)) == (m * Pow2Nat(s)) as real * Pow2(0 - s);
      ShiftedBack(m, s);
    }
  }

  lemma ShiftedBack(m: nat, s: nat)
    ensures (m * Pow2Nat(s)) as real * Pow2(0 - s) == m as real
  {
    var p, q := Pow2Nat(s), Pow2(0 - s);
    Inverse(s);
    hide Pow2, Pow2Nat;
    assert (m * p) as real == m as real * p as real;
    assert m as real * p as real * q == m as real * (p as real * q);
  }

  lemma FieldsOf(e: nat, frac: nat)
    requires frac < TWO_52
    ensures Exponent(e * TWO_52 + frac) == e && (e * TWO_52 + frac) % TWO_52 == frac
  {
  }

  lemma {:induction false} Inverse(s: nat)
    ensures Pow2Nat(s) as real * Pow2(0 - s) == 1.0
  {
    if s > 0 {
      Inverse(s - 1);
      assert Pow2(0 - s) == Pow2(0 - (s - 1)) / 2.0;
    }
  }

  lemma {:induction false} ShiftUpShrinks(a: nat, b: nat)
    requires 0 < a <= b < TWO_53
    ensures ShiftUp(a) >= ShiftUp(b)
    decreases TWO_53 - a
  {
    if b < TWO_52 {
      ShiftUpShrinks(2 * a, 2 * b);
    }
  }

  lemma {:induction false} ShiftDownGrows(a: nat, b: nat)
    requires a <= b
    ensures ShiftDown(a) <= ShiftDown(b)
    decreases a
  {
    if a >= TWO_53 {
      ShiftDownGrows(a / 2, b / 2);
    }
  }

  lemma QuotientGrows(a: nat, b: nat, d: nat)
    requires a <= b && d > 0
    ensures a / d <= b / d
    ensures a / d == b / d ==> a % d <= b % d
  {
    var q, r := a / d, b / d;
    assert a == q * d + a % d && b == r * d + b % d;
    if q > r {
      MulGrows(r + 1, q, d);
    }
  }

  lemma RoundShiftGrows(a: nat, b: nat, s: nat)
    requires a <= b
    ensures RoundShift(a, s) <= RoundShift(b, s)
  {
    QuotientGrows(a, b, Pow2Nat(s));
  }

  /** Conversion keeps the order of integers (it may merge neighbours). */
  lemma MagOfGrows(a: nat, b: nat)
    requires a <= b
    ensures MagOf(a) <= MagOf(b)
  {
    if a == 0 {
    } else if b < TWO_53 {
      SmallGrows(a, b);
    } else if a < TWO_53 {
      var s, t := ShiftUp(a), ShiftDown(b);
      RoundShiftBounds(b);
      assert MagOf(a) <= 1076 * TWO_52 <= MagOf(b);
    } else {
      LargeGrows(a, b);
    }
  }

  lemma SmallGrows(a: nat, b: nat)
    requires 0 < a <= b < TWO_53
    ensures MagOf(a) <= MagOf(b)
  {
    ShiftUpShrinks(a, b);
    if ShiftUp(a) == ShiftUp(b) {
      MulGrows(a, b, Pow2Nat(ShiftUp(a)));
    }
  }

  lemma LargeGrows(a: nat, b: nat)
    requires TWO_53 <= a <= b
    ensures MagOf(a) <= MagOf(b)
  {
    ShiftDownGrows(a, b);
    RoundShiftBounds(a);
    RoundShiftBounds(b);
    if ShiftDown(a) == ShiftDown(b) {
      RoundShiftGrows(a, b, ShiftDown(a));
    }
  }

  lemma MagOfFinite(m: nat)
    requires m <= 0x8000_0000_0000_0000
    ensures MagOf(m) < INF_MAG
  {
    if m >= TWO_53 {
      var s := ShiftDown(m);
      if s > 11 {
        assert Pow2Nat(12) == 4096;
        Pow2NatGrows(12, s);
      }
      RoundShiftBounds(m);
    }
  }

  function OfInt(i: Int64): (f: F64)
    ensures !IsNaN(f) && !IsInf(f)
  {
    var m := if i < 0 then 0 - i else i;
    MagOfFinite(m);
    F64(i < 0, MagOf(m))
  }

  lemma OfIntExact(i: Int64)
    requires 0 - TWO_53 <= i <= TWO_53
    ensures Val(OfInt(i)) == i as real
  {
    MagOfExact(if i < 0 then 0 - i else i);
  }

  lemma OfIntGrows(i: Int64, j: Int64)
    requires i <= j
    ensures Val(OfInt(i)) <= Val(OfInt(j))
  {
    if i >= 0 {
      MagOfGrows(i, j);
    } else if j < 0 {
      MagOfGrows(0 - j, 0 - i);
    }
    RankOrders(OfInt(j), OfInt(i));
  }

  /**
   * An integer converts to a number below 2^53 in magnitude only if it is
   * that number, so rounding never makes a large integer equal a small one.
   */
  lemma OfIntSmall(i: Int64, r: real)
    requires -(TWO_53 as real) < r < TWO_53 as real
    ensures Val(OfInt(i)) == r <==> i as real == r
    ensures Val(OfInt(i)) < r <==> (i as real) < r
  {
    if i > TWO_53 {
      OfIntExact(TWO_53);
      OfIntGrows(TWO_53, i);
    } else if i < 0 - TWO_53 {
      OfIntExact(0 - TWO_53);
      OfIntGrows(i, 0 - TWO_53);
    } else {
      OfIntExact(i);
    }
  }

  // ----- The conversion is the one the standard asks for -----

  lemma {:induction false} Pow2Agrees(s: nat)
    ensures Pow2(s) == Pow2Nat(s) as real
  {
    if s > 0 {
      Pow2Agrees(s - 1);
    }
  }

  lemma NormalValue(e: nat, frac: nat)
    requires e > 0 && frac < TWO_52
    ensures MagValue(e * TWO_52 + frac) == (TWO_52 + frac) as real * Pow2(e - 1075)
  {
    FieldsOf(e, frac);
  }

  lemma BinadeValue(s: nat, x: nat)
    requires TWO_52 <= x <= TWO_53
    ensures MagValue((1075 + s) * TWO_52 + (x - TWO_52)) == (x * Pow2Nat(s)) as real
  {
    hide Pow2, Pow2Nat, MagValue, MagOf, RoundShift, ShiftDown;
    Pow2Agrees(s);
    Pow2Step(s);
    if x < TWO_53 {
      NormalValue(1075 + s, x - TWO_52);
    } else {
      NormalValue(1076 + s, 0);
    }
    var d := Pow2Nat(s);
    assert (x * d) as real == x as real * d as real;
    assert (1075 + s) * TWO_52 + TWO_52 == (1076 + s) * TWO_52;
  }

  function Dist(x: real, y: real): real
  {
    if x < y then y - x else x - y
  }

  lemma RoundsToNearer(m: nat, s: nat)
    ensures var d := Pow2Nat(s);
            var q := m / d;
            && q * d <= m < q * d + d
            && ((RoundShift(m, s) == q && 2 * (m - q * d) <= d) || (RoundShift(m, s) == q + 1 && 2 * (m - q * d) >= d))
            && (2 * (m - q * d) == d ==> RoundShift(m, s) % 2 == 0)
  {
    hide Pow2Nat;
    QuotientRemainder(m, Pow2Nat(s));
  }

  lemma QuotientRemainder(m: nat, d: nat)
    requires d > 0
    ensures m == m / d * d + m % d && 0 <= m % d < d
  {
  }

  lemma MagOfLarge(m: nat)
    requires m >= TWO_53
    ensures MagOf(m) == (1075 + ShiftDown(m)) * TWO_52 + (RoundShift(m, ShiftDown(m)) - TWO_52)
    ensures TWO_52 * Pow2Nat(ShiftDown(m)) <= m < TWO_53 * Pow2Nat(ShiftDown(m))
  {
  }

  lemma EvenPattern(e: nat, x: nat)
    requires e > 0
    ensures (e * TWO_52 + (x - TWO_52)) % 2 == x % 2
  {
    assert e * TWO_52 == 2 * (e * 0x8_0000_0000_0000);
  }

  /** Where a large integer lies between two neighbouring patterns, and which one is taken. */
  lemma Neighbours(m: nat) returns (low: nat, base: nat, d: nat)
    requires m > TWO_53
    ensures MagValue(low) == base as real && MagValue(low + 1) == (base + d) as real && base <= m < base + d
    ensures (MagOf(m) == low && 2 * (m - base) <= d) || (MagOf(m) == low + 1 && 2 * (m - base) >= d)
    ensures 2 * (m - base) == d ==> MagOf(m) % 2 == 0
  {
    hide Pow2, Pow2Nat, MagValue, MagOf, RoundShift, ShiftDown;
    MagOfLarge(m);
    var s := ShiftDown(m);
    d := Pow2Nat(s);
    var q := m / d;
    QuotientBounds(m, d, TWO_52, TWO_53);
    BinadeValue(s, q);
    BinadeValue(s, q + 1);
    RoundsToNearer(m, s);
    EvenPattern(1075 + s, RoundShift(m, s));
    low := (1075 + s) * TWO_52 + (q - TWO_52);
    base := q * d;
    assert (q + 1) * d == base + d;
  }

  /** No other float64 is nearer, and of two equally near ones the even pattern is taken. */
  lemma MagOfNearest(m: nat, g: nat)
    ensures Dist(MagValue(MagOf(m)), m as real) <= Dist(MagValue(g), m as real)
    ensures Dist(MagValue(MagOf(m)), m as real) == Dist(MagValue(g), m as real) && g != MagOf(m) ==> MagOf(m) % 2 == 0
  {
    if m <= TWO_53 {
      MagOfExact(m);
      if g != MagOf(m) {
        Distinct(g, MagOf(m));
      }
    } else {
      var low, base, d := Neighbours(m);
      hide MagOf, MagValue;
      NearerOf(low, g, base, d, m);
    }
  }

  /** Between two neighbours, every other number is at least as far away as the nearer one. */
  lemma NearerOf(low: nat, g: nat, base: nat, d: nat, m: nat)
    requires MagValue(low) == base as real && MagValue(low + 1) == (base + d) as real && base <= m < base + d
    ensures g <= low ==> Dist(MagValue(g), m as real) >= (m - base) as real
    ensures g > low ==> Dist(MagValue(g), m as real) >= (base + d - m) as real
    ensures g < low ==> Dist(MagValue(g), m as real) > (m - base) as real
    ensures g > low + 1 ==> Dist(MagValue(g), m as real) > (base + d - m) as real
  {
    if g < low {
      MagValueGrows(g, low);
    } else if g > low + 1 {
      MagValueGrows(low + 1, g);
    }
  }

  lemma Distinct(a: nat, b: nat)
    requires a != b
    ensures MagValue(a) != MagValue(b)
  {
    if a < b {
      MagValueGrows(a, b);
    } else {
      MagValueGrows(b, a);
    }
  }

  lemma OfIntNearest(i: Int64, f: F64)
    requires !IsNaN(f)
    ensures Dist(Val(OfInt(i)), i as real) <= Dist(Val(f), i as real)
    ensures Dist(Val(OfInt(i)), i as real) == Dist(Val(f), i as real) && Val(f) != Val(OfInt(i)) ==>
            OfInt(i).mag % 2 == 0
  {
    var m := if i < 0 then 0 - i else i;
    MagOfNearest(m, f.mag);
    MagOfNearest(m, 0);
    MagValueZero(f.mag);
  }
}
