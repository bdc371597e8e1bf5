/** How queries compare property values, and what index lookups must therefore visit. */
module Compare {
  import opened Seqs
  import opened Values
  import opened Floats
  import Lex

  /** Equality as `=` has it: numbers compare as numbers, NaN and null equal nothing. */
  predicate QueryEqual(a: Value, b: Value)
  {
    match (a, b)
    case (Bool(x), Bool(y)) => x == y
    case (Str(x), Str(y)) => x == y
    case (Int(x), Int(y)) => x == y
    case (Int(x), Float(y)) => Equal(OfInt(x), y)
    case (Float(x), Int(y)) => Equal(x, OfInt(y))
    case (Float(x), Float(y)) => Equal(x, y)
    case _ => false
  }

  /** The same stored value: same type and, for floats, the same bits. */
  predicate SameValue(a: Value, b: Value)
  {
    IsIndexable(a) && a == b
  }

  datatype Op = Lt | Le | Gt | Ge

  predicate Holds(op: Op, sign: int)
  {
    match op
    case Lt => sign < 0
    case Le => sign <= 0
    case Gt => sign > 0
    case Ge => sign >= 0
  }

  function SignOf(less: bool, greater: bool): int
  {
    if less then -1 else if greater then 1 else 0
  }

  /** The sign of a - b, if the two can be compared. */
  function CompareValues(a: Value, b: Value): Option<int>
  {
    match (a, b)
    case (Int(x), Int(y)) => Some(SignOf(x < y, x > y))
    case (Int(x), Float(y)) => Some(SignOf(Less(OfInt(x), y), Less(y, OfInt(x))))
    case (Float(x), Int(y)) => Some(SignOf(Less(x, OfInt(y)), Less(OfInt(y), x)))
    case (Float(x), Float(y)) => Some(SignOf(Less(x, y), Less(y, x)))
    case (Str(x), Str(y)) => Some(SignOf(Lex.Less(x, y), Lex.Less(y, x)))
    case (Bool(x), Bool(y)) => Some(SignOf(!x && y, x && !y))
    case _ => None
  }

  predicate NaNValue(v: Value)
  {
    v.Float? && IsNaN(v.f)
  }

  /** Whether `a op b` is true; null, NaN and different kinds never are. */
  predicate Compares(op: Op, a: Value, b: Value)
  {
    !NaNValue(a) && !NaNValue(b) && CompareValues(a, b).Some? && Holds(op, CompareValues(a, b).value)
  }

  // ----- The order behind the comparisons -----

  /** The numbers, the strings and the booleans: values are compared within one of these. */
  datatype Family = Numbers | Strings | Booleans | Unordered

  function FamilyOf(v: Value): Family
  {
    match v
    case Int(_) => Numbers
    case Float(f) => if IsNaN(f) then Unordered else Numbers
    case Str(_) => Strings
    case Bool(_) => Booleans
    case _ => Unordered
  }

  predicate Comparable(a: Value, b: Value)
  {
    FamilyOf(a) == FamilyOf(b) != Unordered
  }

  /** The float64 that stands for a number beside a float. */
  function AsFloat(v: Value): F64
    requires FamilyOf(v) == Numbers
  {
    if v.Int? then OfInt(v.i) else v.f
  }

  lemma IntegersCompare(x: Int64, y: Int64)
    ensures Compares(Lt, Int(x), Int(y)) <==> x < y
    ensures Compares(Le, Int(x), Int(y)) <==> x <= y
    ensures Compares(Gt, Int(x), Int(y)) <==> x > y
    ensures Compares(Ge, Int(x), Int(y)) <==> x >= y
  {
  }

  /** Beside a float, numbers compare by value, integers converted. */
  lemma NumbersCompare(a: Value, b: Value)
    requires FamilyOf(a) == FamilyOf(b) == Numbers && (a.Float? || b.Float?)
    ensures Compares(Lt, a, b) <==> Val(AsFloat(a)) < Val(AsFloat(b))
    ensures Compares(Le, a, b) <==> Val(AsFloat(a)) <= Val(AsFloat(b))
    ensures Compares(Gt, a, b) <==> Val(AsFloat(a)) > Val(AsFloat(b))
    ensures Compares(Ge, a, b) <==> Val(AsFloat(a)) >= Val(AsFloat(b))
  {
    hide Val, OfInt;
  }

  lemma StringsCompare(x: Bytes, y: Bytes)
    ensures Compares(Lt, Str(x), Str(y)) <==> Lex.Less(x, y)
    ensures Compares(Le, Str(x), Str(y)) <==> Lex.Leq(x, y)
    ensures Compares(Gt, Str(x), Str(y)) <==> Lex.Less(y, x)
    ensures Compares(Ge, Str(x), Str(y)) <==> Lex.Leq(y, x)
  {
    Lex.Trichotomy(x, y);
  }

  /** False comes before true. */
  lemma BooleansCompare(x: bool, y: bool)
    ensures Compares(Lt, Bool(x), Bool(y)) <==> !x && y
    ensures Compares(Le, Bool(x), Bool(y)) <==> (x ==> y)
    ensures Compares(Gt, Bool(x), Bool(y)) <==> x && !y
    ensures Compares(Ge, Bool(x), Bool(y)) <==> (y ==> x)
  {
  }

  /**
   * Of two comparable values exactly one of less, equal and greater holds,
   * and the inclusive comparisons add equality; of other values none does.
   */
  lemma ComparesExactly(a: Value, b: Value)
    ensures Comparable(a, b) <==> Compares(Lt, a, b) || QueryEqual(a, b) || Compares(Gt, a, b)
    ensures !(Compares(Lt, a, b) && QueryEqual(a, b)) && !(QueryEqual(a, b) && Compares(Gt, a, b))
    ensures !(Compares(Lt, a, b) && Compares(Gt, a, b))
    ensures Compares(Le, a, b) <==> Compares(Lt, a, b) || QueryEqual(a, b)
    ensures Compares(Ge, a, b) <==> Compares(Gt, a, b) || QueryEqual(a, b)
  {
    hide Val, OfInt, Lex.Less;
    match (a, b)
    case (Str(x), Str(y)) => Lex.Trichotomy(x, y);
    case _ =>
  }

  /** Less than is transitive, although equality of integers with floats is not. */
  lemma LessTransitive(a: Value, b: Value, c: Value)
    requires Compares(Lt, a, b) && Compares(Lt, b, c)
    ensures Compares(Lt, a, c)
  {
    hide Val, OfInt, Lex.Less;
    match (a, b, c)
    case (Str(x), Str(y), Str(z)) =>
      Lex.Transitive(x, y, z);
    case (Int(x), Int(y), Float(_)) => OfIntGrows(x, y);
    case (Float(_), Int(y), Int(z)) => OfIntGrows(y, z);
    case (Int(x), Float(_), Int(z)) =>
      if z <= x {
        OfIntGrows(z, x);
      }
    case _ =>
  }

  const NEG_ZERO: F64 := F64(true, 0)
  const ZERO: F64 := F64(false, 0)

  predicate IsIntegral(f: F64)
  {
    Val(f) == Val(f).Floor as real
  }

  /**
   * The stored values an index lookup for v must visit, or None when the set
   * is not a few exact keys: a float beyond 2^53 equals several integers.
   */
  function EqualityProbes(v: Value): Option<seq<Value>>
  {
    match v
    case Int(x) =>
      if Val(OfInt(x)) == 0.0 then Some([Int(x), Float(OfInt(x)), Float(NEG_ZERO)])
      else Some([Int(x), Float(OfInt(x))])
    case Float(x) =>
      if IsNaN(x) then Some([])
      else if Val(x) == 0.0 then Some([Int(0), Float(ZERO), Float(NEG_ZERO)])
      else if IsInf(x) then Some([v])
      else if Val(x) <= -(TWO_53 as real) || TWO_53 as real <= Val(x) then None
      else if IsIntegral(x) then Some([v, Int(Val(x).Floor)])
      else Some([v])
    case _ => Some([v])
  }

  lemma SamePattern(a: F64, b: F64)
    requires Val(a) == Val(b) && Val(a) != 0.0
    ensures a == b
  {
    RankOrders(a, b);
    MagValueZero(a.mag);
  }

  lemma ZeroPattern(a: F64)
    ensures Val(a) == 0.0 <==> a == ZERO || a == NEG_ZERO
  {
    MagValueZero(a.mag);
  }

  lemma ZeroInt(i: Int64)
    ensures Val(OfInt(i)) == 0.0 <==> i == 0
    ensures OfInt(0) == ZERO
  {
    OfIntSmall(i, 0.0);
    ZeroPattern(OfInt(0));
  }

  lemma InfiniteIsNoInt(i: Int64, f: F64)
    requires IsInf(f)
    ensures Val(OfInt(i)) != Val(f)
  {
    RankOrders(OfInt(i), f);
  }

  /** The probes visit exactly the stored values that a query considers equal, each once. */
  lemma ProbesExact(v: Value, w: Value)
    requires IsIndexable(v) && IsIndexable(w) && w != Null
    requires EqualityProbes(v).Some?
    ensures w in EqualityProbes(v).value <==> QueryEqual(w, v)
  {
    hide Val, OfInt;
    match v
    case Int(x) =>
      ZeroInt(x);
      if w.Float? {
        ZeroPattern(w.f);
        if Val(w.f) == Val(OfInt(x)) != 0.0 {
          SamePattern(w.f, OfInt(x));
        }
      }
    case Float(x) =>
      FloatProbes(x, w);
    case _ =>
  }

  lemma FloatProbes(x: F64, w: Value)
    requires IsIndexable(w) && w != Null && EqualityProbes(Float(x)).Some?
    ensures w in EqualityProbes(Float(x)).value <==> QueryEqual(w, Float(x))
  {
    hide Val, OfInt;
    if !IsNaN(x) {
      match w
      case Float(y) =>
        ZeroPattern(x);
        ZeroPattern(y);
        if Val(x) == Val(y) != 0.0 {
          SamePattern(x, y);
        }
      case Int(i) =>
        ZeroInt(i);
        if IsInf(x) {
          InfiniteIsNoInt(i, x);
        } else if -(TWO_53 as real) < Val(x) < TWO_53 as real {
          OfIntSmall(i, Val(x));
        }
      case _ =>
    }
  }

  lemma ProbesOnce(v: Value)
    requires EqualityProbes(v).Some?
    ensures NoDups(EqualityProbes(v).value)
  {
    if v.Int? {
      ZeroInt(v.i);
    }
  }

  // ----- Values under a unique constraint -----

  /**
   * The form an owner key is built from: an integral float in the int64
   * range counts as that integer, NaN as nothing.
   */
  function UniqueValue(v: Value): Option<Value>
  {
    match v
    case Float(f) =>
      if IsNaN(f) then None
      else if IsIntegral(f) && -(TWO_63 as real) <= Val(f) < TWO_63 as real then Some(Int(Val(f).Floor))
      else Some(v)
    case _ => Some(v)
  }

  /** Values that share an owner key are equal in queries. */
  lemma SharedKeyMeansEqual(v: Value, w: Value)
    requires IsIndexable(v) && IsIndexable(w) && v != Null && w != Null
    requires SharesKey(v, w)
    ensures QueryEqual(v, w)
  {
    match (v, w)
    case (Int(i), Float(f)) => Representable(i, f);
    case (Float(f), Int(i)) => Representable(i, f);
    case _ =>
  }

  lemma Representable(i: Int64, f: F64)
    requires !IsNaN(f) && Val(f) == i as real
    ensures Val(OfInt(i)) == Val(f)
  {
    OfIntNearest(i, f);
  }

  /** The two values have an owner key and it is the same one. */
  predicate SharesKey(v: Value, w: Value)
  {
    UniqueValue(v).Some? && UniqueValue(v) == UniqueValue(w)
  }

  predicate ConvertsExactly(i: Int64)
  {
    Val(OfInt(i)) == i as real
  }

  /** If one of the values is an integer and the other a float, the integer converts exactly. */
  predicate MixedExactly(v: Value, w: Value)
  {
    match (v, w)
    case (Int(i), Float(_)) => ConvertsExactly(i)
    case (Float(_), Int(i)) => ConvertsExactly(i)
    case _ => true
  }

  /** An integer and a float that a query considers equal share a key exactly when the integer converts exactly. */
  lemma MixedKeys(i: Int64, f: F64)
    requires Equal(OfInt(i), f)
    ensures SharesKey(Int(i), Float(f)) <==> ConvertsExactly(i)
  {
    hide Val, OfInt;
  }

  /** Values share an owner key exactly when a query considers them equal and mixes them exactly. */
  lemma SharedKeyExact(v: Value, w: Value)
    requires IsIndexable(v) && IsIndexable(w) && v != Null && w != Null
    ensures SharesKey(v, w) <==> QueryEqual(v, w) && MixedExactly(v, w)
  {
    hide Val, OfInt;
    if SharesKey(v, w) {
      SharedKeyMeansEqual(v, w);
    }
    if QueryEqual(v, w) {
      match (v, w)
      case (Int(i), Float(f)) => MixedKeys(i, f);
      case (Float(f), Int(i)) => MixedKeys(i, f);
      case (Float(f), Float(g)) => FloatKeys(f, g);
      case _ =>
    }
  }

  /** A number small enough that each integral float64 equals exactly one int64. */
  predicate InExactRange(v: Value)
  {
    match v
    case Int(i) => 0 - TWO_53 < i < TWO_53
    case Float(f) => -(TWO_53 as real) < Val(f) < TWO_53 as real
    case _ => true
  }

  lemma SmallConverts(i: Int64, f: F64)
    requires Equal(OfInt(i), f) && (InExactRange(Int(i)) || InExactRange(Float(f)))
    ensures ConvertsExactly(i)
  {
    if InExactRange(Int(i)) {
      OfIntExact(i);
    } else {
      OfIntSmall(i, Val(f));
    }
  }

  /** So as long as one of the values is within 2^53, sharing an owner key is query equality. */
  lemma SharedKeyIsEquality(v: Value, w: Value)
    requires IsIndexable(v) && IsIndexable(w) && v != Null && w != Null
    requires InExactRange(v) || InExactRange(w)
    ensures QueryEqual(v, w) <==> SharesKey(v, w)
  {
    hide Val, OfInt;
    SharedKeyExact(v, w);
    if QueryEqual(v, w) {
      match (v, w)
      case (Int(i), Float(f)) => SmallConverts(i, f);
      case (Float(f), Int(i)) => SmallConverts(i, f);
      case _ =>
    }
  }

  lemma FloatKeys(f: F64, g: F64)
    ensures Equal(f, g) ==> SharesKey(Float(f), Float(g))
  {
    if Equal(f, g) {
      ZeroPattern(f);
      ZeroPattern(g);
      if Val(f) != 0.0 {
        SamePattern(f, g);
      }
    }
  }

  /** Beyond 2^53 the two differ: 2^53 + 1 equals the float 2^53 but has its own owner key. */
  lemma SharedKeyBeyondRange()
    ensures var v, w := Int(TWO_53 + 1), Float(OfInt(TWO_53)); QueryEqual(v, w) && !SharesKey(v, w)
  {
    var i: Int64 := TWO_53 + 1;
    OfIntExact(TWO_53);
    OfIntGrows(TWO_53, i);
    BeyondRange();
  }

  lemma BeyondRange()
    ensures OfInt(TWO_53 + 1) == OfInt(TWO_53)
  {
    assert ShiftDown(TWO_53 + 1) == 1 && ShiftDown(TWO_53) == 1;
    assert Pow2Nat(1) == 2;
  }
}
