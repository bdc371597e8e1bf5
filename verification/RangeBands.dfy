/**
 * Which part of a property index a comparison must visit: the bands, the
 * seek position in each and the condition that ends it.
 */
module RangeBands {
  import opened Seqs
  import opened Values
  import opened Floats
  import opened Compare
  import opened ValueCodec
  import Lex

  datatype Bound = Bound(value: Value, inclusive: bool)

  /** The values a scan must cover; an absent bound is open, a prefix overrides bounds. */
  datatype PropRange = PropRange(lower: Option<Bound>, upper: Option<Bound>, prefix: Option<Bytes>)

  /** What the query predicate behind the range accepts. */
  predicate Accepts(r: PropRange, w: Value)
  {
    match r.prefix
    case Some(p) => w.Str? && p <= w.s
    case None =>
      && (r.lower.Some? ==> AboveLower(r.lower.value, w))
      && (r.upper.Some? ==> BelowUpper(r.upper.value, w))
  }

  predicate AboveLower(b: Bound, w: Value)
  {
    Compares(if b.inclusive then Ge else Gt, w, b.value)
  }

  predicate BelowUpper(b: Bound, w: Value)
  {
    Compares(if b.inclusive then Le else Lt, w, b.value)
  }

  /**
   * A value is accepted when the prefix can be cut off it, or when it is
   * above the lower and below the upper bound; on a bound that is inclusive.
   */
  lemma AcceptsExact(r: PropRange, w: Value)
    ensures r.prefix.Some? ==> (Accepts(r, w) <==> w.Str? && exists rest :: w.s == r.prefix.value + rest)
    ensures r.prefix.None? ==>
              (Accepts(r, w) <==>
               && (r.lower.Some? ==> Compares(Lt, r.lower.value.value, w)
                                     || (r.lower.value.inclusive && QueryEqual(r.lower.value.value, w)))
               && (r.upper.Some? ==> Compares(Lt, w, r.upper.value.value)
                                     || (r.upper.value.inclusive && QueryEqual(w, r.upper.value.value))))
  {
    hide Val, OfInt, Lex.Less;
    if r.prefix.Some? {
      if w.Str? && r.prefix.value <= w.s {
        assert w.s == r.prefix.value + w.s[|r.prefix.value|..];
      }
    } else {
      if r.lower.Some? {
        ComparesExactly(w, r.lower.value.value);
        BothWays(w, r.lower.value.value);
      }
      if r.upper.Some? {
        ComparesExactly(w, r.upper.value.value);
      }
    }
  }

  lemma BothWays(a: Value, b: Value)
    ensures Compares(Gt, a, b) <==> Compares(Lt, b, a)
    ensures QueryEqual(a, b) <==> QueryEqual(b, a)
  {
    hide Val, OfInt;
    if a.Str? && b.Str? {
      Lex.Trichotomy(a.s, b.s);
    }
  }

  /** When the values of a band have passed the upper end. */
  datatype Stop = Never | StrAbove(s: Bytes) | IntAbove(i: Int64) | FloatAbove(f: F64, inclusive: bool)

  predicate Stops(st: Stop, v: Value)
  {
    match st
    case Never => false
    case StrAbove(u) => !v.Str? || Lex.Less(u, v.s)
    case IntAbove(u) => !v.Int? || v.i > u
    case FloatAbove(u, inclusive) => !v.Float? || Less(u, v.f) || (!inclusive && Equal(v.f, u))
  }

  /** A stretch of the index: one band from a value on, or the strings with a prefix. */
  datatype Seg = Seg(band: byte, start: Option<Value>, stop: Stop) | Starting(prefix: Bytes)

  predicate InSeg(g: Seg, v: Value)
    requires IsIndexable(v)
  {
    match g
    case Seg(band, _, _) => Band(v) == band
    case Starting(p) => v.Str? && p <= v.s
  }

  predicate WellStarted(g: Seg)
  {
    g.Seg? && g.start.Some? ==> IsIndexable(g.start.value) && Band(g.start.value) == g.band
  }

  predicate FromStart(g: Seg, v: Value)
    requires IsIndexable(v) && WellStarted(g)
  {
    g.Seg? && g.start.Some? ==> v == g.start.value || Before(g.start.value, v)
  }

  function StopOf(g: Seg): Stop
  {
    if g.Seg? then g.stop else Never
  }

  // ----- Choosing the bands -----

  datatype ValueKind = Number | Text | Truth | NoKind

  function KindOf(v: Value): ValueKind
  {
    match v
    case Int(_) => Number
    case Float(x) => if IsNaN(x) then NoKind else Number
    case Str(_) => Text
    case Bool(_) => Truth
    case _ => NoKind
  }

  /** math.Nextafter towards +Inf and towards -Inf. */
  function NextUp(f: F64): F64
  {
    if f == F64(false, INF_MAG) || IsNaN(f) then f
    else if f.mag == 0 then F64(false, 1)
    else if f.neg then F64(true, f.mag - 1)
    else F64(false, f.mag + 1)
  }

  function NextDown(f: F64): F64
  {
    if f == F64(true, INF_MAG) || IsNaN(f) then f
    else if f.mag == 0 then F64(true, 1)
    else if f.neg then F64(true, f.mag + 1)
    else F64(false, f.mag - 1)
  }

  function Ceil(x: real): int
  {
    0 - (0.0 - x).Floor
  }

  predicate SmallFloat(x: F64)
  {
    !IsInf(x) && -(TWO_53 as real) < Val(x) < TWO_53 as real
  }

  /** The smallest integer that can be above the bound, if it is known. */
  function IntLowerBound(b: Bound): Option<Int64>
  {
    match b.value
    case Int(x) => if b.inclusive then Some(x) else if x == TWO_63 - 1 then None else Some(x + 1)
    case Float(x) =>
      if !SmallFloat(x) then None
      else if b.inclusive then Some(Ceil(Val(x)))
      else Some(Val(x).Floor + 1)
    case _ => None
  }

  /** The largest integer that can be below the bound, if it is known. */
  function IntUpperBound(b: Bound): Option<Int64>
  {
    match b.value
    case Int(x) => if b.inclusive then Some(x) else if x == 0 - TWO_63 then None else Some(x - 1)
    case Float(x) =>
      if !SmallFloat(x) then None
      else if b.inclusive then Some(Val(x).Floor)
      else Some(Ceil(Val(x)) - 1)
    case _ => None
  }

  function IntBand(lower: Option<Bound>, upper: Option<Bound>): Seg
  {
    var l := if lower.None? then None else IntLowerBound(lower.value);
    var u := if upper.None? then None else IntUpperBound(upper.value);
    Seg(TAG_INT,
        if l.None? then None else Some(Int(l.value)),
        if u.None? then Never else IntAbove(u.value))
  }

  /** A numeric bound as a float, and whether the conversion is exact. */
  function FloatBound(v: Value): Option<(F64, bool)>
  {
    match v
    case Int(x) => Some((OfInt(x), 0 - TWO_53 < x < TWO_53))
    case Float(x) => Some((x, true))
    case _ => None
  }

  function FloatStart(b: Bound): Option<Value>
  {
    match FloatBound(b.value)
    case None => None
    case Some((l, exact)) =>
      if l == F64(true, INF_MAG) then None
      else if !exact then Some(Float(NextDown(l)))
      else if !b.inclusive then Some(Float(NextUp(l)))
      else if l.mag == 0 then Some(Float(NEG_ZERO))
      else Some(Float(l))
  }

  function FloatStop(b: Bound): Stop
  {
    match FloatBound(b.value)
    case None => Never
    case Some((u, exact)) =>
      if u == F64(false, INF_MAG) then Never
      else if !exact then FloatAbove(NextUp(u), true)
      else FloatAbove(u, b.inclusive)
  }

  function FloatBand(lower: Option<Bound>, upper: Option<Bound>): Seg
  {
    Seg(TAG_FLOAT,
        if lower.None? then None else FloatStart(lower.value),
        if upper.None? then Never else FloatStop(upper.value))
  }

  function TextBand(lower: Option<Bound>, upper: Option<Bound>): Seg
  {
    Seg(TAG_STR,
        if lower.None? then None else Some(lower.value.value),
        if upper.None? || !upper.value.value.Str? then Never else StrAbove(upper.value.value.s))
  }

  /** The kind of the bounds, or None when nothing can match. */
  function RangeKind(r: PropRange): Option<ValueKind>
  {
    var lo := if r.lower.None? then NoKind else KindOf(r.lower.value.value);
    var hi := if r.upper.None? then NoKind else KindOf(r.upper.value.value);
    if (r.lower.Some? && lo == NoKind) || (r.upper.Some? && hi == NoKind) then None
    else if r.lower.Some? && r.upper.Some? && lo != hi then None
    else if r.lower.Some? then Some(lo)
    else Some(hi)
  }

  /** The segments that hold every value the range may accept; None when there is no such value. */
  function Bands(r: PropRange): Option<seq<Seg>>
  {
    match r.prefix
    case Some(p) => Some([Starting(p)])
    case None =>
      match RangeKind(r)
      case None => None
      case Some(Text) => Some([TextBand(r.lower, r.upper)])
      case Some(Truth) => Some([Seg(TAG_BOOL, None, Never)])
      case Some(_) => Some([IntBand(r.lower, r.upper), FloatBand(r.lower, r.upper)])
  }

  /** The range says something: the scan is only planned for a predicate with a bound or a prefix. */
  predicate Bounded(r: PropRange)
  {
    r.lower.Some? || r.upper.Some? || r.prefix.Some?
  }

  // ----- Every accepted value is in a segment, at or after its start, before its stop -----

  ghost predicate Covers(g: Seg, w: Value)
  {
    IsIndexable(w) && InSeg(g, w) && WellStarted(g) && FromStart(g, w) && !Stops(StopOf(g), w)
  }

  lemma IntStart(b: Bound, i: Int64)
    requires AboveLower(b, Int(i)) && IntLowerBound(b).Some?
    ensures IntLowerBound(b).value <= i
  {
    hide Val, OfInt;
    if b.value.Float? {
      OfIntSmall(i, Val(b.value.f));
    }
  }

  lemma IntStop(b: Bound, i: Int64)
    requires BelowUpper(b, Int(i)) && IntUpperBound(b).Some?
    ensures i <= IntUpperBound(b).value
  {
    hide Val, OfInt;
    if b.value.Float? {
      OfIntSmall(i, Val(b.value.f));
    }
  }

  lemma FloatStartRank(b: Bound, w: F64)
    requires AboveLower(b, Float(w)) && FloatStart(b).Some?
    ensures FloatStart(b).value.Float? && TotalRank(FloatStart(b).value.f) <= TotalRank(w)
  {
    var l := FloatBound(b.value).value.0;
    RankOrders(w, l);
    if b.value.Int? {
      ZeroInt(b.value.i);
      ZeroPattern(l);
    }
    hide Val, OfInt;
  }

  lemma FloatStopRank(b: Bound, w: F64)
    requires BelowUpper(b, Float(w))
    ensures !Stops(FloatStop(b), Float(w))
  {
    var u := FloatBound(b.value).value.0;
    RankOrders(w, u);
    RankOrders(u, w);
    RankOrders(NextUp(u), w);
    RankOrders(u, NextUp(u));
    hide Val, OfInt;
  }

  lemma SameTotalRank(f: F64, g: F64)
    requires TotalRank(f) == TotalRank(g)
    ensures f == g
  {
  }

  lemma AcceptedKind(r: PropRange, w: Value)
    requires r.prefix.None? && Bounded(r) && Accepts(r, w)
    ensures RangeKind(r) == Some(KindOf(w)) && KindOf(w) != NoKind && IsIndexable(w)
  {
    hide Val, OfInt, Less, Lex.Less;
  }

  lemma NumberCovered(r: PropRange, w: Value)
    requires r.prefix.None? && Bounded(r) && Accepts(r, w) && KindOf(w) == Number
    ensures w.Int? ==> Covers(IntBand(r.lower, r.upper), w)
    ensures w.Float? ==> Covers(FloatBand(r.lower, r.upper), w)
  {
    hide Compares, Val, OfInt, IntLowerBound, IntUpperBound, FloatStart, FloatStop, Less, Equal;
    match w
    case Int(i) =>
      if r.lower.Some? && IntLowerBound(r.lower.value).Some? { IntStart(r.lower.value, i); }
      if r.upper.Some? && IntUpperBound(r.upper.value).Some? { IntStop(r.upper.value, i); }
    case Float(f) =>
      if r.lower.Some? && FloatStart(r.lower.value).Some? {
        FloatStartRank(r.lower.value, f);
        if TotalRank(FloatStart(r.lower.value).value.f) == TotalRank(f) {
          SameTotalRank(FloatStart(r.lower.value).value.f, f);
        }
      }
      if r.upper.Some? { FloatStopRank(r.upper.value, f); }
    case _ =>
  }

  lemma TextCovered(r: PropRange, w: Value)
    requires r.prefix.None? && Bounded(r) && Accepts(r, w) && w.Str?
    ensures Covers(TextBand(r.lower, r.upper), w)
  {
    if r.lower.Some? && r.lower.value.value.Str? {
      Lex.Trichotomy(r.lower.value.value.s, w.s);
    }
    if r.upper.Some? && r.upper.value.value.Str? {
      Lex.Trichotomy(r.upper.value.value.s, w.s);
    }
  }

  /** Nothing is accepted when there are no segments; otherwise one segment covers each accepted value. */
  lemma BandsCover(r: PropRange, w: Value)
    requires Bounded(r) && Accepts(r, w)
    ensures Bands(r).Some? && exists g :: g in Bands(r).value && Covers(g, w)
  {
    hide Compares, IntBand, FloatBand, TextBand;
    if r.prefix.Some? {
      assert Covers(Bands(r).value[0], w);
    } else {
      AcceptedKind(r, w);
      match w
      case Str(_) =>
        TextCovered(r, w);
        assert TextBand(r.lower, r.upper) in Bands(r).value;
      case Bool(_) =>
        assert Covers(Bands(r).value[0], w);
      case Int(_) =>
        NumberCovered(r, w);
        assert Bands(r).value[0] == IntBand(r.lower, r.upper);
      case Float(_) =>
        NumberCovered(r, w);
        assert Bands(r).value[1] == FloatBand(r.lower, r.upper);
    }
  }

  /** Without bounds only numbers are scanned: a string satisfies the empty condition and is not covered. */
  lemma UnboundedMissesStrings(r: PropRange, s: Bytes)
    requires !Bounded(r)
    ensures Accepts(r, Str(s)) && Bands(r).Some? && forall g :: g in Bands(r).value ==> !Covers(g, Str(s))
  {
  }

  /** Once a segment's stop is reached, no later value of the segment is accepted. */
  lemma StopIsFinal(g: Seg, w: Value, x: Value)
    requires Covers(g, w) && IsIndexable(x) && InSeg(g, x) && Stops(StopOf(g), x) && !NaNValue(w)
    requires g.Seg? && g.stop.FloatAbove? ==> !IsNaN(g.stop.f)
    ensures Before(w, x)
  {
    match StopOf(g)
    case IntAbove(u) =>
    case StrAbove(u) =>
      Lex.Trichotomy(w.s, u);
      if Lex.Less(w.s, u) {
        Lex.Transitive(w.s, u, x.s);
      }
    case FloatAbove(u, _) =>
      RankOrders(w.f, x.f);
      hide Val;
    case Never =>
  }
}
