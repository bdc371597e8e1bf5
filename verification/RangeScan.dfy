/**
 * The cursor of a property range scan. It visits every node whose value the
 * range accepts and none twice, so scanning and filtering finds what a
 * filtered label scan finds.
 */
module RangeScan {
  import opened Seqs
  import opened Values
  import opened Compare
  import opened Floats
  import opened GraphStore
  import opened ValueCodec
  import opened KeyCodec
  import opened KeyScan
  import opened RangeBands
  import opened IndexAccess
  import Lex

  function SegPrefix(on: Pair, g: Seg): Bytes
  {
    match g
    case Seg(band, _, _) => PropBandPrefix(on, band)
    case Starting(p) => PropStringPrefix(on, p)
  }

  function SegStart(on: Pair, g: Seg): Bytes
    requires WellStarted(g)
  {
    if g.Seg? && g.start.Some? then PropPrefix(on, g.start.value) else SegPrefix(on, g)
  }

  // ----- The keys of a segment -----

  /** An entry's key is in the segment's scan exactly when its value is in the segment, from its start on. */
  lemma SegKey(on: Pair, g: Seg, k: Key)
    requires Fits(k) && PairFits(on) && WellStarted(g)
    ensures InRange(SegPrefix(on, g), SegStart(on, g), EncodeKey(k)) <==>
            k.PropK? && k.p.on == on && InSeg(g, k.p.value) && FromStart(g, k.p.value)
  {
    hide EncodeKey, SegPrefix, SegStart, InSeg, FromStart, Lex.Less, Fits;
    SegPrefixExact(on, g, k);
    if SegPrefix(on, g) <= EncodeKey(k) {
      SegStartExact(on, g, k);
    }
  }

  lemma SegPrefixExact(on: Pair, g: Seg, k: Key)
    requires Fits(k) && PairFits(on)
    ensures SegPrefix(on, g) <= EncodeKey(k) <==> k.PropK? && k.p.on == on && InSeg(g, k.p.value)
  {
    BandPrefixExact(k, on, if g.Seg? then g.band else 0, if g.Starting? then g.prefix else []);
    hide EncodeKey, PropBandPrefix, PropStringPrefix;
  }

  lemma SegStartExact(on: Pair, g: Seg, k: Key)
    requires Fits(k) && PairFits(on) && WellStarted(g) && k.PropK? && k.p.on == on
    requires SegPrefix(on, g) <= EncodeKey(k)
    ensures Lex.Leq(SegStart(on, g), EncodeKey(k)) <==> FromStart(g, k.p.value)
  {
    hide EncodeKey, SegPrefix, PropPrefix, Before, Lex.Less;
    if g.Seg? && g.start.Some? {
      PropKeyFrom(k.p, g.start.value);
    } else {
      var prefix := SegPrefix(on, g);
      Lex.PrefixFirst(prefix, EncodeKey(k)[|prefix|..]);
      assert prefix + EncodeKey(k)[|prefix|..] == EncodeKey(k);
    }
  }

  /** The entry that a key of the property index stands for. */
  ghost predicate Stands(s: Store, on: Pair, g: Seg, key: Bytes, v: Value, n: nat)
    requires WellStarted(g)
  {
    var p := PropEntry(on, v, n);
    && p in s.props && Fits(PropK(p)) && key == EncodeKey(PropK(p))
    && InSeg(g, v) && FromStart(g, v)
  }

  lemma SegParses(s: Store, on: Pair, g: Seg, key: Bytes)
    requires Encodable(s) && PairFits(on) && WellStarted(g)
    requires key in ByteKeys(s) && InRange(SegPrefix(on, g), SegStart(on, g), key)
    ensures ParsePropKey(key).Some?
    ensures Stands(s, on, g, key, ParsePropKey(key).value.0, ParsePropKey(key).value.1)
  {
    hide EncodeKey, ByteKeys, ParsePropKey, SegPrefix, SegStart, InSeg, FromStart;
    var k := KeyOfBytes(s, key);
    SegKey(on, g, k);
    ParsePropKeyOf(k.p);
    assert k.p == PropEntry(on, k.p.value, k.p.node);
  }

  lemma SegHolds(s: Store, on: Pair, g: Seg, p: PropEntry)
    requires Encodable(s) && PairFits(on) && WellStarted(g) && p in s.props && p.on == on && Fits(PropK(p))
    requires InSeg(g, p.value) && FromStart(g, p.value)
    ensures EncodeKey(PropK(p)) in ByteKeys(s) && InRange(SegPrefix(on, g), SegStart(on, g), EncodeKey(PropK(p)))
  {
    hide EncodeKey, ByteKeys, SegPrefix, SegStart, InSeg, FromStart;
    assert Has(s, PropK(p));
    ByteKey(s, PropK(p));
    SegKey(on, g, PropK(p));
  }

  // ----- What a segment yields -----

  ghost predicate Parses(keys: seq<Bytes>)
  {
    forall k :: k in keys ==> ParsePropKey(k).Some?
  }

  /** The number of keys before the first whose value the stop condition rejects. */
  ghost function Cut(keys: seq<Bytes>, stop: Stop): nat
    requires Parses(keys)
  {
    if keys == [] || Stops(stop, ParsePropKey(keys[0]).value.0) then 0 else 1 + Cut(keys[1..], stop)
  }

  lemma {:induction false} CutAt(keys: seq<Bytes>, stop: Stop)
    requires Parses(keys)
    ensures Cut(keys, stop) <= |keys|
    ensures forall i :: 0 <= i < Cut(keys, stop) ==> !Stops(stop, ParsePropKey(keys[i]).value.0)
    ensures Cut(keys, stop) < |keys| ==> Stops(stop, ParsePropKey(keys[Cut(keys, stop)]).value.0)
  {
    hide ParsePropKey, Stops;
    if keys != [] && !Stops(stop, ParsePropKey(keys[0]).value.0) {
      CutAt(keys[1..], stop);
      forall i | 0 <= i < Cut(keys, stop) ensures !Stops(stop, ParsePropKey(keys[i]).value.0) {
        if i > 0 {
          assert keys[i] == keys[1..][i-1];
        }
      }
    }
  }

  /** The nodes a segment still yields. */
  ghost function Yields(keys: seq<Bytes>, stop: Stop): seq<nat>
    requires Parses(keys)
  {
    if keys == [] || Stops(stop, ParsePropKey(keys[0]).value.0) then []
    else [ParsePropKey(keys[0]).value.1] + Yields(keys[1..], stop)
  }

  lemma {:induction false} YieldsAt(keys: seq<Bytes>, stop: Stop)
    requires Parses(keys)
    ensures |Yields(keys, stop)| == Cut(keys, stop) <= |keys|
    ensures forall i :: 0 <= i < Cut(keys, stop) ==> Yields(keys, stop)[i] == ParsePropKey(keys[i]).value.1
  {
    hide ParsePropKey, Stops;
    if keys != [] && !Stops(stop, ParsePropKey(keys[0]).value.0) {
      YieldsAt(keys[1..], stop);
    }
  }

  /** ids are nodes of distinct entries of the segment, among them every covered one. */
  ghost predicate SegVisits(s: Store, on: Pair, g: Seg, ids: seq<nat>)
  {
    && NoDups(ids)
    && (forall n :: n in ids ==> exists v :: IsIndexable(v) && InSeg(g, v) && PropEntry(on, v, n) in s.props)
    && (forall v, n :: Covers(g, v) && !NaNValue(v) && PropEntry(on, v, n) in s.props ==> n in ids)
  }

  ghost predicate AllStand(s: Store, on: Pair, g: Seg, ks: seq<Bytes>)
    requires WellStarted(g)
  {
    && Parses(ks)
    && forall i :: 0 <= i < |ks| ==> Stands(s, on, g, ks[i], ParsePropKey(ks[i]).value.0, ParsePropKey(ks[i]).value.1)
  }

  lemma AllKeysStand(s: Store, on: Pair, g: Seg, ks: seq<Bytes>)
    requires Encodable(s) && PairFits(on) && WellStarted(g)
    requires IsScan(ByteKeys(s), SegPrefix(on, g), SegStart(on, g), ks)
    ensures AllStand(s, on, g, ks)
  {
    hide EncodeKey, ByteKeys, ParsePropKey, SegPrefix, SegStart, InSeg, FromStart, Stands, SortedKeys, InRange;
    forall k | k in ks
      ensures ParsePropKey(k).Some? && Stands(s, on, g, k, ParsePropKey(k).value.0, ParsePropKey(k).value.1)
    {
      SegParses(s, on, g, k);
    }
  }

  lemma YieldsOnce(s: Store, on: Pair, g: Seg, ks: seq<Bytes>)
    requires Consistent(s) && WellStarted(g) && SortedKeys(ks) && AllStand(s, on, g, ks)
    ensures NoDups(Yields(ks, StopOf(g)))
  {
    hide Consistent, EncodeKey, ParsePropKey, InSeg, FromStart, Stops, SortedKeys, Fits;
    var ids := Yields(ks, StopOf(g));
    YieldsAt(ks, StopOf(g));
    SortedDistinct(ks);
    forall i, j | 0 <= i < j < |ids| ensures ids[i] != ids[j] {
      var v, w := ParsePropKey(ks[i]).value.0, ParsePropKey(ks[j]).value.0;
      assert Stands(s, on, g, ks[i], v, ids[i]) && Stands(s, on, g, ks[j], w, ids[j]);
      if ids[i] == ids[j] {
        OneEntry(s, on, v, w, ids[i]);
      }
    }
  }

  lemma YieldsSound(s: Store, on: Pair, g: Seg, ks: seq<Bytes>, n: nat)
    requires WellStarted(g) && AllStand(s, on, g, ks) && n in Yields(ks, StopOf(g))
    ensures exists v :: IsIndexable(v) && InSeg(g, v) && PropEntry(on, v, n) in s.props
  {
    hide EncodeKey, ParsePropKey, InSeg, FromStart, Stops;
    YieldsAt(ks, StopOf(g));
    var i :| 0 <= i < Cut(ks, StopOf(g)) && n == Yields(ks, StopOf(g))[i];
    var v := ParsePropKey(ks[i]).value.0;
    assert Stands(s, on, g, ks[i], v, n);
  }

  lemma BeforeOneWay(v: Value, w: Value)
    requires IsIndexable(v) && IsIndexable(w) && Before(v, w)
    ensures !Before(w, v) && v != w
  {
    if v.Str? && w.Str? {
      Lex.Trichotomy(v.s, w.s);
    }
  }

  ghost predicate StopIsNumber(g: Seg)
  {
    g.Seg? && g.stop.FloatAbove? ==> !IsNaN(g.stop.f)
  }

  /** A covered entry comes before the cut. */
  lemma CoveredYielded(s: Store, on: Pair, g: Seg, ks: seq<Bytes>, v: Value, n: nat, j: nat)
    requires WellStarted(g) && SortedKeys(ks) && AllStand(s, on, g, ks) && StopIsNumber(g)
    requires Covers(g, v) && !NaNValue(v) && j < |ks| && Stands(s, on, g, ks[j], v, n)
    requires ParsePropKey(ks[j]) == Some((v, n))
    ensures n in Yields(ks, StopOf(g))
  {
    hide EncodeKey, ParsePropKey, InSeg, FromStart, Stops, Before, Covers, NaNValue, Lex.Less, Fits;
    var st := StopOf(g);
    YieldsAt(ks, st);
    CutAt(ks, st);
    var c := Cut(ks, st);
    if j < c {
      assert Yields(ks, st)[j] == n;
    } else {
      var x, m := ParsePropKey(ks[c]).value.0, ParsePropKey(ks[c]).value.1;
      assert Stands(s, on, g, ks[c], x, m);
      GivenCovers(g, v);
      PassedStop(g, PropEntry(on, v, n), PropEntry(on, x, m));
      assert false;
    }
  }

  lemma GivenCovers(g: Seg, v: Value)
    requires Covers(g, v)
    ensures IsIndexable(v) && InSeg(g, v) && !Stops(StopOf(g), v)
  {
  }

  /** An entry that ends the segment sorts after every covered entry. */
  lemma PassedStop(g: Seg, p: PropEntry, q: PropEntry)
    requires Fits(PropK(p)) && Fits(PropK(q)) && p.on == q.on && StopIsNumber(g)
    requires Covers(g, p.value) && !NaNValue(p.value) && InSeg(g, q.value) && Stops(StopOf(g), q.value)
    ensures p.value != q.value && !Lex.Less(EncodeKey(PropK(q)), EncodeKey(PropK(p)))
  {
    hide EncodeKey, InSeg, FromStart, Stops, Before, NaNValue, Lex.Less;
    StopIsFinal(g, p.value, q.value);
    BeforeOneWay(p.value, q.value);
    PropKeyOrder(q, p);
  }

  lemma SegmentVisits(s: Store, on: Pair, g: Seg, ks: seq<Bytes>)
    requires Consistent(s) && Encodable(s) && PairFits(on) && WellStarted(g) && StopIsNumber(g)
    requires IsScan(ByteKeys(s), SegPrefix(on, g), SegStart(on, g), ks)
    ensures Parses(ks) && SegVisits(s, on, g, Yields(ks, StopOf(g)))
  {
    hide Consistent, EncodeKey, ByteKeys, ParsePropKey, SegPrefix, SegStart, InSeg, FromStart, Stops, SortedKeys,
         Encodable, Yields, NaNValue, InRange, Fits;
    AllKeysStand(s, on, g, ks);
    YieldsOnce(s, on, g, ks);
    var ids := Yields(ks, StopOf(g));
    forall n | n in ids ensures exists v :: IsIndexable(v) && InSeg(g, v) && PropEntry(on, v, n) in s.props {
      YieldsSound(s, on, g, ks, n);
    }
    forall v, n | Covers(g, v) && !NaNValue(v) && PropEntry(on, v, n) in s.props ensures n in ids {
      var p := PropEntry(on, v, n);
      EntryFits(s, p);
      SegHolds(s, on, g, p);
      ParsePropKeyOf(p);
      var j :| 0 <= j < |ks| && ks[j] == EncodeKey(PropK(p));
      CoveredYielded(s, on, g, ks, v, n, j);
    }
  }

  // ----- The cursor -----

  /** An open iterator: the keys it has not passed yet, and where its band ends. */
  datatype Segment = Segment(keys: seq<Bytes>, stop: Stop)

  ghost predicate AllParse(segs: seq<Segment>)
  {
    forall i :: 0 <= i < |segs| ==> Parses(segs[i].keys)
  }

  /** The nodes that the given segments still yield. */
  ghost function Remaining(segs: seq<Segment>): seq<nat>
    requires AllParse(segs)
  {
    if segs == [] then [] else Yields(segs[0].keys, segs[0].stop) + Remaining(segs[1..])
  }

  /** A segment that is exhausted or past its stop yields nothing more. */
  lemma SkipSegment(segs: seq<Segment>, i: nat)
    requires AllParse(segs) && i < |segs| && Yields(segs[i].keys, segs[i].stop) == []
    ensures Remaining(segs[i..]) == Remaining(segs[i+1..])
  {
    assert segs[i..][1..] == segs[i+1..];
  }

  /** Taking the next key of the current segment takes the head of what remains. */
  lemma TakeKey(segs: seq<Segment>, i: nat, rest: Segment, n: nat)
    requires AllParse(segs) && i < |segs| && Parses(rest.keys)
    requires Yields(segs[i].keys, segs[i].stop) == [n] + Yields(rest.keys, rest.stop)
    ensures AllParse(segs[i := rest])
    ensures Remaining(segs[i..]) == [n] + Remaining(segs[i := rest][i..])
  {
    var next := segs[i := rest];
    assert segs[i..][1..] == segs[i+1..] == next[i..][1..];
    assert next[i..][0] == rest;
  }

  class NodeCursor {
    var segs: seq<Segment>
    var seg: nat
    var closed: bool

    ghost predicate Valid()
      reads this
    {
      seg <= |segs| && AllParse(segs)
    }

    ghost function Left(): seq<nat>
      requires Valid()
      reads this
    {
      if closed then [] else Remaining(segs[seg..])
    }

    constructor (segs: seq<Segment>)
      requires AllParse(segs)
      ensures Valid() && !closed && Left() == Remaining(segs)
    {
      this.segs := segs;
      seg := 0;
      closed := false;
      new;
      assert segs[0..] == segs;
    }

    /** Returns the next node; None, and the cursor is closed, once there is none. */
    method Next() returns (n: Option<nat>)
      requires Valid()
      modifies this
      ensures Valid()
      ensures old(Left()) == [] ==> n == None && closed
      ensures old(Left()) != [] ==> n == Some(old(Left())[0]) && Left() == old(Left())[1..]
    {
      hide ParsePropKey, Stops, Remaining, AllParse;
      if closed {
        return None;
      }
      ghost var left := Left();
      while seg < |segs|
        invariant Valid() && !closed && Left() == left && segs == old(segs)
        decreases |segs| - seg
      {
        var sg := segs[seg];
        GivenParses(segs, seg);
        if sg.keys == [] {
          SkipSegment(segs, seg);
          seg := seg + 1;
        } else {
          var entry := ParsePropKey(sg.keys[0]).value;
          if Stops(sg.stop, entry.0) {
            SkipSegment(segs, seg);
            seg := seg + 1;
          } else {
            var rest := Segment(sg.keys[1..], sg.stop);
            TakeKey(segs, seg, rest, entry.1);
            segs := segs[seg := rest];
            return Some(entry.1);
          }
        }
      }
      NothingRemains(segs);
      closed := true;
      n := None;
    }
  }

  lemma GivenParses(segs: seq<Segment>, i: nat)
    requires AllParse(segs) && i < |segs|
    ensures Parses(segs[i].keys) && (segs[i].keys != [] ==> ParsePropKey(segs[i].keys[0]).Some?)
    ensures segs[i].keys != [] ==> Parses(segs[i].keys[1..])
  {
    assert segs[i].keys != [] ==> segs[i].keys[0] in segs[i].keys;
  }

  lemma NothingRemains(segs: seq<Segment>)
    requires AllParse(segs)
    ensures AllParse(segs[|segs|..]) && Remaining(segs[|segs|..]) == []
  {
  }

  lemma RemainingTwo(segs: seq<Segment>)
    requires AllParse(segs) && 1 <= |segs| <= 2
    ensures Remaining(segs) == Yields(segs[0].keys, segs[0].stop) +
                               (if |segs| == 2 then Yields(segs[1].keys, segs[1].stop) else [])
  {
    hide ParsePropKey, Stops, Yields;
    if |segs| == 2 {
      assert segs[1..] == [segs[1]];
      assert [segs[1]][1..] == [];
    }
  }

  /** The cursor's whole output visits every accepted entry, and no node twice. */
  ghost predicate Visits(s: Store, on: Pair, r: PropRange, ids: seq<nat>)
  {
    && NoDups(ids)
    && (forall n :: n in ids ==> exists v :: PropEntry(on, v, n) in s.props)
    && (forall v, n :: Accepts(r, v) && PropEntry(on, v, n) in s.props ==> n in ids)
  }

  lemma BandsOk(r: PropRange)
    requires Bands(r).Some?
    ensures forall g :: g in Bands(r).value ==> WellStarted(g) && StopIsNumber(g)
    ensures 1 <= |Bands(r).value| <= 2
  {
    hide Val, IntLowerBound, IntUpperBound, OfInt;
    if r.prefix.None? && r.upper.Some? && r.upper.value.value.Int? {
      IntIsFinite(r.upper.value.value.i);
    }
  }

  lemma IntIsFinite(i: Int64)
    ensures OfInt(i).mag < INF_MAG
  {
  }

  lemma AcceptedIsCovered(r: PropRange, v: Value)
    requires Bounded(r) && Accepts(r, v)
    ensures Bands(r).Some? && !NaNValue(v) && exists g :: g in Bands(r).value && Covers(g, v)
  {
    BandsCover(r, v);
  }

  lemma OneSegment(s: Store, on: Pair, r: PropRange, ids: seq<nat>)
    requires Bounded(r) && Bands(r).Some? && |Bands(r).value| == 1
    requires SegVisits(s, on, Bands(r).value[0], ids)
    ensures Visits(s, on, r, ids)
  {
    hide Accepts, Bands, Covers, NaNValue, InSeg;
    forall v, n | Accepts(r, v) && PropEntry(on, v, n) in s.props ensures n in ids {
      AcceptedIsCovered(r, v);
    }
  }

  lemma BandsApart(r: PropRange, v: Value)
    requires Bands(r).Some? && |Bands(r).value| == 2 && IsIndexable(v)
    ensures !(InSeg(Bands(r).value[0], v) && InSeg(Bands(r).value[1], v))
  {
    hide IntLowerBound, IntUpperBound, FloatStart, FloatStop;
  }

  lemma TwoSegments(s: Store, on: Pair, r: PropRange, a: seq<nat>, b: seq<nat>)
    requires Consistent(s) && Bounded(r) && Bands(r).Some? && |Bands(r).value| == 2
    requires SegVisits(s, on, Bands(r).value[0], a) && SegVisits(s, on, Bands(r).value[1], b)
    ensures Visits(s, on, r, a + b)
  {
    hide Consistent, Accepts, Bands, Covers, NaNValue, InSeg, IsIndexable;
    forall n | n in a ensures n !in b {
      if n in b {
        var v :| IsIndexable(v) && InSeg(Bands(r).value[0], v) && PropEntry(on, v, n) in s.props;
        var w :| IsIndexable(w) && InSeg(Bands(r).value[1], w) && PropEntry(on, w, n) in s.props;
        OneEntry(s, on, v, w, n);
        BandsApart(r, v);
      }
    }
    NoDupsConcat(a, b);
    forall v, n | Accepts(r, v) && PropEntry(on, v, n) in s.props ensures n in a + b {
      AcceptedIsCovered(r, v);
    }
  }

  /** A cursor over the nodes whose value may satisfy r, or null when none can. */
  method ScanPropertyRange(s: Store, on: Pair, r: PropRange) returns (c: NodeCursor?)
    requires Consistent(s) && Encodable(s) && PairFits(on) && Bounded(r)
    ensures c == null <==> Bands(r).None?
    ensures c != null ==> fresh(c) && c.Valid() && Visits(s, on, r, c.Left())
  {
    hide Consistent, Encodable, Bands, Bounded, Visits, SegVisits, ByteKeys, SegPrefix, SegStart, Yields, SortedKeys,
         StopIsNumber, WellStarted, InRange, ParsePropKey;
    if Bands(r).None? {
      return null;
    }
    var plan := Bands(r).value;
    BandsOk(r);
    var segs: seq<Segment> := [];
    for i := 0 to |plan|
      invariant |segs| == i && AllParse(segs)
      invariant forall j :: 0 <= j < i ==> SegVisits(s, on, plan[j], Yields(segs[j].keys, segs[j].stop))
    {
      var ks := ScanFrom(ByteKeys(s), SegPrefix(on, plan[i]), SegStart(on, plan[i]));
      SegmentVisits(s, on, plan[i], ks);
      segs := segs + [Segment(ks, StopOf(plan[i]))];
    }
    c := new NodeCursor(segs);
    ghost var a := Yields(segs[0].keys, segs[0].stop);
    RemainingTwo(segs);
    if |plan| == 1 {
      assert a + [] == a;
      OneSegment(s, on, r, a);
    } else {
      ghost var b := Yields(segs[1].keys, segs[1].stop);
      TwoSegments(s, on, r, a, b);
    }
  }

  // ----- Range scan against label scan -----

  /** The node has the label and a value that the range accepts. */
  predicate RangeMatches(s: Store, on: Pair, r: PropRange, n: nat)
  {
    && n in s.nodes && on.owner in s.nodes[n].labels
    && on.key in s.nodes[n].props && Accepts(r, s.nodes[n].props[on.key])
  }

  /** out holds exactly the matching nodes, each once. */
  ghost predicate Selects(s: Store, on: Pair, r: PropRange, out: seq<nat>)
  {
    NoDups(out) && forall n :: n in out <==> RangeMatches(s, on, r, n)
  }

  lemma AcceptedIndexable(r: PropRange, v: Value)
    requires Bounded(r) && Accepts(r, v)
    ensures IsIndexable(v)
  {
  }

  /** Everything a visiting list misses, the range rejects. */
  lemma VisitedMatches(s: Store, on: Pair, r: PropRange, ids: seq<nat>, n: nat)
    requires Consistent(s) && on in s.cat.indexes && Bounded(r) && Visits(s, on, r, ids)
    ensures RangeMatches(s, on, r, n) ==> n in ids
    ensures n in ids ==> n in s.nodes && on.owner in s.nodes[n].labels && on.key in s.nodes[n].props
  {
    GivenTables(s);
    hide Consistent, Accepts;
    if RangeMatches(s, on, r, n) {
      var v := s.nodes[n].props[on.key];
      AcceptedIndexable(r, v);
      assert HasFact(s.nodes, PropEntry(on, v, n));
      assert PropEntry(on, v, n) in s.props;
    }
    if n in ids {
      var v :| PropEntry(on, v, n) in s.props;
      assert HasFact(s.nodes, PropEntry(on, v, n));
    }
  }

  lemma NothingMatches(s: Store, on: Pair, r: PropRange)
    requires Bounded(r) && Bands(r).None?
    ensures forall n :: !RangeMatches(s, on, r, n)
  {
    hide Accepts, Bands, Covers;
    forall n ensures !RangeMatches(s, on, r, n) {
      if RangeMatches(s, on, r, n) {
        AcceptedIsCovered(r, s.nodes[n].props[on.key]);
      }
    }
  }

  /** The index plan: drain the cursor and keep the predicate as a filter. */
  method RangeThenFilter(s: Store, on: Pair, r: PropRange) returns (out: seq<nat>)
    requires Consistent(s) && Encodable(s) && PairFits(on) && Bounded(r) && on in s.cat.indexes
    ensures Selects(s, on, r, out)
  {
    hide Consistent, Encodable, Bounded, Bands, Accepts, Visits, RangeMatches, NoDups, NodeCursor.Valid,
      NodeCursor.Left;
    out := [];
    var c := ScanPropertyRange(s, on, r);
    if c == null {
      NothingMatches(s, on, r);
      NothingSelected(s, on, r);
      return;
    }
    ghost var ids := c.Left();
    ghost var done: seq<nat> := [];
    NothingKept(s, on, r);
    var n := c.Next();
    while n.Some?
      invariant c.Valid() && fresh(c)
      invariant ids == if n.Some? then done + [n.value] + c.Left() else done
      invariant Kept(s, on, r, done, out)
      decreases n.Some?, |c.Left()|
    {
      VisitedFacts(s, on, r, ids, done, n.value, c.Left());
      KeepNext(s, on, r, done, out, n.value, c.Left());
      if Accepts(r, s.nodes[n.value].props[on.key]) {
        out := out + [n.value];
      }
      done := done + [n.value];
      n := c.Next();
    }
    AllKept(s, on, r, ids, out);
  }

  /** out is what the filter kept of the nodes read so far. */
  ghost predicate Kept(s: Store, on: Pair, r: PropRange, done: seq<nat>, out: seq<nat>)
  {
    NoDups(out) && forall m :: m in out <==> m in done && RangeMatches(s, on, r, m)
  }

  lemma VisitedFacts(s: Store, on: Pair, r: PropRange, ids: seq<nat>, done: seq<nat>, n: nat, rest: seq<nat>)
    requires Consistent(s) && on in s.cat.indexes && Bounded(r) && Visits(s, on, r, ids) && ids == done + [n] + rest
    ensures n in s.nodes && on.owner in s.nodes[n].labels && on.key in s.nodes[n].props && NoDups(ids)
  {
    hide Consistent, Bounded, Accepts;
    VisitedMatches(s, on, r, ids, n);
  }

  lemma NothingKept(s: Store, on: Pair, r: PropRange)
    ensures Kept(s, on, r, [], [])
  {
  }

  lemma NothingSelected(s: Store, on: Pair, r: PropRange)
    requires forall n :: !RangeMatches(s, on, r, n)
    ensures Selects(s, on, r, [])
  {
  }

  lemma KeepNext(s: Store, on: Pair, r: PropRange, done: seq<nat>, out: seq<nat>, n: nat, rest: seq<nat>)
    requires Kept(s, on, r, done, out) && NoDups(done + [n] + rest)
    requires n in s.nodes && on.owner in s.nodes[n].labels && on.key in s.nodes[n].props
    ensures Kept(s, on, r, done + [n], if Accepts(r, s.nodes[n].props[on.key]) then out + [n] else out)
  {
    hide Accepts;
    FreshTail(done, n, rest);
  }

  lemma AllKept(s: Store, on: Pair, r: PropRange, ids: seq<nat>, out: seq<nat>)
    requires Consistent(s) && on in s.cat.indexes && Bounded(r) && Visits(s, on, r, ids) && Kept(s, on, r, ids, out)
    ensures Selects(s, on, r, out)
  {
    hide Consistent, Bounded, Visits, RangeMatches;
    forall m | RangeMatches(s, on, r, m) ensures m in ids {
      VisitedMatches(s, on, r, ids, m);
    }
  }

  lemma FreshTail(a: seq<nat>, x: nat, b: seq<nat>)
    requires NoDups(a + [x] + b)
    ensures x !in a
  {
    var s := a + [x] + b;
    assert s[|a|] == x;
    forall i | 0 <= i < |a| ensures a[i] != x {
      assert s[i] == a[i];
    }
  }

  /** The plan without an index: every labelled node, filtered. */
  method LabelThenFilter(s: Store, on: Pair, r: PropRange) returns (out: seq<nat>)
    requires Consistent(s) && Encodable(s) && PairFits(on)
    ensures Selects(s, on, r, out) && StrictlyAscending(out)
  {
    hide Consistent, Encodable, Accepts;
    GivenTables(s);
    var nodes := NodesByLabel(s, on.owner);
    out := [];
    for i := 0 to |nodes|
      invariant StrictlyAscending(out)
      invariant forall n :: n in out <==> n in nodes[..i] && RangeMatches(s, on, r, n)
    {
      var n := nodes[i];
      assert LabelEntry(on.owner, n) in s.labels;
      if on.key in s.nodes[n].props && Accepts(r, s.nodes[n].props[on.key]) {
        AscendingAppend(out, n);
        out := out + [n];
      }
    }
    forall n | RangeMatches(s, on, r, n) ensures n in nodes {
      assert LabelEntry(on.owner, n) in s.labels;
    }
    assert nodes[..|nodes|] == nodes;
  }

  /** Both plans return the same nodes the same number of times. */
  lemma SameSelection(s: Store, on: Pair, r: PropRange, a: seq<nat>, b: seq<nat>)
    requires Selects(s, on, r, a) && Selects(s, on, r, b)
    ensures multiset(a) == multiset(b)
  {
    hide RangeMatches;
    forall n ensures multiset(a)[n] == multiset(b)[n] {
      NoDupsCount(a, n);
      NoDupsCount(b, n);
    }
  }
}
