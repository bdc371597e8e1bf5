/**
 * How the planner picks a start and emits the expands. Whatever it picks is
 * justified by the pattern and the WHERE conjuncts, so the plan means what
 * every other plan for the part means.
 */
module Planning {
  import opened Seqs
  import opened Adjacency
  import opened GraphStore
  import opened PlanRows
  import opened Chain
  import opened Predicates
  import opened MatchPlan
  import opened PlanMeaning
  import Compare

  // ----- Reading conjuncts -----

  /** A conjunct read as `variable.key = value`. */
  datatype EqRead = EqRead(v: Var, key: nat, value: Term, conj: nat)

  function AsEqualities(c: Pred, i: nat): seq<EqRead>
  {
    if !c.Equals? then []
    else
      (if c.a.PropOf? then [EqRead(c.a.v, c.a.key, c.b, i)] else []) +
      (if c.b.PropOf? then [EqRead(c.b.v, c.b.key, c.a, i)] else [])
  }

  datatype RangeOp = Above(inclusive: bool) | Below(inclusive: bool) | Prefixed

  function OpRead(op: Compare.Op): RangeOp
  {
    match op
    case Lt => Below(false)
    case Le => Below(true)
    case Gt => Above(false)
    case Ge => Above(true)
  }

  /** A conjunct read as `variable.key op value`. */
  datatype RangeRead = RangeRead(v: Var, key: nat, op: RangeOp, value: Term)

  /** A comparison with the property on the right is flipped. */
  function AsRange(c: Pred): Option<RangeRead>
  {
    match c
    case Compares(op, a, b) =>
      if a.PropOf? then Some(RangeRead(a.v, a.key, OpRead(op), b))
      else if b.PropOf? then Some(RangeRead(b.v, b.key, OpRead(Flipped(op)), a))
      else None
    case StartsWith(a, b) => if a.PropOf? then Some(RangeRead(a.v, a.key, Prefixed, b)) else None
    case _ => None
  }

  ghost predicate EqFrom(conj: seq<Pred>, r: EqRead)
  {
    r.conj < |conj| && ReadsEquality(conj[r.conj], r.v, r.key, r.value)
  }

  ghost predicate RangeFrom(conj: seq<Pred>, r: RangeRead)
  {
    match r.op
    case Prefixed => StartsWith(PropOf(r.v, r.key), r.value) in conj
    case Above(i) => exists c :: c in conj && ReadsLimit(c, r.v, r.key, LowerOp(Limit(r.value, i)), r.value)
    case Below(i) => exists c :: c in conj && ReadsLimit(c, r.v, r.key, UpperOp(Limit(r.value, i)), r.value)
  }

  lemma RangeReads(conj: seq<Pred>, c: Pred)
    requires c in conj && AsRange(c).Some?
    ensures RangeFrom(conj, AsRange(c).value)
  {
    var r := AsRange(c).value;
    match r.op
    case Prefixed =>
    case Above(i) => assert ReadsLimit(c, r.v, r.key, LowerOp(Limit(r.value, i)), r.value);
    case Below(i) => assert ReadsLimit(c, r.v, r.key, UpperOp(Limit(r.value, i)), r.value);
  }

  ghost predicate Reads(eqs: seq<EqRead>, v: Var, key: nat, value: Term)
  {
    exists r :: r in eqs && r.v == v && r.key == key && r.value == value
  }

  /** The readings are those of the conjuncts: none is made up and none is missed. */
  ghost predicate AllEqualities(conj: seq<Pred>, eqs: seq<EqRead>)
  {
    && (forall r :: r in eqs ==> EqFrom(conj, r))
    && (forall c, v, k, t :: c in conj && ReadsEquality(c, v, k, t) ==> Reads(eqs, v, k, t))
  }

  method ReadEqualities(conj: seq<Pred>) returns (eqs: seq<EqRead>)
    ensures AllEqualities(conj, eqs)
  {
    hide EqFrom, ReadsEquality;
    eqs := [];
    for i := 0 to |conj|
      invariant forall r :: r in eqs ==> EqFrom(conj, r)
      invariant forall c, v, k, t :: c in conj[..i] && ReadsEquality(c, v, k, t) ==> Reads(eqs, v, k, t)
    {
      EqualityReads(conj, i);
      eqs := eqs + AsEqualities(conj[i], i);
    }
    assert conj[..|conj|] == conj;
  }

  lemma EqualityReads(conj: seq<Pred>, i: nat)
    requires i < |conj|
    ensures forall r :: r in AsEqualities(conj[i], i) ==> EqFrom(conj, r)
    ensures forall v, k, t :: ReadsEquality(conj[i], v, k, t) ==> EqRead(v, k, t, i) in AsEqualities(conj[i], i)
  {
  }

  /** The range readings of the conjuncts, in their order. */
  function RangesOf(conj: seq<Pred>): seq<RangeRead>
  {
    if conj == [] then []
    else
      RangesOf(conj[..|conj|-1]) +
      match AsRange(conj[|conj|-1]) case Some(r) => [r] case None => []
  }

  lemma {:induction false} RangesRead(conj: seq<Pred>)
    ensures forall r :: r in RangesOf(conj) <==> exists c :: c in conj && AsRange(c) == Some(r)
  {
    hide AsRange;
    if conj != [] {
      var front, last := conj[..|conj|-1], conj[|conj|-1];
      RangesRead(front);
      assert conj == front + [last];
    }
  }

  lemma RangesFrom(conj: seq<Pred>)
    ensures forall r :: r in RangesOf(conj) ==> RangeFrom(conj, r)
  {
    hide AsRange, RangeFrom, RangesOf;
    RangesRead(conj);
    forall r | r in RangesOf(conj) ensures RangeFrom(conj, r) {
      var c :| c in conj && AsRange(c) == Some(r);
      RangeReads(conj, c);
    }
  }

  method ReadRanges(conj: seq<Pred>) returns (ranges: seq<RangeRead>)
    ensures ranges == RangesOf(conj)
  {
    hide AsRange;
    ranges := [];
    for i := 0 to |conj|
      invariant ranges == RangesOf(conj[..i])
    {
      assert conj[..i+1][..i] == conj[..i];
      if AsRange(conj[i]).Some? {
        ranges := ranges + [AsRange(conj[i]).value];
      }
    }
    assert conj[..|conj|] == conj;
  }

  // ----- Access methods -----

  /** The value can be computed from the row before the node is found. */
  predicate Seekable(w: World, t: Term, d0: set<Var>)
  {
    TermVars(w, t) <= d0
  }

  /** A seek or a range scan is on an indexed pair, and a prefix stands alone. */
  predicate IndexBacked(w: World, a: Access)
  {
    && (a.Seek? || a.Range? ==> Pair(a.lab, a.key) in w.s.cat.indexes)
    && (a.Range? && a.prefix.Some? ==> a.lower.None? && a.upper.None?)
  }

  /** An inline condition or a conjunct that says `v.k = t`. */
  ghost predicate HasEquality(v: Var, props: seq<Inline>, conj: seq<Pred>, k: nat, t: Term)
  {
    Inline(k, t) in props || exists c :: c in conj && ReadsEquality(c, v, k, t)
  }

  lemma EqualityKnown(v: Var, props: seq<Inline>, conj: seq<Pred>, eqs: seq<EqRead>, k: nat, t: Term)
    requires AllEqualities(conj, eqs)
    ensures HasEquality(v, props, conj, k, t) <==> Inline(k, t) in props || Reads(eqs, v, k, t)
  {
    hide ReadsEquality;
    if Reads(eqs, v, k, t) {
      var r :| r in eqs && r.v == v && r.key == k && r.value == t;
      assert EqFrom(conj, r) && conj[r.conj] in conj;
    }
  }

  /** An index and an equality that allow a seek of the node. */
  ghost predicate CanSeek(w: World, nd: PNode, conj: seq<Pred>, d0: set<Var>)
  {
    exists l, k, t :: l in nd.labels && Pair(l, k) in w.s.cat.indexes && TermVars(w, t) <= d0
                      && HasEquality(nd.name, nd.props, conj, k, t)
  }

  /** The access method is one the node's conditions justify. */
  ghost predicate AccessOk(w: World, nd: PNode, conj: seq<Pred>, d0: set<Var>, a: Access, from: Origin)
  {
    && (LabelOf(a).Some? ==> LabelOf(a).value in nd.labels)
    && (a.Seek? ==> TermVars(w, a.value) <= d0)
    && RangeFits(w, conj, d0, nd.name, a)
    && match from
       case FromNothing => !a.Seek?
       case FromInline => a.Seek? && Inline(a.key, a.value) in nd.props
       case FromConjunct(i) => a.Seek? && i < |conj| && ReadsEquality(conj[i], nd.name, a.key, a.value)
  }

  /** An index seek on an equality, inline conditions first. */
  method FindSeek(w: World, nd: PNode, conj: seq<Pred>, eqs: seq<EqRead>, d0: set<Var>)
      returns (a: Option<Access>, from: Origin)
    requires AllEqualities(conj, eqs)
    ensures a.Some? ==> a.value.Seek? && AccessOk(w, nd, conj, d0, a.value, from) && IndexBacked(w, a.value)
    ensures a.Some? <==> CanSeek(w, nd, conj, d0)
  {
    hide ReadsEquality, TermVars, CanSeek, Reads, AllEqualities;
    for i := 0 to |nd.labels|
      invariant forall l, k, t :: l in nd.labels[..i] && Pair(l, k) in w.s.cat.indexes && Seekable(w, t, d0) ==>
                                    !(Inline(k, t) in nd.props || Reads(eqs, nd.name, k, t))
    {
      var l := nd.labels[i];
      for j := 0 to |nd.props|
        invariant forall m :: 0 <= m < j ==>
                                !(Pair(l, nd.props[m].key) in w.s.cat.indexes && Seekable(w, nd.props[m].value, d0))
      {
        var c := nd.props[j];
        if Pair(l, c.key) in w.s.cat.indexes && Seekable(w, c.value, d0) {
          SeekPossible(w, nd, conj, eqs, d0, Seek(l, c.key, c.value));
          return Some(Seek(l, c.key, c.value)), FromInline;
        }
      }
      for j := 0 to |eqs|
        invariant forall m :: 0 <= m < j && eqs[m].v == nd.name ==>
                                !(Pair(l, eqs[m].key) in w.s.cat.indexes && Seekable(w, eqs[m].value, d0))
      {
        var r := eqs[j];
        if r.v == nd.name && Pair(l, r.key) in w.s.cat.indexes && Seekable(w, r.value, d0) {
          ReadingKnown(conj, eqs, r);
          SeekPossible(w, nd, conj, eqs, d0, Seek(l, r.key, r.value));
          return Some(Seek(l, r.key, r.value)), FromConjunct(r.conj);
        }
      }
      NoReading(w, nd.name, eqs, l, w.s.cat.indexes, d0);
    }
    assert nd.labels[..|nd.labels|] == nd.labels;
    SeekImpossible(w, nd, conj, eqs, d0);
    return None, FromNothing;
  }

  lemma ReadingKnown(conj: seq<Pred>, eqs: seq<EqRead>, r: EqRead)
    requires AllEqualities(conj, eqs) && r in eqs
    ensures EqFrom(conj, r) && Reads(eqs, r.v, r.key, r.value)
  {
  }

  lemma NoReading(w: World, v: Var, eqs: seq<EqRead>, owner: nat, indexes: set<Pair>, d0: set<Var>)
    requires forall m :: 0 <= m < |eqs| && eqs[m].v == v ==>
                           !(Pair(owner, eqs[m].key) in indexes && Seekable(w, eqs[m].value, d0))
    ensures forall k, t :: Pair(owner, k) in indexes && Seekable(w, t, d0) ==> !Reads(eqs, v, k, t)
  {
  }

  lemma SeekPossible(w: World, nd: PNode, conj: seq<Pred>, eqs: seq<EqRead>, d0: set<Var>, a: Access)
    requires AllEqualities(conj, eqs) && a.Seek? && a.lab in nd.labels && Pair(a.lab, a.key) in w.s.cat.indexes
    requires Seekable(w, a.value, d0) && (Inline(a.key, a.value) in nd.props || Reads(eqs, nd.name, a.key, a.value))
    ensures CanSeek(w, nd, conj, d0)
  {
    hide TermVars, AllEqualities, HasEquality;
    EqualityKnown(nd.name, nd.props, conj, eqs, a.key, a.value);
  }

  lemma SeekImpossible(w: World, nd: PNode, conj: seq<Pred>, eqs: seq<EqRead>, d0: set<Var>)
    requires AllEqualities(conj, eqs)
    requires forall l, k, t :: l in nd.labels && Pair(l, k) in w.s.cat.indexes && Seekable(w, t, d0) ==>
                                 !(Inline(k, t) in nd.props || Reads(eqs, nd.name, k, t))
    ensures !CanSeek(w, nd, conj, d0)
  {
    hide TermVars, AllEqualities, HasEquality, Reads;
    forall k: nat, t
      ensures HasEquality(nd.name, nd.props, conj, k, t) <==> Inline(k, t) in nd.props || Reads(eqs, nd.name, k, t)
    {
      EqualityKnown(nd.name, nd.props, conj, eqs, k, t);
    }
  }

  ghost predicate LimitsFit(w: World, conj: seq<Pred>, d0: set<Var>, v: Var, a: Access)
    requires a.Range?
  {
    && (a.prefix.Some? ==> TermVars(w, a.prefix.value) <= d0 && StartsWith(PropOf(v, a.key), a.prefix.value) in conj)
    && (a.lower.Some? ==> TermVars(w, a.lower.value.value) <= d0 &&
                          exists c :: c in conj && ReadsLimit(c, v, a.key, LowerOp(a.lower.value), a.lower.value.value))
    && (a.upper.Some? ==> TermVars(w, a.upper.value.value) <= d0 &&
                          exists c :: c in conj && ReadsLimit(c, v, a.key, UpperOp(a.upper.value), a.upper.value.value))
  }

  datatype Side = Low | High | Start

  function SideOf(op: RangeOp): Side
  {
    match op
    case Above(_) => Low
    case Below(_) => High
    case Prefixed => Side.Start
  }

  /** The reading limits the key of the variable from that side, by a value that can be computed. */
  predicate Offers(w: World, v: Var, key: nat, d0: set<Var>, side: Side, r: RangeRead)
  {
    r.v == v && r.key == key && Seekable(w, r.value, d0) && SideOf(r.op) == side
  }

  /** The first reading that offers a limit from that side. */
  function First(w: World, v: Var, key: nat, d0: set<Var>, side: Side, ranges: seq<RangeRead>): (f: Option<RangeRead>)
    ensures f.None? <==> forall i :: 0 <= i < |ranges| ==> !Offers(w, v, key, d0, side, ranges[i])
    ensures f.Some? ==> exists i :: 0 <= i < |ranges| && f.value == ranges[i] && Offers(w, v, key, d0, side, ranges[i])
                                    && forall j :: 0 <= j < i ==> !Offers(w, v, key, d0, side, ranges[j])
  {
    if ranges == [] then None
    else
      var f := First(w, v, key, d0, side, ranges[..|ranges|-1]);
      if f.Some? then f
      else if Offers(w, v, key, d0, side, ranges[|ranges|-1]) then Some(ranges[|ranges|-1])
      else None
  }

  function LimitOf(r: Option<RangeRead>): Option<Limit>
  {
    if r.None? || r.value.op == Prefixed then None else Some(Limit(r.value.value, r.value.op.inclusive))
  }

  function PrefixOf(r: Option<RangeRead>): Option<Term>
  {
    if r.None? then None else Some(r.value.value)
  }

  /** The scan of one pair: the first prefix if there is one, else the first bound of each side. */
  function BestRange(w: World, v: Var, lab: nat, key: nat, ranges: seq<RangeRead>, d0: set<Var>): Access
  {
    var start := First(w, v, key, d0, Side.Start, ranges);
    if start.Some? then Range(lab, key, None, None, PrefixOf(start))
    else
      Range(lab, key, LimitOf(First(w, v, key, d0, Low, ranges)), LimitOf(First(w, v, key, d0, High, ranges)), None)
  }

  /** What one more reading changes. */
  lemma FirstMore(w: World, v: Var, key: nat, d0: set<Var>, side: Side, ranges: seq<RangeRead>, i: nat)
    requires i < |ranges|
    ensures var f := First(w, v, key, d0, side, ranges[..i]);
            First(w, v, key, d0, side, ranges[..i+1]) ==
            if f.None? && Offers(w, v, key, d0, side, ranges[i]) then Some(ranges[i]) else f
  {
    assert ranges[..i+1][..i] == ranges[..i];
  }

  method BoundsFor(w: World, v: Var, lab: nat, key: nat, ranges: seq<RangeRead>, d0: set<Var>) returns (a: Access)
    ensures a == BestRange(w, v, lab, key, ranges, d0)
  {
    hide First, TermVars;
    var none: seq<RangeRead> := [];
    assert ranges[..0] == none;
    NothingOffered(w, v, key, d0);
    var prefix, lower, upper := None, None, None;
    for i := 0 to |ranges|
      invariant prefix == PrefixOf(First(w, v, key, d0, Side.Start, ranges[..i]))
      invariant lower == LimitOf(First(w, v, key, d0, Low, ranges[..i]))
      invariant upper == LimitOf(First(w, v, key, d0, High, ranges[..i]))
    {
      var r := ranges[i];
      FirstMore(w, v, key, d0, Side.Start, ranges, i);
      FirstMore(w, v, key, d0, Low, ranges, i);
      FirstMore(w, v, key, d0, High, ranges, i);
      FirstSide(w, v, key, d0, Low, ranges[..i]);
      FirstSide(w, v, key, d0, High, ranges[..i]);
      if r.v == v && r.key == key && Seekable(w, r.value, d0) {
        match r.op {
          case Prefixed =>
            if prefix.None? {
              prefix := Some(r.value);
            }
          case Above(inclusive) =>
            if lower.None? {
              lower := Some(Limit(r.value, inclusive));
            }
          case Below(inclusive) =>
            if upper.None? {
              upper := Some(Limit(r.value, inclusive));
            }
        }
      }
    }
    assert ranges[..|ranges|] == ranges;
    FirstSide(w, v, key, d0, Low, ranges);
    if prefix.Some? {
      lower, upper := None, None;
    }
    a := Range(lab, key, lower, upper, prefix);
  }

  lemma NothingOffered(w: World, v: Var, key: nat, d0: set<Var>)
    ensures forall side :: First(w, v, key, d0, side, []).None?
  {
  }

  lemma FirstSide(w: World, v: Var, key: nat, d0: set<Var>, side: Side, ranges: seq<RangeRead>)
    ensures var f := First(w, v, key, d0, side, ranges);
            f.Some? ==> f.value in ranges && Offers(w, v, key, d0, side, f.value)
  {
  }

  /** The scan's limits are conjuncts. */
  lemma BestRangeFits(w: World, v: Var, lab: nat, key: nat, conj: seq<Pred>, d0: set<Var>)
    ensures LimitsFit(w, conj, d0, v, BestRange(w, v, lab, key, RangesOf(conj), d0))
  {
    hide First, RangesOf, ReadsLimit, TermVars;
    RangesFrom(conj);
    FirstSide(w, v, key, d0, Side.Start, RangesOf(conj));
    FirstSide(w, v, key, d0, Low, RangesOf(conj));
    FirstSide(w, v, key, d0, High, RangesOf(conj));
  }

  /** The scan has a limit exactly when some reading of the key offers one. */
  lemma BestRangeLimited(w: World, v: Var, lab: nat, key: nat, ranges: seq<RangeRead>, d0: set<Var>)
    ensures var a := BestRange(w, v, lab, key, ranges, d0);
            (a.prefix.Some? || a.lower.Some? || a.upper.Some?) <==>
            exists r :: r in ranges && r.v == v && r.key == key && Seekable(w, r.value, d0)
  {
    hide First, TermVars;
    FirstSide(w, v, key, d0, Side.Start, ranges);
    FirstSide(w, v, key, d0, Low, ranges);
    FirstSide(w, v, key, d0, High, ranges);
    if r :| r in ranges && r.v == v && r.key == key && Seekable(w, r.value, d0) {
      assert Offers(w, v, key, d0, SideOf(r.op), r);
    }
  }

  /** A reading of an indexed key of the node whose value can be computed. */
  ghost predicate CanRange(w: World, nd: PNode, conj: seq<Pred>, d0: set<Var>)
  {
    exists l, c :: l in nd.labels && c in conj && RangeOn(w, nd.name, l, c, d0)
  }

  predicate RangeAt(w: World, v: Var, l: nat, r: RangeRead, d0: set<Var>)
  {
    r.v == v && Pair(l, r.key) in w.s.cat.indexes && Seekable(w, r.value, d0)
  }

  /** The conjunct limits `v.key` by t: a comparison, read from the left if both sides are properties, or a prefix. */
  ghost predicate LimitedBy(c: Pred, v: Var, key: nat, t: Term)
  {
    || (c.Compares? && c.a == PropOf(v, key) && c.b == t)
    || (c.Compares? && c.b == PropOf(v, key) && c.a == t && !t.PropOf?)
    || c == StartsWith(PropOf(v, key), t)
  }

  lemma LimitRead(c: Pred, v: Var, key: nat, t: Term)
    ensures LimitedBy(c, v, key, t) <==>
            AsRange(c).Some? && AsRange(c).value.v == v && AsRange(c).value.key == key && AsRange(c).value.value == t
  {
  }

  ghost predicate RangeOn(w: World, v: Var, l: nat, c: Pred, d0: set<Var>)
  {
    exists key, t :: LimitedBy(c, v, key, t) && Pair(l, key) in w.s.cat.indexes && TermVars(w, t) <= d0
  }

  lemma RangeOnRead(w: World, v: Var, l: nat, c: Pred, d0: set<Var>)
    ensures RangeOn(w, v, l, c, d0) <==> AsRange(c).Some? && RangeAt(w, v, l, AsRange(c).value, d0)
  {
    forall key, t
      ensures LimitedBy(c, v, key, t) <==>
              AsRange(c).Some? && AsRange(c).value.v == v && AsRange(c).value.key == key && AsRange(c).value.value == t
    {
      LimitRead(c, v, key, t);
    }
    hide AsRange, LimitedBy, Seekable;
    if AsRange(c).Some? && RangeAt(w, v, l, AsRange(c).value, d0) {
      var r := AsRange(c).value;
      assert LimitedBy(c, v, r.key, r.value);
    }
  }

  /** An index range scan on the first indexed key with a usable condition. */
  method FindRange(w: World, nd: PNode, conj: seq<Pred>, ranges: seq<RangeRead>, d0: set<Var>)
      returns (a: Option<Access>)
    requires ranges == RangesOf(conj)
    ensures a.Some? ==> a.value.Range? && AccessOk(w, nd, conj, d0, a.value, FromNothing) && IndexBacked(w, a.value)
                        && a.value == BestRange(w, nd.name, a.value.lab, a.value.key, ranges, d0)
    ensures a.Some? <==> CanRange(w, nd, conj, d0)
  {
    hide RangesOf, First, ReadsLimit, TermVars, CanRange;
    for i := 0 to |nd.labels|
      invariant forall l, r :: l in nd.labels[..i] && r in ranges ==> !RangeAt(w, nd.name, l, r, d0)
    {
      for j := 0 to |ranges|
        invariant forall m :: 0 <= m < j ==> !RangeAt(w, nd.name, nd.labels[i], ranges[m], d0)
      {
        if ranges[j].v == nd.name && Pair(nd.labels[i], ranges[j].key) in w.s.cat.indexes {
          var c := BoundsFor(w, nd.name, nd.labels[i], ranges[j].key, ranges, d0);
          BestRangeLimited(w, nd.name, nd.labels[i], ranges[j].key, ranges, d0);
          assert ranges[j] in ranges;
          if c.prefix.Some? || c.lower.Some? || c.upper.Some? {
            BestRangeFits(w, nd.name, nd.labels[i], ranges[j].key, conj, d0);
            RangePossible(w, nd, conj, d0, nd.labels[i], ranges[j].key);
            return Some(c);
          }
        }
      }
      assert nd.labels[..i+1] == nd.labels[..i] + [nd.labels[i]];
      assert forall r :: r in ranges ==> !RangeAt(w, nd.name, nd.labels[i], r, d0);
    }
    assert nd.labels[..|nd.labels|] == nd.labels;
    RangeImpossible(w, nd, conj, d0);
    return None;
  }

  lemma RangePossible(w: World, nd: PNode, conj: seq<Pred>, d0: set<Var>, l: nat, key: nat)
    requires l in nd.labels && Pair(l, key) in w.s.cat.indexes
    requires exists r :: r in RangesOf(conj) && r.v == nd.name && r.key == key && Seekable(w, r.value, d0)
    ensures CanRange(w, nd, conj, d0)
  {
    hide AsRange, RangesOf, TermVars;
    RangesRead(conj);
    var r :| r in RangesOf(conj) && r.v == nd.name && r.key == key && Seekable(w, r.value, d0);
    var c :| c in conj && AsRange(c) == Some(r);
    RangeOnRead(w, nd.name, l, c, d0);
  }

  lemma RangeImpossible(w: World, nd: PNode, conj: seq<Pred>, d0: set<Var>)
    requires forall l, r :: l in nd.labels && r in RangesOf(conj) ==> !RangeAt(w, nd.name, l, r, d0)
    ensures !CanRange(w, nd, conj, d0)
  {
    hide AsRange, RangesOf, TermVars, RangeOn;
    RangesRead(conj);
    forall l, c | l in nd.labels && c in conj ensures !RangeOn(w, nd.name, l, c, d0) {
      RangeOnRead(w, nd.name, l, c, d0);
    }
  }

  function ScoreOf(a: Access): nat
  {
    match a case Seek(_, _, _) => 4 case Range(_, _, _, _, _) => 3 case ByLabel(_) => 2 case AllNodes => 1
  }

  /** The best score the node's conditions allow. */
  ghost function BestScore(w: World, nd: PNode, conj: seq<Pred>, d0: set<Var>): nat
  {
    if CanSeek(w, nd, conj, d0) then 4 else if CanRange(w, nd, conj, d0) then 3 else if nd.labels != [] then 2 else 1
  }

  /** The best access method: seek (4), range scan (3), label scan (2), full scan (1). */
  method ScoreNode(w: World, nd: PNode, conj: seq<Pred>, eqs: seq<EqRead>, ranges: seq<RangeRead>, d0: set<Var>)
      returns (score: nat, a: Access, from: Origin)
    requires AllEqualities(conj, eqs) && ranges == RangesOf(conj)
    ensures AccessOk(w, nd, conj, d0, a, from) && IndexBacked(w, a)
    ensures score == ScoreOf(a) == BestScore(w, nd, conj, d0)
  {
    hide CanSeek, CanRange, RangesOf, AllEqualities, ReadsEquality, ReadsLimit, TermVars, First;
    var seek, origin := FindSeek(w, nd, conj, eqs, d0);
    if seek.Some? {
      return 4, seek.value, origin;
    }
    var range := FindRange(w, nd, conj, ranges, d0);
    if range.Some? {
      return 3, range.value, FromNothing;
    }
    if nd.labels != [] {
      return 2, ByLabel(nd.labels[0]), FromNothing;
    }
    return 1, AllNodes, FromNothing;
  }

  // ----- Choosing the anchor -----

  /** The node to start from: the first one with the highest score. */
  method ChooseAnchor(w: World, p: Part, conj: seq<Pred>, eqs: seq<EqRead>, ranges: seq<RangeRead>, d0: set<Var>)
      returns (s: nat, a: Access, from: Origin)
    requires p.nodes != [] && forall i :: 0 <= i < |p.nodes| ==> p.nodes[i].name !in d0
    requires AllEqualities(conj, eqs) && ranges == RangesOf(conj)
    ensures NodeAnchor(w, p, conj, d0, s, a, from) && IndexBacked(w, a)
    ensures forall i :: 0 <= i < |p.nodes| ==> BestScore(w, p.nodes[i], conj, d0) <= ScoreOf(a)
    ensures s < |p.nodes| && BestScore(w, p.nodes[s], conj, d0) == ScoreOf(a)
    ensures forall i :: 0 <= i < s ==> BestScore(w, p.nodes[i], conj, d0) < ScoreOf(a)
  {
    hide BestScore, RangesOf, AllEqualities, AccessOk, IndexBacked, ScoreOf;
    var best: nat;
    s := 0;
    best, a, from := ScoreNode(w, p.nodes[0], conj, eqs, ranges, d0);
    for i := 1 to |p.nodes|
      invariant s < i && AccessOk(w, p.nodes[s], conj, d0, a, from) && IndexBacked(w, a)
      invariant best == ScoreOf(a) == BestScore(w, p.nodes[s], conj, d0)
      invariant forall j :: 0 <= j < i ==> BestScore(w, p.nodes[j], conj, d0) <= best
      invariant forall j :: 0 <= j < s ==> BestScore(w, p.nodes[j], conj, d0) < best
    {
      var score, b, o := ScoreNode(w, p.nodes[i], conj, eqs, ranges, d0);
      if score > best {
        s, best, a, from := i, score, b, o;
      }
    }
    AccessIsAnchor(w, p, conj, d0, s, a, from);
  }

  lemma AccessIsAnchor(w: World, p: Part, conj: seq<Pred>, d0: set<Var>, s: nat, a: Access, from: Origin)
    requires s < |p.nodes| && AccessOk(w, p.nodes[s], conj, d0, a, from)
    requires forall i :: 0 <= i < |p.nodes| ==> p.nodes[i].name !in d0
    ensures NodeAnchor(w, p, conj, d0, s, a, from)
  {
  }

  /** A relationship of one type with an equality that its index can seek. */
  ghost predicate CanRelSeek(w: World, rel: PRel, conj: seq<Pred>, d0: set<Var>)
  {
    exists typ: nat, k: nat, t :: rel.follow.types == Some([typ]) && typ != 0 && Pair(typ, k) in w.s.cat.relIndexes
                        && TermVars(w, t) <= d0 && HasEquality(rel.name, rel.props, conj, k, t)
  }

  lemma RelSeekPossible(w: World, rel: PRel, conj: seq<Pred>, eqs: seq<EqRead>, d0: set<Var>, typ: nat, k: nat, t: Term)
    requires AllEqualities(conj, eqs) && rel.follow.types == Some([typ]) && typ != 0 &&
             Pair(typ, k) in w.s.cat.relIndexes
    requires Seekable(w, t, d0) && (Inline(k, t) in rel.props || Reads(eqs, rel.name, k, t))
    ensures CanRelSeek(w, rel, conj, d0)
  {
    hide TermVars, AllEqualities, HasEquality;
    EqualityKnown(rel.name, rel.props, conj, eqs, k, t);
  }

  lemma RelSeekImpossible(w: World, rel: PRel, conj: seq<Pred>, eqs: seq<EqRead>, d0: set<Var>, typ: nat)
    requires AllEqualities(conj, eqs) && rel.follow.types == Some([typ])
    requires forall k, t :: Pair(typ, k) in w.s.cat.relIndexes && Seekable(w, t, d0) ==>
                              !(Inline(k, t) in rel.props || Reads(eqs, rel.name, k, t))
    ensures !CanRelSeek(w, rel, conj, d0)
  {
    hide TermVars, AllEqualities, HasEquality, Reads;
    forall k: nat, t
      ensures HasEquality(rel.name, rel.props, conj, k, t) <==> Inline(k, t) in rel.props || Reads(eqs, rel.name, k, t)
    {
      EqualityKnown(rel.name, rel.props, conj, eqs, k, t);
    }
  }

  /** A seek of one relationship, inline conditions first. */
  method SeekRel(w: World, rel: PRel, conj: seq<Pred>, eqs: seq<EqRead>, d0: set<Var>)
      returns (found: bool, typ: nat, key: nat, value: Term, from: Origin)
    requires AllEqualities(conj, eqs)
    ensures found <==> CanRelSeek(w, rel, conj, d0)
    ensures found ==> rel.follow.types == Some([typ]) && typ != 0
                      && Pair(typ, key) in w.s.cat.relIndexes && Seekable(w, value, d0)
    ensures found ==> match from
                      case FromNothing => false
                      case FromInline => Inline(key, value) in rel.props
                      case FromConjunct(i) => i < |conj| && ReadsEquality(conj[i], rel.name, key, value)
  {
    hide ReadsEquality, TermVars, Reads, AllEqualities;
    var types := rel.follow.types;
    if types.Some? && |types.value| == 1 && types.value[0] != 0 {
      typ := types.value[0];
      assert types.value == [typ];
      for j := 0 to |rel.props|
        invariant forall m :: 0 <= m < j ==>
                                !(Pair(typ, rel.props[m].key) in w.s.cat.relIndexes &&
                                  Seekable(w, rel.props[m].value, d0))
      {
        var c := rel.props[j];
        if Pair(typ, c.key) in w.s.cat.relIndexes && Seekable(w, c.value, d0) {
          RelSeekPossible(w, rel, conj, eqs, d0, typ, c.key, c.value);
          return true, typ, c.key, c.value, FromInline;
        }
      }
      for j := 0 to |eqs|
        invariant forall m :: 0 <= m < j && eqs[m].v == rel.name ==>
                                !(Pair(typ, eqs[m].key) in w.s.cat.relIndexes && Seekable(w, eqs[m].value, d0))
      {
        var q := eqs[j];
        if q.v == rel.name && Pair(typ, q.key) in w.s.cat.relIndexes && Seekable(w, q.value, d0) {
          ReadingKnown(conj, eqs, q);
          RelSeekPossible(w, rel, conj, eqs, d0, typ, q.key, q.value);
          return true, typ, q.key, q.value, FromConjunct(q.conj);
        }
      }
      NoReading(w, rel.name, eqs, typ, w.s.cat.relIndexes, d0);
      RelSeekImpossible(w, rel, conj, eqs, d0, typ);
    }
    return false, 0, 0, Other(0), FromNothing;
  }

  /** The first relationship that its index can seek. */
  method FindRelSeek(w: World, p: Part, conj: seq<Pred>, eqs: seq<EqRead>, d0: set<Var>)
      returns (found: bool, r: nat, typ: nat, key: nat, value: Term, from: Origin)
    requires forall i :: 0 <= i < |p.nodes| ==> p.nodes[i].name !in d0
    requires AllEqualities(conj, eqs)
    ensures found <==> exists i :: 0 <= i < |p.rels| && CanRelSeek(w, p.rels[i], conj, d0)
    ensures found ==> RelAnchor(w, p, conj, d0, r, typ, key, value, from) && Pair(typ, key) in w.s.cat.relIndexes
    ensures found ==> forall i :: 0 <= i < r < |p.rels| ==> !CanRelSeek(w, p.rels[i], conj, d0)
  {
    hide ReadsEquality, TermVars, CanRelSeek, AllEqualities;
    for i := 0 to |p.rels|
      invariant forall j :: 0 <= j < i ==> !CanRelSeek(w, p.rels[j], conj, d0)
    {
      found, typ, key, value, from := SeekRel(w, p.rels[i], conj, eqs, d0);
      if found {
        return true, i, typ, key, value, from;
      }
    }
    return false, 0, 0, 0, Other(0), FromNothing;
  }

  datatype Start =
    | AtBound(s: nat)
    | AtNode(s: nat, access: Access, from: Origin)
    | AtRel(r: nat, typ: nat, key: nat, value: Term, from: Origin)

  /** The start is justified and backed by an index, so the plan is one of those that agree. */
  ghost predicate StartOk(w: World, p: Part, conj: seq<Pred>, d0: set<Var>, st: Start)
  {
    match st
    case AtBound(s) => s < |p.nodes| && p.nodes[s].name in d0
    case AtNode(s, a, from) => NodeAnchor(w, p, conj, d0, s, a, from) && IndexBacked(w, a)
    case AtRel(r, typ, key, value, from) =>
      RelAnchor(w, p, conj, d0, r, typ, key, value, from) && Pair(typ, key) in w.s.cat.relIndexes
  }

  ghost predicate SomeSeek(w: World, p: Part, conj: seq<Pred>, d0: set<Var>)
  {
    exists i :: 0 <= i < |p.nodes| && CanSeek(w, p.nodes[i], conj, d0)
  }

  ghost predicate SomeRelSeek(w: World, p: Part, conj: seq<Pred>, d0: set<Var>)
  {
    exists i :: 0 <= i < |p.rels| && CanRelSeek(w, p.rels[i], conj, d0)
  }

  lemma BestIsSeek(w: World, p: Part, conj: seq<Pred>, d0: set<Var>, s: nat, a: Access)
    requires s < |p.nodes| && BestScore(w, p.nodes[s], conj, d0) == ScoreOf(a)
    requires forall i :: 0 <= i < |p.nodes| ==> BestScore(w, p.nodes[i], conj, d0) <= ScoreOf(a)
    ensures a.Seek? <==> SomeSeek(w, p, conj, d0)
  {
    hide CanSeek, CanRange;
  }

  /** A bound node if there is one, else a node seek, else a relationship seek, else the best scan. */
  method ChooseStart(w: World, p: Part, conj: seq<Pred>, d0: set<Var>) returns (st: Start)
    requires p.nodes != []
    ensures StartOk(w, p, conj, d0, st)
    ensures st.AtBound? <==> exists i :: 0 <= i < |p.nodes| && p.nodes[i].name in d0
    ensures st.AtRel? <==> (forall i :: 0 <= i < |p.nodes| ==> p.nodes[i].name !in d0)
                           && !SomeSeek(w, p, conj, d0) && SomeRelSeek(w, p, conj, d0)
    ensures st.AtNode? ==> forall i :: 0 <= i < |p.nodes| ==> BestScore(w, p.nodes[i], conj, d0) <= ScoreOf(st.access)
  {
    hide RelAnchor, NodeAnchor, CanRelSeek, BestScore, SomeSeek, AllEqualities, RangesOf, IndexBacked;
    for i := 0 to |p.nodes|
      invariant forall j :: 0 <= j < i ==> p.nodes[j].name !in d0
    {
      if p.nodes[i].name in d0 {
        return AtBound(i);
      }
    }
    var eqs := ReadEqualities(conj);
    var ranges := ReadRanges(conj);
    var s, a, from := ChooseAnchor(w, p, conj, eqs, ranges, d0);
    BestIsSeek(w, p, conj, d0, s, a);
    if !a.Seek? {
      var found, r, typ, key, value, o := FindRelSeek(w, p, conj, eqs, d0);
      if found {
        return AtRel(r, typ, key, value, o);
      }
    }
    return AtNode(s, a, from);
  }

  // ----- Emitting the expands -----

  class Planner {
    var bound: set<Var>
    var hops: seq<Hop>

    constructor (bound: set<Var>)
      ensures this.bound == bound && hops == []
    {
      this.bound, hops := bound, [];
    }

    /** One expand, against the pattern's direction when it goes leftward. */
    method EmitExpand(from: Var, rel: Var, follow: Follow, to: Var, reversed: bool)
      modifies this
      ensures hops == old(hops) + [Hop(from, rel, to, if reversed then Reverse(follow) else follow, to in old(bound))]
      ensures bound == old(bound) + {rel, to}
    {
      var f := if reversed then Reverse(follow) else follow;
      hops := hops + [Hop(from, rel, to, f, to in bound)];
      bound := bound + {rel, to};
    }

    method ExpandRight(q: Shape, hi: nat)
      requires q.Valid() && hi <= |q.rels|
      modifies this
      ensures hops == old(hops) + Rightward(q, hi, old(bound)) &&
              bound == BoundAfter(old(bound), Rightward(q, hi, old(bound)))
    {
      hide Rightward, BoundAfter;
      assert old(hops) + [] + Rightward(q, hi, bound) == old(hops) + Rightward(q, hi, bound);
      for i := hi to |q.rels|
        invariant hops + Rightward(q, i, bound) == old(hops) + Rightward(q, hi, old(bound))
        invariant BoundAfter(bound, Rightward(q, i, bound)) == BoundAfter(old(bound), Rightward(q, hi, old(bound)))
      {
        RightStep(q, i, bound);
        Shift(hops, Hop(q.nodes[i], q.rels[i], q.nodes[i+1], q.follows[i], q.nodes[i+1] in bound),
              Rightward(q, i + 1, bound + {q.rels[i], q.nodes[i+1]}));
        EmitExpand(q.nodes[i], q.rels[i], q.follows[i], q.nodes[i+1], false);
      }
      EndSteps(q, bound);
      assert hops + [] == hops;
    }

    method ExpandLeft(q: Shape, lo: nat)
      requires q.Valid() && lo <= |q.rels|
      modifies this
      ensures hops == old(hops) + Leftward(q, lo, old(bound)) &&
              bound == BoundAfter(old(bound), Leftward(q, lo, old(bound)))
    {
      hide Leftward, BoundAfter;
      var i: nat := lo;
      while i > 0
        invariant i <= lo
        invariant hops + Leftward(q, i, bound) == old(hops) + Leftward(q, lo, old(bound))
        invariant BoundAfter(bound, Leftward(q, i, bound)) == BoundAfter(old(bound), Leftward(q, lo, old(bound)))
      {
        LeftStep(q, i, bound);
        Shift(hops, Hop(q.nodes[i], q.rels[i-1], q.nodes[i-1], Reverse(q.follows[i-1]), q.nodes[i-1] in bound),
              Leftward(q, i - 1, bound + {q.rels[i-1], q.nodes[i-1]}));
        EmitExpand(q.nodes[i], q.rels[i-1], q.follows[i-1], q.nodes[i-1], true);
        i := i - 1;
      }
      EndSteps(q, bound);
      assert hops + [] == hops;
    }

    /** Rightward from the bound stretch of nodes lo to hi, then leftward. */
    method ExpandOutwards(q: Shape, ghost d0: set<Var>, lo: nat, hi: nat)
      requires q.Valid() && (forall v :: v in q.rels ==> v !in d0)
      requires lo <= hi <= |q.rels| && bound == Done(q, d0, lo, hi) && hops == []
      modifies this
      ensures hops == HopsFrom(q, d0, lo, hi) && bound == d0 + AllVars(q)
    {
      hide Rightward, Leftward, BoundAfter, Done, HopsFit;
      NothingBoundBefore(q, d0);
      RightwardFits(q, d0, d0, lo, hi);
      LeftwardFits(q, d0, d0, lo, |q.rels|);
      ExpandRight(q, hi);
      assert [] + hops == hops;
      ExpandLeft(q, lo);
      WholeChain(q, d0);
    }
  }

  lemma NothingBoundBefore(q: Shape, d0: set<Var>)
    requires forall v :: v in q.rels ==> v !in d0
    ensures Chain.Before(q, d0, d0)
  {
  }

  lemma RightStep(q: Shape, i: nat, d: set<Var>)
    requires q.Valid() && i < |q.rels|
    ensures var h, e := Hop(q.nodes[i], q.rels[i], q.nodes[i+1], q.follows[i], q.nodes[i+1] in d),
                        d + {q.rels[i], q.nodes[i+1]};
            && Rightward(q, i, d) == [h] + Rightward(q, i + 1, e)
            && BoundAfter(d, Rightward(q, i, d)) == BoundAfter(e, Rightward(q, i + 1, e))
  {
  }

  lemma LeftStep(q: Shape, i: nat, d: set<Var>)
    requires q.Valid() && 0 < i <= |q.rels|
    ensures var h, e := Hop(q.nodes[i], q.rels[i-1], q.nodes[i-1], Reverse(q.follows[i-1]), q.nodes[i-1] in d),
                        d + {q.rels[i-1], q.nodes[i-1]};
            && Leftward(q, i, d) == [h] + Leftward(q, i - 1, e)
            && BoundAfter(d, Leftward(q, i, d)) == BoundAfter(e, Leftward(q, i - 1, e))
  {
  }

  lemma EndSteps(q: Shape, d: set<Var>)
    requires q.Valid()
    ensures Rightward(q, |q.rels|, d) == [] && Leftward(q, 0, d) == [] && BoundAfter(d, []) == d
  {
  }

  lemma Shift(a: seq<Hop>, h: Hop, b: seq<Hop>)
    ensures a + ([h] + b) == (a + [h]) + b
  {
  }

  lemma WholeChain(q: Shape, d0: set<Var>)
    requires q.Valid()
    ensures Done(q, d0, 0, |q.rels|) == d0 + AllVars(q)
  {
    assert q.nodes[0..|q.rels|+1] == q.nodes && q.rels[0..|q.rels|] == q.rels;
  }
}
