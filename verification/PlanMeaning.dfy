/** The main result about match plans: every way to start a chain gives the same rows. */
module PlanMeaning {
  import opened Seqs
  import opened Values
  import opened Adjacency
  import opened GraphStore
  import opened PlanRows
  import opened Chain
  import opened Anchors
  import opened Predicates
  import opened MatchPlan
  import Compare
  import Lex

  // ----- Filtering -----

  function Filter(w: World, rows: seq<Row>, preds: seq<Pred>): seq<Row>
  {
    if preds == [] then rows else Keep(w, rows, AndAll(preds))
  }

  function Keep(w: World, rows: seq<Row>, p: Pred): seq<Row>
  {
    if rows == [] then [] else (if Holds(w, p, rows[0]) then [rows[0]] else []) + Keep(w, rows[1..], p)
  }

  lemma {:induction false} KeepCount(w: World, rows: seq<Row>, p: Pred, x: Row)
    ensures multiset(Keep(w, rows, p))[x] == if Holds(w, p, x) then multiset(rows)[x] else 0
  {
    hide Holds;
    if rows != [] {
      assert rows == [rows[0]] + rows[1..];
      KeepCount(w, rows[1..], p, x);
    }
  }

  lemma FilterCount(w: World, rows: seq<Row>, preds: seq<Pred>, x: Row)
    ensures multiset(Filter(w, rows, preds))[x] == if AllHold(w, preds, x) then multiset(rows)[x] else 0
  {
    if preds != [] {
      AndAllMeans(w, preds, x);
      KeepCount(w, rows, AndAll(preds), x);
    }
  }

  // ----- The reference -----

  /** Every node variable of the part is bound to a stored node. */
  ghost predicate NodesExist(w: World, p: Part, x: Row)
  {
    forall i :: 0 <= i < |p.nodes| ==> IsNode(x, p.nodes[i].name) && NodeAt(x, p.nodes[i].name) in w.s.nodes
  }

  ghost predicate Satisfies(w: World, p: Part, conj: seq<Pred>, x: Row)
  {
    AllHold(w, ResidualPredicates(p, NOTHING), x) && AllHold(w, conj, x)
  }

  /**
   * How often a row is wanted, without reference to any plan: as often as
   * the row it extends, times the ways each relationship joins its ends.
   */
  ghost function Wanted(w: World, p: Part, conj: seq<Pred>, rows: seq<Row>, d0: set<Var>, x: Row): nat
    requires p.Valid()
  {
    if x.Keys == d0 + AllVars(p.Shape()) && NodesExist(w, p, x) && MeetsPart(w, p, x) && AllHold(w, conj, x)
    then multiset(rows)[Narrow(x, d0)] * Over(w.g, p.Shape(), x, 0, |p.rels|) else 0
  }

  /** The same with the conditions as a plan checks them. */
  lemma WantedChecked(w: World, p: Part, conj: seq<Pred>, rows: seq<Row>, d0: set<Var>, x: Row)
    requires p.Valid()
    ensures Wanted(w, p, conj, rows, d0, x) ==
            if x.Keys == d0 + AllVars(p.Shape()) && NodesExist(w, p, x) && Satisfies(w, p, conj, x)
            then multiset(rows)[Narrow(x, d0)] * Over(w.g, p.Shape(), x, 0, |p.rels|) else 0
  {
    hide Over, AllHold, MeetsPart, ResidualPredicates, AllVars;
    if NodesExist(w, p, x) {
      ResidualMeans(w, p, x);
    }
  }

  /** A relationship between two bound nodes exists, and so do its ends. */
  lemma HopNodes(w: World, x: Row, h: Hop)
    requires w.Ok() && HopCount(w.g, x, h) > 0
    ensures IsNode(x, h.from) && IsNode(x, h.to) && IsEdge(x, h.rel)
    ensures NodeAt(x, h.from) in w.s.nodes && NodeAt(x, h.to) in w.s.nodes
    ensures x[h.rel].value.e in w.s.outs && TypeCount(ScanTypes(h.follow), x[h.rel].value.e.typ) > 0
    ensures Directions(h.follow, NodeAt(x, h.from), x[h.rel].value.e, NodeAt(x, h.to)) > 0
  {
    var e := x[h.rel].value.e;
    GivenEdges(w.s);
    hide Consistent, TypeCount;
    var t, d := TypeCount(ScanTypes(h.follow), e.typ), Directions(h.follow, NodeAt(x, h.from), e, NodeAt(x, h.to));
    assert t * d > 0;
    Factors(t, d);
  }

  lemma Factors(t: nat, d: nat)
    requires t * d > 0
    ensures t > 0 && d > 0
  {
  }

  lemma GivenEdges(s: Store)
    requires Consistent(s)
    ensures EdgesAgree(s)
  {
  }

  lemma {:induction false} OverFactors(g: Adj, q: Chain.Shape, x: Row, lo: nat, hi: nat, i: nat)
    requires q.Valid() && hi <= |q.rels| && lo <= i < hi && Over(g, q, x, lo, hi) > 0
    ensures HopCount(g, x, Forward(q, i)) > 0
    decreases hi - lo
  {
    hide HopCount;
    Factors(HopCount(g, x, Forward(q, lo)), Over(g, q, x, lo + 1, hi));
    if i > lo {
      OverFactors(g, q, x, lo + 1, hi, i);
    }
  }

  /** In a row that counts, one existing node of the part means that all exist. */
  lemma AllNodesExist(w: World, p: Part, x: Row, s: nat)
    requires w.Ok() && p.Valid() && s < |p.nodes| && Over(w.g, p.Shape(), x, 0, |p.rels|) > 0
    requires IsNode(x, p.nodes[s].name) && NodeAt(x, p.nodes[s].name) in w.s.nodes
    ensures NodesExist(w, p, x)
  {
    hide HopCount, Over;
    var q := p.Shape();
    forall i | 0 <= i < |p.nodes| ensures IsNode(x, p.nodes[i].name) && NodeAt(x, p.nodes[i].name) in w.s.nodes {
      if |p.rels| > 0 {
        var r := if i < |p.rels| then i else i - 1;
        OverFactors(w.g, q, x, 0, |p.rels|, r);
        HopNodes(w, x, Forward(q, r));
        assert q.nodes[r] == p.nodes[r].name && q.nodes[r+1] == p.nodes[r+1].name;
      }
    }
  }

  // ----- Starting from a bound node -----

  /** The input rows bind existing nodes. */
  ghost predicate RowsExist(w: World, rows: seq<Row>, n0: set<Var>)
  {
    forall b, v :: b in rows && v in n0 ==> IsNode(b, v) && NodeAt(b, v) in w.s.nodes
  }

  ghost predicate InputOk(w: World, p: Part, rows: seq<Row>, d0: set<Var>, n0: set<Var>)
  {
    w.Ok() && p.Valid() && Chain.Before(p.Shape(), d0, n0) && Uniform(rows, d0, n0) && RowsExist(w, rows, n0)
  }

  ghost function NoLeaf(): Row -> seq<Row>
  {
    b => [map[]]
  }

  lemma BoundStarts(w: World, p: Part, rows: seq<Row>, d0: set<Var>, n0: set<Var>, s: nat)
    requires InputOk(w, p, rows, d0, n0) && s < |p.nodes| && p.nodes[s].name in d0
    ensures Starts(p.Shape(), rows, NoLeaf(), d0, n0, {}, {}, s, s)
  {
    hide Consistent;
    var q := p.Shape();
    assert q.nodes[s..s+1] == [p.nodes[s].name] && q.rels[s..s] == [];
    assert p.nodes[s].name in q.nodes by {
      assert q.nodes[s] == p.nodes[s].name;
    }
  }

  ghost function BoundPlan(w: World, p: Part, conj: seq<Pred>, rows: seq<Row>, d0: set<Var>, n0: set<Var>, s: nat)
    : seq<Row>
    requires InputOk(w, p, rows, d0, n0) && s < |p.nodes| && p.nodes[s].name in d0
  {
    BoundStarts(w, p, rows, d0, n0, s);
    Filter(w, ChainRows(w.g, p.Shape(), rows, NoLeaf(), d0, n0, {}, {}, s, s), ResidualPredicates(p, NOTHING) + conj)
  }

  lemma BoundPlanCount(w: World, p: Part, conj: seq<Pred>, rows: seq<Row>, d0: set<Var>, n0: set<Var>, s: nat, x: Row)
    requires InputOk(w, p, rows, d0, n0) && s < |p.nodes| && p.nodes[s].name in d0
    ensures multiset(BoundPlan(w, p, conj, rows, d0, n0, s))[x] == Wanted(w, p, conj, rows, d0, x)
  {
    hide Consistent, ChainRows, Filter, ResidualPredicates, AllHold, Over, Product, HopsFrom, Wanted;
    WantedChecked(w, p, conj, rows, d0, x);
    var q := p.Shape();
    BoundStarts(w, p, rows, d0, n0, s);
    FilterCount(w, ChainRows(w.g, q, rows, NoLeaf(), d0, n0, {}, {}, s, s), ResidualPredicates(p, NOTHING) + conj, x);
    AllHoldConcat(w, ResidualPredicates(p, NOTHING), conj, x);
    ChainCount(w.g, q, rows, NoLeaf(), d0, n0, {}, {}, s, s, x);
    if x.Keys == d0 + AllVars(q) {
      var b := Narrow(x, d0);
      assert Narrow(x, {}) == map[];
      assert multiset(NoLeaf()(b))[Narrow(x, {})] == 1;
      WholeProduct(w.g, q, x, d0, s);
      if multiset(rows)[b] > 0 && Over(w.g, q, x, 0, |p.rels|) > 0 {
        assert b in rows;
        assert p.nodes[s].name in n0 by {
          assert q.nodes[s] in q.nodes;
        }
        assert IsNode(b, p.nodes[s].name) && NodeAt(b, p.nodes[s].name) in w.s.nodes;
        AllNodesExist(w, p, x, s);
      }
      ZeroEither(multiset(rows)[b], Over(w.g, q, x, 0, |p.rels|));
    }
  }

  lemma ZeroEither(a: nat, b: nat)
    ensures a == 0 || b == 0 ==> a * b == 0
    ensures a * (1 * b) == a * b && a * (0 * b) == 0
  {
  }

  /** From a single node, the hops are all the relationships. */
  lemma WholeProduct(g: Adj, q: Chain.Shape, x: Row, d0: set<Var>, s: nat)
    requires q.Valid() && s <= |q.rels|
    ensures Product(g, x, HopsFrom(q, d0, s, s)) == Over(g, q, x, 0, |q.rels|)
  {
    hide Product, HopsFrom;
    HopsFromProduct(g, q, x, d0, s, s);
    var a := Product(g, x, HopsFrom(q, d0, s, s));
    assert Over(g, q, x, s, s) == 1;
    assert a * 1 == a;
  }

  // ----- Starting from a node scan -----

  datatype Limit = Limit(value: Term, inclusive: bool)

  datatype Access =
    | AllNodes
    | ByLabel(lab: nat)
    | Seek(lab: nat, key: nat, value: Term)
    | Range(lab: nat, key: nat, lower: Option<Limit>, upper: Option<Limit>, prefix: Option<Term>)

  function LabelOf(a: Access): Option<nat>
  {
    if a.AllNodes? then None else Some(a.lab)
  }

  /** What the access method guarantees of every node it returns for a row. */
  ghost predicate Found(w: World, a: Access, b: Row, n: nat)
  {
    && n in w.s.nodes
    && (LabelOf(a).Some? ==> LabelOf(a).value in w.s.nodes[n].labels)
    && (a.Seek? ==> a.key in w.s.nodes[n].props && Equality(w.s.nodes[n].props[a.key], Eval(w, a.value, b)) == True)
  }

  /** What a range scan may use to leave nodes out. */
  ghost predicate Within(w: World, a: Access, b: Row, n: nat)
    requires n in w.s.nodes
  {
    a.Range? ==>
      && a.key in w.s.nodes[n].props
      && var v := w.s.nodes[n].props[a.key];
         && (a.prefix.Some? ==> v.Str? && Eval(w, a.prefix.value, b).Str? && Eval(w, a.prefix.value, b).s <= v.s)
         && (a.lower.Some? ==> Compare.Compares(LowerOp(a.lower.value), v, Eval(w, a.lower.value.value, b)))
         && (a.upper.Some? ==> Compare.Compares(UpperOp(a.upper.value), v, Eval(w, a.upper.value.value, b)))
  }

  function LowerOp(l: Limit): Compare.Op
  {
    if l.inclusive then Compare.Ge else Compare.Gt
  }

  function UpperOp(l: Limit): Compare.Op
  {
    if l.inclusive then Compare.Le else Compare.Lt
  }

  /** The scan returns each node at most once, only found ones, and every found one within the range. */
  ghost predicate ScanOk(w: World, a: Access, scan: Row -> seq<nat>)
  {
    forall b ::
      && NoDups(scan(b))
      && (forall n :: n in scan(b) ==> Found(w, a, b, n))
      && (forall n :: Found(w, a, b, n) && Within(w, a, b, n) ==> n in scan(b))
  }

  /** Where the equality of a seek comes from. */
  datatype Origin = FromNothing | FromInline | FromConjunct(i: nat)

  function Flipped(op: Compare.Op): Compare.Op
  {
    match op
    case Lt => Compare.Gt
    case Le => Compare.Ge
    case Gt => Compare.Lt
    case Ge => Compare.Le
  }

  ghost predicate ReadsEquality(c: Pred, v: Var, key: nat, t: Term)
  {
    c == Equals(PropOf(v, key), t) || c == Equals(t, PropOf(v, key))
  }

  ghost predicate ReadsLimit(c: Pred, v: Var, key: nat, op: Compare.Op, t: Term)
  {
    c == Predicates.Compares(op, PropOf(v, key), t) || c == Predicates.Compares(Flipped(op), t, PropOf(v, key))
  }

  ghost predicate RangeFits(w: World, conj: seq<Pred>, d0: set<Var>, v: Var, a: Access)
  {
    a.Range? ==>
      && (a.prefix.Some? || a.lower.Some? || a.upper.Some?)
      && (a.prefix.Some? ==> TermVars(w, a.prefix.value) <= d0 && StartsWith(PropOf(v, a.key), a.prefix.value) in conj)
      && (a.lower.Some? ==> TermVars(w, a.lower.value.value) <= d0 &&
                            exists c :: c in conj &&
                                        ReadsLimit(c, v, a.key, LowerOp(a.lower.value), a.lower.value.value))
      && (a.upper.Some? ==> TermVars(w, a.upper.value.value) <= d0 &&
                            exists c :: c in conj &&
                                        ReadsLimit(c, v, a.key, UpperOp(a.upper.value), a.upper.value.value))
  }

  /** An access method for node s that the pattern and the conjuncts justify. */
  ghost predicate NodeAnchor(w: World, p: Part, conj: seq<Pred>, d0: set<Var>, s: nat, a: Access, from: Origin)
  {
    && s < |p.nodes|
    && (forall i :: 0 <= i < |p.nodes| ==> p.nodes[i].name !in d0)
    && (LabelOf(a).Some? ==> LabelOf(a).value in p.nodes[s].labels)
    && (a.Seek? ==> TermVars(w, a.value) <= d0)
    && RangeFits(w, conj, d0, p.nodes[s].name, a)
    && match from
       case FromNothing => !a.Seek?
       case FromInline => a.Seek? && Inline(a.key, a.value) in p.nodes[s].props
       case FromConjunct(i) => a.Seek? && i < |conj| && ReadsEquality(conj[i], p.nodes[s].name, a.key, a.value)
  }

  function GuaranteeOf(s: nat, a: Access, from: Origin): Guarantee
  {
    Guarantee(Some(s), LabelOf(a), if from.FromInline? && a.Seek? then Some(a.key) else None)
  }

  function ConsumedBy(from: Origin): Option<nat>
  {
    if from.FromConjunct? then Some(from.i) else None
  }

  /** An equality on the anchor holds in a row exactly when the node was found by it. */
  lemma SeekMeans(w: World, v: Var, a: Access, d0: set<Var>, x: Row, c: Pred)
    requires w.Ok() && a.Seek? && TermVars(w, a.value) <= d0 && IsNode(x, v) && NodeAt(x, v) in w.s.nodes
    requires ReadsEquality(c, v, a.key, a.value)
    ensures Holds(w, c, x) <==>
            var ps := w.s.nodes[NodeAt(x, v)].props;
            a.key in ps && Equality(ps[a.key], Eval(w, a.value, Narrow(x, d0))) == True
  {
    hide Consistent;
    EvalStable(w, a.value, x, d0);
    EqualityFlips(Eval(w, PropOf(v, a.key), x), Eval(w, a.value, x));
  }

  lemma ComparesFlips(op: Compare.Op, a: Value, b: Value)
    ensures Compare.Compares(op, a, b) <==> Compare.Compares(Flipped(op), b, a)
  {
    if a.Str? && b.Str? {
      Lex.Trichotomy(a.s, b.s);
    }
  }

  lemma LimitMeans(w: World, v: Var, key: nat, op: Compare.Op, t: Term, d0: set<Var>, x: Row, c: Pred)
    requires w.Ok() && TermVars(w, t) <= d0 && IsNode(x, v) && NodeAt(x, v) in w.s.nodes
    requires ReadsLimit(c, v, key, op, t) && Holds(w, c, x)
    ensures var ps := w.s.nodes[NodeAt(x, v)].props;
            key in ps && Compare.Compares(op, ps[key], Eval(w, t, Narrow(x, d0)))
  {
    hide Consistent;
    EvalStable(w, t, x, d0);
    ComparesFlips(op, Eval(w, PropOf(v, key), x), Eval(w, t, x));
  }

  lemma PrefixMeans(w: World, v: Var, key: nat, t: Term, d0: set<Var>, x: Row)
    requires w.Ok() && TermVars(w, t) <= d0 && IsNode(x, v) && NodeAt(x, v) in w.s.nodes
    requires Holds(w, StartsWith(PropOf(v, key), t), x)
    ensures var ps := w.s.nodes[NodeAt(x, v)].props; var y := Eval(w, t, Narrow(x, d0));
            key in ps && ps[key].Str? && y.Str? && y.s <= ps[key].s
  {
    hide Consistent;
    EvalStable(w, t, x, d0);
  }

  /** A row that satisfies the range conjuncts is within the range that was scanned. */
  lemma WithinRange(w: World, conj: seq<Pred>, d0: set<Var>, v: Var, a: Access, x: Row)
    requires w.Ok() && RangeFits(w, conj, d0, v, a) && AllHold(w, conj, x)
    requires IsNode(x, v) && NodeAt(x, v) in w.s.nodes
    ensures Within(w, a, Narrow(x, d0), NodeAt(x, v))
  {
    hide Consistent, Holds, ReadsLimit, Compare.Compares, Eval, TermVars;
    if a.Range? {
      if a.prefix.Some? {
        PrefixMeans(w, v, a.key, a.prefix.value, d0, x);
      }
      if a.lower.Some? {
        var c :| c in conj && ReadsLimit(c, v, a.key, LowerOp(a.lower.value), a.lower.value.value);
        LimitMeans(w, v, a.key, LowerOp(a.lower.value), a.lower.value.value, d0, x, c);
      }
      if a.upper.Some? {
        var c :| c in conj && ReadsLimit(c, v, a.key, UpperOp(a.upper.value), a.upper.value.value);
        LimitMeans(w, v, a.key, UpperOp(a.upper.value), a.upper.value.value, d0, x, c);
      }
    }
  }

  /** The conditions a plan filters with after starting at node s. */
  function NodeFilter(p: Part, conj: seq<Pred>, s: nat, a: Access, from: Origin): seq<Pred>
  {
    ResidualPredicates(p, GuaranteeOf(s, a, from)) + Remaining(conj, ConsumedBy(from))
  }

  /**
   * What the scan enforces and what the filter checks are together exactly
   * the conditions of the pattern.
   */
  lemma NodeConditions(w: World, p: Part, conj: seq<Pred>, d0: set<Var>, s: nat, a: Access, from: Origin, x: Row)
    requires w.Ok() && p.Valid() && NodeAnchor(w, p, conj, d0, s, a, from)
    requires IsNode(x, p.nodes[s].name) && NodeAt(x, p.nodes[s].name) in w.s.nodes
    ensures var n := NodeAt(x, p.nodes[s].name);
            Satisfies(w, p, conj, x) <==>
            Found(w, a, Narrow(x, d0), n) && AllHold(w, NodeFilter(p, conj, s, a, from), x)
  {
    hide Consistent, AllHold, Holds, ResidualPredicates, Equality, Eval, TermVars, RangeFits, ReadsEquality,
      DistinctKeys;
    var nd, g := p.nodes[s], GuaranteeOf(s, a, from);
    ResidualSplit(w, p, g, x);
    RemainingSplit(w, conj, ConsumedBy(from), x);
    AllHoldConcat(w, ResidualPredicates(p, g), Remaining(conj, ConsumedBy(from)), x);
    match from
    case FromNothing =>
    case FromConjunct(i) =>
      SeekMeans(w, nd.name, a, d0, x, conj[i]);
    case FromInline =>
      var j :| 0 <= j < |nd.props| && nd.props[j] == Inline(a.key, a.value);
      InlineReads(nd.name, a);
      SeekMeans(w, nd.name, a, d0, x, Equals(PropOf(nd.name, a.key), a.value));
      OnlyOne(nd.props, j);
  }

  lemma InlineReads(v: Var, a: Access)
    requires a.Seek?
    ensures ReadsEquality(Equals(PropOf(v, a.key), a.value), v, a.key, a.value)
  {
  }

  lemma OnlyOne(ps: seq<Inline>, j: nat)
    requires DistinctKeys(ps) && j < |ps|
    ensures forall i :: 0 <= i < |ps| && ps[i].key == ps[j].key ==> i == j
  {
  }

  ghost function ScanLeaf(v: Var, scan: Row -> seq<nat>): Row -> seq<Row>
  {
    b => NodeRows(v, scan(b))
  }

  lemma ScanStarts(w: World, p: Part, conj: seq<Pred>, rows: seq<Row>, d0: set<Var>, n0: set<Var>, s: nat, a: Access,
                   from: Origin, scan: Row -> seq<nat>)
    requires InputOk(w, p, rows, d0, n0) && NodeAnchor(w, p, conj, d0, s, a, from)
    ensures var v := p.nodes[s].name; Starts(p.Shape(), rows, ScanLeaf(v, scan), d0, n0, {v}, {v}, s, s)
  {
    hide Consistent, RangeFits;
    var q, v := p.Shape(), p.nodes[s].name;
    assert q.nodes[s..s+1] == [v] && q.rels[s..s] == [];
    forall b, r | r in ScanLeaf(v, scan)(b) ensures r.Keys == {v} && IsNode(r, v) {
      NodeRowsFit(v, scan(b));
    }
  }

  /** The filtered rows of a plan that starts from node s. */
  ghost function NodePlan(w: World, p: Part, conj: seq<Pred>, rows: seq<Row>, d0: set<Var>, n0: set<Var>, s: nat,
                          a: Access, from: Origin, scan: Row -> seq<nat>): seq<Row>
    requires InputOk(w, p, rows, d0, n0) && NodeAnchor(w, p, conj, d0, s, a, from)
  {
    ScanStarts(w, p, conj, rows, d0, n0, s, a, from, scan);
    var v := p.nodes[s].name;
    Filter(w, ChainRows(w.g, p.Shape(), rows, ScanLeaf(v, scan), d0, n0, {v}, {v}, s, s),
           NodeFilter(p, conj, s, a, from))
  }

  /** In a row that joins up, the anchor was scanned and the filter passed exactly when the pattern is satisfied. */
  lemma ScannedAndFiltered(w: World, p: Part, conj: seq<Pred>, d0: set<Var>, s: nat, a: Access, from: Origin,
                           scan: Row -> seq<nat>, x: Row)
    requires w.Ok() && p.Valid() && NodeAnchor(w, p, conj, d0, s, a, from) && ScanOk(w, a, scan)
    requires Over(w.g, p.Shape(), x, 0, |p.rels|) > 0
    ensures var v := p.nodes[s].name;
            IsNode(x, v) && NodeAt(x, v) in scan(Narrow(x, d0)) && AllHold(w, NodeFilter(p, conj, s, a, from), x) <==>
            NodesExist(w, p, x) && Satisfies(w, p, conj, x)
  {
    hide Consistent, AllHold, NodeFilter, Over, RangeFits, Satisfies;
    var v := p.nodes[s].name;
    if IsNode(x, v) && NodeAt(x, v) in w.s.nodes {
      AllNodesExist(w, p, x, s);
      NodeConditions(w, p, conj, d0, s, a, from, x);
      if Satisfies(w, p, conj, x) {
        GivenSatisfies(w, p, conj, x);
        NodeRange(w, p, conj, d0, s, a, from);
        WithinRange(w, conj, d0, v, a, x);
      }
    }
  }

  lemma GivenSatisfies(w: World, p: Part, conj: seq<Pred>, x: Row)
    requires Satisfies(w, p, conj, x)
    ensures AllHold(w, conj, x)
  {
  }

  lemma NodeRange(w: World, p: Part, conj: seq<Pred>, d0: set<Var>, s: nat, a: Access, from: Origin)
    requires NodeAnchor(w, p, conj, d0, s, a, from)
    ensures RangeFits(w, conj, d0, p.nodes[s].name, a)
  {
  }

  /** Starting from any justified node scan gives the wanted rows. */
  lemma NodePlanCount(w: World, p: Part, conj: seq<Pred>, rows: seq<Row>, d0: set<Var>, n0: set<Var>, s: nat, a: Access,
                      from: Origin, scan: Row -> seq<nat>, x: Row)
    requires InputOk(w, p, rows, d0, n0) && NodeAnchor(w, p, conj, d0, s, a, from) && ScanOk(w, a, scan)
    ensures multiset(NodePlan(w, p, conj, rows, d0, n0, s, a, from, scan))[x] == Wanted(w, p, conj, rows, d0, x)
  {
    hide Consistent, ChainRows, Filter, NodeFilter, AllHold, Over, Product, HopsFrom, Satisfies, NodesExist, RangeFits,
      Wanted;
    WantedChecked(w, p, conj, rows, d0, x);
    var q, v := p.Shape(), p.nodes[s].name;
    ScanStarts(w, p, conj, rows, d0, n0, s, a, from, scan);
    FilterCount(w, ChainRows(w.g, q, rows, ScanLeaf(v, scan), d0, n0, {v}, {v}, s, s),
                NodeFilter(p, conj, s, a, from), x);
    ChainCount(w.g, q, rows, ScanLeaf(v, scan), d0, n0, {v}, {v}, s, s, x);
    if x.Keys == d0 + AllVars(q) {
      var b, o := Narrow(x, d0), Over(w.g, q, x, 0, |p.rels|);
      WholeProduct(w.g, q, x, d0, s);
      ScanLeafCount(p, s, scan, d0, x);
      NoDupsOnce(w, a, scan, b);
      if o > 0 {
        ScannedAndFiltered(w, p, conj, d0, s, a, from, scan, x);
      }
      ZeroEither(multiset(rows)[b], o);
    }
  }

  lemma ScanLeafCount(p: Part, s: nat, scan: Row -> seq<nat>, d0: set<Var>, x: Row)
    requires p.Valid() && s < |p.nodes| && x.Keys == d0 + AllVars(p.Shape())
    ensures var v, b := p.nodes[s].name, Narrow(x, d0);
            multiset(ScanLeaf(v, scan)(b))[Narrow(x, {v})] ==
            if IsNode(x, v) then multiset(scan(b))[NodeAt(x, v)] else 0
  {
    var v, b := p.nodes[s].name, Narrow(x, d0);
    assert p.Shape().nodes[s] == v;
    assert Narrow(x, {v}).Keys == {v};
    NodeRowsCount(v, scan(b), Narrow(x, {v}));
  }

  lemma NoDupsOnce(w: World, a: Access, scan: Row -> seq<nat>, b: Row)
    requires ScanOk(w, a, scan)
    ensures forall n :: multiset(scan(b))[n] == if n in scan(b) then 1 else 0
  {
    forall n ensures multiset(scan(b))[n] == if n in scan(b) then 1 else 0 {
      NoDupsCount(scan(b), n);
    }
  }

  // ----- Starting from a relationship -----

  /** A seek of relationship r of the part by a property equality. */
  ghost predicate RelAnchor(w: World, p: Part, conj: seq<Pred>, d0: set<Var>, r: nat, typ: nat, key: nat, value: Term,
                            from: Origin)
  {
    && r < |p.rels|
    && (forall i :: 0 <= i < |p.nodes| ==> p.nodes[i].name !in d0)
    && p.rels[r].follow.types == Some([typ]) && typ != 0
    && TermVars(w, value) <= d0
    && match from
       case FromNothing => false
       case FromInline => Inline(key, value) in p.rels[r].props
       case FromConjunct(i) => i < |conj| && ReadsEquality(conj[i], p.rels[r].name, key, value)
  }

  /** The seek returns each relationship of the type with an equal property, once. */
  ghost predicate SeekOk(w: World, typ: nat, key: nat, value: Term, seek: Row -> seq<EdgeRef>)
  {
    forall b :: NoDups(seek(b)) && forall e :: e in seek(b) <==> SeekFinds(w, typ, key, value, b, e)
  }

  ghost predicate SeekFinds(w: World, typ: nat, key: nat, value: Term, b: Row, e: EdgeRef)
  {
    && e in w.s.outs && e.typ == typ && e.id in w.s.edges
    && key in w.s.edges[e.id].props && Equality(w.s.edges[e.id].props[key], Eval(w, value, b)) == True
  }

  function RelFilter(p: Part, conj: seq<Pred>, from: Origin): seq<Pred>
  {
    ResidualPredicates(p, NOTHING) + Remaining(conj, ConsumedBy(from))
  }

  ghost function SeekLeaf(h: Hop, seek: Row -> seq<EdgeRef>): Row -> seq<Row>
  {
    b => EdgeRows(h, seek(b))
  }

  /** The variables the seek binds. */
  ghost function SeekVars(p: Part, r: nat): set<Var>
    requires r < |p.rels| && |p.nodes| == |p.rels| + 1
  {
    {p.rels[r].name, p.nodes[r].name, p.nodes[r+1].name}
  }

  lemma HopNames(p: Part, r: nat)
    requires p.Valid() && r < |p.rels|
    ensures var h := Forward(p.Shape(), r);
            && h == Hop(p.nodes[r].name, p.rels[r].name, p.nodes[r+1].name, p.rels[r].follow, false)
            && h.rel != h.from && h.rel != h.to
  {
    var q := p.Shape();
    assert q.rels[r] in q.rels && q.nodes[r] in q.nodes && q.nodes[r+1] in q.nodes;
  }

  lemma SeekStarts(w: World, p: Part, rows: seq<Row>, d0: set<Var>, n0: set<Var>, r: nat, seek: Row -> seq<EdgeRef>)
    requires InputOk(w, p, rows, d0, n0) && r < |p.rels|
    requires forall i :: 0 <= i < |p.nodes| ==> p.nodes[i].name !in d0
    ensures var h := Forward(p.Shape(), r);
            Starts(p.Shape(), rows, SeekLeaf(h, seek), d0, n0, SeekVars(p, r), {h.from, h.to}, r, r + 1)
  {
    hide Consistent, EdgeRows;
    var q := p.Shape();
    var h := Forward(q, r);
    HopNames(p, r);
    assert q.nodes[r..r+2] == [h.from, h.to] && q.rels[r..r+1] == [h.rel];
    assert q.rels[r] in q.rels;
    forall b, y | y in SeekLeaf(h, seek)(b) ensures y.Keys == SeekVars(p, r) && IsNode(y, h.from) && IsNode(y, h.to) {
      EdgeRowsFit(h, seek(b));
    }
  }

  /** The filtered rows of a plan that starts from relationship r. */
  ghost function RelPlan(w: World, p: Part, conj: seq<Pred>, rows: seq<Row>, d0: set<Var>, n0: set<Var>, r: nat,
                         typ: nat, key: nat, value: Term, from: Origin, seek: Row -> seq<EdgeRef>): seq<Row>
    requires InputOk(w, p, rows, d0, n0) && RelAnchor(w, p, conj, d0, r, typ, key, value, from)
  {
    SeekStarts(w, p, rows, d0, n0, r, seek);
    var h := Forward(p.Shape(), r);
    Filter(w, ChainRows(w.g, p.Shape(), rows, SeekLeaf(h, seek), d0, n0, SeekVars(p, r), {h.from, h.to}, r, r + 1),
           RelFilter(p, conj, from))
  }

  /** An equality on a relationship holds in a row exactly when the seek finds the relationship. */
  lemma RelSeekMeans(w: World, v: Var, key: nat, value: Term, d0: set<Var>, x: Row, c: Pred)
    requires w.Ok() && TermVars(w, value) <= d0 && IsEdge(x, v) && x[v].value.e.id in w.s.edges
    requires ReadsEquality(c, v, key, value)
    ensures Holds(w, c, x) <==>
            var ps := w.s.edges[x[v].value.e.id].props;
            key in ps && Equality(ps[key], Eval(w, value, Narrow(x, d0))) == True
  {
    hide Consistent;
    EvalStable(w, value, x, d0);
    EqualityFlips(Eval(w, PropOf(v, key), x), Eval(w, value, x));
  }

  lemma {:induction false} InlineMember(v: Var, ps: seq<Inline>, j: nat)
    requires j < |ps|
    ensures Equals(PropOf(v, ps[j].key), ps[j].value) in InlinePreds(v, ps, None)
  {
    if j > 0 {
      InlineMember(v, ps[1..], j - 1);
    }
  }

  lemma {:induction false} RelPredMember(p: Part, i: nat, r: nat, c: Pred)
    requires i <= r < |p.rels| && c in InlinePreds(p.rels[r].name, p.rels[r].props, None)
    ensures c in RelsPreds(p, i)
    decreases r - i
  {
    if i < r {
      RelPredMember(p, i + 1, r, c);
    }
  }

  /** The equality of the seek is one of the conditions of the pattern. */
  lemma SeekIsCondition(w: World, p: Part, conj: seq<Pred>, d0: set<Var>, r: nat, typ: nat, key: nat, value: Term,
                        from: Origin, x: Row)
      returns (c: Pred)
    requires RelAnchor(w, p, conj, d0, r, typ, key, value, from)
    ensures ReadsEquality(c, p.rels[r].name, key, value)
    ensures Satisfies(w, p, conj, x) ==> Holds(w, c, x)
    ensures from.FromConjunct? ==> c == conj[from.i]
  {
    hide Holds;
    if from.FromConjunct? {
      c := conj[from.i];
    } else {
      var v := p.rels[r].name;
      c := Equals(PropOf(v, key), value);
      var j :| 0 <= j < |p.rels[r].props| && p.rels[r].props[j] == Inline(key, value);
      InlineMember(v, p.rels[r].props, j);
      RelPredMember(p, 0, r, c);
      AllHoldConcat(w, NodesPreds(p, 0, NOTHING), RelsPreds(p, 0), x);
    }
  }

  /** In a row that joins up, the relationship was sought and the filter passed exactly when the pattern holds. */
  lemma SoughtAndFiltered(w: World, p: Part, conj: seq<Pred>, d0: set<Var>, r: nat, typ: nat, key: nat, value: Term,
                          from: Origin, x: Row)
    requires w.Ok() && p.Valid() && RelAnchor(w, p, conj, d0, r, typ, key, value, from)
    requires Over(w.g, p.Shape(), x, 0, |p.rels|) > 0
    ensures NodesExist(w, p, x) && IsEdge(x, p.rels[r].name)
    ensures SeekFinds(w, typ, key, value, Narrow(x, d0), x[p.rels[r].name].value.e) &&
            AllHold(w, RelFilter(p, conj, from), x)
            <==> Satisfies(w, p, conj, x)
  {
    hide Consistent, AllHold, Over, Holds, ResidualPredicates, Equality, ReadsEquality, HopCount, Eval, TermVars;
    var q := p.Shape();
    var h := Forward(q, r);
    HopNames(p, r);
    OverFactors(w.g, q, x, 0, |p.rels|, r);
    HopNodes(w, x, h);
    AllNodesExist(w, p, x, r);
    var e := x[h.rel].value.e;
    TypeOf(typ, e.typ);
    GivenEdges(w.s);
    AllHoldConcat(w, ResidualPredicates(p, NOTHING), Remaining(conj, ConsumedBy(from)), x);
    RemainingSplit(w, conj, ConsumedBy(from), x);
    var c := SeekIsCondition(w, p, conj, d0, r, typ, key, value, from, x);
    RelSeekMeans(w, h.rel, key, value, d0, x, c);
  }

  lemma TypeOf(typ: nat, t: nat)
    requires TypeCount([typ], t) > 0 && typ != 0
    ensures t == typ && TypeCount([typ], t) == 1
  {
    assert [typ][1..] == [];
  }

  /** A relationship seek contributes exactly the factor of its relationship. */
  lemma SeekFactor(w: World, p: Part, d0: set<Var>, r: nat, typ: nat, key: nat, value: Term, seek: Row -> seq<EdgeRef>,
                   x: Row)
    requires w.Ok() && p.Valid() && r < |p.rels| && p.rels[r].follow.types == Some([typ]) && typ != 0
    requires SeekOk(w, typ, key, value, seek) && x.Keys == d0 + AllVars(p.Shape())
    ensures var h, b := Forward(p.Shape(), r), Narrow(x, d0);
            multiset(SeekLeaf(h, seek)(b))[Narrow(x, SeekVars(p, r))] ==
            if IsEdge(x, h.rel) && SeekFinds(w, typ, key, value, b, x[h.rel].value.e) then HopCount(w.g, x, h) else 0
  {
    hide Consistent, EdgeRows, SeekFinds;
    var q := p.Shape();
    var h, b := Forward(q, r), Narrow(x, d0);
    HopNames(p, r);
    assert q.rels[r] in q.rels && q.nodes[r] in q.nodes && q.nodes[r+1] in q.nodes;
    var y := Narrow(x, SeekVars(p, r));
    assert y.Keys == SeekVars(p, r);
    EdgeRowsCount(h, seek(b), y);
    if IsEdge(x, h.rel) {
      var e := x[h.rel].value.e;
      NoDupsCount(seek(b), e);
      if IsNode(x, h.from) && IsNode(x, h.to) {
        SeekHop(w, typ, key, value, b, h, x);
      }
    }
  }

  lemma SeekHop(w: World, typ: nat, key: nat, value: Term, b: Row, h: Hop, x: Row)
    requires w.Ok() && IsNode(x, h.from) && IsNode(x, h.to) && IsEdge(x, h.rel) && h.follow.types == Some([typ]) &&
             typ != 0
    ensures var e := x[h.rel].value.e;
            SeekFinds(w, typ, key, value, b, e) ==>
            HopCount(w.g, x, h) == Directions(h.follow, NodeAt(x, h.from), e, NodeAt(x, h.to))
  {
    hide Consistent;
    assert [typ][1..] == [];
    assert TypeCount([typ], typ) == 1;
  }

  /** Starting from a relationship seek gives the wanted rows. */
  lemma RelPlanCount(w: World, p: Part, conj: seq<Pred>, rows: seq<Row>, d0: set<Var>, n0: set<Var>, r: nat,
                     typ: nat, key: nat, value: Term, from: Origin, seek: Row -> seq<EdgeRef>, x: Row)
    requires InputOk(w, p, rows, d0, n0) && RelAnchor(w, p, conj, d0, r, typ, key, value, from)
    requires SeekOk(w, typ, key, value, seek)
    ensures multiset(RelPlan(w, p, conj, rows, d0, n0, r, typ, key, value, from, seek))[x] ==
            Wanted(w, p, conj, rows, d0, x)
  {
    hide Consistent, ChainRows, Filter, RelFilter, AllHold, Over, Product, HopsFrom, Satisfies, NodesExist, HopCount,
      SeekOk, SeekFinds, Holds, Wanted;
    WantedChecked(w, p, conj, rows, d0, x);
    var q := p.Shape();
    var h := Forward(q, r);
    SeekStarts(w, p, rows, d0, n0, r, seek);
    FilterCount(w, ChainRows(w.g, q, rows, SeekLeaf(h, seek), d0, n0, SeekVars(p, r), {h.from, h.to}, r, r + 1),
                RelFilter(p, conj, from), x);
    ChainCount(w.g, q, rows, SeekLeaf(h, seek), d0, n0, SeekVars(p, r), {h.from, h.to}, r, r + 1, x);
    if x.Keys == d0 + AllVars(q) {
      var b, o := Narrow(x, d0), Over(w.g, q, x, 0, |p.rels|);
      HopNames(p, r);
      SeekFactor(w, p, d0, r, typ, key, value, seek, x);
      RestProduct(w.g, q, x, d0, r);
      if o > 0 {
        SoughtAndFiltered(w, p, conj, d0, r, typ, key, value, from, x);
      }
      ZeroEither(multiset(rows)[b], o);
      assert 0 * Product(w.g, x, HopsFrom(q, d0, r, r + 1)) == 0;
    }
  }

  lemma RestProduct(g: Adj, q: Chain.Shape, x: Row, d0: set<Var>, r: nat)
    requires q.Valid() && r < |q.rels|
    ensures HopCount(g, x, Forward(q, r)) * Product(g, x, HopsFrom(q, d0, r, r + 1)) == Over(g, q, x, 0, |q.rels|)
  {
    hide Product, HopsFrom, HopCount;
    HopsFromProduct(g, q, x, d0, r, r + 1);
    var a, c := Product(g, x, HopsFrom(q, d0, r, r + 1)), HopCount(g, x, Forward(q, r));
    assert Over(g, q, x, r + 1, r + 1) == 1;
    assert Over(g, q, x, r, r + 1) == c * 1 == c;
    assert a * c == c * a;
  }

  // ----- Every plan -----

  ghost predicate FromBound(w: World, p: Part, conj: seq<Pred>, rows: seq<Row>, d0: set<Var>, n0: set<Var>,
                            out: seq<Row>, s: nat)
    requires InputOk(w, p, rows, d0, n0)
  {
    s < |p.nodes| && p.nodes[s].name in d0 && out == BoundPlan(w, p, conj, rows, d0, n0, s)
  }

  ghost predicate FromNode(w: World, p: Part, conj: seq<Pred>, rows: seq<Row>, d0: set<Var>, n0: set<Var>,
                           out: seq<Row>, s: nat, a: Access, from: Origin, scan: Row -> seq<nat>)
    requires InputOk(w, p, rows, d0, n0)
  {
    && NodeAnchor(w, p, conj, d0, s, a, from) && ScanOk(w, a, scan)
    && out == NodePlan(w, p, conj, rows, d0, n0, s, a, from, scan)
  }

  ghost predicate FromRel(w: World, p: Part, conj: seq<Pred>, rows: seq<Row>, d0: set<Var>, n0: set<Var>, out: seq<Row>,
                          r: nat, typ: nat, key: nat, value: Term, from: Origin, seek: Row -> seq<EdgeRef>)
    requires InputOk(w, p, rows, d0, n0)
  {
    && RelAnchor(w, p, conj, d0, r, typ, key, value, from) && SeekOk(w, typ, key, value, seek)
    && out == RelPlan(w, p, conj, rows, d0, n0, r, typ, key, value, from, seek)
  }

  /** out are the filtered rows of some plan for the part: from a bound node, a node scan or a relationship seek. */
  ghost predicate PlanOutput(w: World, p: Part, conj: seq<Pred>, rows: seq<Row>, d0: set<Var>, n0: set<Var>,
                             out: seq<Row>)
    requires InputOk(w, p, rows, d0, n0)
  {
    || (exists s :: FromBound(w, p, conj, rows, d0, n0, out, s))
    || (exists s, a, from, scan :: FromNode(w, p, conj, rows, d0, n0, out, s, a, from, scan))
    || (exists r, typ, key, value, from, seek :: FromRel(w, p, conj, rows, d0, n0, out, r, typ, key, value, from, seek))
  }

  /** Every plan gives the wanted rows. */
  lemma PlanOutputCount(w: World, p: Part, conj: seq<Pred>, rows: seq<Row>, d0: set<Var>, n0: set<Var>, out: seq<Row>,
                        x: Row)
    requires InputOk(w, p, rows, d0, n0) && PlanOutput(w, p, conj, rows, d0, n0, out)
    ensures p.Valid() && multiset(out)[x] == Wanted(w, p, conj, rows, d0, x)
  {
    GivenValid(w, p, rows, d0, n0);
    hide InputOk, BoundPlan, NodePlan, RelPlan, NodeAnchor, RelAnchor, ScanOk, SeekOk, Wanted;
    if s :| FromBound(w, p, conj, rows, d0, n0, out, s) {
      BoundPlanCount(w, p, conj, rows, d0, n0, s, x);
    } else if s, a, from, scan :| FromNode(w, p, conj, rows, d0, n0, out, s, a, from, scan) {
      NodePlanCount(w, p, conj, rows, d0, n0, s, a, from, scan, x);
    } else {
      var r, typ, key, value, from, seek :| FromRel(w, p, conj, rows, d0, n0, out, r, typ, key, value, from, seek);
      RelPlanCount(w, p, conj, rows, d0, n0, r, typ, key, value, from, seek, x);
    }
  }

  lemma GivenValid(w: World, p: Part, rows: seq<Row>, d0: set<Var>, n0: set<Var>)
    requires InputOk(w, p, rows, d0, n0)
    ensures p.Valid()
  {
  }

  /** Any two plans of the same part give the same rows, each the same number of times. */
  lemma PlansAgree(w: World, p: Part, conj: seq<Pred>, rows: seq<Row>, d0: set<Var>, n0: set<Var>, a: seq<Row>,
                   b: seq<Row>)
    requires InputOk(w, p, rows, d0, n0)
    requires PlanOutput(w, p, conj, rows, d0, n0, a) && PlanOutput(w, p, conj, rows, d0, n0, b)
    ensures multiset(a) == multiset(b)
  {
    hide InputOk, PlanOutput, Wanted;
    forall x ensures multiset(a)[x] == multiset(b)[x] {
      PlanOutputCount(w, p, conj, rows, d0, n0, a, x);
      PlanOutputCount(w, p, conj, rows, d0, n0, b, x);
    }
  }
}
