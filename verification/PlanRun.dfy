/**
 * From the planner to the rows: the start the planner picks, run over the
 * lookups of the graph layer, gives exactly the wanted rows.
 */
module PlanRun {
  import opened Seqs
  import opened Adjacency
  import opened GraphStore
  import opened PlanRows
  import opened Chain
  import opened Predicates
  import opened MatchPlan
  import opened PlanMeaning
  import opened Planning
  import opened AccessPaths
  import opened Anchors
  import ExpandOps
  import Operators

  /** The lookup that an access method stands for, with what the graph layer returns for it. */
  ghost predicate ScanLooksUp(w: World, a: Access, scan: Row -> seq<nat>)
  {
    match a
    case AllNodes => forall b :: NoDups(scan(b)) && forall n :: n in scan(b) <==> n in w.s.nodes
    case ByLabel(lab) => forall b :: NoDups(scan(b)) && forall n :: n in scan(b) <==> LabelEntry(lab, n) in w.s.labels
    case Seek(lab, key, t) => forall b :: LooksUp(w, Pair(lab, key), Eval(w, t, b), scan(b))
    case Range(_, _, _, _, _) => forall b :: Streams(w, a, b, scan(b))
  }

  ghost predicate StartLooksUp(w: World, st: Start, scan: Row -> seq<nat>, seek: Row -> seq<EdgeRef>)
  {
    match st
    case AtBound(_) => true
    case AtNode(_, a, _) => ScanLooksUp(w, a, scan)
    case AtRel(_, typ, key, t, _) => forall b :: LooksUpRels(w, Pair(typ, key), Eval(w, t, b), seek(b))
  }

  /** The filtered rows of the plan that starts there. */
  ghost function Output(w: World, p: Part, conj: seq<Pred>, rows: seq<Row>, d0: set<Var>, n0: set<Var>, st: Start,
                        scan: Row -> seq<nat>, seek: Row -> seq<EdgeRef>): seq<Row>
    requires InputOk(w, p, rows, d0, n0) && StartOk(w, p, conj, d0, st)
  {
    match st
    case AtBound(s) => BoundPlan(w, p, conj, rows, d0, n0, s)
    case AtNode(s, a, from) => NodePlan(w, p, conj, rows, d0, n0, s, a, from, scan)
    case AtRel(r, typ, key, t, from) => RelPlan(w, p, conj, rows, d0, n0, r, typ, key, t, from, seek)
  }

  /** An access method that an index backs scans as the plan assumes. */
  lemma BackedScans(w: World, p: Part, conj: seq<Pred>, d0: set<Var>, s: nat, a: Access, from: Origin,
                    scan: Row -> seq<nat>)
    requires w.Ok() && NodeAnchor(w, p, conj, d0, s, a, from) && IndexBacked(w, a) && ScanLooksUp(w, a, scan)
    ensures ScanOk(w, a, scan)
  {
    hide Consistent, LooksUp, Streams, Eval, ScanOk, TermVars, ReadsLimit;
    match a
    case AllNodes => FullScans(w, scan);
    case ByLabel(lab) => LabelScans(w, lab, scan);
    case Seek(lab, key, t) => SeekScans(w, lab, key, t, scan);
    case Range(_, _, _, _, _) => RangeScans(w, a, scan);
  }

  /** Whatever start is justified and backed, the rows are those of a plan, and so the wanted ones. */
  lemma StartedRows(w: World, p: Part, conj: seq<Pred>, rows: seq<Row>, d0: set<Var>, n0: set<Var>, st: Start,
                    scan: Row -> seq<nat>, seek: Row -> seq<EdgeRef>, x: Row)
    requires InputOk(w, p, rows, d0, n0) && StartOk(w, p, conj, d0, st) && StartLooksUp(w, st, scan, seek)
    ensures p.Valid() && PlanOutput(w, p, conj, rows, d0, n0, Output(w, p, conj, rows, d0, n0, st, scan, seek))
    ensures multiset(Output(w, p, conj, rows, d0, n0, st, scan, seek))[x] == Wanted(w, p, conj, rows, d0, x)
  {
    GivenWorld(w, p, rows, d0, n0);
    hide InputOk, BoundPlan, NodePlan, RelPlan, NodeAnchor, RelAnchor, ScanOk, SeekOk, Wanted, IndexBacked, ScanLooksUp;
    var out := Output(w, p, conj, rows, d0, n0, st, scan, seek);
    match st {
      case AtBound(s) => assert FromBound(w, p, conj, rows, d0, n0, out, s);
      case AtNode(s, a, from) =>
        BackedScans(w, p, conj, d0, s, a, from, scan);
        assert FromNode(w, p, conj, rows, d0, n0, out, s, a, from, scan);
      case AtRel(r, typ, key, t, from) =>
        RelSeekScans(w, typ, key, t, seek);
        assert FromRel(w, p, conj, rows, d0, n0, out, r, typ, key, t, from, seek);
    }
    PlanOutputCount(w, p, conj, rows, d0, n0, out, x);
  }

  lemma GivenWorld(w: World, p: Part, rows: seq<Row>, d0: set<Var>, n0: set<Var>)
    requires InputOk(w, p, rows, d0, n0)
    ensures w.Ok()
  {
  }

  /** The nodes that the start binds, as a stretch of the chain. */
  function Stretch(st: Start): (nat, nat)
  {
    match st
    case AtBound(s) => (s, s)
    case AtNode(s, _, _) => (s, s)
    case AtRel(r, _, _, _, _) => (r, r + 1)
  }

  // ----- Running the plan -----

  /** What the start gives for a row. */
  ghost function LeafOf(p: Part, st: Start, scan: Row -> seq<nat>, seek: Row -> seq<EdgeRef>): Row -> seq<Row>
    requires p.Valid()
    requires st.AtNode? ==> st.s < |p.nodes|
    requires st.AtRel? ==> st.r < |p.rels|
  {
    match st
    case AtBound(_) => NoLeaf()
    case AtNode(s, _, _) => ScanLeaf(p.nodes[s].name, scan)
    case AtRel(r, _, _, _, _) => SeekLeaf(Forward(p.Shape(), r), seek)
  }

  /** The conditions left to check after the expands. */
  function FilterOf(p: Part, conj: seq<Pred>, st: Start): seq<Pred>
  {
    match st
    case AtBound(_) => ResidualPredicates(p, NOTHING) + conj
    case AtNode(s, a, from) => NodeFilter(p, conj, s, a, from)
    case AtRel(_, _, _, _, from) => RelFilter(p, conj, from)
  }

  /** The expand operators, one after another. */
  ghost function Piped(g: Adj, s: Operators.Stream<Ent>, hops: seq<Hop>): Operators.Stream<Ent>
    decreases |hops|
  {
    if hops == [] then s else Piped(g, ExpandOps.Expanded(g, s, hops[0]), hops[1..])
  }

  lemma {:induction false} PipedIsRun(g: Adj, rows: seq<Row>, hops: seq<Hop>, d: set<Var>, nodes: set<Var>)
    requires HopsFit(hops, d, nodes) && Uniform(rows, d, nodes)
    ensures Piped(g, Operators.Stream(rows, false), hops) ==
            Operators.Stream(RunHops(g, rows, hops, d, nodes), false)
    decreases |hops|
  {
    if hops != [] {
      ExpandUniform(g, rows, hops[0], d, nodes);
      ExpandOps.ExpandedIsAll(g, rows, hops[0]);
      PipedIsRun(g, ExpandAll(g, rows, hops[0]), hops[1..], d + {hops[0].rel, hops[0].to}, nodes + {hops[0].to});
    }
  }

  /** What the start, the expands and the filter make of the rows; broken if an expand fails. */
  ghost function Executed(w: World, p: Part, conj: seq<Pred>, rows: seq<Row>, st: Start, hops: seq<Hop>,
                          scan: Row -> seq<nat>, seek: Row -> seq<EdgeRef>): Operators.Stream<Ent>
    requires p.Valid()
    requires st.AtNode? ==> st.s < |p.nodes|
    requires st.AtRel? ==> st.r < |p.rels|
  {
    var s := Piped(w.g, Operators.Stream(Joined(rows, LeafOf(p, st, scan, seek)), false), hops);
    Operators.Stream(Filter(w, s.rows, FilterOf(p, conj, st)), s.broken)
  }

  /** Running the plan does not fail, and gives the row as often as it is wanted. */
  ghost predicate Delivers(w: World, p: Part, conj: seq<Pred>, rows: seq<Row>, d0: set<Var>, st: Start,
                           hops: seq<Hop>, scan: Row -> seq<nat>, seek: Row -> seq<EdgeRef>, x: Row)
    requires p.Valid()
    requires st.AtNode? ==> st.s < |p.nodes|
    requires st.AtRel? ==> st.r < |p.rels|
  {
    var out := Executed(w, p, conj, rows, st, hops, scan, seek);
    !out.broken && multiset(out.rows)[x] == Wanted(w, p, conj, rows, d0, x)
  }

  lemma PipedIsChain(g: Adj, q: Chain.Shape, rows: seq<Row>, leaf: Row -> seq<Row>, d0: set<Var>, n0: set<Var>,
                     l: set<Var>, n: set<Var>, lo: nat, hi: nat)
    requires Starts(q, rows, leaf, d0, n0, l, n, lo, hi)
    ensures Piped(g, Operators.Stream(Joined(rows, leaf), false), HopsFrom(q, d0, lo, hi)) ==
            Operators.Stream(ChainRows(g, q, rows, leaf, d0, n0, l, n, lo, hi), false)
  {
    JoinedUniform(rows, leaf, d0, l, n0, n);
    HopsFromFit(q, d0, n0, lo, hi);
    hide Piped, RunHops, HopsFrom, Joined;
    PipedIsRun(g, Joined(rows, leaf), HopsFrom(q, d0, lo, hi), d0 + l, n0 + n);
  }

  /** Running the operators gives the output that the counting results are about. */
  lemma ExecutedIsOutput(w: World, p: Part, conj: seq<Pred>, rows: seq<Row>, d0: set<Var>, n0: set<Var>, st: Start,
                         hops: seq<Hop>, scan: Row -> seq<nat>, seek: Row -> seq<EdgeRef>)
    requires InputOk(w, p, rows, d0, n0) && StartOk(w, p, conj, d0, st)
    requires Stretch(st).1 <= |p.rels| && Stretch(st).0 <= Stretch(st).1
    requires hops == HopsFrom(p.Shape(), d0, Stretch(st).0, Stretch(st).1)
    ensures Executed(w, p, conj, rows, st, hops, scan, seek) ==
            Operators.Stream(Output(w, p, conj, rows, d0, n0, st, scan, seek), false)
  {
    hide Piped, HopsFrom, Joined, ChainRows, Filter, Starts, ResidualPredicates, NodeFilter, RelFilter, IndexBacked;
    var q := p.Shape();
    match st
    case AtBound(s) =>
      BoundStarts(w, p, rows, d0, n0, s);
      PipedIsChain(w.g, q, rows, NoLeaf(), d0, n0, {}, {}, s, s);
    case AtNode(s, a, from) =>
      var v := p.nodes[s].name;
      ScanStarts(w, p, conj, rows, d0, n0, s, a, from, scan);
      PipedIsChain(w.g, q, rows, ScanLeaf(v, scan), d0, n0, {v}, {v}, s, s);
    case AtRel(r, typ, key, t, from) =>
      var h := Forward(q, r);
      SeekStarts(w, p, rows, d0, n0, r, seek);
      PipedIsChain(w.g, q, rows, SeekLeaf(h, seek), d0, n0, SeekVars(p, r), {h.from, h.to}, r, r + 1);
  }

  lemma StretchFits(w: World, p: Part, conj: seq<Pred>, d0: set<Var>, st: Start)
    requires p.Valid() && StartOk(w, p, conj, d0, st)
    ensures Stretch(st).0 <= Stretch(st).1 <= |p.rels|
    ensures (st.AtNode? ==> st.s < |p.nodes|) && (st.AtRel? ==> st.r < |p.rels|)
  {
  }

  /**
   * Plans a part: the start and the expands. Run over the lookups of any
   * consistent store, they never fail and give each row as often as it is
   * wanted.
   */
  method PlanPart(w: World, p: Part, conj: seq<Pred>, d0: set<Var>) returns (st: Start, hops: seq<Hop>)
    requires p.Valid() && forall v :: v in p.Shape().rels ==> v !in d0
    ensures StartOk(w, p, conj, d0, st)
    ensures (st.AtNode? ==> st.s < |p.nodes|) && (st.AtRel? ==> st.r < |p.rels|)
    ensures forall rows, n0, scan, seek, x ::
              InputOk(w, p, rows, d0, n0) && StartLooksUp(w, st, scan, seek) ==>
              Delivers(w, p, conj, rows, d0, st, hops, scan, seek, x)
  {
    hide StartLooksUp, InputOk, NodeAnchor, RelAnchor, Output, Wanted, HopsFrom, Done, Executed, IndexBacked;
    st := ChooseStart(w, p, conj, d0);
    StretchFits(w, p, conj, d0, st);
    var q := p.Shape();
    var (lo, hi) := Stretch(st);
    var planner := new Planner(Done(q, d0, lo, hi));
    planner.ExpandOutwards(q, d0, lo, hi);
    hops := planner.hops;
    forall rows, n0, scan, seek, x | InputOk(w, p, rows, d0, n0) && StartLooksUp(w, st, scan, seek)
      ensures Delivers(w, p, conj, rows, d0, st, hops, scan, seek, x)
    {
      StartedRows(w, p, conj, rows, d0, n0, st, scan, seek, x);
      ExecutedIsOutput(w, p, conj, rows, d0, n0, st, hops, scan, seek);
    }
  }
}
