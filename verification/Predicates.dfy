/** Predicates of a match in three-valued logic, and how a condition splits into conjuncts. */
module Predicates {
  import opened Seqs
  import opened Values
  import opened Floats
  import opened Compare
  import opened Adjacency
  import opened GraphStore
  import opened PlanRows

  datatype Truth = True | False | Unknown

  /** A value expression: a property of a variable, or anything else, which reads known variables. */
  datatype Term = PropOf(v: Var, key: nat) | Other(id: nat)

  datatype Pred =
    | And(l: Pred, r: Pred)
    | Equals(a: Term, b: Term)
    | Compares(op: Op, a: Term, b: Term)
    | StartsWith(a: Term, b: Term)
    | HasLabels(v: Var, labels: seq<nat>)
    | Raw(id: nat)

  /** The graph, with the meaning of the expressions that are not spelled out. */
  datatype World = World(s: Store, g: Adj, vars: nat -> set<Var>, term: (nat, Row) -> Value, pred: (nat, Row) -> Truth)
  {
    ghost predicate Ok()
    {
      && Consistent(s) && g.Valid()
      && (forall e :: e in g.outKeys <==> e in s.outs)
      && (forall id, r, q :: Narrow(r, vars(id)) == Narrow(q, vars(id)) ==> term(id, r) == term(id, q))
    }
  }

  // ----- Equality -----

  /** `=`: unknown when it depends on a null; lists compare by element, maps by key. */
  function Equality(a: Value, b: Value): Truth
    decreases a
  {
    match a
    case Null => Unknown
    case List(_) =>
      if b.Null? then Unknown
      else if !b.List? || |a.elems| != |b.elems| then False
      else if exists i :: 0 <= i < |a.elems| && Equality(a.elems[i], b.elems[i]) == False then False
      else if forall i :: 0 <= i < |a.elems| ==> Equality(a.elems[i], b.elems[i]) == True then True
      else Unknown
    case Map(_) =>
      if b.Null? then Unknown
      else if !b.Map? || a.entries.Keys != b.entries.Keys then False
      else if exists k :: k in a.entries && Equality(a.entries[k], b.entries[k]) == False then False
      else if forall k :: k in a.entries ==> Equality(a.entries[k], b.entries[k]) == True then True
      else Unknown
    case _ =>
      if b.Null? then Unknown else if QueryEqual(a, b) then True else False
  }

  /** Which side of `=` a property is on does not matter. */
  lemma {:induction false} EqualityFlips(a: Value, b: Value)
    ensures Equality(a, b) == Equality(b, a)
    decreases a
  {
    if a.List? && b.List? && |a.elems| == |b.elems| {
      forall i | 0 <= i < |a.elems| ensures Equality(a.elems[i], b.elems[i]) == Equality(b.elems[i], a.elems[i]) {
        EqualityFlips(a.elems[i], b.elems[i]);
      }
    } else if a.Map? && b.Map? && a.entries.Keys == b.entries.Keys {
      forall k | k in a.entries ensures Equality(a.entries[k], b.entries[k]) == Equality(b.entries[k], a.entries[k]) {
        EqualityFlips(a.entries[k], b.entries[k]);
      }
    }
  }

  // ----- What equality means, place by place -----

  /** A step into a list or a map. */
  datatype Step = Item(i: nat) | Field(key: Bytes)

  /** What is at a place inside a value, if anything is. */
  function At(v: Value, path: seq<Step>): Option<Value>
    decreases |path|
  {
    if path == [] then Some(v)
    else
      match path[0]
      case Item(i) => if v.List? && i < |v.elems| then At(v.elems[i], path[1..]) else None
      case Field(k) => if v.Map? && k in v.entries then At(v.entries[k], path[1..]) else None
  }

  /** Lists of one length, maps with the same keys, or two scalars. */
  predicate SameShape(x: Value, y: Value)
  {
    match (x, y)
    case (List(xs), List(ys)) => |xs| == |ys|
    case (Map(xs), Map(ys)) => xs.Keys == ys.Keys
    case _ => IsIndexable(x) && IsIndexable(y)
  }

  /** The two agree as far as can be seen without looking inside. */
  predicate Agree(x: Value, y: Value)
  {
    SameShape(x, y) && (IsIndexable(x) ==> QueryEqual(x, y))
  }

  ghost predicate BothAt(a: Value, b: Value, path: seq<Step>)
  {
    At(a, path).Some? && At(b, path).Some?
  }

  ghost predicate AgreeAt(a: Value, b: Value, path: seq<Step>)
  {
    BothAt(a, b, path) && Agree(At(a, path).value, At(b, path).value)
  }

  ghost predicate DifferAt(a: Value, b: Value, path: seq<Step>)
  {
    && BothAt(a, b, path) && At(a, path).value != Null && At(b, path).value != Null
    && !Agree(At(a, path).value, At(b, path).value)
  }

  lemma ItemAt(v: Value, i: nat, path: seq<Step>)
    requires v.List? && i < |v.elems|
    ensures At(v, [Item(i)] + path) == At(v.elems[i], path)
  {
    assert ([Item(i)] + path)[1..] == path;
  }

  lemma FieldAt(v: Value, k: Bytes, path: seq<Step>)
    requires v.Map? && k in v.entries
    ensures At(v, [Field(k)] + path) == At(v.entries[k], path)
  {
    assert ([Field(k)] + path)[1..] == path;
  }

  ghost predicate NullAt(a: Value, b: Value, path: seq<Step>)
  {
    BothAt(a, b, path) && (At(a, path).value == Null || At(b, path).value == Null)
  }

  /** At a place that both have, they agree, differ, or one is null. */
  lemma OneOfThree(a: Value, b: Value, path: seq<Step>)
    requires BothAt(a, b, path)
    ensures !AgreeAt(a, b, path) <==> DifferAt(a, b, path) || NullAt(a, b, path)
    ensures !(DifferAt(a, b, path) && NullAt(a, b, path))
  {
  }

  /** Values that are unequal differ somewhere. */
  lemma {:induction false} FalseDiffers(a: Value, b: Value) returns (path: seq<Step>)
    requires Equality(a, b) == False
    ensures DifferAt(a, b, path)
    decreases a
  {
    hide QueryEqual;
    if a.List? && b.List? && |a.elems| == |b.elems| {
      var i: nat :| i < |a.elems| && Equality(a.elems[i], b.elems[i]) == False;
      var rest := FalseDiffers(a.elems[i], b.elems[i]);
      ItemAt(a, i, rest);
      ItemAt(b, i, rest);
      path := [Item(i)] + rest;
    } else if a.Map? && b.Map? && a.entries.Keys == b.entries.Keys {
      var k :| k in a.entries && Equality(a.entries[k], b.entries[k]) == False;
      var rest := FalseDiffers(a.entries[k], b.entries[k]);
      FieldAt(a, k, rest);
      FieldAt(b, k, rest);
      path := [Field(k)] + rest;
    } else {
      path := [];
    }
  }

  /** Values that differ somewhere are unequal, whatever nulls there are elsewhere. */
  lemma {:induction false} DiffersFalse(a: Value, b: Value, path: seq<Step>)
    requires DifferAt(a, b, path)
    ensures Equality(a, b) == False
    decreases |path|
  {
    if path != [] {
      match path[0]
      case Item(i) =>
        if |a.elems| == |b.elems| {
          DiffersFalse(a.elems[i], b.elems[i], path[1..]);
        }
      case Field(k) =>
        if a.entries.Keys == b.entries.Keys {
          DiffersFalse(a.entries[k], b.entries[k], path[1..]);
        }
    }
  }

  /** When equality is unknown there is a null somewhere. */
  lemma {:induction false} UnknownNull(a: Value, b: Value) returns (path: seq<Step>)
    requires Equality(a, b) == Unknown
    ensures NullAt(a, b, path)
    decreases a
  {
    hide QueryEqual;
    if a.List? && b.List? {
      var i: nat :| i < |a.elems| && Equality(a.elems[i], b.elems[i]) == Unknown;
      var rest := UnknownNull(a.elems[i], b.elems[i]);
      ItemAt(a, i, rest);
      ItemAt(b, i, rest);
      path := [Item(i)] + rest;
    } else if a.Map? && b.Map? {
      var k :| k in a.entries && Equality(a.entries[k], b.entries[k]) == Unknown;
      var rest := UnknownNull(a.entries[k], b.entries[k]);
      FieldAt(a, k, rest);
      FieldAt(b, k, rest);
      path := [Field(k)] + rest;
    } else {
      path := [];
    }
  }

  /** Values that are equal agree everywhere. */
  lemma {:induction false} TrueAgrees(a: Value, b: Value, path: seq<Step>)
    requires Equality(a, b) == True && BothAt(a, b, path)
    ensures AgreeAt(a, b, path)
    decreases |path|
  {
    if path != [] {
      match path[0]
      case Item(i) => TrueAgrees(a.elems[i], b.elems[i], path[1..]);
      case Field(k) => TrueAgrees(a.entries[k], b.entries[k], path[1..]);
    }
  }

  /**
   * Values are equal exactly when they agree at every place both have, and
   * unequal exactly when at some place both are known and disagree.
   */
  lemma EqualityExact(a: Value, b: Value)
    ensures Equality(a, b) == True <==> forall path :: BothAt(a, b, path) ==> AgreeAt(a, b, path)
    ensures Equality(a, b) == False <==> exists path :: DifferAt(a, b, path)
  {
    hide Equality, QueryEqual, At, Agree;
    if Equality(a, b) == True {
      forall path | BothAt(a, b, path) ensures AgreeAt(a, b, path) {
        TrueAgrees(a, b, path);
      }
    } else if Equality(a, b) == False {
      var path := FalseDiffers(a, b);
      OneOfThree(a, b, path);
    } else {
      var path := UnknownNull(a, b);
      OneOfThree(a, b, path);
    }
    if path :| DifferAt(a, b, path) {
      DiffersFalse(a, b, path);
    }
  }

  /** A value without null and NaN equals itself. */
  lemma EqualsItself(a: Value)
    requires forall path :: At(a, path).Some? ==> At(a, path).value != Null && !NaNValue(At(a, path).value)
    ensures Equality(a, a) == True
  {
    EqualityExact(a, a);
    hide Equality, At;
  }

  // ----- Meaning -----

  function PropsAt(w: World, row: Row, v: Var): Props
  {
    if IsNode(row, v) && NodeAt(row, v) in w.s.nodes then w.s.nodes[NodeAt(row, v)].props
    else if IsEdge(row, v) && row[v].value.e.id in w.s.edges then w.s.edges[row[v].value.e.id].props
    else map[]
  }

  function Eval(w: World, t: Term, row: Row): Value
  {
    match t
    case PropOf(v, k) => if k in PropsAt(w, row, v) then PropsAt(w, row, v)[k] else Null
    case Other(id) => w.term(id, row)
  }

  function TermVars(w: World, t: Term): set<Var>
  {
    match t
    case PropOf(v, _) => {v}
    case Other(id) => w.vars(id)
  }

  /** A term's value does not depend on variables it does not read. */
  lemma EvalStable(w: World, t: Term, row: Row, d: set<Var>)
    requires w.Ok() && TermVars(w, t) <= d
    ensures Eval(w, t, Narrow(row, d)) == Eval(w, t, row)
  {
    match t
    case PropOf(v, k) =>
      assert v in row <==> v in Narrow(row, d);
    case Other(id) =>
      assert Narrow(Narrow(row, d), w.vars(id)) == Narrow(row, w.vars(id));
  }

  function Meaning(w: World, p: Pred, row: Row): Truth
  {
    match p
    case And(l, r) => Both(Meaning(w, l, row), Meaning(w, r, row))
    case Equals(a, b) => Equality(Eval(w, a, row), Eval(w, b, row))
    case Compares(op, a, b) =>
      var x, y := Eval(w, a, row), Eval(w, b, row);
      if x.Null? || y.Null? then Unknown
      else if NaNValue(x) || NaNValue(y) then False
      else if CompareValues(x, y).None? then Unknown
      else if Compare.Holds(op, CompareValues(x, y).value) then True else False
    case StartsWith(a, b) =>
      var x, y := Eval(w, a, row), Eval(w, b, row);
      if !x.Str? || !y.Str? then Unknown else if y.s <= x.s then True else False
    case HasLabels(v, ls) =>
      if !IsNode(row, v) then Unknown
      else if NodeAt(row, v) in w.s.nodes && forall l :: l in ls ==> l in w.s.nodes[NodeAt(row, v)].labels then True
      else False
    case Raw(id) => w.pred(id, row)
  }

  /** A comparison is true as the order says, unknown beside null or across families, and else false. */
  lemma ComparisonMeans(w: World, op: Op, a: Term, b: Term, row: Row)
    ensures var x, y := Eval(w, a, row), Eval(w, b, row);
            var m := Meaning(w, Compares(op, a, b), row);
            && (m == True <==> Compare.Compares(op, x, y))
            && (m == Unknown <==> x == Null || y == Null || !(NaNValue(x) || NaNValue(y) || Comparable(x, y)))
  {
    hide Val, OfInt, Eval;
    ComparesExactly(Eval(w, a, row), Eval(w, b, row));
  }

  /** STARTS WITH is true when the rest can be cut off, and unknown unless both are strings. */
  lemma PrefixMeaning(w: World, a: Term, b: Term, row: Row)
    ensures var x, y := Eval(w, a, row), Eval(w, b, row);
            var m := Meaning(w, StartsWith(a, b), row);
            && (m == True <==> x.Str? && y.Str? && exists rest :: x.s == y.s + rest)
            && (m == Unknown <==> !x.Str? || !y.Str?)
  {
    var x, y := Eval(w, a, row), Eval(w, b, row);
    if x.Str? && y.Str? && y.s <= x.s {
      assert x.s == y.s + x.s[|y.s|..];
    }
  }

  /** AND, as the evaluator computes it: a false side decides, then an unknown one. */
  function Both(l: Truth, r: Truth): Truth
  {
    if l == False || r == False then False else if l == Unknown || r == Unknown then Unknown else True
  }

  /** Three-valued AND: true when both are, false when one is, else unknown. */
  lemma BothMeans(l: Truth, r: Truth)
    ensures Both(l, r) == True <==> l == True && r == True
    ensures Both(l, r) == False <==> l == False || r == False
  {
  }

  predicate Holds(w: World, p: Pred, row: Row)
  {
    Meaning(w, p, row) == True
  }

  ghost predicate AllHold(w: World, ps: seq<Pred>, row: Row)
  {
    forall p :: p in ps ==> Holds(w, p, row)
  }

  lemma AllHoldConcat(w: World, a: seq<Pred>, b: seq<Pred>, row: Row)
    ensures AllHold(w, a + b, row) <==> AllHold(w, a, row) && AllHold(w, b, row)
  {
    hide Holds;
    assert forall p :: p in a + b <==> p in a || p in b;
  }

  // ----- Conjuncts -----

  function Conjuncts(p: Pred): (cs: seq<Pred>)
    ensures cs != []
  {
    match p
    case And(l, r) => Conjuncts(l) + Conjuncts(r)
    case _ => [p]
  }

  /** Left-nested AND of the predicates. */
  function AndAll(ps: seq<Pred>): Pred
    requires ps != []
  {
    if |ps| == 1 then ps[0] else And(AndAll(ps[..|ps|-1]), ps[|ps|-1])
  }

  /** A row passes a condition exactly when it passes every conjunct. */
  lemma {:induction false} ConjunctsMean(w: World, p: Pred, row: Row)
    ensures AllHold(w, Conjuncts(p), row) <==> Holds(w, p, row)
  {
    match p
    case And(l, r) =>
      ConjunctsMean(w, l, row);
      ConjunctsMean(w, r, row);
      AllHoldConcat(w, Conjuncts(l), Conjuncts(r), row);
    case _ =>
  }

  lemma {:induction false} AndAllMeans(w: World, ps: seq<Pred>, row: Row)
    requires ps != []
    ensures Holds(w, AndAll(ps), row) <==> AllHold(w, ps, row)
  {
    if |ps| > 1 {
      var front, last := ps[..|ps|-1], ps[|ps|-1];
      assert ps == front + [last];
      AndAllMeans(w, front, row);
      AllHoldConcat(w, front, [last], row);
      assert last in [last];
      assert Meaning(w, AndAll(ps), row) == Both(Meaning(w, AndAll(front), row), Meaning(w, last, row));
    }
  }

  /** Splitting a condition and joining its conjuncts again keeps its meaning for a filter. */
  lemma SplitAndJoin(w: World, p: Pred, row: Row)
    ensures Holds(w, AndAll(Conjuncts(p)), row) <==> Holds(w, p, row)
  {
    ConjunctsMean(w, p, row);
    AndAllMeans(w, Conjuncts(p), row);
  }
}
