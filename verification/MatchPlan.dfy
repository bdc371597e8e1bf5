/**
 * Planning a chain pattern: whichever node, bound variable or relationship a
 * plan starts from, and however it finds it, the filtered rows are the same.
 */
module MatchPlan {
  import opened Seqs
  import opened Adjacency
  import opened PlanRows
  import opened Chain
  import opened Predicates

  /** An inline property condition. */
  datatype Inline = Inline(key: nat, value: Term)

  datatype PNode = PNode(name: Var, labels: seq<nat>, props: seq<Inline>)
  datatype PRel = PRel(name: Var, follow: Follow, props: seq<Inline>)

  /** A pattern part: rels[i] joins nodes[i] and nodes[i+1]. */
  datatype Part = Part(nodes: seq<PNode>, rels: seq<PRel>) {
    function Shape(): Chain.Shape
    {
      Chain.Shape(seq(|nodes|, i requires 0 <= i < |nodes| => nodes[i].name),
                  seq(|rels|, i requires 0 <= i < |rels| => rels[i].name),
                  seq(|rels|, i requires 0 <= i < |rels| => rels[i].follow))
    }

    ghost predicate Valid()
    {
      && Shape().Valid()
      && forall i :: 0 <= i < |nodes| ==> DistinctKeys(nodes[i].props)
    }
  }

  ghost predicate DistinctKeys(ps: seq<Inline>)
  {
    forall i, j :: 0 <= i < j < |ps| ==> ps[i].key != ps[j].key
  }

  // ----- The predicates of a part -----

  /** Inline conditions on a variable, except one that the access method enforces. */
  function InlinePreds(v: Var, ps: seq<Inline>, consumed: Option<nat>): seq<Pred>
  {
    if ps == [] then []
    else
      (if consumed == Some(ps[0].key) then [] else [Equals(PropOf(v, ps[0].key), ps[0].value)]) +
      InlinePreds(v, ps[1..], consumed)
  }

  function OtherLabels(ls: seq<nat>, enforced: Option<nat>): seq<nat>
  {
    if ls == [] then []
    else (if enforced == Some(ls[0]) then [] else [ls[0]]) + OtherLabels(ls[1..], enforced)
  }

  function NodePreds(nd: PNode, enforced: Option<nat>, consumed: Option<nat>): seq<Pred>
  {
    var rest := OtherLabels(nd.labels, enforced);
    (if rest == [] then [] else [HasLabels(nd.name, rest)]) + InlinePreds(nd.name, nd.props, consumed)
  }

  /** What the access method of the anchor guarantees: a label and an inline condition of one node. */
  datatype Guarantee = Guarantee(at: Option<nat>, lab: Option<nat>, key: Option<nat>)

  const NOTHING: Guarantee := Guarantee(None, None, None)

  /** The conditions left after scan and expand, from node i on. */
  function NodesPreds(p: Part, i: nat, g: Guarantee): seq<Pred>
    requires i <= |p.nodes|
    decreases |p.nodes| - i
  {
    if i == |p.nodes| then []
    else
      (if g.at == Some(i) then NodePreds(p.nodes[i], g.lab, g.key) else NodePreds(p.nodes[i], None, None)) +
      NodesPreds(p, i + 1, g)
  }

  function RelsPreds(p: Part, i: nat): seq<Pred>
    requires i <= |p.rels|
    decreases |p.rels| - i
  {
    if i == |p.rels| then [] else InlinePreds(p.rels[i].name, p.rels[i].props, None) + RelsPreds(p, i + 1)
  }

  function ResidualPredicates(p: Part, g: Guarantee): seq<Pred>
  {
    NodesPreds(p, 0, g) + RelsPreds(p, 0)
  }

  /** The WHERE conjuncts without the consumed one. */
  function Remaining(conj: seq<Pred>, consumed: Option<nat>): seq<Pred>
  {
    if consumed.Some? && consumed.value < |conj| then conj[..consumed.value] + conj[consumed.value+1..] else conj
  }

  // ----- What the residual predicates leave to the access method -----

  lemma {:induction false} InlineSplit(w: World, v: Var, ps: seq<Inline>, consumed: Option<nat>, row: Row)
    requires DistinctKeys(ps)
    ensures AllHold(w, InlinePreds(v, ps, None), row) <==>
            AllHold(w, InlinePreds(v, ps, consumed), row) &&
            forall i :: 0 <= i < |ps| && consumed == Some(ps[i].key) ==>
                          Holds(w, Equals(PropOf(v, ps[i].key), ps[i].value), row)
  {
    hide Holds;
    if ps != [] {
      var e, rest := Equals(PropOf(v, ps[0].key), ps[0].value), ps[1..];
      InlineSplit(w, v, rest, consumed, row);
      AllHoldConcat(w, [e], InlinePreds(v, rest, None), row);
      AllHoldConcat(w, if consumed == Some(ps[0].key) then [] else [e], InlinePreds(v, rest, consumed), row);
      assert e in [e];
      assert forall i :: 0 < i < |ps| ==> ps[i] == rest[i-1];
      assert forall i :: 0 <= i < |rest| ==> rest[i] == ps[i+1];
    }
  }

  lemma {:induction false} OtherLabelsMembers(ls: seq<nat>, enforced: Option<nat>)
    ensures forall l :: l in OtherLabels(ls, enforced) <==> l in ls && enforced != Some(l)
  {
    if ls != [] {
      OtherLabelsMembers(ls[1..], enforced);
      assert ls == [ls[0]] + ls[1..];
    }
  }

  ghost predicate LabelledIn(w: World, row: Row, v: Var, l: nat)
  {
    IsNode(row, v) && NodeAt(row, v) in w.s.nodes && l in w.s.nodes[NodeAt(row, v)].labels
  }

  lemma LabelsMean(w: World, row: Row, v: Var, ls: seq<nat>)
    requires IsNode(row, v) && NodeAt(row, v) in w.s.nodes
    ensures AllHold(w, if ls == [] then [] else [HasLabels(v, ls)], row) <==>
            forall l :: l in ls ==> LabelledIn(w, row, v, l)
  {
    assert HasLabels(v, ls) in [HasLabels(v, ls)];
  }

  /** Together with what the access method enforces, the residual conditions of a node are all its conditions. */
  lemma NodeSplit(w: World, nd: PNode, enforced: Option<nat>, consumed: Option<nat>, row: Row)
    requires DistinctKeys(nd.props) && IsNode(row, nd.name) && NodeAt(row, nd.name) in w.s.nodes
    requires enforced.Some? ==> enforced.value in nd.labels
    ensures AllHold(w, NodePreds(nd, None, None), row) <==>
            && AllHold(w, NodePreds(nd, enforced, consumed), row)
            && (enforced.Some? ==> LabelledIn(w, row, nd.name, enforced.value))
            && forall i :: 0 <= i < |nd.props| && consumed == Some(nd.props[i].key) ==>
                             Holds(w, Equals(PropOf(nd.name, nd.props[i].key), nd.props[i].value), row)
  {
    hide Holds, InlinePreds, LabelledIn, OtherLabels;
    var all, rest := OtherLabels(nd.labels, None), OtherLabels(nd.labels, enforced);
    OtherLabelsMembers(nd.labels, None);
    OtherLabelsMembers(nd.labels, enforced);
    LabelsMean(w, row, nd.name, all);
    LabelsMean(w, row, nd.name, rest);
    InlineSplit(w, nd.name, nd.props, consumed, row);
    AllHoldConcat(w, if all == [] then [] else [HasLabels(nd.name, all)], InlinePreds(nd.name, nd.props, None), row);
    AllHoldConcat(w, if rest == [] then [] else [HasLabels(nd.name, rest)],
                  InlinePreds(nd.name, nd.props, consumed), row);
  }

  lemma {:induction false} NodesPredsMean(w: World, p: Part, i: nat, g: Guarantee, row: Row)
    requires i <= |p.nodes|
    ensures AllHold(w, NodesPreds(p, i, g), row) <==>
            forall j :: i <= j < |p.nodes| ==>
              AllHold(w, if g.at == Some(j) then NodePreds(p.nodes[j], g.lab, g.key)
                      else NodePreds(p.nodes[j], None, None), row)
    decreases |p.nodes| - i
  {
    hide AllHold, NodePreds;
    if i == |p.nodes| {
      NothingHolds(w, row);
    } else {
      NodesPredsMean(w, p, i + 1, g, row);
      AllHoldConcat(w, if g.at == Some(i) then NodePreds(p.nodes[i], g.lab, g.key)
                    else NodePreds(p.nodes[i], None, None),
                    NodesPreds(p, i + 1, g), row);
    }
  }

  lemma NothingHolds(w: World, row: Row)
    ensures AllHold(w, [], row)
  {
  }

  /** What the guarantee adds to the residual predicates. */
  ghost predicate Guaranteed(w: World, p: Part, g: Guarantee, row: Row)
  {
    g.at.Some? && g.at.value < |p.nodes| ==>
      var nd := p.nodes[g.at.value];
      && (g.lab.Some? ==> LabelledIn(w, row, nd.name, g.lab.value))
      && forall i :: 0 <= i < |nd.props| && g.key == Some(nd.props[i].key) ==>
                       Holds(w, Equals(PropOf(nd.name, nd.props[i].key), nd.props[i].value), row)
  }

  ghost predicate GuaranteeFits(p: Part, g: Guarantee)
  {
    g.at.Some? ==> g.at.value < |p.nodes| && (g.lab.Some? ==> g.lab.value in p.nodes[g.at.value].labels)
  }

  lemma ResidualSplit(w: World, p: Part, g: Guarantee, row: Row)
    requires p.Valid() && GuaranteeFits(p, g)
    requires g.at.Some? ==> IsNode(row, p.nodes[g.at.value].name) && NodeAt(row, p.nodes[g.at.value].name) in w.s.nodes
    ensures AllHold(w, ResidualPredicates(p, NOTHING), row) <==>
            AllHold(w, ResidualPredicates(p, g), row) && Guaranteed(w, p, g, row)
  {
    hide AllHold, NodePreds, RelsPreds, Holds, LabelledIn;
    NodesPredsMean(w, p, 0, NOTHING, row);
    NodesPredsMean(w, p, 0, g, row);
    AllHoldConcat(w, NodesPreds(p, 0, NOTHING), RelsPreds(p, 0), row);
    AllHoldConcat(w, NodesPreds(p, 0, g), RelsPreds(p, 0), row);
    if g.at.Some? {
      NodeSplit(w, p.nodes[g.at.value], g.lab, g.key, row);
    }
  }

  // ----- What the pattern asks for -----

  /** The node or relationship at v has a property equal to the inline condition's value. */
  ghost predicate MeetsInline(w: World, v: Var, c: Inline, row: Row)
  {
    c.key in PropsAt(w, row, v) && Equality(PropsAt(w, row, v)[c.key], Eval(w, c.value, row)) == True
  }

  /** Every node has the labels and properties asked for, and every relationship the properties. */
  ghost predicate MeetsPart(w: World, p: Part, row: Row)
  {
    && (forall i, l :: 0 <= i < |p.nodes| && l in p.nodes[i].labels ==> LabelledIn(w, row, p.nodes[i].name, l))
    && (forall i, c :: 0 <= i < |p.nodes| && c in p.nodes[i].props ==> MeetsInline(w, p.nodes[i].name, c, row))
    && (forall i, c :: 0 <= i < |p.rels| && c in p.rels[i].props ==> MeetsInline(w, p.rels[i].name, c, row))
  }

  lemma {:induction false} InlineMeans(w: World, v: Var, ps: seq<Inline>, row: Row)
    ensures AllHold(w, InlinePreds(v, ps, None), row) <==> forall c :: c in ps ==> MeetsInline(w, v, c, row)
  {
    if ps != [] {
      var e := Equals(PropOf(v, ps[0].key), ps[0].value);
      InlineMeans(w, v, ps[1..], row);
      assert ps == [ps[0]] + ps[1..];
      OneInline(w, v, ps[0], row);
      hide Holds, MeetsInline, AllHold;
      AllHoldConcat(w, [e], InlinePreds(v, ps[1..], None), row);
      OneHolds(w, e, row);
    }
  }

  lemma OneHolds(w: World, p: Pred, row: Row)
    ensures AllHold(w, [p], row) <==> Holds(w, p, row)
  {
    assert p in [p];
  }

  lemma OneInline(w: World, v: Var, c: Inline, row: Row)
    ensures Holds(w, Equals(PropOf(v, c.key), c.value), row) <==> MeetsInline(w, v, c, row)
  {
  }

  lemma NodeMeans(w: World, nd: PNode, row: Row)
    requires IsNode(row, nd.name) && NodeAt(row, nd.name) in w.s.nodes
    ensures AllHold(w, NodePreds(nd, None, None), row) <==>
            (forall l :: l in nd.labels ==> LabelledIn(w, row, nd.name, l)) &&
            (forall c :: c in nd.props ==> MeetsInline(w, nd.name, c, row))
  {
    hide Holds, InlinePreds, LabelledIn, OtherLabels, MeetsInline;
    var all := OtherLabels(nd.labels, None);
    OtherLabelsMembers(nd.labels, None);
    LabelsMean(w, row, nd.name, all);
    InlineMeans(w, nd.name, nd.props, row);
    AllHoldConcat(w, if all == [] then [] else [HasLabels(nd.name, all)], InlinePreds(nd.name, nd.props, None), row);
  }

  lemma {:induction false} RelsMean(w: World, p: Part, i: nat, row: Row)
    requires i <= |p.rels|
    ensures AllHold(w, RelsPreds(p, i), row) <==>
            forall j, c :: i <= j < |p.rels| && c in p.rels[j].props ==> MeetsInline(w, p.rels[j].name, c, row)
    decreases |p.rels| - i
  {
    hide AllHold, InlinePreds, MeetsInline;
    if i == |p.rels| {
      NothingHolds(w, row);
    } else {
      RelsMean(w, p, i + 1, row);
      InlineMeans(w, p.rels[i].name, p.rels[i].props, row);
      AllHoldConcat(w, InlinePreds(p.rels[i].name, p.rels[i].props, None), RelsPreds(p, i + 1), row);
    }
  }

  /** The conditions a plan checks when nothing is guaranteed are exactly those of the pattern. */
  lemma ResidualMeans(w: World, p: Part, row: Row)
    requires forall i :: 0 <= i < |p.nodes| ==>
                           IsNode(row, p.nodes[i].name) && NodeAt(row, p.nodes[i].name) in w.s.nodes
    ensures AllHold(w, ResidualPredicates(p, NOTHING), row) <==> MeetsPart(w, p, row)
  {
    hide AllHold, NodePreds, RelsPreds, LabelledIn, MeetsInline;
    NodesPredsMean(w, p, 0, NOTHING, row);
    RelsMean(w, p, 0, row);
    AllHoldConcat(w, NodesPreds(p, 0, NOTHING), RelsPreds(p, 0), row);
    forall i | 0 <= i < |p.nodes|
      ensures AllHold(w, NodePreds(p.nodes[i], None, None), row) <==>
              (forall l :: l in p.nodes[i].labels ==> LabelledIn(w, row, p.nodes[i].name, l)) &&
              (forall c :: c in p.nodes[i].props ==> MeetsInline(w, p.nodes[i].name, c, row))
    {
      NodeMeans(w, p.nodes[i], row);
    }
  }

  lemma RemainingSplit(w: World, conj: seq<Pred>, consumed: Option<nat>, row: Row)
    requires consumed.Some? ==> consumed.value < |conj|
    ensures AllHold(w, conj, row) <==>
            AllHold(w, Remaining(conj, consumed), row) && (consumed.Some? ==> Holds(w, conj[consumed.value], row))
  {
    hide Holds;
    if consumed.Some? {
      var i := consumed.value;
      assert conj == conj[..i] + [conj[i]] + conj[i+1..];
      AllHoldConcat(w, conj[..i] + [conj[i]], conj[i+1..], row);
      AllHoldConcat(w, conj[..i], [conj[i]], row);
      AllHoldConcat(w, conj[..i], conj[i+1..], row);
      assert conj[i] in [conj[i]];
    }
  }
}
