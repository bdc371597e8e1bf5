/** The commands on a graph, what each does when it succeeds, and when each is refused. */
module GraphEffects {
  import opened Values
  import opened GraphStore
  import opened GraphTxn
  import opened NodeCrud
  import opened NodeLabels
  import opened NodeUpdates
  import opened EdgeCrud

  datatype Command =
    | CCreateNode(labels: seq<Bytes>, props: map<Bytes, Value>)
    | CCreateEdge(typ: Bytes, src: nat, dst: nat, props: map<Bytes, Value>)
    | CSetProperty(node: nat, key: Bytes, value: Value)
    | CRemoveProperty(node: nat, key: Bytes)
    | CAddLabels(node: nat, labels: seq<Bytes>)
    | CRemoveLabels(node: nat, labels: seq<Bytes>)
    | CSetProperties(node: nat, props: map<Bytes, Value>, replace: bool)
    | CDeleteEdge(edge: nat)
    | CDeleteNode(node: nat)
    | CDetachDelete(node: nat)
    | CCreateIndex(lab: Bytes, key: Bytes)
    | CDropIndex(on: Pair)
    | CCreateConstraint(lab: Bytes, key: Bytes)
    | CDropConstraint(on: Pair)
    | CCreateRelIndex(typ: Bytes, key: Bytes)
    | CDropRelIndex(on: Pair)

  /**
   * Whether the invariant survives the step once it has committed, with
   * names as they resolve in cat: a null is not set under an indexed key,
   * and no counter wraps.
   */
  ghost predicate Safe(s: Store, cat: Catalog, c: Command)
  {
    match c
    case CSetProperty(n, key, v) =>
      v == Null && n in s.nodes && Name(KKey, key) in cat.ids ==> !IndexedOn(s, n, cat.ids[Name(KKey, key)])
    case CCreateNode(_, _) => s.cat.Counter(KNode) < MAX_U64
    case CCreateEdge(_, _, _, _) => s.cat.Counter(KEdge) < MAX_U64
    case _ => true
  }

  // ----- What each command does -----

  /** Only the record of node n may differ. */
  ghost predicate OnlyNode(s: Store, t: Store, n: nat)
  {
    && n in s.nodes && n in t.nodes && t.nodes == s.nodes[n := t.nodes[n]]
    && t.edges == s.edges && SameRegistry(s.cat, t.cat)
  }

  ghost predicate SameRecords(s: Store, t: Store)
  {
    t.nodes == s.nodes && t.edges == s.edges
  }

  ghost predicate SameLabels(a: NodeRec, b: NodeRec)
  {
    forall l :: l in a.labels <==> l in b.labels
  }

  /** Key k has the value, or is gone if that is null; every other key is as it was. */
  ghost predicate PropIs(was: Props, k: nat, v: Value, now: Props)
  {
    && (if v == Null then k !in now else k in now && now[k] == v)
    && forall j :: j != k ==> (j in now <==> j in was) && (j in was ==> now[j] == was[j])
  }

  ghost predicate Touched(s: Store, n: nat)
  {
    exists e :: e in s.edges && (s.edges[e].src == n || s.edges[e].dst == n)
  }

  /** The pair of the ids of the two names. */
  ghost predicate Named(c: Catalog, kind: Kind, owner: Bytes, key: Bytes, on: Pair)
  {
    && Name(kind, owner) in c.ids && c.ids[Name(kind, owner)] == on.owner
    && Name(KKey, key) in c.ids && c.ids[Name(KKey, key)] == on.key
  }

  /** What a command on labels or properties of a node does to it. */
  ghost predicate NodeEffect(s: Store, t: Store, c: Command)
  {
    match c
    case CSetProperty(n, key, v) =>
      && OnlyNode(s, t, n) && SameLabels(s.nodes[n], t.nodes[n]) && Name(KKey, key) in t.cat.ids
      && PropIs(s.nodes[n].props, t.cat.ids[Name(KKey, key)], v, t.nodes[n].props)
    case CRemoveProperty(n, key) =>
      && OnlyNode(s, t, n) && SameLabels(s.nodes[n], t.nodes[n]) && t.cat == s.cat
      && (if Name(KKey, key) in s.cat.ids
          then PropIs(s.nodes[n].props, s.cat.ids[Name(KKey, key)], Null, t.nodes[n].props)
          else t.nodes[n].props == s.nodes[n].props)
    case CSetProperties(n, props, replace) =>
      && OnlyNode(s, t, n) && SameLabels(s.nodes[n], t.nodes[n])
      && PropsSet(t.cat, s.nodes[n].props, props, replace, t.nodes[n].props)
    case CAddLabels(n, names) =>
      if names == [] then t == s
      else OnlyNode(s, t, n) && LabelsAdded(t.cat, s.nodes[n], names, t.nodes[n])
    case CRemoveLabels(n, names) =>
      if names == [] then t == s
      else OnlyNode(s, t, n) && t.cat == s.cat && LabelsRemoved(t.cat, s.nodes[n], names, t.nodes[n])
    case _ => false
  }

  /** What a command that creates or deletes does. */
  ghost predicate RecordEffect(s: Store, t: Store, c: Command, made: seq<nat>)
  {
    match c
    case CCreateNode(names, props) =>
      && |made| == 1 && made[0] !in s.nodes && made[0] in t.nodes && t.nodes == s.nodes[made[0] := t.nodes[made[0]]]
      && t.edges == s.edges && SameRegistry(s.cat, t.cat) && Built(t.cat, names, props, t.nodes[made[0]])
    case CCreateEdge(typ, src, dst, props) =>
      && |made| == 1 && made[0] !in s.edges && made[0] in t.edges && t.edges == s.edges[made[0] := t.edges[made[0]]]
      && t.nodes == s.nodes && SameRegistry(s.cat, t.cat) && src in s.nodes && dst in s.nodes
      && EdgeBuilt(t.cat, typ, src, dst, props, t.edges[made[0]])
    case CDeleteEdge(e) => e in s.edges && t.edges == s.edges - {e} && t.nodes == s.nodes && t.cat == s.cat
    case CDeleteNode(n) =>
      n in s.nodes && !Touched(s, n) && t.nodes == s.nodes - {n} && t.edges == s.edges && t.cat == s.cat
    case CDetachDelete(n) =>
      && n in s.nodes && t.nodes == s.nodes - {n} && t.cat == s.cat
      && (forall e :: e in t.edges <==> e in s.edges && s.edges[e].src != n && s.edges[e].dst != n)
      && (forall e :: e in t.edges ==> t.edges[e] == s.edges[e])
    case _ => false
  }

  /** The pair of the command's names is registered, and nothing else. */
  ghost predicate Registered(s: Store, t: Store, c: Command, on: Pair)
  {
    match c
    case CCreateIndex(l, k) =>
      && Named(t.cat, KLabel, l, k, on) && t.cat.indexes == s.cat.indexes + {on}
      && t.cat.constraints == s.cat.constraints && t.cat.relIndexes == s.cat.relIndexes
    case CCreateConstraint(l, k) =>
      && Named(t.cat, KLabel, l, k, on) && t.cat.indexes == s.cat.indexes + {on}
      && t.cat.relIndexes == s.cat.relIndexes
      && (if on in s.cat.constraints then t.cat.constraints == s.cat.constraints
          else t.cat.constraints == s.cat.constraints[on := on !in s.cat.indexes])
    case CCreateRelIndex(typ, k) =>
      && Named(t.cat, KType, typ, k, on) && t.cat.relIndexes == s.cat.relIndexes + {on}
      && t.cat.indexes == s.cat.indexes && t.cat.constraints == s.cat.constraints
    case _ => false
  }

  /** What a command on the registries does. */
  ghost predicate RegistryEffect(s: Store, t: Store, c: Command)
  {
    && SameRecords(s, t)
    && match c
       case CDropIndex(on) => on !in s.cat.constraints && t.cat == s.cat.(indexes := s.cat.indexes - {on})
       case CDropConstraint(on) =>
         if on !in s.cat.constraints then t == s
         else t.cat == s.cat.(constraints := s.cat.constraints - {on},
                              indexes := s.cat.indexes - if s.cat.constraints[on] then {on} else {})
       case CDropRelIndex(on) => t.cat == s.cat.(relIndexes := s.cat.relIndexes - {on})
       case _ => exists on :: Registered(s, t, c, on)
  }

  /** What a command does when it succeeds; the index tables follow from the invariant. */
  ghost predicate Effect(s: Store, t: Store, c: Command, made: seq<nat>)
  {
    NodeEffect(s, t, c) || RecordEffect(s, t, c, made) || RegistryEffect(s, t, c)
  }

  /** A node the command names does not exist. */
  predicate NodeMissing(s: Store, c: Command)
  {
    match c
    case CCreateEdge(_, src, dst, _) => src !in s.nodes || dst !in s.nodes
    case CSetProperty(n, _, _) => n !in s.nodes
    case CRemoveProperty(n, _) => n !in s.nodes
    case CSetProperties(n, _, _) => n !in s.nodes
    case CAddLabels(n, names) => names != [] && n !in s.nodes
    case CRemoveLabels(n, names) => names != [] && n !in s.nodes
    case CDeleteNode(n) => n !in s.nodes
    case CDetachDelete(n) => n !in s.nodes
    case _ => false
  }

  /** There are fewer ids left of some kind than the command has names of it. */
  predicate MayRunOut(c: Catalog, cmd: Command)
  {
    match cmd
    case CCreateNode(names, props) => Spent(c, KLabel, |names|) || Spent(c, KKey, KeyCount(props))
    case CCreateEdge(_, _, _, props) => Spent(c, KType, 1) || Spent(c, KKey, KeyCount(props))
    case CSetProperty(_, _, _) => Spent(c, KKey, 1)
    case CSetProperties(_, props, _) => Spent(c, KKey, KeyCount(props))
    case CAddLabels(_, names) => Spent(c, KLabel, |names|)
    case CCreateIndex(_, _) => Spent(c, KLabel, 1) || Spent(c, KKey, 1)
    case CCreateConstraint(_, _) => Spent(c, KLabel, 1) || Spent(c, KKey, 1)
    case CCreateRelIndex(_, _) => Spent(c, KType, 1) || Spent(c, KKey, 1)
    case _ => false
  }

  ghost predicate PropsClashing(s: Store, n: nat, props: map<Bytes, Value>, replace: bool, cat: Catalog)
    requires n in s.nodes
  {
    exists now :: PropsSet(cat, s.nodes[n].props, props, replace, now)
                  && Clashes(s, AllEntries(s.nodes[n].labels, now, n), Facts(s.nodes))
  }

  ghost predicate NodeClashing(s: Store, names: seq<Bytes>, props: map<Bytes, Value>, cat: Catalog, id: nat)
  {
    exists rec :: Built(cat, names, props, rec) && Clashes(s, AllEntries(rec.labels, rec.props, id), Facts(s.nodes))
  }

  /** With names resolved by cat, the command would put a canonical value on two nodes under a constraint. */
  ghost predicate Clashing(s: Store, c: Command, cat: Catalog)
  {
    match c
    case CSetProperty(n, key, v) =>
      && n in s.nodes && Name(KKey, key) in cat.ids
      && Clashes(s, EntriesOf(s.nodes[n].labels, cat.ids[Name(KKey, key)], v, n), Facts(s.nodes))
    case CSetProperties(n, props, replace) =>
      n in s.nodes && PropsClashing(s, n, props, replace, cat)
    case CAddLabels(n, names) =>
      n in s.nodes && exists added :: (forall l :: l in added ==> Resolves(cat, names, l))
                                      && Clashes(s, AllEntries(added, s.nodes[n].props, n), Facts(s.nodes))
    case CCreateNode(names, props) =>
      NodeClashing(s, names, props, cat, (s.cat.Counter(KNode) + 1) % TWO_64)
    case CCreateConstraint(l, k) =>
      exists on :: Named(cat, KLabel, l, k, on) && on !in s.cat.constraints
                   && Clashes(Constraining(s, on), Facts(s.nodes), Facts(s.nodes))
    case _ => false
  }

  ghost function Constraining(s: Store, on: Pair): Store
  {
    s.(cat := s.cat.(constraints := s.cat.constraints[on := true]))
  }

  /** The command is refused because of a constraint. */
  ghost predicate Barred(s: Store, c: Command)
  {
    || (c.CDropIndex? && c.on in s.cat.constraints)
    || exists cat :: Extends(s.cat, cat) && Clashing(s, c, cat)
  }

  /** Which errors say that something is missing or in the way, and when. */
  ghost predicate Refusal(s: Store, c: Command, err: Err)
  {
    && (err == NodeNotFound <==> NodeMissing(s, c))
    && (err == EdgeNotFound <==> c.CDeleteEdge? && c.edge !in s.edges)
    && (err == NodeHasEdges <==> c.CDeleteNode? && c.node in s.nodes && Touched(s, c.node))
    && (err == Violation ==> Barred(s, c))
    && (c.CDropIndex? && c.on in s.cat.constraints ==> err == Violation)
    && (err == OutOfIds ==> MayRunOut(s.cat, c))
  }

  // ----- Clashes -----

  lemma BarredBy(s: Store, c: Command, cat: Catalog)
    requires Extends(s.cat, cat) && Clashing(s, c, cat)
    ensures Barred(s, c)
  {
    hide Clashing, Extends;
  }

  lemma PropClash(s: Store, t: Store, n: nat, key: Bytes, v: Value)
    requires Extends(s.cat, t.cat) && n in s.nodes && Name(KKey, key) in t.cat.ids
    ensures Clashes(t, EntriesOf(s.nodes[n].labels, t.cat.ids[Name(KKey, key)], v, n), Facts(s.nodes)) <==>
            Clashing(s, CSetProperty(n, key, v), t.cat)
  {
    ClashesSame(s, t, EntriesOf(s.nodes[n].labels, t.cat.ids[Name(KKey, key)], v, n), Facts(s.nodes));
    hide Clashes, Facts, EntriesOf;
  }

  lemma PropsSetOnce(c: Catalog, was: Props, props: map<Bytes, Value>, replace: bool, a: Props, b: Props)
    requires PropsSet(c, was, props, replace, a) && PropsSet(c, was, props, replace, b)
    ensures a == b
  {
    forall k ensures (k in a <==> k in b) && (k in a ==> a[k] == b[k]) {
      if GivenKey(c, props, k) {
        var key :| key in props && Name(KKey, key) in c.ids && c.ids[Name(KKey, key)] == k;
      }
    }
  }

  lemma PropsClash(s: Store, t: Store, n: nat, props: map<Bytes, Value>, replace: bool, now: Props)
    requires Extends(s.cat, t.cat) && n in s.nodes && PropsSet(t.cat, s.nodes[n].props, props, replace, now)
    ensures Clashes(t, AllEntries(s.nodes[n].labels, now, n), Facts(s.nodes)) <==>
            PropsClashing(s, n, props, replace, t.cat)
  {
    ClashesSame(s, t, AllEntries(s.nodes[n].labels, now, n), Facts(s.nodes));
    hide Clashes, Facts, AllEntries, PropsSet;
    forall other | PropsSet(t.cat, s.nodes[n].props, props, replace, other) ensures other == now {
      PropsSetOnce(t.cat, s.nodes[n].props, props, replace, other, now);
    }
  }

  lemma ClashesFewer(s: Store, few: set<PropEntry>, many: set<PropEntry>, facts: set<PropEntry>)
    requires Clashes(s, few, facts) && few <= many
    ensures Clashes(s, many, facts)
  {
    var p, q :| p in few && q in facts && Clash(s, p, q);
    assert p in many;
  }

  lemma LabelsClash(s: Store, t: Store, n: nat, names: seq<Bytes>, added: seq<nat>)
    requires Extends(s.cat, t.cat) && n in s.nodes && forall l :: l in added ==> Resolves(t.cat, names, l)
    requires Clashes(t, AllEntries(added, s.nodes[n].props, n), Facts(s.nodes))
    ensures Clashing(s, CAddLabels(n, names), t.cat)
  {
    ClashesSame(s, t, AllEntries(added, s.nodes[n].props, n), Facts(s.nodes));
    hide Clashes, Facts, AllEntries;
  }

  lemma LabelsNoClash(s: Store, t: Store, n: nat, names: seq<Bytes>)
    requires Extends(s.cat, t.cat) && n in s.nodes && n in t.nodes && LabelsAdded(t.cat, s.nodes[n], names, t.nodes[n])
    requires !Clashes(t, AllEntries(t.nodes[n].labels, t.nodes[n].props, n), Facts(s.nodes))
    ensures !Clashing(s, CAddLabels(n, names), t.cat)
  {
    ClashesSame(s, t, AllEntries(t.nodes[n].labels, t.nodes[n].props, n), Facts(s.nodes));
    forall added: seq<nat> | forall l :: l in added ==> Resolves(t.cat, names, l)
      ensures !Clashes(s, AllEntries(added, s.nodes[n].props, n), Facts(s.nodes))
    {
      assert forall l :: l in added ==> l in t.nodes[n].labels;
      assert AllEntries(added, s.nodes[n].props, n) <= AllEntries(t.nodes[n].labels, t.nodes[n].props, n);
      if Clashes(s, AllEntries(added, s.nodes[n].props, n), Facts(s.nodes)) {
        ClashesFewer(s, AllEntries(added, s.nodes[n].props, n),
                     AllEntries(t.nodes[n].labels, t.nodes[n].props, n), Facts(s.nodes));
      }
    }
    hide Clashes, Facts, AllEntries;
  }

  lemma NoLabelsNoClash(s: Store, n: nat)
    ensures !Clashing(s, CAddLabels(n, []), s.cat)
  {
    if n in s.nodes {
      forall added: seq<nat> | forall l :: l in added ==> Resolves(s.cat, [], l)
        ensures !Clashes(s, AllEntries(added, s.nodes[n].props, n), Facts(s.nodes))
      {
        assert forall l :: l !in added;
        assert AllEntries(added, s.nodes[n].props, n) == {};
      }
    }
  }

  lemma TranslatedOnce(c: Catalog, props: map<Bytes, Value>, a: Props, b: Props)
    requires Translated(c, props, props.Keys, false, a) && Translated(c, props, props.Keys, false, b)
    ensures a == b
  {
    forall k ensures k in a <==> k in b {
      if k in a {
        var key :| key in props.Keys && key in props && props[key] != Null
                   && Name(KKey, key) in c.ids && c.ids[Name(KKey, key)] == k;
      }
      if k in b {
        var key :| key in props.Keys && key in props && props[key] != Null
                   && Name(KKey, key) in c.ids && c.ids[Name(KKey, key)] == k;
      }
    }
    forall k | k in a ensures a[k] == b[k] {
      var key :| key in props.Keys && key in props && props[key] != Null
                 && Name(KKey, key) in c.ids && c.ids[Name(KKey, key)] == k;
    }
  }

  lemma BuiltOnce(c: Catalog, names: seq<Bytes>, props: map<Bytes, Value>, a: NodeRec, b: NodeRec, n: nat)
    requires Built(c, names, props, a) && Built(c, names, props, b)
    ensures AllEntries(a.labels, a.props, n) == AllEntries(b.labels, b.props, n)
  {
    hide Translated, Resolves;
    TranslatedOnce(c, props, a.props, b.props);
    assert forall l :: l in a.labels <==> l in b.labels;
  }

  lemma NodeClash(s: Store, t: Store, names: seq<Bytes>, props: map<Bytes, Value>, rec: NodeRec, id: nat)
    requires Extends(s.cat, t.cat) && Built(t.cat, names, props, rec)
    ensures Clashes(t, AllEntries(rec.labels, rec.props, id), Facts(s.nodes)) <==>
            NodeClashing(s, names, props, t.cat, id)
  {
    ClashesSame(s, t, AllEntries(rec.labels, rec.props, id), Facts(s.nodes));
    hide Clashes, Facts, AllEntries, Built, DictsOk, Extends;
    forall other | Built(t.cat, names, props, other)
      ensures AllEntries(other.labels, other.props, id) == AllEntries(rec.labels, rec.props, id)
    {
      BuiltOnce(t.cat, names, props, other, rec, id);
    }
  }

  lemma ConstraintClash(s: Store, mid: Catalog, t: Store, l: Bytes, k: Bytes, on: Pair)
    requires Named(mid, KLabel, l, k, on) && on !in s.cat.constraints &&
             t.cat.constraints.Keys == s.cat.constraints.Keys + {on}
    ensures Clashes(t, Facts(s.nodes), Facts(s.nodes)) <==> Clashing(s, CCreateConstraint(l, k), mid)
  {
    forall p, q ensures Clash(t, p, q) <==> Clash(Constraining(s, on), p, q) {
    }
    assert Clashes(t, Facts(s.nodes), Facts(s.nodes)) <==> Clashes(Constraining(s, on), Facts(s.nodes), Facts(s.nodes));
    hide Clashes, Facts;
  }

  /** Only the resolution of names matters. */
  lemma ClashingSame(s: Store, c: Command, a: Catalog, b: Catalog)
    requires c.CCreateConstraint? && a.ids == b.ids
    ensures Clashing(s, c, a) <==> Clashing(s, c, b)
  {
    hide Clashes, Facts;
    assert forall on :: Named(a, KLabel, c.lab, c.key, on) <==> Named(b, KLabel, c.lab, c.key, on);
  }

  lemma NoConstraintClash(s: Store, cat: Catalog, l: Bytes, k: Bytes, on: Pair)
    requires Named(cat, KLabel, l, k, on) && on in s.cat.constraints
    ensures !Clashing(s, CCreateConstraint(l, k), cat)
  {
    hide Clashes, Facts;
  }

  lemma NeverClashing(s: Store, c: Command, cat: Catalog)
    requires !c.CSetProperty? && !c.CSetProperties? && !c.CAddLabels? && !c.CCreateNode? && !c.CCreateConstraint?
    ensures !Clashing(s, c, cat)
  {
  }
}
