/** The summary of a function's return values and parameters that is read off its stratified sets. */
module SteensSummary {

  /** The return value (index 0) or a parameter, dereferenced level times. */
  datatype IValue = IValue(index: nat, level: nat)

  datatype MaybeSet = NoSet | Set(id: nat)

  /** A stratified set: the set below it, and those of its attributes that callers can see. */
  datatype Link = Link(below: MaybeSet, attrs: set<nat>)

  datatype Relation = Relation(from: IValue, to: IValue)
  datatype Attribute = Attribute(value: IValue, attrs: set<nat>)
  datatype Root = Root(index: nat, id: nat)

  predicate InBounds(links: seq<Link>) {
    forall s | 0 <= s < |links| && links[s].below.Set? :: links[s].below.id < |links|
  }

  /** The set that a chain of dereferences reaches, if it gets that far. */
  function Chain(links: seq<Link>, s: nat, level: nat): (r: MaybeSet)
    requires InBounds(links) && s < |links|
    ensures r.Set? ==> r.id < |links|
  {
    if level == 0 then Set(s)
    else
      var above := Chain(links, s, level - 1);
      if above.NoSet? then NoSet else links[above.id].below
  }

  function Under(v: IValue): IValue { IValue(v.index, v.level + 1) }

  /** Why two values are related: by a relation of the summary, or by what follows from relations. */
  datatype Why =
    | Same(v: IValue)
    | Given(k: nat)
    | Flip(p: Why)
    | Join(p: Why, q: Why)
    | Deref(p: Why)

  predicate Holds(w: Why, rels: seq<Relation>)
    decreases w, 0
  {
    match w
    case Same(_) => true
    case Given(k) => k < |rels|
    case Flip(p) => Holds(p, rels)
    case Join(p, q) => Holds(p, rels) && Holds(q, rels) && To(p, rels) == From(q, rels)
    case Deref(p) => Holds(p, rels)
  }

  function From(w: Why, rels: seq<Relation>): IValue
    requires Holds(w, rels)
    decreases w, 1
  {
    match w
    case Same(v) => v
    case Given(k) => rels[k].from
    case Flip(p) => To(p, rels)
    case Join(p, _) => From(p, rels)
    case Deref(p) => Under(From(p, rels))
  }

  function To(w: Why, rels: seq<Relation>): IValue
    requires Holds(w, rels)
    decreases w, 1
  {
    match w
    case Same(v) => v
    case Given(k) => rels[k].to
    case Flip(p) => From(p, rels)
    case Join(_, q) => To(q, rels)
    case Deref(p) => Under(To(p, rels))
  }

  /** The equivalence that the relations generate, closed under equal further dereferences. */
  ghost predicate Related(rels: seq<Relation>, a: IValue, b: IValue) {
    exists w :: Holds(w, rels) && From(w, rels) == a && To(w, rels) == b
  }

  lemma RelatedSame(rels: seq<Relation>, a: IValue)
    ensures Related(rels, a, a)
  {
    assert Holds(Same(a), rels) && From(Same(a), rels) == a && To(Same(a), rels) == a;
  }

  lemma RelatedGiven(rels: seq<Relation>, k: nat)
    requires k < |rels|
    ensures Related(rels, rels[k].from, rels[k].to)
  {
    assert Holds(Given(k), rels) && From(Given(k), rels) == rels[k].from && To(Given(k), rels) == rels[k].to;
  }

  lemma RelatedFlip(rels: seq<Relation>, a: IValue, b: IValue)
    requires Related(rels, a, b)
    ensures Related(rels, b, a)
  {
    var w :| Holds(w, rels) && From(w, rels) == a && To(w, rels) == b;
    assert Holds(Flip(w), rels) && From(Flip(w), rels) == b && To(Flip(w), rels) == a;
  }

  lemma RelatedChain(rels: seq<Relation>, a: IValue, b: IValue, c: IValue)
    requires Related(rels, a, b) && Related(rels, b, c)
    ensures Related(rels, a, c)
  {
    var w :| Holds(w, rels) && From(w, rels) == a && To(w, rels) == b;
    var u :| Holds(u, rels) && From(u, rels) == b && To(u, rels) == c;
    assert Holds(Join(w, u), rels) && From(Join(w, u), rels) == a && To(Join(w, u), rels) == c;
  }

  lemma RelatedUnder(rels: seq<Relation>, a: IValue, b: IValue)
    requires Related(rels, a, b)
    ensures Related(rels, Under(a), Under(b))
  {
    var w :| Holds(w, rels) && From(w, rels) == a && To(w, rels) == b;
    assert Holds(Deref(w), rels) && From(Deref(w), rels) == Under(a) && To(Deref(w), rels) == Under(b);
  }

  lemma {:induction false} HoldsMore(w: Why, rels: seq<Relation>, more: seq<Relation>)
    requires Holds(w, rels) && rels <= more
    ensures Holds(w, more) && From(w, more) == From(w, rels) && To(w, more) == To(w, rels)
  {
    match w {
      case Same(_) =>
      case Given(k) =>
      case Flip(p) => HoldsMore(p, rels, more);
      case Join(p, q) => HoldsMore(p, rels, more); HoldsMore(q, rels, more);
      case Deref(p) => HoldsMore(p, rels, more);
    }
  }

  lemma RelatedMore(rels: seq<Relation>, more: seq<Relation>, a: IValue, b: IValue)
    requires Related(rels, a, b) && rels <= more
    ensures Related(more, a, b)
  {
    var w :| Holds(w, rels) && From(w, rels) == a && To(w, rels) == b;
    HoldsMore(w, rels, more);
  }

  /** The first value found for each set. */
  type InterfaceMap = map<nat, IValue>

  /** What is below a mapped set is mapped, and to a value related to one more dereference; but for the
      set whose lower set is looked at next. */
  ghost predicate Linked(links: seq<Link>, m: InterfaceMap, rels: seq<Relation>, pending: MaybeSet, s: nat)
    requires s in m
  {
    && s < |links|
    && (pending == Set(s) || links[s].below.NoSet? ||
         (links[s].below.id in m && Related(rels, Under(m[s]), m[links[s].below.id])))
  }

  ghost predicate AllLinked(links: seq<Link>, m: InterfaceMap, rels: seq<Relation>, pending: MaybeSet) {
    forall s {:trigger Linked(links, m, rels, pending, s)} | s in m :: Linked(links, m, rels, pending, s)
  }

  ghost predicate Covers(m: InterfaceMap, rels: seq<Relation>, root: Root) {
    root.id in m && Related(rels, IValue(root.index, 0), m[root.id])
  }

  /** A value stands for a set if some root's chain gets there. */
  ghost predicate Reaches(links: seq<Link>, roots: seq<Root>, v: IValue, s: nat)
    requires InBounds(links)
  {
    exists k :: 0 <= k < |roots| && RootReaches(links, roots[k], v, s)
  }

  predicate RootReaches(links: seq<Link>, root: Root, v: IValue, s: nat)
    requires InBounds(links)
  {
    root.index == v.index && root.id < |links| && Chain(links, root.id, v.level) == Set(s)
  }

  /** Only values that stand for a common set are related. */
  ghost predicate Genuine(links: seq<Link>, roots: seq<Root>, r: Relation)
    requires InBounds(links)
  {
    exists s :: Reaches(links, roots, r.from, s) && Reaches(links, roots, r.to, s)
  }

  ghost predicate AllGenuine(links: seq<Link>, roots: seq<Root>, m: InterfaceMap, rels: seq<Relation>)
    requires InBounds(links)
  {
    && (forall k {:trigger Genuine(links, roots, rels[k])} | 0 <= k < |rels| :: Genuine(links, roots, rels[k]))
    && forall s {:trigger Reaches(links, roots, m[s], s)} | s in m :: Reaches(links, roots, m[s], s)
  }

  /** Every mapped set with visible attributes has them recorded for its value, and nothing else is recorded. */
  ghost predicate Attributed(links: seq<Link>, m: InterfaceMap, attributes: seq<Attribute>) {
    && (forall s | s in m && s < |links| && links[s].attrs != {} :: Attribute(m[s], links[s].attrs) in attributes)
    && forall k {:trigger Recorded(links, m, attributes[k])} | 0 <= k < |attributes| ::
        Recorded(links, m, attributes[k])
  }

  ghost predicate Recorded(links: seq<Link>, m: InterfaceMap, a: Attribute) {
    exists s :: s in m && s < |links| && links[s].attrs != {} && a == Attribute(m[s], links[s].attrs)
  }

  /** Following a root's chain to any level leads to a mapped set, whose value is related. */
  lemma {:induction false} ChainRelated(links: seq<Link>, m: InterfaceMap, rels: seq<Relation>, root: Root, level: nat)
    requires InBounds(links) && AllLinked(links, m, rels, NoSet) && root.id < |links| && Covers(m, rels, root)
    requires Chain(links, root.id, level).Set?
    ensures var s := Chain(links, root.id, level).id;
      s in m && Related(rels, IValue(root.index, level), m[s])
    decreases level
  {
    if level > 0 {
      ChainRelated(links, m, rels, root, level - 1);
      var above := Chain(links, root.id, level - 1).id;
      assert Linked(links, m, rels, NoSet, above);
      RelatedUnder(rels, IValue(root.index, level - 1), m[above]);
      RelatedChain(rels, IValue(root.index, level), Under(m[above]), m[links[above].below.id]);
    }
  }

  /** The summary as a whole. */
  ghost predicate Complete(links: seq<Link>, roots: seq<Root>, m: InterfaceMap, rels: seq<Relation>,
                           attributes: seq<Attribute>) {
    && InBounds(links)
    && AllLinked(links, m, rels, NoSet)
    && AllCovered(links, roots, m, rels)
    && AllGenuine(links, roots, m, rels)
    && Attributed(links, m, attributes)
  }

  /** Values whose chains reach the same set are related. */
  lemma SameSetRelated(links: seq<Link>, roots: seq<Root>, m: InterfaceMap, rels: seq<Relation>,
                       attributes: seq<Attribute>, a: IValue, b: IValue, s: nat)
    requires Complete(links, roots, m, rels, attributes)
    requires Reaches(links, roots, a, s) && Reaches(links, roots, b, s)
    ensures Related(rels, a, b)
    ensures links[s].attrs != {} ==> exists v :: Related(rels, a, v) && Attribute(v, links[s].attrs) in attributes
  {
    var i :| 0 <= i < |roots| && RootReaches(links, roots[i], a, s);
    var j :| 0 <= j < |roots| && RootReaches(links, roots[j], b, s);
    assert Covers(m, rels, roots[i]) && Covers(m, rels, roots[j]);
    ChainRelated(links, m, rels, roots[i], a.level);
    ChainRelated(links, m, rels, roots[j], b.level);
    RelatedFlip(rels, b, m[s]);
    RelatedChain(rels, a, m[s], b);
    assert links[s].attrs != {} ==> Attribute(m[s], links[s].attrs) in attributes;
  }

  /** Attributes that are recorded for a value are those of a set that it stands for. */
  lemma AttributesGenuine(links: seq<Link>, roots: seq<Root>, m: InterfaceMap, rels: seq<Relation>,
                          attributes: seq<Attribute>, k: nat)
    requires Complete(links, roots, m, rels, attributes) && k < |attributes|
    ensures exists s: nat ::
      s < |links| && Reaches(links, roots, attributes[k].value, s) && attributes[k].attrs == links[s].attrs != {}
  {
    assert Recorded(links, m, attributes[k]);
    var s :| s in m && s < |links| && links[s].attrs != {} && attributes[k] == Attribute(m[s], links[s].attrs);
    assert Reaches(links, roots, m[s], s);
  }

  predicate OneRootEach(roots: seq<Root>) {
    forall i, j | 0 <= i < |roots| && 0 <= j < |roots| && roots[i].index == roots[j].index :: roots[i] == roots[j]
  }

  /** The set a value stands for, when there is one root for each index. */
  function Denotes(links: seq<Link>, roots: seq<Root>, v: IValue): MaybeSet
    requires InBounds(links) && forall k | 0 <= k < |roots| :: roots[k].id < |links|
  {
    if roots == [] then NoSet
    else if roots[0].index == v.index then Chain(links, roots[0].id, v.level)
    else Denotes(links, roots[1..], v)
  }

  lemma {:induction false} DenotesReaches(links: seq<Link>, roots: seq<Root>, v: IValue, k: nat)
    requires InBounds(links) && forall k | 0 <= k < |roots| :: roots[k].id < |links|
    requires OneRootEach(roots) && k < |roots| && roots[k].index == v.index
    ensures Denotes(links, roots, v) == Chain(links, roots[k].id, v.level)
    decreases |roots|
  {
    if roots[0].index == v.index {
      assert roots[0] == roots[k];
    } else {
      DenotesReaches(links, roots[1..], v, k - 1);
    }
  }

  lemma {:induction false} DenotesUnder(links: seq<Link>, roots: seq<Root>, v: IValue)
    requires InBounds(links) && forall k | 0 <= k < |roots| :: roots[k].id < |links|
    ensures var d := Denotes(links, roots, v);
      (d.Set? ==> d.id < |links|) && Denotes(links, roots, Under(v)) == if d.NoSet? then NoSet else links[d.id].below
    decreases |roots|
  {
    if roots != [] && roots[0].index != v.index {
      DenotesUnder(links, roots[1..], v);
    }
  }

  /** Everything that follows from the relations relates values of one set. */
  lemma {:induction false} RelatedDenotes(links: seq<Link>, roots: seq<Root>, rels: seq<Relation>, w: Why)
    requires InBounds(links) && forall k | 0 <= k < |roots| :: roots[k].id < |links|
    requires OneRootEach(roots) && Holds(w, rels)
    requires forall k {:trigger Genuine(links, roots, rels[k])} | 0 <= k < |rels| :: Genuine(links, roots, rels[k])
    ensures Denotes(links, roots, From(w, rels)) == Denotes(links, roots, To(w, rels))
    decreases w
  {
    match w {
      case Same(_) =>
      case Given(k) =>
        assert Genuine(links, roots, rels[k]);
        var s :| Reaches(links, roots, rels[k].from, s) && Reaches(links, roots, rels[k].to, s);
        var i :| 0 <= i < |roots| && RootReaches(links, roots[i], rels[k].from, s);
        var j :| 0 <= j < |roots| && RootReaches(links, roots[j], rels[k].to, s);
        DenotesReaches(links, roots, rels[k].from, i);
        DenotesReaches(links, roots, rels[k].to, j);
      case Flip(p) => RelatedDenotes(links, roots, rels, p);
      case Join(p, q) =>
        RelatedDenotes(links, roots, rels, p);
        RelatedDenotes(links, roots, rels, q);
      case Deref(p) =>
        RelatedDenotes(links, roots, rels, p);
        DenotesUnder(links, roots, From(p, rels));
        DenotesUnder(links, roots, To(p, rels));
    }
  }

  /** With one root for each index, the summary is exact: two values that stand for sets are related
      just if they stand for the same one. */
  lemma RelatedIffSameSet(links: seq<Link>, roots: seq<Root>, m: InterfaceMap, rels: seq<Relation>,
                          attributes: seq<Attribute>, a: IValue, b: IValue, s: nat)
    requires Complete(links, roots, m, rels, attributes) && OneRootEach(roots)
    requires Reaches(links, roots, a, s)
    ensures Related(rels, a, b) <==> Reaches(links, roots, b, s)
  {
    assert forall k | 0 <= k < |roots| :: roots[k].id < |links| by {
      forall k | 0 <= k < |roots| ensures roots[k].id < |links| {
        assert Covers(m, rels, roots[k]);
      }
    }
    var i :| 0 <= i < |roots| && RootReaches(links, roots[i], a, s);
    DenotesReaches(links, roots, a, i);
    if Related(rels, a, b) {
      var w :| Holds(w, rels) && From(w, rels) == a && To(w, rels) == b;
      RelatedDenotes(links, roots, rels, w);
      DenotesFound(links, roots, b, s);
    }
    if Reaches(links, roots, b, s) {
      SameSetRelated(links, roots, m, rels, attributes, a, b, s);
    }
  }

  lemma {:induction false} DenotesFound(links: seq<Link>, roots: seq<Root>, v: IValue, s: nat)
    requires InBounds(links) && forall k | 0 <= k < |roots| :: roots[k].id < |links|
    requires Denotes(links, roots, v) == Set(s)
    ensures Reaches(links, roots, v, s)
    decreases |roots|
  {
    if roots[0].index == v.index {
      assert RootReaches(links, roots[0], v, s);
    } else {
      DenotesFound(links, roots[1..], v, s);
      var k :| 0 <= k < |roots[1..]| && RootReaches(links, roots[1..][k], v, s);
      assert RootReaches(links, roots[k + 1], v, s);
    }
  }

  ghost predicate AllCovered(links: seq<Link>, roots: seq<Root>, m: InterfaceMap, rels: seq<Relation>) {
    forall k {:trigger Covers(m, rels, roots[k])} | 0 <= k < |roots| ::
      roots[k].id < |links| && Covers(m, rels, roots[k])
  }

  /** In the middle of a walk down from a root: everything is in order for the earlier roots, and for
      this one as far as the set mapped last. */
  ghost predicate Walking(links: seq<Link>, roots: seq<Root>, root: Root, level: nat, s: nat, m: InterfaceMap,
                          rels: seq<Relation>, attributes: seq<Attribute>, pending: MaybeSet) {
    && InBounds(links) && s < |links| && RootReaches(links, root, IValue(root.index, level), s)
    && AllLinked(links, m, rels, pending)
    && AllCovered(links, roots, m, rels)
    && AllGenuine(links, roots + [root], m, rels)
    && Attributed(links, m, attributes)
    && (level == 0 ==> pending == NoSet)
    && (level > 0 ==> Covers(m, rels, root) && CameFrom(links, root, level, s, m, pending))
  }

  predicate CameFrom(links: seq<Link>, root: Root, level: nat, s: nat, m: InterfaceMap, pending: MaybeSet)
    requires level > 0
  {
    && pending.Set? && pending.id in m && pending.id < |links|
    && m[pending.id] == IValue(root.index, level - 1) && links[pending.id].below == Set(s)
  }

  lemma WalkStarts(links: seq<Link>, roots: seq<Root>, root: Root, m: InterfaceMap, rels: seq<Relation>,
                   attributes: seq<Attribute>)
    requires Complete(links, roots, m, rels, attributes) && root.id < |links|
    ensures Walking(links, roots, root, 0, root.id, m, rels, attributes, NoSet)
  {
    GenuineMore(links, roots, root, m, rels);
  }

  lemma GenuineMore(links: seq<Link>, roots: seq<Root>, root: Root, m: InterfaceMap, rels: seq<Relation>)
    requires InBounds(links) && AllGenuine(links, roots, m, rels)
    ensures AllGenuine(links, roots + [root], m, rels)
  {
    forall k | 0 <= k < |rels| ensures Genuine(links, roots + [root], rels[k]) {
      assert Genuine(links, roots, rels[k]);
      var s :| Reaches(links, roots, rels[k].from, s) && Reaches(links, roots, rels[k].to, s);
      ReachesMore(links, roots, root, rels[k].from, s);
      ReachesMore(links, roots, root, rels[k].to, s);
    }
    forall s | s in m ensures Reaches(links, roots + [root], m[s], s) {
      assert Reaches(links, roots, m[s], s);
      ReachesMore(links, roots, root, m[s], s);
    }
  }

  lemma ReachesMore(links: seq<Link>, roots: seq<Root>, root: Root, v: IValue, s: nat)
    requires InBounds(links) && Reaches(links, roots, v, s)
    ensures Reaches(links, roots + [root], v, s)
  {
    var k :| 0 <= k < |roots| && RootReaches(links, roots[k], v, s);
    assert RootReaches(links, (roots + [root])[k], v, s);
  }

  lemma LinkedMore(links: seq<Link>, m: InterfaceMap, rels: seq<Relation>, more: seq<Relation>, pending: MaybeSet)
    requires AllLinked(links, m, rels, pending) && rels <= more
    ensures AllLinked(links, m, more, pending)
  {
    forall s | s in m ensures Linked(links, m, more, pending, s) {
      assert Linked(links, m, rels, pending, s);
      if pending != Set(s) && links[s].below.Set? {
        RelatedMore(rels, more, Under(m[s]), m[links[s].below.id]);
      }
    }
  }

  lemma CoveredMore(links: seq<Link>, roots: seq<Root>, m: InterfaceMap, rels: seq<Relation>, more: seq<Relation>)
    requires AllCovered(links, roots, m, rels) && rels <= more
    ensures AllCovered(links, roots, m, more)
  {
    forall k | 0 <= k < |roots| ensures roots[k].id < |links| && Covers(m, more, roots[k]) {
      assert Covers(m, rels, roots[k]);
      RelatedMore(rels, more, IValue(roots[k].index, 0), m[roots[k].id]);
    }
  }

  /** The walk meets a set that is mapped already: relating the two values completes the root. */
  lemma WalkMeets(links: seq<Link>, roots: seq<Root>, root: Root, level: nat, s: nat, m: InterfaceMap,
                  rels: seq<Relation>, attributes: seq<Attribute>, pending: MaybeSet, more: seq<Relation>)
    requires Walking(links, roots, root, level, s, m, rels, attributes, pending) && s in m
    requires var v := IValue(root.index, level); more == if v != m[s] then rels + [Relation(v, m[s])] else rels
    ensures Complete(links, roots + [root], m, more, attributes)
  {
    var v := IValue(root.index, level);
    assert Related(more, v, m[s]) by {
      if v != m[s] { RelatedGiven(more, |rels|); } else { RelatedSame(more, v); }
    }
    LinkedMore(links, m, rels, more, pending);
    CoveredMore(links, roots, m, rels, more);
    forall t | t in m ensures Linked(links, m, more, NoSet, t) {
      assert Linked(links, m, more, pending, t);
    }
    assert RootReaches(links, (roots + [root])[|roots|], v, s);
    assert Reaches(links, roots + [root], v, s);
    assert Reaches(links, roots + [root], m[s], s);
    forall k | 0 <= k < |more| ensures Genuine(links, roots + [root], more[k]) {
      assert k < |rels| ==> Genuine(links, roots + [root], rels[k]);
    }
    if level > 0 { RelatedMore(rels, more, IValue(root.index, 0), m[root.id]); }
    AllCoveredAppend(links, roots, root, m, more);
  }

  lemma AllCoveredAppend(links: seq<Link>, roots: seq<Root>, root: Root, m: InterfaceMap, rels: seq<Relation>)
    requires AllCovered(links, roots, m, rels) && root.id < |links| && Covers(m, rels, root)
    ensures AllCovered(links, roots + [root], m, rels)
  {
    forall k | 0 <= k <= |roots| ensures (roots + [root])[k].id < |links| && Covers(m, rels, (roots + [root])[k]) {
      assert k < |roots| ==> Covers(m, rels, roots[k]);
    }
  }

  /** The walk maps a new set, and goes on to the set below it, if there is one. */
  lemma WalkMaps(links: seq<Link>, roots: seq<Root>, root: Root, level: nat, s: nat, m: InterfaceMap,
                 rels: seq<Relation>, attributes: seq<Attribute>, pending: MaybeSet, grown: InterfaceMap,
                 more: seq<Attribute>)
    requires Walking(links, roots, root, level, s, m, rels, attributes, pending) && s !in m
    requires var v := IValue(root.index, level);
      grown == m[s := v] && more == if links[s].attrs != {} then attributes + [Attribute(v, links[s].attrs)]
        else attributes
    ensures links[s].below.NoSet? ==> Complete(links, roots + [root], grown, rels, more)
    ensures links[s].below.Set? ==> Walking(links, roots, root, level + 1, links[s].below.id, grown, rels, more, Set(s))
  {
    var v := IValue(root.index, level);
    var below := if links[s].below.Set? then Set(s) else NoSet;
    RelatedSame(rels, v);
    MapsLinked(links, root, level, s, m, rels, pending, grown, below);
    MapsCovered(links, roots, m, rels, s, grown);
    MapsGenuine(links, roots, root, level, s, m, rels, grown);
    MapsAttributed(links, s, v, m, attributes, more);
    assert AllCovered(links, roots + [root], grown, rels) by {
      AllCoveredAppend(links, roots, root, grown, rels);
    }
  }

  lemma MapsAttributed(links: seq<Link>, s: nat, v: IValue, m: InterfaceMap, attributes: seq<Attribute>,
                       more: seq<Attribute>)
    requires Attributed(links, m, attributes) && s !in m && s < |links|
    requires more == if links[s].attrs != {} then attributes + [Attribute(v, links[s].attrs)] else attributes
    ensures Attributed(links, m[s := v], more)
  {
    var grown := m[s := v];
    forall k | 0 <= k < |more| ensures Recorded(links, grown, more[k]) {
      if k < |attributes| {
        assert Recorded(links, m, attributes[k]);
        var t :| t in m && t < |links| && links[t].attrs != {} && attributes[k] == Attribute(m[t], links[t].attrs);
        assert t in grown && grown[t] == m[t];
      } else {
        assert s in grown && grown[s] == v;
      }
    }
  }

  lemma MapsLinked(links: seq<Link>, root: Root, level: nat, s: nat, m: InterfaceMap, rels: seq<Relation>,
                   pending: MaybeSet, grown: InterfaceMap, below: MaybeSet)
    requires AllLinked(links, m, rels, pending) && s !in m && s < |links|
    requires (level == 0 ==> pending == NoSet) && (level > 0 ==> CameFrom(links, root, level, s, m, pending))
    requires grown == m[s := IValue(root.index, level)]
    requires below == if links[s].below.Set? then Set(s) else NoSet
    ensures AllLinked(links, grown, rels, below)
  {
    RelatedSame(rels, IValue(root.index, level));
    forall t | t in grown ensures Linked(links, grown, rels, below, t) {
      assert t in m ==> Linked(links, m, rels, pending, t);
    }
  }

  lemma MapsCovered(links: seq<Link>, roots: seq<Root>, m: InterfaceMap, rels: seq<Relation>, s: nat,
                    grown: InterfaceMap)
    requires AllCovered(links, roots, m, rels) && s !in m && s in grown && grown == m[s := grown[s]]
    ensures AllCovered(links, roots, grown, rels)
  {
    forall k | 0 <= k < |roots| ensures roots[k].id < |links| && Covers(grown, rels, roots[k]) {
      assert Covers(m, rels, roots[k]);
    }
  }

  lemma MapsGenuine(links: seq<Link>, roots: seq<Root>, root: Root, level: nat, s: nat, m: InterfaceMap,
                    rels: seq<Relation>, grown: InterfaceMap)
    requires InBounds(links) && AllGenuine(links, roots + [root], m, rels)
    requires RootReaches(links, root, IValue(root.index, level), s) && grown == m[s := IValue(root.index, level)]
    ensures AllGenuine(links, roots + [root], grown, rels)
  {
    assert RootReaches(links, (roots + [root])[|roots|], IValue(root.index, level), s);
    forall t | t in grown ensures Reaches(links, roots + [root], grown[t], t) {
      assert t in m ==> Reaches(links, roots + [root], m[t], t);
    }
  }

  const MAX_ARGS: nat := 50

  class FunctionInfo {
    const links: seq<Link>
    var interfaceMap: InterfaceMap
    var relations: seq<Relation>
    var attributes: seq<Attribute>

    /** Fills the summary from the sets of the return values and of the parameters; a value without a
        set, or that is no pointer, has none. Functions with too many arguments get no summary. */
    constructor (links: seq<Link>, retVals: seq<MaybeSet>, params: seq<MaybeSet>)
      requires InBounds(links)
      requires forall i | 0 <= i < |retVals| && retVals[i].Set? :: retVals[i].id < |links|
      requires forall i | 0 <= i < |params| && params[i].Set? :: params[i].id < |links|
      ensures this.links == links
      ensures |params| > MAX_ARGS ==> relations == [] && attributes == []
      ensures |params| <= MAX_ARGS ==>
        Complete(links, RetRoots(retVals, |retVals|) + ParamRoots(params, |params|), interfaceMap, relations,
                 attributes)
    {
      this.links := links;
      interfaceMap, relations, attributes := map[], [], [];
      new;
      if |params| > MAX_ARGS {
        return;
      }
      ghost var roots := [];
      for i := 0 to |retVals|
        invariant roots == RetRoots(retVals, i)
        invariant Complete(links, roots, interfaceMap, relations, attributes)
      {
        if retVals[i].Set? {
          AddToRetParamRelations(0, retVals[i].id, roots);
          roots := roots + [Root(0, retVals[i].id)];
        }
      }
      ghost var retRoots := roots;
      for i := 0 to |params|
        invariant roots == retRoots + ParamRoots(params, i)
        invariant Complete(links, roots, interfaceMap, relations, attributes)
      {
        if params[i].Set? {
          AddToRetParamRelations(i + 1, params[i].id, roots);
          roots := roots + [Root(i + 1, params[i].id)];
        }
      }
    }

    /** Walks down from one root until a set that is mapped already, or that has no set below. */
    method AddToRetParamRelations(index: nat, id: nat, ghost roots: seq<Root>)
      requires Complete(links, roots, interfaceMap, relations, attributes) && id < |links|
      modifies this
      ensures Complete(links, roots + [Root(index, id)], interfaceMap, relations, attributes)
      ensures old(relations) <= relations && old(attributes) <= attributes
    {
      ghost var root := Root(index, id);
      var level, s := 0, id;
      ghost var pending := NoSet;
      WalkStarts(links, roots, root, interfaceMap, relations, attributes);
      while true
        invariant Walking(links, roots, root, level, s, interfaceMap, relations, attributes, pending)
        invariant old(relations) <= relations && old(attributes) <= attributes
        decreases |links| - |interfaceMap|
      {
        var currValue := IValue(index, level);
        if s in interfaceMap {
          ghost var before := relations;
          if currValue != interfaceMap[s] {
            relations := relations + [Relation(currValue, interfaceMap[s])];
          }
          WalkMeets(links, roots, root, level, s, interfaceMap, before, attributes, pending, relations);
          return;
        }
        ghost var m, known := interfaceMap, attributes;
        interfaceMap := interfaceMap[s := currValue];
        if links[s].attrs != {} {
          attributes := attributes + [Attribute(currValue, links[s].attrs)];
        }
        WalkMaps(links, roots, root, level, s, m, relations, known, pending, interfaceMap, attributes);
        if links[s].below.NoSet? {
          return;
        }
        pending := Set(s);
        MappedSets(links, interfaceMap, relations, pending);
        level := level + 1;
        s := links[s].below.id;
      }
    }
  }

  /** No more sets are mapped than there are. */
  lemma MappedSets(links: seq<Link>, m: InterfaceMap, rels: seq<Relation>, pending: MaybeSet)
    requires AllLinked(links, m, rels, pending)
    ensures |m| <= |links|
  {
    forall s | s in m.Keys ensures s in Range(|links|) {
      assert Linked(links, m, rels, pending, s);
    }
    Fewer(m.Keys, Range(|links|));
    assert |m| == |m.Keys|;
  }

  function Range(n: nat): (r: set<nat>)
    ensures |r| == n && forall s: nat :: s in r <==> s < n
  {
    if n == 0 then {} else Range(n - 1) + {n - 1}
  }

  lemma Fewer(a: set<nat>, b: set<nat>)
    requires a <= b
    ensures |a| <= |b|
  {
    assert b == a + (b - a);
  }

  /** The roots of the first n return values: all of index 0. */
  function RetRoots(retVals: seq<MaybeSet>, n: nat): (r: seq<Root>)
    requires n <= |retVals|
  {
    if n == 0 then []
    else if retVals[n - 1].Set? then RetRoots(retVals, n - 1) + [Root(0, retVals[n - 1].id)]
    else RetRoots(retVals, n - 1)
  }

  /** The roots of the first n parameters: parameter i has index i + 1. */
  function ParamRoots(params: seq<MaybeSet>, n: nat): (r: seq<Root>)
    requires n <= |params|
  {
    if n == 0 then []
    else if params[n - 1].Set? then ParamRoots(params, n - 1) + [Root(n, params[n - 1].id)]
    else ParamRoots(params, n - 1)
  }
}
