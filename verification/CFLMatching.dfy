/** The matching automaton against the alias grammar: what a set of stored pairs has to be closed
    under to hold every pair of value aliases, and why dropping the pairs of a node with itself
    loses nothing but labels. */
module CFLMatching {
  import opened CFLGraph

  datatype MatchState =
    | FlowFromReadOnly
    | FlowFromMemAliasNoReadWrite
    | FlowFromMemAliasReadOnly
    | FlowToWriteOnly
    | FlowToReadWrite
    | FlowToMemAliasWriteOnly
    | FlowToMemAliasReadWrite

  datatype Item = Item(from: Node, to: Node, state: MatchState)

  /** The state after one more letter, if the automaton can go on. */
  function Next(s: MatchState, l: Letter): Option<MatchState> {
    match s
    case FlowFromReadOnly =>
      Some(match l case Rev => FlowFromReadOnly case Fwd => FlowToReadWrite case Mem => FlowFromMemAliasReadOnly)
    case FlowFromMemAliasNoReadWrite =>
      (match l case Rev => Some(FlowFromReadOnly) case Fwd => Some(FlowToWriteOnly) case Mem => None)
    case FlowFromMemAliasReadOnly =>
      (match l case Rev => Some(FlowFromReadOnly) case Fwd => Some(FlowToReadWrite) case Mem => None)
    case FlowToWriteOnly =>
      (match l case Rev => None case Fwd => Some(FlowToWriteOnly) case Mem => Some(FlowToMemAliasWriteOnly))
    case FlowToReadWrite =>
      (match l case Rev => None case Fwd => Some(FlowToReadWrite) case Mem => Some(FlowToMemAliasReadWrite))
    case FlowToMemAliasWriteOnly =>
      (match l case Fwd => Some(FlowToWriteOnly) case _ => None)
    case FlowToMemAliasReadWrite =>
      (match l case Fwd => Some(FlowToReadWrite) case _ => None)
  }

  /** Where a path is: still at its first node, or somewhere in a state. */
  datatype Place = Here | In(state: MatchState)

  function Move(p: Place, l: Letter): Option<Place> {
    match p
    case Here =>
      Some(In(match l case Rev => FlowFromReadOnly case Fwd => FlowToWriteOnly case Mem => FlowFromMemAliasNoReadWrite))
    case In(s) => (match Next(s, l) case None => None case Some(t) => Some(In(t)))
  }

  /** The automaton's run over a word. */
  function Scan(w: seq<Letter>): Option<Place> {
    if w == [] then Some(Here)
    else match Scan(w[..|w| - 1])
      case None => None
      case Some(p) => Move(p, w[|w| - 1])
  }

  predicate BeforeFwd(p: Place) {
    p.Here? || p.state.FlowFromReadOnly? || p.state.FlowFromMemAliasNoReadWrite? || p.state.FlowFromMemAliasReadOnly?
  }

  predicate AfterMem(p: Place) {
    p.In? && (p.state.FlowFromMemAliasNoReadWrite? || p.state.FlowFromMemAliasReadOnly? ||
              p.state.FlowToMemAliasWriteOnly? || p.state.FlowToMemAliasReadWrite?)
  }

  lemma GrammarSnoc(v: seq<Letter>, l: Letter)
    ensures InGrammar(v + [l]) <==>
      InGrammar(v) && (l == Rev ==> Fwd !in v) && (l == Mem ==> v == [] || v[|v| - 1] != Mem)
  {
    var w := v + [l];
    assert forall i :: 0 <= i < |v| ==> w[i] == v[i];
    assert w[|v|] == l;
    if InGrammar(w) {
      if l == Mem && v != [] {
        assert w[|v| - 1 + 1] == Mem;
      }
    }
  }

  /** What the automaton's place after a word says about the word. */
  predicate PlaceFits(p: Option<Place>, w: seq<Letter>) {
    p.Some? ==> (BeforeFwd(p.value) <==> Fwd !in w) && (AfterMem(p.value) <==> w != [] && w[|w| - 1] == Mem)
  }

  lemma MoveFits(p: Place, v: seq<Letter>, l: Letter)
    requires PlaceFits(Some(p), v)
    ensures Move(p, l).Some? <==> (l == Rev ==> Fwd !in v) && (l == Mem ==> v == [] || v[|v| - 1] != Mem)
    ensures PlaceFits(Move(p, l), v + [l])
  {
    assert Fwd in v + [l] <==> Fwd in v || l == Fwd;
  }

  /** The automaton accepts exactly the words of the grammar. */
  lemma {:induction false} ScanIsGrammar(w: seq<Letter>)
    ensures Scan(w).Some? <==> InGrammar(w)
    ensures PlaceFits(Scan(w), w)
    decreases |w|
  {
    if w != [] {
      var v, l := w[..|w| - 1], w[|w| - 1];
      assert w == v + [l];
      ScanIsGrammar(v);
      GrammarSnoc(v, l);
      if Scan(v).Some? { MoveFits(Scan(v).value, v, l); }
    }
  }

  /** What a state says about the letters so far: whether something was read (against an assignment), whether
      something was written (along one), and whether the last letter was a memory hop. */
  predicate Means(s: MatchState, w: seq<Letter>) {
    var read, written, hop := Rev in w, Fwd in w, w != [] && w[|w| - 1] == Mem;
    match s
    case FlowFromReadOnly => read && !written && !hop
    case FlowFromMemAliasNoReadWrite => !read && !written && hop
    case FlowFromMemAliasReadOnly => read && !written && hop
    case FlowToWriteOnly => !read && written && !hop
    case FlowToReadWrite => read && written && !hop
    case FlowToMemAliasWriteOnly => !read && written && hop
    case FlowToMemAliasReadWrite => read && written && hop
  }

  /** The automaton ends in the one state that says what the word is. */
  lemma ScanMeans(w: seq<Letter>, s: MatchState)
    ensures Scan(w) == Some(In(s)) <==> InGrammar(w) && Means(s, w)
  {
    ScanIsGrammar(w);
    if Scan(w).Some? { StateMeans(w); }
  }

  lemma {:induction false} StateMeans(w: seq<Letter>)
    requires Scan(w).Some?
    ensures Scan(w).value.Here? <==> w == []
    ensures Scan(w).value.In? ==> Means(Scan(w).value.state, w)
    decreases |w|
  {
    if w != [] {
      var v, l := w[..|w| - 1], w[|w| - 1];
      assert w == v + [l];
      StateMeans(v);
      assert Fwd in w <==> Fwd in v || l == Fwd;
      assert Rev in w <==> Rev in v || l == Rev;
    }
  }

  lemma ScanSnoc(w: seq<Letter>, l: Letter)
    ensures Scan(w + [l]) == match Scan(w) case None => None case Some(p) => Move(p, l)
  {
    assert (w + [l])[..|w + [l]| - 1] == w;
  }

  // ----- closed sets of pairs -----

  /** The pair is stored in the state, or is a node with itself, which never is. */
  predicate Holds(reach: set<Item>, a: Node, b: Node, s: MatchState) {
    a == b || Item(a, b, s) in reach
  }

  /** Everything the item gives rise to along the edges at its end is there. */
  ghost predicate EdgesDone(g: Graph, reach: set<Item>, t: Item) {
    (Next(t.state, Fwd).Some? ==> forall c :: Edge(g, t.to, c) ==> Holds(reach, t.from, c, Next(t.state, Fwd).value)) &&
    (Next(t.state, Rev).Some? ==> forall c :: Edge(g, c, t.to) ==> Holds(reach, t.from, c, Next(t.state, Rev).value))
  }

  /** The nodes below the two ends are recorded as memory aliases. */
  predicate BelowDone(g: Graph, mem: set<(Node, Node)>, t: Item) {
    Below(t.from) in g.nodes && Below(t.to) in g.nodes ==> (Below(t.from), Below(t.to)) in mem
  }

  /** Everything the item gives rise to by the memory hop from its end to `c` is there. */
  predicate HopDone(reach: set<Item>, t: Item, c: Node) {
    Next(t.state, Mem).Some? ==> Holds(reach, t.from, c, Next(t.state, Mem).value)
  }

  ghost predicate HopsDone(reach: set<Item>, mem: set<(Node, Node)>, t: Item) {
    forall c :: (t.to, c) in mem ==> HopDone(reach, t, c)
  }

  ghost predicate Started(g: Graph, reach: set<Item>) {
    forall a, b :: Edge(g, a, b) ==> Holds(reach, b, a, FlowFromReadOnly) && Holds(reach, a, b, FlowToWriteOnly)
  }

  ghost predicate MemStarted(reach: set<Item>, mem: set<(Node, Node)>) {
    forall x, y :: (x, y) in mem ==> Holds(reach, x, y, FlowFromMemAliasNoReadWrite)
  }

  ghost predicate Closed(g: Graph, reach: set<Item>, mem: set<(Node, Node)>) {
    Started(g, reach) && MemStarted(reach, mem) &&
    forall t :: t in reach ==> EdgesDone(g, reach, t) && BelowDone(g, mem, t) && HopsDone(reach, mem, t)
  }

  // ----- completeness -----

  /** `p` can do whatever `q` can. */
  predicate Covers(p: Place, q: Place) {
    var top := (r: Place) => r.Here? || r.state.FlowFromReadOnly?;
    var bottom := (r: Place) => r.In? && (r.state.FlowToMemAliasWriteOnly? || r.state.FlowToMemAliasReadWrite?);
    top(p) || bottom(q) || (p.In? && q.In? && AfterMem(p) == AfterMem(q) && BeforeFwd(p) == BeforeFwd(q) && !top(q))
  }

  lemma CoversMove(p: Place, q: Place, l: Letter)
    requires Covers(p, q) && Move(q, l).Some?
    ensures Move(p, l).Some? && Covers(Move(p, l).value, Move(q, l).value)
    ensures Covers(Here, Move(q, l).value)
    ensures l == Mem ==> Covers(p, Move(q, l).value)
  {
  }

  /** A node is in place `r` as seen from `a`. */
  predicate Stands(reach: set<Item>, a: Node, b: Node, r: Place) {
    match r case Here => a == b case In(s) => Item(a, b, s) in reach
  }

  lemma StandsStep(g: Graph, reach: set<Item>, mem: set<(Node, Node)>, a: Node, b: Node, r: Place, l: Letter, c: Node)
    returns (r': Place)
    requires Closed(g, reach, mem) && Stands(reach, a, b, r) && Move(r, l).Some?
    requires match l case Fwd => Edge(g, b, c) case Rev => Edge(g, c, b) case Mem => (b, c) in mem
    ensures Stands(reach, a, c, r') && (r' == Here || r' == Move(r, l).value)
  {
    if a == c {
      r' := Here;
    } else {
      r' := Move(r, l).value;
      if r.In? {
        var t := Item(a, b, r.state);
        assert EdgesDone(g, reach, t) && HopsDone(reach, mem, t);
        if l == Mem { assert HopDone(reach, t, c); }
      }
    }
  }

  /** One letter more: the place reached still covers the automaton's state. */
  lemma Extend(g: Graph, reach: set<Item>, mem: set<(Node, Node)>, a: Node, b: Node, r: Place, w: seq<Letter>,
               l: Letter, c: Node)
    returns (r': Place)
    requires Closed(g, reach, mem) && Stands(reach, a, b, r)
    requires Scan(w).Some? && Covers(r, Scan(w).value) && Scan(w + [l]).Some?
    requires match l case Fwd => Edge(g, b, c) case Rev => Edge(g, c, b) case Mem => b == c || (b, c) in mem
    ensures Stands(reach, a, c, r') && Covers(r', Scan(w + [l]).value)
  {
    ScanSnoc(w, l);
    CoversMove(r, Scan(w).value, l);
    if l == Mem && b == c {
      r' := r;
    } else {
      r' := StandsStep(g, reach, mem, a, b, r, l, c);
    }
  }

  /** Every grammatical path between distinct nodes is stored, in some state that can do at
      least as much as the automaton's state at the end of the path. */
  lemma {:induction false} Complete(g: Graph, reach: set<Item>, mem: set<(Node, Node)>, p: Path) returns (r: Place)
    requires Closed(g, reach, mem) && Follows(g, p) && Scan(Word(p)).Some?
    ensures Stands(reach, First(p), Last(p), r) && Covers(r, Scan(Word(p)).value)
    decreases p
  {
    match p
    case At(_) => r := Here;
    case Step(q, l, n) =>
      ScanSnoc(Word(q), l);
      r := Complete(g, reach, mem, q);
      r := Extend(g, reach, mem, First(p), Last(q), r, Word(q), l, n);
    case Hop(q, via, n) =>
      ScanSnoc(Word(q), Mem);
      ScanIsGrammar(Word(via));
      r := Complete(g, reach, mem, q);
      var v := Complete(g, reach, mem, via);
      FollowsEnds(g, q);
      if Last(q) != n {
        assert BelowDone(g, mem, Item(First(via), Last(via), v.state));
      }
      r := Extend(g, reach, mem, First(p), Last(q), r, Word(q), Mem, n);
  }

  // ----- soundness -----

  /** The path never comes back to its start, and no hop leads from a node to itself. */
  predicate Straight(p: Path) {
    match p
    case At(_) => true
    case Step(q, _, n) => Straight(q) && n != First(q)
    case Hop(q, _, n) => Straight(q) && n != First(q) && n != Last(q)
  }

  ghost predicate Witness(g: Graph, t: Item, p: Path) {
    Follows(g, p) && First(p) == t.from && Last(p) == t.to && Straight(p) && Scan(Word(p)) == Some(In(t.state))
  }

  /** Some straight path between the item's ends brings the automaton into the item's state. */
  ghost predicate Justified(g: Graph, t: Item) {
    exists p :: Witness(g, t, p)
  }

  ghost predicate MemJustified(g: Graph, x: Node, y: Node) {
    exists p :: Follows(g, p) && InGrammar(Word(p)) && x == Below(First(p)) && y == Below(Last(p)) && x in g.nodes &&
      y in g.nodes
  }

  lemma JustifyEdge(g: Graph, a: Node, b: Node)
    requires g.Valid() && Edge(g, a, b) && a != b
    ensures Justified(g, Item(a, b, FlowToWriteOnly)) && Justified(g, Item(b, a, FlowFromReadOnly))
  {
    JustifyOne(g, a, Fwd, b);
    JustifyOne(g, b, Rev, a);
  }

  lemma JustifyOne(g: Graph, a: Node, l: Letter, b: Node)
    requires g.Valid() && a != b && l != Mem && if l == Fwd then Edge(g, a, b) else Edge(g, b, a)
    ensures Justified(g, Item(a, b, Move(Here, l).value.state))
  {
    var start := At(a);
    assert Follows(g, start) && Word(start) == [] && Last(start) == a;
    ScanSnoc([], l);
    assert Straight(start) && First(start) == a;
    var p := Step(start, l, b);
    assert Word(p) == [] + [l];
    assert Witness(g, Item(a, b, Move(Here, l).value.state), p);
  }

  lemma ScanOn(p: Path, s: MatchState, l: Letter)
    requires Scan(Word(p)) == Some(In(s)) && Next(s, l).Some?
    ensures Scan(Word(p) + [l]) == Some(In(Next(s, l).value))
  {
    ScanSnoc(Word(p), l);
  }

  lemma JustifyStep(g: Graph, t: Item, l: Letter, c: Node)
    requires c in g.nodes && c != t.from && Justified(g, t) && Next(t.state, l).Some? && l != Mem
    requires if l == Fwd then Edge(g, t.to, c) else Edge(g, c, t.to)
    ensures Justified(g, Item(t.from, c, Next(t.state, l).value))
  {
    var p :| Witness(g, t, p);
    ScanOn(p, t.state, l);
    var q := Step(p, l, c);
    assert Word(q) == Word(p) + [l];
    assert Witness(g, Item(t.from, c, Next(t.state, l).value), q);
  }

  lemma JustifyMem(g: Graph, t: Item)
    requires Justified(g, t) && Below(t.from) in g.nodes && Below(t.to) in g.nodes
    ensures MemJustified(g, Below(t.from), Below(t.to))
  {
    var p :| Witness(g, t, p);
    ScanIsGrammar(Word(p));
  }

  lemma JustifyHop(g: Graph, t: Item, c: Node)
    requires Justified(g, t) && MemJustified(g, t.to, c) && Next(t.state, Mem).Some? && c != t.from && c != t.to
    ensures Justified(g, Item(t.from, c, Next(t.state, Mem).value))
  {
    var p :| Witness(g, t, p);
    var via :| Follows(g, via) && InGrammar(Word(via)) && t.to == Below(First(via)) && c == Below(Last(via)) &&
      c in g.nodes;
    ScanOn(p, t.state, Mem);
    var q := Hop(p, via, c);
    assert Word(q) == Word(p) + [Mem];
    assert Witness(g, Item(t.from, c, Next(t.state, Mem).value), q);
  }

  lemma JustifyFirstHop(g: Graph, x: Node, y: Node)
    requires MemJustified(g, x, y) && x != y
    ensures Justified(g, Item(x, y, FlowFromMemAliasNoReadWrite))
  {
    var via :| Follows(g, via) && InGrammar(Word(via)) && x == Below(First(via)) && y == Below(Last(via)) &&
      x in g.nodes && y in g.nodes;
    FirstHop(g, via, x, y);
  }

  /** The path of one hop. */
  lemma FirstHop(g: Graph, via: Path, x: Node, y: Node)
    requires Follows(g, via) && InGrammar(Word(via)) && x == Below(First(via)) && y == Below(Last(via))
    requires x in g.nodes && y in g.nodes && x != y
    ensures Justified(g, Item(x, y, FlowFromMemAliasNoReadWrite))
  {
    HopFollows(g, via, x, y);
    HopShape(via, x, y);
    ScanSnoc([], Mem);
    assert Scan([Mem]) == Some(In(FlowFromMemAliasNoReadWrite)) by { assert [] + [Mem] == [Mem]; }
    assert Witness(g, Item(x, y, FlowFromMemAliasNoReadWrite), Hop(At(x), via, y));
  }

  lemma HopFollows(g: Graph, via: Path, x: Node, y: Node)
    requires Follows(g, via) && InGrammar(Word(via)) && x == Below(First(via)) && y == Below(Last(via))
    requires x in g.nodes && y in g.nodes
    ensures Follows(g, Hop(At(x), via, y))
  {
    assert Follows(g, At(x)) && Last(At(x)) == x;
  }

  lemma HopShape(via: Path, x: Node, y: Node)
    requires x != y
    ensures var p := Hop(At(x), via, y);
      First(p) == x && Last(p) == y && Word(p) == [Mem] && Straight(p)
  {
    assert Straight(At(x)) && First(At(x)) == Last(At(x)) == x && Word(At(x)) == [];
  }

  // ----- exactly the states -----

  /** Where the `via` of a hop makes two nodes memory aliases, they are recorded. */
  lemma HopRecorded(g: Graph, reach: set<Item>, mem: set<(Node, Node)>, via: Path, x: Node, y: Node)
    requires Closed(g, reach, mem) && Follows(g, via) && InGrammar(Word(via))
    requires x == Below(First(via)) && y == Below(Last(via)) && x != y && x in g.nodes && y in g.nodes
    ensures (x, y) in mem
  {
    ScanIsGrammar(Word(via));
    var v := Complete(g, reach, mem, via);
    assert BelowDone(g, mem, Item(First(via), Last(via), v.state));
  }

  /** A straight path is stored in the very state that the automaton is in at its end. */
  lemma {:induction false} StraightStored(g: Graph, reach: set<Item>, mem: set<(Node, Node)>, p: Path)
    requires Closed(g, reach, mem) && Follows(g, p) && Straight(p) && Scan(Word(p)).Some?
    ensures Stands(reach, First(p), Last(p), Scan(Word(p)).value)
    decreases p
  {
    match p
    case At(_) =>
    case Step(q, l, n) =>
      ScanSnoc(Word(q), l);
      StraightStored(g, reach, mem, q);
      var r := StandsStep(g, reach, mem, First(q), Last(q), Scan(Word(q)).value, l, n);
    case Hop(q, via, n) =>
      ScanSnoc(Word(q), Mem);
      StraightStored(g, reach, mem, q);
      FollowsEnds(g, q);
      HopRecorded(g, reach, mem, via, Last(q), n);
      var r := StandsStep(g, reach, mem, First(q), Last(q), Scan(Word(q)).value, Mem, n);
  }

  /** Between the item's ends there is a straight path of the grammar that reads, writes and ends as its state says. */
  ghost predicate OfKind(g: Graph, t: Item) {
    exists p :: Spells(g, p, t.from, t.to) && Straight(p) && Means(t.state, Word(p))
  }

  /** An item is stored just if there is such a path. */
  lemma ExactlyKinds(g: Graph, reach: set<Item>, mem: set<(Node, Node)>, t: Item)
    requires Closed(g, reach, mem) && forall u :: u in reach ==> Justified(g, u)
    requires forall u :: u in reach ==> u.from != u.to
    ensures t in reach <==> t.from != t.to && OfKind(g, t)
  {
    if t in reach {
      assert Justified(g, t);
      var p :| Witness(g, t, p);
      ScanMeans(Word(p), t.state);
      assert Spells(g, p, t.from, t.to);
    }
    if t.from != t.to && OfKind(g, t) {
      var p :| Spells(g, p, t.from, t.to) && Straight(p) && Means(t.state, Word(p));
      ScanMeans(Word(p), t.state);
      StraightStored(g, reach, mem, p);
    }
  }

  /** Between distinct nodes, stored in some state means value aliases, and the other way round. */
  lemma ExactlyAliases(g: Graph, reach: set<Item>, mem: set<(Node, Node)>, a: Node, b: Node)
    requires Closed(g, reach, mem) && a != b
    requires forall t :: t in reach ==> Justified(g, t)
    ensures (exists s :: Item(a, b, s) in reach) <==> ValueAlias(g, a, b)
  {
    if s :| Item(a, b, s) in reach {
      var t := Item(a, b, s);
      assert Justified(g, t);
      var p :| Witness(g, t, p);
      ScanIsGrammar(Word(p));
      assert Spells(g, p, a, b);
    }
    if ValueAlias(g, a, b) {
      var p :| Spells(g, p, a, b);
      ScanIsGrammar(Word(p));
      var r := Complete(g, reach, mem, p);
      assert Item(a, b, r.state) in reach;
    }
  }
}
