/** The graph of assignments between values at dereference levels, and what it means for two
    nodes to be aliases: a path between them spells a word of the alias grammar. */
module CFLGraph {

  datatype Option<+T> = None | Some(value: T)

  /** A value seen through `level` dereferences. */
  datatype Node = Node(val: nat, level: nat)

  /** `edges` holds the assignments out of a node, `rev` those into it. */
  datatype Graph = Graph(nodes: set<Node>, edges: map<Node, set<Node>>, rev: map<Node, set<Node>>,
                         attrs: map<Node, set<nat>>) {
    /** Edges join nodes, and the reverse edges mirror them. */
    ghost predicate Valid() {
      edges.Keys == nodes && rev.Keys == nodes && attrs.Keys == nodes &&
      (forall a, b {:trigger Edge(this, a, b)} :: Edge(this, a, b) ==> b in nodes && RevEdge(this, a, b)) &&
      (forall a, b {:trigger RevEdge(this, a, b)} :: RevEdge(this, a, b) ==> a in nodes && Edge(this, a, b))
    }
  }

  predicate Edge(g: Graph, a: Node, b: Node) {
    a in g.nodes && a in g.edges && b in g.edges[a]
  }

  predicate RevEdge(g: Graph, a: Node, b: Node) {
    b in g.nodes && b in g.rev && a in g.rev[b]
  }

  function Below(v: Node): Node { Node(v.val, v.level + 1) }

  function NodeBelow(g: Graph, v: Node): Option<Node> {
    if Below(v) in g.nodes then Some(Below(v)) else None
  }

  // ----- paths and their words -----

  /** Along an assignment, against one, or from a node to a memory alias of it. */
  datatype Letter = Fwd | Rev | Mem

  /** A path, with the path that makes the two ends of every memory hop aliases. */
  datatype Path = At(node: Node) | Step(prefix: Path, letter: Letter, to: Node) | Hop(prefix: Path, via: Path, to: Node)

  function First(p: Path): Node {
    match p
    case At(n) => n
    case Step(q, _, _) => First(q)
    case Hop(q, _, _) => First(q)
  }

  function Last(p: Path): Node {
    match p
    case At(n) => n
    case Step(_, _, n) => n
    case Hop(_, _, n) => n
  }

  function Word(p: Path): seq<Letter> {
    match p
    case At(_) => []
    case Step(q, l, _) => Word(q) + [l]
    case Hop(q, _, _) => Word(q) + [Mem]
  }

  /** Value aliases spell (M? rev)* M? (fwd M?)*: no assignment before a reverse one, and never
      two memory hops in a row. */
  ghost predicate InGrammar(w: seq<Letter>) {
    (forall i, j :: 0 <= i < j < |w| && w[i] == Fwd ==> w[j] != Rev) &&
    (forall i :: 0 <= i && i + 1 < |w| && w[i] == Mem ==> w[i + 1] != Mem)
  }

  /** The path follows the graph; a hop leads from *x to *y where its `via` makes x and y value aliases. */
  ghost predicate Follows(g: Graph, p: Path) {
    match p
    case At(n) => n in g.nodes
    case Step(q, l, n) =>
      Follows(g, q) && n in g.nodes && l != Mem &&
      (if l == Fwd then Edge(g, Last(q), n) else Edge(g, n, Last(q)))
    case Hop(q, via, n) =>
      Follows(g, q) && Follows(g, via) && InGrammar(Word(via)) && n in g.nodes &&
      Last(q) == Below(First(via)) && n == Below(Last(via))
  }

  ghost predicate Spells(g: Graph, p: Path, a: Node, b: Node) {
    Follows(g, p) && InGrammar(Word(p)) && First(p) == a && Last(p) == b
  }

  ghost predicate ValueAlias(g: Graph, a: Node, b: Node) {
    exists p :: Spells(g, p, a, b)
  }

  /** *a and *b are memory aliases when a and b are value aliases. */
  ghost predicate MemAlias(g: Graph, x: Node, y: Node) {
    x in g.nodes && y in g.nodes && exists a, b :: x == Below(a) && y == Below(b) && ValueAlias(g, a, b)
  }

  lemma {:induction false} FollowsEnds(g: Graph, p: Path)
    requires Follows(g, p)
    ensures First(p) in g.nodes && Last(p) in g.nodes
    decreases p
  {
    match p
    case At(_) =>
    case Step(q, _, _) => FollowsEnds(g, q);
    case Hop(q, _, _) => FollowsEnds(g, q);
  }

  // ----- symmetry -----

  function Concat(p: Path, q: Path): Path
    decreases q
  {
    match q
    case At(_) => p
    case Step(r, l, n) => Step(Concat(p, r), l, n)
    case Hop(r, via, n) => Hop(Concat(p, r), via, n)
  }

  function Inverse(l: Letter): Letter {
    match l case Fwd => Rev case Rev => Fwd case Mem => Mem
  }

  function Reverse(p: Path): Path {
    match p
    case At(n) => p
    case Step(q, l, n) => Concat(Step(At(n), Inverse(l), Last(q)), Reverse(q))
    case Hop(q, via, n) => Concat(Hop(At(n), Reverse(via), Last(q)), Reverse(q))
  }

  function Mirror(w: seq<Letter>): seq<Letter> {
    seq(|w|, i requires 0 <= i < |w| => Inverse(w[|w| - 1 - i]))
  }

  lemma {:induction false} ConcatFollows(g: Graph, p: Path, q: Path)
    requires Follows(g, p) && Follows(g, q) && Last(p) == First(q)
    ensures Follows(g, Concat(p, q)) && First(Concat(p, q)) == First(p) && Last(Concat(p, q)) == Last(q)
    ensures Word(Concat(p, q)) == Word(p) + Word(q)
    decreases q
  {
    match q
    case At(_) =>
    case Step(r, l, _) =>
      ConcatFollows(g, p, r);
      assert Word(p) + (Word(r) + [l]) == (Word(p) + Word(r)) + [l];
    case Hop(r, _, _) =>
      ConcatFollows(g, p, r);
      assert Word(p) + (Word(r) + [Mem]) == (Word(p) + Word(r)) + [Mem];
  }

  lemma MirrorSnoc(w: seq<Letter>, l: Letter)
    ensures Mirror(w + [l]) == [Inverse(l)] + Mirror(w)
  {
  }

  lemma MirrorGrammar(w: seq<Letter>)
    requires InGrammar(w)
    ensures InGrammar(Mirror(w))
  {
    var m := Mirror(w);
    forall i, j | 0 <= i < j < |m| && m[i] == Fwd
      ensures m[j] != Rev
    {
      var a, b := w[|w| - 1 - j], w[|w| - 1 - i];
      assert m[j] == Inverse(a) && m[i] == Inverse(b);
      assert b == Rev && a != Fwd;
    }
    forall i | 0 <= i && i + 1 < |m| && m[i] == Mem
      ensures m[i + 1] != Mem
    {
      var k := |w| - 2 - i;
      assert m[i] == Inverse(w[k + 1]) && m[i + 1] == Inverse(w[k]);
      assert w[k + 1] == Mem && w[k] != Mem;
    }
  }

  lemma {:induction false} ReverseFollows(g: Graph, p: Path)
    requires Follows(g, p)
    ensures Follows(g, Reverse(p)) && First(Reverse(p)) == Last(p) && Last(Reverse(p)) == First(p)
    ensures Word(Reverse(p)) == Mirror(Word(p))
    decreases p
  {
    match p
    case At(_) =>
    case Step(q, l, n) =>
      ReverseFollows(g, q);
      FollowsEnds(g, q);
      var s := Step(At(n), Inverse(l), Last(q));
      assert Word(s) == [Inverse(l)];
      ConcatFollows(g, s, Reverse(q));
      MirrorSnoc(Word(q), l);
    case Hop(q, via, n) =>
      ReverseFollows(g, q);
      ReverseFollows(g, via);
      FollowsEnds(g, q);
      MirrorGrammar(Word(via));
      var s := Hop(At(n), Reverse(via), Last(q));
      assert Word(s) == [Mem];
      ConcatFollows(g, s, Reverse(q));
      MirrorSnoc(Word(q), Mem);
  }

  /** Value aliasing, taken as a relation between nodes, is symmetric. */
  lemma AliasSymmetric(g: Graph, a: Node, b: Node)
    requires ValueAlias(g, a, b)
    ensures ValueAlias(g, b, a)
  {
    var p :| Spells(g, p, a, b);
    ReverseFollows(g, p);
    MirrorGrammar(Word(p));
    assert Spells(g, Reverse(p), b, a);
  }
}
