/** What a depth-first search is: the order in which it comes to the blocks, and the tree of the edges it comes by. */
module CFGSearch {
  import opened CFGPaths

  datatype Search = Search(order: seq<Block>, parent: map<Block, Block>)

  ghost predicate Earlier(order: seq<Block>, a: Block, b: Block) {
    exists i, j :: 0 <= i < j < |order| && order[i] == a && order[j] == b
  }

  predicate IsParent(parent: map<Block, Block>, x: Block, y: Block) {
    y in parent && parent[y] == x
  }

  ghost predicate TreePath(parent: map<Block, Block>, q: seq<Block>) {
    |q| > 0 && forall i :: 0 <= i && i + 1 < |q| ==> IsParent(parent, q[i], q[i + 1])
  }

  ghost predicate TreePathFrom(parent: map<Block, Block>, q: seq<Block>, a: Block, b: Block) {
    TreePath(parent, q) && q[0] == a && q[|q| - 1] == b
  }

  /** `a` is `b`, or an ancestor of it in the tree. */
  ghost predicate Above(parent: map<Block, Block>, a: Block, b: Block) {
    exists q :: TreePathFrom(parent, q, a, b)
  }

  /** The edge `i` of `x` was the first chance to get from there to `y`: where the edges before it lead was known. */
  ghost predicate EnteredBy(g: Cfg, order: seq<Block>, x: Block, y: Block, i: nat)
    requires x in g.succ
  {
    i < |g.succ[x]| && g.succ[x][i] == y && forall j :: 0 <= j < i ==> Earlier(order, g.succ[x][j], y)
  }

  ghost predicate Entered(g: Cfg, s: Search, y: Block)
    requires y in s.parent
  {
    var x := s.parent[y];
    x in g.succ && Earlier(s.order, x, y) && exists i: nat :: EnteredBy(g, s.order, x, y, i)
  }

  ghost predicate NoneTwice(order: seq<Block>) {
    forall i, j :: 0 <= i < j < |order| ==> order[i] != order[j]
  }

  ghost predicate TreeOk(g: Cfg, s: Search) {
    |s.order| > 0 && s.order[0] == g.entry && NoneTwice(s.order) &&
    (forall y :: y in s.parent <==> y in s.order && y != g.entry) &&
    forall y :: y in s.parent ==> Entered(g, s, y)
  }

  /** Behind the block there is nothing left to find: an edge leads to an earlier block or to a descendant. */
  ghost predicate Left(g: Cfg, s: Search, u: Block) {
    forall v {:trigger Edge(g, u, v)} :: Edge(g, u, v) ==>
      v in s.order && (Earlier(s.order, v, u) || Above(s.parent, u, v))
  }

  /** A depth-first search in the order of the successors: a block is entered by the first edge that leads to it, and
      left when all that is new behind it has become its descendants. */
  ghost predicate DepthFirst(g: Cfg, s: Search) {
    TreeOk(g, s) && forall u {:trigger Left(g, s, u)} :: u in s.order ==> Left(g, s, u)
  }

  /** The stack is a path of the tree, and what was found after one of its blocks is beneath that. */
  ghost predicate StackInTree(s: Search, stack: seq<Block>) {
    (forall k :: 0 <= k < |stack| ==> stack[k] in s.order) &&
    (forall k :: 0 <= k && k + 1 < |stack| ==> IsParent(s.parent, stack[k], stack[k + 1])) &&
    forall k, b {:trigger Earlier(s.order, stack[k], b)} ::
      0 <= k < |stack| && Earlier(s.order, stack[k], b) ==> Above(s.parent, stack[k], b)
  }

  /** The reported edges lead up in the tree. */
  ghost predicate ReportsUp(s: Search, reported: seq<(Block, Block)>) {
    forall e {:trigger Above(s.parent, e.1, e.0)} :: e in reported ==> Above(s.parent, e.1, e.0)
  }

  ghost predicate SearchOk(g: Cfg, s: Search, stack: seq<Block>, reported: seq<(Block, Block)>) {
    TreeOk(g, s) && StackInTree(s, stack) && ReportsUp(s, reported) &&
    forall u {:trigger Left(g, s, u)} :: u in s.order && u !in stack ==> Left(g, s, u)
  }

  lemma AboveSelf(parent: map<Block, Block>, a: Block)
    ensures Above(parent, a, a)
  {
    assert TreePathFrom(parent, [a], a, a);
  }

  lemma AboveOn(parent: map<Block, Block>, a: Block, b: Block, c: Block)
    requires Above(parent, a, b) && c in parent && parent[c] == b
    ensures Above(parent, a, c)
  {
    var q :| TreePathFrom(parent, q, a, b);
    assert TreePathFrom(parent, q + [c], a, c);
  }

  lemma AboveKept(parent: map<Block, Block>, v: Block, u: Block, a: Block, b: Block)
    requires v !in parent && Above(parent, a, b)
    ensures Above(parent[v := u], a, b)
  {
    var q :| TreePathFrom(parent, q, a, b);
    assert TreePathFrom(parent[v := u], q, a, b);
  }

  lemma EarlierKept(order: seq<Block>, v: Block, a: Block, b: Block)
    ensures Earlier(order, a, b) ==> Earlier(order + [v], a, b)
    ensures v !in order && Earlier(order + [v], a, b) ==> if b == v then a in order else Earlier(order, a, b)
  {
    if Earlier(order, a, b) {
      var i, j :| 0 <= i < j < |order| && order[i] == a && order[j] == b;
      assert (order + [v])[i] == a && (order + [v])[j] == b;
    }
  }

  lemma LastIsLater(order: seq<Block>, a: Block, v: Block)
    requires a in order
    ensures Earlier(order + [v], a, v)
  {
    var i :| 0 <= i < |order| && order[i] == a;
    assert (order + [v])[i] == a && (order + [v])[|order|] == v;
  }

  /** The order runs down the tree. */
  lemma {:induction false} DownIsLater(g: Cfg, s: Search, q: seq<Block>, n: nat)
    requires TreeOk(g, s) && TreePath(s.parent, q) && n < |q|
    ensures n == 0 || Earlier(s.order, q[0], q[n])
  {
    if n > 0 {
      DownIsLater(g, s, q, n - 1);
      assert IsParent(s.parent, q[n - 1], q[n - 1 + 1]);
      assert Entered(g, s, q[n]);
      if n > 1 { EarlierTrans(s.order, q[0], q[n - 1], q[n]); }
    }
  }

  lemma EarlierTrans(order: seq<Block>, a: Block, b: Block, c: Block)
    requires NoneTwice(order) && Earlier(order, a, b) && Earlier(order, b, c)
    ensures Earlier(order, a, c)
  {
    var i, j :| 0 <= i < j < |order| && order[i] == a && order[j] == b;
    var k, l :| 0 <= k < l < |order| && order[k] == b && order[l] == c;
    assert j == k;
  }

  /** So no edge of the tree leads up. */
  lemma TreeEdgeDown(g: Cfg, s: Search, y: Block)
    requires TreeOk(g, s) && y in s.parent
    ensures !Above(s.parent, y, s.parent[y])
  {
    var x := s.parent[y];
    assert Entered(g, s, y);
    if Above(s.parent, y, x) {
      var q :| TreePathFrom(s.parent, q, y, x);
      DownIsLater(g, s, q, |q| - 1);
      if |q| > 1 {
        EarlierTrans(s.order, x, y, x);
      }
      assert false;
    }
  }

  /** The entry is above all. */
  lemma {:induction false} EntryAbove(g: Cfg, s: Search, n: nat)
    requires TreeOk(g, s) && n < |s.order|
    ensures Above(s.parent, g.entry, s.order[n])
    decreases n
  {
    var y := s.order[n];
    if n == 0 {
      AboveSelf(s.parent, y);
    } else {
      assert s.order[0] != s.order[n];
      assert Entered(g, s, y);
      var i, j :| 0 <= i < j < |s.order| && s.order[i] == s.parent[y] && s.order[j] == y;
      assert j == n;
      EntryAbove(g, s, i);
      AboveOn(s.parent, g.entry, s.order[i], y);
    }
  }

  // ----- the steps of a search -----

  lemma SearchStarts(g: Cfg)
    ensures SearchOk(g, Search([g.entry], map[]), [g.entry], [])
  {
  }

  function Deeper(s: Search, u: Block, v: Block): Search {
    Search(s.order + [v], s.parent[v := u])
  }

  lemma EnteredKept(g: Cfg, s: Search, u: Block, v: Block, y: Block)
    requires v !in s.parent && y in s.parent && Entered(g, s, y)
    ensures Entered(g, Deeper(s, u, v), y)
  {
    var x := s.parent[y];
    var i: nat :| EnteredBy(g, s.order, x, y, i);
    EarlierKept(s.order, v, x, y);
    forall j | 0 <= j < i
      ensures Earlier(s.order + [v], g.succ[x][j], y)
    {
      EarlierKept(s.order, v, g.succ[x][j], y);
    }
    assert EnteredBy(g, s.order + [v], x, y, i);
  }

  lemma NewEntered(g: Cfg, s: Search, u: Block, v: Block, i: nat)
    requires v !in s.order && u in s.order && u in g.succ && i < |g.succ[u]| && g.succ[u][i] == v
    requires forall j :: 0 <= j < i ==> g.succ[u][j] in s.order
    ensures Entered(g, Deeper(s, u, v), v)
  {
    LastIsLater(s.order, u, v);
    forall j | 0 <= j < i
      ensures Earlier(s.order + [v], g.succ[u][j], v)
    {
      LastIsLater(s.order, g.succ[u][j], v);
    }
    assert EnteredBy(g, s.order + [v], u, v, i);
  }

  lemma DeeperTree(g: Cfg, s: Search, u: Block, v: Block, i: nat)
    requires TreeOk(g, s) && v !in s.order && u in s.order && u in g.succ && i < |g.succ[u]| && g.succ[u][i] == v
    requires forall j :: 0 <= j < i ==> g.succ[u][j] in s.order
    ensures TreeOk(g, Deeper(s, u, v))
  {
    var t := Deeper(s, u, v);
    assert forall y :: y in t.order <==> y in s.order || y == v;
    forall y | y in t.parent
      ensures Entered(g, t, y)
    {
      if y == v {
        NewEntered(g, s, u, v, i);
      } else {
        assert Entered(g, s, y);
        EnteredKept(g, s, u, v, y);
      }
    }
  }

  lemma DeeperLeft(g: Cfg, s: Search, u: Block, v: Block, x: Block)
    requires v !in s.parent && Left(g, s, x)
    ensures Left(g, Deeper(s, u, v), x)
  {
    forall w {:trigger Edge(g, x, w)} | Edge(g, x, w)
      ensures w in s.order + [v] && (Earlier(s.order + [v], w, x) || Above(s.parent[v := u], x, w))
    {
      if Earlier(s.order, w, x) {
        EarlierKept(s.order, v, w, x);
      } else {
        AboveKept(s.parent, v, u, x, w);
      }
    }
  }

  lemma {:induction false} StackAbove(s: Search, stack: seq<Block>, k: nat, n: nat)
    requires StackInTree(s, stack) && k <= n < |stack|
    ensures Above(s.parent, stack[k], stack[n])
    decreases n
  {
    if k == n {
      AboveSelf(s.parent, stack[k]);
    } else {
      StackAbove(s, stack, k, n - 1);
      assert IsParent(s.parent, stack[n - 1], stack[n - 1 + 1]);
      AboveOn(s.parent, stack[k], stack[n - 1], stack[n]);
    }
  }

  lemma DeeperStack(g: Cfg, s: Search, stack: seq<Block>, v: Block)
    requires TreeOk(g, s) && StackInTree(s, stack) && stack != [] && v !in s.order
    ensures StackInTree(Deeper(s, stack[|stack| - 1], v), stack + [v])
  {
    var u := stack[|stack| - 1];
    var t, st := Deeper(s, u, v), stack + [v];
    assert v !in s.parent;
    forall k, b {:trigger Earlier(t.order, st[k], b)} | 0 <= k < |st| && Earlier(t.order, st[k], b)
      ensures Above(t.parent, st[k], b)
    {
      if k == |stack| {
        NoneAfterNew(s.order, v, b);
      } else {
        StillBeneath(s, stack, v, k, b);
      }
    }
    DeeperPath(s, stack, v);
  }

  lemma DeeperPath(s: Search, stack: seq<Block>, v: Block)
    requires StackInTree(s, stack) && stack != [] && v !in s.order && v !in s.parent
    ensures var t, st := Deeper(s, stack[|stack| - 1], v), stack + [v];
      (forall k :: 0 <= k < |st| ==> st[k] in t.order) &&
      forall k :: 0 <= k && k + 1 < |st| ==> IsParent(t.parent, st[k], st[k + 1])
  {
    var t, st := Deeper(s, stack[|stack| - 1], v), stack + [v];
    forall k | 0 <= k && k + 1 < |st|
      ensures IsParent(t.parent, st[k], st[k + 1])
    {
      if k + 1 < |stack| { assert IsParent(s.parent, stack[k], stack[k + 1]); }
    }
  }

  lemma StillBeneath(s: Search, stack: seq<Block>, v: Block, k: nat, b: Block)
    requires StackInTree(s, stack) && k < |stack| && v !in s.order && v !in s.parent
    requires Earlier(s.order + [v], stack[k], b)
    ensures Above(s.parent[v := stack[|stack| - 1]], stack[k], b)
  {
    var u := stack[|stack| - 1];
    EarlierKept(s.order, v, stack[k], b);
    if b == v {
      StackAbove(s, stack, k, |stack| - 1);
      AboveKept(s.parent, v, u, stack[k], u);
      AboveOn(s.parent[v := u], stack[k], u, v);
    } else {
      assert Earlier(s.order, stack[k], b);
      AboveKept(s.parent, v, u, stack[k], b);
    }
  }

  lemma NoneAfterNew(order: seq<Block>, v: Block, b: Block)
    requires v !in order
    ensures !Earlier(order + [v], v, b)
  {
  }

  /** A new block is entered from the block on top of the stack. */
  lemma SearchEnters(g: Cfg, s: Search, stack: seq<Block>, reported: seq<(Block, Block)>, u: Block, i: nat, v: Block)
    requires SearchOk(g, s, stack, reported) && stack != [] && u == stack[|stack| - 1]
    requires u in g.succ && i < |g.succ[u]| && g.succ[u][i] == v && v !in s.order
    requires forall j :: 0 <= j < i ==> g.succ[u][j] in s.order
    ensures SearchOk(g, Deeper(s, u, v), stack + [v], reported)
  {
    var t := Deeper(s, u, v);
    DeeperTree(g, s, u, v, i);
    DeeperStack(g, s, stack, v);
    forall e {:trigger Above(t.parent, e.1, e.0)} | e in reported
      ensures Above(t.parent, e.1, e.0)
    {
      assert Above(s.parent, e.1, e.0);
      AboveKept(s.parent, v, u, e.1, e.0);
    }
    forall x {:trigger Left(g, t, x)} | x in t.order && x !in stack + [v]
      ensures Left(g, t, x)
    {
      assert x in s.order && x !in stack;
      assert Left(g, s, x);
      DeeperLeft(g, s, u, v, x);
    }
  }

  /** The block on top is left when all its edges lead to known blocks. */
  lemma SearchLeaves(g: Cfg, s: Search, stack: seq<Block>, reported: seq<(Block, Block)>)
    requires SearchOk(g, s, stack, reported) && stack != []
    requires forall v {:trigger Edge(g, stack[|stack| - 1], v)} :: Edge(g, stack[|stack| - 1], v) ==> v in s.order
    ensures SearchOk(g, s, stack[..|stack| - 1], reported)
  {
    var n := |stack| - 1;
    var u := stack[n];
    forall v {:trigger Edge(g, u, v)} | Edge(g, u, v)
      ensures Earlier(s.order, v, u) || Above(s.parent, u, v)
    {
      var i :| 0 <= i < |s.order| && s.order[i] == u;
      var j :| 0 <= j < |s.order| && s.order[j] == v;
      if i == j {
        AboveSelf(s.parent, u);
      } else if i < j {
        assert Earlier(s.order, stack[n], v);
      }
    }
    forall x {:trigger Left(g, s, x)} | x in s.order && x !in stack[..n]
      ensures Left(g, s, x)
    {
      if x in stack { assert x == u; }
    }
    forall k, b {:trigger Earlier(s.order, stack[..n][k], b)} | 0 <= k < n && Earlier(s.order, stack[..n][k], b)
      ensures Above(s.parent, stack[..n][k], b)
    {
      assert Earlier(s.order, stack[k], b);
    }
  }

  /** An edge from the block on top to a block on the stack leads up in the tree. */
  lemma SearchReports(g: Cfg, s: Search, stack: seq<Block>, reported: seq<(Block, Block)>, k: nat)
    requires SearchOk(g, s, stack, reported) && k < |stack|
    ensures SearchOk(g, s, stack, reported + [(stack[|stack| - 1], stack[k])])
  {
    StackAbove(s, stack, k, |stack| - 1);
  }

  // ----- how often an edge is reported -----

  function Succ(g: Cfg, u: Block): seq<Block> {
    if u in g.succ then g.succ[u] else []
  }

  /** Of the edges of `u` to the blocks in `taken` those are reported that lead up, each as often as it is there. */
  ghost predicate Counts(s: Search, reported: seq<(Block, Block)>, u: Block, taken: seq<Block>) {
    forall v {:trigger multiset(reported)[(u, v)]} ::
      multiset(reported)[(u, v)] == if Above(s.parent, v, u) then multiset(taken)[v] else 0
  }

  /** A new block is above no other, and nothing else changes its place. */
  lemma AboveOld(parent: map<Block, Block>, v: Block, u: Block, a: Block, b: Block)
    requires v !in parent && u != v && b != v && forall y :: y in parent ==> parent[y] != v
    ensures Above(parent[v := u], a, b) <==> Above(parent, a, b)
  {
    if Above(parent, a, b) {
      AboveKept(parent, v, u, a, b);
    }
    if Above(parent[v := u], a, b) {
      var q :| TreePathFrom(parent[v := u], q, a, b);
      forall i | 0 <= i && i + 1 < |q|
        ensures IsParent(parent, q[i], q[i + 1])
      {
        NotOnPath(parent, v, u, q, i + 1);
        assert IsParent(parent[v := u], q[i], q[i + 1]);
      }
      assert TreePathFrom(parent, q, a, b);
    }
  }

  lemma NotOnPath(parent: map<Block, Block>, v: Block, u: Block, q: seq<Block>, i: nat)
    requires u != v && forall y :: y in parent ==> parent[y] != v
    requires TreePath(parent[v := u], q) && q[|q| - 1] != v && i < |q|
    ensures q[i] != v
  {
    if i + 1 < |q| { assert IsParent(parent[v := u], q[i], q[i + 1]); }
  }

  lemma CountsKept(s: Search, u: Block, v: Block, reported: seq<(Block, Block)>, x: Block, taken: seq<Block>)
    requires v !in s.parent && u != v && x != v && forall y :: y in s.parent ==> s.parent[y] != v
    requires Counts(s, reported, x, taken)
    ensures Counts(Deeper(s, u, v), reported, x, taken)
  {
    forall w {:trigger multiset(reported)[(x, w)]}
      ensures multiset(reported)[(x, w)] == if Above(s.parent[v := u], w, x) then multiset(taken)[w] else 0
    {
      AboveOld(s.parent, v, u, w, x);
    }
  }

  /** A parent is a known block. */
  lemma ParentKnown(g: Cfg, s: Search, y: Block)
    requires TreeOk(g, s) && y in s.parent
    ensures s.parent[y] in s.order
  {
    assert Entered(g, s, y);
  }

  lemma NoChildOfNew(g: Cfg, s: Search, v: Block)
    requires TreeOk(g, s) && v !in s.order
    ensures v !in s.parent && forall y :: y in s.parent ==> s.parent[y] != v
  {
    forall y | y in s.parent
      ensures s.parent[y] != v
    {
      ParentKnown(g, s, y);
    }
  }

  /** What is above a block on the stack is on the stack. */
  lemma {:induction false} AboveOnStack(g: Cfg, s: Search, stack: seq<Block>, q: seq<Block>, k: nat)
    requires TreeOk(g, s) && StackInTree(s, stack) && TreePath(s.parent, q) && k < |stack| && stack[0] == g.entry
    requires q[|q| - 1] == stack[k]
    ensures q[0] in stack
    decreases |q|
  {
    var n := |q| - 1;
    if n > 0 {
      assert IsParent(s.parent, q[n - 1], q[n - 1 + 1]);
      assert k > 0;
      assert IsParent(s.parent, stack[k - 1], stack[k - 1 + 1]);
      assert TreePath(s.parent, q[..n]) by {
        forall i | 0 <= i && i + 1 < n
          ensures IsParent(s.parent, q[..n][i], q[..n][i + 1])
        {
          assert IsParent(s.parent, q[i], q[i + 1]);
        }
      }
      AboveOnStack(g, s, stack, q[..n], k - 1);
    }
  }

  /** One more edge of `u` is taken; it is reported just if it leads up. */
  lemma CountsTake(s: Search, reported: seq<(Block, Block)>, u: Block, taken: seq<Block>, v: Block, up: bool)
    requires Counts(s, reported, u, taken) && (up <==> Above(s.parent, v, u))
    ensures Counts(s, if up then reported + [(u, v)] else reported, u, taken + [v])
  {
  }

  lemma CountsOthers(s: Search, reported: seq<(Block, Block)>, x: Block, taken: seq<Block>, u: Block, v: Block)
    requires Counts(s, reported, x, taken) && x != u
    ensures Counts(s, reported + [(u, v)], x, taken)
  {
  }

  lemma NewNotAbove(g: Cfg, s: Search, u: Block, v: Block)
    requires TreeOk(g, s) && v !in s.order && u in s.order
    ensures !Above(s.parent[v := u], v, u)
  {
    NoChildOfNew(g, s, v);
    AboveOld(s.parent, v, u, v, u);
    forall q
      ensures !TreePathFrom(s.parent, q, v, u)
    {
      assert |q| > 1 && q[0] == v ==> !IsParent(s.parent, q[0], q[0 + 1]);
    }
  }

  /** An edge down is not reported. */
  lemma CountsDown(s: Search, reported: seq<(Block, Block)>, u: Block, taken: seq<Block>, v: Block)
    requires Counts(s, reported, u, taken) && !Above(s.parent, v, u)
    ensures Counts(s, reported, u, taken + [v])
  {
  }

  lemma NoneReported(t: Search, s: Search, reported: seq<(Block, Block)>, v: Block)
    requires Counts(s, reported, v, [])
    ensures Counts(t, reported, v, [])
  {
  }
}
