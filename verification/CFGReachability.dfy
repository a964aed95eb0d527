/** The reachability search that gives up after a number of blocks and jumps over whole loops. */
module CFGReachability {
  import opened CFGPaths

  /** Dominance, as the dominator tree answers it: `doms` holds the pairs (a, b) with a dominating b. */
  datatype DomTree = DomTree(fromEntry: set<Block>, doms: set<(Block, Block)>)

  /** A loop of the loop nest; `depth` counts the loops around it. */
  datatype Loop = Loop(parent: Option<int>, depth: nat, blocks: set<Block>)

  /** The innermost loop of every block that is in one. */
  datatype LoopInfo = LoopInfo(loopFor: map<Block, int>, loops: map<int, Loop>) {
    ghost predicate Valid() {
      (forall b :: b in loopFor ==> loopFor[b] in loops) &&
      (forall l :: l in loops && loops[l].parent.Some? ==>
        loops[l].parent.value in loops && loops[loops[l].parent.value].depth < loops[l].depth)
    }
  }

  /** The outermost loop around loop `l`. */
  function Outermost(li: LoopInfo, l: int): (r: int)
    requires li.Valid() && l in li.loops
    ensures r in li.loops && li.loops[r].parent.None?
    decreases li.loops[l].depth
  {
    if li.loops[l].parent.Some? then Outermost(li, li.loops[l].parent.value) else l
  }

  function GetOutermostLoop(li: LoopInfo, b: Block): (r: Option<int>)
    requires li.Valid()
    ensures r.Some? ==> r.value in li.loops
  {
    if b in li.loopFor then Some(Outermost(li, li.loopFor[b])) else None
  }

  predicate LoopContainsBoth(li: LoopInfo, a: Block, b: Block)
    requires li.Valid()
  {
    GetOutermostLoop(li, a).Some? && GetOutermostLoop(li, a) == GetOutermostLoop(li, b)
  }

  /** The blocks of an outermost loop are just the blocks whose outermost loop it is. */
  ghost predicate LoopsOk(g: Cfg, li: LoopInfo) {
    li.Valid() &&
    forall l, b :: l in li.loops && li.loops[l].parent.None? ==>
      (b in li.loops[l].blocks <==> b in g.succ && GetOutermostLoop(li, b) == Some(l))
  }

  // ----- what makes a positive answer right -----

  /** All blocks of a loop reach each other. */
  ghost predicate LoopsConnected(g: Cfg, li: LoopInfo) {
    forall l, a, b :: l in li.loops && a in li.loops[l].blocks && b in li.loops[l].blocks ==> Reaches(g, a, b)
  }

  /** `doms` has just the pairs (a, b) for which every path from the entry to b goes through a. */
  ghost predicate DomsCorrect(g: Cfg, dt: DomTree) {
    (forall b :: b in dt.fromEntry <==> Reaches(g, g.entry, b)) &&
    (forall a, b, p :: (a, b) in dt.doms && PathFrom(g, p, g.entry, b) ==> a in p)
  }

  lemma DominatorReaches(g: Cfg, dt: DomTree, a: Block, b: Block)
    requires DomsCorrect(g, dt) && b in dt.fromEntry && (a, b) in dt.doms
    ensures Reaches(g, a, b)
  {
    var p :| PathFrom(g, p, g.entry, b);
    assert a in p;
    var i :| 0 <= i < |p| && p[i] == a;
    var q := p[i..];
    forall k | 0 <= k && k + 1 < |q|
      ensures Edge(g, q[k], q[k + 1])
    {
      assert Edge(g, p[i + k], p[i + k + 1]);
    }
    assert PathFrom(g, q, a, b);
  }

  /** The analyses that may be at hand. */
  datatype Hints = Hints(dt: Option<DomTree>, li: Option<LoopInfo>) {
    ghost predicate Usable(g: Cfg) {
      li.Some? ==> LoopsOk(g, li.value)
    }

    ghost predicate Precise(g: Cfg) {
      (dt.Some? ==> DomsCorrect(g, dt.value)) && (li.Some? ==> LoopsConnected(g, li.value))
    }
  }

  // ----- the search -----

  /** The blocks the search goes on to from `b`: its successors, or the exits of its outermost loop. */
  ghost predicate GoesOn(g: Cfg, li: Option<LoopInfo>, b: Block, c: Block)
    requires li.Some? ==> LoopsOk(g, li.value)
  {
    if li.Some? && GetOutermostLoop(li.value, b).Some? then
      ExitOf(g, li.value.loops[GetOutermostLoop(li.value, b).value].blocks, c)
    else Edge(g, b, c)
  }

  ghost predicate LeadsTo(g: Cfg, from: set<Block>, c: Block) {
    exists a :: a in from && Edge(g, a, c)
  }

  ghost predicate ExitOf(g: Cfg, body: set<Block>, c: Block) {
    c !in body && LeadsTo(g, body, c)
  }

  method ExitBlocks(g: Cfg, body: set<Block>) returns (exits: seq<Block>)
    ensures forall c :: c in exits <==> ExitOf(g, body, c)
  {
    exits := [];
    var todo := body;
    while todo != {}
      invariant todo <= body
      invariant forall c :: c in exits <==> c !in body && LeadsTo(g, body - todo, c)
      decreases todo
    {
      var a :| a in todo;
      todo := todo - {a};
      var more := ExitsFrom(g, body, a);
      ghost var before := exits;
      exits := exits + more;
      forall c
        ensures c in exits <==> c !in body && LeadsTo(g, body - todo, c)
      {
        assert c in exits <==> c in before || c in more;
        if c in more { assert Edge(g, a, c); }
      }
    }
    assert body - todo == body;
  }

  method ExitsFrom(g: Cfg, body: set<Block>, a: Block) returns (exits: seq<Block>)
    ensures forall c :: c in exits <==> c !in body && Edge(g, a, c)
  {
    exits := [];
    if a in g.succ {
      var i := 0;
      while i < |g.succ[a]|
        invariant 0 <= i <= |g.succ[a]|
        invariant forall c :: c in exits <==> c !in body && c in g.succ[a][..i]
      {
        if g.succ[a][i] !in body {
          exits := exits + [g.succ[a][i]];
        }
        i := i + 1;
      }
    }
  }

  /** Every visited block has been passed, and what it leads to is visited or waits. */
  ghost predicate Passed(g: Cfg, li: Option<LoopInfo>, visited: set<Block>, work: seq<Block>, stop: Block)
    requires li.Some? ==> LoopsOk(g, li.value)
  {
    forall b :: b in visited ==>
      b != stop && (li.Some? ==> !LoopContainsBoth(li.value, b, stop)) &&
      forall c :: GoesOn(g, li, b, c) ==> c in visited || c in work
  }

  ghost predicate FromSome(g: Cfg, start: seq<Block>, b: Block) {
    exists a :: a in start && Reaches(g, a, b)
  }

  /** A block is behind the search when it is visited, or in the outermost loop of a visited block. */
  ghost predicate Behind(g: Cfg, li: Option<LoopInfo>, visited: set<Block>, b: Block)
    requires li.Some? ==> LoopsOk(g, li.value)
  {
    b in visited ||
    (li.Some? && exists a :: a in visited && LoopContainsBoth(li.value, a, b))
  }

  /** When nothing waits any more, one cannot leave what is behind the search. */
  lemma BehindStays(g: Cfg, li: Option<LoopInfo>, visited: set<Block>, stop: Block, b: Block, c: Block)
    requires g.Valid() && (li.Some? ==> LoopsOk(g, li.value))
    requires Passed(g, li, visited, [], stop) && Behind(g, li, visited, b) && Edge(g, b, c)
    ensures Behind(g, li, visited, c)
  {
    if li.Some? && GetOutermostLoop(li.value, b).Some? {
      var l := GetOutermostLoop(li.value, b).value;
      var body := li.value.loops[l].blocks;
      Outer(li.value, b);
      assert b in body;
      var a :| a in visited && GetOutermostLoop(li.value, a) == Some(l);
      if c in body {
        assert LoopContainsBoth(li.value, a, c);
      } else {
        assert ExitOf(g, body, c);
        assert GoesOn(g, li, a, c);
      }
    } else {
      assert GoesOn(g, li, b, c);
    }
  }

  lemma Outer(li: LoopInfo, b: Block)
    requires li.Valid() && b in li.loopFor
    ensures li.loops[GetOutermostLoop(li, b).value].parent.None?
  {
  }

  lemma {:induction false} NoPath(g: Cfg, li: Option<LoopInfo>, visited: set<Block>, stop: Block, p: seq<Block>)
    requires g.Valid() && (li.Some? ==> LoopsOk(g, li.value)) && Passed(g, li, visited, [], stop)
    requires Path(g, p) && Behind(g, li, visited, p[0])
    ensures p[|p| - 1] != stop
    decreases |p|
  {
    if |p| > 1 {
      assert Edge(g, p[0], p[0 + 1]);
      BehindStays(g, li, visited, stop, p[0], p[1]);
      assert Path(g, p[1..]) by {
        forall i | 0 <= i && i + 1 < |p[1..]|
          ensures Edge(g, p[1..][i], p[1..][i + 1])
        {
          assert Edge(g, p[i + 1], p[i + 1 + 1]);
        }
      }
      NoPath(g, li, visited, stop, p[1..]);
    }
  }

  /** Going on keeps to what the start can reach. */
  lemma GoOnReaches(g: Cfg, h: Hints, start: seq<Block>, b: Block, c: Block)
    requires h.Usable(g) && h.Precise(g) && FromSome(g, start, b) && b in g.succ && GoesOn(g, h.li, b, c)
    ensures FromSome(g, start, c)
  {
    var a :| a in start && Reaches(g, a, b);
    if h.li.Some? && GetOutermostLoop(h.li.value, b).Some? {
      var li := h.li.value;
      var l := GetOutermostLoop(li, b).value;
      Outer(li, b);
      var e :| e in li.loops[l].blocks && Edge(g, e, c);
      assert Reaches(g, b, e);
      ReachesTrans(g, a, b, e);
      ReachesOn(g, a, e, c);
    } else {
      ReachesOn(g, a, b, c);
    }
  }

  lemma HitReaches(g: Cfg, h: Hints, start: seq<Block>, b: Block, stop: Block)
    requires h.Usable(g) && h.Precise(g) && FromSome(g, start, b) && b in g.succ && stop in g.succ
    requires b == stop || (h.dt.Some? && stop in h.dt.value.fromEntry && (b, stop) in h.dt.value.doms) ||
      (h.li.Some? && LoopContainsBoth(h.li.value, b, stop))
    ensures FromSome(g, start, stop)
  {
    var a :| a in start && Reaches(g, a, b);
    if b == stop {
    } else if h.dt.Some? && stop in h.dt.value.fromEntry && (b, stop) in h.dt.value.doms {
      DominatorReaches(g, h.dt.value, b, stop);
      ReachesTrans(g, a, b, stop);
    } else {
      Outer(h.li.value, b);
      assert Reaches(g, b, stop);
      ReachesTrans(g, a, b, stop);
    }
  }

  const LIMIT: nat := 32

  /** The blocks to visit next after `b`. */
  method NextBlocks(g: Cfg, li: Option<LoopInfo>, b: Block) returns (next: seq<Block>)
    requires g.Valid() && b in g.succ && (li.Some? ==> LoopsOk(g, li.value))
    ensures forall c :: c in next <==> GoesOn(g, li, b, c)
    ensures forall c :: c in next ==> c in g.succ
  {
    if li.Some? && GetOutermostLoop(li.value, b).Some? {
      next := ExitBlocks(g, li.value.loops[GetOutermostLoop(li.value, b).value].blocks);
    } else {
      next := g.succ[b];
    }
  }

  /** The search has found what it looks for at `b`. */
  predicate Hit(dt: Option<DomTree>, li: Option<LoopInfo>, b: Block, stop: Block)
    requires li.Some? ==> li.value.Valid()
  {
    b == stop || (dt.Some? && (b, stop) in dt.value.doms) || (li.Some? && LoopContainsBoth(li.value, b, stop))
  }

  /** Everything seen so far can be reached from the start. */
  ghost predicate AllFromStart(g: Cfg, start: seq<Block>, visited: set<Block>, work: seq<Block>) {
    (forall b {:trigger FromSome(g, start, b)} :: b in visited || b in work ==> FromSome(g, start, b))
  }

  lemma Starts(g: Cfg, start: seq<Block>)
    ensures AllFromStart(g, start, {}, start)
  {
    forall b | b in start
      ensures FromSome(g, start, b)
    {
      ReachesSelf(g, b);
    }
  }

  lemma WorkGrows(g: Cfg, h: Hints, start: seq<Block>, visited: set<Block>, work: seq<Block>, b: Block,
                  next: seq<Block>)
    requires h.Usable(g) && h.Precise(g) && b in visited && b in g.succ && AllFromStart(g, start, visited, work)
    requires forall c :: c in next ==> GoesOn(g, h.li, b, c)
    ensures AllFromStart(g, start, visited, work + next)
  {
    forall c | c in next
      ensures FromSome(g, start, c)
    {
      assert FromSome(g, start, b);
      GoOnReaches(g, h, start, b, c);
    }
  }

  lemma PassedOn(g: Cfg, li: Option<LoopInfo>, visited: set<Block>, work: seq<Block>, b: Block, next: seq<Block>,
                 stop: Block)
    requires (li.Some? ==> LoopsOk(g, li.value)) && Passed(g, li, visited, work + [b], stop)
    requires b != stop && (li.Some? ==> !LoopContainsBoth(li.value, b, stop))
    requires forall c :: GoesOn(g, li, b, c) ==> c in next
    ensures Passed(g, li, visited + {b}, work + next, stop)
  {
  }

  lemma NoneReaches(g: Cfg, li: Option<LoopInfo>, visited: set<Block>, start: seq<Block>, stop: Block)
    requires g.Valid() && (li.Some? ==> LoopsOk(g, li.value)) && Passed(g, li, visited, [], stop)
    requires forall a :: a in start ==> a in visited
    ensures forall a :: a in start ==> !Reaches(g, a, stop)
  {
    forall a | a in start
      ensures !Reaches(g, a, stop)
    {
      forall p
        ensures !PathFrom(g, p, a, stop)
      {
        if Path(g, p) && p[0] == a { NoPath(g, li, visited, stop, p); }
      }
    }
  }

  // ----- what the search can get to -----

  /** A chain of blocks that the search could go along, from one of the start blocks to `b`. */
  ghost predicate Trail(g: Cfg, li: Option<LoopInfo>, start: seq<Block>, p: seq<Block>, b: Block)
    requires li.Some? ==> LoopsOk(g, li.value)
  {
    |p| > 0 && p[0] in start && p[|p| - 1] == b &&
    forall i :: 0 <= i && i + 1 < |p| ==> GoesOn(g, li, p[i], p[i + 1])
  }

  ghost predicate Searched(g: Cfg, li: Option<LoopInfo>, start: seq<Block>, b: Block)
    requires li.Some? ==> LoopsOk(g, li.value)
  {
    exists p :: Trail(g, li, start, p, b)
  }

  /** All blocks that the search would visit if nothing stopped it. */
  ghost function Space(g: Cfg, li: Option<LoopInfo>, start: seq<Block>): set<Block>
    requires li.Some? ==> LoopsOk(g, li.value)
  {
    set b | b in g.succ && Searched(g, li, start, b)
  }

  lemma SearchedStart(g: Cfg, li: Option<LoopInfo>, start: seq<Block>, b: Block)
    requires (li.Some? ==> LoopsOk(g, li.value)) && b in start
    ensures Searched(g, li, start, b)
  {
    assert Trail(g, li, start, [b], b);
  }

  lemma SearchedOn(g: Cfg, li: Option<LoopInfo>, start: seq<Block>, b: Block, c: Block)
    requires (li.Some? ==> LoopsOk(g, li.value)) && Searched(g, li, start, b) && GoesOn(g, li, b, c)
    ensures Searched(g, li, start, c)
  {
    var p :| Trail(g, li, start, p, b);
    assert Trail(g, li, start, p + [c], c);
  }

  /** A set that contains the start and what its blocks lead to contains every trail. */
  lemma {:induction false} TrailStays(g: Cfg, li: Option<LoopInfo>, start: seq<Block>, visited: set<Block>,
                                      stop: Block, p: seq<Block>, n: nat)
    requires (li.Some? ==> LoopsOk(g, li.value)) && Passed(g, li, visited, [], stop)
    requires (forall a :: a in start ==> a in visited) && n < |p| && Trail(g, li, start, p, p[|p| - 1])
    ensures p[n] in visited
    decreases n
  {
    if n > 0 {
      TrailStays(g, li, start, visited, stop, p, n - 1);
      assert GoesOn(g, li, p[n - 1], p[n - 1 + 1]);
    }
  }

  /** A search that ran out of blocks has visited its whole space. */
  lemma SpaceVisited(g: Cfg, li: Option<LoopInfo>, start: seq<Block>, visited: set<Block>, stop: Block)
    requires (li.Some? ==> LoopsOk(g, li.value)) && Passed(g, li, visited, [], stop)
    requires forall a :: a in start ==> a in visited
    ensures |Space(g, li, start)| <= |visited|
  {
    forall b | b in Space(g, li, start)
      ensures b in visited
    {
      var p :| Trail(g, li, start, p, b);
      TrailStays(g, li, start, visited, stop, p, |p| - 1);
    }
    Fewer(Space(g, li, start), visited);
  }

  lemma Fewer(a: set<Block>, b: set<Block>)
    requires a <= b
    ensures |a| <= |b|
  {
    assert b == a + (b - a);
  }

  /** Everything seen so far belongs to the space. */
  ghost predicate AllSearched(g: Cfg, li: Option<LoopInfo>, start: seq<Block>, visited: set<Block>, work: seq<Block>)
    requires li.Some? ==> LoopsOk(g, li.value)
  {
    forall b {:trigger Searched(g, li, start, b)} :: b in visited || b in work ==> Searched(g, li, start, b)
  }

  lemma SearchStarts(g: Cfg, li: Option<LoopInfo>, start: seq<Block>)
    requires li.Some? ==> LoopsOk(g, li.value)
    ensures AllSearched(g, li, start, {}, start)
  {
    forall b | b in start
      ensures Searched(g, li, start, b)
    {
      SearchedStart(g, li, start, b);
    }
  }

  lemma SearchGrows(g: Cfg, li: Option<LoopInfo>, start: seq<Block>, visited: set<Block>, work: seq<Block>, b: Block,
                    next: seq<Block>)
    requires (li.Some? ==> LoopsOk(g, li.value)) && b in visited && AllSearched(g, li, start, visited, work)
    requires forall c :: c in next ==> GoesOn(g, li, b, c)
    ensures AllSearched(g, li, start, visited, work + next)
  {
    forall c | c in next
      ensures Searched(g, li, start, c)
    {
      assert Searched(g, li, start, b);
      SearchedOn(g, li, start, b, c);
    }
  }

  lemma SpaceLarge(g: Cfg, li: Option<LoopInfo>, start: seq<Block>, visited: set<Block>, work: seq<Block>)
    requires (li.Some? ==> LoopsOk(g, li.value)) && AllSearched(g, li, start, visited, work) && visited <= g.succ.Keys
    ensures |visited| <= |Space(g, li, start)|
  {
    forall b | b in visited
      ensures b in Space(g, li, start)
    {
      assert Searched(g, li, start, b);
    }
    Fewer(visited, Space(g, li, start));
  }

  /** False means that no path leads from the start to `stop`. With exact dominators and connected
      loops, true means that there is one or that the search has at least as many blocks to visit as the limit. */
  method IsPotentiallyReachableFromMany(g: Cfg, start: seq<Block>, stop: Block, h: Hints) returns (r: bool)
    requires g.Valid() && h.Usable(g) && start != [] && stop in g.succ && forall a :: a in start ==> a in g.succ
    ensures FromSome(g, start, stop) ==> r
    ensures |Space(g, h.li, start)| >= 32 ==> r
    ensures h.Precise(g) ==> (r <==> FromSome(g, start, stop) || |Space(g, h.li, start)| >= 32)
  {
    var dt := if h.dt.Some? && stop !in h.dt.value.fromEntry then None else h.dt;
    var limit := LIMIT;
    var visited: set<Block> := {};
    var work := start;
    Starts(g, start);
    SearchStarts(g, h.li, start);
    while work != []
      invariant visited <= g.succ.Keys && (forall b :: b in work ==> b in g.succ)
      invariant limit > 0 && |visited| == LIMIT - limit
      invariant forall a :: a in start ==> a in visited || a in work
      invariant Passed(g, h.li, visited, work, stop)
      invariant AllSearched(g, h.li, start, visited, work)
      invariant h.Precise(g) ==> AllFromStart(g, start, visited, work)
      decreases g.succ.Keys - visited, |work|
    {
      var bb := work[|work| - 1];
      var rest := work[..|work| - 1];
      assert work == rest + [bb];
      work := rest;
      if bb !in visited {
        if Hit(dt, h.li, bb, stop) {
          if h.Precise(g) {
            assert FromSome(g, start, bb);
            HitReaches(g, h, start, bb, stop);
          }
          return true;
        }
        limit := limit - 1;
        if limit == 0 {
          SpaceLarge(g, h.li, start, visited + {bb}, rest);
          return true;
        }
        var next := NextBlocks(g, h.li, bb);
        PassedOn(g, h.li, visited, rest, bb, next, stop);
        visited := visited + {bb};
        SearchGrows(g, h.li, start, visited, rest, bb, next);
        if h.Precise(g) {
          WorkGrows(g, h, start, visited, rest, bb, next);
        }
        work := rest + next;
      }
    }
    NoneReaches(g, h.li, visited, start, stop);
    SpaceVisited(g, h.li, start, visited, stop);
    r := false;
  }

  /** In a graph of at most as many blocks as the limit, the answer is exact. */
  lemma SmallGraphsExact(g: Cfg, start: seq<Block>, stop: Block, h: Hints)
    requires g.Valid() && h.Usable(g) && h.Precise(g) && stop in g.succ && |g.succ| <= 32
    requires forall a :: a in start ==> a in g.succ
    ensures |Space(g, h.li, start)| >= 32 ==> FromSome(g, start, stop)
  {
    Fewer(Space(g, h.li, start), g.succ.Keys);
    assert |g.succ| == |g.succ.Keys|;
    if |Space(g, h.li, start)| >= 32 {
      SameSize(Space(g, h.li, start), g.succ.Keys);
      var p :| Trail(g, h.li, start, p, stop);
      TrailReaches(g, h, start, p, |p| - 1);
    }
  }

  lemma SameSize(a: set<Block>, b: set<Block>)
    requires a <= b && |a| >= |b|
    ensures a == b
  {
    assert b == a + (b - a);
  }

  lemma {:induction false} TrailReaches(g: Cfg, h: Hints, start: seq<Block>, p: seq<Block>, n: nat)
    requires g.Valid() && h.Usable(g) && h.Precise(g) && (forall a :: a in start ==> a in g.succ)
    requires n < |p| && Trail(g, h.li, start, p, p[|p| - 1])
    ensures p[n] in g.succ && FromSome(g, start, p[n])
    decreases n
  {
    if n > 0 {
      TrailReaches(g, h, start, p, n - 1);
      assert GoesOn(g, h.li, p[n - 1], p[n - 1 + 1]);
      GoOnReaches(g, h, start, p[n - 1], p[n]);
      GoesOnInside(g, h.li, p[n - 1], p[n]);
    } else {
      ReachesSelf(g, p[0]);
    }
  }

  lemma GoesOnInside(g: Cfg, li: Option<LoopInfo>, b: Block, c: Block)
    requires g.Valid() && (li.Some? ==> LoopsOk(g, li.value)) && GoesOn(g, li, b, c)
    ensures c in g.succ
  {
    if li.Some? && GetOutermostLoop(li.value, b).Some? {
      var body := li.value.loops[GetOutermostLoop(li.value, b).value].blocks;
      var e :| e in body && Edge(g, e, c);
    }
  }

  // ----- between instructions -----

  /** An instruction by its block and its place in it. */
  datatype Place = Place(block: Block, index: nat)

  /** Control can get from just before `a` to `b`: on within the block, or out of it and around. */
  ghost predicate PlaceReaches(g: Cfg, a: Place, b: Place) {
    (a.block == b.block && a.index <= b.index) || exists c :: Edge(g, a.block, c) && Reaches(g, c, b.block)
  }

  ghost predicate NothingEnters(g: Cfg, b: Block) {
    forall a {:trigger Edge(g, a, b)} :: !Edge(g, a, b)
  }

  lemma NoWayBack(g: Cfg, a: Block, c: Block)
    requires NothingEnters(g, g.entry) && Edge(g, a, c)
    ensures !Reaches(g, c, g.entry)
  {
    forall p
      ensures !PathFrom(g, p, c, g.entry)
    {
      if Path(g, p) && |p| > 1 { assert Edge(g, p[|p| - 2], p[|p| - 2 + 1]); }
    }
  }

  lemma NoPathOut(g: Cfg, a: Place, b: Place)
    requires a.block != b.block && !Reaches(g, a.block, b.block)
    ensures !PlaceReaches(g, a, b)
  {
    forall c
      ensures !(Edge(g, a.block, c) && Reaches(g, c, b.block))
    {
      if Edge(g, a.block, c) && Reaches(g, c, b.block) {
        ReachesSelf(g, a.block);
        ReachesOn(g, a.block, a.block, c);
        ReachesTrans(g, a.block, c, b.block);
      }
    }
  }

  /** Every block of a loop can be left and come back to. */
  ghost predicate LoopsTurn(g: Cfg, li: LoopInfo) {
    forall b :: b in li.loopFor ==> ComesBack(g, b)
  }

  ghost predicate ComesBack(g: Cfg, b: Block) {
    exists c :: Edge(g, b, c) && Reaches(g, c, b)
  }

  /** Where the search between two instructions starts. */
  function Onward(g: Cfg, a: Place, b: Place): seq<Block>
    requires a.block in g.succ
  {
    if a.block == b.block then g.succ[a.block] else [a.block]
  }

  lemma OnwardReaches(g: Cfg, a: Place, b: Place)
    requires a.block in g.succ
    ensures a.block != b.block || b.index < a.index ==>
      (PlaceReaches(g, a, b) <==> FromSome(g, Onward(g, a, b), b.block))
  {
    if a.block != b.block {
      if FromSome(g, [a.block], b.block) {
        var p :| PathFrom(g, p, a.block, b.block);
        assert Edge(g, p[0], p[0 + 1]);
        assert Path(g, p[1..]) by {
          forall i | 0 <= i && i + 1 < |p[1..]|
            ensures Edge(g, p[1..][i], p[1..][i + 1])
          {
            assert Edge(g, p[i + 1], p[i + 1 + 1]);
          }
        }
        assert PathFrom(g, p[1..], p[1], b.block);
        assert Reaches(g, p[1], b.block);
      } else {
        assert a.block in [a.block];
        NoPathOut(g, a, b);
      }
    } else {
      assert forall c :: c in g.succ[a.block] <==> Edge(g, a.block, c);
    }
  }

  /** Where the code answers yes without knowing: from the entry block to any other, and when there is
      too much to search. */
  ghost predicate AnsweredBlindly(g: Cfg, li: Option<LoopInfo>, a: Place, b: Place)
    requires a.block in g.succ && (li.Some? ==> LoopsOk(g, li.value))
  {
    b.block != g.entry && (a.block == g.entry || |Space(g, li, Onward(g, a, b))| >= 32)
  }

  /** Whether control can get from one instruction to another. The entry block has no predecessors. */
  method IsPotentiallyReachable(g: Cfg, sizes: map<Block, nat>, a: Place, b: Place, h: Hints) returns (r: bool)
    requires g.Valid() && h.Usable(g) && sizes.Keys == g.succ.Keys && NothingEnters(g, g.entry)
    requires a.block in g.succ && b.block in g.succ && a.index < sizes[a.block] && b.index < sizes[b.block]
    ensures PlaceReaches(g, a, b) ==> r
    ensures h.Precise(g) && (h.li.Some? ==> LoopsTurn(g, h.li.value)) ==>
      (r <==> PlaceReaches(g, a, b) || AnsweredBlindly(g, h.li, a, b))
  {
    OnwardReaches(g, a, b);
    var work: seq<Block> := [];
    if a.block == b.block {
      var bb := a.block;
      if h.li.Some? && bb in h.li.value.loopFor {
        assert LoopsTurn(g, h.li.value) ==> ComesBack(g, bb);
        return true;
      }
      var i := a.index;
      while i < sizes[bb]
        invariant a.index <= i <= sizes[bb] && !(a.index <= b.index < i)
      {
        if i == b.index {
          return true;
        }
        i := i + 1;
      }
      if bb == g.entry {
        forall c | Edge(g, bb, c) ensures !Reaches(g, c, bb) { NoWayBack(g, bb, c); }
        return false;
      }
      work := g.succ[bb];
      if work == [] {
        NothingToSearch(g, h.li);
        return false;
      }
      assert forall c :: c in work ==> Edge(g, bb, c);
    } else {
      work := [a.block];
    }
    if a.block == g.entry {
      return true;
    }
    if b.block == g.entry {
      forall c | Edge(g, a.block, c) ensures !Reaches(g, c, b.block) { NoWayBack(g, a.block, c); }
      return false;
    }
    r := IsPotentiallyReachableFromMany(g, work, b.block, h);
  }

  lemma NothingToSearch(g: Cfg, li: Option<LoopInfo>)
    requires li.Some? ==> LoopsOk(g, li.value)
    ensures Space(g, li, []) == {}
  {
  }
}
