/** The depth-first walk that finds the edges closing loops. */
module CFGBackedges {
  import opened CFGPaths
  import opened CFGSearch

  datatype Frame = Frame(block: Block, next: nat)

  /** A path in which no edge is among the reported ones. */
  ghost predicate PathWithout(g: Cfg, reported: seq<(Block, Block)>, p: seq<Block>) {
    Path(g, p) && forall i :: 0 <= i && i + 1 < |p| ==> (p[i], p[i + 1]) !in reported
  }

  /** Without the reported edges no reachable block lies on a cycle. */
  ghost predicate AcyclicWithout(g: Cfg, reported: seq<(Block, Block)>) {
    forall p :: |p| > 1 && Reaches(g, g.entry, p[0]) && PathWithout(g, reported, p) ==> p[|p| - 1] != p[0]
  }

  /** The reported edge closes a cycle through its source that the walk can get to. */
  ghost predicate ClosesCycle(g: Cfg, u: Block, v: Block) {
    Edge(g, u, v) && Reaches(g, g.entry, u) && Reaches(g, v, u)
  }

  predicate Apart(stack: seq<Frame>, i: int, j: int)
    requires 0 <= i < j < |stack|
  {
    stack[i].block != stack[j].block
  }

  /** Frame `k` has taken the edge to the frame above it last. */
  predicate Link(g: Cfg, stack: seq<Frame>, k: int)
    requires 0 <= k && k + 1 < |stack|
  {
    stack[k].block in g.succ && 0 < stack[k].next <= |g.succ[stack[k].block]| &&
    g.succ[stack[k].block][stack[k].next - 1] == stack[k + 1].block
  }

  /** The blocks on the stack form a path, each entered by the edge its predecessor took last. */
  ghost predicate StackOk(g: Cfg, stack: seq<Frame>) {
    (forall k :: 0 <= k < |stack| ==> stack[k].block in g.succ && stack[k].next <= |g.succ[stack[k].block]|) &&
    (forall k {:trigger Link(g, stack, k)} :: 0 <= k && k + 1 < |stack| ==> Link(g, stack, k)) &&
    (forall i, j {:trigger Apart(stack, i, j)} :: 0 <= i < j < |stack| ==> Apart(stack, i, j))
  }

  /** The blocks of the frames, from the entry on. */
  function Trail(stack: seq<Frame>): (t: seq<Block>)
    ensures |t| == |stack| && forall k :: 0 <= k < |t| ==> t[k] == stack[k].block
  {
    seq(|stack|, k requires 0 <= k < |stack| => stack[k].block)
  }

  ghost function Blocks(stack: seq<Frame>): set<Block> {
    set k | 0 <= k < |stack| :: stack[k].block
  }

  /** The edge from `u` to `v` has been dealt with: it is reported, or `v` was finished before. */
  ghost predicate EdgeDone(rank: map<Block, int>, reported: seq<(Block, Block)>, u: Block, v: Block, bound: int) {
    (u, v) in reported || (v in rank && rank[v] < bound)
  }

  /** Finished blocks are ranked in the order in which they were finished. */
  ghost predicate RanksOk(g: Cfg, rank: map<Block, int>, reported: seq<(Block, Block)>) {
    (forall u :: u in rank ==> rank[u] < |rank|) &&
    forall u, v {:trigger Edge(g, u, v)} :: u in rank && Edge(g, u, v) ==> EdgeDone(rank, reported, u, v, rank[u])
  }

  /** How many edges of frame `k` are closed: all it has taken, but for the one to the frame above. */
  function Closed(stack: seq<Frame>, k: nat): int
    requires k < |stack|
  {
    if k + 1 < |stack| then stack[k].next - 1 else stack[k].next
  }

  ghost predicate FrameOk(g: Cfg, rank: map<Block, int>, reported: seq<(Block, Block)>, stack: seq<Frame>, k: int)
    requires 0 <= k < |stack| && stack[k].block in g.succ && stack[k].next <= |g.succ[stack[k].block]|
  {
    forall j :: 0 <= j < Closed(stack, k) ==>
      EdgeDone(rank, reported, stack[k].block, g.succ[stack[k].block][j], |rank|)
  }

  ghost predicate FramesOk(g: Cfg, rank: map<Block, int>, reported: seq<(Block, Block)>, stack: seq<Frame>)
    requires StackOk(g, stack)
  {
    forall k {:trigger FrameOk(g, rank, reported, stack, k)} ::
      0 <= k < |stack| ==> FrameOk(g, rank, reported, stack, k)
  }

  ghost predicate ReportsOk(g: Cfg, visited: set<Block>, reported: seq<(Block, Block)>) {
    (forall e :: e in reported ==> e.0 in visited && e.1 in visited) &&
    (forall e {:trigger ClosesCycle(g, e.0, e.1)} :: e in reported ==> ClosesCycle(g, e.0, e.1))
  }

  ghost predicate AllReached(g: Cfg, visited: set<Block>) {
    forall v {:trigger Reaches(g, g.entry, v)} :: v in visited ==> Reaches(g, g.entry, v)
  }

  /** `visited` is split into the blocks on the stack and the finished ones. */
  ghost predicate WalkOk(g: Cfg, visited: set<Block>, stack: seq<Frame>, inStack: set<Block>, rank: map<Block, int>,
                         reported: seq<(Block, Block)>) {
    g.Valid() && g.entry in visited && visited <= g.succ.Keys && inStack == Blocks(stack) && inStack <= visited &&
    rank.Keys == visited - inStack &&
    StackOk(g, stack) && FramesOk(g, rank, reported, stack) && RanksOk(g, rank, reported) &&
    AllReached(g, visited) && ReportsOk(g, visited, reported)
  }

  /** Blocks further down the stack reach those above them. */
  lemma {:induction false} StackPath(g: Cfg, stack: seq<Frame>, i: nat, j: nat)
    requires StackOk(g, stack) && i <= j < |stack|
    ensures Reaches(g, stack[i].block, stack[j].block)
    decreases j
  {
    if i == j {
      ReachesSelf(g, stack[i].block);
    } else {
      StackPath(g, stack, i, j - 1);
      assert Link(g, stack, j - 1);
      assert Edge(g, stack[j - 1].block, stack[j].block);
      ReachesOn(g, stack[i].block, stack[j - 1].block, stack[j].block);
    }
  }

  function Advance(stack: seq<Frame>): seq<Frame>
    requires |stack| > 0
  {
    var top := stack[|stack| - 1];
    stack[..|stack| - 1] + [Frame(top.block, top.next + 1)]
  }

  predicate CanTake(g: Cfg, stack: seq<Frame>) {
    |stack| > 0 && var top := stack[|stack| - 1]; top.block in g.succ && top.next < |g.succ[top.block]|
  }

  /** The edge the block on top takes next. */
  function Target(g: Cfg, stack: seq<Frame>): Block
    requires CanTake(g, stack)
  {
    g.succ[stack[|stack| - 1].block][stack[|stack| - 1].next]
  }

  lemma AdvanceFacts(g: Cfg, stack: seq<Frame>)
    requires StackOk(g, stack) && CanTake(g, stack)
    ensures StackOk(g, Advance(stack)) && Blocks(Advance(stack)) == Blocks(stack)
    ensures Edge(g, stack[|stack| - 1].block, Target(g, stack))
  {
    var s := Advance(stack);
    assert forall k :: 0 <= k < |stack| ==> s[k].block == stack[k].block;
    assert forall i, j :: 0 <= i < j < |stack| && Apart(stack, i, j) ==> Apart(s, i, j);
    forall k | 0 <= k && k + 1 < |s|
      ensures Link(g, s, k)
    {
      assert Link(g, stack, k);
    }
  }

  /** What was dealt with stays so when more is reported or finished. */
  lemma FramesStay(g: Cfg, rank: map<Block, int>, reported: seq<(Block, Block)>, stack: seq<Frame>,
                   rank': map<Block, int>, reported': seq<(Block, Block)>, stack': seq<Frame>, k: int)
    requires StackOk(g, stack) && StackOk(g, stack') && FramesOk(g, rank, reported, stack)
    requires 0 <= k < |stack| && k < |stack'| && stack[k].block == stack'[k].block
    requires reported <= reported' && |rank| <= |rank'|
    requires forall v :: v in rank ==> v in rank' && rank'[v] == rank[v]
    requires Closed(stack', k) <= Closed(stack, k) ||
      (Closed(stack', k) == Closed(stack, k) + 1 && 0 <= Closed(stack, k) < |g.succ[stack[k].block]| &&
      EdgeDone(rank', reported', stack[k].block, g.succ[stack[k].block][Closed(stack, k)], |rank'|))
    ensures FrameOk(g, rank', reported', stack', k)
  {
    assert FrameOk(g, rank, reported, stack, k);
    forall j | 0 <= j < Closed(stack', k)
      ensures EdgeDone(rank', reported', stack'[k].block, g.succ[stack'[k].block][j], |rank'|)
    {
      if j < Closed(stack, k) {
        var e := (stack[k].block, g.succ[stack[k].block][j]);
        assert EdgeDone(rank, reported, e.0, e.1, |rank|);
        Longer(reported, reported', e);
      }
    }
  }

  lemma Longer<T>(s: seq<T>, t: seq<T>, x: T)
    requires s <= t
    ensures x in s ==> x in t
  {
    if x in s {
      var i :| 0 <= i < |s| && s[i] == x;
      assert t[i] == x;
    }
  }

  /** An edge back to a block on the stack closes a cycle. */
  lemma BackedgeCloses(g: Cfg, visited: set<Block>, stack: seq<Frame>, inStack: set<Block>, rank: map<Block, int>,
                       reported: seq<(Block, Block)>)
    requires WalkOk(g, visited, stack, inStack, rank, reported) && CanTake(g, stack) && Target(g, stack) in inStack
    ensures stack[|stack| - 1].block in visited && ClosesCycle(g, stack[|stack| - 1].block, Target(g, stack))
  {
    var n := |stack| - 1;
    AdvanceFacts(g, stack);
    var i :| 0 <= i < |stack| && stack[i].block == Target(g, stack);
    StackPath(g, stack, i, n);
    assert stack[n].block in Blocks(stack);
  }

  lemma FrameTaken(g: Cfg, stack: seq<Frame>, rank: map<Block, int>, reported: seq<(Block, Block)>,
                   reported': seq<(Block, Block)>, k: nat)
    requires StackOk(g, stack) && CanTake(g, stack) && FramesOk(g, rank, reported, stack) && StackOk(g, Advance(stack))
    requires reported <= reported' && k < |stack|
    requires EdgeDone(rank, reported', stack[|stack| - 1].block, Target(g, stack), |rank|)
    ensures FrameOk(g, rank, reported', Advance(stack), k)
  {
    FramesStay(g, rank, reported, stack, rank, reported', Advance(stack), k);
  }

  /** The edge just taken is dealt with, if it has been reported or leads to a finished block. */
  lemma TakeOk(g: Cfg, visited: set<Block>, stack: seq<Frame>, inStack: set<Block>, rank: map<Block, int>,
               reported: seq<(Block, Block)>, reported': seq<(Block, Block)>)
    requires WalkOk(g, visited, stack, inStack, rank, reported) && CanTake(g, stack)
    requires reported <= reported' && ReportsOk(g, visited, reported')
    requires EdgeDone(rank, reported', stack[|stack| - 1].block, Target(g, stack), |rank|)
    ensures WalkOk(g, visited, Advance(stack), inStack, rank, reported')
  {
    AdvanceFacts(g, stack);
    var s := Advance(stack);
    forall k | 0 <= k < |s|
      ensures FrameOk(g, rank, reported', s, k)
    {
      FrameTaken(g, stack, rank, reported, reported', k);
    }
    RanksStay(g, rank, reported, reported');
  }

  /** An edge back to a block on the stack is reported. */
  lemma ReportOk(g: Cfg, visited: set<Block>, stack: seq<Frame>, inStack: set<Block>, rank: map<Block, int>,
                 reported: seq<(Block, Block)>)
    requires WalkOk(g, visited, stack, inStack, rank, reported) && CanTake(g, stack) && Target(g, stack) in inStack
    ensures WalkOk(g, visited, Advance(stack), inStack, rank, reported + [(stack[|stack| - 1].block, Target(g, stack))])
  {
    BackedgeCloses(g, visited, stack, inStack, rank, reported);
    TakeOk(g, visited, stack, inStack, rank, reported, reported + [(stack[|stack| - 1].block, Target(g, stack))]);
  }

  /** An edge to a finished block is passed over. */
  lemma SkipOk(g: Cfg, visited: set<Block>, stack: seq<Frame>, inStack: set<Block>, rank: map<Block, int>,
               reported: seq<(Block, Block)>)
    requires WalkOk(g, visited, stack, inStack, rank, reported) && CanTake(g, stack)
    requires Target(g, stack) in visited && Target(g, stack) !in inStack
    ensures WalkOk(g, visited, Advance(stack), inStack, rank, reported)
  {
    TakeOk(g, visited, stack, inStack, rank, reported, reported);
  }

  lemma TakenOk(g: Cfg, visited: set<Block>, stack: seq<Frame>, inStack: set<Block>, rank: map<Block, int>,
                reported: seq<(Block, Block)>)
    requires WalkOk(g, visited, stack, inStack, rank, reported) && CanTake(g, stack) && Target(g, stack) in visited
    ensures WalkOk(g, visited, Advance(stack), inStack, rank,
                   if Target(g, stack) in inStack
                   then reported + [(stack[|stack| - 1].block, Target(g, stack))]
                   else reported)
  {
    if Target(g, stack) in inStack {
      ReportOk(g, visited, stack, inStack, rank, reported);
    } else {
      SkipOk(g, visited, stack, inStack, rank, reported);
    }
  }

  lemma RanksStay(g: Cfg, rank: map<Block, int>, reported: seq<(Block, Block)>, reported': seq<(Block, Block)>)
    requires RanksOk(g, rank, reported) && reported <= reported'
    ensures RanksOk(g, rank, reported')
  {
    forall a, b {:trigger Edge(g, a, b)} | a in rank && Edge(g, a, b)
      ensures EdgeDone(rank, reported', a, b, rank[a])
    {
      Longer(reported, reported', (a, b));
    }
  }

  lemma PushFacts(g: Cfg, stack: seq<Frame>, v: Block)
    requires StackOk(g, stack) && CanTake(g, stack) && v == Target(g, stack) && v in g.succ && v !in Blocks(stack)
    ensures StackOk(g, Advance(stack) + [Frame(v, 0)]) && Blocks(Advance(stack) + [Frame(v, 0)]) == Blocks(stack) + {v}
  {
    AdvanceFacts(g, stack);
    var t := Advance(stack);
    var s := t + [Frame(v, 0)];
    assert forall k :: 0 <= k < |t| ==> s[k] == t[k];
    assert s[|t|].block == v;
    assert forall k :: 0 <= k < |t| ==> t[k].block in Blocks(t);
    forall i, j | 0 <= i < j < |s|
      ensures Apart(s, i, j)
    {
      if j < |t| { assert Apart(t, i, j); }
    }
    forall k | 0 <= k && k + 1 < |s|
      ensures Link(g, s, k)
    {
      if k + 1 < |t| { assert Link(g, t, k); }
    }
  }

  lemma PushFrames(g: Cfg, rank: map<Block, int>, reported: seq<(Block, Block)>, stack: seq<Frame>, s: seq<Frame>,
                   v: Block)
    requires StackOk(g, stack) && FramesOk(g, rank, reported, stack) && CanTake(g, stack)
    requires s == Advance(stack) + [Frame(v, 0)] && StackOk(g, s)
    ensures FramesOk(g, rank, reported, s)
  {
    forall k | 0 <= k < |s|
      ensures FrameOk(g, rank, reported, s, k)
    {
      if k < |stack| {
        FramesStay(g, rank, reported, stack, rank, reported, s, k);
      }
    }
  }

  lemma ReachedMore(g: Cfg, visited: set<Block>, u: Block, v: Block)
    requires AllReached(g, visited) && u in visited && Edge(g, u, v)
    ensures AllReached(g, visited + {v})
  {
    ReachesOn(g, g.entry, u, v);
  }

  /** A new block goes onto the stack. */
  lemma PushOk(g: Cfg, visited: set<Block>, stack: seq<Frame>, inStack: set<Block>, rank: map<Block, int>,
               reported: seq<(Block, Block)>)
    requires WalkOk(g, visited, stack, inStack, rank, reported) && CanTake(g, stack) && Target(g, stack) !in visited
    ensures var v := Target(g, stack);
      WalkOk(g, visited + {v}, Advance(stack) + [Frame(v, 0)], inStack + {v}, rank, reported)
  {
    var u, v := stack[|stack| - 1].block, Target(g, stack);
    AdvanceFacts(g, stack);
    assert u in Blocks(stack);
    ReachedMore(g, visited, u, v);
    PushFacts(g, stack, v);
    PushFrames(g, rank, reported, stack, Advance(stack) + [Frame(v, 0)], v);
  }

  lemma PopFacts(g: Cfg, stack: seq<Frame>)
    requires StackOk(g, stack) && |stack| > 0
    ensures StackOk(g, stack[..|stack| - 1]) &&
      Blocks(stack[..|stack| - 1]) == Blocks(stack) - {stack[|stack| - 1].block}
  {
    var n := |stack| - 1;
    var s := stack[..n];
    assert forall i, j :: 0 <= i < j < |s| && Apart(stack, i, j) ==> Apart(s, i, j);
    assert forall k :: 0 <= k && k + 1 < |s| && Link(g, stack, k) ==> Link(g, s, k);
    forall b
      ensures b in Blocks(s) <==> b in Blocks(stack) && b != stack[n].block
    {
      if b in Blocks(stack) && b != stack[n].block {
        var k :| 0 <= k < |stack| && stack[k].block == b;
        assert s[k].block == b;
      }
      if b in Blocks(s) {
        var k :| 0 <= k < |s| && s[k].block == b;
        assert Apart(stack, k, n) && stack[k].block == b;
      }
    }
  }

  /** A block all of whose edges have been taken is finished, and gets the next rank. */
  lemma PopOk(g: Cfg, visited: set<Block>, stack: seq<Frame>, inStack: set<Block>, rank: map<Block, int>,
              reported: seq<(Block, Block)>)
    requires WalkOk(g, visited, stack, inStack, rank, reported) && |stack| > 0 && !CanTake(g, stack)
    ensures var u := stack[|stack| - 1].block;
      WalkOk(g, visited, stack[..|stack| - 1], inStack - {u}, rank[u := |rank|], reported)
  {
    var n := |stack| - 1;
    var u := stack[n].block;
    var s, r := stack[..n], rank[u := |rank|];
    PopFacts(g, stack);
    assert u in Blocks(stack);
    assert |r| == |rank| + 1;
    FinishOk(g, rank, reported, stack, r);
    PopFrames(g, rank, reported, stack, s, r);
  }

  lemma PopFrames(g: Cfg, rank: map<Block, int>, reported: seq<(Block, Block)>, stack: seq<Frame>, s: seq<Frame>,
                  r: map<Block, int>)
    requires StackOk(g, stack) && FramesOk(g, rank, reported, stack) && |stack| > 0 && s == stack[..|stack| - 1] &&
      StackOk(g, s)
    requires var u := stack[|stack| - 1].block; u !in rank && r == rank[u := |rank|] && |r| == |rank| + 1
    ensures FramesOk(g, r, reported, s)
  {
    var u := stack[|stack| - 1].block;
    forall k | 0 <= k < |s|
      ensures FrameOk(g, r, reported, s, k)
    {
      if k == |s| - 1 {
        assert Link(g, stack, k);
        assert EdgeDone(r, reported, stack[k].block, u, |r|);
      }
      FramesStay(g, rank, reported, stack, r, reported, s, k);
    }
  }

  lemma FinishOk(g: Cfg, rank: map<Block, int>, reported: seq<(Block, Block)>, stack: seq<Frame>, r: map<Block, int>)
    requires RanksOk(g, rank, reported) && StackOk(g, stack) && FramesOk(g, rank, reported, stack)
    requires |stack| > 0 && !CanTake(g, stack)
    requires var u := stack[|stack| - 1].block; u !in rank && r == rank[u := |rank|] && |r| == |rank| + 1
    ensures RanksOk(g, r, reported)
  {
    var n := |stack| - 1;
    var u := stack[n].block;
    assert FrameOk(g, rank, reported, stack, n);
    forall a, b {:trigger Edge(g, a, b)} | a in r && Edge(g, a, b)
      ensures EdgeDone(r, reported, a, b, r[a])
    {
      if a == u {
        var j :| 0 <= j < |g.succ[u]| && g.succ[u][j] == b;
        assert EdgeDone(rank, reported, u, g.succ[u][j], |rank|);
      } else {
        assert EdgeDone(rank, reported, a, b, rank[a]);
      }
    }
  }

  lemma StartOk(g: Cfg)
    requires g.Valid()
    ensures WalkOk(g, {g.entry}, [Frame(g.entry, 0)], {g.entry}, map[], [])
  {
    ReachesSelf(g, g.entry);
    var s := [Frame(g.entry, 0)];
    assert s[0].block == g.entry;
    assert FrameOk(g, map[], [], s, 0);
  }

  /** When the stack is empty, everything reachable has been finished, and ranks fall along
      every edge that was not reported. */
  lemma Finished(g: Cfg, visited: set<Block>, rank: map<Block, int>, reported: seq<(Block, Block)>)
    requires WalkOk(g, visited, [], {}, rank, reported)
    ensures forall b :: b in visited <==> Reaches(g, g.entry, b)
    ensures AcyclicWithout(g, reported)
  {
    forall b | Reaches(g, g.entry, b)
      ensures b in visited
    {
      var p :| PathFrom(g, p, g.entry, b);
      forall x, y {:trigger Edge(g, x, y)} | x in visited && Edge(g, x, y)
        ensures y in visited
      {
        assert EdgeDone(rank, reported, x, y, rank[x]);
      }
      ClosedUnderPaths(g, visited, p);
    }
    forall p | |p| > 1 && Reaches(g, g.entry, p[0]) && PathWithout(g, reported, p)
      ensures p[|p| - 1] != p[0]
    {
      RanksFall(g, rank, reported, p, |p| - 1);
    }
  }

  lemma {:induction false} RanksFall(g: Cfg, rank: map<Block, int>, reported: seq<(Block, Block)>, p: seq<Block>,
                                     n: nat)
    requires RanksOk(g, rank, reported) && PathWithout(g, reported, p) && n < |p| && p[0] in rank
    ensures p[n] in rank && (n > 0 ==> rank[p[n]] < rank[p[0]])
    decreases n
  {
    if n > 0 {
      RanksFall(g, rank, reported, p, n - 1);
      assert Edge(g, p[n - 1], p[n - 1 + 1]) && (p[n - 1], p[n - 1 + 1]) !in reported;
      assert EdgeDone(rank, reported, p[n - 1], p[n], rank[p[n - 1]]);
    }
  }

  /** The walk with the search that it makes. */
  ghost predicate Searching(g: Cfg, visited: set<Block>, stack: seq<Frame>, inStack: set<Block>,
                            rank: map<Block, int>, reported: seq<(Block, Block)>, s: Search) {
    WalkOk(g, visited, stack, inStack, rank, reported) && SearchOk(g, s, Trail(stack), reported) &&
    (forall b :: b in s.order <==> b in visited) && CountsOk(g, s, stack, reported) &&
    (stack != [] ==> stack[0].block == g.entry)
  }

  /** Of the edges taken so far, just those are reported that lead up. */
  ghost predicate CountsOk(g: Cfg, s: Search, stack: seq<Frame>, reported: seq<(Block, Block)>) {
    (forall k {:trigger TopTaken(g, stack[k])} :: 0 <= k < |stack| ==>
       Counts(s, reported, stack[k].block, TopTaken(g, stack[k]))) &&
    (forall u {:trigger Counts(s, reported, u, Succ(g, u))} :: u in s.order && u !in Trail(stack) ==>
       Counts(s, reported, u, Succ(g, u))) &&
    forall u {:trigger Counts(s, reported, u, [])} :: u !in s.order ==> Counts(s, reported, u, [])
  }

  /** The blocks that the edges taken from a frame lead to. */
  function TopTaken(g: Cfg, f: Frame): seq<Block> {
    var all := Succ(g, f.block);
    if f.next <= |all| then all[..f.next] else all
  }

  /** Takes the edges of the block on top until one leads to a new block, or none is left. */
  method TakeEdges(g: Cfg, visited: set<Block>, stack: seq<Frame>, inStack: set<Block>, reported: seq<(Block, Block)>,
                   ghost rank: map<Block, int>, ghost s: Search)
    returns (stack': seq<Frame>, reported': seq<(Block, Block)>, foundNew: bool)
    requires Searching(g, visited, stack, inStack, rank, reported, s) && stack != []
    ensures Searching(g, visited, stack', inStack, rank, reported', s) && |stack'| == |stack|
    ensures if foundNew then CanTake(g, stack') && Target(g, stack') !in visited else !CanTake(g, stack')
  {
    stack', reported', foundNew := stack, reported, false;
    while CanTake(g, stack')
      invariant Searching(g, visited, stack', inStack, rank, reported', s) && |stack'| == |stack|
      decreases EdgesLeft(g, stack')
    {
      if Target(g, stack') !in visited {
        foundNew := true;
        return;
      }
      WalkTakes(g, s, visited, stack', inStack, rank, reported');
      if Target(g, stack') in inStack {
        reported' := reported' + [(stack'[|stack'| - 1].block, Target(g, stack'))];
      }
      stack' := Advance(stack');
    }
  }

  function EdgesLeft(g: Cfg, stack: seq<Frame>): int {
    if CanTake(g, stack) then |g.succ[stack[|stack| - 1].block]| - stack[|stack| - 1].next else 0
  }

  /** Without the reported edges there is a way from `a` to `b`. */
  ghost predicate ReachesWithout(g: Cfg, reported: seq<(Block, Block)>, a: Block, b: Block) {
    exists p :: PathWithout(g, reported, p) && p[0] == a && p[|p| - 1] == b
  }

  /** In a depth-first search that follows the successors in their order, the reported edges are those that lead up
      in its tree, to the block itself or to an ancestor. Without them no reachable block lies on a cycle; but there
      still is a way to each block that can be reached, and from the target of each of them to its source. */
  ghost predicate BackedgesOf(g: Cfg, s: Search, reported: seq<(Block, Block)>) {
    && DepthFirst(g, s) && (forall b :: b in s.order <==> Reaches(g, g.entry, b))
    && (forall u :: u in s.order ==> Counts(s, reported, u, Succ(g, u)))
    && (forall u, v :: (u, v) in reported ==> u in s.order)
    && AcyclicWithout(g, reported)
    && (forall b :: Reaches(g, g.entry, b) ==> ReachesWithout(g, reported, g.entry, b))
    && (forall u, v :: (u, v) in reported ==> ReachesWithout(g, reported, v, u))
  }

  /** Reports the loop-closing edges. */
  method FindFunctionBackedges(g: Cfg) returns (result: seq<(Block, Block)>, ghost search: Search)
    requires g.Valid()
    ensures BackedgesOf(g, search, result)
  {
    result, search := [], Search([g.entry], map[]);
    var bb := g.entry;
    if |g.succ[bb]| == 0 {
      NoWayOut(g, search);
      return;
    }
    var visited := {bb};
    var visitStack := [Frame(bb, 0)];
    var inStack := {bb};
    ghost var rank: map<Block, int> := map[];
    WalkStarts(g);
    while visitStack != []
      invariant Searching(g, visited, visitStack, inStack, rank, result, search)
      decreases g.succ.Keys - visited, |visitStack|
    {
      var foundNew;
      visitStack, result, foundNew := TakeEdges(g, visited, visitStack, inStack, result, rank, search);
      if foundNew {
        search := WalkEnters(g, search, visited, visitStack, inStack, rank, result);
        bb := Target(g, visitStack);
        visited := visited + {bb};
        inStack := inStack + {bb};
        visitStack := Advance(visitStack) + [Frame(bb, 0)];
      } else {
        WalkLeaves(g, search, visited, visitStack, inStack, rank, result);
        var parent := visitStack[|visitStack| - 1].block;
        inStack := inStack - {parent};
        visitStack := visitStack[..|visitStack| - 1];
        rank := rank[parent := |rank|];
      }
    }
    WalkFinished(g, search, visited, inStack, rank, result);
  }

  // ----- the search the walk makes -----

  lemma SearchTakes(g: Cfg, s: Search, stack: seq<Frame>, reported: seq<(Block, Block)>)
    requires StackOk(g, stack) && CanTake(g, stack) && SearchOk(g, s, Trail(stack), reported)
    ensures Trail(Advance(stack)) == Trail(stack)
    ensures Target(g, stack) in Blocks(stack) ==>
      SearchOk(g, s, Trail(stack), reported + [(stack[|stack| - 1].block, Target(g, stack))])
  {
    if Target(g, stack) in Blocks(stack) {
      var k :| 0 <= k < |stack| && stack[k].block == Target(g, stack);
      SearchReports(g, s, Trail(stack), reported, k);
    }
  }

  /** Where the edges lead that the block on top has taken is known. */
  lemma TakenVisited(g: Cfg, visited: set<Block>, stack: seq<Frame>, inStack: set<Block>, rank: map<Block, int>,
                     reported: seq<(Block, Block)>, j: nat)
    requires WalkOk(g, visited, stack, inStack, rank, reported) && stack != [] && j < stack[|stack| - 1].next
    ensures g.succ[stack[|stack| - 1].block][j] in visited
  {
    var n := |stack| - 1;
    assert FrameOk(g, rank, reported, stack, n);
    assert EdgeDone(rank, reported, stack[n].block, g.succ[stack[n].block][j], |rank|);
  }

  lemma CountsTaken(g: Cfg, s: Search, stack: seq<Frame>, reported: seq<(Block, Block)>, inStack: set<Block>)
    requires StackOk(g, stack) && CanTake(g, stack) && CountsOk(g, s, stack, reported) && inStack == Blocks(stack)
    requires Target(g, stack) in inStack <==> Above(s.parent, Target(g, stack), stack[|stack| - 1].block)
    requires stack[|stack| - 1].block in s.order
    ensures CountsOk(g, s, Advance(stack),
                     if Target(g, stack) in inStack
                     then reported + [(stack[|stack| - 1].block, Target(g, stack))]
                     else reported)
  {
    var n := |stack| - 1;
    var u, v, up := stack[n].block, Target(g, stack), Target(g, stack) in inStack;
    var a, r := Advance(stack), if up then reported + [(u, v)] else reported;
    assert Trail(a) == Trail(stack);
    forall k {:trigger TopTaken(g, a[k])} | 0 <= k < |a|
      ensures Counts(s, r, a[k].block, TopTaken(g, a[k]))
    {
      assert Counts(s, reported, stack[k].block, TopTaken(g, stack[k]));
      if k < n {
        assert Apart(stack, k, n);
        if up { CountsOthers(s, reported, stack[k].block, TopTaken(g, stack[k]), u, v); }
      } else {
        CountsTake(s, reported, u, TopTaken(g, stack[n]), v, up);
        assert TopTaken(g, a[n]) == TopTaken(g, stack[n]) + [v];
      }
    }
    forall x {:trigger Counts(s, r, x, Succ(g, x))} | x in s.order && x !in Trail(a)
      ensures Counts(s, r, x, Succ(g, x))
    {
      assert Counts(s, reported, x, Succ(g, x)) && x != Trail(stack)[n];
      if up { CountsOthers(s, reported, x, Succ(g, x), u, v); }
    }
    forall x {:trigger Counts(s, r, x, [])} | x !in s.order
      ensures Counts(s, r, x, [])
    {
      assert Counts(s, reported, x, []);
      if up { CountsOthers(s, reported, x, [], u, v); }
    }
  }

  lemma WalkTakes(g: Cfg, s: Search, visited: set<Block>, stack: seq<Frame>, inStack: set<Block>,
                  rank: map<Block, int>, reported: seq<(Block, Block)>)
    requires Searching(g, visited, stack, inStack, rank, reported, s) && CanTake(g, stack)
    requires Target(g, stack) in visited
    ensures Searching(g, visited, Advance(stack), inStack, rank,
                      if Target(g, stack) in inStack
                      then reported + [(stack[|stack| - 1].block, Target(g, stack))]
                      else reported, s)
  {
    TakenOk(g, visited, stack, inStack, rank, reported);
    SearchTakes(g, s, stack, reported);
    UpIsOnStack(g, s, stack, reported);
    CountsTaken(g, s, stack, reported, inStack);
  }

  /** Of the known blocks just those on the stack are above the one on top. */
  lemma UpIsOnStack(g: Cfg, s: Search, stack: seq<Frame>, reported: seq<(Block, Block)>)
    requires CanTake(g, stack) && SearchOk(g, s, Trail(stack), reported) && stack[0].block == g.entry
    ensures Target(g, stack) in Blocks(stack) <==> Above(s.parent, Target(g, stack), stack[|stack| - 1].block)
    ensures stack[|stack| - 1].block in s.order
  {
    var n, v := |stack| - 1, Target(g, stack);
    assert Trail(stack)[n] == stack[n].block;
    if v in Blocks(stack) {
      var k :| 0 <= k < |stack| && stack[k].block == v;
      StackAbove(s, Trail(stack), k, n);
    }
    if Above(s.parent, v, stack[n].block) {
      var q :| TreePathFrom(s.parent, q, v, stack[n].block);
      AboveOnStack(g, s, Trail(stack), q, n);
      var k :| 0 <= k < |stack| && Trail(stack)[k] == v;
      assert stack[k].block == v;
    }
  }

  lemma WalkStarts(g: Cfg)
    requires g.Valid()
    ensures Searching(g, {g.entry}, [Frame(g.entry, 0)], {g.entry}, map[], [], Search([g.entry], map[]))
  {
    StartOk(g);
    SearchStarts(g);
    assert Trail([Frame(g.entry, 0)]) == [g.entry];
    assert TopTaken(g, Frame(g.entry, 0)) == [];
  }

  lemma WalkEnters(g: Cfg, s: Search, visited: set<Block>, stack: seq<Frame>, inStack: set<Block>,
                   rank: map<Block, int>, reported: seq<(Block, Block)>)
    returns (t: Search)
    requires Searching(g, visited, stack, inStack, rank, reported, s)
    requires CanTake(g, stack) && Target(g, stack) !in visited
    ensures var v := Target(g, stack);
      Searching(g, visited + {v}, Advance(stack) + [Frame(v, 0)], inStack + {v}, rank, reported, t)
  {
    PushOk(g, visited, stack, inStack, rank, reported);
    KnownBefore(g, s, visited, stack, inStack, rank, reported);
    t := Pushed(g, s, stack, reported);
    CountsEntered(g, s, stack, reported);
  }

  lemma CountsEntered(g: Cfg, s: Search, stack: seq<Frame>, reported: seq<(Block, Block)>)
    requires StackOk(g, stack) && CanTake(g, stack) && CountsOk(g, s, stack, reported)
    requires SearchOk(g, s, Trail(stack), reported) && Target(g, stack) !in s.order
    ensures CountsOk(g, Deeper(s, stack[|stack| - 1].block, Target(g, stack)),
                     Advance(stack) + [Frame(Target(g, stack), 0)], reported)
  {
    var n := |stack| - 1;
    var u, v := stack[n].block, Target(g, stack);
    var t, a := Deeper(s, u, v), Advance(stack) + [Frame(v, 0)];
    NoChildOfNew(g, s, v);
    assert Trail(stack)[n] == u && u != v;
    forall k {:trigger TopTaken(g, a[k])} | 0 <= k < |a|
      ensures Counts(t, reported, a[k].block, TopTaken(g, a[k]))
    {
      CountsEnteredAt(g, s, stack, reported, k);
    }
    forall x {:trigger Counts(t, reported, x, Succ(g, x))} | x in t.order && x !in Trail(a)
      ensures Counts(t, reported, x, Succ(g, x))
    {
      assert Trail(a) == Trail(stack) + [v] && Trail(a)[n + 1] == v;
      assert Counts(s, reported, x, Succ(g, x));
      CountsKept(s, u, v, reported, x, Succ(g, x));
    }
    forall x {:trigger Counts(t, reported, x, [])} | x !in t.order
      ensures Counts(t, reported, x, [])
    {
      assert Counts(s, reported, x, []) && x != v;
      CountsKept(s, u, v, reported, x, []);
    }
  }

  lemma CountsEnteredAt(g: Cfg, s: Search, stack: seq<Frame>, reported: seq<(Block, Block)>, k: nat)
    requires StackOk(g, stack) && CanTake(g, stack) && CountsOk(g, s, stack, reported)
    requires SearchOk(g, s, Trail(stack), reported) && Target(g, stack) !in s.order
    requires k <= |stack|
    ensures var t := Deeper(s, stack[|stack| - 1].block, Target(g, stack));
      var a := Advance(stack) + [Frame(Target(g, stack), 0)];
      Counts(t, reported, a[k].block, TopTaken(g, a[k]))
  {
    var n := |stack| - 1;
    var u, v := stack[n].block, Target(g, stack);
    NoChildOfNew(g, s, v);
    assert Trail(stack)[n] == u && u != v;
    if k < n {
      assert Trail(stack)[k] == stack[k].block;
      assert Counts(s, reported, stack[k].block, TopTaken(g, stack[k]));
      CountsKept(s, u, v, reported, stack[k].block, TopTaken(g, stack[k]));
    } else if k == n {
      assert Counts(s, reported, u, TopTaken(g, stack[n]));
      CountsKept(s, u, v, reported, u, TopTaken(g, stack[n]));
      NewNotAbove(g, s, u, v);
      assert TopTaken(g, Advance(stack)[n]) == TopTaken(g, stack[n]) + [v];
      CountsDown(Deeper(s, u, v), reported, u, TopTaken(g, stack[n]), v);
    } else {
      assert Counts(s, reported, v, []);
      NoneReported(Deeper(s, u, v), s, reported, v);
      assert TopTaken(g, Frame(v, 0)) == [];
    }
  }

  lemma WalkLeaves(g: Cfg, s: Search, visited: set<Block>, stack: seq<Frame>, inStack: set<Block>,
                   rank: map<Block, int>, reported: seq<(Block, Block)>)
    requires Searching(g, visited, stack, inStack, rank, reported, s) && stack != [] && !CanTake(g, stack)
    ensures var u := stack[|stack| - 1].block;
      Searching(g, visited, stack[..|stack| - 1], inStack - {u}, rank[u := |rank|], reported, s)
  {
    PopOk(g, visited, stack, inStack, rank, reported);
    SearchPops(g, s, visited, stack, inStack, rank, reported);
    CountsLeft(g, s, stack, reported);
  }

  lemma CountsLeft(g: Cfg, s: Search, stack: seq<Frame>, reported: seq<(Block, Block)>)
    requires StackOk(g, stack) && stack != [] && !CanTake(g, stack) && CountsOk(g, s, stack, reported)
    ensures CountsOk(g, s, stack[..|stack| - 1], reported)
  {
    var n := |stack| - 1;
    var u, a := stack[n].block, stack[..n];
    assert Trail(stack) == Trail(a) + [u];
    forall k {:trigger TopTaken(g, a[k])} | 0 <= k < |a|
      ensures Counts(s, reported, a[k].block, TopTaken(g, a[k]))
    {
      assert Counts(s, reported, stack[k].block, TopTaken(g, stack[k]));
    }
    forall x {:trigger Counts(s, reported, x, Succ(g, x))} | x in s.order && x !in Trail(a)
      ensures Counts(s, reported, x, Succ(g, x))
    {
      if x == u {
        assert Counts(s, reported, u, TopTaken(g, stack[n]));
        assert TopTaken(g, stack[n]) == Succ(g, u);
      } else {
        assert x !in Trail(stack);
      }
    }
  }

  lemma KnownBefore(g: Cfg, s: Search, visited: set<Block>, stack: seq<Frame>, inStack: set<Block>,
                    rank: map<Block, int>, reported: seq<(Block, Block)>)
    requires WalkOk(g, visited, stack, inStack, rank, reported) && CanTake(g, stack)
    requires forall b :: b in s.order <==> b in visited
    ensures KnownTo(g, s, stack)
  {
    var top := stack[|stack| - 1];
    forall j | 0 <= j < top.next
      ensures g.succ[top.block][j] in s.order
    {
      TakenVisited(g, visited, stack, inStack, rank, reported, j);
    }
  }

  /** The edges that the block on top has taken lead to known blocks. */
  ghost predicate KnownTo(g: Cfg, s: Search, stack: seq<Frame>)
    requires CanTake(g, stack)
  {
    var top := stack[|stack| - 1];
    forall j :: 0 <= j < top.next ==> g.succ[top.block][j] in s.order
  }

  lemma Pushed(g: Cfg, s: Search, stack: seq<Frame>, reported: seq<(Block, Block)>) returns (t: Search)
    requires CanTake(g, stack) && Target(g, stack) !in s.order && KnownTo(g, s, stack)
    requires SearchOk(g, s, Trail(stack), reported)
    ensures t == Deeper(s, stack[|stack| - 1].block, Target(g, stack))
    ensures SearchOk(g, t, Trail(Advance(stack) + [Frame(Target(g, stack), 0)]), reported)
    ensures forall b :: b in t.order <==> b in s.order || b == Target(g, stack)
  {
    var n := |stack| - 1;
    var u, v := stack[n].block, Target(g, stack);
    SearchEnters(g, s, Trail(stack), reported, u, stack[n].next, v);
    t := Deeper(s, u, v);
    assert Trail(Advance(stack) + [Frame(v, 0)]) == Trail(stack) + [v];
  }

  lemma SearchPops(g: Cfg, s: Search, visited: set<Block>, stack: seq<Frame>, inStack: set<Block>,
                   rank: map<Block, int>, reported: seq<(Block, Block)>)
    requires WalkOk(g, visited, stack, inStack, rank, reported) && stack != [] && !CanTake(g, stack)
    requires SearchOk(g, s, Trail(stack), reported) && forall b :: b in s.order <==> b in visited
    ensures SearchOk(g, s, Trail(stack[..|stack| - 1]), reported)
  {
    var n := |stack| - 1;
    var u := stack[n].block;
    forall v {:trigger Edge(g, u, v)} | Edge(g, u, v)
      ensures v in s.order
    {
      var j :| 0 <= j < |g.succ[u]| && g.succ[u][j] == v;
      TakenVisited(g, visited, stack, inStack, rank, reported, j);
    }
    SearchLeaves(g, s, Trail(stack), reported);
    assert Trail(stack[..n]) == Trail(stack)[..n];
  }

  // ----- what is reported -----

  /** No edge of the tree is reported. */
  lemma {:induction false} TreeUnreported(g: Cfg, s: Search, reported: seq<(Block, Block)>, q: seq<Block>)
    requires TreeOk(g, s) && ReportsUp(s, reported) && TreePath(s.parent, q)
    ensures PathWithout(g, reported, q)
  {
    forall i | 0 <= i && i + 1 < |q|
      ensures Edge(g, q[i], q[i + 1]) && (q[i], q[i + 1]) !in reported
    {
      var x, y := q[i], q[i + 1];
      assert IsParent(s.parent, q[i], q[i + 1]);
      assert Entered(g, s, y);
      TreeEdgeDown(g, s, y);
      var e := (x, y);
      assert e in reported ==> Above(s.parent, e.1, e.0);
    }
  }

  lemma AboveReaches(g: Cfg, s: Search, reported: seq<(Block, Block)>, a: Block, b: Block)
    requires TreeOk(g, s) && ReportsUp(s, reported) && Above(s.parent, a, b)
    ensures ReachesWithout(g, reported, a, b)
  {
    var q :| TreePathFrom(s.parent, q, a, b);
    TreeUnreported(g, s, reported, q);
  }

  /** The tree of the search is what the walk promises. */
  lemma WalkFinished(g: Cfg, s: Search, visited: set<Block>, inStack: set<Block>, rank: map<Block, int>,
                     reported: seq<(Block, Block)>)
    requires Searching(g, visited, [], inStack, rank, reported, s)
    ensures BackedgesOf(g, s, reported)
  {
    Finished(g, visited, rank, reported);
    assert Trail([]) == [];
    SearchFinished(g, s, reported);
  }

  lemma SearchFinished(g: Cfg, s: Search, reported: seq<(Block, Block)>)
    requires SearchOk(g, s, [], reported)
    requires forall b :: b in s.order <==> Reaches(g, g.entry, b)
    ensures forall b :: Reaches(g, g.entry, b) ==> ReachesWithout(g, reported, g.entry, b)
    ensures forall u, v :: (u, v) in reported ==> ReachesWithout(g, reported, v, u)
  {
    forall u, v | (u, v) in reported
      ensures ReachesWithout(g, reported, v, u)
    {
      var e := (u, v);
      assert Above(s.parent, e.1, e.0);
      AboveReaches(g, s, reported, v, u);
    }
    forall b | Reaches(g, g.entry, b)
      ensures ReachesWithout(g, reported, g.entry, b)
    {
      var n :| 0 <= n < |s.order| && s.order[n] == b;
      EntryAbove(g, s, n);
      AboveReaches(g, s, reported, g.entry, b);
    }
  }

  lemma NoStep(g: Cfg, p: seq<Block>)
    requires g.Valid() && g.succ[g.entry] == [] && |p| > 1 && p[0] == g.entry
    ensures !Path(g, p)
  {
    assert !Edge(g, p[0], p[0 + 1]);
  }

  lemma OnlyEntry(g: Cfg, b: Block)
    requires g.Valid() && g.succ[g.entry] == []
    ensures Reaches(g, g.entry, b) ==> b == g.entry
  {
    if Reaches(g, g.entry, b) {
      var q :| PathFrom(g, q, g.entry, b);
      ClosedUnderPaths(g, {g.entry}, q);
    }
  }

  lemma NoWayOut(g: Cfg, s: Search)
    requires g.Valid() && g.succ[g.entry] == [] && s == Search([g.entry], map[])
    ensures BackedgesOf(g, s, [])
  {
    ReachesSelf(g, g.entry);
    forall b
      ensures Reaches(g, g.entry, b) <==> b == g.entry
    {
      OnlyEntry(g, b);
    }
    assert PathWithout(g, [], [g.entry]);
    forall p: seq<Block>
      ensures |p| > 1 && Reaches(g, g.entry, p[0]) && PathWithout(g, [], p) ==> p[|p| - 1] != p[0]
    {
      if |p| > 1 && p[0] == g.entry { NoStep(g, p); }
    }
  }
}
