/** Control flow graphs and paths through them. */
module CFGPaths {

  datatype Option<+T> = None | Some(value: T)

  datatype Block = Block(id: nat)

  datatype Cfg = Cfg(entry: Block, succ: map<Block, seq<Block>>) {
    ghost predicate Valid() {
      entry in succ && forall a, b {:trigger Edge(this, a, b)} :: Edge(this, a, b) ==> b in succ
    }
  }

  predicate Edge(g: Cfg, a: Block, b: Block) {
    a in g.succ && b in g.succ[a]
  }

  ghost predicate Path(g: Cfg, p: seq<Block>) {
    |p| > 0 && forall i :: 0 <= i && i + 1 < |p| ==> Edge(g, p[i], p[i + 1])
  }

  ghost predicate PathFrom(g: Cfg, p: seq<Block>, a: Block, b: Block) {
    Path(g, p) && p[0] == a && p[|p| - 1] == b
  }

  ghost predicate Reaches(g: Cfg, a: Block, b: Block) {
    exists p :: PathFrom(g, p, a, b)
  }

  lemma ReachesSelf(g: Cfg, a: Block)
    ensures Reaches(g, a, a)
  {
    assert PathFrom(g, [a], a, a);
  }

  lemma ReachesOn(g: Cfg, a: Block, b: Block, c: Block)
    requires Reaches(g, a, b) && Edge(g, b, c)
    ensures Reaches(g, a, c)
  {
    var p :| PathFrom(g, p, a, b);
    assert PathFrom(g, p + [c], a, c);
  }

  lemma ReachesTrans(g: Cfg, a: Block, b: Block, c: Block)
    requires Reaches(g, a, b) && Reaches(g, b, c)
    ensures Reaches(g, a, c)
  {
    var p :| PathFrom(g, p, a, b);
    var q :| PathFrom(g, q, b, c);
    var r := p + q[1..];
    forall i | 0 <= i && i + 1 < |r|
      ensures Edge(g, r[i], r[i + 1])
    {
      if i + 1 < |p| {
        assert r[i] == p[i] && r[i + 1] == p[i + 1];
      } else {
        assert r[i] == q[i + 1 - |p|] && r[i + 1] == q[i + 2 - |p|];
      }
    }
    assert PathFrom(g, r, a, c);
  }

  /** What contains the start of a path and is closed under successors contains its end. */
  lemma {:induction false} ClosedUnderPaths(g: Cfg, s: set<Block>, p: seq<Block>)
    requires Path(g, p) && p[0] in s
    requires forall a, b {:trigger Edge(g, a, b)} :: a in s && Edge(g, a, b) ==> b in s
    ensures p[|p| - 1] in s
    decreases |p|
  {
    if |p| > 1 {
      assert Edge(g, p[0], p[1]);
      ClosedUnderPaths(g, s, p[1..]);
    }
  }
}
