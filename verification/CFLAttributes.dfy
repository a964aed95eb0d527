/** Spreading attributes over the value aliases: from a node to its aliases and to the nodes
    below it, until nothing changes. */
module CFLAttributes {
  import opened CFLGraph
  import opened CFLMatching
  import opened CFLAnders

  type AttrMap = map<Node, set<nat>>

  /** Every node of `m` has at most the attributes it has in `n`. */
  ghost predicate AtMost(m: AttrMap, n: AttrMap) {
    forall v :: v in m ==> v in n && m[v] <= n[v]
  }

  /** The attributes of `v` are also attributes of everything stored as reaching it, and of the node below. */
  ghost predicate NodeClosed(g: Graph, reach: set<Item>, m: AttrMap, v: Node)
    requires v in m
  {
    (forall t :: t in reach && t.to == v && t.from in m ==> m[v] <= m[t.from]) &&
    (Below(v) in g.nodes && Below(v) in m ==> m[v] <= m[Below(v)])
  }

  ghost predicate AttrsClosed(g: Graph, reach: set<Item>, m: AttrMap) {
    forall v :: v in m ==> NodeClosed(g, reach, m, v)
  }

  /** `m` is below every closed map above the initial one. */
  ghost predicate Least(g: Graph, reach: set<Item>, m: AttrMap) {
    forall n: AttrMap :: n.Keys == g.nodes && AtMost(g.attrs, n) && AttrsClosed(g, reach, n) ==> AtMost(m, n)
  }

  ghost predicate Inputs(g: Graph, reach: set<Item>) {
    g.Valid() && forall t :: t in reach ==> t.from in g.nodes && t.to in g.nodes && t.from != t.to
  }

  /** All that `m` says, one fact at a time; it can only grow within `all`. */
  ghost function Facts(m: AttrMap): set<(Node, nat)> {
    set v, a | v in m && a in m[v] :: (v, a)
  }

  ghost predicate Within(m: AttrMap, all: set<nat>) {
    forall v :: v in m ==> m[v] <= all
  }

  ghost function AllFacts(g: Graph, all: set<nat>): set<(Node, nat)> {
    set v, a | v in g.nodes && a in all :: (v, a)
  }

  /** Only the nodes of `pend` may still have something to pass on. */
  ghost predicate Settled(g: Graph, reach: set<Item>, m: AttrMap, pend: set<Node>) {
    forall v :: v in m && v !in pend ==> NodeClosed(g, reach, m, v)
  }

  /** What holds throughout: the initial attributes are there, and nothing that is not forced. */
  ghost predicate Between(g: Graph, reach: set<Item>, m: AttrMap, all: set<nat>) {
    m.Keys == g.nodes && AtMost(g.attrs, m) && Least(g, reach, m) && Within(m, all)
  }

  /** Attributes only grow, and every node that gains some is put on the list. */
  ghost predicate Grown(m: AttrMap, next: seq<Node>, m': AttrMap, next': seq<Node>) {
    m.Keys == m'.Keys && AtMost(m, m') && next <= next' &&
    (forall v :: v in m && m'[v] != m[v] ==> v in next') &&
    (forall v :: v in next' ==> v in next || v in m) &&
    (|next| < |next'| ==> Facts(m) < Facts(m'))
  }

  lemma GrownOn(m0: AttrMap, n0: seq<Node>, m1: AttrMap, n1: seq<Node>, m2: AttrMap, n2: seq<Node>)
    requires Grown(m0, n0, m1, n1) && Grown(m1, n1, m2, n2)
    ensures Grown(m0, n0, m2, n2)
  {
    forall v | v in m0 && m2[v] != m0[v]
      ensures v in n2
    {
      if v in n1 {
        var i :| 0 <= i < |n1| && n1[i] == v;
        assert n2[i] == v;
      }
    }
    FactsGrow(m0, m1);
    FactsGrow(m1, m2);
  }

  lemma FactsGrow(m: AttrMap, n: AttrMap)
    requires AtMost(m, n)
    ensures Facts(m) <= Facts(n)
  {
  }

  /** Every closed map above the initial one gives `v` the attributes `attr`. */
  ghost predicate Forced(g: Graph, reach: set<Item>, v: Node, attr: set<nat>) {
    forall n: AttrMap :: n.Keys == g.nodes && AtMost(g.attrs, n) && AttrsClosed(g, reach, n) ==> v in n && attr <= n[v]
  }

  class AliasAttrMap {
    var attrs: AttrMap

    constructor ()
      ensures attrs == map[]
    {
      attrs := map[];
    }

    /** Adds to the attributes of `v`; tells whether that changed anything. */
    method Add(v: Node, attr: set<nat>) returns (changed: bool)
      modifies this
      ensures v in attrs && attrs == old(attrs)[v := (if v in old(attrs) then old(attrs)[v] else {}) + attr]
      ensures changed <==> !(attr <= (if v in old(attrs) then old(attrs)[v] else {}))
    {
      var oldAttr := if v in attrs then attrs[v] else {};
      var newAttr := oldAttr + attr;
      changed := oldAttr != newAttr;
      attrs := attrs[v := newAttr];
    }

    /** Adds, and lists the node if it gained anything. */
    method AddAndList(g: Graph, ghost reach: set<Item>, v: Node, attr: set<nat>, next: seq<Node>, ghost all: set<nat>)
      returns (changed: bool, next': seq<Node>)
      requires Between(g, reach, attrs, all) && v in g.nodes && Forced(g, reach, v, attr) && attr <= all
      modifies this
      ensures Between(g, reach, attrs, all) && Grown(old(attrs), next, attrs, next') && attr <= attrs[v]
      ensures forall u :: u in attrs && u != v ==> attrs[u] == old(attrs)[u]
    {
      changed := Add(v, attr);
      next' := if changed then next + [v] else next;
      if changed {
        ghost var a :| a in attr && a !in old(attrs)[v];
        assert (v, a) in Facts(attrs) && (v, a) !in Facts(old(attrs));
        FactsGrow(old(attrs), attrs);
      }
    }

    /** Passes the attributes of `dst` to all nodes stored as reaching it. */
    method SpreadSameLevel(g: Graph, reach: set<Item>, dst: Node, attr: set<nat>, next: seq<Node>, ghost all: set<nat>)
      returns (next': seq<Node>)
      requires Inputs(g, reach) && Between(g, reach, attrs, all) && dst in g.nodes && attr == attrs[dst]
      modifies this
      ensures Between(g, reach, attrs, all) && Grown(old(attrs), next, attrs, next') && attrs[dst] == attr
      ensures forall t :: t in reach && t.to == dst ==> attr <= attrs[t.from]
    {
      next' := next;
      var sources := set t | t in reach && t.to == dst :: t.from;
      var todo := sources;
      while todo != {}
        invariant todo <= sources && Between(g, reach, attrs, all) && Grown(old(attrs), next, attrs, next') &&
          attrs[dst] == attr
        invariant forall v :: v in sources ==> v in attrs
        invariant forall v :: v in sources && v !in todo ==> attr <= attrs[v]
        decreases todo
      {
        var src :| src in todo;
        todo := todo - {src};
        ghost var t :| t in reach && t.to == dst && t.from == src;
        ForcedBySame(g, reach, attrs, t);
        ghost var m, n := attrs, next';
        var changed;
        changed, next' := AddAndList(g, reach, src, attr, next', all);
        GrownOn(old(attrs), next, m, n, attrs, next');
      }
      forall t | t in reach && t.to == dst
        ensures attr <= attrs[t.from]
      {
        assert t.from in sources;
      }
    }

    /** Passes the attributes of `dst` down, as far as the first level that did not have them all. */
    method SpreadBelow(g: Graph, ghost reach: set<Item>, dst: Node, attr: set<nat>, next: seq<Node>,
                       ghost all: set<nat>)
      returns (next': seq<Node>)
      requires Between(g, reach, attrs, all) && dst in g.nodes && attr == attrs[dst]
      modifies this
      ensures Between(g, reach, attrs, all) && Grown(old(attrs), next, attrs, next') && attrs[dst] == attr
      ensures Below(dst) in g.nodes ==> attr <= attrs[Below(dst)]
    {
      next' := next;
      ghost var above := dst;
      var below := NodeBelow(g, dst);
      ForcedHere(g, reach, attrs, dst);
      while below.Some?
        invariant Between(g, reach, attrs, all) && Grown(old(attrs), next, attrs, next') && attrs[dst] == attr
        invariant above in g.nodes && above.val == dst.val && above.level >= dst.level && below == NodeBelow(g, above)
        invariant Forced(g, reach, above, attr) && (above != dst ==> Below(dst) in attrs && attr <= attrs[Below(dst)])
        decreases set v | v in g.nodes && v.val == dst.val && v.level > above.level
      {
        ForcedBelow(g, reach, above, attr);
        ghost var m, n, levels := attrs, next', set v | v in g.nodes && v.val == dst.val && v.level > above.level;
        var changed;
        changed, next' := AddAndList(g, reach, below.value, attr, next', all);
        GrownOn(old(attrs), next, m, n, attrs, next');
        if changed {
          break;
        }
        above := below.value;
        assert above in levels;
        below := NodeBelow(g, below.value);
      }
    }

    /** Runs the worklist until nothing grows any more. The result is the least map above the
        initial one that is closed. */
    method Build(g: Graph, reach: set<Item>)
      requires Inputs(g, reach)
      modifies this
      ensures attrs.Keys == g.nodes && AtMost(g.attrs, attrs) && AttrsClosed(g, reach, attrs)
      ensures Least(g, reach, attrs)
    {
      attrs := g.attrs;
      ghost var all := set v, a | v in g.nodes && a in g.attrs[v] :: a;
      StartsBetween(g, reach, all);
      var work := Listed(g.nodes);
      while work != []
        invariant Between(g, reach, attrs, all) && Settled(g, reach, attrs, set v | v in work)
        invariant forall v :: v in work ==> v in g.nodes
        decreases AllFacts(g, all) - Facts(attrs), |work|
      {
        ghost var before := attrs;
        work := Round(g, reach, work, all);
        FactsBounded(g, attrs, all);
        FactsGrow(before, attrs);
        Fewer(AllFacts(g, all), Facts(before), Facts(attrs));
      }
    }

    /** One round: every node of `work` passes on what it has. */
    method Round(g: Graph, reach: set<Item>, work: seq<Node>, ghost all: set<nat>) returns (next: seq<Node>)
      requires Inputs(g, reach) && Between(g, reach, attrs, all) && Settled(g, reach, attrs, set v | v in work)
      requires forall v :: v in work ==> v in g.nodes
      modifies this
      ensures Between(g, reach, attrs, all) && Settled(g, reach, attrs, set v | v in next)
      ensures Grown(old(attrs), [], attrs, next)
    {
      next := [];
      var i := 0;
      while i < |work|
        invariant 0 <= i <= |work| && Between(g, reach, attrs, all) && Grown(old(attrs), [], attrs, next)
        invariant Settled(g, reach, attrs, (set v | v in work[i..]) + (set v | v in next))
      {
        var dst := work[i];
        SplitHead(work, i);
        ghost var m, n, pend := attrs, next, (set v | v in work[i..]) + (set v | v in next);
        next := Pass(g, reach, dst, next, all);
        GrownOn(old(attrs), [], m, n, attrs, next);
        SettledFewer(g, reach, m, attrs, pend, n, next, dst, work[i + 1..]);
        i := i + 1;
      }
      assert (set v | v in work[i..]) + (set v | v in next) == set v | v in next;
    }

    /** One node passes on what it has, to its own level and down. */
    method Pass(g: Graph, reach: set<Item>, dst: Node, next: seq<Node>, ghost all: set<nat>) returns (next': seq<Node>)
      requires Inputs(g, reach) && Between(g, reach, attrs, all) && dst in g.nodes
      modifies this
      ensures Between(g, reach, attrs, all) && Grown(old(attrs), next, attrs, next')
      ensures NodeClosed(g, reach, attrs, dst)
    {
      next' := next;
      var dstAttr := attrs[dst];
      if dstAttr != {} {
        next' := SpreadSameLevel(g, reach, dst, dstAttr, next', all);
        ghost var m, n := attrs, next';
        next' := SpreadBelow(g, reach, dst, dstAttr, next', all);
        GrownOn(old(attrs), next, m, n, attrs, next');
      }
    }
  }

  /** The nodes in some order. */
  method Listed(nodes: set<Node>) returns (s: seq<Node>)
    ensures forall v :: v in s <==> v in nodes
  {
    s := [];
    var todo := nodes;
    while todo != {}
      invariant todo <= nodes && forall v :: v in s <==> v in nodes && v !in todo
      decreases todo
    {
      var v :| v in todo;
      s, todo := s + [v], todo - {v};
    }
  }

  lemma ForcedHere(g: Graph, reach: set<Item>, m: AttrMap, v: Node)
    requires Least(g, reach, m) && v in m
    ensures Forced(g, reach, v, m[v])
  {
    forall n: AttrMap | n.Keys == g.nodes && AtMost(g.attrs, n) && AttrsClosed(g, reach, n)
      ensures v in n && m[v] <= n[v]
    {
      assert AtMost(m, n);
    }
  }

  lemma ForcedBelow(g: Graph, reach: set<Item>, v: Node, attr: set<nat>)
    requires Forced(g, reach, v, attr) && v in g.nodes && Below(v) in g.nodes
    ensures Forced(g, reach, Below(v), attr)
  {
    forall n: AttrMap | n.Keys == g.nodes && AtMost(g.attrs, n) && AttrsClosed(g, reach, n)
      ensures Below(v) in n && attr <= n[Below(v)]
    {
      assert NodeClosed(g, reach, n, v);
    }
  }

  lemma ForcedBySame(g: Graph, reach: set<Item>, m: AttrMap, t: Item)
    requires Least(g, reach, m) && t in reach && t.to in m && t.from in g.nodes && t.to in g.nodes
    ensures Forced(g, reach, t.from, m[t.to])
  {
    forall n: AttrMap | n.Keys == g.nodes && AtMost(g.attrs, n) && AttrsClosed(g, reach, n)
      ensures t.from in n && m[t.to] <= n[t.from]
    {
      assert AtMost(m, n) && NodeClosed(g, reach, n, t.to);
    }
  }

  lemma SettledFewer(g: Graph, reach: set<Item>, m: AttrMap, m': AttrMap, pend: set<Node>, n: seq<Node>,
                     next: seq<Node>, dst: Node, rest: seq<Node>)
    requires Settled(g, reach, m, pend) && Grown(m, n, m', next) && dst in m' && NodeClosed(g, reach, m', dst)
    requires pend == (set v | v in [dst] + rest) + (set v | v in n)
    ensures Settled(g, reach, m', (set v | v in rest) + (set v | v in next))
  {
    forall v | v in m' && v !in rest && v !in next && v != dst
      ensures NodeClosed(g, reach, m', v)
    {
      InPrefix(n, next, v);
      assert NodeClosed(g, reach, m, v) && m'[v] == m[v];
    }
  }

  lemma InPrefix(n: seq<Node>, next: seq<Node>, v: Node)
    requires n <= next
    ensures v in n ==> v in next
  {
    if v in n {
      var i :| 0 <= i < |n| && n[i] == v;
      assert next[i] == v;
    }
  }

  lemma StartsBetween(g: Graph, reach: set<Item>, all: set<nat>)
    requires g.Valid() && all == set v, a | v in g.nodes && a in g.attrs[v] :: a
    ensures Between(g, reach, g.attrs, all)
  {
  }

  lemma SplitHead(s: seq<Node>, i: nat)
    requires i < |s|
    ensures s[i..] == [s[i]] + s[i + 1..]
  {
  }

  lemma Fewer<T>(all: set<T>, a: set<T>, b: set<T>)
    requires a <= b <= all
    ensures all - b <= all - a && (a < b ==> all - b < all - a)
  {
    if a < b {
      var x :| x in b && x !in a;
      assert x in all - a;
    }
  }

  lemma FactsBounded(g: Graph, m: AttrMap, all: set<nat>)
    requires Within(m, all) && m.Keys == g.nodes
    ensures Facts(m) <= AllFacts(g, all)
  {
  }

  // ----- the analysis of one function -----

  /** Value aliases end up with the same attributes: the relation they are spread over is symmetric. */
  lemma AliasesShareAttrs(g: Graph, reach: set<Item>, m: AttrMap, a: Node, b: Node)
    requires m.Keys == g.nodes && AttrsClosed(g, reach, m) && StoresAliases(g, reach)
    requires ValueAlias(g, a, b)
    ensures a in m && b in m && m[a] == m[b]
  {
    var p :| Spells(g, p, a, b);
    FollowsEnds(g, p);
    if a != b {
      AliasSymmetric(g, a, b);
      assert Stored(reach, a, b) && Stored(reach, b, a);
      var s, s' :| Item(a, b, s) in reach && Item(b, a, s') in reach;
      assert NodeClosed(g, reach, m, a) && NodeClosed(g, reach, m, b);
    }
  }

  method BuildInfoFrom(g: Graph) returns (reachSet: Analysis, attrMap: AliasAttrMap)
    requires g.Valid()
    ensures StoresKinds(g, reachSet.reach) && StoresAliases(g, reachSet.reach) && StoresMemAliases(g, reachSet.mem)
    ensures attrMap.attrs.Keys == g.nodes && AtMost(g.attrs, attrMap.attrs)
    ensures AttrsClosed(g, reachSet.reach, attrMap.attrs) && Least(g, reachSet.reach, attrMap.attrs)
    ensures forall a, b :: ValueAlias(g, a, b) ==>
      a in attrMap.attrs && b in attrMap.attrs && attrMap.attrs[a] == attrMap.attrs[b]
  {
    reachSet := new Analysis(g);
    reachSet.BuildReachSet();
    attrMap := new AliasAttrMap();
    attrMap.Build(g, reachSet.reach);
    forall a, b | ValueAlias(g, a, b)
      ensures a in attrMap.attrs && b in attrMap.attrs && attrMap.attrs[a] == attrMap.attrs[b]
    {
      AliasesShareAttrs(g, reachSet.reach, attrMap.attrs, a, b);
    }
  }
}
