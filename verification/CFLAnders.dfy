/** The inclusion-based alias analysis: the worklist that grows the value aliases and the memory
    aliases together, and the one that spreads attributes over them. */
module CFLAnders {
  import opened CFLGraph
  import opened CFLMatching

  ghost function Universe(g: Graph): set<Item> {
    set a, b, s: MatchState | a in g.nodes && b in g.nodes :: Item(a, b, s)
  }

  /** All that is stored is true of the graph. */
  ghost predicate Sound(g: Graph, reach: set<Item>, mem: set<(Node, Node)>) {
    (forall t :: t in reach ==> t.from in g.nodes && t.to in g.nodes && t.from != t.to) &&
    (forall t {:trigger Justified(g, t)} :: t in reach ==> Justified(g, t)) &&
    (forall x, y :: (x, y) in mem ==> x != y && x in g.nodes && y in g.nodes) &&
    (forall x, y {:trigger MemJustified(g, x, y)} :: (x, y) in mem ==> MemJustified(g, x, y))
  }

  /** Everything the item gives rise to is there. */
  ghost predicate ItemDone(g: Graph, reach: set<Item>, mem: set<(Node, Node)>, t: Item) {
    EdgesDone(g, reach, t) && BelowDone(g, mem, t) && HopsDone(reach, mem, t)
  }

  /** Only the items of `pend` are still to be processed. */
  ghost predicate Progress(g: Graph, reach: set<Item>, mem: set<(Node, Node)>, pend: set<Item>) {
    Sound(g, reach, mem) && MemStarted(reach, mem) && pend <= reach &&
    forall t :: t in reach && t !in pend ==> ItemDone(g, reach, mem, t)
  }

  /** New items are stored and put on the worklist, and nothing else happens. */
  ghost predicate Grew(reach: set<Item>, work: seq<Item>, reach': set<Item>, work': seq<Item>) {
    reach <= reach' && work <= work' &&
    (forall t :: t in reach' ==> t in reach || t in work') &&
    (forall i :: |work| <= i < |work'| ==> work'[i] in reach' && work'[i] !in reach)
  }

  lemma GrewOn(r0: set<Item>, w0: seq<Item>, r1: set<Item>, w1: seq<Item>, r2: set<Item>, w2: seq<Item>)
    requires Grew(r0, w0, r1, w1) && Grew(r1, w1, r2, w2)
    ensures Grew(r0, w0, r2, w2)
  {
    forall t | t in r2
      ensures t in r0 || t in w2
    {
      if t in w1 {
        var i :| 0 <= i < |w1| && w1[i] == t;
        assert w2[i] == t;
      }
    }
    assert forall i :: |w0| <= i < |w1| ==> w2[i] == w1[i];
  }

  /** Every item goes on over the memory aliases that are new. */
  ghost predicate NewHopsDone(r0: set<Item>, m0: set<(Node, Node)>, reach: set<Item>, mem: set<(Node, Node)>) {
    forall u, c :: u in r0 && (u.to, c) in mem && (u.to, c) !in m0 ==> HopDone(reach, u, c)
  }

  /** After an item has been processed, what is left is the rest and what it put on the worklist. */
  lemma ProgressOn(g: Graph, r0: set<Item>, m0: set<(Node, Node)>, reach: set<Item>, mem: set<(Node, Node)>,
                   pend: set<Item>, w0: seq<Item>, work: seq<Item>, t: Item)
    requires Progress(g, r0, m0, pend) && Grew(r0, w0, reach, work) && m0 <= mem && (forall u :: u in w0 ==> u in r0)
    requires Sound(g, reach, mem) && MemStarted(reach, mem) && NewHopsDone(r0, m0, reach, mem)
    requires ItemDone(g, reach, mem, t)
    ensures Progress(g, reach, mem, pend - {t} + (set u | u in work))
  {
    forall u | u in reach && u !in work && u !in pend
      ensures ItemDone(g, reach, mem, u)
    {
      assert u in r0 && ItemDone(g, r0, m0, u);
      forall c | (u.to, c) in mem
        ensures HopDone(reach, u, c)
      {
        if (u.to, c) in m0 { assert HopDone(r0, u, c); }
      }
    }
    forall u | u in work
      ensures u in reach
    {
      var i :| 0 <= i < |work| && work[i] == u;
      if i < |w0| { assert w0[i] in w0; }
    }
  }

  class Analysis {
    const g: Graph
    var reach: set<Item>
    var mem: set<(Node, Node)>

    constructor (g: Graph)
      ensures this.g == g && reach == {} && mem == {}
    {
      this.g := g;
      reach, mem := {}, {};
    }

    method Propagate(from: Node, to: Node, state: MatchState, work: seq<Item>) returns (work': seq<Item>)
      requires Sound(g, reach, mem) && from in g.nodes && to in g.nodes
      requires from != to ==> Justified(g, Item(from, to, state))
      modifies this`reach
      ensures Sound(g, reach, mem) && Grew(old(reach), work, reach, work')
      ensures reach == old(reach) + (if from == to then {} else {Item(from, to, state)})
    {
      work' := work;
      if from != to {
        var t := Item(from, to, state);
        if t !in reach {
          reach := reach + {t};
          work' := work + [t];
        }
      }
    }

    /** The neighbours of one node by an assignment out of it, in both directions. */
    method InitializeNode(src: Node, work: seq<Item>) returns (work': seq<Item>)
      requires g.Valid() && Sound(g, reach, mem) && src in g.nodes
      modifies this`reach
      ensures Sound(g, reach, mem) && Grew(old(reach), work, reach, work')
      ensures forall b :: Edge(g, src, b) ==>
        Holds(reach, b, src, FlowFromReadOnly) && Holds(reach, src, b, FlowToWriteOnly)
    {
      work' := work;
      var others: set<Node> := g.edges[src];
      var todo := others;
      while todo != {}
        invariant todo <= others && Sound(g, reach, mem) && Grew(old(reach), work, reach, work')
        invariant forall b :: b in others && b !in todo ==>
          Holds(reach, b, src, FlowFromReadOnly) && Holds(reach, src, b, FlowToWriteOnly)
        decreases todo
      {
        var other :| other in todo;
        todo := todo - {other};
        assert Edge(g, src, other);
        if src != other { JustifyEdge(g, src, other); }
        ghost var r0, w0 := reach, work';
        work' := Propagate(other, src, FlowFromReadOnly, work');
        GrewOn(old(reach), work, r0, w0, reach, work');
        ghost var r1, w1 := reach, work';
        work' := Propagate(src, other, FlowToWriteOnly, work');
        GrewOn(old(reach), work, r1, w1, reach, work');
      }
    }

    method InitializeWorkList() returns (work: seq<Item>)
      requires g.Valid() && reach == {} && mem == {}
      modifies this`reach
      ensures Sound(g, reach, mem) && Started(g, reach) && Grew({}, [], reach, work)
    {
      work := [];
      var todo := g.nodes;
      while todo != {}
        invariant todo <= g.nodes && Sound(g, reach, mem) && Grew({}, [], reach, work)
        invariant forall a, b :: Edge(g, a, b) && a !in todo ==>
          Holds(reach, b, a, FlowFromReadOnly) && Holds(reach, a, b, FlowToWriteOnly)
        decreases todo
      {
        var src :| src in todo;
        todo := todo - {src};
        ghost var r, w := reach, work;
        work := InitializeNode(src, work);
        GrewOn({}, [], r, w, reach, work);
      }
    }

    /** From the end of the item along the assignments out of it. */
    method NextAssignState(t: Item, state: MatchState, work: seq<Item>, ghost r0: set<Item>, ghost w0: seq<Item>)
      returns (work': seq<Item>)
      requires g.Valid() && Sound(g, reach, mem) && t in reach && Grew(r0, w0, reach, work) &&
        Next(t.state, Fwd) == Some(state)
      modifies this`reach
      ensures Sound(g, reach, mem) && old(reach) <= reach && Grew(r0, w0, reach, work')
      ensures forall c :: Edge(g, t.to, c) ==> Holds(reach, t.from, c, state)
    {
      work' := work;
      var others: set<Node> := g.edges[t.to];
      var todo := others;
      while todo != {}
        invariant todo <= others && Sound(g, reach, mem) && old(reach) <= reach && Grew(r0, w0, reach, work')
        invariant forall c :: c in others && c !in todo ==> Holds(reach, t.from, c, state)
        decreases todo
      {
        var c :| c in todo;
        todo := todo - {c};
        assert Edge(g, t.to, c);
        if t.from != c { JustifyStep(g, t, Fwd, c); }
        ghost var r, w := reach, work';
        work' := Propagate(t.from, c, state, work');
        GrewOn(r0, w0, r, w, reach, work');
      }
    }

    /** From the end of the item against the assignments into it. */
    method NextRevAssignState(t: Item, state: MatchState, work: seq<Item>, ghost r0: set<Item>, ghost w0: seq<Item>)
      returns (work': seq<Item>)
      requires g.Valid() && Sound(g, reach, mem) && t in reach && Grew(r0, w0, reach, work) &&
        Next(t.state, Rev) == Some(state)
      modifies this`reach
      ensures Sound(g, reach, mem) && old(reach) <= reach && Grew(r0, w0, reach, work')
      ensures forall c :: Edge(g, c, t.to) ==> Holds(reach, t.from, c, state)
    {
      assert forall c :: Edge(g, c, t.to) ==> RevEdge(g, c, t.to);
      work' := work;
      var others: set<Node> := g.rev[t.to];
      var todo := others;
      while todo != {}
        invariant todo <= others && Sound(g, reach, mem) && old(reach) <= reach && Grew(r0, w0, reach, work')
        invariant forall c :: c in others && c !in todo ==> Holds(reach, t.from, c, state)
        decreases todo
      {
        var c :| c in todo;
        todo := todo - {c};
        assert RevEdge(g, c, t.to);
        if t.from != c { JustifyStep(g, t, Rev, c); }
        ghost var r, w := reach, work';
        work' := Propagate(t.from, c, state, work');
        GrewOn(r0, w0, r, w, reach, work');
      }
    }

    /** From the end of the item to its memory aliases. */
    method NextMemState(t: Item, state: MatchState, work: seq<Item>, ghost r0: set<Item>, ghost w0: seq<Item>)
      returns (work': seq<Item>)
      requires Sound(g, reach, mem) && t in reach && Grew(r0, w0, reach, work) && Next(t.state, Mem) == Some(state)
      modifies this`reach
      ensures Sound(g, reach, mem) && old(reach) <= reach && Grew(r0, w0, reach, work')
      ensures HopsDone(reach, mem, t)
    {
      work' := work;
      var aliases := set m | m in mem && m.0 == t.to :: m.1;
      assert forall c :: (t.to, c) in mem ==> c in aliases;
      var todo := aliases;
      while todo != {}
        invariant todo <= aliases && Sound(g, reach, mem) && old(reach) <= reach && Grew(r0, w0, reach, work')
        invariant forall c :: c in aliases && c !in todo ==> Holds(reach, t.from, c, state)
        decreases todo
      {
        var c :| c in todo;
        todo := todo - {c};
        assert (t.to, c) in mem;
        if t.from != c { JustifyHop(g, t, c); }
        ghost var r, w := reach, work';
        work' := Propagate(t.from, c, state, work');
        GrewOn(r0, w0, r, w, reach, work');
      }
    }

    /** A new pair of value aliases makes the nodes below them memory aliases; every item that
        already ends at the first of them goes on to the second. */
    method AddMemAlias(t: Item, work: seq<Item>) returns (work': seq<Item>)
      requires Sound(g, reach, mem) && MemStarted(reach, mem) && t in reach
      modifies this`reach, this`mem
      ensures Sound(g, reach, mem) && MemStarted(reach, mem) && Grew(old(reach), work, reach, work')
      ensures old(mem) <= mem && BelowDone(g, mem, t) && NewHopsDone(old(reach), old(mem), reach, mem)
    {
      work' := work;
      var fromBelow, toBelow := NodeBelow(g, t.from), NodeBelow(g, t.to);
      if fromBelow.Some? && toBelow.Some? && (fromBelow.value, toBelow.value) !in mem {
        var x, y := fromBelow.value, toBelow.value;
        assert t.from != t.to;
        JustifyMem(g, t);
        mem := mem + {(x, y)};
        JustifyFirstHop(g, x, y);
        work' := Propagate(x, y, FlowFromMemAliasNoReadWrite, work');
        work' := FollowMemAlias(x, y, work', old(reach), work);
      }
    }

    /** Every item that ends at `x` goes on over the hop from `x` to `y`. */
    method FollowMemAlias(x: Node, y: Node, work: seq<Item>, ghost r0: set<Item>, ghost w0: seq<Item>)
      returns (work': seq<Item>)
      requires Sound(g, reach, mem) && (x, y) in mem && x != y && Grew(r0, w0, reach, work)
      modifies this`reach
      ensures Sound(g, reach, mem) && old(reach) <= reach && Grew(r0, w0, reach, work')
      ensures forall u :: u in reach && u.to == x ==> HopDone(reach, u, y)
    {
      work' := work;
      var sources := set u | u in reach && u.to == x :: u.from;
      assert forall u :: u in reach && u.to == x ==> u.from in sources;
      var todo := sources;
      while todo != {}
        invariant todo <= sources && sources <= g.nodes && old(reach) <= reach
        invariant Sound(g, reach, mem) && Grew(r0, w0, reach, work')
        invariant forall u :: u in reach && u.to == x ==> u.from in sources
        invariant forall u :: u in reach && u.to == x && u.from !in todo ==> HopDone(reach, u, y)
        decreases todo
      {
        var src :| src in todo;
        todo := todo - {src};
        ghost var r := reach;
        work' := MemAliasPropagate(src, x, y, work', r0, w0);
        forall u | u in reach && u.to == x && u.from !in todo
          ensures HopDone(reach, u, y)
        {
          assert u in r;
          if u.from != src { assert HopDone(r, u, y); }
        }
      }
    }

    /** The three states in which an item goes on over a memory hop. */
    method MemAliasPropagate(src: Node, x: Node, y: Node, work: seq<Item>, ghost r0: set<Item>, ghost w0: seq<Item>)
      returns (work': seq<Item>)
      requires Sound(g, reach, mem) && src in g.nodes && (x, y) in mem && Grew(r0, w0, reach, work)
      modifies this`reach
      ensures Sound(g, reach, mem) && old(reach) <= reach && Grew(r0, w0, reach, work')
      ensures forall u :: u in reach && u !in old(reach) ==> u.to == y
      ensures forall u :: u in reach && u.to == x && u.from == src ==> HopDone(reach, u, y)
    {
      work' := MemAliasPropagateFrom(src, x, y, FlowFromReadOnly, FlowFromMemAliasReadOnly, work, r0, w0);
      work' := MemAliasPropagateFrom(src, x, y, FlowToWriteOnly, FlowToMemAliasWriteOnly, work', r0, w0);
      work' := MemAliasPropagateFrom(src, x, y, FlowToReadWrite, FlowToMemAliasReadWrite, work', r0, w0);
    }

    method MemAliasPropagateFrom(src: Node, x: Node, y: Node, fromState: MatchState, toState: MatchState,
                                 work: seq<Item>, ghost r0: set<Item>, ghost w0: seq<Item>) returns (work': seq<Item>)
      requires Sound(g, reach, mem) && src in g.nodes && (x, y) in mem && Grew(r0, w0, reach, work)
      requires Next(fromState, Mem) == Some(toState)
      modifies this`reach
      ensures Sound(g, reach, mem) && old(reach) <= reach && Grew(r0, w0, reach, work')
      ensures forall u :: u in reach && u !in old(reach) ==> u.to == y
      ensures Item(src, x, fromState) in reach ==> Holds(reach, src, y, toState)
    {
      work' := work;
      if Item(src, x, fromState) in reach {
        if src != y { JustifyHop(g, Item(src, x, fromState), y); }
        work' := Propagate(src, y, toState, work');
        GrewOn(r0, w0, old(reach), work, reach, work');
      }
    }

    /** One item: first the memory aliases it gives rise to, then the moves of the automaton. */
    method ProcessWorkListItem(t: Item, work: seq<Item>, ghost pend: set<Item>) returns (work': seq<Item>)
      requires g.Valid() && Progress(g, reach, mem, pend) && t in pend && (forall u :: u in work ==> u in reach)
      modifies this`reach, this`mem
      ensures Grew(old(reach), work, reach, work')
      ensures Progress(g, reach, mem, pend - {t} + (set u | u in work'))
    {
      work' := AddMemAlias(t, work);
      match t.state {
        case FlowFromReadOnly =>
          work' := NextRevAssignState(t, FlowFromReadOnly, work', old(reach), work);
          work' := NextAssignState(t, FlowToReadWrite, work', old(reach), work);
          work' := NextMemState(t, FlowFromMemAliasReadOnly, work', old(reach), work);
        case FlowFromMemAliasNoReadWrite =>
          work' := NextRevAssignState(t, FlowFromReadOnly, work', old(reach), work);
          work' := NextAssignState(t, FlowToWriteOnly, work', old(reach), work);
        case FlowFromMemAliasReadOnly =>
          work' := NextRevAssignState(t, FlowFromReadOnly, work', old(reach), work);
          work' := NextAssignState(t, FlowToReadWrite, work', old(reach), work);
        case FlowToWriteOnly =>
          work' := NextAssignState(t, FlowToWriteOnly, work', old(reach), work);
          work' := NextMemState(t, FlowToMemAliasWriteOnly, work', old(reach), work);
        case FlowToReadWrite =>
          work' := NextAssignState(t, FlowToReadWrite, work', old(reach), work);
          work' := NextMemState(t, FlowToMemAliasReadWrite, work', old(reach), work);
        case FlowToMemAliasWriteOnly =>
          work' := NextAssignState(t, FlowToWriteOnly, work', old(reach), work);
        case FlowToMemAliasReadWrite =>
          work' := NextAssignState(t, FlowToReadWrite, work', old(reach), work);
      }
      ProgressOn(g, old(reach), old(mem), reach, mem, pend, work, work', t);
    }

    /** One round: every item of `work` is processed, and what is new is collected. */
    method ProcessRound(work: seq<Item>) returns (next: seq<Item>)
      requires g.Valid() && Progress(g, reach, mem, set u | u in work) && Started(g, reach)
      modifies this`reach, this`mem
      ensures Progress(g, reach, mem, set u | u in next) && Started(g, reach)
      ensures Grew(old(reach), [], reach, next)
    {
      next := [];
      var i := 0;
      while i < |work|
        invariant 0 <= i <= |work| && Started(g, reach) && Grew(old(reach), [], reach, next)
        invariant Progress(g, reach, mem, (set u | u in work[i..]) + (set u | u in next))
      {
        ghost var r, n, rest, pend := reach, next, work[i + 1..], (set u | u in work[i..]) + (set u | u in next);
        assert work[i..] == [work[i]] + rest;
        next := ProcessWorkListItem(work[i], next, pend);
        GrewOn(old(reach), [], r, n, reach, next);
        ProgressFewer(g, reach, mem, pend - {work[i]} + (set u | u in next), (set u | u in rest) + (set u | u in next),
                      rest, next, n, work[i]);
        i := i + 1;
      }
      assert (set u | u in work[i..]) + (set u | u in next) == set u | u in next;
    }

    /** Runs the worklist until it is empty. What is stored then is exactly value aliasing, and,
        seen without the states, a symmetric relation. */
    method BuildReachSet()
      requires g.Valid() && reach == {} && mem == {}
      modifies this`reach, this`mem
      ensures Closed(g, reach, mem) && Sound(g, reach, mem)
      ensures StoresKinds(g, reach) && StoresAliases(g, reach) && StoresMemAliases(g, mem) && StoredSymmetric(reach)
    {
      var work := InitializeWorkList();
      while work != []
        invariant Progress(g, reach, mem, set u | u in work) && Started(g, reach)
        decreases Universe(g) - reach, |work|
      {
        ghost var r := reach;
        work := ProcessRound(work);
        LessLeft(g, r, reach, mem, work);
      }
      Final(g, reach, mem);
    }
  }

  /** The pair is stored in some state. */
  ghost predicate Stored(reach: set<Item>, a: Node, b: Node) {
    exists s :: Item(a, b, s) in reach
  }

  lemma ProgressFewer(g: Graph, reach: set<Item>, mem: set<(Node, Node)>, pend: set<Item>, pend': set<Item>,
                      rest: seq<Item>, next: seq<Item>, before: seq<Item>, t: Item)
    requires Progress(g, reach, mem, pend)
    requires pend == (set u | u in [t] + rest) + (set u | u in before) - {t} + (set u | u in next)
    requires pend' == (set u | u in rest) + (set u | u in next) && before <= next
    requires forall u :: u in rest ==> u in reach
    ensures Progress(g, reach, mem, pend')
  {
    forall u | u in pend
      ensures u in pend'
    {
      if u in before {
        var i :| 0 <= i < |before| && before[i] == u;
        assert next[i] == u;
      }
    }
  }

  /** Distinct nodes are stored with each other iff they are value aliases. */
  ghost predicate StoresAliases(g: Graph, reach: set<Item>) {
    forall a, b :: a != b ==> (Stored(reach, a, b) <==> ValueAlias(g, a, b))
  }

  ghost predicate StoresMemAliases(g: Graph, mem: set<(Node, Node)>) {
    forall x, y :: x != y ==> ((x, y) in mem <==> MemAlias(g, x, y))
  }

  /** Stored are the items of distinct nodes with a straight path between them of just the item's kind. */
  ghost predicate StoresKinds(g: Graph, reach: set<Item>) {
    forall t :: t in reach <==> t.from != t.to && OfKind(g, t)
  }

  /** A round that leaves work has stored something new. */
  lemma LessLeft(g: Graph, r: set<Item>, reach: set<Item>, mem: set<(Node, Node)>, work: seq<Item>)
    requires Sound(g, reach, mem) && Grew(r, [], reach, work)
    ensures Universe(g) - reach <= Universe(g) - r
    ensures work != [] ==> Universe(g) - reach < Universe(g) - r
  {
    if work != [] {
      assert work[0] in reach && work[0] !in r;
      assert Item(work[0].from, work[0].to, work[0].state) in Universe(g);
    } else {
      assert forall t :: t in reach ==> t in r;
    }
  }

  /** When the worklist is empty. */
  lemma Final(g: Graph, reach: set<Item>, mem: set<(Node, Node)>)
    requires Progress(g, reach, mem, {}) && Started(g, reach)
    ensures Closed(g, reach, mem) && Sound(g, reach, mem)
    ensures StoresKinds(g, reach) && StoresAliases(g, reach) && StoresMemAliases(g, mem) && StoredSymmetric(reach)
  {
    FinalKinds(g, reach, mem);
    FinalReach(g, reach, mem);
    FinalMem(g, reach, mem);
    FinalSymmetric(g, reach, mem);
  }

  lemma FinalKinds(g: Graph, reach: set<Item>, mem: set<(Node, Node)>)
    requires Sound(g, reach, mem) && Closed(g, reach, mem)
    ensures StoresKinds(g, reach)
  {
    forall t
      ensures t in reach <==> t.from != t.to && OfKind(g, t)
    {
      assert forall u :: u in reach ==> Justified(g, u);
      ExactlyKinds(g, reach, mem, t);
    }
  }

  // The two questions that a summary asks about the states of a pair.

  predicate HasReadOnlyState(reach: set<Item>, a: Node, b: Node) {
    Item(a, b, FlowFromReadOnly) in reach || Item(a, b, FlowFromMemAliasReadOnly) in reach
  }

  predicate HasWriteOnlyState(reach: set<Item>, a: Node, b: Node) {
    Item(a, b, FlowToWriteOnly) in reach || Item(a, b, FlowToMemAliasWriteOnly) in reach
  }

  /** A straight path that goes along assignments just if it may, and against them just if it may. */
  ghost predicate Flows(g: Graph, a: Node, b: Node, read: bool, written: bool) {
    exists p :: Spells(g, p, a, b) && Straight(p) && (Rev in Word(p) <==> read) && (Fwd in Word(p) <==> written)
  }

  /** A pair has a read-only state just if a path leads from one to the other against assignments only, and over
      memory hops; and a write-only state just if one leads along assignments only. */
  lemma OneWayStates(g: Graph, reach: set<Item>, a: Node, b: Node)
    requires StoresKinds(g, reach) && a != b
    ensures HasReadOnlyState(reach, a, b) <==> Flows(g, a, b, true, false)
    ensures HasWriteOnlyState(reach, a, b) <==> Flows(g, a, b, false, true)
  {
    KindFlows(g, a, b, FlowFromReadOnly, FlowFromMemAliasReadOnly, true, false);
    KindFlows(g, a, b, FlowToWriteOnly, FlowToMemAliasWriteOnly, false, true);
  }

  lemma KindFlows(g: Graph, a: Node, b: Node, s: MatchState, hop: MatchState, read: bool, written: bool)
    requires read != written
    requires s == (if read then FlowFromReadOnly else FlowToWriteOnly)
    requires hop == (if read then FlowFromMemAliasReadOnly else FlowToMemAliasWriteOnly)
    ensures OfKind(g, Item(a, b, s)) || OfKind(g, Item(a, b, hop)) <==> Flows(g, a, b, read, written)
  {
    if Flows(g, a, b, read, written) {
      var p :| Spells(g, p, a, b) && Straight(p) && (Rev in Word(p) <==> read) && (Fwd in Word(p) <==> written);
      assert Means(s, Word(p)) || Means(hop, Word(p));
    }
  }

  ghost predicate StoredSymmetric(reach: set<Item>) {
    forall a, b :: Stored(reach, a, b) ==> Stored(reach, b, a)
  }

  lemma FinalReach(g: Graph, reach: set<Item>, mem: set<(Node, Node)>)
    requires Sound(g, reach, mem) && Closed(g, reach, mem)
    ensures StoresAliases(g, reach)
  {
    forall a, b | a != b
      ensures Stored(reach, a, b) <==> ValueAlias(g, a, b)
    {
      assert forall t :: t in reach ==> Justified(g, t);
      ExactlyAliases(g, reach, mem, a, b);
    }
  }

  lemma MemIsAlias(g: Graph, x: Node, y: Node)
    requires MemJustified(g, x, y)
    ensures MemAlias(g, x, y)
  {
    var p :| Follows(g, p) && InGrammar(Word(p)) && x == Below(First(p)) && y == Below(Last(p));
    assert Spells(g, p, First(p), Last(p));
    assert ValueAlias(g, First(p), Last(p));
  }

  lemma AliasIsMem(g: Graph, reach: set<Item>, mem: set<(Node, Node)>, x: Node, y: Node)
    requires Sound(g, reach, mem) && Closed(g, reach, mem) && StoresAliases(g, reach)
    requires x != y && MemAlias(g, x, y)
    ensures (x, y) in mem
  {
    var a, b :| x == Below(a) && y == Below(b) && ValueAlias(g, a, b);
    assert Stored(reach, a, b);
    var s :| Item(a, b, s) in reach;
    assert BelowDone(g, mem, Item(a, b, s));
  }

  lemma FinalMem(g: Graph, reach: set<Item>, mem: set<(Node, Node)>)
    requires Sound(g, reach, mem) && Closed(g, reach, mem)
    ensures StoresMemAliases(g, mem)
  {
    FinalReach(g, reach, mem);
    forall x, y | x != y
      ensures (x, y) in mem <==> MemAlias(g, x, y)
    {
      if (x, y) in mem {
        assert MemJustified(g, x, y);
        MemIsAlias(g, x, y);
      }
      if MemAlias(g, x, y) {
        AliasIsMem(g, reach, mem, x, y);
      }
    }
  }

  lemma FinalSymmetric(g: Graph, reach: set<Item>, mem: set<(Node, Node)>)
    requires Sound(g, reach, mem) && Closed(g, reach, mem)
    ensures StoredSymmetric(reach)
  {
    FinalReach(g, reach, mem);
    forall a, b | Stored(reach, a, b)
      ensures Stored(reach, b, a)
    {
      AliasSymmetric(g, a, b);
    }
  }
}
