/** Propagating mass through one loop: from its headers forward through its members, to back edges and exits. */
module BFIMass {
  import opened Probability
  import opened BFIWeights
  import opened BFIScaling
  import opened BFIDistribution
  import opened BFIFlow
  import opened BFIHeaderMass
  import opened BFIPortions

  /** An edge to a (resolved) block, with its branch weight or the mass that leaves a packaged loop by it. */
  datatype Edge = Edge(target: Node, weight: int)

  /** A weight of zero still counts as one. */
  function EdgeWeight(e: Edge): int { if e.weight == 0 then 1 else e.weight }

  function WeightsOf(headers: seq<Node>, members: seq<Node>, es: seq<Edge>): (ws: seq<Weight>)
    ensures |ws| == |es|
  {
    if es == [] then []
    else
      var e := es[|es| - 1];
      WeightsOf(headers, members, es[..|es| - 1]) +
        [Weight(KindOf(headers, members, e.target), e.target, EdgeWeight(e))]
  }

  lemma {:induction false} WeightsAt(headers: seq<Node>, members: seq<Node>, es: seq<Edge>, i: nat)
    requires i < |es|
    ensures WeightsOf(headers, members, es)[i] ==
      Weight(KindOf(headers, members, es[i].target), es[i].target, EdgeWeight(es[i]))
    decreases |es|
  {
    if i < |es| - 1 {
      WeightsAt(headers, members, es[..|es| - 1], i);
    }
  }

  function EdgeSum(es: seq<Edge>): int {
    if es == [] then 0 else EdgeSum(es[..|es| - 1]) + EdgeWeight(es[|es| - 1])
  }

  function EdgeTargets(es: seq<Edge>): set<Node> { set e | e in es :: e.target }

  /** What one block's edges may weigh: their sum overflows at most once, and stays below the limit. */
  predicate Weighable(es: seq<Edge>) {
    |es| < U32 && Addable(es) && Fits(|EdgeTargets(es)|, EdgeSum(es))
  }

  predicate Addable(es: seq<Edge>) {
    EdgeSum(es) < 2 * U64 && forall i | 0 <= i < |es| :: 0 <= es[i].weight < U64
  }

  /** An edge between members that goes backward makes the control flow irreducible. */
  predicate Allowed(headers: seq<Node>, members: seq<Node>, pred: Node, target: Node) {
    target in headers || target !in members || pred.index <= target.index || pred in headers
  }

  predicate AllAllowed(headers: seq<Node>, members: seq<Node>, pred: Node, es: seq<Edge>) {
    forall i | 0 <= i < |es| :: Allowed(headers, members, pred, es[i].target)
  }

  lemma {:induction false} WeightsSum(headers: seq<Node>, members: seq<Node>, es: seq<Edge>)
    requires forall i | 0 <= i < |es| :: 0 <= es[i].weight
    ensures Sum(WeightsOf(headers, members, es)) == EdgeSum(es)
    decreases |es|
  {
    if es != [] {
      WeightsSum(headers, members, es[..|es| - 1]);
      var ws := WeightsOf(headers, members, es);
      SumAppend(ws[..|es| - 1], ws[|es| - 1]);
    }
  }

  lemma NextEdge(headers: seq<Node>, members: seq<Node>, es: seq<Edge>, n: nat)
    requires n < |es| && forall i | 0 <= i < |es| :: 0 <= es[i].weight
    ensures WeightsOf(headers, members, es[..n + 1]) == WeightsOf(headers, members, es[..n])
      + [Weight(KindOf(headers, members, es[n].target), es[n].target, EdgeWeight(es[n]))]
    ensures Sum(WeightsOf(headers, members, es[..n])) + EdgeWeight(es[n]) <= EdgeSum(es)
  {
    assert es[..n + 1][..n] == es[..n];
    WeightsSum(headers, members, es[..n]);
    PrefixGrows(es, n + 1);
  }

  /** The weights of the first n edges; none of these is an irreducible back edge. */
  ghost predicate Collected(ws: seq<Weight>, headers: seq<Node>, members: seq<Node>, node: Node, es: seq<Edge>,
                            n: nat) {
    && n <= |es| && ws == WeightsOf(headers, members, es[..n])
    && forall k | 0 <= k < n :: Allowed(headers, members, node, es[k].target)
  }

  lemma CollectNext(ws: seq<Weight>, headers: seq<Node>, members: seq<Node>, node: Node, es: seq<Edge>, n: nat)
    requires Addable(es) && n < |es| && Collected(ws, headers, members, node, es, n)
    ensures 0 <= es[n].weight < U64 && Sum(ws) + EdgeWeight(es[n]) < 2 * U64
    ensures var next := Weight(KindOf(headers, members, es[n].target), es[n].target, EdgeWeight(es[n]));
      Allowed(headers, members, node, es[n].target) ==> Collected(ws + [next], headers, members, node, es, n + 1)
  {
    NextEdge(headers, members, es, n);
  }

  lemma {:induction false} PrefixGrows(es: seq<Edge>, n: nat)
    requires n <= |es| && forall i | 0 <= i < |es| :: 0 <= es[i].weight
    ensures EdgeSum(es[..n]) <= EdgeSum(es)
    decreases |es|
  {
    if n < |es| {
      PrefixGrows(es[..|es| - 1], n);
      assert es[..|es| - 1][..n] == es[..n];
    } else {
      assert es[..n] == es;
    }
  }

  /** Edges of one block to one target are all of one kind. */
  lemma WeightsManageable(headers: seq<Node>, members: seq<Node>, es: seq<Edge>)
    requires Weighable(es)
    ensures Manageable(WeightsOf(headers, members, es)) && Kinds(headers, members, WeightsOf(headers, members, es))
  {
    WeightsSum(headers, members, es);
    SameTargets(headers, members, es);
    WeightsPositive(headers, members, es);
    KindsAgree(headers, members, WeightsOf(headers, members, es));
  }

  lemma WeightsPositive(headers: seq<Node>, members: seq<Node>, es: seq<Edge>)
    requires Addable(es)
    ensures Positive(WeightsOf(headers, members, es)) && Kinds(headers, members, WeightsOf(headers, members, es))
  {
    var ws := WeightsOf(headers, members, es);
    forall i | 0 <= i < |es| ensures 0 < ws[i].amount < U64 && ws[i].kind == KindOf(headers, members, ws[i].target) {
      WeightsAt(headers, members, es, i);
    }
  }

  lemma KindsAgree(headers: seq<Node>, members: seq<Node>, ws: seq<Weight>)
    requires Kinds(headers, members, ws)
    ensures OneKind(ws)
  {
    assert forall i, j | 0 <= i < |ws| && 0 <= j < |ws| :: SameKind(ws, i, j);
  }

  lemma {:induction false} SameTargets(headers: seq<Node>, members: seq<Node>, es: seq<Edge>)
    ensures Targets(WeightsOf(headers, members, es)) == EdgeTargets(es)
    decreases |es|
  {
    if es != [] {
      var rest, e := es[..|es| - 1], es[|es| - 1];
      var w := Weight(KindOf(headers, members, e.target), e.target, EdgeWeight(e));
      SameTargets(headers, members, rest);
      SumForAppend(WeightsOf(headers, members, rest), w, e.target);
      assert es == rest + [e];
    }
  }

  lemma NormalizedKinds(headers: seq<Node>, members: seq<Node>, out: seq<Weight>, ws: seq<Weight>)
    requires Positive(ws) && Normalized(out, ws) && Kinds(headers, members, ws)
    ensures Kinds(headers, members, out)
    ensures out == [] <==> ws == []
  {
    forall k | 0 <= k < |out| ensures out[k].kind == KindOf(headers, members, out[k].target) {
      assert ScaledFor(out[k], ws);
      assert out[k].target in Targets(out);
    }
    if ws != [] { assert ws[0].target in Targets(out); }
    if out != [] { assert out[0].target in Targets(ws); }
  }

  /** The state of a loop that masses can be delivered in. */
  predicate Ready(f: Flow, headers: seq<Node>, members: seq<Node>) {
    && headers != [] && |headers| < U32
    && Increasing(headers) && Increasing(members)
    && (forall n | n in headers :: n in f.mass && n !in members)
    && (forall n | n in members :: n in f.mass)
    && |f.backedge| == |headers|
    && FlowOk(f)
  }

  /** How the mass of one block moves on: along ws, its normalized edges. */
  ghost predicate Moved(before: Flow, after: Flow, headers: seq<Node>, members: seq<Node>, node: Node, es: seq<Edge>,
                        ws: seq<Weight>) {
    && Ready(before, headers, members) && node in before.mass
    && Weighable(es) && Positive(WeightsOf(headers, members, es))
    && Normalized(ws, WeightsOf(headers, members, es))
    && Kinds(headers, members, ws) && Splits(ws, Sum(ws)) && (ws == [] <==> es == [])
    && after == DeliverAll(before, headers, ws, before.mass[node], Sum(ws))
  }

  /** Visiting a block: its mass is split by its normalized weights, and each portion gets where its edge leads. */
  ghost predicate Visited(f: Flow, r: Flow, headers: seq<Node>, members: seq<Node>, node: Node, es: seq<Edge>) {
    exists ws :: VisitedBy(f, r, headers, members, node, es, ws)
  }

  ghost predicate VisitedBy(f: Flow, r: Flow, headers: seq<Node>, members: seq<Node>, node: Node, es: seq<Edge>,
                            ws: seq<Weight>) {
    && node in f.mass && IsMass(f.mass[node]) && Splits(ws, Sum(ws))
    && Positive(WeightsOf(headers, members, es)) && Normalized(ws, WeightsOf(headers, members, es))
    && Received(f, r, headers, members, ws, Portions(ws, f.mass[node], Sum(ws)))
  }

  /** The states of a sweep: in each step one block is visited, in order. */
  ghost predicate Sweeps(trace: seq<Flow>, headers: seq<Node>, members: seq<Node>, nodes: seq<Node>,
                         edges: map<Node, seq<Edge>>) {
    && 0 < |trace| <= |nodes| + 1 && (forall n | n in nodes :: n in edges)
    && forall i {:trigger SweepStep(trace, headers, members, nodes, edges, i)} | 0 <= i < |trace| - 1 ::
        SweepStep(trace, headers, members, nodes, edges, i)
  }

  ghost predicate SweepStep(trace: seq<Flow>, headers: seq<Node>, members: seq<Node>, nodes: seq<Node>,
                            edges: map<Node, seq<Edge>>, i: nat)
    requires i + 1 < |trace| && i < |nodes| && nodes[i] in edges
  {
    Visited(trace[i], trace[i + 1], headers, members, nodes[i], edges[nodes[i]])
  }

  lemma SweepOn(trace: seq<Flow>, r: Flow, headers: seq<Node>, members: seq<Node>, nodes: seq<Node>,
                edges: map<Node, seq<Edge>>)
    requires Sweeps(trace, headers, members, nodes, edges) && |trace| <= |nodes|
    requires var i := |trace| - 1; Visited(trace[i], r, headers, members, nodes[i], edges[nodes[i]])
    ensures Sweeps(trace + [r], headers, members, nodes, edges)
  {
    forall i | 0 <= i < |trace|
      ensures SweepStep(trace + [r], headers, members, nodes, edges, i)
    {
      if i < |trace| - 1 { assert SweepStep(trace, headers, members, nodes, edges, i); }
    }
  }

  /** What leaves the loop in a sweep goes outside: to no header and to no member. */
  lemma {:induction false} ExitsOutside(trace: seq<Flow>, headers: seq<Node>, members: seq<Node>, nodes: seq<Node>,
                                        edges: map<Node, seq<Edge>>, n: nat)
    requires Sweeps(trace, headers, members, nodes, edges) && n < |trace|
    ensures LeftOutside(trace[0].exits, trace[n].exits, headers, members)
    decreases n
  {
    if n > 0 {
      ExitsOutside(trace, headers, members, nodes, edges, n - 1);
      assert SweepStep(trace, headers, members, nodes, edges, n - 1);
    }
  }

  /** The new exits are outside the loop. */
  predicate LeftOutside(before: seq<ExitMass>, after: seq<ExitMass>, headers: seq<Node>, members: seq<Node>) {
    && before <= after
    && forall i | |before| <= i < |after| :: after[i].target !in headers && after[i].target !in members
  }

  lemma MovedVisits(before: Flow, after: Flow, headers: seq<Node>, members: seq<Node>, node: Node, es: seq<Edge>,
                    ws: seq<Weight>)
    requires Moved(before, after, headers, members, node, es, ws)
    ensures Visited(before, after, headers, members, node, es)
  {
    DeliverAllReceived(before, headers, members, ws, before.mass[node], Sum(ws));
    assert VisitedBy(before, after, headers, members, node, es, ws);
  }

  /** The blocks without edges: mass that reaches them stays there. */
  function Ends(ns: seq<Node>, edges: map<Node, seq<Edge>>): (r: seq<Node>)
    requires forall n | n in ns :: n in edges
    ensures forall n | n in r :: n in ns
  {
    if ns == [] then []
    else Ends(ns[..|ns| - 1], edges) + if edges[ns[|ns| - 1]] == [] then [ns[|ns| - 1]] else []
  }

  /** Everything there is: at blocks not visited yet, at visited blocks without edges, back at headers, and outside. */
  function AllMass(f: Flow, nodes: seq<Node>, i: nat, edges: map<Node, seq<Edge>>): int
    requires i <= |nodes| && forall n | n in nodes :: n in f.mass && n in edges
  {
    Total(f, nodes[i..]) + SumMass(Ends(nodes[..i], edges), f.mass)
  }

  lemma {:induction false} NoDupSuffix(ns: seq<Node>, i: nat)
    requires NoDup(ns) && i < |ns|
    ensures NoDup(ns[i + 1..]) && ns[i] !in ns[..i] && ns[i] !in ns[i + 1..]
    ensures forall n | n in ns[..i] :: n !in ns[i + 1..]
    decreases i
  {
    if i > 0 {
      NoDupSuffix(ns[1..], i - 1);
      assert ns[1..][i..] == ns[i + 1..];
      assert ns[..i] == [ns[0]] + ns[1..][..i - 1];
      assert ns[0] !in ns[1..];
      assert forall n | n in ns[i..] :: n in ns[1..];
    }
  }

  /** In processing order, what an edge reaches inside the loop is still to come, unless it is an edge of a block to
      itself. */
  lemma GoesForward(headers: seq<Node>, members: seq<Node>, i: nat, target: Node)
    requires Increasing(headers) && Increasing(members) && forall n | n in headers :: n !in members
    requires i < |headers + members| && KindOf(headers, members, target) == Local
    requires Allowed(headers, members, (headers + members)[i], target)
    ensures target == (headers + members)[i] || target in (headers + members)[i + 1..]
  {
    var nodes := headers + members;
    var k :| 0 <= k < |members| && members[k] == target;
    assert nodes[|headers| + k] == target;
    if target != nodes[i] {
      if i >= |headers| {
        var j := i - |headers|;
        assert nodes[i] == members[j];
        assert k < j ==> Before(members, k, j);
      }
      assert nodes[i + 1..][|headers| + k - i - 1] == target;
    }
  }

  /** Visiting a block moves its mass out of the blocks not visited yet. */
  lemma AllMassStep(f: Flow, nodes: seq<Node>, i: nat, edges: map<Node, seq<Edge>>)
    requires i < |nodes| && forall n | n in nodes :: n in f.mass && n in edges
    ensures AllMass(f, nodes, i, edges) ==
      f.mass[nodes[i]] + Total(f, nodes[i + 1..]) + SumMass(Ends(nodes[..i], edges), f.mass)
    ensures AllMass(f, nodes, i + 1, edges) ==
      Total(f, nodes[i + 1..]) + SumMass(Ends(nodes[..i], edges), f.mass) +
        if edges[nodes[i]] == [] then f.mass[nodes[i]] else 0
  {
    assert nodes[i..][0] == nodes[i] && nodes[i..][1..] == nodes[i + 1..];
    assert nodes[..i + 1][..i] == nodes[..i];
    var ends := Ends(nodes[..i], edges);
    assert Ends(nodes[..i + 1], edges) == if edges[nodes[i]] == [] then ends + [nodes[i]] else ends;
    SumMassAppend(Ends(nodes[..i], edges), nodes[i], f.mass);
  }

  /** Visiting one block adds no mass, and keeps the sum of all mass if no addition can saturate and the block has no
      edge to itself. */
  lemma StepConserves(before: Flow, after: Flow, headers: seq<Node>, nodes: seq<Node>, i: nat,
                      edges: map<Node, seq<Edge>>, ws: seq<Weight>)
    requires FlowOk(before) && NoDup(nodes) && i < |nodes| && forall n | n in nodes :: n in edges && n in before.mass
    requires Splits(ws, Sum(ws)) && (forall k | 0 <= k < |ws| :: Reaches(before, headers, ws[k]))
    requires after == DeliverAll(before, headers, ws, before.mass[nodes[i]], Sum(ws))
    requires ws == [] <==> edges[nodes[i]] == []
    requires Spared(headers, ws) &&
      forall k | 0 <= k < |ws| && ws[k].kind == Local :: ws[k].target == nodes[i] || ws[k].target in nodes[i + 1..]
    ensures FlowOk(after) && after.mass.Keys == before.mass.Keys && |after.backedge| == |before.backedge|
    ensures AllMass(after, nodes, i + 1, edges) <= AllMass(before, nodes, i, edges)
    ensures Stays(nodes[i + 1..], ws) && AllMass(before, nodes, i, edges) <= FULL ==>
      AllMass(after, nodes, i + 1, edges) == AllMass(before, nodes, i, edges)
    ensures SameAt(headers, before, after)
  {
    var node, rest, ends := nodes[i], nodes[i + 1..], Ends(nodes[..i], edges);
    AllMassStep(before, nodes, i, edges);
    NoDupSuffix(nodes, i);
    SumMassBounds(ends, before.mass, node);
    if ws != [] {
      assert Spared(ends + headers, ws);
      DeliverAllConserves(before, headers, rest, ends + headers, ws, before.mass[node], Sum(ws));
      SumMassSame(ends, before.mass, after.mass);
    }
    AllMassStep(after, nodes, i, edges);
  }

  lemma TargetsFollow(ws: seq<Weight>, headers: seq<Node>, members: seq<Node>, nodes: seq<Node>, i: nat, es: seq<Edge>)
    requires Increasing(headers) && Increasing(members) && forall n | n in headers :: n !in members
    requires nodes == headers + members && i < |nodes| && AllAllowed(headers, members, nodes[i], es)
    requires Kinds(headers, members, ws) && Targets(ws) == Targets(WeightsOf(headers, members, es))
    ensures Spared(headers, ws)
    ensures forall k | 0 <= k < |ws| && ws[k].kind == Local ::
      ws[k].target == nodes[i] || ws[k].target in nodes[i + 1..]
    ensures (nodes[i] in members ==> NoSelfEdge(nodes[i], es)) ==> Stays(nodes[i + 1..], ws)
  {
    forall k | 0 <= k < |ws| && ws[k].kind == Local
      ensures ws[k].target !in headers && ws[k].target in members
      ensures ws[k].target == nodes[i] || ws[k].target in nodes[i + 1..]
      ensures NoSelfEdge(nodes[i], es) ==> ws[k].target != nodes[i]
    {
      WeightTarget(ws, headers, members, es, k);
      GoesForward(headers, members, i, ws[k].target);
    }
  }

  predicate NoSelfEdge(node: Node, es: seq<Edge>) {
    forall j | 0 <= j < |es| :: es[j].target != node
  }

  lemma EmptyWeights(headers: seq<Node>, members: seq<Node>, es: seq<Edge>)
    ensures WeightsOf(headers, members, es) == [] <==> es == []
  {
  }

  /** The sweep has reached nodes[i]: no mass was added since the start, none was lost if that can be promised, and the
      headers have what they started with. */
  ghost predicate Swept(start: Flow, f: Flow, headers: seq<Node>, members: seq<Node>, nodes: seq<Node>, i: nat,
                        edges: map<Node, seq<Edge>>) {
    && Ready(start, headers, members) && Ready(f, headers, members)
    && HeadersFirst(nodes, headers, members) && i <= |nodes| && EdgesOk(edges, nodes)
    && AllMass(f, nodes, i, edges) <= Total(start, nodes)
    && (NoSelfEdges(edges, members) && Total(start, nodes) <= FULL ==>
        AllMass(f, nodes, i, edges) == Total(start, nodes))
    && SameAt(headers, start, f)
  }

  lemma VisitConserves(start: Flow, before: Flow, after: Flow, headers: seq<Node>, members: seq<Node>,
                       nodes: seq<Node>, i: nat, edges: map<Node, seq<Edge>>, ws: seq<Weight>)
    requires Swept(start, before, headers, members, nodes, i, edges) && i < |nodes|
    requires AllAllowedAt(headers, members, nodes, i, edges)
    requires Moved(before, after, headers, members, nodes[i], edges[nodes[i]], ws)
    ensures Swept(start, after, headers, members, nodes, i + 1, edges)
  {
    assert nodes == headers + members;
    IncreasingNoDup(headers, members);
    TargetsFollow(ws, headers, members, nodes, i, edges[nodes[i]]);
    StepConserves(before, after, headers, nodes, i, edges, ws);
  }

  /** The order of the visits. */
  predicate HeadersFirst(nodes: seq<Node>, headers: seq<Node>, members: seq<Node>) {
    && |nodes| == |headers| + |members|
    && (forall i | 0 <= i < |headers| :: nodes[i] == headers[i])
    && forall i | |headers| <= i < |nodes| :: nodes[i] == members[i - |headers|]
  }

  predicate AllAllowedAt(headers: seq<Node>, members: seq<Node>, nodes: seq<Node>, k: int, edges: map<Node, seq<Edge>>)
    requires 0 <= k < |nodes| && forall n | n in nodes :: n in edges
  {
    AllAllowed(headers, members, nodes[k], edges[nodes[k]])
  }

  /** None of the first n blocks has an irreducible back edge. */
  predicate AllowedBefore(headers: seq<Node>, members: seq<Node>, nodes: seq<Node>, n: nat, edges: map<Node, seq<Edge>>)
    requires n <= |nodes| && forall n | n in nodes :: n in edges
  {
    forall k | 0 <= k < n :: AllAllowedAt(headers, members, nodes, k, edges)
  }

  /** No block of the loop has an irreducible back edge. */
  predicate AllowedIn(headers: seq<Node>, members: seq<Node>, edges: map<Node, seq<Edge>>)
    requires forall n | n in headers + members :: n in edges
  {
    AllowedBefore(headers, members, headers + members, |headers + members|, edges)
  }

  lemma WeightTarget(ws: seq<Weight>, headers: seq<Node>, members: seq<Node>, es: seq<Edge>, k: nat)
    requires k < |ws| && Targets(ws) == Targets(WeightsOf(headers, members, es))
    ensures exists j :: 0 <= j < |es| && es[j].target == ws[k].target
  {
    var all := WeightsOf(headers, members, es);
    assert ws[k].target in Targets(all);
    var i :| 0 <= i < |all| && all[i].target == ws[k].target;
    WeightsAt(headers, members, es, i);
  }

  /** The blocks that are in no package. */
  function Unpackaged(ns: seq<Node>, packaged: set<Node>): (r: seq<Node>)
    ensures forall n | n in r :: n in ns && n !in packaged
  {
    if ns == [] then []
    else Unpackaged(ns[..|ns| - 1], packaged) + if ns[|ns| - 1] in packaged then [] else [ns[|ns| - 1]]
  }

  /** A list on the way to being compacted: up to i it is done, into the first o places. */
  ghost predicate Packing(ns: seq<Node>, before: seq<Node>, packaged: set<Node>, o: nat, i: nat) {
    && o <= i <= |ns| == |before|
    && ns[..o] == Unpackaged(before[..i], packaged)
    && forall k | i <= k < |ns| :: ns[k] == before[k]
  }

  lemma PackNext(ns: seq<Node>, before: seq<Node>, packaged: set<Node>, o: nat, i: nat)
    requires Packing(ns, before, packaged, o, i) && i < |ns|
    ensures ns[i] in packaged ==> Packing(ns, before, packaged, o, i + 1)
    ensures ns[i] !in packaged ==> Packing(ns[o := ns[i]], before, packaged, o + 1, i + 1)
  {
    assert before[..i + 1][..i] == before[..i];
    var next := ns[o := ns[i]];
    assert next[..o + 1] == ns[..o] + [ns[i]];
  }

  lemma {:induction false} UnpackagedIncreasing(ns: seq<Node>, packaged: set<Node>)
    requires Increasing(ns)
    ensures Increasing(Unpackaged(ns, packaged))
    decreases |ns|
  {
    if ns != [] {
      var n, rest := |ns| - 1, Unpackaged(ns[..|ns| - 1], packaged);
      forall i, j | 0 <= i < j < n ensures Before(ns[..n], i, j) {
        assert Before(ns, i, j);
      }
      UnpackagedIncreasing(ns[..n], packaged);
      var all := Unpackaged(ns, packaged);
      forall i, j | 0 <= i < j < |all| ensures Before(all, i, j) {
        if j < |rest| {
          assert Before(rest, i, j);
        } else {
          assert rest[i] in ns[..n];
          var k :| 0 <= k < n && ns[k] == rest[i];
          assert Before(ns, k, n);
        }
      }
    }
  }

  function Zeros(n: nat): (r: seq<int>)
    ensures |r| == n && forall i | 0 <= i < n :: r[i] == 0
  {
    if n == 0 then [] else [0] + Zeros(n - 1)
  }

  class Loop {
    const headers: seq<Node>
    var members: seq<Node>
    var mass: map<Node, int>
    var backedge: seq<int>
    var exits: seq<ExitMass>

    constructor (headers: seq<Node>, members: seq<Node>, mass: map<Node, int>)
      ensures this.headers == headers && this.members == members
      ensures State() == Flow(mass, Zeros(|headers|), [])
    {
      this.headers, this.members := headers, members;
      this.mass, backedge, exits := mass, Zeros(|headers|), [];
    }

    ghost function State(): Flow
      reads this
    {
      Flow(mass, backedge, exits)
    }

    /** Adds one edge to a block's distribution, or gives up on an irreducible back edge. */
    method AddToDist(dist: Distribution, pred: Node, e: Edge) returns (ok: bool)
      requires dist.Valid() && 0 <= e.weight < U64 && Sum(dist.weights) + EdgeWeight(e) < 2 * U64
      modifies dist
      ensures dist.Valid()
      ensures ok == Allowed(headers, members, pred, e.target)
      ensures dist.weights == old(dist.weights) +
        if ok then [Weight(KindOf(headers, members, e.target), e.target, EdgeWeight(e))] else []
    {
      var weight := e.weight;
      if weight == 0 {
        weight := 1;
      }
      if e.target in headers {
        dist.Add(e.target, weight, Backedge);
        return true;
      }
      if e.target !in members {
        dist.Add(e.target, weight, Exit);
        return true;
      }
      if e.target.index < pred.index {
        if pred !in headers {
          return false;
        }
      }
      dist.Add(e.target, weight, Local);
      return true;
    }

    /** Hands out the mass of source by the weights of dist. */
    method DistributeMass(source: Node, dist: Distribution)
      requires dist.Valid() && Manageable(dist.weights) && Kinds(headers, members, dist.weights)
      requires Ready(State(), headers, members) && source in mass
      modifies this`mass, this`backedge, this`exits, dist
      ensures Positive(old(dist.weights)) && Normalized(dist.weights, old(dist.weights))
      ensures Kinds(headers, members, dist.weights) && Splits(dist.weights, Sum(dist.weights))
      ensures State() == DeliverAll(old(State()), headers, dist.weights, old(mass[source]), Sum(dist.weights))
      ensures var ps := Portions(dist.weights, old(mass[source]), Sum(dist.weights));
        Received(old(State()), State(), headers, members, dist.weights, ps)
    {
      ghost var before, given := State(), dist.weights;
      dist.Normalize();
      NormalizedKinds(headers, members, dist.weights, given);
      NormalizedSplits(dist.weights, given);
      AllReach(before, headers, members, dist.weights);
      DeliverAllReceived(before, headers, members, dist.weights, mass[source], dist.total);
      HandOut(mass[source], dist.weights, dist.total);
    }

    /** Each weight takes its portion of m. */
    method HandOut(m: int, weights: seq<Weight>, total: int)
      requires DeliverReady(State(), headers, weights, m, total)
      modifies this`mass, this`backedge, this`exits
      ensures DeliverReady(old(State()), headers, weights, m, total)
      ensures State() == DeliverAll(old(State()), headers, weights, m, total)
    {
      var d := new DitheringDistributer(total, m);
      ghost var all := DeliverAll(State(), headers, weights, m, total);
      var i := 0;
      assert weights[0..] == weights;
      while i < |weights|
        modifies this`mass, this`backedge, this`exits, d
        invariant 0 <= i <= |weights|
        invariant DeliverReady(State(), headers, weights[i..], d.remMass, d.remWeight)
        invariant DeliverAll(State(), headers, weights[i..], d.remMass, d.remWeight) == all
      {
        var w := weights[i];
        ghost var next := DeliverStep(State(), headers, weights, i, d.remMass, d.remWeight);
        var taken := d.TakeMass(w.amount);
        DeliverTo(w, taken);
        i := i + 1;
      }
    }

    /** One portion reaches its block, its header, or the list of exits. */
    method DeliverTo(w: Weight, taken: int)
      requires Reaches(State(), headers, w)
      modifies this`mass, this`backedge, this`exits
      ensures State() == Deliver(old(State()), headers, w, taken)
    {
      match w.kind {
        case Local => mass := mass[w.target := AddMass(mass[w.target], taken)];
        case Backedge =>
          var h := HeaderIndex(headers, w.target);
          backedge := backedge[h := AddMass(backedge[h], taken)];
        case Exit => exits := exits + [ExitMass(w.target, taken)];
      }
    }

    /** Moves the mass of one block along its edges, unless one of them is an irreducible back edge. */
    method PropagateMassToSuccessors(node: Node, es: seq<Edge>) returns (ok: bool, ghost ws: seq<Weight>)
      requires Ready(State(), headers, members) && node in mass && Weighable(es)
      modifies this`mass, this`backedge, this`exits
      ensures ok == AllAllowed(headers, members, node, es)
      ensures ok ==> Moved(old(State()), State(), headers, members, node, es, ws)
      ensures ok ==> Visited(old(State()), State(), headers, members, node, es)
      ensures !ok ==> State() == old(State())
    {
      ws := [];
      ghost var before := State();
      var dist;
      ok, dist := CollectSuccessors(node, es);
      if ok {
        WeightsManageable(headers, members, es);
        DistributeMass(node, dist);
        ws := dist.weights;
        NormalizedKinds(headers, members, ws, WeightsOf(headers, members, es));
        EmptyWeights(headers, members, es);
        MovedVisits(before, State(), headers, members, node, es, ws);
      }
    }

    /** The distribution of one block. */
    method CollectSuccessors(node: Node, es: seq<Edge>) returns (ok: bool, dist: Distribution)
      requires Addable(es)
      ensures fresh(dist) && dist.Valid()
      ensures ok == AllAllowed(headers, members, node, es)
      ensures ok ==> dist.weights == WeightsOf(headers, members, es)
    {
      dist := new Distribution();
      var i := 0;
      while i < |es|
        modifies dist
        invariant 0 <= i <= |es| && dist.Valid() && Collected(dist.weights, headers, members, node, es, i)
      {
        CollectNext(dist.weights, headers, members, node, es, i);
        ok := AddToDist(dist, node, es[i]);
        if !ok {
          return;
        }
        i := i + 1;
      }
      assert es[..i] == es;
      ok := true;
    }

    /** Full mass for the header; several headers share it. */
    method InitHeaders()
      requires Ready(State(), headers, members)
      modifies this`mass
      ensures FlowOk(State()) && mass.Keys == old(mass.Keys)
      ensures SumMass(headers, mass) == FULL && Starts(old(State()), State(), headers)
    {
      StartGiving(mass, headers);
      ghost var start := mass;
      if |headers| == 1 {
        GiveHeader(mass, mass, headers, 0, FULL);
        mass := mass[headers[0] := FULL];
      } else {
        ShareAmongHeaders();
      }
      AllGiven(start, mass, headers);
    }

    method ShareAmongHeaders()
      requires HeadersGiven(mass, mass, headers, 0, FULL)
      modifies this`mass
      ensures HeadersGiven(old(mass), mass, headers, |headers|, 0)
    {
      var remaining := FULL;
      var h := 0;
      ghost var start := mass;
      while h < |headers|
        invariant 0 <= h <= |headers| && HeadersGiven(start, mass, headers, h, remaining)
      {
        GiveHeader(start, mass, headers, h, remaining);
        var taken := TakeShare(remaining, 1, |headers| - h);
        mass := mass[headers[h] := taken];
        remaining := SubMass(remaining, taken);
        h := h + 1;
      }
    }

    /** Shares out a full mass among the headers again, by the mass that came back to each. A header
        that nothing came back to keeps the mass it had. */
    method AdjustLoopHeaderMass() returns (ghost ws: seq<Weight>)
      requires Ready(State(), headers, members) && Shareable(|headers|, SumInts(backedge))
      modifies this`mass
      ensures AreShares(ws, headers, backedge)
      ensures mass == AssignAll(old(mass), ws, FULL, Sum(ws)) && Reassigned(old(mass), mass, ws)
    {
      var dist := new Distribution();
      var h := 0;
      while h < |headers|
        modifies dist
        invariant 0 <= h <= |headers|
        invariant dist.Valid() && dist.weights == BackWeights(headers, backedge, h)
      {
        NextBack(headers, backedge, h);
        if backedge[h] > 0 {
          dist.Add(headers[h], backedge[h], Local);
        }
        h := h + 1;
      }
      BackWeightsManageable(headers, backedge);
      dist.Normalize();
      ws := dist.weights;
      NormalizedShares(ws, headers, backedge);
      AssignReassigns(mass, ws);
      AssignMass(dist);
    }

    /** Gives each target its portion of a full mass. */
    method AssignMass(dist: Distribution)
      requires Splits(dist.weights, dist.total)
      modifies this`mass
      ensures mass == AssignAll(old(mass), dist.weights, FULL, dist.total)
    {
      var d := new DitheringDistributer(dist.total, FULL);
      var weights := dist.weights;
      ghost var all := AssignAll(mass, weights, FULL, d.remWeight);
      var i := 0;
      assert weights[0..] == weights;
      while i < |weights|
        modifies this`mass, d
        invariant 0 <= i <= |weights|
        invariant IsMass(d.remMass) && Splits(weights[i..], d.remWeight)
        invariant AssignAll(mass, weights[i..], d.remMass, d.remWeight) == all
      {
        var w := weights[i];
        SplitsRest(weights[i..], d.remWeight);
        assert weights[i..][1..] == weights[i + 1..];
        var taken := d.TakeMass(w.amount);
        mass := mass[w.target := taken];
        i := i + 1;
      }
    }

    /** Runs a full mass through the loop. Gives up exactly on an irreducible back edge. Otherwise what came back to
        the headers, what left by the exits, and what stayed in blocks without successors add up to no more than the
        full mass and what the members had; and nothing is lost if they had nothing and no member is its own
        successor. Several headers then share a full mass again by what came back to them; between them they have
        too much if and only if mass came back to some of them but not to all. */
    method ComputeMassInLoop(edges: map<Node, seq<Edge>>) returns (ok: bool, ghost end: Flow, ghost trace: seq<Flow>)
      requires Ready(State(), headers, members) && EdgesOk(edges, headers + members)
      requires |headers| > 1 ==> Shareable(|headers|, FULL + Total(State(), members))
      modifies this`mass, this`backedge, this`exits
      ensures ok == AllowedIn(headers, members, edges)
      ensures ok ==>
        Conserved(old(State()), end, headers, members, edges) && backedge == end.backedge && exits == end.exits
      ensures ok ==> if |headers| == 1 then mass == end.mass else Refilled(end, mass, headers)
      ensures ok ==> SweptBy(old(State()), end, headers, members, edges, trace)
      ensures ok ==> LeftOutside(old(exits), exits, headers, members)
      ensures !ok ==> Ready(State(), headers, members)
    {
      ghost var was := State();
      ok, trace := Sweep(edges);
      end := State();
      if ok {
        RefillHeaders(trace[0], FULL + Total(was, members));
      }
    }

    /** Gives the headers a full mass, and visits all blocks. */
    method Sweep(edges: map<Node, seq<Edge>>) returns (ok: bool, ghost trace: seq<Flow>)
      requires Ready(State(), headers, members) && EdgesOk(edges, headers + members)
      modifies this`mass, this`backedge, this`exits
      ensures ok == AllowedIn(headers, members, edges) && Ready(State(), headers, members)
      ensures ok ==> Conserved(old(State()), State(), headers, members, edges)
      ensures ok ==> SumInts(backedge) <= FULL + Total(old(State()), members)
      ensures ok ==> SweptBy(old(State()), State(), headers, members, edges, trace)
      ensures ok ==> SumMass(headers, trace[0].mass) == FULL && SameAt(headers, trace[0], State())
      ensures ok ==> LeftOutside(old(exits), exits, headers, members)
    {
      ghost var was := State();
      InitHeaders();
      ghost var start := State();
      ghost var nodes := headers + members;
      StartConserves(was, start, headers, members, nodes, edges);
      ok, trace := VisitNodes(edges, nodes);
      if ok {
        AfterSweep(was, start, State(), headers, members, nodes, edges, trace);
      }
    }

    /** Several headers share a full mass again. */
    method RefillHeaders(ghost start: Flow, ghost limit: int)
      requires Ready(State(), headers, members) && (|headers| > 1 ==> Shareable(|headers|, limit))
      requires SumInts(backedge) <= limit && Starts(start, start, headers)
      requires SumMass(headers, start.mass) == FULL && SameAt(headers, start, State())
      modifies this`mass
      ensures if |headers| == 1 then mass == old(mass) else Refilled(old(State()), mass, headers)
    {
      if |headers| > 1 {
        ghost var end := State();
        FewerFit(|headers|, |headers|, limit, SumInts(backedge));
        ghost var ws := AdjustLoopHeaderMass();
        StartingHeaders(start, end, headers);
        RefillTotal(end, headers, ws);
      }
    }

    /** Visits the headers and then the members, each once. */
    method VisitNodes(edges: map<Node, seq<Edge>>, ghost nodes: seq<Node>) returns (ok: bool, ghost trace: seq<Flow>)
      requires Swept(State(), State(), headers, members, nodes, 0, edges)
      modifies this`mass, this`backedge, this`exits
      ensures ok == AllowedBefore(headers, members, nodes, |nodes|, edges)
      ensures ok ==> Swept(old(State()), State(), headers, members, nodes, |nodes|, edges)
      ensures ok ==> Sweeps(trace, headers, members, nodes, edges) && |trace| == |nodes| + 1
      ensures ok ==> trace[0] == old(State()) && trace[|nodes|] == State()
      ensures Ready(State(), headers, members)
    {
      ghost var start := State();
      trace := [start];
      var i := 0;
      while i < |headers| + |members|
        invariant Sweeps(trace, headers, members, nodes, edges) && |trace| == i + 1
        invariant trace[0] == start && trace[i] == State()
        invariant 0 <= i <= |nodes| && Swept(start, State(), headers, members, nodes, i, edges)
        invariant AllowedBefore(headers, members, nodes, i, edges)
      {
        ok := VisitNode(i, edges, start, nodes);
        if !ok {
          return;
        }
        SweepOn(trace, State(), headers, members, nodes, edges);
        trace := trace + [State()];
        i := i + 1;
      }
      assert i == |nodes| && start == old(State());
      ok := true;
    }

    method VisitNode(i: nat, edges: map<Node, seq<Edge>>, ghost start: Flow, ghost nodes: seq<Node>) returns (ok: bool)
      requires Swept(start, State(), headers, members, nodes, i, edges) && i < |nodes|
      requires AllowedBefore(headers, members, nodes, i, edges)
      modifies this`mass, this`backedge, this`exits
      ensures ok == AllowedBefore(headers, members, nodes, i + 1, edges)
      ensures !ok ==> !AllowedBefore(headers, members, nodes, |nodes|, edges)
      ensures ok ==> Swept(start, State(), headers, members, nodes, i + 1, edges)
      ensures ok ==> Visited(old(State()), State(), headers, members, nodes[i], edges[nodes[i]])
      ensures Ready(State(), headers, members)
    {
      var node := if i < |headers| then headers[i] else members[i - |headers|];
      assert node == nodes[i];
      ghost var before := State();
      ghost var ws;
      ok, ws := PropagateMassToSuccessors(node, edges[node]);
      assert ok == AllAllowedAt(headers, members, nodes, i, edges);
      if ok {
        VisitConserves(start, before, State(), headers, members, nodes, i, edges, ws);
      }
    }

    /** Makes a graph of the loop's blocks, to look for irreducible components: all of them lose their mass. */
    method ClearMass()
      requires Ready(State(), headers, members)
      modifies this`mass
      ensures Ready(State(), headers, members) && mass.Keys == old(mass.Keys)
      ensures forall n | n in headers + members :: mass[n] == 0
    {
      var nodes := headers + members;
      for i := 0 to |nodes|
        invariant mass.Keys == old(mass.Keys) && FlowOk(State())
        invariant forall k | 0 <= k < i :: mass[nodes[k]] == 0
      {
        assert nodes[i] in nodes;
        mass := mass[nodes[i] := 0];
      }
    }

    /** Once the irreducible components are packaged: what came back and what left is forgotten, and of the members
        only those stay that are in no package. */
    method UpdateWithIrreducible(packaged: set<Node>)
      requires Ready(State(), headers, members)
      modifies this`backedge, this`exits, this`members
      ensures exits == [] && backedge == Zeros(|headers|)
      ensures members == Unpackaged(old(members), packaged) && Ready(State(), headers, members)
    {
      UnpackagedIncreasing(members, packaged);
      exits := [];
      EmptyBackedges();
      DropPackaged(packaged);
    }

    method EmptyBackedges()
      modifies this`backedge
      ensures backedge == Zeros(old(|backedge|))
    {
      for h := 0 to |backedge|
        invariant |backedge| == old(|backedge|) && forall k | 0 <= k < h :: backedge[k] == 0
      {
        backedge := backedge[h := 0];
      }
    }

    /** Compacts the list of members in place. */
    method DropPackaged(packaged: set<Node>)
      modifies this`members
      ensures members == Unpackaged(old(members), packaged)
    {
      ghost var before := members;
      var o, i := 0, 0;
      while i < |members|
        invariant 0 <= o <= i <= |members| && Packing(members, before, packaged, o, i)
      {
        PackNext(members, before, packaged, o, i);
        if members[i] !in packaged {
          members := members[o := members[i]];
          o := o + 1;
        }
        i := i + 1;
      }
      assert before[..i] == before;
      members := members[..o];
    }

    /** Computes the mass in a loop whose control flow may be irreducible. If the first pass gives up, the components
        that packages are made of are left out, and a second pass starts from nothing: so whichever pass succeeds,
        no mass is lost. */
    method ComputeMassInTwoPasses(edges: map<Node, seq<Edge>>, packaged: set<Node>, edges': map<Node, seq<Edge>>)
      returns (ok: bool, first: bool, ghost end: Flow)
      requires Ready(State(), headers, members) && EdgesOk(edges, headers + members) && Total(State(), members) == 0
      requires |headers| <= DENOM
      requires EdgesOk(edges', headers + Unpackaged(members, packaged))
      requires NoSelfEdges(edges, members) && NoSelfEdges(edges', Unpackaged(members, packaged))
      modifies this
      ensures first == AllowedIn(headers, old(members), edges)
      ensures members == if first then old(members) else Unpackaged(old(members), packaged)
      ensures ok == (first || AllowedIn(headers, members, edges'))
      ensures ok ==> forall n | n in headers + members :: n in end.mass
      ensures ok ==> LeftOver(end, headers + members, if first then edges else edges') == FULL
      ensures ok ==> backedge == end.backedge && exits == end.exits && SumInts(backedge) <= FULL
      ensures ok ==> if |headers| == 1 then mass == end.mass else Refilled(end, mass, headers)
      ensures ok ==> LeftOutside(if first then old(exits) else [], exits, headers, members)
    {
      FullShareable(|headers|);
      ghost var trace;
      first, end, trace := ComputeMassInLoop(edges);
      ok := first;
      if !ok {
        ClearMass();
        UnpackagedSubset(members, packaged);
        UpdateWithIrreducible(packaged);
        NothingThere(State(), members);
        ok, end, trace := ComputeMassInLoop(edges');
      }
    }

    /** The mass that does not come back to the headers; none if more than a full mass came back. */
    method ExitingMass() returns (m: int)
      requires forall i | 0 <= i < |backedge| :: IsMass(backedge[i])
      ensures m == if SumInts(backedge) <= FULL then FULL - SumInts(backedge) else 0
    {
      var total := 0;
      var i := 0;
      assert backedge[..0] == [];
      while i < |backedge|
        invariant 0 <= i <= |backedge|
        invariant total == Min(SumInts(backedge[..i]), FULL) && IsMass(total)
      {
        SumIntsPrefix(backedge, i);
        AddMassSaturates(total, backedge[i]);
        total := AddMass(total, backedge[i]);
        i := i + 1;
      }
      assert backedge[..i] == backedge;
      m := SubMass(FULL, total);
    }
  }

  /** Every block's edges can be weighed. */
  ghost predicate EdgesOk(edges: map<Node, seq<Edge>>, nodes: seq<Node>) {
    forall n | n in nodes :: n in edges && Weighable(edges[n])
  }

  ghost predicate NoSelfEdges(edges: map<Node, seq<Edge>>, members: seq<Node>) {
    forall n | n in members && n in edges :: NoSelfEdge(n, edges[n])
  }

  /** What came back, what left, and what stayed in blocks without successors. */
  ghost function LeftOver(f: Flow, nodes: seq<Node>, edges: map<Node, seq<Edge>>): int
    requires forall n | n in nodes :: n in edges && n in f.mass
  {
    SumInts(f.backedge) + SumExits(f.exits) + SumMass(Ends(nodes, edges), f.mass)
  }

  /** What came back to the headers, what left, and what stayed in blocks without successors is no more than the
      full mass and what was there before, and exactly the full mass if there was nothing before and no member is
      its own successor. */
  ghost predicate Conserved(was: Flow, end: Flow, headers: seq<Node>, members: seq<Node>, edges: map<Node, seq<Edge>>) {
    && Ready(end, headers, members) && (forall n | n in headers + members :: n in edges)
    && (forall n | n in members :: n in was.mass)
    && LeftOver(end, headers + members, edges) <= FULL + Total(was, members)
    && (NoSelfEdges(edges, members) && Total(was, members) == 0 ==>
      LeftOver(end, headers + members, edges) == FULL && SumInts(end.backedge) <= FULL)
  }

  /** Each target has its portion of a full mass, and the other blocks what they had. */
  ghost predicate Reassigned(before: map<Node, int>, after: map<Node, int>, ws: seq<Weight>) {
    && Splits(ws, Sum(ws)) && (forall n | n in after :: n in before || n in Targets(ws))
    && forall n | n in before || n in Targets(ws) ::
        n in after &&
        after[n] == if n in Targets(ws) then PortionTo(ws, Portions(ws, FULL, Sum(ws)), n) else before[n]
  }

  lemma AssignReassigns(mass: map<Node, int>, ws: seq<Weight>)
    requires Splits(ws, Sum(ws)) && Distinct(ws)
    ensures Reassigned(mass, AssignAll(mass, ws, FULL, Sum(ws)), ws)
  {
    forall n {
      AssignAllPortions(mass, ws, FULL, Sum(ws), n);
    }
  }

  /** The headers share a full mass by what came back to them. Between them they have too much if and only if mass came
      back to some of them but not to all. */
  ghost predicate Refilled(end: Flow, mass: map<Node, int>, headers: seq<Node>) {
    && (exists ws :: AreShares(ws, headers, end.backedge) && Reassigned(end.mass, mass, ws))
    && (forall n | n in headers :: n in mass)
    && SumMass(headers, mass) >= FULL
    && (SumMass(headers, mass) == FULL <==> AllOrNone(end.backedge))
  }

  /** A sweep starts with the full mass at the header, or shared by several, and with everything else as it was. */
  ghost predicate Starts(was: Flow, start: Flow, headers: seq<Node>) {
    && start.mass.Keys == was.mass.Keys && start.backedge == was.backedge && start.exits == was.exits
    && |headers| < U32 && (forall n | n in headers :: n in start.mass)
    && (forall h | 0 <= h < |headers| :: start.mass[headers[h]] == HeaderShare(|headers|, h))
    && forall n | n in start.mass && n !in headers :: start.mass[n] == was.mass[n]
  }

  ghost predicate SweptBy(was: Flow, end: Flow, headers: seq<Node>, members: seq<Node>, edges: map<Node, seq<Edge>>,
                          trace: seq<Flow>) {
    && Sweeps(trace, headers, members, headers + members, edges) && |trace| == |headers + members| + 1
    && Starts(was, trace[0], headers) && trace[|trace| - 1] == end
  }

  ghost predicate DeliverReady(f: Flow, headers: seq<Node>, ws: seq<Weight>, m: int, total: int) {
    IsMass(m) && Splits(ws, total) && forall i | 0 <= i < |ws| :: Reaches(f, headers, ws[i])
  }

  lemma AllReach(f: Flow, headers: seq<Node>, members: seq<Node>, ws: seq<Weight>)
    requires Ready(f, headers, members) && Kinds(headers, members, ws)
    ensures forall i | 0 <= i < |ws| :: Reaches(f, headers, ws[i])
  {
  }

  lemma DeliverStep(f: Flow, headers: seq<Node>, ws: seq<Weight>, i: nat, m: int, total: int) returns (next: Flow)
    requires i < |ws| && DeliverReady(f, headers, ws[i..], m, total)
    ensures 0 < ws[i].amount <= total && Reaches(f, headers, ws[i])
    ensures var taken := Share(m, ws[i].amount, total);
      next == Deliver(f, headers, ws[i], taken) &&
      DeliverReady(next, headers, ws[i + 1..], m - taken, total - ws[i].amount) &&
      DeliverAll(next, headers, ws[i + 1..], m - taken, total - ws[i].amount) ==
        DeliverAll(f, headers, ws[i..], m, total)
  {
    var rest := ws[i..];
    assert rest[0] == ws[i] && rest[1..] == ws[i + 1..];
    SplitsRest(rest, total);
    assert Reaches(f, headers, rest[0]);
    next := Deliver(f, headers, ws[i], Share(m, ws[i].amount, total));
    forall k | 0 <= k < |rest| - 1 ensures Reaches(next, headers, rest[1..][k]) {
      assert Reaches(f, headers, rest[k + 1]);
    }
  }

  lemma {:induction false} SumMassConcat(a: seq<Node>, b: seq<Node>, mass: map<Node, int>)
    requires forall n | n in a + b :: n in mass
    ensures SumMass(a + b, mass) == SumMass(a, mass) + SumMass(b, mass)
    decreases |a|
  {
    if a == [] {
      assert a + b == b;
    } else {
      assert (a + b)[1..] == a[1..] + b;
      SumMassConcat(a[1..], b, mass);
    }
  }

  /** The headers have the full mass, and the rest is as it was. */
  lemma StartConserves(was: Flow, start: Flow, headers: seq<Node>, members: seq<Node>, nodes: seq<Node>,
                       edges: map<Node, seq<Edge>>)
    requires nodes == headers + members && Ready(was, headers, members) && EdgesOk(edges, nodes)
    requires FlowOk(start) && start.mass.Keys == was.mass.Keys && start.backedge == was.backedge &&
      start.exits == was.exits
    requires SumMass(headers, start.mass) == FULL && SameAt(members, was, start)
    ensures Swept(start, start, headers, members, nodes, 0, edges)
    ensures Total(start, nodes) == FULL + Total(was, members) >= FULL
  {
    assert nodes[0..] == nodes && nodes[..0] == [];
    SumMassConcat(headers, members, start.mass);
    SumMassSame(members, was.mass, start.mass);
    TotalBounds(was, members, headers[0], 0);
  }

  lemma AtTheEnd(f: Flow, nodes: seq<Node>, edges: map<Node, seq<Edge>>)
    requires FlowOk(f) && forall n | n in nodes :: n in f.mass && n in edges
    ensures AllMass(f, nodes, |nodes|, edges) == LeftOver(f, nodes, edges) >= SumInts(f.backedge)
  {
    assert nodes[..|nodes|] == nodes && nodes[|nodes|..] == [];
    var any := Node(0);
    TotalBounds(f, [], any, 0);
    SumMassBounds(Ends(nodes, edges), f.mass, any);
  }

  lemma UnpackagedSubset(members: seq<Node>, packaged: set<Node>)
    ensures forall n | n in Unpackaged(members, packaged) :: n in members
  {
  }

  lemma FullShareable(n: nat)
    requires n <= DENOM
    ensures Shareable(n, FULL)
  {
  }

  lemma NothingThere(f: Flow, members: seq<Node>)
    requires (forall n | n in members :: n in f.mass && f.mass[n] == 0)
    requires f.exits == [] && f.backedge == Zeros(|f.backedge|)
    ensures Total(f, members) == 0
  {
    ZerosSum(|f.backedge|);
    NothingLeft(members, f.mass);
  }

  lemma {:induction false} ZerosSum(n: nat)
    ensures SumInts(Zeros(n)) == 0
  {
    if n > 0 {
      assert Zeros(n)[1..] == Zeros(n - 1);
      ZerosSum(n - 1);
    }
  }

  lemma SweepConserves(was: Flow, start: Flow, end: Flow, headers: seq<Node>, members: seq<Node>,
                       edges: map<Node, seq<Edge>>)
    requires Swept(start, end, headers, members, headers + members, |headers + members|, edges)
    requires (forall n | n in members :: n in was.mass) && Total(start, headers + members) == FULL + Total(was, members)
    ensures Conserved(was, end, headers, members, edges)
    ensures SumInts(end.backedge) <= FULL + Total(was, members)
  {
    AtTheEnd(end, headers + members, edges);
  }

  lemma AfterSweep(was: Flow, start: Flow, end: Flow, headers: seq<Node>, members: seq<Node>, nodes: seq<Node>,
                   edges: map<Node, seq<Edge>>, trace: seq<Flow>)
    requires nodes == headers + members && Swept(start, end, headers, members, nodes, |nodes|, edges)
    requires Ready(was, headers, members) && Total(start, nodes) == FULL + Total(was, members)
    requires Sweeps(trace, headers, members, nodes, edges) && |trace| == |nodes| + 1
    requires trace[0] == start && trace[|nodes|] == end && Starts(was, start, headers)
    ensures Conserved(was, end, headers, members, edges) && SumInts(end.backedge) <= FULL + Total(was, members)
    ensures SweptBy(was, end, headers, members, edges, trace) && SameAt(headers, start, end)
    ensures LeftOutside(was.exits, end.exits, headers, members)
  {
    SweepConserves(was, start, end, headers, members, edges);
    TraceSweeps(was, start, end, headers, members, nodes, edges, trace);
  }

  lemma TraceSweeps(was: Flow, start: Flow, end: Flow, headers: seq<Node>, members: seq<Node>, nodes: seq<Node>,
                    edges: map<Node, seq<Edge>>, trace: seq<Flow>)
    requires nodes == headers + members && Sweeps(trace, headers, members, nodes, edges) && |trace| == |nodes| + 1
    requires trace[0] == start && trace[|nodes|] == end && Starts(was, start, headers)
    ensures SweptBy(was, end, headers, members, edges, trace) && LeftOutside(was.exits, end.exits, headers, members)
  {
    ExitsOutside(trace, headers, members, nodes, edges, |nodes|);
  }

  lemma RefillTotal(end: Flow, headers: seq<Node>, ws: seq<Weight>)
    requires AreShares(ws, headers, end.backedge) && Increasing(headers) && FlowOk(end)
    requires (forall n | n in headers :: n in end.mass && end.mass[n] > 0) && SumMass(headers, end.mass) == FULL
    ensures Refilled(end, AssignAll(end.mass, ws, FULL, Sum(ws)), headers)
  {
    HeadersTotal(end.mass, headers, end.backedge, ws);
    AssignReassigns(end.mass, ws);
  }

  /** Each of several headers has a share of the full mass. */
  lemma StartingHeaders(start: Flow, end: Flow, headers: seq<Node>)
    requires |headers| <= DENOM && (forall n | n in headers :: n in start.mass && n in end.mass) &&
      SameAt(headers, start, end)
    requires SumMass(headers, start.mass) == FULL
    requires forall h | 0 <= h < |headers| :: start.mass[headers[h]] == HeaderShare(|headers|, h)
    ensures SumMass(headers, end.mass) == FULL && forall n | n in headers :: 0 < end.mass[n]
  {
    SumMassSame(headers, start.mass, end.mass);
    forall h | 0 <= h < |headers| ensures 0 < end.mass[headers[h]] {
      HeaderSharePositive(|headers|, h);
    }
  }
}
