/** Picking the headers of an irreducible loop, so that all other blocks can be visited in one forward sweep. */
module BFIHeaders {
  import opened Probability
  import opened BFIWeights
  import opened BFIFlow
  import opened BFIHeaderMass
  import opened BFIMass

  function Set(ns: seq<Node>): set<Node> { set n | n in ns }

  /** A block of the component that is entered from outside. */
  predicate IsEntry(scc: set<Node>, preds: map<Node, seq<Node>>, v: Node)
    requires v in preds
  {
    exists i :: 0 <= i < |preds[v]| && preds[v][i] !in scc
  }

  /** A block with a back edge from a block that is no entry: it belongs to an irreducible inner component. */
  predicate IsExtra(scc: set<Node>, preds: map<Node, seq<Node>>, v: Node)
    requires scc <= preds.Keys && v in preds
  {
    exists i :: 0 <= i < |preds[v]| && BackEdge(scc, preds, preds[v][i], v)
  }

  predicate BackEdge(scc: set<Node>, preds: map<Node, seq<Node>>, p: Node, v: Node)
    requires scc <= preds.Keys
  {
    p in scc && p.index >= v.index && !IsEntry(scc, preds, p)
  }

  /** Sorts blocks that are all different. */
  method SortNodes(ns: seq<Node>) returns (sorted: seq<Node>)
    requires NoDup(ns)
    ensures Increasing(sorted) && Set(sorted) == Set(ns)
    decreases |ns|
  {
    if ns == [] {
      return [];
    }
    var n := ns[0];
    var rest := SortNodes(ns[1..]);
    var k := 0;
    while k < |rest| && rest[k].index < n.index
      invariant 0 <= k <= |rest|
      invariant forall i | 0 <= i < k :: rest[i].index < n.index
    {
      k := k + 1;
    }
    sorted := rest[..k] + [n] + rest[k..];
    assert n !in Set(ns[1..]);
    assert n in rest <==> n in Set(rest);
    Inserted(rest, n, k);
    assert ns == [n] + ns[1..];
    assert Set(ns) == {n} + Set(ns[1..]);
  }

  lemma Inserted(rest: seq<Node>, n: Node, k: nat)
    requires Increasing(rest) && n !in rest && k <= |rest|
    requires forall i | 0 <= i < k :: rest[i].index < n.index
    requires k < |rest| ==> n.index <= rest[k].index
    ensures Increasing(rest[..k] + [n] + rest[k..])
    ensures Set(rest[..k] + [n] + rest[k..]) == {n} + Set(rest)
  {
    var s := rest[..k] + [n] + rest[k..];
    if k < |rest| { assert rest[k] in rest; }
    forall i, j | 0 <= i < j < |s| ensures Before(s, i, j) {
      assert k < j - 1 < |rest| ==> Before(rest, k, j - 1);
      assert j < k ==> Before(rest, i, j);
      assert i < k < j && i < j - 1 ==> Before(rest, i, j - 1);
      assert k < i ==> Before(rest, i - 1, j - 1);
    }
    assert rest == rest[..k] + rest[k..];
    assert forall x :: x in s <==> x == n || x in rest;
  }

  lemma NoDupAppend(ns: seq<Node>, n: Node)
    requires NoDup(ns) && n !in Set(ns)
    ensures NoDup(ns + [n]) && Set(ns + [n]) == Set(ns) + {n}
    decreases |ns|
  {
    if ns != [] {
      assert n !in Set(ns[1..]);
      NoDupAppend(ns[1..], n);
      assert (ns + [n])[1..] == ns[1..] + [n];
    }
  }

  lemma NoDupSize(ns: seq<Node>)
    requires NoDup(ns)
    ensures |Set(ns)| == |ns|
    decreases |ns|
  {
    if ns != [] {
      NoDupSize(ns[1..]);
      assert Set(ns) == {ns[0]} + Set(ns[1..]);
    }
  }

  function Entries(scc: set<Node>, preds: map<Node, seq<Node>>, seen: set<Node>): set<Node>
    requires seen <= scc <= preds.Keys
  {
    set v | v in seen && IsEntry(scc, preds, v)
  }

  function Extras(scc: set<Node>, preds: map<Node, seq<Node>>, seen: set<Node>): set<Node>
    requires seen <= scc <= preds.Keys
  {
    set v | v in seen && IsExtra(scc, preds, v)
  }

  /** What is known once all blocks but those left were looked at for entries. */
  ghost predicate Marked(scc: set<Node>, preds: map<Node, seq<Node>>, left: set<Node>, inScc: map<Node, bool>,
                         headers: seq<Node>) {
    && left <= scc <= preds.Keys && inScc.Keys == scc
    && (forall v | v in scc :: inScc[v] == (v !in left && IsEntry(scc, preds, v)))
    && NoDup(headers) && Set(headers) == Entries(scc, preds, scc - left)
  }

  lemma MarkOne(scc: set<Node>, preds: map<Node, seq<Node>>, left: set<Node>, inScc: map<Node, bool>,
                headers: seq<Node>, v: Node)
    requires Marked(scc, preds, left, inScc, headers) && v in left
    ensures IsEntry(scc, preds, v) ==> Marked(scc, preds, left - {v}, inScc[v := true], headers + [v])
    ensures !IsEntry(scc, preds, v) ==> Marked(scc, preds, left - {v}, inScc, headers)
  {
    assert Entries(scc, preds, scc - (left - {v})) ==
      Entries(scc, preds, scc - left) + if IsEntry(scc, preds, v) then {v} else {};
    NoDupAppend(headers, v);
  }

  /** What is known once all blocks but those left were sorted into headers and others. */
  ghost predicate Divided(scc: set<Node>, preds: map<Node, seq<Node>>, left: set<Node>, headers: seq<Node>,
                          others: seq<Node>) {
    && left <= scc <= preds.Keys
    && NoDup(headers) && Set(headers) == Entries(scc, preds, scc) + Extras(scc, preds, scc - left)
    && NoDup(others) && Set(others) == scc - left - Set(headers)
  }

  lemma DivideOne(scc: set<Node>, preds: map<Node, seq<Node>>, left: set<Node>, headers: seq<Node>, others: seq<Node>,
                  v: Node)
    requires Divided(scc, preds, left, headers, others) && v in left
    ensures IsEntry(scc, preds, v) ==> Divided(scc, preds, left - {v}, headers, others)
    ensures !IsEntry(scc, preds, v) ==> v !in headers
    ensures !IsEntry(scc, preds, v) && IsExtra(scc, preds, v) ==> Divided(scc, preds, left - {v}, headers + [v], others)
    ensures !IsEntry(scc, preds, v) && !IsExtra(scc, preds, v) ==>
      Divided(scc, preds, left - {v}, headers, others + [v])
  {
    assert Extras(scc, preds, scc - (left - {v})) ==
      Extras(scc, preds, scc - left) + if IsExtra(scc, preds, v) then {v} else {};
    assert v in headers <==> v in Set(headers);
    if !IsEntry(scc, preds, v) {
      NoDupAppend(headers, v);
      NoDupAppend(others, v);
    }
  }

  /** The headers are the entries and the targets of inner back edges; the other blocks are the rest. */
  method FindIrreducibleHeaders(scc: set<Node>, preds: map<Node, seq<Node>>)
    returns (headers: seq<Node>, others: seq<Node>)
    requires scc <= preds.Keys
    ensures Increasing(headers) && Increasing(others)
    ensures Set(headers) == Entries(scc, preds, scc) + Extras(scc, preds, scc)
    ensures Set(others) == scc - Set(headers)
  {
    var inScc: map<Node, bool>;
    inScc, headers := FindEntries(scc, preds);
    others := [];
    if |headers| == |inScc| {
      AllEntries(scc, preds, headers);
      headers := SortNodes(headers);
      return;
    }
    var left := scc;
    StartDividing(scc, preds, headers);
    while left != {}
      invariant Divided(scc, preds, left, headers, others)
      decreases |left|
    {
      var v: Node :| v in left;
      DivideOne(scc, preds, left, headers, others, v);
      if !inScc[v] {
        var extra := HasInnerBackEdge(scc, preds, inScc, v);
        if extra {
          headers := headers + [v];
        }
        if headers == [] || headers[|headers| - 1] != v {
          others := others + [v];
        }
      }
      left := left - {v};
    }
    assert scc - left == scc;
    headers := SortNodes(headers);
    others := SortNodes(others);
  }

  lemma StartDividing(scc: set<Node>, preds: map<Node, seq<Node>>, headers: seq<Node>)
    requires scc <= preds.Keys && NoDup(headers) && Set(headers) == Entries(scc, preds, scc)
    ensures Divided(scc, preds, scc, headers, [])
  {
    assert Extras(scc, preds, scc - scc) == {};
    assert Set([]) == {};
  }

  /** Looks for a back edge to v, other than from an entry. */
  method HasInnerBackEdge(ghost scc: set<Node>, preds: map<Node, seq<Node>>, inScc: map<Node, bool>, v: Node)
    returns (b: bool)
    requires scc <= preds.Keys && v in scc && !IsEntry(scc, preds, v)
    requires inScc.Keys == scc && forall p | p in scc :: inScc[p] == IsEntry(scc, preds, p)
    ensures b == IsExtra(scc, preds, v)
  {
    var ps := preds[v];
    var i := 0;
    while i < |ps|
      invariant 0 <= i <= |ps|
      invariant forall k | 0 <= k < i :: !BackEdge(scc, preds, ps[k], v)
    {
      var p := ps[i];
      if !(p.index < v.index) && !(p in inScc && inScc[p]) {
        assert p in scc;
        assert BackEdge(scc, preds, ps[i], v);
        return true;
      }
      i := i + 1;
    }
    return false;
  }

  /** Marks and collects the blocks with a predecessor outside. */
  method FindEntries(scc: set<Node>, preds: map<Node, seq<Node>>) returns (inScc: map<Node, bool>, headers: seq<Node>)
    requires scc <= preds.Keys
    ensures inScc.Keys == scc && forall v | v in scc :: inScc[v] == IsEntry(scc, preds, v)
    ensures NoDup(headers) && Set(headers) == Entries(scc, preds, scc)
  {
    inScc := map v | v in scc :: false;
    headers := [];
    var left := scc;
    assert Entries(scc, preds, scc - left) == {};
    while left != {}
      invariant Marked(scc, preds, left, inScc, headers)
      decreases |left|
    {
      var v: Node :| v in left;
      MarkOne(scc, preds, left, inScc, headers, v);
      var ps := preds[v];
      var i := 0;
      while i < |ps| && ps[i] in inScc
        invariant 0 <= i <= |ps|
        invariant forall k | 0 <= k < i :: ps[k] in scc
      {
        i := i + 1;
      }
      if i < |ps| {
        inScc := inScc[v := true];
        headers := headers + [v];
      }
      left := left - {v};
    }
    assert scc - left == scc;
  }

  lemma AllEntries(scc: set<Node>, preds: map<Node, seq<Node>>, headers: seq<Node>)
    requires scc <= preds.Keys && NoDup(headers) && |headers| == |scc|
    requires Set(headers) == Entries(scc, preds, scc)
    ensures Set(headers) == scc == Entries(scc, preds, scc) + Extras(scc, preds, scc)
  {
    NoDupSize(headers);
    var rest := scc - Set(headers);
    assert scc == Set(headers) + rest;
    assert |scc| == |Set(headers)| + |rest|;
  }

  /** With these headers, no edge between two other blocks goes backward or to itself: propagating
      mass through the loop never gives up. */
  lemma OthersGoForward(scc: set<Node>, preds: map<Node, seq<Node>>, headers: seq<Node>, others: seq<Node>, n: Node,
                        es: seq<Edge>)
    requires scc <= preds.Keys && n in scc
    requires Set(headers) == Entries(scc, preds, scc) + Extras(scc, preds, scc)
    requires Set(others) == scc - Set(headers)
    requires forall j | 0 <= j < |es| && es[j].target in scc :: n in preds[es[j].target]
    ensures AllAllowed(headers, others, n, es)
    ensures n in others ==> forall j | 0 <= j < |es| :: es[j].target != n
  {
    forall j | 0 <= j < |es| ensures Allowed(headers, others, n, es[j].target) && (n in others ==> es[j].target != n) {
      var t := es[j].target;
      if t in others && n !in headers {
        assert t in Set(others) && n !in Set(headers);
        var i :| 0 <= i < |preds[t]| && preds[t][i] == n;
        assert !IsExtra(scc, preds, t) && !IsEntry(scc, preds, n) && !BackEdge(scc, preds, preds[t][i], t);
      }
      assert n in others ==> n in Set(others);
      assert n in headers ==> n in Set(headers);
    }
  }

  /** The blocks of the component and the edges between them, as predecessors and as successors. */
  ghost predicate SameGraph(scc: set<Node>, preds: map<Node, seq<Node>>, edges: map<Node, seq<Edge>>) {
    && scc <= preds.Keys && scc <= edges.Keys
    && forall n, j | n in scc && 0 <= j < |edges[n]| && edges[n][j].target in scc :: n in preds[edges[n][j].target]
  }

  lemma AllBlocksAllowed(scc: set<Node>, preds: map<Node, seq<Node>>, headers: seq<Node>, others: seq<Node>,
                         edges: map<Node, seq<Edge>>)
    requires SameGraph(scc, preds, edges)
    requires Set(headers) == Entries(scc, preds, scc) + Extras(scc, preds, scc)
    requires Set(others) == scc - Set(headers)
    ensures forall n | n in headers + others :: n in scc
    ensures AllowedIn(headers, others, edges) && NoSelfEdges(edges, others)
  {
    forall n | n in headers + others
      ensures n in scc && AllAllowed(headers, others, n, edges[n]) && (n in others ==> NoSelfEdge(n, edges[n]))
    {
      assert n in headers ==> n in Set(headers);
      assert n in others ==> n in Set(others);
      OthersGoForward(scc, preds, headers, others, n, edges[n]);
    }
  }

  /** Makes a loop of an irreducible component that is entered from outside, and runs a full mass through it. With the
      headers that are picked for it, it never gives up; and if no mass was there before, none is lost. */
  method ComputeIrreducibleLoop(scc: seq<Node>, preds: map<Node, seq<Node>>, edges: map<Node, seq<Edge>>,
                                mass: map<Node, int>)
    returns (loop: Loop, ghost end: Flow)
    requires NoDup(scc) && SameGraph(Set(scc), preds, edges) && Entries(Set(scc), preds, Set(scc)) != {}
    requires forall n | n in scc :: Weighable(edges[n])
    requires (forall n | n in scc :: n in mass) && forall n | n in mass :: IsMass(mass[n])
    requires Shareable(|scc|, FULL + SumMass(scc, mass))
    ensures Set(loop.headers) == Entries(Set(scc), preds, Set(scc)) + Extras(Set(scc), preds, Set(scc))
    ensures Set(loop.members) == Set(scc) - Set(loop.headers)
    ensures Conserved(Flow(mass, Zeros(|loop.headers|), []), end, loop.headers, loop.members, edges)
    ensures SumMass(scc, mass) == 0 ==> LeftOver(end, loop.headers + loop.members, edges) == FULL
    ensures if |loop.headers| == 1 then loop.mass == end.mass else Refilled(end, loop.mass, loop.headers)
    ensures LeftOutside([], loop.exits, loop.headers, loop.members)
  {
    var headers, others := FindIrreducibleHeaders(Set(scc), preds);
    loop := new Loop(headers, others, mass);
    LoopReady(scc, headers, others, loop.State());
    LoopShareable(scc, headers, others, loop.State());
    AllBlocksAllowed(Set(scc), preds, headers, others, edges);
    var ok;
    ghost var trace;
    ok, end, trace := loop.ComputeMassInLoop(edges);
    assert ok;
  }

  lemma LoopReady(scc: seq<Node>, headers: seq<Node>, others: seq<Node>, f: Flow)
    requires NoDup(scc) && |scc| < U32 && Increasing(headers) && Increasing(others)
    requires {} != Set(headers) <= Set(scc) && Set(others) == Set(scc) - Set(headers)
    requires f.backedge == Zeros(|headers|) && f.exits == []
    requires (forall n | n in scc :: n in f.mass) && forall n | n in f.mass :: IsMass(f.mass[n])
    ensures Ready(f, headers, others) && |headers| <= |scc|
  {
    Members(headers, scc);
    Members(others, scc);
    NoDupSize(scc);
    Smaller(Set(headers), Set(scc));
    assert headers != [];
  }

  lemma Smaller(a: set<Node>, b: set<Node>)
    requires a <= b
    ensures |a| <= |b|
  {
    var rest := b - a;
    assert b == a + rest;
  }

  lemma LoopShareable(scc: seq<Node>, headers: seq<Node>, others: seq<Node>, f: Flow)
    requires NoDup(scc) && Increasing(others) && Set(others) <= Set(scc) && |headers| <= |scc|
    requires f.backedge == Zeros(|headers|) && f.exits == []
    requires (forall n | n in scc :: n in f.mass) && forall n | n in f.mass :: IsMass(f.mass[n])
    requires Shareable(|scc|, FULL + SumMass(scc, f.mass))
    ensures (forall n | n in others :: n in f.mass) && 0 <= Total(f, others) <= SumMass(scc, f.mass)
    ensures Shareable(|headers|, FULL + Total(f, others))
  {
    Members(others, scc);
    ZerosSum(|headers|);
    SubsetSum(others, scc, f.mass);
    FewerFit(|scc|, |headers|, FULL + SumMass(scc, f.mass), FULL + Total(f, others));
  }

  lemma Members(ns: seq<Node>, scc: seq<Node>)
    requires Increasing(ns) && Set(ns) <= Set(scc)
    ensures NoDup(ns) && |Set(ns)| == |ns| && forall n | n in ns :: n in scc && n in Set(ns)
  {
    IncreasingNoDup(ns, []);
    assert ns + [] == ns;
    NoDupSize(ns);
    assert forall n | n in ns :: n in Set(ns);
  }

  lemma {:induction false} SubsetSum(ns: seq<Node>, all: seq<Node>, mass: map<Node, int>)
    requires NoDup(ns) && NoDup(all) && (forall n | n in ns :: n in all) &&
      forall n | n in all :: n in mass && mass[n] >= 0
    ensures 0 <= SumMass(ns, mass) <= SumMass(all, mass)
    decreases |ns|
  {
    if ns == [] {
      NothingLeft(all, mass);
    } else {
      var less := mass[ns[0] := 0];
      SubsetSum(ns[1..], all, less);
      SumMassUpdate(all, mass, ns[0], 0);
      SumMassSame(ns[1..], mass, less);
    }
  }
}
