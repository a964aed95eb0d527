/** Lists of edge weights, and merging the ones that share a target. */
module BFIWeights {
  import opened Probability

  /** A block, named by its position in the reverse post-order. */
  datatype Node = Node(index: int)

  datatype DistType = Local | Exit | Backedge
  datatype Weight = Weight(kind: DistType, target: Node, amount: int)

  function Sum(ws: seq<Weight>): (r: int) {
    if ws == [] then 0 else Sum(ws[..|ws| - 1]) + ws[|ws| - 1].amount
  }

  /** The weight of all edges to one target. */
  function SumFor(ws: seq<Weight>, t: Node): int {
    if ws == [] then 0
    else SumFor(ws[..|ws| - 1], t) + (if ws[|ws| - 1].target == t then ws[|ws| - 1].amount else 0)
  }

  function Targets(ws: seq<Weight>): set<Node> {
    set i | 0 <= i < |ws| :: ws[i].target
  }

  predicate Positive(ws: seq<Weight>) {
    forall i | 0 <= i < |ws| :: 0 < ws[i].amount < U64
  }

  /** Edges to one target are all local, all exits or all back edges. */
  predicate OneKind(ws: seq<Weight>) {
    forall i, j {:trigger SameKind(ws, i, j)} | 0 <= i < |ws| && 0 <= j < |ws| :: SameKind(ws, i, j)
  }

  predicate SameKind(ws: seq<Weight>, i: int, j: int)
    requires 0 <= i < |ws| && 0 <= j < |ws|
  {
    ws[i].target == ws[j].target ==> ws[i].kind == ws[j].kind
  }

  predicate Distinct(ws: seq<Weight>) {
    forall i, j | 0 <= i < j < |ws| :: ws[i].target != ws[j].target
  }

  predicate Sorted(ws: seq<Weight>) {
    forall i, j {:trigger InOrder(ws, i, j)} | 0 <= i < j < |ws| :: InOrder(ws, i, j)
  }

  predicate InOrder(ws: seq<Weight>, i: int, j: int)
    requires 0 <= i < |ws| && 0 <= j < |ws|
  {
    ws[i].target.index <= ws[j].target.index
  }

  /** w stands for all edges of ws to its target: their sum, saturated to 64 bits. */
  predicate StandsFor(w: Weight, ws: seq<Weight>) {
    && w.target in Targets(ws)
    && w.amount == Min(SumFor(ws, w.target), U64 - 1)
    && forall i | 0 <= i < |ws| && ws[i].target == w.target :: ws[i].kind == w.kind
  }

  /** One weight per target, standing for all edges to it. */
  predicate Combined(out: seq<Weight>, ws: seq<Weight>) {
    && Distinct(out)
    && Targets(out) == Targets(ws)
    && forall k {:trigger StandsFor(out[k], ws)} | 0 <= k < |out| :: StandsFor(out[k], ws)
  }

  /** Merging one weight into another, saturating. */
  function CombineWeight(w: Weight, other: Weight): (r: Weight)
    requires 0 <= w.amount < U64 && 0 < other.amount < U64
    requires w.amount > 0 ==> w.kind == other.kind && w.target == other.target
    ensures r == other.(amount := Min(w.amount + other.amount, U64 - 1))
  {
    if w.amount == 0 then other
    else if w.amount > Add64(w.amount, other.amount) then w.(amount := U64 - 1)
    else w.(amount := Add64(w.amount, other.amount))
  }

  lemma SumForAppend(ws: seq<Weight>, w: Weight, t: Node)
    ensures SumFor(ws + [w], t) == SumFor(ws, t) + (if w.target == t then w.amount else 0)
    ensures Targets(ws + [w]) == Targets(ws) + {w.target}
  {
    var all := ws + [w];
    assert all[..|all| - 1] == ws;
    assert forall i | 0 <= i < |ws| :: all[i] == ws[i];
    assert all[|ws|] == w;
  }

  lemma SumAppend(ws: seq<Weight>, w: Weight)
    ensures Sum(ws + [w]) == Sum(ws) + w.amount
  {
    assert (ws + [w])[..|ws|] == ws;
  }

  lemma {:induction false} SumForBounds(ws: seq<Weight>, t: Node)
    requires Positive(ws)
    ensures 0 <= SumFor(ws, t) <= Sum(ws)
    ensures SumFor(ws, t) > 0 <==> t in Targets(ws)
  {
    if ws != [] {
      var rest := ws[..|ws| - 1];
      assert ws == rest + [ws[|ws| - 1]];
      SumForBounds(rest, t);
      SumForAppend(rest, ws[|ws| - 1], t);
    }
  }

  /** A weight to a target not seen before starts a new entry. */
  lemma CombineFresh(out: seq<Weight>, ws: seq<Weight>, w: Weight)
    requires Combined(out, ws) && Positive(ws) && 0 < w.amount < U64
    requires w.target !in Targets(ws)
    ensures Combined(out + [w], ws + [w])
  {
    var outs, all := out + [w], ws + [w];
    SumForAppend(out, w, w.target);
    forall k | 0 <= k < |outs| ensures StandsFor(outs[k], all) {
      SumForAppend(ws, w, outs[k].target);
      SumForBounds(ws, w.target);
      if k < |out| {
        assert StandsFor(out[k], ws);
      }
      forall i | 0 <= i < |all| && all[i].target == outs[k].target ensures all[i].kind == outs[k].kind {
        if i < |ws| {
          assert ws[i].target in Targets(ws);
        }
      }
    }
    SumForAppend(ws, w, w.target);
    forall i, j | 0 <= i < j < |outs| ensures outs[i].target != outs[j].target {
      assert out[i].target in Targets(out);
    }
  }

  /** A weight to a target seen before is merged into its entry. */
  lemma CombineInto(out: seq<Weight>, ws: seq<Weight>, w: Weight, at: int)
    requires Combined(out, ws) && Positive(ws) && 0 < w.amount < U64
    requires 0 <= at < |out| && out[at].target == w.target && out[at].kind == w.kind
    requires 0 <= out[at].amount < U64
    ensures Combined(out[at := CombineWeight(out[at], w)], ws + [w])
  {
    var outs, all := out[at := CombineWeight(out[at], w)], ws + [w];
    assert StandsFor(out[at], ws);
    SumForBounds(ws, w.target);
    forall k | 0 <= k < |outs| ensures StandsFor(outs[k], all) {
      assert StandsFor(out[k], ws);
      SumForAppend(ws, w, out[k].target);
    }
    SumForAppend(ws, w, w.target);
    assert Targets(outs) == Targets(out) by {
      assert forall k | 0 <= k < |out| :: outs[k].target == out[k].target;
    }
  }

  /** A list without repeated targets stands for itself. */
  lemma DistinctStands(ws: seq<Weight>)
    requires Distinct(ws) && Positive(ws)
    ensures Combined(ws, ws)
  {
    forall k | 0 <= k < |ws| ensures StandsFor(ws[k], ws) {
      SumForDistinct(ws, k);
    }
  }

  lemma {:induction false} SumForDistinct(ws: seq<Weight>, k: int)
    requires Distinct(ws) && Positive(ws) && 0 <= k < |ws|
    ensures SumFor(ws, ws[k].target) == ws[k].amount
    decreases |ws|
  {
    var rest := ws[..|ws| - 1];
    if k < |rest| {
      SumForDistinct(rest, k);
    } else {
      SumForBounds(rest, ws[k].target);
    }
  }

  /** Reordering changes neither the targets nor their sums. */
  lemma {:induction false} Reordered(a: seq<Weight>, b: seq<Weight>, t: Node)
    requires multiset(a) == multiset(b)
    ensures SumFor(a, t) == SumFor(b, t) && Sum(a) == Sum(b)
    decreases |a|
  {
    assert |multiset(a)| == |multiset(b)|;
    if a != [] {
      var w := a[|a| - 1];
      var rest := a[..|a| - 1];
      LastOut(a);
      assert w in multiset(b);
      var k :| 0 <= k < |b| && b[k] == w;
      var front, back := b[..k], b[k + 1..];
      TakeOut(b, k);
      Reordered(rest, front + back, t);
      SumSplice(front, w, back, t);
      assert b == front + [w] + back;
    }
  }

  lemma LastOut(ws: seq<Weight>)
    requires ws != []
    ensures multiset(ws[..|ws| - 1]) == multiset(ws) - multiset{ws[|ws| - 1]}
    ensures ws[|ws| - 1] in multiset(ws)
  {
    assert ws == ws[..|ws| - 1] + [ws[|ws| - 1]];
  }

  lemma TakeOut(ws: seq<Weight>, k: int)
    requires 0 <= k < |ws|
    ensures multiset(ws[..k] + ws[k + 1..]) == multiset(ws) - multiset{ws[k]}
  {
    assert ws == ws[..k] + [ws[k]] + ws[k + 1..];
  }

  lemma {:induction false} SumSplice(a: seq<Weight>, w: Weight, b: seq<Weight>, t: Node)
    ensures SumFor(a + [w] + b, t) == SumFor(a + b, t) + (if w.target == t then w.amount else 0)
    ensures Sum(a + [w] + b) == Sum(a + b) + w.amount
    decreases |b|
  {
    if b == [] {
      assert a + [w] + b == a + [w] && a + b == a;
      SumForAppend(a, w, t);
      SumAppend(a, w);
    } else {
      var rest, last := b[..|b| - 1], b[|b| - 1];
      assert a + [w] + b == (a + [w] + rest) + [last] && a + b == (a + rest) + [last];
      SumSplice(a, w, rest, t);
      SumForAppend(a + [w] + rest, last, t);
      SumForAppend(a + rest, last, t);
      SumAppend(a + [w] + rest, last);
      SumAppend(a + rest, last);
    }
  }

  lemma ReorderedTargets(a: seq<Weight>, b: seq<Weight>)
    requires multiset(a) == multiset(b)
    ensures Targets(a) <= Targets(b)
    ensures Positive(b) ==> Positive(a)
    ensures OneKind(b) ==> OneKind(a)
  {
    forall i | 0 <= i < |a| ensures exists j | 0 <= j < |b| :: b[j] == a[i] {
      assert a[i] in multiset(b);
    }
    if OneKind(b) {
      forall i, j | 0 <= i < |a| && 0 <= j < |a| ensures SameKind(a, i, j) {
        var x :| 0 <= x < |b| && b[x] == a[i];
        var y :| 0 <= y < |b| && b[y] == a[j];
        assert SameKind(b, x, y);
      }
    }
  }

  /** In a list of one kind per target, an entry standing for a prefix has the kind of the next edge. */
  lemma KindOfNext(w: Weight, ws: seq<Weight>, l: int)
    requires OneKind(ws) && 0 <= l < |ws| && StandsFor(w, ws[..l]) && w.target == ws[l].target
    ensures w.kind == ws[l].kind
  {
    var j :| 0 <= j < l && ws[..l][j].target == w.target;
    assert SameKind(ws, j, l);
  }

  lemma ReorderedCombined(out: seq<Weight>, a: seq<Weight>, b: seq<Weight>)
    requires multiset(a) == multiset(b) && Combined(out, a)
    ensures Combined(out, b)
  {
    ReorderedTargets(a, b);
    ReorderedTargets(b, a);
    forall k | 0 <= k < |out| ensures StandsFor(out[k], b) {
      assert StandsFor(out[k], a);
      Reordered(a, b, out[k].target);
      forall i | 0 <= i < |b| && b[i].target == out[k].target ensures b[i].kind == out[k].kind {
        assert b[i] in multiset(a);
      }
    }
  }

  /** As many targets as edges: no target is repeated. */
  lemma {:induction false} CountTargets(ws: seq<Weight>)
    ensures |Targets(ws)| <= |ws|
    ensures Distinct(ws) <==> |Targets(ws)| == |ws|
    decreases |ws|
  {
    if ws != [] {
      var rest, w := ws[..|ws| - 1], ws[|ws| - 1];
      assert ws == rest + [w];
      CountTargets(rest);
      SumForAppend(rest, w, w.target);
      if w.target in Targets(rest) {
        assert Targets(ws) == Targets(rest);
        var i :| 0 <= i < |rest| && rest[i].target == w.target;
        assert ws[i].target == ws[|rest|].target;
      } else {
        assert Distinct(ws) <==> Distinct(rest) by {
          forall i | 0 <= i < |rest| ensures ws[i].target != w.target {
            assert ws[i].target in Targets(rest);
          }
        }
      }
    }
  }

  /** What the edges to other targets than t are. */
  function Without(ws: seq<Weight>, t: Node): (r: seq<Weight>) {
    if ws == [] then []
    else if ws[|ws| - 1].target == t then Without(ws[..|ws| - 1], t)
    else Without(ws[..|ws| - 1], t) + [ws[|ws| - 1]]
  }

  lemma {:induction false} WithoutSums(ws: seq<Weight>, t: Node, u: Node)
    requires Positive(ws)
    ensures Sum(ws) == SumFor(ws, t) + Sum(Without(ws, t))
    ensures SumFor(Without(ws, t), u) == if u == t then 0 else SumFor(ws, u)
    ensures Positive(Without(ws, t))
    decreases |ws|
  {
    if ws != [] {
      var rest, w := ws[..|ws| - 1], ws[|ws| - 1];
      WithoutSums(rest, t, u);
      var less := Without(rest, t);
      if w.target != t {
        SumForAppend(less, w, u);
        SumAppend(less, w);
        assert Without(ws, t) == less + [w];
      } else {
        assert Without(ws, t) == less;
      }
    }
  }

  /** Entries for distinct targets never add up to more than the edges. */
  lemma {:induction false} EntriesBelow(out: seq<Weight>, ws: seq<Weight>)
    requires Distinct(out) && Positive(ws)
    requires forall k | 0 <= k < |out| :: out[k].amount <= SumFor(ws, out[k].target)
    ensures Sum(out) <= Sum(ws)
    decreases |out|
  {
    if out == [] {
      SumForBounds(ws, Node(0));
    } else {
      var rest, w := out[..|out| - 1], out[|out| - 1];
      var less := Without(ws, w.target);
      WithoutSums(ws, w.target, w.target);
      forall k | 0 <= k < |rest| ensures rest[k].amount <= SumFor(less, rest[k].target) {
        WithoutSums(ws, w.target, rest[k].target);
      }
      EntriesBelow(rest, less);
    }
  }

  /** Exact entries for all targets add up to exactly the edges. */
  lemma {:induction false} EntriesExact(out: seq<Weight>, ws: seq<Weight>)
    requires Distinct(out) && Positive(ws)
    requires forall k | 0 <= k < |out| :: out[k].amount == SumFor(ws, out[k].target)
    requires forall t | SumFor(ws, t) > 0 :: t in Targets(out)
    ensures Sum(out) == Sum(ws)
    decreases |out|
  {
    if out == [] {
      if ws != [] {
        var t := ws[0].target;
        assert t in Targets(ws);
        SumForBounds(ws, t);
      }
    } else {
      var rest, w := out[..|out| - 1], out[|out| - 1];
      assert out == rest + [w];
      SumForAppend(rest, w, w.target);
      var less := Without(ws, w.target);
      WithoutSums(ws, w.target, w.target);
      forall k | 0 <= k < |rest| ensures rest[k].amount == SumFor(less, rest[k].target) {
        WithoutSums(ws, w.target, rest[k].target);
      }
      forall t | SumFor(less, t) > 0 ensures t in Targets(rest) {
        WithoutSums(ws, w.target, t);
      }
      EntriesExact(rest, less);
    }
  }

  /** As long as the sum of all edges fits into 64 bits, merging loses nothing. */
  lemma CombinedKeepsSum(out: seq<Weight>, ws: seq<Weight>)
    requires Combined(out, ws) && Positive(ws)
    ensures Positive(out) && Sum(out) <= Sum(ws) && |out| <= |ws| && OneKind(out)
    ensures Sum(ws) < U64 ==>
      Sum(out) == Sum(ws) && forall k | 0 <= k < |out| :: out[k].amount == SumFor(ws, out[k].target)
  {
    forall k | 0 <= k < |out| ensures 0 < out[k].amount <= SumFor(ws, out[k].target) && out[k].amount < U64 {
      assert StandsFor(out[k], ws);
      SumForBounds(ws, out[k].target);
    }
    EntriesBelow(out, ws);
    CountTargets(out);
    CountTargets(ws);
    if Sum(ws) < U64 {
      forall k | 0 <= k < |out| ensures out[k].amount == SumFor(ws, out[k].target) {
        assert StandsFor(out[k], ws);
        SumForBounds(ws, out[k].target);
      }
      forall t | SumFor(ws, t) > 0 ensures t in Targets(out) {
        SumForBounds(ws, t);
      }
      EntriesExact(out, ws);
    }
  }

  /** Sorts by target. Callers rely on nothing but the order and on no edge getting lost. */
  method SortByTarget(ws: seq<Weight>) returns (sorted: seq<Weight>)
    ensures Sorted(sorted) && multiset(sorted) == multiset(ws)
    decreases |ws|
  {
    if ws == [] {
      return [];
    }
    var w := ws[0];
    var rest := SortByTarget(ws[1..]);
    var k := 0;
    while k < |rest| && rest[k].target.index < w.target.index
      invariant 0 <= k <= |rest|
      invariant forall i | 0 <= i < k :: rest[i].target.index < w.target.index
    {
      k := k + 1;
    }
    sorted := rest[..k] + [w] + rest[k..];
    InsertSorted(rest, w, k);
    assert ws == [w] + ws[1..];
  }

  lemma InsertSorted(rest: seq<Weight>, w: Weight, k: nat)
    requires Sorted(rest) && k <= |rest|
    requires forall i | 0 <= i < k :: rest[i].target.index < w.target.index
    requires k < |rest| ==> w.target.index <= rest[k].target.index
    ensures Sorted(rest[..k] + [w] + rest[k..])
    ensures multiset(rest[..k] + [w] + rest[k..]) == multiset{w} + multiset(rest)
  {
    var s := rest[..k] + [w] + rest[k..];
    forall i, j | 0 <= i < j < |s| ensures InOrder(s, i, j) {
      assert k < j - 1 < |rest| ==> InOrder(rest, k, j - 1);
      assert i < k && j < k ==> InOrder(rest, i, j);
      assert i < k < j && i < j - 1 ==> InOrder(rest, i, j - 1);
      assert k < i ==> InOrder(rest, i - 1, j - 1);
    }
    assert rest == rest[..k] + rest[k..];
  }
}
