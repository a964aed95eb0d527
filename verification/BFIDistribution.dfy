/** The successor weights of one block: collected in 64 bits, then normalized into 32 bits. */
module BFIDistribution {
  import opened Probability
  import opened Powers
  import opened BFIWeights
  import opened BFIScaling

  /** The hash table of combined weights. */
  predicate TableOf(table: map<Node, Weight>, ws: seq<Weight>) {
    && table.Keys == Targets(ws)
    && forall t {:trigger StandsFor(table[t], ws)} | t in table :: table[t].target == t && StandsFor(table[t], ws)
  }

  lemma TableGrows(table: map<Node, Weight>, ws: seq<Weight>, w: Weight, r: Weight)
    requires TableOf(table, ws) && Positive(ws) && 0 < w.amount < U64
    requires forall i | 0 <= i < |ws| && ws[i].target == w.target :: ws[i].kind == w.kind
    requires r == w.(amount := Min((if w.target in table then table[w.target].amount else 0) + w.amount, U64 - 1))
    ensures TableOf(table[w.target := r], ws + [w])
  {
    SumForAppend(ws, w, w.target);
    SumForBounds(ws, w.target);
    var grown, all := table[w.target := r], ws + [w];
    if w.target in table {
      assert StandsFor(table[w.target], ws);
    }
    forall t | t in grown ensures grown[t].target == t && StandsFor(grown[t], all) {
      SumForAppend(ws, w, t);
      if t != w.target {
        assert StandsFor(table[t], ws);
      }
    }
  }

  /** A run of equal targets in a sorted list starts a new entry. */
  lemma NewRun(out: seq<Weight>, sorted: seq<Weight>, i: int) returns (grown: seq<Weight>)
    requires 0 <= i < |sorted| && Sorted(sorted) && Positive(sorted)
    requires Combined(out, sorted[..i])
    requires i > 0 ==> sorted[i - 1].target.index < sorted[i].target.index
    ensures grown == out + [sorted[i]] && Combined(grown, sorted[..i + 1])
  {
    grown := out + [sorted[i]];
    assert sorted[..i + 1] == sorted[..i] + [sorted[i]];
    forall k | 0 <= k < i ensures sorted[k].target != sorted[i].target {
      assert k < i - 1 ==> InOrder(sorted, k, i - 1);
    }
    CombineFresh(out, sorted[..i], sorted[i]);
  }

  lemma RunGoesOn(run: seq<Weight>, sorted: seq<Weight>, l: int) returns (grown: seq<Weight>)
    requires 0 <= l < |sorted| && Positive(sorted) && OneKind(sorted)
    requires Combined(run, sorted[..l]) && run != []
    requires run[|run| - 1].target == sorted[l].target
    ensures var last := run[|run| - 1];
      0 <= last.amount < U64 && last.kind == sorted[l].kind && 0 < sorted[l].amount < U64 &&
      grown == run[|run| - 1 := CombineWeight(last, sorted[l])]
    ensures Combined(grown, sorted[..l + 1])
  {
    var last := run[|run| - 1];
    assert StandsFor(last, sorted[..l]);
    SumForBounds(sorted[..l], last.target);
    assert sorted[..l + 1] == sorted[..l] + [sorted[l]];
    KindOfNext(last, sorted, l);
    CombineInto(run, sorted[..l], sorted[l], |run| - 1);
    grown := run[|run| - 1 := CombineWeight(last, sorted[l])];
  }

  /** out has one entry for each of the keys. */
  predicate Entries(out: seq<Weight>, keys: set<Node>, ws: seq<Weight>) {
    if out == [] then keys == {}
    else
      var w := out[|out| - 1];
      w.target in keys && StandsFor(w, ws) && Entries(out[..|out| - 1], keys - {w.target}, ws)
  }

  lemma EntriesGrow(out: seq<Weight>, keys: set<Node>, ws: seq<Weight>, w: Weight)
    requires Entries(out, keys, ws) && w.target !in keys && StandsFor(w, ws)
    ensures Entries(out + [w], keys + {w.target}, ws)
  {
    assert (out + [w])[..|out|] == out;
    assert keys + {w.target} - {w.target} == keys;
  }

  lemma {:induction false} EntriesCombine(out: seq<Weight>, keys: set<Node>, ws: seq<Weight>)
    requires Entries(out, keys, ws)
    ensures Distinct(out) && Targets(out) == keys
    ensures forall k | 0 <= k < |out| :: StandsFor(out[k], ws)
    decreases |out|
  {
    if out != [] {
      var rest, w := out[..|out| - 1], out[|out| - 1];
      assert out == rest + [w];
      EntriesCombine(rest, keys - {w.target}, ws);
      SumForAppend(rest, w, w.target);
      assert forall k | 0 <= k < |rest| :: rest[k].target in Targets(rest);
    }
  }

  /** The list while it is compacted in place: entries up to o are done, those from i are untouched. */
  ghost predicate Compacted(weights: seq<Weight>, out: seq<Weight>, sorted: seq<Weight>, o: int, i: int) {
    && 0 <= o <= i <= |weights| == |sorted| && |out| == o
    && (forall k | 0 <= k < o :: weights[k] == out[k])
    && forall k | i <= k < |sorted| :: weights[k] == sorted[k]
  }

  /** The weights c while they are shifted: the first i are done, and counted in the total. */
  ghost predicate Shifting(weights: seq<Weight>, total: int, c: seq<Weight>, shift: nat, i: nat) {
    && Positive(c) && shift > 0 && Sum(ScaleAll(c, shift)) < U64
    && i <= |c| && weights == ScaleAll(c, shift)[..i] + c[i..]
    && total == Sum(ScaleAll(c, shift)[..i])
  }

  lemma ShiftNext(weights: seq<Weight>, total: int, c: seq<Weight>, shift: nat, i: nat)
    requires Shifting(weights, total, c, shift, i) && i < |c|
    ensures i < |weights| && 0 < weights[i].amount && 0 <= total
    ensures var amount := Max(1, ShiftRightAndRound(weights[i].amount, shift));
      Shifting(weights[i := weights[i].(amount := amount)], Add64(total, amount), c, shift, i + 1)
  {
    NextScaled(c, shift, i);
    var scaled := ScaleAll(c, shift);
    assert weights[i] == c[i];
    assert weights[i := scaled[i]] == scaled[..i + 1] + c[i + 1..];
  }

  class Distribution {
    var weights: seq<Weight>
    var total: int
    var didOverflow: bool

    ghost predicate Valid()
      reads this
    {
      && Positive(weights)
      && 0 <= total < U64
      && Sum(weights) == total + if didOverflow then U64 else 0
    }

    constructor ()
      ensures Valid() && weights == []
    {
      weights, total, didOverflow := [], 0, false;
    }

    /** Adds an edge; the sum of the edges may pass 64 bits once. */
    method Add(node: Node, amount: int, kind: DistType)
      requires Valid() && 0 < amount < U64
      requires Sum(weights) + amount < 2 * U64
      modifies this
      ensures Valid()
      ensures weights == old(weights) + [Weight(kind, node, amount)]
    {
      ghost var w := Weight(kind, node, amount);
      SumAppend(weights, w);
      assert Positive(weights + [w]);
      var newTotal := Add64(total, amount);
      var isOverflow := newTotal < total;
      didOverflow := didOverflow || isOverflow;
      total := newTotal;
      weights := weights + [Weight(kind, node, amount)];
    }

    /** Sorts by target, then merges runs of equal targets in place. The order that the sort left
        equal targets in is of no consequence. */
    method CombineWeightsBySorting()
      requires Positive(weights) && OneKind(weights)
      modifies this`weights
      ensures Combined(weights, old(weights))
    {
      var sorted := SortByTarget(weights);
      ReorderedTargets(sorted, weights);
      ghost var before := weights;
      ghost var out := [];
      weights := sorted;
      var o, i := 0, 0;
      while i != |weights|
        invariant o <= i <= |sorted| && Compacted(weights, out, sorted, o, i)
        invariant Combined(out, sorted[..i])
        invariant 0 < i < |sorted| ==> sorted[i - 1].target.index < sorted[i].target.index
        decreases |sorted| - i
      {
        i, out := CombineRun(o, i, out, sorted);
        o := o + 1;
      }
      weights := weights[..o];
      assert sorted[..i] == sorted && weights == out;
      ReorderedCombined(weights, sorted, before);
    }

    /** Merges the run of equal targets at i into one entry at o, and finds where the next run starts. */
    method CombineRun(o: nat, i: nat, ghost out: seq<Weight>, ghost sorted: seq<Weight>)
      returns (l: nat, ghost grown: seq<Weight>)
      requires o <= i < |sorted| && Compacted(weights, out, sorted, o, i) && Combined(out, sorted[..i])
      requires Sorted(sorted) && Positive(sorted) && OneKind(sorted)
      requires i > 0 ==> sorted[i - 1].target.index < sorted[i].target.index
      modifies this`weights
      ensures i < l <= |sorted| && Compacted(weights, grown, sorted, o + 1, l) && Combined(grown, sorted[..l])
      ensures l < |sorted| ==> sorted[l - 1].target.index < sorted[l].target.index
    {
      ghost var target := weights[i].target;
      weights := weights[o := weights[i]];
      l := i + 1;
      grown := NewRun(out, sorted, i);
      while l != |weights| && weights[i].target == weights[l].target
        invariant i < l <= |sorted| && Compacted(weights, grown, sorted, o + 1, l)
        invariant weights[i].target == target == sorted[l - 1].target == grown[o].target
        invariant Combined(grown, sorted[..l])
        decreases |sorted| - l
      {
        grown := RunGoesOn(grown, sorted, l);
        weights := weights[o := CombineWeight(weights[o], weights[l])];
        l := l + 1;
      }
      assert l < |sorted| ==> InOrder(sorted, l - 1, l);
    }

    /** Merges through a hash table. */
    method CombineWeightsByHashing()
      requires Positive(weights) && OneKind(weights)
      modifies this`weights
      ensures Combined(weights, old(weights))
    {
      var combined: map<Node, Weight> := map[];
      var i := 0;
      while i < |weights|
        invariant 0 <= i <= |weights|
        invariant weights == old(weights)
        invariant TableOf(combined, weights[..i])
      {
        var w := weights[i];
        assert weights[..i + 1] == weights[..i] + [w];
        var r: Weight;
        if w.target in combined {
          assert StandsFor(combined[w.target], weights[..i]);
          SumForBounds(weights[..i], w.target);
          KindOfNext(combined[w.target], weights, i);
          r := CombineWeight(combined[w.target], w);
        } else {
          r := CombineWeight(Weight(Local, Node(0), 0), w);
        }
        TableGrows(combined, weights[..i], w, r);
        combined := combined[w.target := r];
        i := i + 1;
      }
      assert weights[..i] == weights;
      if |weights| == |combined| {
        CountTargets(weights);
        assert |Targets(weights)| == |combined.Keys| == |weights|;
        DistinctStands(weights);
        return;
      }
      FillIn(combined);
    }

    /** Reads the table out, in any order. */
    method FillIn(combined: map<Node, Weight>)
      requires TableOf(combined, weights)
      modifies this`weights
      ensures Combined(weights, old(weights))
    {
      ghost var ws := weights;
      var left: set<Node> := combined.Keys;
      weights := [];
      while left != {}
        invariant left <= combined.Keys
        invariant Entries(weights, combined.Keys - left, ws)
        decreases |left|
      {
        var t: Node :| t in left;
        assert StandsFor(combined[t], ws);
        EntriesGrow(weights, combined.Keys - left, ws, combined[t]);
        assert combined.Keys - left + {t} == combined.Keys - (left - {t});
        weights := weights + [combined[t]];
        left := left - {t};
      }
      assert combined.Keys - left == combined.Keys;
      EntriesCombine(weights, combined.Keys, ws);
    }

    method CombineWeights()
      requires Positive(weights) && OneKind(weights)
      modifies this`weights
      ensures Combined(weights, old(weights))
    {
      if |weights| > 128 {
        CombineWeightsByHashing();
      } else {
        CombineWeightsBySorting();
      }
    }

    /** Leaves one weight per target, and their total; it has at most 32 bits if the sum is below the limit. */
    method Normalize()
      requires Valid() && OneKind(weights) && |weights| < U32
      modifies this
      ensures Positive(old(weights)) && Normalized(weights, old(weights))
      ensures |weights| <= total == Sum(weights)
      ensures Fits(|Targets(old(weights))|, Sum(old(weights))) ==> total < U32
      ensures |weights| <= |old(weights)|
    {
      if weights == [] {
        return;
      }
      ghost var ws := weights;
      if |weights| > 1 {
        CombineWeights();
      } else {
        DistinctStands(weights);
      }
      ghost var c := weights;
      if |weights| == 1 {
        total := 1;
        weights := weights[0 := weights[0].(amount := 1)];
        SingleNormalized(weights, c, ws);
        return;
      }
      var shift := 0;
      if didOverflow {
        shift := 33;
      } else if total > U32 - 1 {
        BitsInRange(total, 32);
        shift := 33 - CountLeadingZeros(total);
      }
      assert shift == ShiftFor(Sum(ws));
      CombinedScales(c, ws, shift);
      if shift == 0 {
        return;
      }
      ShiftWeights(shift);
    }

    /** The last step of normalizing: shifts all weights, and recomputes the total. */
    method ShiftWeights(shift: nat)
      requires shift > 0 && Positive(weights) && Sum(ScaleAll(weights, shift)) < U64
      modifies this`weights, this`total
      ensures weights == ScaleAll(old(weights), shift) && total == Sum(weights)
    {
      ghost var c := weights;
      total := 0;
      var i := 0;
      assert Shifting(weights, total, c, shift, i);
      while i < |weights|
        invariant 0 <= i <= |weights| == |c|
        invariant Shifting(weights, total, c, shift, i)
      {
        ShiftNext(weights, total, c, shift, i);
        var w := weights[i];
        var amount := Max(1, ShiftRightAndRound(w.amount, shift));
        total := Add64(total, amount);
        weights := weights[i := w.(amount := amount)];
        i := i + 1;
      }
      assert ScaleAll(c, shift)[..i] == ScaleAll(c, shift);
    }
  }
}
