/** Scaling weights down until their total fits into 32 bits, and when it does. */
module BFIScaling {
  import opened Probability
  import opened Powers
  import opened BFIWeights

  function CountLeadingZeros(x: int): int
    requires 0 <= x
  {
    64 - Bits(x)
  }

  function Max(a: int, b: int): int { if a >= b then a else b }

  /** How far weights of this sum are shifted to the right. */
  function ShiftFor(sum: int): (s: nat)
    requires 0 <= sum
  {
    if sum >= U64 then 33
    else if sum > U32 - 1 then BitsInRange(sum, 32); 33 - CountLeadingZeros(sum)
    else 0
  }

  lemma BitsInRange(sum: int, n: nat)
    requires U32 <= sum < U64 && n == 32
    ensures 33 <= Bits(sum) <= 64
  {
    Pow2At(n);
    Pow2At(2 * n);
    if Bits(sum) <= n { Pow2Grows(Bits(sum), n); }
    if Bits(sum) > 2 * n { Pow2Grows(2 * n, Bits(sum) - 1); }
  }

  function ScaleDown(amount: int, shift: nat): int
    requires 0 <= amount
  {
    if shift == 0 then amount else Max(1, ShiftRightAndRound(amount, shift))
  }

  function ScaleAll(ws: seq<Weight>, shift: nat): (r: seq<Weight>)
    requires Positive(ws)
    ensures |r| == |ws|
  {
    if ws == [] then []
    else
      var w := ws[|ws| - 1];
      ScaleAll(ws[..|ws| - 1], shift) + [w.(amount := ScaleDown(w.amount, shift))]
  }

  lemma {:induction false} ScaleAllAt(ws: seq<Weight>, shift: nat, k: int)
    requires Positive(ws) && 0 <= k < |ws|
    ensures ScaleAll(ws, shift)[k] == ws[k].(amount := ScaleDown(ws[k].amount, shift))
    ensures 0 < ScaleAll(ws, shift)[k].amount
    decreases |ws|
  {
    if k < |ws| - 1 {
      ScaleAllAt(ws[..|ws| - 1], shift, k);
    }
  }

  /** What normalizing makes of ws: one weight per target, which is the saturated sum of the
      target's edges shifted right until the total of all edges has at most 31 bits. */
  ghost predicate Normalized(out: seq<Weight>, ws: seq<Weight>)
    requires Positive(ws)
  {
    && Distinct(out)
    && Targets(out) == Targets(ws)
    && forall k {:trigger ScaledFor(out[k], ws)} | 0 <= k < |out| :: ScaledFor(out[k], ws)
  }

  ghost predicate ScaledFor(w: Weight, ws: seq<Weight>)
    requires Positive(ws)
  {
    SumForBounds(ws, w.target);
    && (forall i | 0 <= i < |ws| && ws[i].target == w.target :: ws[i].kind == w.kind)
    && w.amount == if |Targets(ws)| == 1 then 1 else ScaleDown(Min(SumFor(ws, w.target), U64 - 1), ShiftFor(Sum(ws)))
  }

  /** The first sum of weights to n targets that some list of weights cannot be normalized at. */
  function TotalLimit(n: int): int { 2 * U64 - (n - 1) * (2 * U32) + n - 2 }

  /** The number of targets and the sum of their weights, for which the total has at most 32 bits. */
  predicate Fits(n: int, sum: int) {
    n <= 1 || (n <= DENOM && sum < TotalLimit(n))
  }

  /** The lists that normalizing gives a 32-bit total. */
  predicate Manageable(ws: seq<Weight>) {
    Positive(ws) && OneKind(ws) && |ws| < U32 && Sum(ws) < 2 * U64 && Fits(|Targets(ws)|, Sum(ws))
  }

  lemma {:induction false} ScaledSum(ws: seq<Weight>, shift: nat)
    requires Positive(ws)
    ensures |ws| <= Sum(ScaleAll(ws, shift))
    ensures Sum(ScaleAll(ws, shift)) * Pow2(shift) <= Sum(ws) + |ws| * Pow2(shift)
    decreases |ws|
  {
    if ws != [] {
      var rest, w := ws[..|ws| - 1], ws[|ws| - 1];
      ScaledSum(rest, shift);
      var p, x := Pow2(shift), ScaleDown(w.amount, shift);
      SumAppend(ScaleAll(rest, shift), w.(amount := x));
      ShiftRightBound(w.amount, shift);
      Distribute(Sum(ScaleAll(rest, shift)), 1, x, p);
      Distribute(|rest|, 1, 1, p);
      assert |ws| == |rest| * 1 + 1;
    }
  }

  lemma {:induction false} PrefixSum(ws: seq<Weight>, n: nat)
    requires n <= |ws| && forall k | 0 <= k < |ws| :: 0 <= ws[k].amount
    ensures 0 <= Sum(ws[..n]) <= Sum(ws)
    decreases |ws|
  {
    if ws != [] {
      var rest := ws[..|ws| - 1];
      PrefixSum(rest, if n < |ws| then n else n - 1);
      if n < |ws| {
        assert rest[..n] == ws[..n];
      } else {
        assert ws[..n] == ws;
        assert rest[..n - 1] == rest;
      }
    }
  }

  /** A shifted sum has at most 31 bits, or at most 32 if the sum overflowed. */
  lemma ShiftShortens(sum: int, s: nat)
    requires U32 <= sum < 2 * U64 && s == ShiftFor(sum)
    ensures s > 0 && sum < (if sum < U64 then DENOM else U32) * Pow2(s)
  {
    Pow2At(s);
    if sum < U64 {
      BitsInRange(sum, 32);
      Pow2Adds(s, 31);
      DenomAt(31);
    }
  }

  lemma DenomAt(n: nat)
    requires n == 31
    ensures Pow2(n) == DENOM
  {
    Pow2At(n + 1);
  }

  lemma Shortened(total: int, sum: int, n: int, p: int, limit: int)
    requires p > 0 && total * p <= sum + n * p && sum < limit * p
    ensures total < limit + n
  {
    Distribute(limit, 1, n, p);
    Cancel(total, limit + n, p);
  }

  /** In any case, shifted weights add up in 64 bits. */
  lemma ScaledTotal(c: seq<Weight>, sum: int, s: nat)
    requires Positive(c) && 0 <= Sum(c) <= sum < 2 * U64 && s == ShiftFor(sum)
    ensures |c| <= Sum(ScaleAll(c, s)) < U32 + |c|
    ensures sum < U64 && 0 < |c| <= DENOM ==> Sum(ScaleAll(c, s)) < U32
  {
    ScaledSum(c, s);
    if sum < U32 {
      Unscaled(c);
    } else {
      ShiftShortens(sum, s);
      Shortened(Sum(ScaleAll(c, s)), Sum(c), |c|, Pow2(s), if sum < U64 then DENOM else U32);
    }
  }

  /** How many weights are more than one when they are scaled. */
  function Big(ws: seq<Weight>, s: nat): (r: nat)
    requires Positive(ws)
    ensures r <= |ws|
  {
    if ws == [] then 0
    else Big(ws[..|ws| - 1], s) + if ScaleDown(ws[|ws| - 1].amount, s) > 1 then 1 else 0
  }

  lemma TwoToThe33(s: nat)
    requires s == 33
    ensures Pow2(s) == 2 * U32 && Pow2(s - 1) == U32
  {
    Pow2At(s);
    Pow2At(s - 1);
  }

  /** What scaled weights cost: rounding up saves half of the last unit of a big weight, and a weight
      of one may come for a single unit of the sum. */
  lemma {:induction false} ScaledCost(c: seq<Weight>, s: nat)
    requires Positive(c) && s == 33
    ensures Sum(ScaleAll(c, s)) * (2 * U32) + Big(c, s) * (U32 - 1) <= Sum(c) + |c| * (2 * U32 - 1)
    ensures Sum(ScaleAll(c, s)) <= |c| + Big(c, s) * (DENOM - 1)
    decreases |c|
  {
    if c != [] {
      var rest, w := c[..|c| - 1], c[|c| - 1];
      ScaledCost(rest, s);
      var a := ScaleDown(w.amount, s);
      SumAppend(ScaleAll(rest, s), w.(amount := a));
      OneCost(w.amount, s);
      AddCost(Sum(ScaleAll(rest, s)), Big(rest, s), Sum(rest), |rest|, a, w.amount);
    }
  }

  lemma AddCost(total: int, big: int, sum: int, n: int, a: int, x: int)
    requires total * (2 * U32) + big * (U32 - 1) <= sum + n * (2 * U32 - 1) && total <= n + big * (DENOM - 1)
    requires 1 <= a <= DENOM && a * (2 * U32) + (if a > 1 then U32 - 1 else 0) <= x + 2 * U32 - 1
    ensures var more := big + if a > 1 then 1 else 0;
      (total + a) * (2 * U32) + more * (U32 - 1) <= sum + x + (n + 1) * (2 * U32 - 1) &&
        total + a <= n + 1 + more * (DENOM - 1)
  {
    Distribute(total, 1, a, 2 * U32);
    Distribute(big, 1, if a > 1 then 1 else 0, U32 - 1);
    Distribute(big, 1, if a > 1 then 1 else 0, DENOM - 1);
    Distribute(n, 1, 1, 2 * U32 - 1);
  }

  lemma OneCost(x: int, s: nat)
    requires 0 < x < U64 && s == 33
    ensures var a := ScaleDown(x, s);
      1 <= a <= DENOM && a * (2 * U32) + (if a > 1 then U32 - 1 else 0) <= x + 2 * U32 - 1
  {
    TwoToThe33(s);
    ShiftRightBound(x, s);
  }

  /** Below the limit, the total of an overflowed list has at most 32 bits. */
  lemma OverflowedFits(c: seq<Weight>, s: nat)
    requires Positive(c) && s == 33 && 2 <= |c| <= DENOM && Sum(c) < TotalLimit(|c|)
    ensures Sum(ScaleAll(c, s)) < U32
  {
    ScaledCost(c, s);
    if Big(c, s) <= 1 {
      MulLe(Big(c, s), 1, DENOM - 1);
    } else {
      MulLe(2, Big(c, s), U32 - 1);
    }
  }

  lemma {:induction false} Unscaled(ws: seq<Weight>)
    requires Positive(ws)
    ensures ScaleAll(ws, 0) == ws
  {
    forall k | 0 <= k < |ws| ensures ScaleAll(ws, 0)[k] == ws[k] {
      ScaleAllAt(ws, 0, k);
    }
  }

  /** A larger combined weight never becomes a smaller one. */
  lemma NormalizedInOrder(out: seq<Weight>, ws: seq<Weight>, i: nat, j: nat)
    requires Positive(ws) && Normalized(out, ws)
    requires i < |out| && j < |out| && SumFor(ws, out[i].target) <= SumFor(ws, out[j].target)
    ensures 1 <= out[i].amount <= out[j].amount
  {
    assert ScaledFor(out[i], ws) && ScaledFor(out[j], ws);
    SumForBounds(ws, out[i].target);
    assert out[i].target in Targets(out);
    SumForBounds(ws, out[j].target);
    ShiftRightMonotone(Min(SumFor(ws, out[i].target), U64 - 1), Min(SumFor(ws, out[j].target), U64 - 1),
                       ShiftFor(Sum(ws)));
  }

  /** Without the bound on the sum, the total may need 33 bits: two full weights overflow once, as they
      may, and are rounded up to 2^31 each. */
  lemma FullWeightsExceed(out: seq<Weight>, a: Node, b: Node, shift: nat)
    requires a != b && shift == 33
    requires Positive([Weight(Local, a, U64 - 1), Weight(Local, b, U64 - 1)])
    requires Normalized(out, [Weight(Local, a, U64 - 1), Weight(Local, b, U64 - 1)])
    ensures Sum(out) == U32
  {
    var ws := [Weight(Local, a, U64 - 1), Weight(Local, b, U64 - 1)];
    TwoWeights(ws, a);
    TwoWeights(ws, b);
    CountTargets(out);
    FullRounds(shift);
    assert ScaledFor(out[0], ws) && ScaledFor(out[1], ws);
    assert out[0].target in Targets(out) && out[1].target in Targets(out);
    TwoWeights(out, a);
  }

  lemma TwoWeights(ws: seq<Weight>, t: Node)
    requires |ws| == 2
    ensures Sum(ws) == ws[0].amount + ws[1].amount
    ensures SumFor(ws, t) == (if ws[0].target == t then ws[0].amount else 0) +
      (if ws[1].target == t then ws[1].amount else 0)
    ensures Targets(ws) == {ws[0].target, ws[1].target}
  {
    assert ws == ([] + [ws[0]]) + [ws[1]];
    SumAppend([], ws[0]);
    SumAppend([] + [ws[0]], ws[1]);
    SumForAppend([], ws[0], t);
    SumForAppend([] + [ws[0]], ws[1], t);
  }

  lemma FullRounds(shift: nat)
    requires shift == 33
    ensures ShiftRightAndRound(U64 - 1, shift) == DENOM
  {
    ShiftRightRounds(U64 - 1, shift);
    Pow2At(shift);
    Pow2At(shift - 1);
    DivUnique(U64 - 1 + U32, 2 * U32, DENOM, U32 - 1);
  }

  lemma SingleNormalized(out: seq<Weight>, c: seq<Weight>, ws: seq<Weight>)
    requires Positive(ws) && Combined(c, ws) && |c| == 1
    requires out == [c[0].(amount := 1)]
    ensures Normalized(out, ws) && Sum(out) == 1
  {
    assert out == [] + out;
    SumAppend([], out[0]);
    CountTargets(c);
    assert StandsFor(c[0], ws);
    assert out[0].target == c[0].target;
    assert Targets(out) == Targets(c);
    assert ScaledFor(out[0], ws);
  }

  lemma CombinedScales(c: seq<Weight>, ws: seq<Weight>, shift: nat)
    requires Positive(ws) && |ws| < U32 && Sum(ws) < 2 * U64 && Combined(c, ws) && |c| != 1
    requires 0 <= Sum(ws) && shift == ShiftFor(Sum(ws))
    ensures Positive(c) && |c| <= |ws|
    ensures Normalized(ScaleAll(c, shift), ws) && |c| <= Sum(ScaleAll(c, shift)) < U64
    ensures Fits(|Targets(ws)|, Sum(ws)) ==> Sum(ScaleAll(c, shift)) < U32
    ensures shift == 0 ==> ScaleAll(c, shift) == c && Sum(c) == Sum(ws)
  {
    CombinedKeepsSum(c, ws);
    PrefixSum(c, 0);
    ScaledNormalized(c, ws, shift);
    ScaledTotal(c, Sum(ws), shift);
    CountTargets(c);
    if |c| >= 2 && Sum(ws) >= U64 && Fits(|c|, Sum(ws)) {
      OverflowedFits(c, shift);
    }
    if shift == 0 {
      Unscaled(c);
      NoShift(Sum(ws));
    }
  }

  lemma NoShift(sum: int)
    requires 0 <= sum && ShiftFor(sum) == 0
    ensures sum < U32
  {
    if U32 <= sum < U64 {
      BitsInRange(sum, 32);
    }
  }

  lemma NextScaled(c: seq<Weight>, shift: nat, i: nat)
    requires Positive(c) && i < |c| && shift > 0 && Sum(ScaleAll(c, shift)) < U64
    ensures var w := ScaleAll(c, shift)[i];
      w == c[i].(amount := Max(1, ShiftRightAndRound(c[i].amount, shift))) &&
      0 <= Sum(ScaleAll(c, shift)[..i]) < U64 &&
      Add64(Sum(ScaleAll(c, shift)[..i]), w.amount) == Sum(ScaleAll(c, shift)[..i + 1])
  {
    var scaled := ScaleAll(c, shift);
    forall k | 0 <= k < |c| ensures 0 <= scaled[k].amount {
      ScaleAllAt(c, shift, k);
    }
    ScaleAllAt(c, shift, i);
    assert scaled[..i + 1] == scaled[..i] + [scaled[i]];
    SumAppend(scaled[..i], scaled[i]);
    PrefixSum(scaled, i);
    PrefixSum(scaled, i + 1);
  }

  lemma ScaledNormalized(c: seq<Weight>, ws: seq<Weight>, shift: nat)
    requires Positive(ws) && Combined(c, ws) && Positive(c) && |c| != 1
    requires 0 <= Sum(ws) && shift == ShiftFor(Sum(ws))
    ensures Normalized(ScaleAll(c, shift), ws)
  {
    var out := ScaleAll(c, shift);
    CountTargets(c);
    forall k | 0 <= k < |c| ensures out[k].target == c[k].target && ScaledFor(out[k], ws) {
      ScaleAllAt(c, shift, k);
      assert StandsFor(c[k], ws);
    }
    assert Targets(out) == Targets(c);
  }

  // ----- the limit is sharp -----

  lemma {:induction false} CombinedExists(ws: seq<Weight>) returns (c: seq<Weight>)
    requires Positive(ws) && OneKind(ws)
    ensures Combined(c, ws)
    decreases |ws|
  {
    if ws == [] {
      c := [];
    } else {
      var rest, w := ws[..|ws| - 1], ws[|ws| - 1];
      assert ws == rest + [w];
      assert OneKind(rest) by {
        forall i, j | 0 <= i < |rest| && 0 <= j < |rest| ensures SameKind(rest, i, j) {
          assert SameKind(ws, i, j);
        }
      }
      var d := CombinedExists(rest);
      if w.target in Targets(rest) {
        assert w.target in Targets(d);
        var k :| 0 <= k < |d| && d[k].target == w.target;
        assert StandsFor(d[k], rest);
        SumForBounds(rest, w.target);
        KindOfNext(d[k], ws, |rest|);
        CombineInto(d, rest, w, k);
        c := d[k := CombineWeight(d[k], w)];
      } else {
        CombineFresh(d, rest, w);
        c := d + [w];
      }
    }
  }

  /** The cheapest amounts of n targets that scale to a total of 2^32, and what they scale to. */
  function CheapestAmount(n: nat, i: nat, scaled: bool): int
    requires 2 <= n
  {
    if i == 0 then (if scaled then DENOM else U64 - U32)
    else if i == 1 then (if scaled then DENOM - (n - 2) else SecondAmount(n))
    else 1
  }

  function SecondAmount(n: int): int { 2 * U32 * (DENOM - n + 2) - U32 }

  /** The first k of these weights, each to a target of its own. */
  function Cheapest(n: nat, k: nat, scaled: bool): (r: seq<Weight>)
    requires 2 <= n
    ensures |r| == k
  {
    if k == 0 then [] else Cheapest(n, k - 1, scaled) + [Weight(Local, Node(k - 1), CheapestAmount(n, k - 1, scaled))]
  }

  lemma {:induction false} CheapestAt(n: nat, k: nat, scaled: bool, i: nat)
    requires 2 <= n && i < k
    ensures Cheapest(n, k, scaled)[i] == Weight(Local, Node(i), CheapestAmount(n, i, scaled))
    decreases k
  {
    if i < k - 1 {
      CheapestAt(n, k - 1, scaled, i);
    }
  }

  lemma {:induction false} CheapestSum(n: nat, k: nat, scaled: bool)
    requires 2 <= n && 2 <= k
    ensures Sum(Cheapest(n, k, scaled)) == CheapestAmount(n, 0, scaled) + CheapestAmount(n, 1, scaled) + k - 2
    decreases k
  {
    var w := Weight(Local, Node(k - 1), CheapestAmount(n, k - 1, scaled));
    SumAppend(Cheapest(n, k - 1, scaled), w);
    if k == 2 {
      SumAppend([], Weight(Local, Node(0), CheapestAmount(n, 0, scaled)));
      assert Cheapest(n, 1, scaled) == [] + [Weight(Local, Node(0), CheapestAmount(n, 0, scaled))];
    } else {
      CheapestSum(n, k - 1, scaled);
    }
  }

  lemma AmountBounds(n: nat)
    requires 2 <= n <= DENOM
    ensures 0 < SecondAmount(n) < U64 && U64 <= TotalLimit(n) == U64 - U32 + SecondAmount(n) + n - 2
  {
  }

  function NodesBelow(n: nat): set<Node> { set i | 0 <= i < n :: Node(i) }

  /** One weight for each of n targets. */
  lemma CheapestTargets(n: nat, scaled: bool)
    requires 2 <= n <= DENOM
    ensures var c := Cheapest(n, n, scaled);
      Distinct(c) && Targets(c) == NodesBelow(n) && |NodesBelow(n)| == n && Positive(c) && OneKind(c)
  {
    var c := Cheapest(n, n, scaled);
    AmountBounds(n);
    forall i | 0 <= i < n ensures c[i].target == Node(i) && 0 < c[i].amount < U64 && c[i].kind == Local {
      CheapestAt(n, n, scaled, i);
    }
    assert Distinct(c);
    CountTargets(c);
    forall i, j | 0 <= i < n && 0 <= j < n ensures SameKind(c, i, j) {
    }
  }

  lemma CheapestFor(n: nat, scaled: bool, i: nat)
    requires 2 <= n <= DENOM && i < n
    ensures SumFor(Cheapest(n, n, scaled), Node(i)) == CheapestAmount(n, i, scaled)
  {
    CheapestTargets(n, scaled);
    CheapestAt(n, n, scaled, i);
    SumForDistinct(Cheapest(n, n, scaled), i);
  }

  /** The cheapest list with more on its first target, to reach a larger sum. */
  function Padded(n: nat, extra: int): seq<Weight>
    requires 2 <= n
  {
    Cheapest(n, n, false) + if extra == 0 then [] else [Weight(Local, Node(0), extra)]
  }

  lemma PaddedFacts(n: nat, extra: int)
    requires 2 <= n <= DENOM && 0 <= extra < U64
    ensures Sum(Padded(n, extra)) == TotalLimit(n) + extra
    ensures Positive(Padded(n, extra)) && OneKind(Padded(n, extra)) && Targets(Padded(n, extra)) == NodesBelow(n)
  {
    var c, ws, w := Cheapest(n, n, false), Padded(n, extra), Weight(Local, Node(0), extra);
    CheapestSum(n, n, false);
    AmountBounds(n);
    CheapestTargets(n, false);
    if extra == 0 {
      assert ws == c;
    } else {
      SumAppend(c, w);
      SumForAppend(c, w, Node(0));
      assert Node(0) in NodesBelow(n);
      forall i, j | 0 <= i < |ws| && 0 <= j < |ws| ensures SameKind(ws, i, j) {
        if i < n { CheapestAt(n, n, false, i); }
        if j < n { CheapestAt(n, n, false, j); }
      }
    }
  }

  lemma PaddedFor(n: nat, extra: int, i: nat)
    requires 2 <= n <= DENOM && 0 <= extra < U64 && i < n
    ensures SumFor(Padded(n, extra), Node(i)) >= CheapestAmount(n, i, false)
  {
    var c := Cheapest(n, n, false);
    CheapestFor(n, false, i);
    if extra == 0 {
      assert Padded(n, extra) == c;
    } else {
      SumForAppend(c, Weight(Local, Node(0), extra), Node(i));
    }
  }

  /** At the limit and beyond, up to the sums that overflow twice, some list of n targets totals more than 32 bits. */
  lemma LimitIsReached(n: nat, sum: int) returns (ws: seq<Weight>)
    requires 2 <= n <= DENOM && TotalLimit(n) <= sum < 2 * U64
    ensures Positive(ws) && OneKind(ws) && |Targets(ws)| == n && Sum(ws) == sum
    ensures forall out: seq<Weight> | Normalized(out, ws) :: Sum(out) >= U32
  {
    var extra := sum - TotalLimit(n);
    ws := Padded(n, extra);
    PaddedFacts(n, extra);
    var low := Cheapest(n, n, true);
    CheapestTargets(n, true);
    CheapestSum(n, n, true);
    forall out: seq<Weight> | Normalized(out, ws) ensures Sum(out) >= U32 {
      forall k | 0 <= k < |out| ensures out[k].amount >= SumFor(low, out[k].target) {
        CheapestShare(n, extra, out, k);
      }
      forall t | SumFor(low, t) > 0 ensures t in Targets(out) {
        SumForBounds(low, t);
      }
      EntriesAbove(out, low);
    }
  }

  lemma OverflowedShare(out: seq<Weight>, ws: seq<Weight>, k: nat, s: nat)
    requires Positive(ws) && Normalized(out, ws) && k < |out| && s == 33
    requires 2 <= |Targets(ws)| && U64 <= Sum(ws)
    ensures 0 <= SumFor(ws, out[k].target) && out[k].target in Targets(ws)
    ensures out[k].amount == ScaleDown(Min(SumFor(ws, out[k].target), U64 - 1), s)
  {
    assert ScaledFor(out[k], ws) && out[k].target in Targets(out);
    SumForBounds(ws, out[k].target);
  }

  lemma CheapestShare(n: nat, extra: int, out: seq<Weight>, k: nat)
    requires 2 <= n <= DENOM && 0 <= extra < U64 && U64 <= TotalLimit(n) + extra
    requires Positive(Padded(n, extra)) && Normalized(out, Padded(n, extra)) && k < |out|
    ensures out[k].amount >= SumFor(Cheapest(n, n, true), out[k].target)
  {
    var ws, t := Padded(n, extra), out[k].target;
    PaddedFacts(n, extra);
    CheapestTargets(n, true);
    OverflowedShare(out, ws, k, 33);
    var i :| 0 <= i < n && Node(i) == t;
    PaddedFor(n, extra, i);
    CheapestFor(n, true, i);
    AmountBounds(n);
    CheapestAmountBounds(n, i);
    CheapestScales(n, i, 33, Min(SumFor(ws, t), U64 - 1));
  }

  lemma CheapestAmountBounds(n: nat, i: nat)
    requires 2 <= n <= DENOM
    ensures 0 < CheapestAmount(n, i, false) < U64
  {
    AmountBounds(n);
  }

  lemma CheapestScales(n: nat, i: nat, s: nat, x: int)
    requires 2 <= n <= DENOM && i < n && s == 33 && 0 < CheapestAmount(n, i, false) <= x
    ensures ScaleDown(x, s) >= CheapestAmount(n, i, true)
  {
    TwoToThe33(s);
    if i < 2 {
      var low := CheapestAmount(n, i, false);
      ShiftRightMonotone(low, x, s);
      ShiftRightRounds(low, s);
      DivUnique(low + U32, 2 * U32, CheapestAmount(n, i, true), 0);
    }
  }

  /** Entries that are at least those of a list add up to at least as much. */
  lemma {:induction false} EntriesAbove(out: seq<Weight>, ws: seq<Weight>)
    requires Distinct(out) && Positive(ws)
    requires forall k | 0 <= k < |out| :: out[k].amount >= SumFor(ws, out[k].target)
    requires forall t | SumFor(ws, t) > 0 :: t in Targets(out)
    ensures Sum(out) >= Sum(ws)
    decreases |out|
  {
    if out == [] {
      if ws != [] {
        var t := ws[0].target;
        assert t in Targets(ws);
        SumForBounds(ws, t);
      }
    } else {
      var rest, w := out[..|out| - 1], out[|out| - 1];
      assert out == rest + [w];
      SumForAppend(rest, w, w.target);
      var less := Without(ws, w.target);
      WithoutSums(ws, w.target, w.target);
      forall k | 0 <= k < |rest| ensures rest[k].amount >= SumFor(less, rest[k].target) {
        WithoutSums(ws, w.target, rest[k].target);
      }
      forall t | SumFor(less, t) > 0 ensures t in Targets(rest) {
        WithoutSums(ws, w.target, t);
      }
      EntriesAbove(rest, less);
    }
  }

  /** Every list of weights to n targets with this sum is normalized to a total of at most 32 bits. */
  ghost predicate AlwaysFits(n: nat, sum: int) {
    forall ws, out {:trigger Normalizes(out, ws)} |
      Normalizes(out, ws) && |Targets(ws)| == n && Sum(ws) == sum :: Sum(out) < U32
  }

  ghost predicate Normalizes(out: seq<Weight>, ws: seq<Weight>) {
    Positive(ws) && OneKind(ws) && Normalized(out, ws)
  }

  /** When the total of normalized weights has at most 32 bits, for sums that overflow at most once. */
  lemma TotalLimitExact(n: nat, sum: int)
    requires 2 <= n <= DENOM && 0 <= sum < 2 * U64
    ensures AlwaysFits(n, sum) <==> sum < TotalLimit(n)
  {
    if sum < TotalLimit(n) {
      forall ws, out | Normalizes(out, ws) && |Targets(ws)| == n && Sum(ws) == sum ensures Sum(out) < U32 {
        NormalizedFits(out, ws);
      }
    } else {
      var ws := LimitIsReached(n, sum);
      var c := CombinedExists(ws);
      CombinedKeepsSum(c, ws);
      CountTargets(c);
      ScaledNormalized(c, ws, ShiftFor(sum));
      assert Normalizes(ScaleAll(c, ShiftFor(sum)), ws);
    }
  }

  /** All normalized forms of a list have the same total. */
  lemma NormalizedFits(out: seq<Weight>, ws: seq<Weight>)
    requires Normalizes(out, ws) && 2 <= |Targets(ws)| <= DENOM && 0 <= Sum(ws) < 2 * U64
    requires Sum(ws) < TotalLimit(|Targets(ws)|)
    ensures Sum(out) < U32
  {
    var c := CombinedExists(ws);
    CombinedKeepsSum(c, ws);
    CountTargets(c);
    var s := ShiftFor(Sum(ws));
    var scaled := ScaleAll(c, s);
    ScaledNormalized(c, ws, s);
    PrefixSum(c, 0);
    ScaledTotal(c, Sum(ws), s);
    if Sum(ws) >= U64 { OverflowedFits(c, s); }
    forall k | 0 <= k < |scaled| ensures 0 < scaled[k].amount {
      ScaleAllAt(c, s, k);
    }
    SameTotal(out, scaled, ws);
  }

  lemma BelowSum(ws: seq<Weight>, k: nat)
    requires k < |ws| && forall i | 0 <= i < |ws| :: 0 < ws[i].amount
    ensures ws[k].amount <= Sum(ws)
  {
    PrefixSum(ws, k);
    PrefixSum(ws, k + 1);
    assert ws[..k + 1] == ws[..k] + [ws[k]];
    SumAppend(ws[..k], ws[k]);
  }

  lemma SameShare(out: seq<Weight>, scaled: seq<Weight>, ws: seq<Weight>, k: nat)
    requires Positive(ws) && Normalized(out, ws) && Normalized(scaled, ws) && k < |out|
    requires Positive(scaled)
    ensures out[k].amount <= SumFor(scaled, out[k].target)
  {
    assert ScaledFor(out[k], ws) && out[k].target in Targets(out);
    var j :| 0 <= j < |scaled| && scaled[j].target == out[k].target;
    assert ScaledFor(scaled[j], ws);
    SumForDistinct(scaled, j);
  }

  lemma SameTotal(out: seq<Weight>, scaled: seq<Weight>, ws: seq<Weight>)
    requires Positive(ws) && Normalized(out, ws) && Normalized(scaled, ws) && Sum(scaled) < U64
    requires forall k | 0 <= k < |scaled| :: 0 < scaled[k].amount
    ensures Sum(out) <= Sum(scaled)
  {
    forall k | 0 <= k < |scaled| ensures scaled[k].amount < U64 {
      BelowSum(scaled, k);
    }
    forall k | 0 <= k < |out| ensures out[k].amount <= SumFor(scaled, out[k].target) {
      SameShare(out, scaled, ws, k);
    }
    EntriesBelow(out, scaled);
  }
}
