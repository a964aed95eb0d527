/** Branch weights from profile metadata, turned into edge probabilities that respect unreachable successors. */
module BranchWeights {
  import opened Probability

  const MAX32: int := U32 - 1

  /** An operand of the metadata node. */
  datatype Operand = Constant(value: int) | Other
  datatype Metadata = Absent | Operands(weights: seq<Operand>)

  datatype Edge = Edge(block: int, index: int)

  function Sum(xs: seq<int>): int {
    if xs == [] then 0 else Sum(xs[..|xs| - 1]) + xs[|xs| - 1]
  }

  /** The indices below n of the successors that are, or are not, unreachable. */
  function Idxs(unreachable: seq<bool>, b: bool, n: nat): (r: seq<nat>)
    requires n <= |unreachable|
    ensures |r| <= n
    ensures forall k | 0 <= k < |r| :: r[k] < n && unreachable[r[k]] == b
  {
    if n == 0 then []
    else if unreachable[n - 1] == b then Idxs(unreachable, b, n - 1) + [n - 1]
    else Idxs(unreachable, b, n - 1)
  }

  /** What the weights are divided by to make their sum fit into 32 bits. */
  function ScalingFactor(sum: int): (f: int)
    requires 0 <= sum
    ensures f >= 1
  {
    if sum > MAX32 then DivBounds(sum, MAX32); sum / MAX32 + 1 else 1
  }

  function DivideAll(ws: seq<int>, f: int): (r: seq<int>)
    requires f >= 1
    ensures |r| == |ws|
  {
    if ws == [] then [] else DivideAll(ws[..|ws| - 1], f) + [ws[|ws| - 1] / f]
  }

  lemma {:induction false} DividedAt(ws: seq<int>, f: int, i: nat)
    requires f >= 1 && i < |ws|
    ensures DivideAll(ws, f)[i] == ws[i] / f
    ensures Sum(DivideAll(ws, f)[..i + 1]) == Sum(DivideAll(ws, f)[..i]) + ws[i] / f
    decreases |ws|
  {
    var r := DivideAll(ws, f);
    if i < |ws| - 1 {
      var rest := DivideAll(ws[..|ws| - 1], f);
      DividedAt(ws[..|ws| - 1], f, i);
      assert r[..i + 1] == rest[..i + 1] && r[..i] == rest[..i];
    } else {
      assert r[..i + 1] == r;
    }
  }

  function Ones(n: nat): (r: seq<int>)
    ensures |r| == n && Sum(r) == n
    ensures forall i | 0 <= i < n :: r[i] == 1
  {
    if n == 0 then []
    else
      var rest := Ones(n - 1);
      assert (rest + [1])[..n - 1] == rest;
      rest + [1]
  }

  /** The weights that the probabilities are proportional to. */
  function UsedWeights(raw: seq<int>, unreachable: seq<bool>): (r: seq<int>)
    requires |raw| == |unreachable| && Words(raw)
    ensures |r| == |raw|
  {
    SumWords(raw);
    var ws := DivideAll(raw, ScalingFactor(Sum(raw)));
    if Sum(ws) == 0 || Idxs(unreachable, false, |raw|) == [] then Ones(|raw|) else ws
  }

  predicate Words(ws: seq<int>) {
    forall i | 0 <= i < |ws| :: 0 <= ws[i] < U32
  }

  lemma {:induction false} SumWords(ws: seq<int>)
    requires forall i | 0 <= i < |ws| :: 0 <= ws[i]
    ensures 0 <= Sum(ws)
    ensures forall i | 0 <= i < |ws| :: ws[i] <= Sum(ws)
    decreases |ws|
  {
    if ws != [] {
      SumWords(ws[..|ws| - 1]);
    }
  }

  lemma {:induction false} SumDivided(ws: seq<int>, f: int)
    requires f >= 1 && forall i | 0 <= i < |ws| :: 0 <= ws[i]
    ensures Sum(DivideAll(ws, f)) * f <= Sum(ws)
    ensures forall i | 0 <= i < |ws| :: 0 <= DivideAll(ws, f)[i] <= ws[i]
    decreases |ws|
  {
    if ws != [] {
      var rest, w := ws[..|ws| - 1], ws[|ws| - 1];
      SumDivided(rest, f);
      DivBounds(w, f);
      Distribute(Sum(DivideAll(rest, f)), 1, w / f, f);
      var r := DivideAll(ws, f);
      assert r[..|r| - 1] == DivideAll(rest, f);
      if w / f > w { MulLe(w + 1, w / f, f); MulLe(1, f, w + 1); }
    }
  }

  /** After scaling, the sum fits into 32 bits, and it is never zero. */
  lemma UsedWeightsFit(raw: seq<int>, unreachable: seq<bool>)
    requires 0 < |raw| == |unreachable| < MAX32 && Words(raw)
    ensures var ws := UsedWeights(raw, unreachable);
      0 < Sum(ws) <= MAX32 && forall i | 0 <= i < |ws| :: 0 <= ws[i] <= Sum(ws)
  {
    SumWords(raw);
    var s := Sum(raw);
    var f := ScalingFactor(s);
    var ws := DivideAll(raw, f);
    SumDivided(raw, f);
    SumWords(ws);
    ScaledSumFits(Sum(ws), s);
    SumWords(UsedWeights(raw, unreachable));
  }

  lemma ScaledSumFits(scaled: int, sum: int)
    requires 0 <= sum && scaled * ScalingFactor(sum) <= sum
    ensures scaled <= MAX32
  {
    var f := ScalingFactor(sum);
    if sum > MAX32 {
      DivBounds(sum, MAX32);
      assert sum < MAX32 * f;
      Cancel(scaled, MAX32, f);
    }
  }

  /** Each weight as a fraction of the sum. */
  function Fractions(ws: seq<int>, sum: int): (p: seq<Prob>)
    requires 0 < sum <= MAX32 && forall i | 0 <= i < |ws| :: 0 <= ws[i] <= sum
    ensures |p| == |ws|
  {
    if ws == [] then [] else Fractions(ws[..|ws| - 1], sum) + [FromFraction(ws[|ws| - 1], sum)]
  }

  function Proportions(raw: seq<int>, unreachable: seq<bool>): (p: seq<Prob>)
    requires 0 < |raw| == |unreachable| < MAX32 && Words(raw)
    ensures |p| == |raw|
  {
    UsedWeightsFit(raw, unreachable);
    Fractions(UsedWeights(raw, unreachable), Sum(UsedWeights(raw, unreachable)))
  }

  lemma {:induction false} FractionsAt(ws: seq<int>, sum: int, i: nat)
    requires 0 < sum <= MAX32 && i < |ws| && forall i | 0 <= i < |ws| :: 0 <= ws[i] <= sum
    ensures Fractions(ws, sum)[i] == FromFraction(ws[i], sum)
    decreases |ws|
  {
    if i < |ws| - 1 {
      FractionsAt(ws[..|ws| - 1], sum, i);
    }
  }

  /** p is w / sum, rounded to the nearest unit. */
  predicate Near(p: Prob, w: int, sum: int) {
    2 * (DENOM * w) - sum <= 2 * (p * sum) <= 2 * (DENOM * w) + sum
  }

  predicate AllNear(p: seq<Prob>, ws: seq<int>, sum: int) {
    |p| == |ws| && forall i {:trigger Near(p[i], ws[i], sum)} | 0 <= i < |p| :: Near(p[i], ws[i], sum)
  }

  lemma FractionNear(w: int, sum: int)
    requires 0 <= w <= sum && 0 < sum < U32
    ensures Near(FromFraction(w, sum), w, sum)
  {
    var p := FromFraction(w, sum);
    assert 2 * p * sum == 2 * (p * sum);
  }

  lemma FractionsNear(ws: seq<int>, sum: int)
    requires 0 < sum <= MAX32 && forall i | 0 <= i < |ws| :: 0 <= ws[i] <= sum
    ensures AllNear(Fractions(ws, sum), ws, sum)
  {
    forall i | 0 <= i < |ws| ensures Near(Fractions(ws, sum)[i], ws[i], sum) {
      FractionsAt(ws, sum, i);
      FractionNear(ws[i], sum);
    }
  }

  // ----- how near the proportions are to the weights in the metadata -----

  /** Dividing every weight loses less than the divisor at each. */
  lemma {:induction false} DividedNear(ws: seq<int>, f: int)
    requires f >= 1 && forall i | 0 <= i < |ws| :: 0 <= ws[i]
    ensures Sum(ws) - |ws| * (f - 1) <= Sum(DivideAll(ws, f)) * f <= Sum(ws)
    decreases |ws|
  {
    if ws != [] {
      var rest, w := ws[..|ws| - 1], ws[|ws| - 1];
      DividedNear(rest, f);
      DivBounds(w, f);
      var r := DivideAll(ws, f);
      assert r[..|r| - 1] == DivideAll(rest, f);
      Distribute(Sum(DivideAll(rest, f)), 1, w / f, f);
      Distribute(|rest|, 1, 1, f - 1);
    }
  }

  /** A divided weight w is to the sum of the divided weights nearly as r is to the sum of all. */
  lemma RatioNear(w: int, r: int, scaled: int, sum: int, f: int, n: nat)
    requires f >= 1 && n >= 1 && 0 <= r <= sum && r - (f - 1) <= w * f <= r && 0 <= w && 0 <= scaled
    requires sum - n * (f - 1) <= scaled * f <= sum
    ensures -(n * (f - 1) * sum) <= (w * sum - r * scaled) * f <= n * (f - 1) * sum
  {
    var a, b, lost := w * f, scaled * f, n * (f - 1);
    RatioTimes(w, r, scaled, sum, f);
    RatioAbove(a, b, r, sum, lost);
    MulLe(1, n, f - 1);
    RatioBelow(a, b, r, sum, lost);
  }

  lemma RatioTimes(w: int, r: int, scaled: int, sum: int, f: int)
    ensures (w * sum - r * scaled) * f == (w * f) * sum - r * (scaled * f)
  {
  }

  lemma RatioAbove(a: int, b: int, r: int, sum: int, lost: int)
    requires a <= r && sum - lost <= b && 0 <= r <= sum && 0 <= lost
    ensures a * sum - r * b <= lost * sum
  {
    MulLe(a, r, sum);
    MulLe(sum - lost, b, r);
    MulLe(r, sum, lost);
  }

  lemma RatioBelow(a: int, b: int, r: int, sum: int, lost: int)
    requires r - lost <= a && b <= sum && 0 <= r <= sum
    ensures -(lost * sum) <= a * sum - r * b
  {
    MulLe(r - lost, a, sum);
    MulLe(b, sum, r);
  }

  /** What is known of a probability that stands for the weight r of a sum: to scaled * f and f - 1 see RatioNear. */
  predicate NearRaw(p: Prob, r: int, sum: int, scaled: int, f: int, n: nat) {
    var off := 2 * ((p * sum - r * DENOM) * (scaled * f));
    var bound := sum * (scaled * f) + 2 * DENOM * (n * (f - 1) * sum);
    -bound <= off <= bound
  }

  lemma BothNear(p: Prob, w: int, r: int, scaled: int, sum: int, f: int, n: nat)
    requires Near(p, w, scaled) && scaled > 0 && f >= 1 && sum >= 0
    requires -(n * (f - 1) * sum) <= (w * sum - r * scaled) * f <= n * (f - 1) * sum
    ensures NearRaw(p, r, sum, scaled, f, n)
  {
    var x, y := p * scaled - w * DENOM, w * sum - r * scaled;
    ErrorSplits(p, w, r, scaled, sum, f);
    HalfOff(x, scaled, sum * f);
    ProductTurned(scaled, sum, f);
    ErrorsAdd((p * sum - r * DENOM) * (scaled * f), x * (sum * f), y * f, sum * (scaled * f), n * (f - 1) * sum);
  }

  lemma ErrorsAdd(off: int, a: int, b: int, half: int, lost: int)
    requires off == a + DENOM * b && -half <= 2 * a <= half && -lost <= b <= lost
    ensures -(half + 2 * DENOM * lost) <= 2 * off <= half + 2 * DENOM * lost
  {
  }

  lemma ErrorSplits(p: int, w: int, r: int, scaled: int, sum: int, f: int)
    ensures (p * sum - r * DENOM) * (scaled * f) ==
      (p * scaled - w * DENOM) * (sum * f) + DENOM * ((w * sum - r * scaled) * f)
  {
    var e := p * sum - r * DENOM;
    assert e * scaled == (p * scaled - w * DENOM) * sum + DENOM * (w * sum - r * scaled);
    Times(e, scaled, f);
    Times(p * scaled - w * DENOM, sum, f);
    Times(DENOM, w * sum - r * scaled, f);
    Distribute((p * scaled - w * DENOM) * sum, 1, DENOM * (w * sum - r * scaled), f);
  }

  lemma Times(a: int, b: int, c: int)
    ensures a * (b * c) == (a * b) * c
  {
  }

  lemma ProductTurned(a: int, b: int, c: int)
    ensures a * (b * c) == b * (a * c)
  {
  }

  lemma HalfOff(x: int, scaled: int, c: int)
    requires -scaled <= 2 * x <= scaled && c >= 0
    ensures -(scaled * c) <= 2 * (x * c) <= scaled * c
  {
    MulLe(2 * x, scaled, c);
    MulLe(-scaled, 2 * x, c);
  }

  /** Weights that can be divided without getting lost make probabilities near to their part of the sum of all; the
      greater that sum, the more a division may lose. */
  lemma ProportionsNear(raw: seq<int>, unreachable: seq<bool>, i: nat)
    requires 0 < |raw| == |unreachable| < MAX32 && Words(raw) && i < |raw|
    ensures 0 <= Sum(raw)
    ensures var f := ScalingFactor(Sum(raw));
      var scaled := Sum(DivideAll(raw, f));
      if scaled == 0 || Idxs(unreachable, false, |raw|) == [] then Near(Proportions(raw, unreachable)[i], 1, |raw|)
      else NearRaw(Proportions(raw, unreachable)[i], raw[i], Sum(raw), scaled, f, |raw|)
  {
    SumWords(raw);
    UsedWeightsFit(raw, unreachable);
    var f, ws := ScalingFactor(Sum(raw)), UsedWeights(raw, unreachable);
    var divided := DivideAll(raw, f);
    FractionsNear(ws, Sum(ws));
    assert Near(Proportions(raw, unreachable)[i], ws[i], Sum(ws));
    if Sum(divided) != 0 && Idxs(unreachable, false, |raw|) != [] {
      DividedProportion(Proportions(raw, unreachable)[i], raw, f, i);
    }
  }

  lemma DividedProportion(p: Prob, raw: seq<int>, f: int, i: nat)
    requires f >= 1 && i < |raw| && forall i | 0 <= i < |raw| :: 0 <= raw[i]
    requires Sum(DivideAll(raw, f)) != 0 && Near(p, DivideAll(raw, f)[i], Sum(DivideAll(raw, f)))
    ensures 0 <= Sum(raw) && NearRaw(p, raw[i], Sum(raw), Sum(DivideAll(raw, f)), f, |raw|)
  {
    var divided := DivideAll(raw, f);
    SumWords(raw);
    DividedNear(raw, f);
    DividedAt(raw, f, i);
    DivBounds(raw[i], f);
    SumDivided(raw, f);
    SumWords(divided);
    RatioNear(divided[i], raw[i], Sum(divided), Sum(raw), f, |raw|);
    BothNear(p, divided[i], raw[i], Sum(divided), Sum(raw), f, |raw|);
  }

  /** Weights whose sum has at most 32 bits are not divided: then each probability is the nearest one. */
  lemma SmallWeightsNearest(raw: seq<int>, unreachable: seq<bool>, i: nat)
    requires 0 < |raw| == |unreachable| < MAX32 && Words(raw) && i < |raw|
    requires 0 < Sum(raw) <= MAX32 && Idxs(unreachable, false, |raw|) != []
    ensures Near(Proportions(raw, unreachable)[i], raw[i], Sum(raw))
  {
    DivideByOne(raw);
    UsedWeightsFit(raw, unreachable);
    FractionsNear(raw, Sum(raw));
    assert Near(Proportions(raw, unreachable)[i], raw[i], Sum(raw));
  }

  /** What an edge to unreachable code has beyond one unit. */
  function Above(p: Prob): int { if p > 1 then p - 1 else 0 }

  /** Adding probabilities saturates at one. */
  function AddProb(a: Prob, b: int): Prob
    requires b >= 0
  {
    if a + b > DENOM then DENOM else a + b
  }

  function Excess(p: seq<Prob>, unreachable: seq<bool>, n: nat): (r: int)
    requires n <= |p| == |unreachable|
    ensures r >= 0
  {
    if n == 0 then 0 else Excess(p, unreachable, n - 1) + if unreachable[n - 1] then Above(p[n - 1]) else 0
  }

  /** An unreachable edge keeps at most one unit if there are reachable edges, which get per more each. */
  predicate IsFinal(q: seq<Prob>, p: seq<Prob>, unreachable: seq<bool>, per: int) {
    && |q| == |p| == |unreachable|
    && forall i | 0 <= i < |p| ::
        q[i] == if Idxs(unreachable, false, |p|) == [] then p[i]
                else if unreachable[i] then p[i] - Above(p[i])
                else p[i] + per
  }

  /** Each reachable edge gets the same part of the excess, rounded down. */
  predicate IsPerEdge(per: int, excess: int, reachable: int) {
    per >= 0 && 0 <= excess - reachable * per && (reachable > 0 ==> excess - reachable * per < reachable)
  }

  lemma {:induction false} RoundedSum(p: seq<Prob>, ws: seq<int>, sum: int)
    requires AllNear(p, ws, sum)
    ensures 2 * (DENOM * Sum(ws)) - |ws| * sum <= 2 * (Sum(p) * sum) <= 2 * (DENOM * Sum(ws)) + |ws| * sum
    decreases |ws|
  {
    if ws != [] {
      var n := |ws| - 1;
      assert AllNear(p[..n], ws[..n], sum) by {
        forall i | 0 <= i < n ensures Near(p[..n][i], ws[..n][i], sum) {
          assert Near(p[i], ws[i], sum);
        }
      }
      RoundedSum(p[..n], ws[..n], sum);
      assert Near(p[n], ws[n], sum);
      Distribute(Sum(p[..n]), 1, p[n], sum);
      Distribute(n, 1, 1, sum);
      assert |ws| == n * 1 + 1;
    }
  }

  /** The weight of the unreachable edges. */
  function UnreachableWeight(ws: seq<int>, unreachable: seq<bool>, n: nat): int
    requires n <= |ws| == |unreachable|
  {
    if n == 0 then 0 else UnreachableWeight(ws, unreachable, n - 1) + if unreachable[n - 1] then ws[n - 1] else 0
  }

  /** Each excess is at most the exact fraction: what rounding added is less than the unit that stays. */
  lemma {:induction false} ExcessBelow(p: seq<Prob>, ws: seq<int>, sum: int, unreachable: seq<bool>, n: nat)
    requires AllNear(p, ws, sum) && 0 < sum && forall i | 0 <= i < |ws| :: 0 <= ws[i]
    requires n <= |ws| == |unreachable|
    ensures Excess(p, unreachable, n) * sum <= DENOM * UnreachableWeight(ws, unreachable, n)
    decreases n
  {
    if n > 0 {
      ExcessBelow(p, ws, sum, unreachable, n - 1);
      assert Near(p[n - 1], ws[n - 1], sum);
      AboveBelow(p[n - 1], ws[n - 1], sum);
      Distribute(Excess(p, unreachable, n - 1), 1, Above(p[n - 1]), sum);
    }
  }

  lemma AboveBelow(p: Prob, w: int, sum: int)
    requires Near(p, w, sum) && w >= 0 && sum > 0
    ensures Above(p) * sum <= DENOM * w
  {
    Distribute(p, 1, -1, sum);
  }

  lemma {:induction false} OthersWeight(ws: seq<int>, unreachable: seq<bool>, n: nat, j: nat)
    requires n <= |ws| == |unreachable| && j < |ws| && !unreachable[j]
    requires forall i | 0 <= i < |ws| :: 0 <= ws[i]
    ensures 0 <= UnreachableWeight(ws, unreachable, n) <= Sum(ws[..n])
    ensures j < n ==> UnreachableWeight(ws, unreachable, n) + ws[j] <= Sum(ws[..n])
    decreases n
  {
    if n > 0 {
      OthersWeight(ws, unreachable, n - 1, j);
      assert ws[..n][..n - 1] == ws[..n - 1];
    }
  }

  /** No edge can get more than a probability of one: the saturation never comes into play. */
  lemma NeverSaturates(p: seq<Prob>, ws: seq<int>, sum: int, unreachable: seq<bool>, j: nat)
    requires AllNear(p, ws, sum) && Sum(ws) == sum > 0 && forall i | 0 <= i < |ws| :: 0 <= ws[i]
    requires j < |ws| == |unreachable| && !unreachable[j]
    ensures Excess(p, unreachable, |p|) + p[j] <= DENOM
  {
    ExcessBelow(p, ws, sum, unreachable, |ws|);
    OthersWeight(ws, unreachable, |ws|, j);
    assert ws[..|ws|] == ws;
    assert Near(p[j], ws[j], sum);
    AtMostOne(Excess(p, unreachable, |p|), p[j], UnreachableWeight(ws, unreachable, |ws|), ws[j], sum);
  }

  lemma AtMostOne(excess: int, p: Prob, u: int, w: int, sum: int)
    requires excess * sum <= DENOM * u && Near(p, w, sum) && u + w <= sum && sum > 0
    ensures excess + p <= DENOM
  {
    Distribute(excess, 1, p, sum);
    Distribute(DENOM, 1, 1, sum);
    assert DENOM * u + DENOM * w <= DENOM * sum;
    assert (excess + p) * sum < (DENOM + 1) * sum;
    Cancel(excess + p, DENOM + 1, sum);
  }

  lemma {:induction false} FinalSum(q: seq<Prob>, p: seq<Prob>, unreachable: seq<bool>, per: int, n: nat)
    requires IsFinal(q, p, unreachable, per) && Idxs(unreachable, false, |p|) != [] && n <= |p|
    ensures Sum(q[..n]) == Sum(p[..n]) - Excess(p, unreachable, n) + |Idxs(unreachable, false, n)| * per
    decreases n
  {
    if n > 0 {
      FinalSum(q, p, unreachable, per, n - 1);
      assert q[..n][..n - 1] == q[..n - 1] && p[..n][..n - 1] == p[..n - 1];
      var r := |Idxs(unreachable, false, n - 1)|;
      Distribute(r, 1, 1, per);
      assert r * 1 + 1 == r + 1;
    }
  }

  /** The probabilities add up to one, but for half a unit of rounding per edge and less than one unit
      per reachable edge that dividing the excess loses. */
  lemma FinalSumsToOne(raw: seq<int>, unreachable: seq<bool>, q: seq<Prob>, per: int)
    requires 0 < |raw| == |unreachable| < MAX32 && Words(raw)
    requires IsFinal(q, Proportions(raw, unreachable), unreachable, per)
    requires IsPerEdge(per, Excess(Proportions(raw, unreachable), unreachable, |raw|),
                       |Idxs(unreachable, false, |raw|)|)
    ensures 2 * (Sum(q) - DENOM) <= |q|
    ensures 2 * (DENOM - Sum(q)) <= |q| + 2 * |Idxs(unreachable, false, |q|)|
  {
    UsedWeightsFit(raw, unreachable);
    var ws := UsedWeights(raw, unreachable);
    FractionsNear(ws, Sum(ws));
    NearSumsToOne(q, Proportions(raw, unreachable), ws, Sum(ws), unreachable, per);
  }

  lemma NearSumsToOne(q: seq<Prob>, p: seq<Prob>, ws: seq<int>, sum: int, unreachable: seq<bool>, per: int)
    requires AllNear(p, ws, sum) && sum == Sum(ws) > 0 && IsFinal(q, p, unreachable, per)
    requires IsPerEdge(per, Excess(p, unreachable, |p|), |Idxs(unreachable, false, |p|)|)
    ensures 2 * (Sum(q) - DENOM) <= |q|
    ensures 2 * (DENOM - Sum(q)) <= |q| + 2 * |Idxs(unreachable, false, |q|)|
  {
    RoundedSum(p, ws, sum);
    WithinHalf(Sum(p), |ws|, sum);
    assert q[..|q|] == q && p[..|p|] == p;
    if Idxs(unreachable, false, |p|) != [] {
      FinalSum(q, p, unreachable, per, |p|);
    } else {
      assert q == p;
    }
  }

  lemma WithinHalf(total: int, n: int, sum: int)
    requires sum > 0 && 2 * (DENOM * sum) - n * sum <= 2 * (total * sum) <= 2 * (DENOM * sum) + n * sum
    ensures 2 * DENOM - n <= 2 * total <= 2 * DENOM + n
  {
    Distribute(total, 2, 0, sum);
    Distribute(2 * DENOM, 1, n + 1, sum);
    Distribute(total, 2, n + 1, sum);
    Distribute(n, 1, 1, sum);
    Cancel(2 * total, 2 * DENOM + n + 1, sum);
    Cancel(2 * DENOM, 2 * total + n + 1, sum);
  }

  /** Edges of the same kind keep the order of their weights, unless all weights were replaced. */
  lemma FinalKeepsOrder(raw: seq<int>, unreachable: seq<bool>, q: seq<Prob>, per: int, i: nat, j: nat)
    requires 0 < |raw| == |unreachable| < MAX32 && Words(raw)
    requires IsFinal(q, Proportions(raw, unreachable), unreachable, per)
    requires i < |raw| && j < |raw| && raw[i] <= raw[j] && unreachable[i] == unreachable[j]
    ensures q[i] <= q[j]
    ensures unreachable[i] && Idxs(unreachable, false, |raw|) != [] ==> q[i] <= 1
  {
    UsedWeightsFit(raw, unreachable);
    SumWords(raw);
    var ws, f := UsedWeights(raw, unreachable), ScalingFactor(Sum(raw));
    DivMono(raw[i], raw[j], f);
    DividedAt(raw, f, i);
    DividedAt(raw, f, j);
    FractionsAt(ws, Sum(ws), i);
    FractionsAt(ws, Sum(ws), j);
    FractionMono(ws[i], ws[j], Sum(ws));
  }

  lemma DivMono(a: int, b: int, d: int)
    requires 0 <= a <= b && d > 0
    ensures a / d <= b / d
  {
    DivBounds(a, d);
    DivBounds(b, d);
    Distribute(b / d, 1, 1, d);
    Cancel(a / d, b / d + 1, d);
  }

  lemma FractionMono(a: int, b: int, den: int)
    requires 0 <= a <= b <= den && 0 < den < U32
    ensures FromFraction(a, den) <= FromFraction(b, den)
  {
    DivMono(a * DENOM + den / 2, b * DENOM + den / 2, den);
  }

  class BranchProbabilityInfo {
    var probs: map<Edge, Prob>

    /** Takes the probabilities of a block's edges from its metadata, if it has weights for all of them.
        Edges to unreachable code are cut to one unit, and reachable edges share the difference. */
    method CalcMetadataWeights(block: int, isBranchOrSwitch: bool, metadata: Metadata, unreachable: seq<bool>)
      returns (ok: bool, ghost raw: seq<int>, ghost q: seq<Prob>, ghost per: int)
      requires 1 < |unreachable| < MAX32
      requires metadata.Operands? ==>
        forall i | 0 <= i < |metadata.weights| && metadata.weights[i].Constant? :: 0 <= metadata.weights[i].value < U32
      modifies this
      ensures ok <==> isBranchOrSwitch && AllWeights(metadata, |unreachable|)
      ensures !ok ==> probs == old(probs)
      ensures ok ==> IsRaw(raw, metadata) && |raw| == |unreachable| && Words(raw)
      ensures ok ==> IsFinal(q, Proportions(raw, unreachable), unreachable, per)
      ensures ok ==> IsPerEdge(per, Excess(Proportions(raw, unreachable), unreachable, |raw|),
                               |Idxs(unreachable, false, |raw|)|)
      ensures ok ==> Stored(probs, old(probs), block, q)
    {
      raw, q, per := [], [], 0;
      if !isBranchOrSwitch || metadata.Absent? || |metadata.weights| != |unreachable| {
        ok := false;
        return;
      }
      var read, weights, weightSum, unreachableIdxs, reachableIdxs := ReadWeights(metadata.weights, unreachable);
      if !read {
        ok := false;
        return;
      }
      raw := weights;
      weights, weightSum := FitWeights(weights, weightSum, unreachable, reachableIdxs);
      UsedWeightsFit(raw, unreachable);
      var bp := SetProbabilities(weights, weightSum);
      FractionsNear(weights, weightSum);
      bp, per := Redistribute(bp, unreachable, unreachableIdxs, reachableIdxs, weights, weightSum);
      q := bp;
      SetEdgeProbabilities(block, bp);
      ok := true;
    }

    method SetEdgeProbabilities(block: int, bp: seq<Prob>)
      modifies this
      ensures Stored(probs, old(probs), block, bp)
    {
      for i := 0 to |bp|
        invariant Stored(probs, old(probs), block, bp[..i])
      {
        probs := probs[Edge(block, i) := bp[i]];
      }
      assert bp[..|bp|] == bp;
    }

    method SetProbabilities(weights: seq<int>, sum: int) returns (bp: seq<Prob>)
      requires 0 < sum <= MAX32 && forall i | 0 <= i < |weights| :: 0 <= weights[i] <= sum
      ensures bp == Fractions(weights, sum)
    {
      bp := [];
      for i := 0 to |weights|
        invariant bp == Fractions(weights[..i], sum)
      {
        assert weights[..i + 1][..i] == weights[..i];
        bp := bp + [FromFraction(weights[i], sum)];
      }
      assert weights[..|weights|] == weights;
    }

    method ReadWeights(operands: seq<Operand>, unreachable: seq<bool>)
      returns (ok: bool, weights: seq<int>, sum: int, unreachableIdxs: seq<nat>, reachableIdxs: seq<nat>)
      requires |operands| == |unreachable|
      requires forall i | 0 <= i < |operands| && operands[i].Constant? :: 0 <= operands[i].value < U32
      ensures ok <==> forall i | 0 <= i < |operands| :: operands[i].Constant?
      ensures ok ==> IsRaw(weights, Operands(operands)) && Words(weights) && sum == Sum(weights)
      ensures ok ==> unreachableIdxs == Idxs(unreachable, true, |unreachable|)
      ensures ok ==> reachableIdxs == Idxs(unreachable, false, |unreachable|)
    {
      weights, sum, unreachableIdxs, reachableIdxs := [], 0, [], [];
      for i := 0 to |operands|
        invariant ReadTo(operands[..i], weights, sum)
        invariant unreachableIdxs == Idxs(unreachable, true, i)
        invariant reachableIdxs == Idxs(unreachable, false, i)
      {
        if operands[i].Other? {
          return false, weights, sum, unreachableIdxs, reachableIdxs;
        }
        ReadNext(operands[..i], operands[i], weights, sum);
        assert operands[..i + 1] == operands[..i] + [operands[i]];
        weights := weights + [operands[i].value];
        sum := sum + operands[i].value;
        if unreachable[i] {
          unreachableIdxs := unreachableIdxs + [i];
        } else {
          reachableIdxs := reachableIdxs + [i];
        }
      }
      assert operands[..|operands|] == operands;
      ok := true;
    }

    /** Scales the weights until their sum fits into 32 bits; useless weights are replaced by ones. */
    method FitWeights(raw: seq<int>, rawSum: int, unreachable: seq<bool>, reachableIdxs: seq<nat>)
      returns (weights: seq<int>, sum: int)
      requires |raw| == |unreachable| && Words(raw) && rawSum == Sum(raw)
      requires reachableIdxs == Idxs(unreachable, false, |unreachable|)
      ensures weights == UsedWeights(raw, unreachable) && sum == Sum(weights)
    {
      SumWords(raw);
      weights, sum := raw, rawSum;
      var scalingFactor := ScalingFactor(sum);
      if scalingFactor > 1 {
        weights, sum := DivideWeights(weights, scalingFactor);
      } else {
        DivideByOne(raw);
      }
      assert weights == DivideAll(raw, scalingFactor);
      if sum == 0 || |reachableIdxs| == 0 {
        for i := 0 to |weights|
          invariant |weights| == |raw|
          invariant forall k | 0 <= k < i :: weights[k] == 1
        {
          weights := weights[i := 1];
        }
        sum := |weights|;
        assert weights == Ones(|raw|);
      }
    }

    method DivideWeights(raw: seq<int>, f: int) returns (weights: seq<int>, sum: int)
      requires f > 1
      ensures weights == DivideAll(raw, f) && sum == Sum(weights)
    {
      weights, sum := raw, 0;
      ghost var divided := DivideAll(raw, f);
      for i := 0 to |weights|
        invariant |weights| == |raw| && sum == Sum(divided[..i])
        invariant forall k | 0 <= k < i :: weights[k] == divided[k]
        invariant forall k | i <= k < |raw| :: weights[k] == raw[k]
      {
        DividedAt(raw, f, i);
        weights := weights[i := weights[i] / f];
        sum := sum + weights[i];
      }
      assert divided[..|weights|] == divided == weights;
    }

    /** Cuts edges to unreachable code to one unit and hands the difference to the reachable ones. */
    method Redistribute(p: seq<Prob>, unreachable: seq<bool>, unreachableIdxs: seq<nat>, reachableIdxs: seq<nat>,
                        ghost ws: seq<int>, ghost sum: int)
      returns (bp: seq<Prob>, ghost per: int)
      requires AllNear(p, ws, sum) && Sum(ws) == sum > 0 && |p| == |unreachable|
      requires forall i | 0 <= i < |ws| :: 0 <= ws[i]
      requires unreachableIdxs == Idxs(unreachable, true, |unreachable|)
      requires reachableIdxs == Idxs(unreachable, false, |unreachable|)
      ensures IsFinal(bp, p, unreachable, per)
      ensures IsPerEdge(per, Excess(p, unreachable, |p|), |reachableIdxs|)
    {
      bp, per := p, 0;
      NothingLeft(p, unreachable);
      if |unreachableIdxs| > 0 && |reachableIdxs| > 0 {
        NeverSaturates(p, ws, sum, unreachable, reachableIdxs[0]);
        var toDistribute;
        bp, toDistribute := CutUnreachable(p, unreachable, unreachableIdxs);
        if toDistribute > 0 {
          var perEdge := toDistribute / |reachableIdxs|;
          PerEdgeIs(toDistribute, |reachableIdxs|);
          per := perEdge;
          forall j | 0 <= j < |p| && !unreachable[j] ensures p[j] + perEdge <= DENOM {
            NeverSaturates(p, ws, sum, unreachable, j);
          }
          bp := AddToReachable(bp, unreachable, reachableIdxs, perEdge);
        }
      }
    }

    method CutUnreachable(p: seq<Prob>, unreachable: seq<bool>, unreachableIdxs: seq<nat>)
      returns (bp: seq<Prob>, toDistribute: Prob)
      requires |p| == |unreachable| && Excess(p, unreachable, |p|) <= DENOM
      requires unreachableIdxs == Idxs(unreachable, true, |unreachable|)
      ensures |bp| == |p| && forall i | 0 <= i < |p| :: bp[i] == if unreachable[i] then p[i] - Above(p[i]) else p[i]
      ensures toDistribute == Excess(p, unreachable, |p|)
    {
      bp, toDistribute := p, 0;
      for k := 0 to |unreachableIdxs|
        invariant |bp| == |p| && toDistribute == Excess(p, unreachable, Bound(unreachableIdxs, k))
        invariant forall i | 0 <= i < |p| ::
          bp[i] == if unreachable[i] && i < Bound(unreachableIdxs, k) then p[i] - Above(p[i]) else p[i]
      {
        NextIdx(p, unreachable, true, k);
        var i := unreachableIdxs[k];
        if 1 < bp[i] {
          toDistribute := AddProb(toDistribute, bp[i] - 1);
          bp := bp[i := 1];
        }
      }
      NextIdx(p, unreachable, true, |unreachableIdxs|);
    }

    method AddToReachable(p: seq<Prob>, unreachable: seq<bool>, reachableIdxs: seq<nat>, perEdge: int)
      returns (bp: seq<Prob>)
      requires |p| == |unreachable| && perEdge >= 0
      requires forall i | 0 <= i < |p| && !unreachable[i] :: p[i] + perEdge <= DENOM
      requires reachableIdxs == Idxs(unreachable, false, |unreachable|)
      ensures |bp| == |p| && forall i | 0 <= i < |p| :: bp[i] == if unreachable[i] then p[i] else p[i] + perEdge
    {
      bp := p;
      for k := 0 to |reachableIdxs|
        invariant |bp| == |p|
        invariant forall i | 0 <= i < |p| ::
          bp[i] == if !unreachable[i] && i < Bound(reachableIdxs, k) then p[i] + perEdge else p[i]
      {
        NextIdx(p, unreachable, false, k);
        var i := reachableIdxs[k];
        bp := bp[i := AddProb(bp[i], perEdge)];
      }
      NextIdx(p, unreachable, false, |reachableIdxs|);
    }
  }

  predicate AllWeights(metadata: Metadata, n: nat) {
    metadata.Operands? && |metadata.weights| == n && forall i | 0 <= i < n :: metadata.weights[i].Constant?
  }

  lemma {:induction false} DivideByOne(ws: seq<int>)
    ensures DivideAll(ws, 1) == ws
    decreases |ws|
  {
    if ws != [] {
      DivideByOne(ws[..|ws| - 1]);
    }
  }

  /** The indices below this bound are dealt with after k of the listed ones. */
  function Bound(idxs: seq<nat>, k: nat): (r: nat)
    requires k <= |idxs|
  {
    if k == 0 then 0 else idxs[k - 1] + 1
  }

  /** Between two listed indices there are none of the kind. */
  lemma {:induction false} IdxsGap(unreachable: seq<bool>, b: bool, n: nat, k: nat)
    requires n <= |unreachable| && k <= |Idxs(unreachable, b, n)|
    ensures var idxs := Idxs(unreachable, b, n);
      var next := if k < |idxs| then idxs[k] else n;
      Bound(idxs, k) <= next && forall i | Bound(idxs, k) <= i < next :: unreachable[i] != b
    decreases n
  {
    if n > 0 {
      var fewer := Idxs(unreachable, b, n - 1);
      if k <= |fewer| {
        IdxsGap(unreachable, b, n - 1, k);
      }
    }
  }

  lemma {:induction false} ExcessGap(p: seq<Prob>, unreachable: seq<bool>, a: nat, c: nat)
    requires a <= c <= |p| == |unreachable| && forall i | a <= i < c :: !unreachable[i]
    ensures Excess(p, unreachable, a) == Excess(p, unreachable, c)
    decreases c
  {
    if a < c {
      ExcessGap(p, unreachable, a, c - 1);
    }
  }

  lemma {:induction false} ExcessGrows(p: seq<Prob>, unreachable: seq<bool>, a: nat, c: nat)
    requires a <= c <= |p| == |unreachable|
    ensures Excess(p, unreachable, a) <= Excess(p, unreachable, c)
    decreases c
  {
    if a < c {
      ExcessGrows(p, unreachable, a, c - 1);
    }
  }

  /** From one listed index to the next, or to the end. */
  lemma NextIdx(p: seq<Prob>, unreachable: seq<bool>, b: bool, k: nat)
    requires |p| == |unreachable| && k <= |Idxs(unreachable, b, |p|)|
    ensures var idxs := Idxs(unreachable, b, |p|);
      var next := if k < |idxs| then idxs[k] else |p|;
      Bound(idxs, k) <= next && (forall i | Bound(idxs, k) <= i < next :: unreachable[i] != b) &&
      (b ==> Excess(p, unreachable, Bound(idxs, k)) == Excess(p, unreachable, next)) &&
      (b && k < |idxs| ==> Excess(p, unreachable, next + 1) == Excess(p, unreachable, next) + Above(p[next])) &&
      (b && k < |idxs| ==> Excess(p, unreachable, next + 1) <= Excess(p, unreachable, |p|))
  {
    IdxsGap(unreachable, b, |p|, k);
    var idxs := Idxs(unreachable, b, |p|);
    if b {
      ExcessGap(p, unreachable, Bound(idxs, k), if k < |idxs| then idxs[k] else |p|);
      if k < |idxs| {
        ExcessGrows(p, unreachable, idxs[k] + 1, |p|);
      }
    }
  }

  lemma PerEdgeIs(excess: int, reachable: int)
    requires excess >= 0 && reachable > 0
    ensures IsPerEdge(excess / reachable, excess, reachable) && excess / reachable <= excess
  {
    DivBounds(excess, reachable);
    if excess / reachable > excess { MulLe(1, reachable, excess / reachable); }
  }

  /** Without unreachable edges there is no excess, and without reachable ones nothing is changed. */
  lemma NothingLeft(p: seq<Prob>, unreachable: seq<bool>)
    requires |p| == |unreachable|
    ensures Idxs(unreachable, true, |p|) == [] ==>
      Excess(p, unreachable, |p|) == 0 && forall i | 0 <= i < |p| :: !unreachable[i]
    ensures Excess(p, unreachable, |p|) == 0 ==> forall i | 0 <= i < |p| && unreachable[i] :: Above(p[i]) == 0
  {
    NextIdx(p, unreachable, true, 0);
    if Excess(p, unreachable, |p|) == 0 {
      forall i | 0 <= i < |p| && unreachable[i] ensures Above(p[i]) == 0 {
        ExcessGrows(p, unreachable, i + 1, |p|);
      }
    }
  }

  /** The weights in the metadata. */
  predicate IsRaw(raw: seq<int>, metadata: Metadata) {
    metadata.Operands? && |raw| == |metadata.weights| &&
      forall i | 0 <= i < |raw| :: metadata.weights[i] == Constant(raw[i])
  }

  /** The operands read so far are constants with these weights. */
  predicate ReadTo(operands: seq<Operand>, weights: seq<int>, sum: int) {
    IsRaw(weights, Operands(operands)) && Words(weights) && sum == Sum(weights)
  }

  lemma ReadNext(operands: seq<Operand>, o: Operand, weights: seq<int>, sum: int)
    requires ReadTo(operands, weights, sum) && o.Constant? && 0 <= o.value < U32
    ensures ReadTo(operands + [o], weights + [o.value], sum + o.value)
  {
    assert (weights + [o.value])[..|weights|] == weights;
  }

  /** The block's edges got probabilities q; other blocks' edges kept theirs. */
  predicate Stored(after: map<Edge, Prob>, before: map<Edge, Prob>, block: int, q: seq<Prob>) {
    && (forall i | 0 <= i < |q| :: Edge(block, i) in after && after[Edge(block, i)] == q[i])
    && (forall e | e in before && (e.block != block || e.index < 0 || e.index >= |q|) ::
        e in after && after[e] == before[e])
    && forall e | e in after && (e.block != block || e.index < 0 || e.index >= |q|) :: e in before
  }
}
