/** The mass of the headers of a loop with several headers: what they start with, and what they are given again by
    the mass that came back to each of them. */
module BFIHeaderMass {
  import opened Probability
  import opened BFIWeights
  import opened BFIScaling
  import opened BFIFlow

  /** What is left of the full mass after h of n headers took their share. */
  function Remaining(n: nat, h: nat): (r: int)
    requires h <= n < U32
    ensures IsMass(r)
  {
    if h == 0 then FULL
    else Remaining(n, h - 1) - Share(Remaining(n, h - 1), 1, n - h + 1)
  }

  function HeaderShare(n: nat, h: nat): int
    requires h < n < U32
  {
    Share(Remaining(n, h), 1, n - h)
  }

  /** The first h headers have their shares of a full mass, and the others are to share what remains. */
  ghost predicate HeadersGiven(start: map<Node, int>, mass: map<Node, int>, headers: seq<Node>, h: nat,
                               remaining: int) {
    && h <= |headers| < U32 && Increasing(headers)
    && mass.Keys == start.Keys && (forall n | n in headers :: n in mass) && (forall n | n in mass :: IsMass(mass[n]))
    && remaining == Remaining(|headers|, h)
    && SumMass(headers[..h], mass) + remaining == FULL
    && (h == |headers| ==> remaining == 0)
    && (forall k | 0 <= k < h :: mass[headers[k]] == HeaderShare(|headers|, k))
    && forall n | n in mass && n !in headers :: mass[n] == start[n]
  }

  lemma StartGiving(mass: map<Node, int>, headers: seq<Node>)
    requires 0 < |headers| < U32 && Increasing(headers)
    requires (forall n | n in headers :: n in mass) && forall n | n in mass :: IsMass(mass[n])
    ensures HeadersGiven(mass, mass, headers, 0, FULL)
  {
    assert headers[..0] == [];
  }

  lemma AllGiven(start: map<Node, int>, mass: map<Node, int>, headers: seq<Node>)
    requires HeadersGiven(start, mass, headers, |headers|, 0)
    ensures SumMass(headers, mass) == FULL
  {
    assert headers[..|headers|] == headers;
  }

  lemma GiveHeader(start: map<Node, int>, mass: map<Node, int>, headers: seq<Node>, h: nat, remaining: int)
    requires HeadersGiven(start, mass, headers, h, remaining) && h < |headers|
    ensures IsMass(remaining)
    ensures var taken := Share(remaining, 1, |headers| - h);
      taken <= remaining && HeadersGiven(start, mass[headers[h] := taken], headers, h + 1, remaining - taken)
  {
    HeaderAdded(headers, h, mass, HeaderShare(|headers|, h));
  }

  lemma HeaderAdded(headers: seq<Node>, h: nat, before: map<Node, int>, taken: int)
    requires Increasing(headers) && h < |headers| && forall n | n in headers :: n in before
    ensures forall k | 0 <= k < h :: headers[k] != headers[h]
    ensures SumMass(headers[..h + 1], before[headers[h] := taken]) == SumMass(headers[..h], before) + taken
  {
    forall k | 0 <= k < h ensures headers[k] != headers[h] {
      assert Before(headers, k, h);
    }
    var after := before[headers[h] := taken];
    SumMassSame(headers[..h], before, after);
    SumMassAppend(headers[..h], headers[h], after);
    assert headers[..h + 1] == headers[..h] + [headers[h]];
  }

  lemma NormalizedSplits(out: seq<Weight>, ws: seq<Weight>)
    requires Manageable(ws) && Normalized(out, ws) && Sum(out) < U32
    ensures Splits(out, Sum(out))
  {
    forall k | 0 <= k < |out| ensures 0 < out[k].amount {
      NormalizedInOrder(out, ws, k, k);
    }
  }

  /** The masses that came back, as weights of the headers. */
  function BackWeights(headers: seq<Node>, backedge: seq<int>, n: nat): seq<Weight>
    requires n <= |headers| == |backedge|
  {
    if n == 0 then []
    else if backedge[n - 1] > 0 then
      BackWeights(headers, backedge, n - 1) + [Weight(Local, headers[n - 1], backedge[n - 1])]
    else BackWeights(headers, backedge, n - 1)
  }

  /** Each weight replaces the mass of its target by its portion. */
  function AssignAll(mass: map<Node, int>, ws: seq<Weight>, m: int, total: int): map<Node, int>
    requires IsMass(m) && Splits(ws, total)
    decreases |ws|
  {
    if ws == [] then mass
    else
      SplitsRest(ws, total);
      var taken := Share(m, ws[0].amount, total);
      AssignAll(mass[ws[0].target := taken], ws[1..], m - taken, total - ws[0].amount)
  }

  function TargetSeq(ws: seq<Weight>): (r: seq<Node>) {
    if ws == [] then [] else [ws[0].target] + TargetSeq(ws[1..])
  }

  ghost predicate AreShares(ws: seq<Weight>, headers: seq<Node>, backedge: seq<int>) {
    && |headers| == |backedge|
    && Positive(BackWeights(headers, backedge, |headers|))
    && Normalized(ws, BackWeights(headers, backedge, |headers|))
    && Splits(ws, Sum(ws))
  }

  lemma {:induction false} BackWeightsSum(headers: seq<Node>, backedge: seq<int>, n: nat)
    requires n <= |headers| == |backedge|
    requires forall k | 0 <= k < |backedge| :: backedge[k] >= 0
    ensures Sum(BackWeights(headers, backedge, n)) == SumInts(backedge[..n]) <= SumInts(backedge)
    decreases n
  {
    SumIntsBounds(backedge, n);
    if n > 0 {
      BackWeightsSum(headers, backedge, n - 1);
      SumIntsPrefix(backedge, n - 1);
      SumAppend(BackWeights(headers, backedge, n - 1), Weight(Local, headers[n - 1], backedge[n - 1]));
    }
  }

  lemma {:induction false} BackWeightsLocal(headers: seq<Node>, backedge: seq<int>, n: nat)
    requires n <= |headers| == |backedge| && forall k | 0 <= k < |backedge| :: IsMass(backedge[k])
    ensures var ws := BackWeights(headers, backedge, n);
      |ws| <= n && forall i | 0 <= i < |ws| :: ws[i].kind == Local && 0 < ws[i].amount < U64
    decreases n
  {
    if n > 0 {
      BackWeightsLocal(headers, backedge, n - 1);
    }
  }

  /** The masses that came back can be shared out if they overflow at most once and stay below the limit. */
  predicate Shareable(n: nat, sum: int) {
    sum < 2 * U64 && Fits(n, sum)
  }

  lemma FewerFit(n: nat, m: nat, sum: int, less: int)
    requires m <= n && less <= sum && Shareable(n, sum)
    ensures Shareable(m, less)
  {
    if m >= 2 {
      MulLe(m - 1, n - 1, 2 * U32 - 1);
      assert (n - 1) * (2 * U32) == (n - 1) * (2 * U32 - 1) + n - 1;
      assert (m - 1) * (2 * U32) == (m - 1) * (2 * U32 - 1) + m - 1;
    }
  }

  lemma BackWeightsManageable(headers: seq<Node>, backedge: seq<int>)
    requires |headers| == |backedge| < U32 && Shareable(|headers|, SumInts(backedge))
    requires forall k | 0 <= k < |backedge| :: IsMass(backedge[k])
    ensures Manageable(BackWeights(headers, backedge, |headers|))
  {
    var ws := BackWeights(headers, backedge, |headers|);
    BackWeightsSum(headers, backedge, |headers|);
    BackWeightsLocal(headers, backedge, |headers|);
    FewTargets(ws);
    FewerFit(|headers|, |Targets(ws)|, SumInts(backedge), Sum(ws));
    LocalOneKind(ws);
  }

  lemma LocalOneKind(ws: seq<Weight>)
    requires forall i | 0 <= i < |ws| :: ws[i].kind == Local
    ensures OneKind(ws)
  {
    assert forall i, j | 0 <= i < |ws| && 0 <= j < |ws| :: SameKind(ws, i, j);
  }

  lemma NextBack(headers: seq<Node>, backedge: seq<int>, h: nat)
    requires h < |headers| == |backedge| && SumInts(backedge) < 2 * U64
    requires forall k | 0 <= k < |backedge| :: IsMass(backedge[k])
    ensures Sum(BackWeights(headers, backedge, h)) + backedge[h] < 2 * U64
    ensures BackWeights(headers, backedge, h + 1) == BackWeights(headers, backedge, h)
      + if backedge[h] > 0 then [Weight(Local, headers[h], backedge[h])] else []
  {
    BackWeightsSum(headers, backedge, h);
    SumIntsPrefix(backedge, h);
  }

  lemma NormalizedShares(out: seq<Weight>, headers: seq<Node>, backedge: seq<int>)
    requires |headers| == |backedge| && Manageable(BackWeights(headers, backedge, |headers|))
    requires Normalized(out, BackWeights(headers, backedge, |headers|)) && Sum(out) < U32
    ensures AreShares(out, headers, backedge)
  {
    NormalizedSplits(out, BackWeights(headers, backedge, |headers|));
  }

  lemma {:induction false} FewTargets(ws: seq<Weight>)
    ensures |Targets(ws)| <= |ws|
    decreases |ws|
  {
    if ws != [] {
      var rest, w := ws[..|ws| - 1], ws[|ws| - 1];
      FewTargets(rest);
      SumForAppend(rest, w, w.target);
      assert ws == rest + [w];
    }
  }

  /** The headers among the first n that mass came back to. */
  function Returned(headers: seq<Node>, backedge: seq<int>, n: nat): set<Node>
    requires n <= |headers| == |backedge|
  {
    set h | 0 <= h < n && backedge[h] > 0 :: headers[h]
  }

  lemma {:induction false} BackTargets(headers: seq<Node>, backedge: seq<int>, n: nat)
    requires n <= |headers| == |backedge|
    ensures Targets(BackWeights(headers, backedge, n)) == Returned(headers, backedge, n)
    decreases n
  {
    if n > 0 {
      BackTargets(headers, backedge, n - 1);
      var h := headers[n - 1];
      SumForAppend(BackWeights(headers, backedge, n - 1), Weight(Local, h, backedge[n - 1]), h);
      assert Returned(headers, backedge, n) ==
        Returned(headers, backedge, n - 1) + if backedge[n - 1] > 0 then {h} else {};
    }
  }

  lemma {:induction false} AssignAllTotal(mass: map<Node, int>, ws: seq<Weight>, m: int, total: int)
    requires IsMass(m) && Splits(ws, total) && Distinct(ws)
    ensures var r := AssignAll(mass, ws, m, total);
      r.Keys == mass.Keys + Targets(ws) && (forall n | n in TargetSeq(ws) :: n in Targets(ws)) &&
      SumMass(TargetSeq(ws), r) == (if ws == [] then 0 else m) &&
      forall n | n in mass && n !in Targets(ws) :: r[n] == mass[n]
    decreases |ws|
  {
    if ws != [] {
      SplitsRest(ws, total);
      var t, taken := ws[0].target, Share(m, ws[0].amount, total);
      var r := AssignAll(mass, ws, m, total);
      DistinctRest(ws);
      AssignAllTotal(mass[t := taken], ws[1..], m - taken, total - ws[0].amount);
      assert r[t] == taken;
      assert TargetSeq(ws)[1..] == TargetSeq(ws[1..]);
    }
  }

  lemma DistinctRest(ws: seq<Weight>)
    requires Distinct(ws) && ws != []
    ensures Distinct(ws[1..]) && ws[0].target !in Targets(ws[1..])
    ensures Targets(ws) == {ws[0].target} + Targets(ws[1..])
  {
    assert ws == [ws[0]] + ws[1..];
    assert forall i | 0 <= i < |ws| - 1 :: ws[1..][i] == ws[i + 1];
  }

  /** If mass came back at all, exactly the headers it came back to share the full mass again. */
  lemma HeadersRefilled(mass: map<Node, int>, headers: seq<Node>, backedge: seq<int>, ws: seq<Weight>)
    requires AreShares(ws, headers, backedge)
    ensures var r := AssignAll(mass, ws, FULL, Sum(ws));
      Targets(ws) == Returned(headers, backedge, |headers|) &&
      (forall n | n in TargetSeq(ws) :: n in r) &&
      SumMass(TargetSeq(ws), r) == (if Targets(ws) == {} then 0 else FULL) &&
      forall n | n in mass && n !in Targets(ws) :: n in r && r[n] == mass[n]
  {
    BackTargets(headers, backedge, |headers|);
    AssignAllTotal(mass, ws, FULL, Sum(ws));
    if ws != [] { assert ws[0].target in Targets(ws); }
  }

  // ----- several headers: too much mass -----

  /** No header starts without mass. */
  lemma HeaderSharePositive(n: nat, h: nat)
    requires h < n <= DENOM
    ensures 0 < HeaderShare(n, h)
  {
    RemainingEnough(n, h);
    EnoughForTwo(Remaining(n, h), n, h);
    ShareIs(Remaining(n, h), 1, n - h);
    OneShareLeft(Remaining(n, h), n - h, FromFraction(1, n - h));
  }

  /** Units of 2^-34 that rounding may have cost after h of n shares: 5 for each, and 8 for each of the last four. */
  function Slack(n: nat, h: nat): int { 5 * h + 3 * Max(0, h - n + 4) }

  const UNITS: int := 0x4_0000_0000

  /** What remains is an even share for each header still to come, but for the slack. */
  predicate Enough(m: int, n: nat, h: nat) {
    FULL * ((n - h) * (UNITS - Slack(n, h))) <= m * (n * UNITS)
  }

  lemma {:induction false} RemainingEnough(n: nat, h: nat)
    requires h < n <= DENOM
    ensures Enough(Remaining(n, h), n, h)
    decreases h
  {
    if h == 0 {
      MulLe(UNITS - Slack(n, 0), UNITS, n);
      assert (UNITS - Slack(n, 0)) * n == n * (UNITS - Slack(n, 0));
      MulLe(n * (UNITS - Slack(n, 0)), n * UNITS, FULL);
      Commutes(n * (UNITS - Slack(n, 0)), n * UNITS);
    } else {
      RemainingEnough(n, h - 1);
      var k := n - h + 1;
      ShareIs(Remaining(n, h - 1), 1, k);
      TakeOne(Remaining(n, h - 1), k, FromFraction(1, k), n * UNITS, UNITS - Slack(n, h - 1),
              Slack(n, h) - Slack(n, h - 1));
    }
  }

  lemma Commutes(a: int, b: int)
    ensures a * FULL == FULL * a && b * FULL == FULL * b
  {
  }

  /** One header takes its share of m, and enough is left for the k - 1 others. */
  lemma TakeOne(m: int, k: nat, p: Prob, all: int, a: int, loss: int)
    requires 2 <= k <= DENOM && 0 <= m && p == FromFraction(1, k) && 0 < all && 0 <= a <= UNITS
    requires FULL * (k * a) <= m * all
    requires loss >= 8 || (loss >= 5 && k >= 5)
    ensures FULL * ((k - 1) * (a - loss)) <= (m - m * p / DENOM) * all
  {
    ShareTaken(m, k, p);
    LossCovered(k, a, loss);
    TakeOneStep(m, m - m * p / DENOM, k, all, a, loss, U32 * (k - 1) - k);
  }

  lemma TakeOneStep(m: int, rest: int, k: nat, all: int, a: int, loss: int, g: int)
    requires 2 <= k && 0 < all && 0 <= g && FULL * (k * a) <= m * all
    requires m * g <= rest * (U32 * k) && U32 * ((k - 1) * (a - loss)) <= a * g
    ensures FULL * ((k - 1) * (a - loss)) <= rest * all
  {
    MulLe(U32 * ((k - 1) * (a - loss)), a * g, FULL * k);
    MulLe(FULL * (k * a), m * all, g);
    MulLe(m * g, rest * (U32 * k), all);
    Regroup(m, all, g, rest, k, a, loss);
    CancelLe(FULL * ((k - 1) * (a - loss)), rest * all, U32 * k);
  }

  lemma CancelLe(a: int, b: int, c: int)
    requires a * c <= b * c && 0 < c
    ensures a <= b
  {
    if b < a { MulLe(b + 1, a, c); }
  }

  lemma Regroup(m: int, all: int, g: int, rest: int, k: int, a: int, loss: int)
    ensures (FULL * (k * a)) * g == (a * g) * (FULL * k)
    ensures (m * all) * g == (m * g) * all
    ensures (rest * (U32 * k)) * all == (rest * all) * (U32 * k)
    ensures (U32 * ((k - 1) * (a - loss))) * (FULL * k) == (FULL * ((k - 1) * (a - loss))) * (U32 * k)
  {
    Reorder(FULL, k * a, g);
    Reorder(k, a, g);
    var b := (k - 1) * (a - loss);
    assert (U32 * b) * (FULL * k) == (FULL * b) * (U32 * k);
    assert (rest * (U32 * k)) * all == (rest * all) * (U32 * k);
    assert (m * all) * g == (m * g) * all;
    assert (FULL * (k * a)) * g == (a * g) * (FULL * k);
  }

  lemma Reorder(k: int, a: int, x: int)
    ensures (k * a) * x == (k * x) * a
  {
  }

  /** What is left of m, in units of 1 over 2^32 * k. */
  lemma ShareTaken(m: int, k: nat, p: Prob)
    requires 2 <= k <= DENOM && 0 <= m && p == FromFraction(1, k)
    ensures m * (U32 * (k - 1) - k) <= (m - m * p / DENOM) * (U32 * k)
  {
    var t, q := m * p / DENOM, p * k;
    MulLe(0, p, m);
    DivBounds(m * p, DENOM);
    assert 2 * p * k == 2 * q;
    MulLe(t * DENOM, m * p, 2 * k);
    MulLe(2 * q, U32 + k, m);
    TakenTimes(m, k, p, t);
  }

  lemma TakenTimes(m: int, k: int, p: int, t: int)
    ensures (t * DENOM) * (2 * k) == t * (U32 * k)
    ensures (m * p) * (2 * k) == (2 * (p * k)) * m
    ensures m * (U32 * (k - 1) - k) == m * (U32 * k) - (U32 + k) * m
    ensures (m - t) * (U32 * k) == m * (U32 * k) - t * (U32 * k)
  {
    assert U32 == 2 * DENOM;
    assert (t * DENOM) * (2 * k) == t * ((2 * DENOM) * k);
    assert U32 * (k - 1) - k == U32 * k - (U32 + k);
  }

  lemma LossCovered(k: nat, a: int, loss: int)
    requires 2 <= k && 0 <= a <= UNITS && (loss >= 8 || (loss >= 5 && k >= 5))
    ensures U32 * ((k - 1) * (a - loss)) <= a * (U32 * (k - 1) - k)
  {
    MulLe(a, UNITS, k);
    MulLe(if k >= 5 then 5 else 8, loss, k - 1);
    assert 4 * k <= loss * (k - 1);
    assert UNITS == 4 * U32;
    assert (k - 1) * (a - loss) == (k - 1) * a - loss * (k - 1);
    assert a * (U32 * (k - 1) - k) == U32 * ((k - 1) * a) - a * k;
    assert UNITS * k == U32 * (4 * k);
    MulLe(4 * k, loss * (k - 1), U32);
  }

  /** Two units at least for each header still to come. */
  lemma EnoughForTwo(m: int, n: nat, h: nat)
    requires h < n <= DENOM && Enough(m, n, h)
    ensures 2 * (n - h) <= m
  {
    var k, a := n - h, UNITS - Slack(n, h);
    MulLe(n, DENOM, UNITS);
    MulLe(U32, a, FULL);
    TwoEach(m, k, n * UNITS, FULL * a);
    assert FULL * (k * a) == (FULL * a) * k;
  }

  lemma TwoEach(m: int, k: nat, all: int, x: int)
    requires 0 < all && 2 * all <= x && x * k <= m * all
    ensures 2 * k <= m
  {
    MulLe(2 * all, x, k);
    assert (2 * all) * k == (2 * k) * all;
    CancelLe(2 * k, m, all);
  }

  lemma OneShareLeft(m: int, k: nat, p: Prob)
    requires 0 < k <= DENOM && 2 * k <= m && p == FromFraction(1, k)
    ensures 0 < m * p / DENOM
  {
    MulLe(2 * k, m, p);
    assert (2 * k) * p == 2 * p * k;
    DivPositive(m * p);
  }

  lemma DivPositive(x: int)
    requires DENOM <= x
    ensures 0 < x / DENOM
  {
  }

  /** The masses before some blocks are given new ones. */
  function Zeroed(mass: map<Node, int>, ts: set<Node>): map<Node, int> {
    map n | n in mass :: if n in ts then 0 else mass[n]
  }

  /** Headers that get a share lose what they had; the others keep it. */
  lemma {:induction false} AssignAllSum(mass: map<Node, int>, headers: seq<Node>, ws: seq<Weight>, m: int, total: int)
    requires IsMass(m) && Splits(ws, total) && Distinct(ws)
    requires NoDup(headers) && (forall n | n in headers :: n in mass) && forall n | n in Targets(ws) :: n in headers
    ensures var r := AssignAll(mass, ws, m, total);
      (forall n | n in headers :: n in r) &&
      SumMass(headers, r) == SumMass(headers, Zeroed(mass, Targets(ws))) + if ws == [] then 0 else m
    decreases |ws|
  {
    if ws == [] {
      assert Zeroed(mass, Targets(ws)) == mass;
    } else {
      SplitsRest(ws, total);
      var t, taken := ws[0].target, Share(m, ws[0].amount, total);
      DistinctRest(ws);
      AssignAllSum(mass[t := taken], headers, ws[1..], m - taken, total - ws[0].amount);
      var z := Zeroed(mass[t := taken], Targets(ws[1..]));
      assert Zeroed(mass, Targets(ws)) == z[t := 0];
      SumMassUpdate(headers, z, t, 0);
    }
  }

  lemma {:induction false} NothingLeft(ns: seq<Node>, mass: map<Node, int>)
    requires forall n | n in ns :: n in mass && mass[n] >= 0
    ensures 0 <= SumMass(ns, mass) && (SumMass(ns, mass) == 0 <==> forall n | n in ns :: mass[n] == 0)
    decreases |ns|
  {
    if ns != [] {
      NothingLeft(ns[1..], mass);
      assert forall n | n in ns :: n == ns[0] || n in ns[1..];
    }
  }

  /** Mass came back to all headers or to none. */
  predicate AllOrNone(backedge: seq<int>) {
    (forall h | 0 <= h < |backedge| :: backedge[h] > 0) || (forall h | 0 <= h < |backedge| :: backedge[h] == 0)
  }

  /** The headers had the full mass between them; after it is shared out again they have at least that, and more if
      and only if mass came back to some of them but not to all. */
  lemma HeadersTotal(mass: map<Node, int>, headers: seq<Node>, backedge: seq<int>, ws: seq<Weight>)
    requires AreShares(ws, headers, backedge) && Increasing(headers) &&
      forall h | 0 <= h < |backedge| :: backedge[h] >= 0
    requires (forall n | n in headers :: n in mass && mass[n] > 0) && SumMass(headers, mass) == FULL
    ensures var r := AssignAll(mass, ws, FULL, Sum(ws));
      (forall n | n in headers :: n in r) && SumMass(headers, r) >= FULL &&
      (SumMass(headers, r) == FULL <==> AllOrNone(backedge))
  {
    HeadersRefilled(mass, headers, backedge, ws);
    IncreasingNoDup(headers, []);
    assert headers + [] == headers;
    var z := Zeroed(mass, Targets(ws));
    AssignAllSum(mass, headers, ws, FULL, Sum(ws));
    NothingLeft(headers, z);
    forall h | 0 <= h < |headers| ensures headers[h] in Targets(ws) <==> backedge[h] > 0 {
      OwnReturn(headers, backedge, h);
    }
    if ws == [] {
      assert z == mass && Targets(ws) == {};
    } else {
      assert ws[0].target in Targets(ws);
      assert SumMass(headers, z) == 0 <==> forall h | 0 <= h < |headers| :: headers[h] in Targets(ws);
    }
  }

  lemma OwnReturn(headers: seq<Node>, backedge: seq<int>, h: nat)
    requires Increasing(headers) && h < |headers| == |backedge|
    ensures headers[h] in Returned(headers, backedge, |headers|) <==> backedge[h] > 0
  {
    if k :| 0 <= k < |headers| && backedge[k] > 0 && headers[k] == headers[h] {
      assert k < h ==> Before(headers, k, h);
      assert h < k ==> Before(headers, h, k);
    }
  }

  /** Two headers, and all mass comes back to the first one: it is full again, and the second still has its half. */
  lemma HeadersExceed(a: Node, b: Node)
    requires a.index < b.index
    ensures var ws, mass := [Weight(Local, a, 1)], map[a := HeaderShare(2, 0), b := HeaderShare(2, 1)];
      AreShares(ws, [a, b], [FULL, 0]) && AssignAll(mass, ws, FULL, Sum(ws)) ==
        map[a := FULL, b := HeaderShare(2, 1)] &&
      HeaderShare(2, 0) + HeaderShare(2, 1) == FULL && 0 < HeaderShare(2, 1)
  {
    var w, mass := Weight(Local, a, 1), map[a := HeaderShare(2, 0), b := HeaderShare(2, 1)];
    OneReturned([a, b], [FULL, 0], 2);
    OneShare([w.(amount := FULL)]);
    AssignOne(mass, [w]);
    TwoHalves(2);
  }

  lemma OneReturned(headers: seq<Node>, backedge: seq<int>, n: nat)
    requires |headers| == |backedge| == n == 2 && backedge[0] > 0 && backedge[1] == 0
    ensures BackWeights(headers, backedge, n) == [Weight(Local, headers[0], backedge[0])]
  {
    assert BackWeights(headers, backedge, n - 2) == [];
    assert BackWeights(headers, backedge, n - 1) == [] + [Weight(Local, headers[0], backedge[0])];
  }

  /** A single weight of one takes everything. */
  lemma AssignOne(mass: map<Node, int>, ws: seq<Weight>)
    requires |ws| == 1 && ws[0].amount == 1 && Splits(ws, 1)
    ensures AssignAll(mass, ws, FULL, 1) == mass[ws[0].target := FULL]
  {
    SplitsRest(ws, 1);
    assert ws[1..] == [];
  }

  lemma OneShare(c: seq<Weight>)
    requires |c| == 1 && 0 < c[0].amount <= FULL
    ensures var ws := [c[0].(amount := 1)]; Positive(c) && Normalized(ws, c) && Splits(ws, 1) && Sum(ws) == 1
  {
    DistinctStands(c);
    SingleNormalized([c[0].(amount := 1)], c, c);
  }

  lemma TwoHalves(n: nat)
    requires n == 2
    ensures HeaderShare(n, 0) + HeaderShare(n, 1) == FULL && 0 < HeaderShare(n, 1)
  {
    HeaderSharePositive(n, 1);
  }
}
