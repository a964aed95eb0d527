/** Block masses in 64 bits: how one block's mass is shared out, and that no mass is lost. */
module BFIFlow {
  import opened Probability
  import opened BFIWeights

  const FULL: int := U64 - 1

  datatype ExitMass = ExitMass(target: Node, mass: int)

  /** The mass of every block, the mass returned to each header, and the mass that left the loop. */
  datatype Flow = Flow(mass: map<Node, int>, backedge: seq<int>, exits: seq<ExitMass>)

  predicate IsMass(m: int) { 0 <= m <= FULL }

  /** Adding masses saturates when full. */
  function AddMass(a: int, b: int): int {
    if Add64(a, b) < a then FULL else Add64(a, b)
  }

  function SubMass(a: int, b: int): int {
    if a < b then 0 else a - b
  }

  /** The portion of a mass that a weight gets out of a total weight. */
  function Share(mass: int, weight: int, total: int): (r: int)
    requires IsMass(mass) && 0 < weight <= total < U32
    ensures 0 <= r <= mass && (weight == total ==> r == mass)
  {
    Scale(mass, FromFraction(weight, total))
  }

  /** A share is the exact product with the rounded probability, rounded down. */
  lemma ShareIs(mass: int, weight: int, total: int)
    requires IsMass(mass) && 0 < weight <= total < U32
    ensures Share(mass, weight, total) == mass * FromFraction(weight, total) / DENOM
  {
  }

  /** A mass times a probability, in words of 32 and 64 bits. */
  method TakeShare(mass: int, weight: int, total: int) returns (r: int)
    requires IsMass(mass) && 0 < weight <= total < U32
    ensures r == Share(mass, weight, total)
  {
    var p: Prob := FromFraction(weight, total);
    r := ScaleWords(mass, p, DENOM);
    ScaleIsExact(mass, p);
    ShareIs(mass, weight, total);
  }

  /** Splits up one mass by weights, each portion taken from what the ones before left over. */
  class DitheringDistributer {
    var remWeight: int
    var remMass: int

    constructor (total: int, mass: int)
      ensures remWeight == total && remMass == mass
    {
      remWeight, remMass := total, mass;
    }

    method TakeMass(weight: int) returns (mass: int)
      requires 0 < weight <= remWeight < U32 && IsMass(remMass)
      modifies this
      ensures mass == Share(old(remMass), weight, old(remWeight))
      ensures remMass + mass == old(remMass) && remWeight + weight == old(remWeight)
    {
      mass := TakeShare(remMass, weight, remWeight);
      remWeight := remWeight - weight;
      remMass := SubMass(remMass, mass);
    }
  }

  /** The position of a header among the sorted headers: those before it are smaller. */
  function HeaderIndex(headers: seq<Node>, n: Node): (i: nat)
    ensures i <= |headers|
    ensures Increasing(headers) && n in headers ==> i < |headers| && headers[i] == n
  {
    HeaderIndexFinds(headers, n);
    if headers == [] || headers[0].index >= n.index then 0 else 1 + HeaderIndex(headers[1..], n)
  }

  lemma HeaderIndexFinds(headers: seq<Node>, n: Node)
    ensures headers != [] && Increasing(headers) ==> Increasing(headers[1..])
    ensures headers != [] && Increasing(headers) && n in headers && headers[0].index >= n.index ==> headers[0] == n
  {
    if headers != [] && Increasing(headers) {
      IncreasingRest(headers);
    }
  }

  predicate Increasing(ns: seq<Node>) {
    forall i, j {:trigger Before(ns, i, j)} | 0 <= i < j < |ns| :: Before(ns, i, j)
  }

  predicate Before(ns: seq<Node>, i: int, j: int)
    requires 0 <= i < j < |ns|
  {
    ns[i].index < ns[j].index
  }

  lemma IncreasingRest(ns: seq<Node>)
    requires Increasing(ns) && ns != []
    ensures Increasing(ns[1..])
    ensures forall n | n in ns[1..] :: ns[0].index < n.index
  {
    forall i, j | 0 <= i < j < |ns| - 1 ensures Before(ns[1..], i, j) {
      assert Before(ns, i + 1, j + 1);
    }
    forall n | n in ns[1..] ensures ns[0].index < n.index {
      var j :| 0 <= j < |ns| - 1 && ns[1..][j] == n;
      assert Before(ns, 0, j + 1);
    }
  }

  /** One portion reaches its block, its header, or the list of exits. */
  function Deliver(f: Flow, headers: seq<Node>, w: Weight, taken: int): (r: Flow)
    requires Reaches(f, headers, w)
    ensures r.mass.Keys == f.mass.Keys && |r.backedge| == |f.backedge|
  {
    match w.kind
    case Local => f.(mass := f.mass[w.target := AddMass(f.mass[w.target], taken)])
    case Backedge =>
      var h := HeaderIndex(headers, w.target);
      f.(backedge := f.backedge[h := AddMass(f.backedge[h], taken)])
    case Exit => f.(exits := f.exits + [ExitMass(w.target, taken)])
  }

  predicate Reaches(f: Flow, headers: seq<Node>, w: Weight) {
    && (w.kind == Local ==> w.target in f.mass)
    && (w.kind == Backedge ==> HeaderIndex(headers, w.target) < |f.backedge|)
  }

  /** All weights take their portions, in order. */
  function DeliverAll(f: Flow, headers: seq<Node>, ws: seq<Weight>, m: int, total: int): (r: Flow)
    requires IsMass(m) && Splits(ws, total)
    requires forall i | 0 <= i < |ws| :: Reaches(f, headers, ws[i])
    decreases |ws|
  {
    if ws == [] then f
    else
      SplitsRest(ws, total);
      var taken := Share(m, ws[0].amount, total);
      assert forall i | 0 <= i < |ws| - 1 :: Reaches(f, headers, ws[i + 1]) && ws[1..][i] == ws[i + 1];
      DeliverAll(Deliver(f, headers, ws[0], taken), headers, ws[1..], m - taken, total - ws[0].amount)
  }

  /** The weights add up to a total of at most 32 bits. */
  predicate Splits(ws: seq<Weight>, total: int) {
    total == Sum(ws) < U32 && forall i | 0 <= i < |ws| :: 0 < ws[i].amount
  }

  lemma {:induction false} SplitsRest(ws: seq<Weight>, total: int)
    requires Splits(ws, total) && ws != []
    ensures 0 < ws[0].amount <= total && Splits(ws[1..], total - ws[0].amount)
    ensures |ws| == 1 ==> ws[0].amount == total
  {
    SumFront(ws);
    SumNonNegative(ws[1..]);
  }

  lemma {:induction false} SumFront(ws: seq<Weight>)
    requires ws != []
    ensures Sum(ws) == ws[0].amount + Sum(ws[1..])
    decreases |ws|
  {
    if |ws| > 1 {
      var rest := ws[..|ws| - 1];
      SumFront(rest);
      assert ws[1..][..|ws| - 2] == rest[1..];
    }
  }

  lemma {:induction false} SumNonNegative(ws: seq<Weight>)
    requires forall i | 0 <= i < |ws| :: 0 < ws[i].amount
    ensures Sum(ws) >= |ws|
    decreases |ws|
  {
    if ws != [] {
      SumNonNegative(ws[..|ws| - 1]);
    }
  }

  predicate NoDup(ns: seq<Node>) {
    ns == [] || (ns[0] !in ns[1..] && NoDup(ns[1..]))
  }

  function SumMass(ns: seq<Node>, mass: map<Node, int>): int
    requires forall n | n in ns :: n in mass
  {
    if ns == [] then 0 else mass[ns[0]] + SumMass(ns[1..], mass)
  }

  function SumInts(xs: seq<int>): int {
    if xs == [] then 0 else xs[0] + SumInts(xs[1..])
  }

  function SumExits(es: seq<ExitMass>): int {
    if es == [] then 0 else SumExits(es[..|es| - 1]) + es[|es| - 1].mass
  }

  /** All mass at the blocks ns, returned to headers, or gone to exits. */
  function Total(f: Flow, ns: seq<Node>): int
    requires forall n | n in ns :: n in f.mass
  {
    SumMass(ns, f.mass) + SumInts(f.backedge) + SumExits(f.exits)
  }

  /** All masses are numbers of 64 bits. */
  predicate FlowOk(f: Flow) {
    && (forall n | n in f.mass :: IsMass(f.mass[n]))
    && (forall i | 0 <= i < |f.backedge| :: IsMass(f.backedge[i]))
    && (forall i | 0 <= i < |f.exits| :: IsMass(f.exits[i].mass))
  }

  lemma {:induction false} SumMassBounds(ns: seq<Node>, mass: map<Node, int>, t: Node)
    requires forall n | n in ns :: n in mass && mass[n] >= 0
    ensures 0 <= SumMass(ns, mass)
    ensures t in ns ==> mass[t] <= SumMass(ns, mass)
    decreases |ns|
  {
    if ns != [] {
      SumMassBounds(ns[1..], mass, t);
    }
  }

  lemma {:induction false} SumMassUpdate(ns: seq<Node>, mass: map<Node, int>, t: Node, v: int)
    requires NoDup(ns) && t in mass && forall n | n in ns :: n in mass
    ensures SumMass(ns, mass[t := v]) == SumMass(ns, mass) + if t in ns then v - mass[t] else 0
    decreases |ns|
  {
    if ns != [] {
      SumMassUpdate(ns[1..], mass, t, v);
    }
  }

  lemma {:induction false} SumMassSame(ns: seq<Node>, a: map<Node, int>, b: map<Node, int>)
    requires forall n | n in ns :: n in a && n in b && a[n] == b[n]
    ensures SumMass(ns, a) == SumMass(ns, b)
    decreases |ns|
  {
    if ns != [] {
      SumMassSame(ns[1..], a, b);
    }
  }

  lemma {:induction false} SumMassAppend(ns: seq<Node>, n: Node, mass: map<Node, int>)
    requires n in mass && forall x | x in ns :: x in mass
    ensures SumMass(ns + [n], mass) == SumMass(ns, mass) + mass[n]
    decreases |ns|
  {
    if ns == [] {
      assert ns + [n] == [n];
      assert [n][1..] == [];
    } else {
      SumMassAppend(ns[1..], n, mass);
      assert (ns + [n])[1..] == ns[1..] + [n];
    }
  }

  lemma {:induction false} IncreasingNoDup(headers: seq<Node>, members: seq<Node>)
    requires Increasing(headers) && Increasing(members) && forall n | n in headers :: n !in members
    ensures NoDup(headers + members)
    decreases |headers| + |members|
  {
    if headers != [] {
      IncreasingRest(headers);
      assert (headers + members)[1..] == headers[1..] + members;
      IncreasingNoDup(headers[1..], members);
    } else if members != [] {
      IncreasingRest(members);
      assert (headers + members)[1..] == [] + members[1..];
      IncreasingNoDup([], members[1..]);
    }
  }

  lemma {:induction false} SumIntsBounds(xs: seq<int>, k: nat)
    requires forall i | 0 <= i < |xs| :: xs[i] >= 0
    ensures 0 <= SumInts(xs) && (k < |xs| ==> xs[k] <= SumInts(xs))
    decreases |xs|
  {
    if xs != [] {
      SumIntsBounds(xs[1..], if k > 0 then k - 1 else 0);
    }
  }

  lemma {:induction false} SumIntsUpdate(xs: seq<int>, k: nat, v: int)
    requires k < |xs|
    ensures SumInts(xs[k := v]) == SumInts(xs) + v - xs[k]
    decreases |xs|
  {
    if k > 0 {
      SumIntsUpdate(xs[1..], k - 1, v);
      assert xs[k := v][1..] == xs[1..][k - 1 := v];
    } else {
      assert xs[0 := v][1..] == xs[1..];
    }
  }

  lemma {:induction false} SumIntsPrefix(xs: seq<int>, i: nat)
    requires i < |xs| && forall k | 0 <= k < |xs| :: xs[k] >= 0
    ensures SumInts(xs[..i + 1]) == SumInts(xs[..i]) + xs[i]
    ensures 0 <= SumInts(xs[..i]) && SumInts(xs[..i + 1]) <= SumInts(xs)
    decreases i
  {
    if i > 0 {
      SumIntsPrefix(xs[1..], i - 1);
      assert xs[..i + 1][1..] == xs[1..][..i] && xs[..i][1..] == xs[1..][..i - 1];
    } else {
      assert xs[..1] == [xs[0]] && xs[..1][1..] == [];
      SumIntsBounds(xs[1..], 0);
    }
  }

  lemma SumExitsAppend(es: seq<ExitMass>, e: ExitMass)
    ensures SumExits(es + [e]) == SumExits(es) + e.mass
  {
    assert (es + [e])[..|es|] == es;
  }

  lemma {:induction false} SumExitsBound(es: seq<ExitMass>)
    requires forall i | 0 <= i < |es| :: es[i].mass >= 0
    ensures 0 <= SumExits(es)
    decreases |es|
  {
    if es != [] {
      SumExitsBound(es[..|es| - 1]);
    }
  }

  lemma TotalBounds(f: Flow, ns: seq<Node>, t: Node, k: nat)
    requires FlowOk(f) && forall n | n in ns :: n in f.mass
    ensures t in ns ==> f.mass[t] <= Total(f, ns)
    ensures k < |f.backedge| ==> f.backedge[k] <= Total(f, ns)
    ensures 0 <= SumMass(ns, f.mass) && 0 <= SumInts(f.backedge) && 0 <= SumExits(f.exits)
  {
    SumMassBounds(ns, f.mass, t);
    SumIntsBounds(f.backedge, k);
    SumExitsBound(f.exits);
  }

  lemma AddMassSaturates(a: int, b: int)
    requires IsMass(a) && IsMass(b)
    ensures AddMass(a, b) == Min(a + b, FULL) && IsMass(AddMass(a, b))
  {
  }

  /** There is at most taken more at ns, and that much if it arrives and there is at most a full mass in all. */
  ghost predicate Gains(before: Flow, after: Flow, ns: seq<Node>, taken: int, arrives: bool)
    requires forall n | n in ns :: n in before.mass && n in after.mass
  {
    && Total(after, ns) <= Total(before, ns) + taken
    && (arrives && Total(before, ns) + taken <= FULL ==> Total(after, ns) == Total(before, ns) + taken)
  }

  lemma GainsAdd(a: Flow, b: Flow, c: Flow, ns: seq<Node>, x: int, y: int, first: bool, second: bool)
    requires forall n | n in ns :: n in a.mass && n in b.mass && n in c.mass
    requires Gains(a, b, ns, x, first) && Gains(b, c, ns, y, second) && 0 <= x && 0 <= y
    ensures Gains(a, c, ns, x + y, first && (second || (y == 0 && b == c)))
  {
  }

  lemma LocalGains(f: Flow, ns: seq<Node>, t: Node, taken: int)
    requires FlowOk(f) && NoDup(ns) && (forall n | n in ns :: n in f.mass) && t in f.mass && IsMass(taken)
    ensures var r := f.(mass := f.mass[t := AddMass(f.mass[t], taken)]); FlowOk(r) && Gains(f, r, ns, taken, t in ns)
  {
    AddMassSaturates(f.mass[t], taken);
    TotalBounds(f, ns, t, 0);
    SumMassUpdate(ns, f.mass, t, AddMass(f.mass[t], taken));
  }

  lemma BackedgeGains(f: Flow, ns: seq<Node>, h: nat, taken: int)
    requires FlowOk(f) && (forall n | n in ns :: n in f.mass) && h < |f.backedge| && IsMass(taken)
    ensures var r := f.(backedge := f.backedge[h := AddMass(f.backedge[h], taken)]);
      FlowOk(r) && Gains(f, r, ns, taken, true)
  {
    AddMassSaturates(f.backedge[h], taken);
    if ns != [] { TotalBounds(f, ns, ns[0], h); } else { TotalBounds(f, ns, Node(0), h); }
    SumIntsUpdate(f.backedge, h, AddMass(f.backedge[h], taken));
  }

  lemma ExitGains(f: Flow, ns: seq<Node>, t: Node, taken: int)
    requires FlowOk(f) && (forall n | n in ns :: n in f.mass) && IsMass(taken)
    ensures var r := f.(exits := f.exits + [ExitMass(t, taken)]); FlowOk(r) && Gains(f, r, ns, taken, true)
  {
    SumExitsAppend(f.exits, ExitMass(t, taken));
  }

  /** One portion adds at most itself to what there is at the blocks ns, and all of itself if it stays
      there and there is at most a full mass in all: then no addition saturates. */
  lemma DeliverConserves(f: Flow, headers: seq<Node>, ns: seq<Node>, w: Weight, taken: int)
    requires FlowOk(f) && NoDup(ns) && forall n | n in ns :: n in f.mass
    requires Reaches(f, headers, w) && IsMass(taken)
    ensures var r := Deliver(f, headers, w, taken);
      FlowOk(r) && Gains(f, r, ns, taken, w.kind == Local ==> w.target in ns) &&
      forall n | n in f.mass && (w.kind == Local ==> n != w.target) :: r.mass[n] == f.mass[n]
  {
    match w.kind {
      case Local => LocalGains(f, ns, w.target, taken);
      case Backedge => BackedgeGains(f, ns, HeaderIndex(headers, w.target), taken);
      case Exit => ExitGains(f, ns, w.target, taken);
    }
  }

  /** No block of these gets a portion. */
  predicate Spared(ends: seq<Node>, ws: seq<Weight>) {
    forall i | 0 <= i < |ws| && ws[i].kind == Local :: ws[i].target !in ends
  }

  predicate Stays(ns: seq<Node>, ws: seq<Weight>) {
    forall i | 0 <= i < |ws| && ws[i].kind == Local :: ws[i].target in ns
  }

  lemma Rest(f: Flow, next: Flow, headers: seq<Node>, ns: seq<Node>, ends: seq<Node>, ws: seq<Weight>)
    requires ws != [] && Spared(ends, ws) && next.mass.Keys == f.mass.Keys && |next.backedge| == |f.backedge|
    requires forall i | 0 <= i < |ws| :: Reaches(f, headers, ws[i])
    ensures Spared(ends, ws[1..])
    ensures Stays(ns, ws) <==> Stays(ns, ws[1..]) && (ws[0].kind == Local ==> ws[0].target in ns)
    ensures forall i | 0 <= i < |ws| - 1 :: Reaches(next, headers, ws[1..][i])
  {
    assert forall i | 0 <= i < |ws| - 1 :: ws[1..][i] == ws[i + 1] && Reaches(f, headers, ws[i + 1]);
    forall i | 0 <= i < |ws| && ws[i].kind == Local && Stays(ns, ws[1..]) &&
      (ws[0].kind == Local ==> ws[0].target in ns)
      ensures ws[i].target in ns
    {
      assert i > 0 ==> ws[1..][i - 1] == ws[i];
    }
  }

  /** From f to r, at most m arrives at ns, and exactly m if all of it stays there; the blocks ends keep what they
      have. */
  ghost predicate Delivered(f: Flow, r: Flow, ns: seq<Node>, ends: seq<Node>, m: int, arrives: bool)
    requires forall n | n in ns :: n in f.mass
  {
    && FlowOk(r) && r.mass.Keys == f.mass.Keys && |r.backedge| == |f.backedge|
    && Gains(f, r, ns, m, arrives) && SameAt(ends, f, r)
  }

  lemma FirstDelivered(f: Flow, headers: seq<Node>, ns: seq<Node>, ends: seq<Node>, w: Weight, taken: int)
    requires FlowOk(f) && NoDup(ns) && forall n | n in ns :: n in f.mass
    requires Reaches(f, headers, w) && IsMass(taken) && (w.kind == Local ==> w.target !in ends)
    ensures Delivered(f, Deliver(f, headers, w, taken), ns, ends, taken, w.kind == Local ==> w.target in ns)
  {
    DeliverConserves(f, headers, ns, w, taken);
  }

  lemma DeliveredBoth(f: Flow, next: Flow, r: Flow, ns: seq<Node>, ends: seq<Node>, x: int, y: int, first: bool,
                      second: bool)
    requires (forall n | n in ns :: n in f.mass && n in next.mass) && 0 <= x && 0 <= y
    requires Delivered(f, next, ns, ends, x, first) && Delivered(next, r, ns, ends, y, second)
    ensures Delivered(f, r, ns, ends, x + y, first && (second || (y == 0 && next == r)))
  {
    GainsAdd(f, next, r, ns, x, y, first, second);
  }

  /** The first portion, and what is left to be delivered. */
  lemma DeliverFirst(f: Flow, headers: seq<Node>, ns: seq<Node>, ends: seq<Node>, ws: seq<Weight>, m: int, total: int)
    returns (next: Flow, taken: int, left: int)
    requires FlowOk(f) && NoDup(ns) && forall n | n in ns :: n in f.mass
    requires IsMass(m) && Splits(ws, total) && Spared(ends, ws) && ws != []
    requires forall i | 0 <= i < |ws| :: Reaches(f, headers, ws[i])
    ensures 0 <= taken <= m && Splits(ws[1..], left) && Spared(ends, ws[1..]) && (|ws| == 1 ==> taken == m)
    ensures Delivered(f, next, ns, ends, taken, ws[0].kind == Local ==> ws[0].target in ns)
    ensures forall i | 0 <= i < |ws| - 1 :: Reaches(next, headers, ws[1..][i])
    ensures DeliverAll(f, headers, ws, m, total) == DeliverAll(next, headers, ws[1..], m - taken, left)
    ensures Stays(ns, ws) <==> Stays(ns, ws[1..]) && (ws[0].kind == Local ==> ws[0].target in ns)
  {
    SplitsRest(ws, total);
    taken, left := Share(m, ws[0].amount, total), total - ws[0].amount;
    FirstDelivered(f, headers, ns, ends, ws[0], taken);
    next := Deliver(f, headers, ws[0], taken);
    Rest(f, next, headers, ns, ends, ws);
  }

  /** Sharing out a mass hands out at most that mass; and exactly that mass, to the last unit, if it
      stays at ns and there is at most a full mass in all. */
  lemma {:induction false} DeliverAllConserves(f: Flow, headers: seq<Node>, ns: seq<Node>, ends: seq<Node>,
                                               ws: seq<Weight>, m: int, total: int)
    requires FlowOk(f) && NoDup(ns) && forall n | n in ns :: n in f.mass
    requires IsMass(m) && Splits(ws, total) && Spared(ends, ws)
    requires forall i | 0 <= i < |ws| :: Reaches(f, headers, ws[i])
    ensures Delivered(f, DeliverAll(f, headers, ws, m, total), ns, ends, m, ws != [] && Stays(ns, ws))
    decreases |ws|
  {
    if ws != [] {
      var next, taken, left := DeliverFirst(f, headers, ns, ends, ws, m, total);
      DeliverAllConserves(next, headers, ns, ends, ws[1..], m - taken, left);
      var r := DeliverAll(next, headers, ws[1..], m - taken, left);
      DeliveredBoth(f, next, r, ns, ends, taken, m - taken, ws[0].kind == Local ==> ws[0].target in ns,
                    ws[1..] != [] && Stays(ns, ws[1..]));
    }
  }

  ghost predicate SameAt(ns: seq<Node>, a: Flow, b: Flow) {
    forall n | n in ns && n in a.mass && n in b.mass :: a.mass[n] == b.mass[n]
  }
}
