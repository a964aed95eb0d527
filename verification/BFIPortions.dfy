/** Where the portions of a block's mass go: to which headers, members and exits, and how much to each. */
module BFIPortions {
  import opened Probability
  import opened BFIWeights
  import opened BFIFlow
  import opened BFIHeaderMass

  function KindOf(headers: seq<Node>, members: seq<Node>, n: Node): DistType {
    if n in headers then Backedge else if n !in members then Exit else Local
  }

  /** Weights that go where an edge of their kind goes. */
  predicate Kinds(headers: seq<Node>, members: seq<Node>, ws: seq<Weight>) {
    forall i | 0 <= i < |ws| :: ws[i].kind == KindOf(headers, members, ws[i].target)
  }

  /** What each weight gets: its share of what the ones before it left over. */
  function Portions(ws: seq<Weight>, m: int, total: int): (ps: seq<int>)
    requires IsMass(m) && Splits(ws, total)
    ensures |ps| == |ws| && forall i | 0 <= i < |ps| :: IsMass(ps[i])
    decreases |ws|
  {
    if ws == [] then []
    else
      SplitsRest(ws, total);
      var taken := Share(m, ws[0].amount, total);
      [taken] + Portions(ws[1..], m - taken, total - ws[0].amount)
  }

  /** Together they get all of it. */
  lemma {:induction false} PortionsSum(ws: seq<Weight>, m: int, total: int)
    requires IsMass(m) && Splits(ws, total)
    ensures SumInts(Portions(ws, m, total)) == if ws == [] then 0 else m
    decreases |ws|
  {
    if ws != [] {
      SplitsRest(ws, total);
      var taken := Share(m, ws[0].amount, total);
      PortionsSum(ws[1..], m - taken, total - ws[0].amount);
      assert Portions(ws, m, total)[1..] == Portions(ws[1..], m - taken, total - ws[0].amount);
    }
  }

  /** All that goes to one target. */
  function PortionTo(ws: seq<Weight>, ps: seq<int>, n: Node): int
    requires |ws| == |ps|
  {
    if ws == [] then 0 else (if ws[0].target == n then ps[0] else 0) + PortionTo(ws[1..], ps[1..], n)
  }

  lemma {:induction false} PortionPositive(ws: seq<Weight>, ps: seq<int>, n: Node)
    requires |ws| == |ps| && forall i | 0 <= i < |ps| :: 0 <= ps[i]
    ensures 0 <= PortionTo(ws, ps, n)
    decreases |ws|
  {
    if ws != [] { PortionPositive(ws[1..], ps[1..], n); }
  }

  /** All that leaves the loop, in order. */
  function ExitPortions(headers: seq<Node>, members: seq<Node>, ws: seq<Weight>, ps: seq<int>): (es: seq<ExitMass>)
    requires |ws| == |ps|
    ensures forall i | 0 <= i < |es| :: es[i].target !in headers && es[i].target !in members
  {
    if ws == [] then []
    else
      var t := ws[0].target;
      (if t in headers || t in members then [] else [ExitMass(t, ps[0])]) +
      ExitPortions(headers, members, ws[1..], ps[1..])
  }

  /** From f to r, each header gets back what goes to it, each other member gets what goes to it, and what goes
      elsewhere leaves the loop. Masses saturate when full. */
  ghost predicate Received(f: Flow, r: Flow, headers: seq<Node>, members: seq<Node>, ws: seq<Weight>, ps: seq<int>)
    requires |ws| == |ps|
  {
    && r.mass.Keys == f.mass.Keys && |r.backedge| == |f.backedge| == |headers|
    && (forall h | 0 <= h < |headers| :: r.backedge[h] == Min(f.backedge[h] + PortionTo(ws, ps, headers[h]), FULL))
    && (forall n | n in f.mass :: r.mass[n] == AfterReceiving(f.mass[n], headers, members, ws, ps, n))
    && r.exits == f.exits + ExitPortions(headers, members, ws, ps)
  }

  function AfterReceiving(had: int, headers: seq<Node>, members: seq<Node>, ws: seq<Weight>, ps: seq<int>, n: Node): int
    requires |ws| == |ps|
  {
    if n in members && n !in headers then Min(had + PortionTo(ws, ps, n), FULL) else had
  }

  lemma HeaderAlone(headers: seq<Node>, h: nat, i: nat)
    requires Increasing(headers) && h < |headers| && i < |headers| && headers[h] == headers[i]
    ensures h == i
  {
    assert h < i ==> Before(headers, h, i);
    assert i < h ==> Before(headers, i, h);
  }

  /** One portion. */
  lemma DeliverReceived(f: Flow, headers: seq<Node>, members: seq<Node>, w: Weight, p: int)
    requires FlowOk(f) && |f.backedge| == |headers| && Increasing(headers)
    requires w.kind == KindOf(headers, members, w.target) && Reaches(f, headers, w) && IsMass(p)
    ensures FlowOk(Deliver(f, headers, w, p))
    ensures Received(f, Deliver(f, headers, w, p), headers, members, [w], [p])
  {
    var r := Deliver(f, headers, w, p);
    assert [w][1..] == [] && [p][1..] == [];
    assert forall n :: PortionTo([w], [p], n) == if w.target == n then p else 0;
    forall h | 0 <= h < |headers|
      ensures r.backedge[h] == Min(f.backedge[h] + PortionTo([w], [p], headers[h]), FULL)
    {
      if w.kind == Backedge {
        AddMassSaturates(f.backedge[h], p);
        if headers[h] == w.target { HeaderAlone(headers, h, HeaderIndex(headers, w.target)); }
      }
    }
    if w.kind == Local { AddMassSaturates(f.mass[w.target], p); }
    assert ExitPortions(headers, members, [w], [p]) == if w.kind == Exit then [ExitMass(w.target, p)] else [];
  }

  /** A first portion, and then the others. */
  lemma ReceivedBoth(f: Flow, next: Flow, r: Flow, headers: seq<Node>, members: seq<Node>, ws: seq<Weight>,
                     ps: seq<int>)
    requires |ws| == |ps| && ws != [] && forall i | 0 <= i < |ps| :: IsMass(ps[i])
    requires FlowOk(f) && Received(f, next, headers, members, [ws[0]], [ps[0]])
    requires Received(next, r, headers, members, ws[1..], ps[1..])
    ensures Received(f, r, headers, members, ws, ps)
  {
    assert [ws[0]][1..] == [] && [ps[0]][1..] == [];
    assert forall n :: PortionTo(ws, ps, n) == PortionTo([ws[0]], [ps[0]], n) + PortionTo(ws[1..], ps[1..], n);
    forall n ensures 0 <= PortionTo(ws[1..], ps[1..], n) {
      PortionPositive(ws[1..], ps[1..], n);
    }
    assert ExitPortions(headers, members, ws, ps) ==
      ExitPortions(headers, members, [ws[0]], [ps[0]]) + ExitPortions(headers, members, ws[1..], ps[1..]);
  }

  /** Sharing a mass out by weights gives each header, member and exit just its portions. */
  lemma {:induction false} DeliverAllReceived(f: Flow, headers: seq<Node>, members: seq<Node>, ws: seq<Weight>,
                                              m: int, total: int)
    requires FlowOk(f) && |f.backedge| == |headers| && Increasing(headers) && Kinds(headers, members, ws)
    requires IsMass(m) && Splits(ws, total) && forall i | 0 <= i < |ws| :: Reaches(f, headers, ws[i])
    ensures Received(f, DeliverAll(f, headers, ws, m, total), headers, members, ws, Portions(ws, m, total))
    decreases |ws|
  {
    if ws != [] {
      SplitsRest(ws, total);
      var taken := Share(m, ws[0].amount, total);
      DeliverReceived(f, headers, members, ws[0], taken);
      var next := Deliver(f, headers, ws[0], taken);
      Rest(f, next, headers, [], [], ws);
      DeliverAllReceived(next, headers, members, ws[1..], m - taken, total - ws[0].amount);
      var ps := Portions(ws, m, total);
      assert ps[1..] == Portions(ws[1..], m - taken, total - ws[0].amount);
      ReceivedBoth(f, next, DeliverAll(f, headers, ws, m, total), headers, members, ws, ps);
    }
  }

  lemma {:induction false} NoPortion(ws: seq<Weight>, ps: seq<int>, n: Node)
    requires |ws| == |ps| && forall i | 0 <= i < |ws| :: ws[i].target != n
    ensures PortionTo(ws, ps, n) == 0
    decreases |ws|
  {
    if ws != [] {
      assert forall i | 0 <= i < |ws| - 1 :: ws[1..][i] == ws[i + 1];
      NoPortion(ws[1..], ps[1..], n);
    }
  }

  /** Assigning a mass by weights to distinct targets gives each its portion, and leaves the others alone. */
  lemma {:induction false} AssignAllPortions(mass: map<Node, int>, ws: seq<Weight>, m: int, total: int, n: Node)
    requires IsMass(m) && Splits(ws, total) && Distinct(ws)
    ensures var r := AssignAll(mass, ws, m, total);
      (n in r <==> n in mass || n in Targets(ws)) &&
      (n in r ==> r[n] == if n in Targets(ws) then PortionTo(ws, Portions(ws, m, total), n) else mass[n])
    decreases |ws|
  {
    if ws != [] {
      SplitsRest(ws, total);
      var t, rest, taken := ws[0].target, ws[1..], Share(m, ws[0].amount, total);
      TargetsFirst(ws);
      AssignAllPortions(mass[t := taken], rest, m - taken, total - ws[0].amount, n);
      var ps := Portions(ws, m, total);
      assert ps[1..] == Portions(rest, m - taken, total - ws[0].amount);
      if n !in Targets(rest) {
        assert forall i | 0 <= i < |rest| :: rest[i].target in Targets(rest);
        NoPortion(rest, ps[1..], n);
      }
    }
  }

  lemma TargetsFirst(ws: seq<Weight>)
    requires ws != [] && Distinct(ws)
    ensures Targets(ws) == {ws[0].target} + Targets(ws[1..]) && ws[0].target !in Targets(ws[1..]) && Distinct(ws[1..])
  {
    var rest := ws[1..];
    assert forall i | 0 <= i < |rest| :: rest[i] == ws[i + 1];
    forall n ensures n in Targets(ws) <==> n == ws[0].target || n in Targets(rest) {
      if n in Targets(ws) {
        var i :| 0 <= i < |ws| && ws[i].target == n;
        if i > 0 { assert rest[i - 1].target == n; }
      }
      if n in Targets(rest) {
        var i :| 0 <= i < |rest| && rest[i].target == n;
        assert ws[i + 1].target == n;
      }
      assert ws[0].target in Targets(ws);
    }
  }
}
