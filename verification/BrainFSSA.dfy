/** Static single assignment form: blocks, edges and phis fit together, and the builder's
    operations keep it so. */
module BrainFSSA {
  import opened BrainFTarget

  function Targets(t: Terminator): seq<nat> {
    match t
    case Br(b) => [b]
    case CondBr(_, yes, no) => [yes, no]
    case Ret => []
  }

  predicate HasEdge(f: seq<Block>, a: nat, b: nat) {
    a < |f| && f[a].term.Some? && b in Targets(f[a].term.value)
  }

  function Entries(incoming: seq<Incoming>, a: nat): nat {
    if incoming == [] then 0 else (if incoming[0].block == a then 1 else 0) + Entries(incoming[1..], a)
  }

  /** The phi of `b` has exactly one entry for every edge into `b` and no other entry. */
  ghost predicate PhiExact(f: seq<Block>, b: nat)
    requires b < |f|
  {
    f[b].phi.Some? ==>
      forall a :: Entries(f[b].phi.value.incoming, a) == if HasEdge(f, a, b) then 1 else 0
  }

  predicate TargetsOk(f: seq<Block>, b: nat)
    requires b < |f|
  {
    f[b].term.Some? ==>
      (forall t :: t in Targets(f[b].term.value) ==> t < |f|) &&
      (f[b].term.value.CondBr? ==> f[b].term.value.yes != f[b].term.value.no)
  }

  /** Edges lead to blocks, the two edges of a branch to different ones, and phis fit the edges. */
  ghost predicate Linked(f: seq<Block>) {
    (forall b :: 0 <= b < |f| ==> TargetsOk(f, b)) && (forall b :: 0 <= b < |f| ==> PhiExact(f, b))
  }

  /** Linked, and every block has its terminator. */
  ghost predicate WellFormed(f: seq<Block>) {
    Linked(f) && forall b :: 0 <= b < |f| ==> f[b].term.Some?
  }

  // ----- the builder's operations -----

  function Append(f: seq<Block>, b: nat, code: seq<Instr>): seq<Block>
    requires b < |f|
  {
    f[b := f[b].(body := f[b].body + code)]
  }

  function Close(f: seq<Block>, b: nat, t: Terminator): seq<Block>
    requires b < |f|
  {
    f[b := f[b].(term := Some(t))]
  }

  const NEWBLOCK: Block := Block(None, [], None)

  function OpenLoop(f: seq<Block>, ins: nat, head: nat, h: nat): seq<Block>
    requires ins < |f|
  {
    Close(f, ins, Br(|f|)) + [Block(Some(Phi(h, [Incoming(ins, head)])), [], None), NEWBLOCK]
  }

  function CloseLoop(f: seq<Block>, ins: nat, head: nat, test: nat, body: nat, t: nat, c: nat, out: nat): seq<Block>
    requires ins < |f| && test < |f| && f[test].phi.Some?
  {
    var phi := f[test].phi.value;
    Close(f, ins, Br(test))
      [test := Block(Some(phi.(incoming := phi.incoming + [Incoming(ins, head)])),
                     [Load(t, phi.dst), IsZero(c, t)], Some(CondBr(c, |f|, body)))]
    + [Block(Some(Phi(out, [Incoming(test, phi.dst)])), [], None)]
  }

  lemma LinkedAppend(f: seq<Block>, ins: nat, code: seq<Instr>)
    requires Linked(f) && ins < |f|
    ensures Linked(Append(f, ins, code))
  {
    var g := Append(f, ins, code);
    forall b | 0 <= b < |g|
      ensures TargetsOk(g, b) && PhiExact(g, b)
    {
      assert TargetsOk(f, b) && PhiExact(f, b);
      assert forall a :: HasEdge(g, a, b) == HasEdge(f, a, b);
    }
  }

  lemma LinkedEnd(f: seq<Block>, ins: nat, end: nat)
    requires Linked(f) && ins < |f| && f[ins].term.None? && end < |f| && f[end].phi.None?
    ensures Linked(Close(f, ins, Br(end)))
  {
    var g := Close(f, ins, Br(end));
    forall b | 0 <= b < |g|
      ensures TargetsOk(g, b) && PhiExact(g, b)
    {
      assert TargetsOk(f, b) && PhiExact(f, b);
      if g[b].phi.Some? {
        assert forall a :: HasEdge(g, a, b) == HasEdge(f, a, b);
      }
    }
  }

  lemma LinkedBranch(f: seq<Block>, ins: nat, code: seq<Instr>, cond: nat, err: nat, g: seq<Block>)
    requires Linked(f) && ins < |f| && err < |f| && f[err].phi.None? && f[ins].term.None?
    requires g == Close(Append(f, ins, code), ins, CondBr(cond, err, |f|)) + [NEWBLOCK]
    ensures Linked(g)
  {
    forall b | 0 <= b < |g|
      ensures TargetsOk(g, b) && PhiExact(g, b)
    {
      if b < |f| {
        assert TargetsOk(f, b) && PhiExact(f, b);
        if g[b].phi.Some? {
          assert forall a :: HasEdge(g, a, b) == HasEdge(f, a, b);
        }
      }
    }
  }

  lemma LinkedOpen(f: seq<Block>, ins: nat, head: nat, h: nat)
    requires Linked(f) && ins < |f| && f[ins].term.None?
    ensures Linked(OpenLoop(f, ins, head, h))
  {
    var g := OpenLoop(f, ins, head, h);
    forall b | 0 <= b < |g|
      ensures TargetsOk(g, b) && PhiExact(g, b)
    {
      if b < |f| {
        assert TargetsOk(f, b) && PhiExact(f, b);
        assert forall a :: HasEdge(g, a, b) == HasEdge(f, a, b);
      } else if b == |f| {
        forall a: nat
          ensures Entries(g[b].phi.value.incoming, a) == if HasEdge(g, a, b) then 1 else 0
        {
          if a < |f| { assert TargetsOk(f, a); }
        }
      }
    }
  }

  lemma EntriesOfOne(i: Incoming, a: nat)
    ensures Entries([i], a) == if i.block == a then 1 else 0
  {
    assert [i][1..] == [];
  }

  lemma EntriesOfTwo(i: Incoming, j: Incoming, a: nat)
    ensures Entries([i, j], a) == (if i.block == a then 1 else 0) + (if j.block == a then 1 else 0)
  {
    assert [i, j][1..] == [j];
    EntriesOfOne(j, a);
  }

  lemma LinkedClose(f: seq<Block>, ins: nat, head: nat, test: nat, body: nat, t: nat, c: nat, out: nat, b0: nat,
                    h0: nat)
    requires Linked(f) && ins < |f| && f[ins].term.None? && test < |f| && f[test].term.None? && ins != test
    requires f[test].phi.Some? && f[test].phi.value.incoming == [Incoming(b0, h0)] && b0 != ins
    requires body < |f| && f[body].phi.None?
    ensures Linked(CloseLoop(f, ins, head, test, body, t, c, out))
  {
    var g := CloseLoop(f, ins, head, test, body, t, c, out);
    forall b | 0 <= b < |g|
      ensures TargetsOk(g, b)
    {
      if b < |f| { assert TargetsOk(f, b); }
    }
    forall b | 0 <= b < |g| && g[b].phi.Some?
      ensures PhiExact(g, b)
    {
      forall a: nat
        ensures Entries(g[b].phi.value.incoming, a) == if HasEdge(g, a, b) then 1 else 0
      {
        if a < |f| { assert TargetsOk(f, a); }
        if b < |f| {
          assert PhiExact(f, b);
          assert Entries(f[b].phi.value.incoming, a) == if HasEdge(f, a, b) then 1 else 0;
          if b == test {
            assert g[b].phi.value.incoming == [Incoming(b0, h0), Incoming(ins, head)];
            EntriesOfTwo(Incoming(b0, h0), Incoming(ins, head), a);
            assert HasEdge(g, a, b) <==> HasEdge(f, a, b) || a == ins;
            assert HasEdge(f, b0, b) by { assert Entries(f[b].phi.value.incoming, b0) == 1; }
            assert Entries(f[b].phi.value.incoming, a) == if a == b0 then 1 else 0;
          } else {
            assert HasEdge(g, a, b) == HasEdge(f, a, b);
          }
        } else {
          EntriesOfOne(Incoming(test, f[test].phi.value.dst), a);
          assert HasEdge(g, a, b) <==> a == test;
        }
      }
    }
  }
}
