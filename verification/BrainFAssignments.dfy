/** Every register is assigned in one place only: the builder takes a new one for every value. */
module BrainFAssignments {
  import opened BrainFSource
  import opened BrainFTarget
  import opened BrainFLayout
  import opened BrainFSSA
  import opened BrainFDefinitions

  /** How many instructions of the code assign r. */
  function CodeCount(code: seq<Instr>, r: nat): nat {
    if code == [] then 0 else CodeCount(code[..|code| - 1], r) + if r in Dst(code[|code| - 1]) then 1 else 0
  }

  function BlockCount(b: Block, r: nat): nat { CodeCount(b.body, r) + if r in PhiDef(b) then 1 else 0 }

  /** How many phis and instructions assign r. */
  function Count(f: seq<Block>, r: nat): nat {
    if f == [] then 0 else Count(f[..|f| - 1], r) + BlockCount(f[|f| - 1], r)
  }

  ghost predicate SingleAssignment(f: seq<Block>) {
    forall r: nat :: Count(f, r) <= 1
  }

  /** No register is assigned twice, and those from `next` are unused. */
  ghost predicate Single(f: seq<Block>, next: nat) {
    forall r: nat :: Count(f, r) <= if r < next then 1 else 0
  }

  /** The code assigns only registers from n, up to m, and each once. */
  ghost predicate Takes(code: seq<Instr>, n: nat, m: nat) {
    forall r: nat :: CodeCount(code, r) <= if n <= r < m then 1 else 0
  }

  lemma {:induction false} CountUpdate(f: seq<Block>, i: nat, b: Block, r: nat)
    requires i < |f|
    ensures Count(f[i := b], r) == Count(f, r) - BlockCount(f[i], r) + BlockCount(b, r)
    decreases |f|
  {
    var n := |f| - 1;
    if i < n {
      CountUpdate(f[..n], i, b, r);
      assert f[i := b][..n] == f[..n][i := b];
    } else {
      assert f[i := b][..n] == f[..n];
    }
  }

  lemma CountNew(f: seq<Block>, b: Block, r: nat)
    ensures Count(f + [b], r) == Count(f, r) + BlockCount(b, r)
  {
    assert (f + [b])[..|f|] == f;
  }

  lemma {:induction false} CodeCountAppend(code: seq<Instr>, more: seq<Instr>, r: nat)
    ensures CodeCount(code + more, r) == CodeCount(code, r) + CodeCount(more, r)
    decreases |more|
  {
    if more == [] {
      assert code + more == code;
    } else {
      var n := |more| - 1;
      assert (code + more)[..|code| + n] == code + more[..n];
      CodeCountAppend(code, more[..n], r);
    }
  }

  lemma TakesOne(i: Instr, n: nat, m: nat)
    requires n <= m && forall r :: r in Dst(i) ==> n <= r < m
    ensures Takes([i], n, m)
  {
    forall r: nat ensures CodeCount([i], r) <= if n <= r < m then 1 else 0 {
      assert [i][..0] == [];
      assert CodeCount([i][..0], r) == 0;
    }
  }

  lemma TakesOn(code: seq<Instr>, more: seq<Instr>, n: nat, k: nat, m: nat)
    requires n <= k <= m && Takes(code, n, k) && Takes(more, k, m)
    ensures Takes(code + more, n, m)
  {
    forall r: nat ensures CodeCount(code + more, r) <= if n <= r < m then 1 else 0 {
      CodeCountAppend(code, more, r);
      assert CodeCount(code, r) <= (if n <= r < k then 1 else 0) && CodeCount(more, r) <= if k <= r < m then 1 else 0;
    }
  }

  /** Two or three instructions that take one register after the other. */
  lemma TakesTwo(a: Instr, b: Instr, n: nat)
    requires Dst(a) == {n} && Dst(b) == {n + 1}
    ensures Takes([a, b], n, n + 2)
  {
    TakesOne(a, n, n + 1);
    TakesOne(b, n + 1, n + 2);
    TakesOn([a], [b], n, n + 1, n + 2);
    assert [a] + [b] == [a, b];
  }

  lemma TakesThree(a: Instr, b: Instr, c: Instr, n: nat)
    requires Dst(a) == {n} && Dst(b) == {n + 1} && (Dst(c) == {} || Dst(c) == {n + 2})
    ensures Takes([a, b, c], n, n + 2 + |Dst(c)|)
  {
    TakesTwo(a, b, n);
    TakesOne(c, n + 2, n + 2 + |Dst(c)|);
    TakesOn([a, b], [c], n, n + 2, n + 2 + |Dst(c)|);
    assert [a, b] + [c] == [a, b, c];
  }

  // ----- the builder's operations -----

  lemma SingleAppend(f: seq<Block>, ins: nat, code: seq<Instr>, n: nat, m: nat)
    requires Single(f, n) && ins < |f| && n <= m && Takes(code, n, m)
    ensures Single(Append(f, ins, code), m)
  {
    forall r: nat ensures Count(Append(f, ins, code), r) <= if r < m then 1 else 0 {
      assert Count(f, r) <= (if r < n then 1 else 0) && CodeCount(code, r) <= if n <= r < m then 1 else 0;
      CountUpdate(f, ins, f[ins].(body := f[ins].body + code), r);
      CodeCountAppend(f[ins].body, code, r);
    }
  }

  lemma SingleClose(f: seq<Block>, ins: nat, t: Terminator, n: nat)
    requires Single(f, n) && ins < |f|
    ensures Single(Close(f, ins, t), n)
  {
    forall r: nat ensures Count(Close(f, ins, t), r) <= if r < n then 1 else 0 {
      CountUpdate(f, ins, f[ins].(term := Some(t)), r);
      assert Count(f, r) <= if r < n then 1 else 0;
    }
  }

  /** A new block, with a phi for a new register or without. */
  lemma SingleNew(f: seq<Block>, b: Block, n: nat)
    requires Single(f, n) && b.body == [] && (b.phi.Some? ==> b.phi.value.dst == n)
    ensures Single(f + [b], if b.phi.Some? then n + 1 else n)
  {
    forall r: nat ensures Count(f + [b], r) <= if r < (if b.phi.Some? then n + 1 else n) then 1 else 0 {
      CountNew(f, b, r);
      assert Count(f, r) <= if r < n then 1 else 0;
    }
  }

  lemma SingleOpen(f: seq<Block>, ins: nat, head: nat, n: nat)
    requires Single(f, n) && ins < |f|
    ensures Single(OpenLoop(f, ins, head, n), n + 1)
  {
    var test := Block(Some(Phi(n, [Incoming(ins, head)])), [], None);
    SingleClose(f, ins, Br(|f|), n);
    SingleNew(Close(f, ins, Br(|f|)), test, n);
    SingleNew(Close(f, ins, Br(|f|)) + [test], NEWBLOCK, n + 1);
    assert OpenLoop(f, ins, head, n) == Close(f, ins, Br(|f|)) + [test] + [NEWBLOCK];
  }

  lemma SingleTest(f: seq<Block>, test: nat, b: Block, code: seq<Instr>, n: nat, m: nat)
    requires Single(f, n) && test < |f| && f[test].body == [] && n <= m && Takes(code, n, m)
    requires b.body == code && PhiDef(b) == PhiDef(f[test])
    ensures Single(f[test := b], m)
  {
    var g := f[test := b];
    forall r: nat ensures Count(g, r) <= if r < m then 1 else 0 {
      assert Count(f, r) <= (if r < n then 1 else 0) && CodeCount(code, r) <= if n <= r < m then 1 else 0;
      CountUpdate(f, test, b, r);
    }
  }

  lemma SingleClosed(f: seq<Block>, ins: nat, head: nat, test: nat, body: nat, n: nat)
    requires Single(f, n) && ins < |f| && test < |f| && ins != test && f[test].phi.Some? && f[test].body == []
    ensures Single(CloseLoop(f, ins, head, test, body, n, n + 1, n + 2), n + 3)
  {
    var phi := f[test].phi.value;
    var code := [Load(n, phi.dst), IsZero(n + 1, n)];
    var b := Block(Some(phi.(incoming := phi.incoming + [Incoming(ins, head)])), code, Some(CondBr(n + 1, |f|, body)));
    SingleClose(f, ins, Br(test), n);
    TakesTwo(code[0], code[1], n);
    SingleTest(Close(f, ins, Br(test)), test, b, code, n, n + 2);
    SingleNew(Close(f, ins, Br(test))[test := b], Block(Some(Phi(n + 2, [Incoming(test, phi.dst)])), [], None), n + 2);
  }

  /** The array, its end, and the first head. */
  lemma SingleHeader(cfg: Config, f: seq<Block>)
    requires f == [Block(None, HeaderCode(cfg), None), Block(None, [Free(ARR)], Some(Ret))] +
      if cfg.bounds then [Block(None, [Puts], Some(Br(ENDBB)))] else []
    ensures Single(f, FIRSTHEAD + 1)
  {
    HeaderTakes(cfg);
    TakesOne(Free(ARR), 0, 0);
    TakesOne(Puts, 0, 0);
    forall r: nat ensures Count(f, r) <= if r < FIRSTHEAD + 1 then 1 else 0 {
      assert CodeCount(HeaderCode(cfg), r) <= if r < FIRSTHEAD + 1 then 1 else 0;
      assert CodeCount([Free(ARR)], r) == 0 == CodeCount([Puts], r);
      CountNew([], f[0], r);
      CountNew([f[0]], f[1], r);
      assert [] + [f[0]] == [f[0]] && [f[0]] + [f[1]] == f[..2];
      if cfg.bounds { CountNew(f[..2], f[2], r); }
    }
  }

  lemma HeaderTakes(cfg: Config)
    ensures Takes(HeaderCode(cfg), 0, FIRSTHEAD + 1)
  {
    var a, b, c, d := Malloc(ARR, cfg.mem), Memset(ARR, cfg.mem), Gep(ARRMAX, ARR, cfg.mem),
      Gep(FIRSTHEAD, ARR, cfg.mem / 2);
    TakesOne(a, 0, 1);
    TakesOne(b, 1, 1);
    TakesOne(c, 1, 2);
    TakesOne(d, 2, 3);
    TakesOn([a], [b], 0, 1, 1);
    if cfg.bounds {
      TakesOn([a] + [b], [c], 0, 1, 2);
      TakesOn([a] + [b] + [c], [d], 0, 2, 3);
      assert HeaderCode(cfg) == [a] + [b] + [c] + [d];
    } else {
      TakesOn([a] + [b], [], 0, 1, 2);
      assert [a] + [b] + [] == [a] + [b];
      TakesOn([a] + [b], [d], 0, 2, 3);
      assert HeaderCode(cfg) == [a] + [b] + [d];
    }
  }
}
