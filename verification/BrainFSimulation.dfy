/** Laid-out code and source text run in step: from one symbol to the next, whatever the
    source machine does to tape, head, input and output, the generated code does too. */
module BrainFSimulation {
  import opened BrainFSource
  import opened BrainFTarget
  import opened BrainFTokens
  import opened BrainFLayout

  ghost predicate SameWorld(s: State, m: Machine) {
    m.tape == s.tape && m.input == s.input && m.output == s.output
  }

  ghost predicate AtHead(cfg: Config, s: State, m: Machine, h: nat) {
    m.alloc == Live(cfg.mem) && h in m.env && m.env[h] == Ptr(s.head) &&
    ARR in m.env && m.env[ARR] == Ptr(0) &&
    (cfg.bounds ==> ARRMAX in m.env && m.env[ARRMAX] == Ptr(cfg.mem))
  }

  /** The two machines stand at the same symbol in the same situation. */
  ghost predicate Related(cfg: Config, pts: Points, s: State, m: Machine) {
    s.status == Running && m.status == Going && s.pc in pts && SameWorld(s, m) &&
    var pt := pts[s.pc];
    m.blk == pt.blk && m.idx == pt.idx && AtHead(cfg, s, m, pt.head)
  }

  /** The text has come to its end, or has been stopped by the bounds check. */
  predicate Ended(s: State) { s.status == Finished || s.status == LeftTape }

  /** Both have stopped: the code has freed the array and returned, or got stuck where the text is lost. */
  ghost predicate BothStopped(s: State, m: Machine) {
    m.tape == s.tape && m.output == s.output &&
    ((Ended(s) && m.status == Returned && m.alloc == Freed) || (s.status == Lost && m.status == Stuck))
  }

  ghost predicate InStep(cfg: Config, pts: Points, s: State, m: Machine) {
    Related(cfg, pts, s, m) || BothStopped(s, m)
  }

  // ----- straight-line code -----

  /** One step more in front of a run. */
  lemma Before(f: seq<Block>, m: Machine, m1: Machine, m2: Machine, b1: nat) returns (b: nat)
    requires m1 == MStep(f, m) && MRun(f, m1, b1) == m2
    ensures b > 0 && MRun(f, m, b) == m2
  {
    b := b1 + 1;
  }

  lemma Three(f: seq<Block>, m: Machine, m1: Machine, m2: Machine, m3: Machine) returns (b: nat)
    requires m1 == MStep(f, m) && m2 == MStep(f, m1) && m3 == MStep(f, m2)
    ensures b > 0 && MRun(f, m, b) == m3
  {
    b := Before(f, m2, m3, m3, 0);
    b := Before(f, m1, m2, m3, b);
    b := Before(f, m, m1, m3, b);
  }

  /** Three instructions in a row. */
  lemma Exec3(f: seq<Block>, m: Machine, m1: Machine, m2: Machine, m3: Machine) returns (b: nat)
    requires m.status == Going && m.blk < |f| && m.idx + 3 <= |f[m.blk].body|
    requires m1 == Exec(f[m.blk].body[m.idx], m) && m1.status == Going && m1.blk == m.blk && m1.idx == m.idx + 1
    requires m2 == Exec(f[m.blk].body[m.idx + 1], m1) && m2.status == Going && m2.blk == m.blk && m2.idx == m.idx + 2
    requires m3 == Exec(f[m.blk].body[m.idx + 2], m2)
    ensures b > 0 && MRun(f, m, b) == m3
  {
    b := Three(f, m, m1, m2, m3);
  }

  lemma ExecRead(cfg: Config, f: seq<Block>, s: State, m: Machine, h: nat) returns (b: nat, m3: Machine)
    requires m.status == Going && m.blk < |f| && ReadCode(f[m.blk].body, m.idx, h)
    requires SameWorld(s, m) && AtHead(cfg, s, m, h) && InCells(cfg, s.head)
    ensures b > 0 && MRun(f, m, b) == m3
    ensures m3.status == Going && m3.blk == m.blk && m3.idx == m.idx + 3 && AtHead(cfg, s, m3, h)
    ensures m3.output == s.output
    ensures m3.tape == s.tape[s.head := if s.input == [] then 255 else s.input[0]]
    ensures m3.input == (if s.input == [] then [] else s.input[1..])
  {
    var c := f[m.blk].body;
    var t, u := c[m.idx].dst, c[m.idx + 1].dst;
    var m1 := Exec(GetChar(t), m);
    var m2 := Exec(Trunc(u, t), m1);
    m3 := Exec(Store(u, h), m2);
    b := Exec3(f, m, m1, m2, m3);
  }

  lemma ExecWrite(cfg: Config, f: seq<Block>, s: State, m: Machine, h: nat) returns (b: nat, m3: Machine)
    requires m.status == Going && m.blk < |f| && WriteCode(f[m.blk].body, m.idx, h)
    requires SameWorld(s, m) && AtHead(cfg, s, m, h) && InCells(cfg, s.head)
    ensures b > 0 && MRun(f, m, b) == m3
    ensures m3.status == Going && m3.blk == m.blk && m3.idx == m.idx + 3 && AtHead(cfg, s, m3, h)
    ensures m3.output == s.output + [Cell(s.tape, s.head)] && m3.tape == s.tape && m3.input == s.input
  {
    var c := f[m.blk].body;
    var t, u := c[m.idx].dst, c[m.idx + 1].dst;
    var m1 := Exec(Load(t, h), m);
    var m2 := Exec(SExt(u, t), m1);
    m3 := Exec(PutChar(u), m2);
    b := Exec3(f, m, m1, m2, m3);
  }

  lemma ExecChange(cfg: Config, f: seq<Block>, s: State, m: Machine, h: nat, k: int) returns (b: nat, m3: Machine)
    requires m.status == Going && m.blk < |f| && ChangeCode(f[m.blk].body, m.idx, h, k)
    requires SameWorld(s, m) && AtHead(cfg, s, m, h) && InCells(cfg, s.head)
    ensures b > 0 && MRun(f, m, b) == m3
    ensures m3.status == Going && m3.blk == m.blk && m3.idx == m.idx + 3 && AtHead(cfg, s, m3, h)
    ensures m3.output == s.output && m3.tape == Changed(s, k) && m3.input == s.input
  {
    var c := f[m.blk].body;
    var t, u := c[m.idx].dst, c[m.idx + 1].dst;
    var m1, m2;
    m1, m2, m3 := ChangeStored(cfg, s, m, h, k, t, u);
    b := Exec3(f, m, m1, m2, m3);
  }

  lemma ChangeStored(cfg: Config, s: State, m: Machine, h: nat, k: int, t: nat, u: nat)
    returns (m1: Machine, m2: Machine, m3: Machine)
    requires m.status == Going && Apart(t, h) && Apart(u, h)
    requires SameWorld(s, m) && AtHead(cfg, s, m, h) && InCells(cfg, s.head)
    ensures m1 == Exec(Load(t, h), m) && m1.status == Going && m1.blk == m.blk && m1.idx == m.idx + 1
    ensures m2 == Exec(Add(u, t, k), m1) && m2.status == Going && m2.blk == m.blk && m2.idx == m.idx + 2
    ensures m3 == Exec(Store(u, h), m2)
    ensures m3.status == Going && m3.blk == m.blk && m3.idx == m.idx + 3 && AtHead(cfg, s, m3, h)
    ensures m3.output == s.output && m3.tape == Changed(s, k) && m3.input == s.input
  {
    var x := Cell(s.tape, s.head);
    m1 := Def(m, t, I8(x));
    m2 := Def(m1, u, I8((x + k) % 256));
    m3 := Exec(Store(u, h), m2);
  }

  // ----- off the array -----

  /** A load off the array gets stuck. */
  lemma LoadFails(cfg: Config, f: seq<Block>, s: State, m: Machine, h: nat) returns (b: nat)
    requires m.status == Going && m.blk < |f| && m.idx < |f[m.blk].body| && AtHead(cfg, s, m, h)
    requires var i := f[m.blk].body[m.idx]; i.Load? && i.ptr == h
    requires !InCells(cfg, s.head)
    ensures b > 0 && MRun(f, m, b) == m.(status := Stuck)
  {
    b := Before(f, m, MStep(f, m), MStep(f, m), 0);
  }

  /** So does reading a character there, once it is to be stored. */
  lemma ReadFails(cfg: Config, f: seq<Block>, s: State, m: Machine, h: nat) returns (b: nat, m3: Machine)
    requires m.status == Going && m.blk < |f| && ReadCode(f[m.blk].body, m.idx, h)
    requires AtHead(cfg, s, m, h) && !InCells(cfg, s.head)
    ensures b > 0 && MRun(f, m, b) == m3 && m3.status == Stuck && m3.tape == m.tape && m3.output == m.output
  {
    var c := f[m.blk].body;
    var t, u := c[m.idx].dst, c[m.idx + 1].dst;
    var m1 := Exec(GetChar(t), m);
    var m2 := Exec(Trunc(u, t), m1);
    m3 := Exec(Store(u, h), m2);
    b := Exec3(f, m, m1, m2, m3);
  }

  lemma Read(text: string, cfg: Config, f: seq<Block>, pts: Points, s: State, m: Machine, tok: Token)
    returns (a: nat, b: nat)
    requires Related(cfg, pts, s, m) && IsToken(text, s.pc, tok.sym, tok.value, tok.next) && tok.sym == SymRead
    requires var pt := pts[s.pc];
      pt.blk < |f| && ReadCode(f[pt.blk].body, pt.idx, pt.head) && tok.next in pts &&
        pts[tok.next] == pt.(idx := pt.idx + 3)
    ensures a > 0 && b > 0 && InStep(cfg, pts, Run(text, cfg, s, a), MRun(f, m, b))
  {
    a := tok.next - s.pc;
    CrossRead(text, cfg, s, tok.value, tok.next);
    var m';
    if InCells(cfg, s.head) {
      b, m' := ExecRead(cfg, f, s, m, pts[s.pc].head);
    } else {
      b, m' := ReadFails(cfg, f, s, m, pts[s.pc].head);
    }
  }

  lemma Write(text: string, cfg: Config, f: seq<Block>, pts: Points, s: State, m: Machine, tok: Token)
    returns (a: nat, b: nat)
    requires Related(cfg, pts, s, m) && IsToken(text, s.pc, tok.sym, tok.value, tok.next) && tok.sym == SymWrite
    requires var pt := pts[s.pc];
      pt.blk < |f| && WriteCode(f[pt.blk].body, pt.idx, pt.head) && tok.next in pts &&
        pts[tok.next] == pt.(idx := pt.idx + 3)
    ensures a > 0 && b > 0 && InStep(cfg, pts, Run(text, cfg, s, a), MRun(f, m, b))
  {
    a := tok.next - s.pc;
    CrossWrite(text, cfg, s, tok.value, tok.next);
    if InCells(cfg, s.head) {
      var m';
      b, m' := ExecWrite(cfg, f, s, m, pts[s.pc].head);
    } else {
      b := LoadFails(cfg, f, s, m, pts[s.pc].head);
    }
  }

  lemma Change(text: string, cfg: Config, f: seq<Block>, pts: Points, s: State, m: Machine, tok: Token)
    returns (a: nat, b: nat)
    requires Related(cfg, pts, s, m) && IsToken(text, s.pc, tok.sym, tok.value, tok.next) && tok.sym == SymChange
    requires var pt := pts[s.pc];
      pt.blk < |f| && ChangeCode(f[pt.blk].body, pt.idx, pt.head, tok.value) && tok.next in pts &&
        pts[tok.next] == pt.(idx := pt.idx + 3)
    ensures a > 0 && b > 0 && InStep(cfg, pts, Run(text, cfg, s, a), MRun(f, m, b))
  {
    a := tok.next - s.pc;
    CrossChanges(text, cfg, s, tok.next);
    if InCells(cfg, s.head) {
      var m';
      b, m' := ExecChange(cfg, f, s, m, pts[s.pc].head, tok.value);
    } else {
      b := LoadFails(cfg, f, s, m, pts[s.pc].head);
    }
  }

  lemma Move(text: string, cfg: Config, f: seq<Block>, pts: Points, s: State, m: Machine, tok: Token)
    returns (a: nat, b: nat)
    requires FrameLaid(cfg, f, pts)
    requires Related(cfg, pts, s, m) && Laid(text, cfg, f, pts, s.pc, tok) && tok.sym == SymMove
    ensures a > 0 && b > 0 && InStep(cfg, pts, Run(text, cfg, s, a), MRun(f, m, b))
  {
    a := tok.next - s.pc;
    CrossMoves(text, cfg, s, tok.next);
    if cfg.bounds {
      b := CheckedMove(cfg, f, pts, s, m, tok.value, tok.next, Run(text, cfg, s, a));
    } else {
      b := Before(f, m, MStep(f, m), MStep(f, m), 0);
    }
  }

  /** The comparisons tell whether the new head is off the array. */
  lemma ExecCheck(cfg: Config, f: seq<Block>, s: State, m: Machine, h: nat) returns (b: nat, m3: Machine)
    requires m.status == Going && m.blk < |f| && cfg.bounds && CheckCode(f[m.blk].body, m.idx, h)
    requires SameWorld(s, m) && AtHead(cfg, s, m, h)
    ensures b > 0 && MRun(f, m, b) == m3
    ensures m3 == m.(env := m3.env, idx := m.idx + 3) && AtHead(cfg, s, m3, h)
    ensures var r := f[m.blk].body[m.idx + 2].dst;
      r in m3.env && m3.env[r] == I1(!OnTape(cfg, s.head))
  {
    var c := f[m.blk].body;
    var t, u, v := c[m.idx].dst, c[m.idx + 1].dst, c[m.idx + 2].dst;
    var m1 := Def(m, t, I1(s.head >= cfg.mem));
    assert m1 == Exec(IcmpUge(t, h, ARRMAX), m);
    var m2 := Def(m1, u, I1(s.head < 0));
    assert m2 == Exec(IcmpUlt(u, h, ARR), m1);
    m3 := Def(m2, v, I1(s.head >= cfg.mem || s.head < 0));
    assert m3 == Exec(Or(v, t, u), m2);
    b := Exec3(f, m, m1, m2, m3);
  }

  lemma ExecCheckedMove(cfg: Config, f: seq<Block>, s: State, m: Machine, h: nat, k: int) returns (b: nat, m4: Machine)
    requires m.status == Going && m.blk < |f| && cfg.bounds
    requires var c := f[m.blk].body;
      MoveCode(c, m.idx, h, k) && CheckCode(c, m.idx + 1, c[m.idx].dst)
    requires SameWorld(s, m) && AtHead(cfg, s, m, h)
    ensures b > 0 && MRun(f, m, b) == m4
    ensures m4 == m.(env := m4.env, idx := m.idx + 4)
    ensures AtHead(cfg, s.(head := s.head + k), m4, f[m.blk].body[m.idx].dst)
    ensures var r := f[m.blk].body[m.idx + 3].dst;
      r in m4.env && m4.env[r] == I1(!OnTape(cfg, s.head + k))
  {
    var h1 := f[m.blk].body[m.idx].dst;
    var m1 := Exec(Gep(h1, h, k), m);
    b, m4 := ExecCheck(cfg, f, s.(head := s.head + k), m1, h1);
    b := Before(f, m, m1, m4, b);
  }

  /** The return block frees the array and returns. */
  lemma Exit(cfg: Config, f: seq<Block>, pts: Points, m: Machine) returns (b: nat, m': Machine)
    requires FrameLaid(cfg, f, pts)
    requires m.status == Going && m.blk == ENDBB && m.idx == 0 && ARR in m.env && m.env[ARR] == Ptr(0) && m.alloc.Live?
    ensures b > 0 && MRun(f, m, b) == m' && m' == m.(status := Returned, idx := 1, alloc := Freed)
  {
    var m1 := m.(idx := 1, alloc := Freed);
    m' := MStep(f, m1);
    b := Before(f, m1, m', m', 0);
    b := Before(f, m, m1, m', b);
  }

  /** The error block reports and goes to the return block. */
  lemma ErrorExit(cfg: Config, f: seq<Block>, pts: Points, m: Machine) returns (b: nat, m': Machine)
    requires FrameLaid(cfg, f, pts) && cfg.bounds
    requires m.status == Going && m.blk == ABERRORBB && m.idx == 0 && ARR in m.env && m.env[ARR] == Ptr(0) &&
      m.alloc.Live?
    ensures b > 0 && MRun(f, m, b) == m'
    ensures m' == m.(status := Returned, blk := ENDBB, idx := 1, output := m.output + ErrorText(), alloc := Freed)
  {
    var m1 := MStep(f, m);
    var m2 := MStep(f, m1);
    assert m2 == m.(blk := ENDBB, idx := 0, output := m.output + ErrorText());
    b, m' := Exit(cfg, f, pts, m2);
    b := Before(f, m1, m2, m', b);
    b := Before(f, m, m1, m', b);
  }

  lemma CheckedMove(cfg: Config, f: seq<Block>, pts: Points, s: State, m: Machine, k: int, next: nat, s': State)
    returns (b: nat)
    requires FrameLaid(cfg, f, pts) && cfg.bounds
    requires Related(cfg, pts, s, m) && pts[s.pc].blk < |f| && MoveLaid(cfg, f, pts, pts[s.pc], k, next)
    requires var head := s.head + k;
      if OnTape(cfg, head) then s' == s.(pc := next, head := head)
      else s' == s.(pc := s'.pc, head := head, status := LeftTape, output := s.output + ErrorText())
    ensures b > 0 && InStep(cfg, pts, s', MRun(f, m, b))
  {
    var b4, m4 := ExecCheckedMove(cfg, f, s, m, pts[s.pc].head, k);
    var m5 := MStep(f, m4);
    var b5 := Before(f, m4, m5, m5, 0);
    if OnTape(cfg, s.head + k) {
      assert Related(cfg, pts, s', m5);
    } else {
      var m';
      b5, m' := ErrorExit(cfg, f, pts, m5);
      b5 := Before(f, m4, m5, m', b5);
    }
    MRunSplit(f, m, b4, b5);
    b := b4 + b5;
  }

  lemma End(text: string, cfg: Config, f: seq<Block>, pts: Points, s: State, m: Machine, tok: Token)
    returns (a: nat, b: nat)
    requires FrameLaid(cfg, f, pts)
    requires Related(cfg, pts, s, m) && Laid(text, cfg, f, pts, s.pc, tok) && tok.sym == SymEof
    ensures a > 0 && b > 0 && InStep(cfg, pts, Run(text, cfg, s, a), MRun(f, m, b))
  {
    a := tok.next - s.pc + 1;
    CrossComments(text, cfg, s, tok.next);
    RunSplit(text, cfg, s, a - 1, 1);
    var m1 := MStep(f, m);
    var m';
    b, m' := Exit(cfg, f, pts, m1);
    b := Before(f, m, m1, m', b);
  }

  // ----- loops -----

  /** The phi of the loop test takes the head along the edge to it. */
  lemma EnterTest(text: string, cfg: Config, f: seq<Block>, pts: Points, s: State, m: Machine, open: nat, test: nat,
                  h: nat)
    requires Related(cfg, pts, s, m) && pts[s.pc].blk < |f| && LoopLaid(text, f, pts, pts[s.pc], open)
    requires test == f[pts[s.pc].blk].term.value.target && h == f[test].phi.value.dst
    ensures AtTest(cfg, s, MStep(f, m), test, h)
  {
  }

  /** At the first instruction of a loop test, with the head in h. */
  ghost predicate AtTest(cfg: Config, s: State, m: Machine, test: nat, h: nat) {
    m.status == Going && m.blk == test && m.idx == 0 && SameWorld(s, m) && AtHead(cfg, s, m, h)
  }

  lemma LeaveTest(text: string, cfg: Config, f: seq<Block>, pts: Points, s: State, m: Machine, open: nat, test: nat,
                  s': State) returns (b: nat)
    requires TestLaid(text, f, pts, test, open) && AtTest(cfg, s, m, test, f[test].phi.value.dst)
    requires s.status == Running && InCells(cfg, s.head)
    requires s' == s.(pc := if Cell(s.tape, s.head) == 0 then CloseOf(text, open) + 1 else open + 1)
    ensures Related(cfg, pts, s', MRun(f, m, b))
  {
    var h := f[test].phi.value.dst;
    var m2 := MStep(f, m);
    var m3 := MStep(f, m2);
    assert AtHead(cfg, s, m3, h) && m3.idx == 2;
    var m4 := MStep(f, m3);
    b := Three(f, m, m2, m3, m4);
    if Cell(s.tape, s.head) == 0 {
      assert Lookup([Incoming(test, h)], test) == Some(h);
    }
  }

  /** From the end of a block that branches to the loop test, the code gets to the body when the cell is not zero,
      behind the loop when it is, and nowhere when there is no such cell. */
  lemma Test(text: string, cfg: Config, f: seq<Block>, pts: Points, s: State, m: Machine, open: nat, s': State)
    returns (b: nat)
    requires Related(cfg, pts, s, m) && pts[s.pc].blk < |f| && LoopLaid(text, f, pts, pts[s.pc], open)
    requires if !InCells(cfg, s.head) then s' == s.(pc := s'.pc, status := Lost)
      else s' == s.(pc := if Cell(s.tape, s.head) == 0 then CloseOf(text, open) + 1 else open + 1)
    ensures b > 0 && InStep(cfg, pts, s', MRun(f, m, b))
  {
    var test := f[pts[s.pc].blk].term.value.target;
    EnterTest(text, cfg, f, pts, s, m, open, test, f[test].phi.value.dst);
    var m1 := MStep(f, m);
    if InCells(cfg, s.head) {
      b := LeaveTest(text, cfg, f, pts, s, m1, open, test, s');
    } else {
      b := LoadFails(cfg, f, s, m1, f[test].phi.value.dst);
    }
    b := Before(f, m, m1, MRun(f, m1, b), b);
  }

  lemma Loop(text: string, cfg: Config, f: seq<Block>, pts: Points, s: State, m: Machine, tok: Token)
    returns (a: nat, b: nat)
    requires Related(cfg, pts, s, m) && Laid(text, cfg, f, pts, s.pc, tok) && tok.sym == SymLoop
    ensures a > 0 && b > 0 && InStep(cfg, pts, Run(text, cfg, s, a), MRun(f, m, b))
  {
    a := tok.next - s.pc;
    CrossOpen(text, cfg, s, tok.value, tok.next);
    b := Test(text, cfg, f, pts, s, m, tok.next - 1, Run(text, cfg, s, a));
  }

  lemma EndLoop(text: string, cfg: Config, f: seq<Block>, pts: Points, s: State, m: Machine, tok: Token)
    returns (a: nat, b: nat)
    requires Related(cfg, pts, s, m) && Laid(text, cfg, f, pts, s.pc, tok) && tok.sym == SymEndLoop
    ensures a > 0 && b > 0 && InStep(cfg, pts, Run(text, cfg, s, a), MRun(f, m, b))
  {
    a := CrossClose(text, cfg, s, tok.value, tok.next);
    b := Test(text, cfg, f, pts, s, m, OpenOf(text, tok.next - 1), Run(text, cfg, s, a));
  }

  // ----- whole runs -----

  lemma OneSymbol(text: string, cfg: Config, f: seq<Block>, pts: Points, toks: Tokens, s: State, m: Machine)
    returns (a: nat, b: nat)
    requires Compiled(text, cfg, f, pts, toks) && Related(cfg, pts, s, m)
    ensures a > 0 && b > 0 && InStep(cfg, pts, Run(text, cfg, s, a), MRun(f, m, b))
  {
    var tok := toks[s.pc];
    assert Laid(text, cfg, f, pts, s.pc, tok);
    match tok.sym
    case SymRead => a, b := Read(text, cfg, f, pts, s, m, tok);
    case SymWrite => a, b := Write(text, cfg, f, pts, s, m, tok);
    case SymMove => a, b := Move(text, cfg, f, pts, s, m, tok);
    case SymChange => a, b := Change(text, cfg, f, pts, s, m, tok);
    case SymLoop => a, b := Loop(text, cfg, f, pts, s, m, tok);
    case SymEndLoop => a, b := EndLoop(text, cfg, f, pts, s, m, tok);
    case SymEof => a, b := End(text, cfg, f, pts, s, m, tok);
  }

  lemma StayStopped(text: string, cfg: Config, f: seq<Block>, pts: Points, s: State, m: Machine, n: nat)
    requires BothStopped(s, m)
    ensures InStep(cfg, pts, Run(text, cfg, s, n), MRun(f, m, n))
  {
    StoppedStays(text, cfg, s, n);
    HaltedStays(f, m, n);
  }

  lemma Join(text: string, cfg: Config, f: seq<Block>, pts: Points, s: State, m: Machine, a1: nat, b1: nat, s1: State,
             m1: Machine, a2: nat, b2: nat)
    requires s1 == Run(text, cfg, s, a1) && m1 == MRun(f, m, b1)
    requires InStep(cfg, pts, Run(text, cfg, s1, a2), MRun(f, m1, b2))
    ensures InStep(cfg, pts, Run(text, cfg, s, a1 + a2), MRun(f, m, b1 + b2))
  {
    RunSplit(text, cfg, s, a1, a2);
    MRunSplit(f, m, b1, b2);
  }

  /** The two machines meet again after at least one step each. */
  ghost predicate MeetAgain(text: string, cfg: Config, f: seq<Block>, pts: Points, s: State, m: Machine) {
    exists a: nat, b: nat :: a > 0 && b > 0 && InStep(cfg, pts, Run(text, cfg, s, a), MRun(f, m, b))
  }

  ghost predicate Simulates(text: string, cfg: Config, f: seq<Block>, pts: Points) {
    forall s, m {:trigger MeetAgain(text, cfg, f, pts, s, m)} ::
      Related(cfg, pts, s, m) ==> MeetAgain(text, cfg, f, pts, s, m)
  }

  lemma CompiledSimulates(text: string, cfg: Config, f: seq<Block>, pts: Points, toks: Tokens)
    requires Compiled(text, cfg, f, pts, toks)
    ensures Simulates(text, cfg, f, pts)
  {
    forall s, m | Related(cfg, pts, s, m)
      ensures MeetAgain(text, cfg, f, pts, s, m)
    {
      var a, b := OneSymbol(text, cfg, f, pts, toks, s, m);
    }
  }

  lemma NextMeeting(text: string, cfg: Config, f: seq<Block>, pts: Points, s: State, m: Machine)
    returns (a: nat, b: nat, s': State, m': Machine)
    requires MeetAgain(text, cfg, f, pts, s, m)
    ensures a > 0 && b > 0 && s' == Run(text, cfg, s, a) && m' == MRun(f, m, b) && InStep(cfg, pts, s', m')
  {
    a, b :| a > 0 && b > 0 && InStep(cfg, pts, Run(text, cfg, s, a), MRun(f, m, b));
    s', m' := Run(text, cfg, s, a), MRun(f, m, b);
  }

  /** Beyond any number of steps the two machines meet again. */
  lemma {:induction false} Meet(text: string, cfg: Config, f: seq<Block>, pts: Points, s: State, m: Machine, n: nat)
    returns (a: nat, b: nat)
    requires Simulates(text, cfg, f, pts) && InStep(cfg, pts, s, m)
    ensures a >= n && b >= n && InStep(cfg, pts, Run(text, cfg, s, a), MRun(f, m, b))
    decreases n
  {
    if BothStopped(s, m) {
      a, b := n, n;
      StayStopped(text, cfg, f, pts, s, m, n);
    } else if n == 0 {
      a, b := 0, 0;
    } else {
      var a1, b1, s1, m1 := NextMeeting(text, cfg, f, pts, s, m);
      var a2, b2 := Meet(text, cfg, f, pts, s1, m1, n - 1);
      a, b := a1 + a2, b1 + b2;
      Join(text, cfg, f, pts, s, m, a1, b1, s1, m1, a2, b2);
    }
  }

  /** The code in front of the first symbol allocates and clears the tape. */
  lemma Header(cfg: Config, f: seq<Block>, pts: Points, tape: Tape, input: seq<Byte>) returns (b: nat)
    requires FrameLaid(cfg, f, pts)
    ensures Related(cfg, pts, Start(cfg, Clear(tape, 0, cfg.mem), input), MRun(f, Boot(tape, input), b))
  {
    var m := Boot(tape, input);
    var c := HeaderCode(cfg);
    assert forall i :: 0 <= i < |c| ==> f[0].body[i] == c[i];
    var m1 := MStep(f, m);
    var m2 := MStep(f, m1);
    var m3 := MStep(f, m2);
    b := Three(f, m, m1, m2, m3);
    if cfg.bounds {
      var m4 := MStep(f, m3);
      b := Three(f, m1, m2, m3, m4);
      b := Before(f, m, m1, m4, b);
    }
  }

  /** All that the source ever writes, the code writes. */
  ghost predicate WritesAll(text: string, cfg: Config, f: seq<Block>, s: State, m: Machine) {
    forall n: nat :: exists k: nat :: Run(text, cfg, s, n).output <= MRun(f, m, k).output
  }

  /** All that the code ever writes, the source writes. */
  ghost predicate WritesOnly(text: string, cfg: Config, f: seq<Block>, s: State, m: Machine) {
    forall k: nat :: exists n: nat :: MRun(f, m, k).output <= Run(text, cfg, s, n).output
  }

  /** One comes to an end iff the other does. */
  ghost predicate StopTogether(text: string, cfg: Config, f: seq<Block>, s: State, m: Machine) {
    (exists n: nat :: Ended(Run(text, cfg, s, n))) <==> (exists k: nat :: MRun(f, m, k).status == Returned)
  }

  /** The code gets stuck iff the text is lost: every register is defined where it is used, with a value of the right
      kind, every phi has an entry for the edge taken, the array is allocated before it is used and not used or freed
      again when it is freed, and it is left only where the text leaves it. */
  ghost predicate StuckTogether(text: string, cfg: Config, f: seq<Block>, s: State, m: Machine) {
    (exists n: nat :: Run(text, cfg, s, n).status == Lost) <==> (exists k: nat :: MRun(f, m, k).status == Stuck)
  }

  /** Once both have come to an end, they show the same tape and the same output, and the array has been freed. */
  ghost predicate SameEnd(text: string, cfg: Config, f: seq<Block>, s: State, m: Machine) {
    forall n: nat, k: nat :: Ended(Run(text, cfg, s, n)) && MRun(f, m, k).status == Returned ==>
      EndsSame(Run(text, cfg, s, n), MRun(f, m, k))
  }

  ghost predicate EndsSame(s: State, m: Machine) {
    m.tape == s.tape && m.output == s.output && m.alloc == Freed
  }

  ghost predicate SameBehaviour(text: string, cfg: Config, f: seq<Block>, s: State, m: Machine) {
    WritesAll(text, cfg, f, s, m) && WritesOnly(text, cfg, f, s, m) &&
    StopTogether(text, cfg, f, s, m) && StuckTogether(text, cfg, f, s, m) && SameEnd(text, cfg, f, s, m)
  }

  /** No run of the code ever gets stuck. */
  ghost predicate NeverStuck(f: seq<Block>, m: Machine) {
    forall k: nat :: MRun(f, m, k).status != Stuck
  }

  lemma SourceGoesOn(text: string, cfg: Config, s: State, n: nat, a: nat)
    requires n <= a
    ensures Run(text, cfg, s, n).output <= Run(text, cfg, s, a).output
    ensures Run(text, cfg, s, n).status != Running ==> Run(text, cfg, s, a) == Run(text, cfg, s, n)
  {
    RunSplit(text, cfg, s, n, a - n);
    var sn := Run(text, cfg, s, n);
    OutputGrows(text, cfg, sn, a - n);
    if sn.status != Running { StoppedStays(text, cfg, sn, a - n); }
  }

  lemma CodeGoesOn(f: seq<Block>, m: Machine, k: nat, b: nat)
    requires k <= b
    ensures MRun(f, m, k).output <= MRun(f, m, b).output
    ensures MRun(f, m, k).status != Going ==> MRun(f, m, b) == MRun(f, m, k)
  {
    MRunSplit(f, m, k, b - k);
    var mk := MRun(f, m, k);
    TracesGrow(f, mk, b - k);
    if mk.status != Going { HaltedStays(f, mk, b - k); }
  }

  /** A meeting point beyond `n` steps of the source and `k` steps of the code. */
  lemma MeetBeyond(text: string, cfg: Config, f: seq<Block>, pts: Points, s: State, m: Machine, b0: nat, n: nat, k: nat)
    returns (a: nat, b: nat)
    requires Simulates(text, cfg, f, pts) && Related(cfg, pts, s, MRun(f, m, b0))
    ensures n <= a && k <= b && InStep(cfg, pts, Run(text, cfg, s, a), MRun(f, m, b))
  {
    var b1;
    a, b1 := Meet(text, cfg, f, pts, s, MRun(f, m, b0), n + k);
    b := b0 + b1;
    MRunSplit(f, m, b0, b1);
  }

  lemma SourceShown(text: string, cfg: Config, f: seq<Block>, pts: Points, s: State, m: Machine, b0: nat, n: nat)
    returns (k: nat)
    requires Simulates(text, cfg, f, pts) && Related(cfg, pts, s, MRun(f, m, b0))
    ensures Run(text, cfg, s, n).output <= MRun(f, m, k).output
    ensures Ended(Run(text, cfg, s, n)) ==> MRun(f, m, k).status == Returned
    ensures Run(text, cfg, s, n).status == Lost ==> MRun(f, m, k).status == Stuck
  {
    var a;
    a, k := MeetBeyond(text, cfg, f, pts, s, m, b0, n, 0);
    SourceGoesOn(text, cfg, s, n, a);
  }

  lemma CodeShown(text: string, cfg: Config, f: seq<Block>, pts: Points, s: State, m: Machine, b0: nat, k: nat)
    returns (n: nat)
    requires Simulates(text, cfg, f, pts) && Related(cfg, pts, s, MRun(f, m, b0))
    ensures MRun(f, m, k).output <= Run(text, cfg, s, n).output
    ensures MRun(f, m, k).status == Returned ==> Ended(Run(text, cfg, s, n))
    ensures MRun(f, m, k).status == Stuck ==> Run(text, cfg, s, n).status == Lost
  {
    var b;
    n, b := MeetBeyond(text, cfg, f, pts, s, m, b0, 0, k);
    CodeGoesOn(f, m, k, b);
  }

  lemma EndsAlike(text: string, cfg: Config, f: seq<Block>, pts: Points, s: State, m: Machine, b0: nat, n: nat, k: nat)
    requires Simulates(text, cfg, f, pts) && Related(cfg, pts, s, MRun(f, m, b0))
    requires Ended(Run(text, cfg, s, n)) && MRun(f, m, k).status == Returned
    ensures EndsSame(Run(text, cfg, s, n), MRun(f, m, k))
  {
    var a, b := MeetBeyond(text, cfg, f, pts, s, m, b0, n, k);
    SourceGoesOn(text, cfg, s, n, a);
    CodeGoesOn(f, m, k, b);
  }

  lemma OutputAgrees(text: string, cfg: Config, f: seq<Block>, pts: Points, s: State, m: Machine, b0: nat)
    requires Simulates(text, cfg, f, pts) && Related(cfg, pts, s, MRun(f, m, b0))
    ensures WritesAll(text, cfg, f, s, m)
  {
    forall n: nat
      ensures exists k: nat :: Run(text, cfg, s, n).output <= MRun(f, m, k).output
    {
      var k := SourceShown(text, cfg, f, pts, s, m, b0, n);
    }
  }

  lemma NoOtherOutput(text: string, cfg: Config, f: seq<Block>, pts: Points, s: State, m: Machine, b0: nat)
    requires Simulates(text, cfg, f, pts) && Related(cfg, pts, s, MRun(f, m, b0))
    ensures WritesOnly(text, cfg, f, s, m)
  {
    forall k: nat
      ensures exists n: nat :: MRun(f, m, k).output <= Run(text, cfg, s, n).output
    {
      var n := CodeShown(text, cfg, f, pts, s, m, b0, k);
    }
  }

  lemma StopsAgree(text: string, cfg: Config, f: seq<Block>, pts: Points, s: State, m: Machine, b0: nat)
    requires Simulates(text, cfg, f, pts) && Related(cfg, pts, s, MRun(f, m, b0))
    ensures StopTogether(text, cfg, f, s, m)
  {
    if n: nat :| Ended(Run(text, cfg, s, n)) {
      var k := SourceShown(text, cfg, f, pts, s, m, b0, n);
    }
    if k: nat :| MRun(f, m, k).status == Returned {
      var n := CodeShown(text, cfg, f, pts, s, m, b0, k);
    }
  }

  lemma EndsAgree(text: string, cfg: Config, f: seq<Block>, pts: Points, s: State, m: Machine, b0: nat)
    requires Simulates(text, cfg, f, pts) && Related(cfg, pts, s, MRun(f, m, b0))
    ensures SameEnd(text, cfg, f, s, m)
  {
    forall n: nat, k: nat | Ended(Run(text, cfg, s, n)) && MRun(f, m, k).status == Returned
      ensures EndsSame(Run(text, cfg, s, n), MRun(f, m, k))
    {
      EndsAlike(text, cfg, f, pts, s, m, b0, n, k);
    }
  }

  lemma StuckAgree(text: string, cfg: Config, f: seq<Block>, pts: Points, s: State, m: Machine, b0: nat)
    requires Simulates(text, cfg, f, pts) && Related(cfg, pts, s, MRun(f, m, b0))
    ensures StuckTogether(text, cfg, f, s, m)
  {
    if n: nat :| Run(text, cfg, s, n).status == Lost {
      var k := SourceShown(text, cfg, f, pts, s, m, b0, n);
    }
    if k: nat :| MRun(f, m, k).status == Stuck {
      var n := CodeShown(text, cfg, f, pts, s, m, b0, k);
    }
  }

  lemma SimulationPreserves(text: string, cfg: Config, f: seq<Block>, pts: Points, s: State, m: Machine, b0: nat)
    requires Simulates(text, cfg, f, pts) && Related(cfg, pts, s, MRun(f, m, b0))
    ensures SameBehaviour(text, cfg, f, s, m)
  {
    OutputAgrees(text, cfg, f, pts, s, m, b0);
    NoOtherOutput(text, cfg, f, pts, s, m, b0);
    StopsAgree(text, cfg, f, pts, s, m, b0);
    StuckAgree(text, cfg, f, pts, s, m, b0);
    EndsAgree(text, cfg, f, pts, s, m, b0);
  }

  /** With bounds checking, a run that starts on the tape never gets stuck: it uses only cells of the array, and only
      between its allocation and its being freed. */
  lemma SafeAlways(text: string, cfg: Config, f: seq<Block>, s: State, m: Machine)
    requires StuckTogether(text, cfg, f, s, m) && cfg.bounds && s.status == Running && InCells(cfg, s.head)
    ensures NeverStuck(f, m)
  {
    forall k: nat
      ensures MRun(f, m, k).status != Stuck
    {
      if MRun(f, m, k).status == Stuck {
        var n: nat :| Run(text, cfg, s, n).status == Lost;
        NeverLost(text, cfg, s, n);
      }
    }
  }
}
