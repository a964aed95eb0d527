/** The symbols the compiler reads the text in, and what the source machine does while it
    crosses the stretch of text that one symbol covers. */
module BrainFTokens {
  import opened BrainFSource

  datatype Symbol = SymNone | SymRead | SymWrite | SymMove | SymChange | SymLoop | SymEndLoop | SymEof

  ghost predicate Comments(text: string, a: nat, b: nat)
    requires b <= |text|
  {
    forall k :: a <= k < b ==> !IsSignificant(text[k])
  }

  predicate InRun(sym: Symbol, c: char) {
    (sym == SymMove && IsMove(c)) || (sym == SymChange && IsChange(c))
  }

  /** The sum of the directions of the run's characters in text[a..b]. */
  function RunSum(sym: Symbol, text: string, a: nat, b: nat): int
    requires a <= b <= |text|
    decreases b
  {
    if a == b then 0 else RunSum(sym, text, a, b - 1) + (if InRun(sym, text[b - 1]) then Delta(text[b - 1]) else 0)
  }

  ghost predicate OnlyRun(sym: Symbol, text: string, a: nat, b: nat)
    requires b <= |text|
  {
    forall k :: a <= k < b ==> InRun(sym, text[k]) || !IsSignificant(text[k])
  }

  ghost predicate HasRun(sym: Symbol, text: string, a: nat, b: nat)
    requires b <= |text|
  {
    exists k :: a <= k < b && InRun(sym, text[k])
  }

  function CharOf(sym: Symbol): char {
    match sym
    case SymRead => ',' case SymWrite => '.' case SymLoop => '[' case SymEndLoop => ']' case _ => ' '
  }

  predicate IsSingle(sym: Symbol) { sym.SymRead? || sym.SymWrite? || sym.SymLoop? || sym.SymEndLoop? }

  /** text[a..b] is exactly one symbol: a single command with the comments before it, a whole
      maximal run of moves or changes adding up to `value`, or the comments before the end. */
  ghost predicate IsToken(text: string, a: nat, sym: Symbol, value: int, b: nat) {
    a <= b <= |text| &&
    if sym.SymEof? then b == |text| && Comments(text, a, b)
    else if IsSingle(sym) then a < b && Comments(text, a, b - 1) && text[b - 1] == CharOf(sym)
    else
      !sym.SymNone? && OnlyRun(sym, text, a, b) && HasRun(sym, text, a, b) &&
      value == RunSum(sym, text, a, b) &&
      (b == |text| || (IsSignificant(text[b]) && !InRun(sym, text[b])))
  }

  lemma {:induction false} RunSumFront(sym: Symbol, text: string, a: nat, b: nat)
    requires a < b <= |text|
    ensures RunSum(sym, text, a, b)
         == (if InRun(sym, text[a]) then Delta(text[a]) else 0) + RunSum(sym, text, a + 1, b)
    decreases b
  {
    if a + 1 < b { RunSumFront(sym, text, a, b - 1); }
  }

  lemma {:induction false} NoRunNoSum(sym: Symbol, text: string, a: nat, b: nat)
    requires a <= b <= |text| && !HasRun(sym, text, a, b)
    ensures RunSum(sym, text, a, b) == 0
    decreases b
  {
    if a < b {
      assert !InRun(sym, text[b - 1]);
      NoRunNoSum(sym, text, a, b - 1);
    }
  }

  // ----- crossing a stretch of text -----

  lemma {:induction false} CrossComments(text: string, cfg: Config, s: State, b: nat)
    requires s.status == Running && s.pc <= b <= |text| && Comments(text, s.pc, b)
    ensures Run(text, cfg, s, b - s.pc) == s.(pc := b)
    decreases b - s.pc
  {
    if s.pc < b {
      assert !IsSignificant(text[s.pc]);
      CrossComments(text, cfg, s.(pc := s.pc + 1), b);
    }
  }

  /** What a stretch of changes leaves on the tape: one write of the sum. */
  function Changed(s: State, sum: int): Tape {
    s.tape[s.head := (Cell(s.tape, s.head) + sum) % 256]
  }

  lemma ChangeTwice(s: State, d: int, sum: int)
    ensures Changed(s.(tape := Changed(s, d)), sum) == Changed(s, d + sum)
  {
    assert ((Cell(s.tape, s.head) + d) % 256 + sum) % 256 == (Cell(s.tape, s.head) + d + sum) % 256;
    var v := (Cell(s.tape, s.head) + d) % 256;
    assert s.tape[s.head := v][s.head := (v + sum) % 256] == s.tape[s.head := (v + sum) % 256];
  }

  lemma {:induction false} CrossChanges(text: string, cfg: Config, s: State, b: nat)
    requires s.status == Running && s.pc <= b <= |text|
    requires OnlyRun(SymChange, text, s.pc, b) && HasRun(SymChange, text, s.pc, b)
    ensures var r := Run(text, cfg, s, b - s.pc);
      if InCells(cfg, s.head) then r == s.(pc := b, tape := Changed(s, RunSum(SymChange, text, s.pc, b)))
      else r == s.(pc := r.pc, status := Lost)
    decreases b - s.pc, 1
  {
    var a := s.pc;
    assert InRun(SymChange, text[a]) || !IsSignificant(text[a]);
    RunSumFront(SymChange, text, a, b);
    if InRun(SymChange, text[a]) {
      CrossChange(text, cfg, s, b);
    } else {
      CrossChanges(text, cfg, s.(pc := a + 1), b);
    }
  }

  lemma {:induction false} CrossChange(text: string, cfg: Config, s: State, b: nat)
    requires s.status == Running && s.pc < b <= |text|
    requires OnlyRun(SymChange, text, s.pc, b) && InRun(SymChange, text[s.pc])
    ensures var r := Run(text, cfg, s, b - s.pc);
      if InCells(cfg, s.head) then r == s.(pc := b, tape := Changed(s, RunSum(SymChange, text, s.pc, b)))
      else r == s.(pc := r.pc, status := Lost)
    decreases b - s.pc, 0
  {
    var a := s.pc;
    if !InCells(cfg, s.head) {
      StoppedStays(text, cfg, s.(status := Lost), b - a - 1);
      return;
    }
    var s' := s.(pc := a + 1, tape := Changed(s, Delta(text[a])));
    assert Step(text, cfg, s) == s';
    RunSumFront(SymChange, text, a, b);
    if HasRun(SymChange, text, a + 1, b) {
      CrossChanges(text, cfg, s', b);
      ChangeTwice(s.(pc := a + 1), Delta(text[a]), RunSum(SymChange, text, a + 1, b));
    } else {
      NoRunNoSum(SymChange, text, a + 1, b);
      assert forall k :: a < k < b ==> !InRun(SymChange, text[k]);
      CrossComments(text, cfg, s', b);
    }
  }

  lemma {:induction false} RunEnds(text: string, a: nat, b: nat)
    requires a <= b <= |text| && OnlyRun(SymMove, text, a, b)
    requires b == |text| || (IsSignificant(text[b]) && !IsMove(text[b]))
    ensures EndsRun(text, a) <==> !HasRun(SymMove, text, a, b)
    decreases b - a
  {
    if a < b {
      RunEnds(text, a + 1, b);
      assert InRun(SymMove, text[a]) || !IsSignificant(text[a]);
      if HasRun(SymMove, text, a, b) && !InRun(SymMove, text[a]) {
        assert HasRun(SymMove, text, a + 1, b);
      }
    }
  }

  /** A run of moves is checked once, where it ends. */
  lemma {:induction false} CrossMoves(text: string, cfg: Config, s: State, b: nat)
    requires s.status == Running && s.pc <= b <= |text|
    requires OnlyRun(SymMove, text, s.pc, b) && HasRun(SymMove, text, s.pc, b)
    requires b == |text| || (IsSignificant(text[b]) && !IsMove(text[b]))
    ensures
      var head := s.head + RunSum(SymMove, text, s.pc, b);
      var r := Run(text, cfg, s, b - s.pc);
      if OnTape(cfg, head) then r == s.(pc := b, head := head)
      else r == s.(pc := r.pc, head := head, status := LeftTape, output := s.output + ErrorText())
    decreases b - s.pc
  {
    var a := s.pc;
    var s' := Step(text, cfg, s);
    MoveStep(text, cfg, s, b);
    if HasRun(SymMove, text, a + 1, b) {
      CrossMoves(text, cfg, s', b);
    } else {
      NoRunNoSum(SymMove, text, a + 1, b);
      assert forall k :: a < k < b ==> !InRun(SymMove, text[k]);
      AfterLastMove(text, cfg, s', b);
    }
  }

  lemma MoveStep(text: string, cfg: Config, s: State, b: nat)
    requires s.status == Running && s.pc < b <= |text|
    requires OnlyRun(SymMove, text, s.pc, b) && HasRun(SymMove, text, s.pc, b)
    requires b == |text| || (IsSignificant(text[b]) && !IsMove(text[b]))
    ensures var s', d := Step(text, cfg, s), RunSum(SymMove, text, s.pc, b) - RunSum(SymMove, text, s.pc + 1, b);
      if HasRun(SymMove, text, s.pc + 1, b) || OnTape(cfg, s.head + d) then s' == s.(pc := s.pc + 1, head := s.head + d)
      else s' == s.(pc := s'.pc, head := s.head + d, status := LeftTape, output := s.output + ErrorText())
    ensures Step(text, cfg, s).pc <= b
  {
    assert InRun(SymMove, text[s.pc]) || !IsSignificant(text[s.pc]);
    RunSumFront(SymMove, text, s.pc, b);
    RunEnds(text, s.pc + 1, b);
  }

  /** Only comments follow, if the last move did not leave the tape. */
  lemma AfterLastMove(text: string, cfg: Config, s: State, b: nat)
    requires s.pc <= b <= |text| && Comments(text, s.pc, b) && (s.status == Running || s.status == LeftTape)
    ensures Run(text, cfg, s, b - s.pc) == if s.status == Running then s.(pc := b) else s
  {
    if s.status == Running {
      CrossComments(text, cfg, s, b);
    } else {
      StoppedStays(text, cfg, s, b - s.pc);
    }
  }

  // ----- crossing a single command -----

  /** A single command is the last character of its symbol. */
  lemma CrossSingle(text: string, cfg: Config, s: State, sym: Symbol, value: int, b: nat)
    requires s.status == Running && IsToken(text, s.pc, sym, value, b) && IsSingle(sym)
    ensures Run(text, cfg, s, b - s.pc) == Step(text, cfg, s.(pc := b - 1))
  {
    CrossComments(text, cfg, s, b - 1);
    RunSplit(text, cfg, s, b - 1 - s.pc, 1);
    assert Run(text, cfg, s.(pc := b - 1), 1) == Step(text, cfg, s.(pc := b - 1));
  }

  lemma CrossRead(text: string, cfg: Config, s: State, value: int, b: nat)
    requires s.status == Running && IsToken(text, s.pc, SymRead, value, b)
    ensures Run(text, cfg, s, b - s.pc) ==
      if !InCells(cfg, s.head) then s.(pc := b - 1, status := Lost)
      else if s.input == [] then s.(pc := b, tape := s.tape[s.head := 255])
      else s.(pc := b, tape := s.tape[s.head := s.input[0]], input := s.input[1..])
  {
    CrossSingle(text, cfg, s, SymRead, value, b);
  }

  lemma CrossWrite(text: string, cfg: Config, s: State, value: int, b: nat)
    requires s.status == Running && IsToken(text, s.pc, SymWrite, value, b)
    ensures Run(text, cfg, s, b - s.pc) ==
      if !InCells(cfg, s.head) then s.(pc := b - 1, status := Lost)
      else s.(pc := b, output := s.output + [Cell(s.tape, s.head)])
  {
    CrossSingle(text, cfg, s, SymWrite, value, b);
  }

  lemma CrossOpen(text: string, cfg: Config, s: State, value: int, b: nat)
    requires s.status == Running && IsToken(text, s.pc, SymLoop, value, b)
    ensures Run(text, cfg, s, b - s.pc) ==
      if !InCells(cfg, s.head) then s.(pc := b - 1, status := Lost)
      else s.(pc := if Cell(s.tape, s.head) == 0 then CloseOf(text, b - 1) + 1 else b)
  {
    CrossSingle(text, cfg, s, SymLoop, value, b);
  }

  /** At the ']' of a loop the cell is tested once more: with 0 the loop is left, otherwise its
      body starts again. */
  lemma CrossClose(text: string, cfg: Config, s: State, value: int, b: nat) returns (n: nat)
    requires s.status == Running && IsToken(text, s.pc, SymEndLoop, value, b)
    requires var open := OpenOf(text, b - 1); text[open] == '[' && CloseOf(text, open) == b - 1
    ensures n > 0
    ensures Run(text, cfg, s, n) ==
      if !InCells(cfg, s.head) then s.(pc := b - 1, status := Lost)
      else s.(pc := if Cell(s.tape, s.head) == 0 then b else OpenOf(text, b - 1) + 1)
  {
    CrossSingle(text, cfg, s, SymEndLoop, value, b);
    n := b - s.pc;
    if InCells(cfg, s.head) && Cell(s.tape, s.head) != 0 {
      var back := s.(pc := OpenOf(text, b - 1));
      RunSplit(text, cfg, s, n, 1);
      assert Run(text, cfg, back, 1) == Step(text, cfg, back);
      n := n + 1;
    }
  }
}
