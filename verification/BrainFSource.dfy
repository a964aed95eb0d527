/** The BrainF language, as a machine that runs over the program text one character at a time.
    Nothing here knows about symbols, runs or blocks: this is the meaning that the compiler
    has to preserve. */
module BrainFSource {

  type Byte = x: int | 0 <= x < 256

  /** The tape reaches in both directions; a cell that was never written holds 0. */
  type Tape = map<int, Byte>

  function Cell(t: Tape, i: int): Byte {
    if i in t then t[i] else 0
  }

  /** `mem` is the number of cells the compiled program allocates; `bounds` is the
      array-bounds flag. */
  datatype Config = Config(mem: nat, bounds: bool)

  /** A program that uses a cell outside the array means nothing: it is `Lost`. */
  datatype Status = Running | Finished | LeftTape | Lost

  datatype State = State(pc: nat, head: int, tape: Tape, input: seq<Byte>, output: seq<Byte>, status: Status)

  predicate IsMove(c: char) { c == '<' || c == '>' }

  predicate IsChange(c: char) { c == '+' || c == '-' }

  predicate IsSignificant(c: char) {
    IsMove(c) || IsChange(c) || c == ',' || c == '.' || c == '[' || c == ']'
  }

  function Delta(c: char): int {
    if c == '>' || c == '+' then 1 else if c == '<' || c == '-' then -1 else 0
  }

  /** Number of '[' minus number of ']' among the first `k` characters. */
  function Height(text: string, k: nat): int
    requires k <= |text|
  {
    if k == 0 then 0
    else Height(text, k - 1) + (if text[k - 1] == '[' then 1 else if text[k - 1] == ']' then -1 else 0)
  }

  ghost predicate Balanced(text: string) {
    Height(text, |text|) == 0 && forall k :: 0 <= k <= |text| ==> Height(text, k) >= 0
  }

  /** The first position from `k` on whose character brings the height back to `level`. */
  function CloseFrom(text: string, k: nat, level: int): (q: nat)
    requires k <= |text|
    ensures k <= q <= |text|
    decreases |text| - k
  {
    if k == |text| then k else if Height(text, k + 1) == level then k else CloseFrom(text, k + 1, level)
  }

  /** The last position before `k` at which the height is `level`. */
  function OpenFrom(text: string, k: nat, level: int): (o: nat)
    requires k <= |text|
    ensures o <= k
  {
    if k == 0 then 0 else if Height(text, k - 1) == level then k - 1 else OpenFrom(text, k - 1, level)
  }

  /** The ']' that closes the '[' at `o`. */
  function CloseOf(text: string, o: nat): nat
    requires o < |text|
  {
    CloseFrom(text, o + 1, Height(text, o))
  }

  /** The '[' that the ']' at `q` closes. */
  function OpenOf(text: string, q: nat): nat
    requires q < |text|
  {
    OpenFrom(text, q, Height(text, q + 1))
  }

  /** No further move follows before the next other command: a run of moves ends here. */
  predicate EndsRun(text: string, k: nat)
    requires k <= |text|
    decreases |text| - k
  {
    k == |text| || (!IsMove(text[k]) && (IsSignificant(text[k]) || EndsRun(text, k + 1)))
  }

  function Bytes(s: string): (r: seq<Byte>) {
    seq(|s|, i requires 0 <= i < |s| => s[i] as int % 256)
  }

  /** What `puts` writes when the head has left the tape. */
  function ErrorText(): seq<Byte> {
    Bytes("Error: The head has left the tape.\n")
  }

  /** The head is at a cell of the array. */
  predicate InCells(cfg: Config, head: int) {
    0 <= head < cfg.mem
  }

  /** The command uses the cell at the head. */
  predicate IsAccess(c: char) {
    IsSignificant(c) && !IsMove(c)
  }

  predicate OnTape(cfg: Config, head: int) {
    cfg.bounds ==> InCells(cfg, head)
  }

  /** One character. With bounds checking, a run of moves must end on the tape. */
  function Step(text: string, cfg: Config, s: State): State {
    if s.status != Running || s.pc > |text| then s
    else if s.pc == |text| then s.(status := Finished)
    else
      var c := text[s.pc];
      var here := Cell(s.tape, s.head);
      var next := s.(pc := s.pc + 1);
      if IsAccess(c) && !InCells(cfg, s.head) then s.(status := Lost)
      else if IsChange(c) then
        next.(tape := s.tape[s.head := (here + Delta(c)) % 256])
      else if IsMove(c) then
        var moved := next.(head := s.head + Delta(c));
        if EndsRun(text, s.pc + 1) && !OnTape(cfg, moved.head)
        then moved.(status := LeftTape, output := s.output + ErrorText())
        else moved
      else if c == ',' then
        if s.input == [] then next.(tape := s.tape[s.head := 255])
        else next.(tape := s.tape[s.head := s.input[0]], input := s.input[1..])
      else if c == '.' then
        next.(output := s.output + [here])
      else if c == '[' then
        if here == 0 then s.(pc := CloseOf(text, s.pc) + 1) else next
      else if c == ']' then
        if here == 0 then next else s.(pc := OpenOf(text, s.pc))
      else next
  }

  function Run(text: string, cfg: Config, s: State, n: nat): State
    decreases n
  {
    if n == 0 then s else Run(text, cfg, Step(text, cfg, s), n - 1)
  }

  function Start(cfg: Config, tape: Tape, input: seq<Byte>): State {
    State(0, cfg.mem / 2, tape, input, [], Running)
  }

  // ----- runs -----

  lemma {:induction false} RunSplit(text: string, cfg: Config, s: State, a: nat, b: nat)
    ensures Run(text, cfg, s, a + b) == Run(text, cfg, Run(text, cfg, s, a), b)
    decreases a
  {
    if a != 0 {
      RunSplit(text, cfg, Step(text, cfg, s), a - 1, b);
    }
  }

  lemma {:induction false} StoppedStays(text: string, cfg: Config, s: State, n: nat)
    requires s.status != Running
    ensures Run(text, cfg, s, n) == s
    decreases n
  {
    if n != 0 { StoppedStays(text, cfg, s, n - 1); }
  }

  lemma {:induction false} OutputGrows(text: string, cfg: Config, s: State, n: nat)
    ensures s.output <= Run(text, cfg, s, n).output
    decreases n
  {
    if n != 0 { OutputGrows(text, cfg, Step(text, cfg, s), n - 1); }
  }

  // ----- programs that stay on the tape -----

  /** With bounds checking the head can be off the tape only within a run of moves. */
  predicate Checked(text: string, cfg: Config, s: State) {
    s.status != Lost && (s.status == Running && s.pc <= |text| && !OnTape(cfg, s.head) ==> !EndsRun(text, s.pc))
  }

  lemma StepChecked(text: string, cfg: Config, s: State)
    requires cfg.bounds && Checked(text, cfg, s)
    ensures Checked(text, cfg, Step(text, cfg, s))
  {
  }

  /** So a program whose bounds are checked is never lost. */
  lemma {:induction false} NeverLost(text: string, cfg: Config, s: State, n: nat)
    requires cfg.bounds && Checked(text, cfg, s)
    ensures Checked(text, cfg, Run(text, cfg, s, n))
    decreases n
  {
    if n != 0 {
      StepChecked(text, cfg, s);
      NeverLost(text, cfg, Step(text, cfg, s), n - 1);
    }
  }
}
