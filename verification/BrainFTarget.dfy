/** The SSA code that the compiler emits, and a machine that runs it. Phi nodes are resolved
    by the edge taken. Registers are numbers; a pointer is an offset from the start of the
    allocated array. */
module BrainFTarget {
  import opened BrainFSource

  datatype Option<+T> = None | Some(value: T)

  datatype Value = Ptr(off: int) | I32(n: int) | I8(byte: Byte) | I1(bit: bool)

  datatype Instr =
    | Malloc(dst: nat, size: nat)
    | Memset(ptr: nat, len: nat)
    | Gep(dst: nat, base: nat, k: int)
    | GetChar(dst: nat)
    | Trunc(dst: nat, src: nat)
    | Store(src: nat, ptr: nat)
    | Load(dst: nat, ptr: nat)
    | SExt(dst: nat, src: nat)
    | PutChar(src: nat)
    | Add(dst: nat, src: nat, k: int)
    | IcmpUge(dst: nat, l: nat, r: nat)
    | IcmpUlt(dst: nat, l: nat, r: nat)
    | Or(dst: nat, l: nat, r: nat)
    | IsZero(dst: nat, src: nat)
    | Puts
    | Free(ptr: nat)

  datatype Terminator = Br(target: nat) | CondBr(cond: nat, yes: nat, no: nat) | Ret

  datatype Incoming = Incoming(block: nat, reg: nat)

  datatype Phi = Phi(dst: nat, incoming: seq<Incoming>)

  datatype Block = Block(phi: Option<Phi>, body: seq<Instr>, term: Option<Terminator>)

  datatype MStatus = Going | Returned | Stuck

  /** The one array of a program: it is allocated once, and freed once. */
  datatype Alloc = Unallocated | Live(size: nat) | Freed

  datatype Machine = Machine(blk: nat, idx: nat, env: map<int, Value>, tape: Tape, alloc: Alloc, input: seq<Byte>,
                             output: seq<Byte>, status: MStatus)

  function Lookup(incoming: seq<Incoming>, b: nat): Option<nat> {
    if incoming == [] then None
    else if incoming[0].block == b then Some(incoming[0].reg)
    else Lookup(incoming[1..], b)
  }

  function Clear(t: Tape, from: int, len: nat): Tape {
    map i | i in t && !(from <= i < from + len) :: t[i]
  }

  predicate IsPtr(m: Machine, r: nat) { r in m.env && m.env[r].Ptr? }

  predicate IsI32(m: Machine, r: nat) { r in m.env && m.env[r].I32? }

  predicate IsI8(m: Machine, r: nat) { r in m.env && m.env[r].I8? }

  predicate IsI1(m: Machine, r: nat) { r in m.env && m.env[r].I1? }

  /** The `len` cells from `from` on lie in the array, and it has not been freed. */
  predicate InArray(m: Machine, from: int, len: nat) {
    m.alloc.Live? && 0 <= from && from + len <= m.alloc.size
  }

  /** The register points to a cell of the array. */
  predicate IsCell(m: Machine, r: nat) { IsPtr(m, r) && InArray(m, m.env[r].off, 1) }

  function Fail(m: Machine): Machine { m.(status := Stuck) }

  function Def(m: Machine, dst: nat, v: Value): Machine { m.(env := m.env[dst := v], idx := m.idx + 1) }

  function Exec(i: Instr, m: Machine): Machine {
    match i
    case Malloc(dst, size) =>
      if m.alloc == Unallocated then Def(m, dst, Ptr(0)).(alloc := Live(size)) else Fail(m)
    case Memset(p, len) =>
      if IsPtr(m, p) && InArray(m, m.env[p].off, len)
      then m.(tape := Clear(m.tape, m.env[p].off, len), idx := m.idx + 1)
      else Fail(m)
    case Gep(dst, base, k) =>
      if IsPtr(m, base) then Def(m, dst, Ptr(m.env[base].off + k)) else Fail(m)
    case GetChar(dst) =>
      if m.input == [] then Def(m, dst, I32(-1))
      else Def(m, dst, I32(m.input[0])).(input := m.input[1..])
    case Trunc(dst, src) =>
      if IsI32(m, src) then Def(m, dst, I8(m.env[src].n % 256)) else Fail(m)
    case Store(src, p) =>
      if IsI8(m, src) && IsCell(m, p) then m.(tape := m.tape[m.env[p].off := m.env[src].byte], idx := m.idx + 1)
      else Fail(m)
    case Load(dst, p) =>
      if IsCell(m, p) then Def(m, dst, I8(Cell(m.tape, m.env[p].off))) else Fail(m)
    case SExt(dst, src) =>
      if IsI8(m, src) then
        var b := m.env[src].byte;
        Def(m, dst, I32(if b < 128 then b else b - 256))
      else Fail(m)
    case PutChar(src) =>
      if IsI32(m, src) then m.(output := m.output + [m.env[src].n % 256], idx := m.idx + 1) else Fail(m)
    case Add(dst, src, k) =>
      if IsI8(m, src) then Def(m, dst, I8((m.env[src].byte + k) % 256)) else Fail(m)
    case IcmpUge(dst, l, r) =>
      if IsPtr(m, l) && IsPtr(m, r) then Def(m, dst, I1(m.env[l].off >= m.env[r].off)) else Fail(m)
    case IcmpUlt(dst, l, r) =>
      if IsPtr(m, l) && IsPtr(m, r) then Def(m, dst, I1(m.env[l].off < m.env[r].off)) else Fail(m)
    case Or(dst, l, r) =>
      if IsI1(m, l) && IsI1(m, r) then Def(m, dst, I1(m.env[l].bit || m.env[r].bit)) else Fail(m)
    case IsZero(dst, src) =>
      if IsI8(m, src) then Def(m, dst, I1(m.env[src].byte == 0)) else Fail(m)
    case Puts => m.(output := m.output + ErrorText(), idx := m.idx + 1)
    case Free(p) =>
      if IsPtr(m, p) && m.alloc.Live? && m.env[p].off == 0 then m.(alloc := Freed, idx := m.idx + 1) else Fail(m)
  }

  /** Takes the edge from the current block to `b`. */
  function Jump(f: seq<Block>, m: Machine, b: nat): Machine {
    if b >= |f| then Fail(m)
    else
      match f[b].phi
      case None => m.(blk := b, idx := 0)
      case Some(Phi(dst, incoming)) =>
        match Lookup(incoming, m.blk)
        case None => Fail(m)
        case Some(r) =>
          if r in m.env then m.(blk := b, idx := 0, env := m.env[dst := m.env[r]]) else Fail(m)
  }

  function Terminate(f: seq<Block>, t: Terminator, m: Machine): Machine {
    match t
    case Br(b) => Jump(f, m, b)
    case CondBr(c, yes, no) =>
      if IsI1(m, c) then Jump(f, m, if m.env[c].bit then yes else no) else Fail(m)
    case Ret => m.(status := Returned)
  }

  function MStep(f: seq<Block>, m: Machine): Machine {
    if m.status != Going then m
    else if m.blk >= |f| then Fail(m)
    else
      var b := f[m.blk];
      if m.idx < |b.body| then Exec(b.body[m.idx], m)
      else if m.idx == |b.body| && b.term.Some? then Terminate(f, b.term.value, m)
      else Fail(m)
  }

  function MRun(f: seq<Block>, m: Machine, n: nat): Machine
    decreases n
  {
    if n == 0 then m else MRun(f, MStep(f, m), n - 1)
  }

  function Boot(tape: Tape, input: seq<Byte>): Machine {
    Machine(0, 0, map[], tape, Unallocated, input, [], Going)
  }

  // ----- runs -----

  lemma {:induction false} MRunSplit(f: seq<Block>, m: Machine, a: nat, b: nat)
    ensures MRun(f, m, a + b) == MRun(f, MRun(f, m, a), b)
    decreases a
  {
    if a != 0 { MRunSplit(f, MStep(f, m), a - 1, b); }
  }

  lemma {:induction false} HaltedStays(f: seq<Block>, m: Machine, n: nat)
    requires m.status != Going
    ensures MRun(f, m, n) == m
    decreases n
  {
    if n != 0 { HaltedStays(f, m, n - 1); }
  }

  /** One step of the machine may write something, and takes nothing back. */
  lemma JumpKeepsOutput(f: seq<Block>, m: Machine, b: nat)
    ensures Jump(f, m, b).output == m.output
  {
  }

  lemma ExecGrows(i: Instr, m: Machine)
    ensures m.output <= Exec(i, m).output
  {
  }

  lemma StepGrows(f: seq<Block>, m: Machine)
    ensures m.output <= MStep(f, m).output
  {
    if m.status == Going && m.blk < |f| {
      var b := f[m.blk];
      if m.idx < |b.body| {
        ExecGrows(b.body[m.idx], m);
      } else if m.idx == |b.body| && b.term.Some? {
        match b.term.value
        case Br(to) => JumpKeepsOutput(f, m, to);
        case CondBr(c, yes, no) =>
          JumpKeepsOutput(f, m, yes);
          JumpKeepsOutput(f, m, no);
        case Ret =>
      }
    }
  }

  lemma {:induction false} TracesGrow(f: seq<Block>, m: Machine, n: nat)
    ensures m.output <= MRun(f, m, n).output
    decreases n
  {
    if n != 0 {
      StepGrows(f, m);
      TracesGrow(f, MStep(f, m), n - 1);
    }
  }
}
