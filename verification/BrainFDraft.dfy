/** A half-built function as a value, and what each of the compiler's steps makes of it. */
module BrainFDraft {
  import opened BrainFSource
  import opened BrainFTarget
  import opened BrainFTokens
  import opened BrainFLayout
  import opened BrainFSSA
  import opened BrainFBuild
  import opened BrainFDefinitions
  import opened BrainFAssignments

  datatype Draft = Draft(blocks: seq<Block>, insert: nat, head: nat, next: nat, points: Points, toks: Tokens)

  /** What holds between two symbols: everything so far is laid out and linked, only defined registers are used,
      and no register is assigned twice. */
  ghost predicate Sound(text: string, cfg: Config, d: Draft, at: nat, tests: set<nat>, opens: set<nat>) {
    exists live {:trigger InScope(cfg, d.blocks, d.insert, d.head, live)} ::
      && Good(text, cfg, d.blocks, d.insert, d.head, d.next, d.points, d.toks, at, tests, opens)
      && Single(d.blocks, d.next)
      && InScope(cfg, d.blocks, d.insert, d.head, live) && TestsLive(cfg, d.blocks, live, tests)
  }

  lemma Parts(text: string, cfg: Config, d: Draft, at: nat, tests: set<nat>, opens: set<nat>)
    requires Sound(text, cfg, d, at, tests, opens)
    ensures Good(text, cfg, d.blocks, d.insert, d.head, d.next, d.points, d.toks, at, tests, opens)
    ensures Single(d.blocks, d.next) && Scoped(cfg, d.blocks, d.insert, d.head, tests)
  {
  }

  lemma Whole(text: string, cfg: Config, d: Draft, at: nat, tests: set<nat>, opens: set<nat>)
    requires Good(text, cfg, d.blocks, d.insert, d.head, d.next, d.points, d.toks, at, tests, opens)
    requires Single(d.blocks, d.next) && Scoped(cfg, d.blocks, d.insert, d.head, tests)
    ensures Sound(text, cfg, d, at, tests, opens)
  {
  }

  lemma Inserting(text: string, cfg: Config, d: Draft, at: nat, tests: set<nat>, opens: set<nat>)
    requires Sound(text, cfg, d, at, tests, opens)
    ensures d.insert < |d.blocks| && d.insert !in tests && |d.blocks| !in tests
  {
  }

  /** Finished code stays as it is, and registers are only taken. */
  ghost predicate Follows(d: Draft, e: Draft, tests: set<nat>) {
    Extends(d.blocks, e.blocks, d.insert, e.insert, d.points, e.points, tests) && d.next <= e.next
  }

  lemma FollowsOn(d: Draft, e: Draft, f: Draft, tests: set<nat>)
    requires Follows(d, e, tests) && Follows(e, f, tests)
    ensures Follows(d, f, tests)
  {
    ExtendsOn(d.blocks, e.blocks, f.blocks, d.insert, e.insert, f.insert, d.points, e.points, f.points, tests);
  }

  lemma FollowsSelf(text: string, cfg: Config, d: Draft, at: nat, tests: set<nat>, opens: set<nat>)
    requires Sound(text, cfg, d, at, tests, opens)
    ensures Follows(d, d, tests)
  {
    Parts(text, cfg, d, at, tests, opens);
  }

  /** The loop opened at `op` waits for its ']'. */
  ghost predicate Waits(text: string, d: Draft, op: nat, tok: Token, test: nat, body: nat) {
    Waiting(text, d.blocks, d.points, op, tok, test, body) && d.blocks[test].phi.value.dst < d.next
  }

  lemma StillWaits(text: string, cfg: Config, d: Draft, at: nat, tests: set<nat>, opens: set<nat>, e: Draft, op: nat,
                   tok: Token, test: nat, body: nat)
    requires Sound(text, cfg, d, at, tests, opens) && Follows(d, e, tests) && test in tests
    requires Waits(text, d, op, tok, test, body)
    ensures Waits(text, e, op, tok, test, body)
  {
    WaitingKept(text, d.blocks, e.blocks, d.points, e.points, d.insert, op, tok, test, body);
  }

  // ----- the steps -----

  /** Straight-line code for one symbol that leaves the head where it is. */
  function Written(d: Draft, at: nat, tok: Token, code: seq<Instr>): Draft
    requires d.insert < |d.blocks|
  {
    d.(blocks := Append(d.blocks, d.insert, code), next := d.next + 2,
       points := d.points[tok.next := Point(d.insert, |d.blocks[d.insert].body| + |code|, d.head)],
       toks := d.toks[at := tok])
  }

  predicate IsSimple(tok: Token, code: seq<Instr>, head: nat, n: nat) {
    (tok.sym == SymRead && code == [GetChar(n), Trunc(n + 1, n), Store(n + 1, head)]) ||
    (tok.sym == SymWrite && code == [Load(n, head), SExt(n + 1, n), PutChar(n + 1)]) ||
    (tok.sym == SymChange && code == [Load(n, head), Add(n + 1, n, tok.value), Store(n + 1, head)])
  }

  lemma SimpleEmitted(text: string, cfg: Config, d: Draft, at: nat, tests: set<nat>, opens: set<nat>, tok: Token,
                      code: seq<Instr>)
    requires Sound(text, cfg, d, at, tests, opens) && d.insert < |d.blocks|
    requires IsToken(text, at, tok.sym, tok.value, tok.next) && IsSimple(tok, code, d.head, d.next)
    ensures Sound(text, cfg, Written(d, at, tok, code), tok.next, tests, opens)
    ensures Follows(d, Written(d, at, tok, code), tests)
  {
    var f, e := d.blocks, Written(d, at, tok, code);
    Parts(text, cfg, d, at, tests, opens);
    LaidSimple(text, cfg, f, d.insert, d.head, d.next, d.points, at, code, tok, e.points);
    Appended(text, cfg, f, d.insert, d.head, d.next, d.points, d.toks, at, tests, opens, code, tok, d.head, e.next,
             e.blocks, e.points);
    SimpleOk(tok, code, d.head, d.next, Base(cfg) + {d.head});
    ScopedAppend(cfg, f, d.insert, d.head, tests, code, d.head, e.blocks);
    SingleAppend(f, d.insert, code, d.next, e.next);
    Whole(text, cfg, e, tok.next, tests, opens);
  }

  lemma SimpleOk(tok: Token, code: seq<Instr>, head: nat, n: nat, known: set<nat>)
    requires IsSimple(tok, code, head, n) && head in known
    ensures CodeOk(code, known) && Takes(code, n, n + 2)
  {
    if tok.sym == SymRead {
      SimpleThree(GetChar(n), Trunc(n + 1, n), Store(n + 1, head), n, known);
    } else if tok.sym == SymWrite {
      SimpleThree(Load(n, head), SExt(n + 1, n), PutChar(n + 1), n, known);
    } else {
      SimpleThree(Load(n, head), Add(n + 1, n, tok.value), Store(n + 1, head), n, known);
    }
  }

  lemma SimpleThree(a: Instr, b: Instr, c: Instr, n: nat, known: set<nat>)
    requires Dst(a) == {n} && Dst(b) == {n + 1} && Dst(c) == {}
    requires Uses(a) <= known && Uses(b) <= known + {n} && Uses(c) <= known + {n, n + 1}
    ensures CodeOk([a, b, c], known) && Takes([a, b, c], n, n + 2)
  {
    ThreeOk(a, b, c, known);
    TakesThree(a, b, c, n);
  }

  lemma Moved(text: string, cfg: Config, d: Draft, at: nat, tests: set<nat>, opens: set<nat>, tok: Token,
              code: seq<Instr>, e: Draft)
    requires Sound(text, cfg, d, at, tests, opens) && d.insert < |d.blocks|
    requires IsToken(text, at, tok.sym, tok.value, tok.next) && tok.sym == SymMove
    requires MoveWritten(cfg, d.blocks, d.insert, d.head, d.next, tok.value, code, e.blocks, e.insert)
    requires e.head == d.next && e.next == d.next + |code| && e.toks == d.toks[at := tok]
    requires e.points == d.points[tok.next := Point(e.insert, |e.blocks[e.insert].body|, d.next)]
    ensures Sound(text, cfg, e, tok.next, tests, opens) && Follows(d, e, tests)
  {
    Parts(text, cfg, d, at, tests, opens);
    MoveEmitted(text, cfg, d.blocks, d.insert, d.head, d.next, d.points, d.toks, at, tests, opens, code, tok, e.blocks,
                e.insert, e.points);
    ScopedMove(cfg, d.blocks, d.insert, d.head, tests, tok.value, d.next, code, e.blocks);
    MoveSingle(cfg, d.blocks, d.insert, d.head, d.next, tok.value, code, e.blocks, e.insert);
    Whole(text, cfg, e, tok.next, tests, opens);
  }

  /** The code of a run of moves; with bounds checking it ends the block. */
  ghost predicate MoveWritten(cfg: Config, f: seq<Block>, ins: nat, head: nat, n: nat, value: int, code: seq<Instr>,
                              g: seq<Block>, ins': nat)
    requires ins < |f|
  {
    ins' < |g| &&
    if cfg.bounds then
      code == [Gep(n, head, value)] + [IcmpUge(n + 1, n, ARRMAX), IcmpUlt(n + 2, n, ARR), Or(n + 3, n + 1, n + 2)] &&
      g == Close(Append(f, ins, code), ins, CondBr(n + 3, ABERRORBB, |f|)) + [NEWBLOCK] && ins' == |f|
    else
      code == [Gep(n, head, value)] && g == Append(f, ins, code) && ins' == ins
  }

  lemma MoveSingle(cfg: Config, f: seq<Block>, ins: nat, head: nat, n: nat, value: int, code: seq<Instr>,
                   g: seq<Block>, ins': nat)
    requires ins < |f| && MoveWritten(cfg, f, ins, head, n, value, code, g, ins') && Single(f, n)
    ensures Single(g, n + |code|)
  {
    TakesOne(Gep(n, head, value), n, n + 1);
    if cfg.bounds {
      var check := [IcmpUge(n + 1, n, ARRMAX), IcmpUlt(n + 2, n, ARR), Or(n + 3, n + 1, n + 2)];
      TakesThree(check[0], check[1], check[2], n + 1);
      TakesOn([Gep(n, head, value)], check, n, n + 1, n + 4);
      SingleAppend(f, ins, code, n, n + 4);
      var end := CondBr(n + 3, ABERRORBB, |f|);
      SingleClose(Append(f, ins, code), ins, end, n + 4);
      SingleNew(Close(Append(f, ins, code), ins, end), NEWBLOCK, n + 4);
    } else {
      SingleAppend(f, ins, code, n, n + 1);
    }
  }

  /** The first half of a loop. */
  function LoopOpened(d: Draft, tok: Token): Draft
    requires d.insert < |d.blocks|
  {
    d.(blocks := OpenLoop(d.blocks, d.insert, d.head, d.next), insert := |d.blocks| + 1, head := d.next,
       next := d.next + 1,
       points := d.points[tok.next := Point(|d.blocks| + 1, 0, d.next)])
  }

  lemma LoopEmitted(text: string, cfg: Config, d: Draft, at: nat, tests: set<nat>, opens: set<nat>, tok: Token)
    requires Sound(text, cfg, d, at, tests, opens) && d.insert < |d.blocks|
    requires IsToken(text, at, tok.sym, tok.value, tok.next) && tok.sym == SymLoop
    ensures var e := LoopOpened(d, tok);
      Sound(text, cfg, e, tok.next, tests + {|d.blocks|}, opens + {at}) && Follows(d, e, tests) &&
      Waits(text, e, at, tok, |d.blocks|, |d.blocks| + 1)
  {
    var e := LoopOpened(d, tok);
    Parts(text, cfg, d, at, tests, opens);
    Opened(text, cfg, d.blocks, d.insert, d.head, d.next, d.points, d.toks, at, tests, opens, tok, e.blocks, e.points);
    ScopedOpen(cfg, d.blocks, d.insert, d.head, tests, d.next, e.blocks);
    SingleOpen(d.blocks, d.insert, d.head, d.next);
    Whole(text, cfg, e, tok.next, tests + {|d.blocks|}, opens + {at});
  }

  /** The second half of a loop. */
  function LoopClosed(d: Draft, at: nat, tok: Token, op: nat, opTok: Token, test: nat, body: nat): Draft
    requires d.insert < |d.blocks| && test < |d.blocks| && d.blocks[test].phi.Some?
  {
    d.(blocks := CloseLoop(d.blocks, d.insert, d.head, test, body, d.next, d.next + 1, d.next + 2),
       insert := |d.blocks|, head := d.next + 2, next := d.next + 3,
       points := d.points[tok.next := Point(|d.blocks|, 0, d.next + 2)], toks := d.toks[at := tok][op := opTok])
  }

  lemma ClosedScoped(text: string, cfg: Config, d: Draft, at: nat, tests: set<nat>, opens: set<nat>, tok: Token,
                     op: nat, opTok: Token, test: nat, body: nat, e: Draft)
    requires Sound(text, cfg, d, at, tests, opens) && d.insert < |d.blocks|
    requires Waits(text, d, op, opTok, test, body) && test in tests && body == test + 1
    requires e == LoopClosed(d, at, tok, op, opTok, test, body)
    ensures Scoped(cfg, e.blocks, e.insert, e.head, tests - {test}) && Single(e.blocks, e.next)
  {
    Parts(text, cfg, d, at, tests, opens);
    ScopedClose(cfg, d.blocks, d.insert, d.head, tests, test, body, d.next, d.next + 1, d.next + 2,
                d.points[op].blk, d.points[op].head, e.blocks);
    SingleClosed(d.blocks, d.insert, d.head, test, body, d.next);
  }

  lemma ClosedGood(text: string, cfg: Config, d: Draft, at: nat, tests: set<nat>, opens: set<nat>, tok: Token,
                   op: nat, opTok: Token, test: nat, body: nat, e: Draft)
    requires Sound(text, cfg, d, at, tests, opens) && d.insert < |d.blocks|
    requires IsToken(text, at, tok.sym, tok.value, tok.next) && tok.sym == SymEndLoop
    requires Waits(text, d, op, opTok, test, body) && op in opens && test in tests
    requires CloseOf(text, opTok.next - 1) == tok.next - 1 && OpenOf(text, tok.next - 1) == opTok.next - 1
    requires e == LoopClosed(d, at, tok, op, opTok, test, body)
    ensures Good(text, cfg, e.blocks, e.insert, e.head, e.next, e.points, e.toks, tok.next, tests - {test},
                 opens - {op})
    ensures Follows(d, e, tests - {test})
  {
    Parts(text, cfg, d, at, tests, opens);
    Closed(text, cfg, d.blocks, d.insert, d.head, d.next, d.points, d.toks, at, tests, opens, tok, op, opTok, test,
           body, e.blocks, e.points);
  }

  lemma EndLoopEmitted(text: string, cfg: Config, d: Draft, at: nat, tests: set<nat>, opens: set<nat>, tok: Token,
                       op: nat, opTok: Token, test: nat, body: nat, e: Draft)
    requires Sound(text, cfg, d, at, tests, opens) && d.insert < |d.blocks|
    requires IsToken(text, at, tok.sym, tok.value, tok.next) && tok.sym == SymEndLoop
    requires Waits(text, d, op, opTok, test, body) && op in opens && test in tests && body == test + 1
    requires CloseOf(text, opTok.next - 1) == tok.next - 1 && OpenOf(text, tok.next - 1) == opTok.next - 1
    requires e == LoopClosed(d, at, tok, op, opTok, test, body)
    ensures Sound(text, cfg, e, tok.next, tests - {test}, opens - {op}) && Follows(d, e, tests - {test})
  {
    ClosedGood(text, cfg, d, at, tests, opens, tok, op, opTok, test, body, e);
    ClosedScoped(text, cfg, d, at, tests, opens, tok, op, opTok, test, body, e);
    Whole(text, cfg, e, tok.next, tests - {test}, opens - {op});
  }

  /** The same from the state before: what is laid out next. */
  lemma EndLoopFrom(text: string, cfg: Config, d: Draft, at: nat, tests: set<nat>, opens: set<nat>, tok: Token,
                    op: nat, opTok: Token, test: nat, body: nat)
    returns (e: Draft)
    requires Sound(text, cfg, d, at, tests, opens)
    requires IsToken(text, at, tok.sym, tok.value, tok.next) && tok.sym == SymEndLoop
    requires Waits(text, d, op, opTok, test, body) && op in opens && test in tests && body == test + 1
    requires CloseOf(text, opTok.next - 1) == tok.next - 1 && OpenOf(text, tok.next - 1) == opTok.next - 1
    ensures d.insert < |d.blocks| && test < |d.blocks| && d.blocks[test].phi.Some?
    ensures e == LoopClosed(d, at, tok, op, opTok, test, body)
    ensures Sound(text, cfg, e, tok.next, tests - {test}, opens - {op}) && Follows(d, e, tests - {test})
  {
    Inserting(text, cfg, d, at, tests, opens);
    e := LoopClosed(d, at, tok, op, opTok, test, body);
    EndLoopEmitted(text, cfg, d, at, tests, opens, tok, op, opTok, test, body, e);
  }

  /** The compiled program: static single assignment form, and the layout of the whole text. */
  ghost predicate AllEmitted(text: string, cfg: Config, f: seq<Block>, pts: Points, toks: Tokens) {
    Compiled(text, cfg, f, pts, toks) && WellFormed(f) && DefinedOnEveryPath(f) && SingleAssignment(f)
  }

  lemma EndEmitted(text: string, cfg: Config, d: Draft, at: nat, tok: Token)
    requires Sound(text, cfg, d, at, {}, {}) && d.insert < |d.blocks|
    requires IsToken(text, at, tok.sym, tok.value, tok.next) && tok.sym == SymEof
    ensures AllEmitted(text, cfg, Close(d.blocks, d.insert, Br(ENDBB)), d.points, d.toks[at := tok])
  {
    var g := Close(d.blocks, d.insert, Br(ENDBB));
    Parts(text, cfg, d, at, {}, {});
    Ended(text, cfg, d.blocks, d.insert, d.head, d.next, d.points, d.toks, at, tok);
    ScopedEnd(cfg, d.blocks, d.insert, d.head, {});
    SingleClose(d.blocks, d.insert, Br(ENDBB), d.next);
    assert forall r: nat :: Count(g, r) <= if r < d.next then 1 else 0;
  }

  function HeaderDraft(cfg: Config): Draft {
    Draft([Block(None, HeaderCode(cfg), None), Block(None, [Free(ARR)], Some(Ret))] +
            (if cfg.bounds then [Block(None, [Puts], Some(Br(ENDBB)))] else []),
          0, FIRSTHEAD, FIRSTHEAD + 1, map[0 := Point(0, |HeaderCode(cfg)|, FIRSTHEAD)], map[])
  }

  lemma HeaderEmitted(text: string, cfg: Config)
    ensures Sound(text, cfg, HeaderDraft(cfg), 0, {}, {})
  {
    var f := HeaderDraft(cfg).blocks;
    ScopedHeader(cfg, f);
    SingleHeader(cfg, f);
    assert forall b :: 0 <= b < |f| ==> TargetsOk(f, b) && PhiExact(f, b);
    Whole(text, cfg, HeaderDraft(cfg), 0, {}, {});
  }

  /** The three instructions of a read, a write or a change are the code of that symbol. */
  lemma LaidSimple(text: string, cfg: Config, f: seq<Block>, ins: nat, head: nat, n: nat, pts: Points, at: nat,
                   code: seq<Instr>, tok: Token, qts: Points)
    requires ins < |f| && ARRMAX < head < n && at in pts && pts[at] == Point(ins, |f[ins].body|, head)
    requires IsToken(text, at, tok.sym, tok.value, tok.next) && tok.next > at
    requires IsSimple(tok, code, head, n)
    requires qts == pts[tok.next := Point(ins, |f[ins].body| + |code|, head)]
    ensures Laid(text, cfg, Append(f, ins, code), qts, at, tok)
  {
    var b := f[ins].body + code;
    assert b[|f[ins].body|] == code[0] && b[|f[ins].body| + 1] == code[1] && b[|f[ins].body| + 2] == code[2];
  }

  lemma LaidMove(text: string, cfg: Config, f: seq<Block>, ins: nat, head: nat, n: nat, pts: Points, at: nat,
                 code: seq<Instr>, tok: Token, g: seq<Block>, qts: Points)
    requires ins < |f| && ARRMAX < head < n && at in pts && pts[at] == Point(ins, |f[ins].body|, head)
    requires IsToken(text, at, tok.sym, tok.value, tok.next) && tok.next > at && tok.sym == SymMove
    requires
      if cfg.bounds then
        code == [Gep(n, head, tok.value), IcmpUge(n + 1, n, ARRMAX), IcmpUlt(n + 2, n, ARR), Or(n + 3, n + 1, n + 2)] &&
        g == Close(Append(f, ins, code), ins, CondBr(n + 3, ABERRORBB, |f|)) + [NEWBLOCK] &&
        qts == pts[tok.next := Point(|f|, 0, n)]
      else
        code == [Gep(n, head, tok.value)] && g == Append(f, ins, code) &&
        qts == pts[tok.next := Point(ins, |f[ins].body| + 1, n)]
    ensures Laid(text, cfg, g, qts, at, tok)
  {
    var b := f[ins].body + code;
    assert g[ins].body == b;
    assert forall i :: 0 <= i < |code| ==> b[|f[ins].body| + i] == code[i];
  }

  lemma MoveEmitted(text: string, cfg: Config, f: seq<Block>, ins: nat, head: nat, n: nat, pts: Points, toks: Tokens,
                    at: nat, tests: set<nat>, opens: set<nat>, code: seq<Instr>, tok: Token, g: seq<Block>, ins': nat,
                    qts: Points)
    requires Good(text, cfg, f, ins, head, n, pts, toks, at, tests, opens)
    requires IsToken(text, at, tok.sym, tok.value, tok.next) && tok.sym == SymMove
    requires ins < |f| && MoveWritten(cfg, f, ins, head, n, tok.value, code, g, ins')
    requires qts == pts[tok.next := Point(ins', |g[ins'].body|, n)]
    ensures Good(text, cfg, g, ins', n, n + |code|, qts, toks[at := tok], tok.next, tests, opens)
    ensures Extends(f, g, ins, ins', pts, qts, tests)
  {
    LaidMove(text, cfg, f, ins, head, n, pts, at, code, tok, g, qts);
    if cfg.bounds {
      Branched(text, cfg, f, ins, head, n, pts, toks, at, tests, opens, code, n + 3, tok, n, n + 4, g, qts);
    } else {
      Appended(text, cfg, f, ins, head, n, pts, toks, at, tests, opens, code, tok, n, n + 1, g, qts);
    }
  }
}
