/** The one-pass compiler: it reads the text symbol by symbol, with two symbols of look-ahead,
    and calls itself for every loop. */
module BrainFCompiler {
  import opened BrainFSource
  import opened BrainFTarget
  import opened BrainFTokens
  import opened BrainFLayout
  import opened BrainFSSA
  import opened BrainFBrackets
  import opened BrainFDraft

  /** How reading a program or a loop body ends. */
  datatype Verdict = Done | ExtraClose | MissingClose

  /** The position before `pos` where the pending symbol `sym` was read. */
  ghost predicate Pending(text: string, at: nat, sym: Symbol, value: int, pos: nat) {
    at <= pos <= |text| &&
    if sym.SymNone? then pos == at
    else if sym.SymEof? then at == |text| && pos == at
    else
      pos == at + 1 &&
      if IsSingle(sym) then text[at] == CharOf(sym) else InRun(sym, text[at]) && value == Delta(text[at])
  }

  /** Where the compiler is: in the program, or in the loop opened by the symbol at `op`. */
  datatype Scope = Scope(inLoop: bool, base: nat, tests: set<nat>, opens: set<nat>, op: nat, opTok: Token, testbb: nat,
                         oldbb: nat) {
    /** Only the program itself is at height 0, and it waits for nothing. */
    ghost predicate Fits(text: string) {
      base <= |text| && (inLoop <==> Height(text, base) != 0) && (!inLoop ==> tests == {} && opens == {}) &&
      (inLoop ==> oldbb == testbb + 1)
    }
  }

  /** The symbol at `at` is the ']' of the loop whose body starts at `base`. */
  ghost predicate EndsAt(text: string, base: nat, at: nat, tok: Token, end: nat) {
    Level(text, base, at) && IsToken(text, at, tok.sym, tok.value, tok.next) && tok.sym == SymEndLoop && tok.next == end
  }

  /** Why a text is rejected. */
  ghost predicate Rejected(text: string, r: Verdict) {
    (r == ExtraClose ==> !NeverBelow(text, |text|)) &&
    (r == MissingClose ==> NeverBelow(text, |text|) && Height(text, |text|) > 0)
  }

  /** Between two symbols, somewhere inside the loop (or program) `c`. */
  ghost predicate Within(text: string, cfg: Config, c: Scope, d: Draft, at: nat) {
    Sound(text, cfg, d, at, c.tests, c.opens) && Level(text, c.base, at) &&
    (c.inLoop ==>
      Waits(text, d, c.op, c.opTok, c.testbb, c.oldbb) && c.testbb in c.tests && c.op in c.opens &&
        c.opTok.next == c.base)
  }

  lemma StaysWithin(text: string, cfg: Config, c: Scope, d: Draft, at: nat, e: Draft, to: nat)
    requires Within(text, cfg, c, d, at) && Sound(text, cfg, e, to, c.tests, c.opens)
    requires Follows(d, e, c.tests) && Level(text, c.base, to)
    ensures Within(text, cfg, c, e, to)
  {
    if c.inLoop {
      StillWaits(text, cfg, d, at, c.tests, c.opens, e, c.op, c.opTok, c.testbb, c.oldbb);
    }
  }

  class BrainF {
    const text: string
    const cfg: Config
    var pos: nat
    var blocks: seq<Block>
    var insert: nat
    var curhead: nat
    var next: nat
    ghost var points: Points
    ghost var toks: Tokens

    ghost function Draft(): Draft
      reads this
    {
      BrainFDraft.Draft(blocks, insert, curhead, next, points, toks)
    }

    ghost predicate Ready(at: nat, tests: set<nat>, opens: set<nat>)
      reads this
    {
      pos <= |text| && Sound(text, cfg, Draft(), at, tests, opens)
    }

    constructor (text: string, cfg: Config)
      ensures this.text == text && this.cfg == cfg
    {
      this.text, this.cfg := text, cfg;
      pos, blocks, insert, curhead, next := 0, [], 0, 0, 0;
      points, toks := map[], map[];
    }

    /** Allocates and clears the tape, and puts the head into its middle. */
    method Header()
      modifies this
      ensures Ready(0, {}, {}) && pos == 0 && toks == map[]
    {
      var code := [Malloc(ARR, cfg.mem), Memset(ARR, cfg.mem)];
      if cfg.bounds {
        code := code + [Gep(ARRMAX, ARR, cfg.mem)];
      }
      code := code + [Gep(FIRSTHEAD, ARR, cfg.mem / 2)];
      blocks := [Block(None, code, None), Block(None, [Free(ARR)], Some(Ret))];
      if cfg.bounds {
        blocks := blocks + [Block(None, [Puts], Some(Br(ENDBB)))];
      }
      pos, insert, curhead, next := 0, 0, FIRSTHEAD, FIRSTHEAD + 1;
      points, toks := map[0 := Point(0, |code|, FIRSTHEAD)], map[];
      assert code == HeaderCode(cfg);
      HeaderEmitted(text, cfg);
      assert Draft() == HeaderDraft(cfg);
    }

    /** Reads on until the current symbol and, behind a run, the next one are known. `cursym`
        on entry is the symbol already read at `at`, if any. */
    method NextSymbol(ghost at: nat, sym: Symbol, value: int)
      returns (cursym: Symbol, curvalue: int, nextsym: Symbol, nextvalue: int, ghost to: nat)
      requires Pending(text, at, sym, value, pos)
      modifies this`pos
      ensures IsToken(text, at, cursym, curvalue, to) && pos <= |text|
      ensures Pending(text, to, nextsym, nextvalue, pos)
      ensures (cursym.SymEof? || IsSingle(cursym)) ==> nextsym == SymNone
    {
      cursym, curvalue, nextsym, nextvalue := sym, value, SymNone, 0;
      var loop := cursym == SymNone || cursym == SymMove || cursym == SymChange;
      to := pos;
      assert loop && cursym != SymNone ==> RunSum(cursym, text, at, at + 1) == value;
      while loop
        invariant loop ==> at <= pos <= |text| && nextsym == SymNone
        invariant loop && cursym == SymNone ==> Comments(text, at, pos)
        invariant loop ==> cursym == SymNone || cursym == SymMove || cursym == SymChange
        invariant loop && cursym != SymNone ==>
          OnlyRun(cursym, text, at, pos) && HasRun(cursym, text, at, pos) && curvalue == RunSum(cursym, text, at, pos)
        invariant !loop ==>
          IsToken(text, at, cursym, curvalue, to) && Pending(text, to, nextsym, nextvalue, pos) && pos <= |text|
        invariant !loop && (cursym.SymEof? || IsSingle(cursym)) ==> nextsym == SymNone
        decreases |text| - pos, loop
      {
        if pos == |text| {
          if cursym == SymNone {
            cursym := SymEof;
          } else {
            nextsym := SymEof;
          }
          to, loop := pos, false;
        } else {
          ghost var p := pos;
          var c := text[pos];
          pos := pos + 1;
          if IsChange(c) || IsMove(c) {
            var direction := Delta(c);
            var run := if IsChange(c) then SymChange else SymMove;
            if cursym == run {
              curvalue := curvalue + direction;
            } else if cursym == SymNone {
              cursym, curvalue := run, direction;
              OneRun(text, at, p, run);
            } else {
              nextsym, nextvalue := run, direction;
              to, loop := p, false;
            }
          } else if c == ',' || c == '.' || c == '[' || c == ']' {
            var single := if c == ',' then SymRead else if c == '.' then SymWrite
              else if c == '[' then SymLoop else SymEndLoop;
            if cursym == SymNone {
              cursym, to := single, pos;
            } else {
              nextsym, to := single, p;
            }
            loop := false;
          }
        }
      }
    }

    /** The builder goes on in a new state. */
    method Continue(blocks: seq<Block>, insert: nat, curhead: nat, next: nat, ghost e: Draft)
      requires e.blocks == blocks && e.insert == insert && e.head == curhead && e.next == next
      modifies this`blocks, this`next, this`points, this`toks, this`insert, this`curhead
      ensures Draft() == e
    {
      this.blocks, this.insert, this.curhead, this.next := blocks, insert, curhead, next;
      points, toks := e.points, e.toks;
    }

    /** A character of the input goes to the cell under the head. */
    method EmitRead(ghost at: nat, ghost tok: Token, ghost tests: set<nat>, ghost opens: set<nat>)
      requires Ready(at, tests, opens) && IsToken(text, at, tok.sym, tok.value, tok.next) && tok.sym == SymRead
      modifies this`blocks, this`next, this`points, this`toks
      ensures Ready(tok.next, tests, opens) && toks == old(toks)[at := tok] && Follows(old(Draft()), Draft(), tests)
    {
      Inserting(text, cfg, Draft(), at, tests, opens);
      var code := [GetChar(next), Trunc(next + 1, next), Store(next + 1, curhead)];
      ghost var e := Written(Draft(), at, tok, code);
      SimpleEmitted(text, cfg, Draft(), at, tests, opens, tok, code);
      blocks, next := Append(blocks, insert, code), next + 2;
      points, toks := e.points, e.toks;
      assert Draft() == e;
    }

    /** The cell under the head goes to the output. */
    method EmitWrite(ghost at: nat, ghost tok: Token, ghost tests: set<nat>, ghost opens: set<nat>)
      requires Ready(at, tests, opens) && IsToken(text, at, tok.sym, tok.value, tok.next) && tok.sym == SymWrite
      modifies this`blocks, this`next, this`points, this`toks
      ensures Ready(tok.next, tests, opens) && toks == old(toks)[at := tok] && Follows(old(Draft()), Draft(), tests)
    {
      Inserting(text, cfg, Draft(), at, tests, opens);
      var code := [Load(next, curhead), SExt(next + 1, next), PutChar(next + 1)];
      ghost var e := Written(Draft(), at, tok, code);
      SimpleEmitted(text, cfg, Draft(), at, tests, opens, tok, code);
      blocks, next := Append(blocks, insert, code), next + 2;
      points, toks := e.points, e.toks;
      assert Draft() == e;
    }

    /** A whole run of changes is one addition. */
    method EmitChange(ghost at: nat, value: int, ghost tok: Token, ghost tests: set<nat>, ghost opens: set<nat>)
      requires Ready(at, tests, opens) && IsToken(text, at, tok.sym, tok.value, tok.next) && tok.sym == SymChange &&
        value == tok.value
      modifies this`blocks, this`next, this`points, this`toks
      ensures Ready(tok.next, tests, opens) && toks == old(toks)[at := tok] && Follows(old(Draft()), Draft(), tests)
    {
      Inserting(text, cfg, Draft(), at, tests, opens);
      var code := [Load(next, curhead), Add(next + 1, next, value), Store(next + 1, curhead)];
      ghost var e := Written(Draft(), at, tok, code);
      SimpleEmitted(text, cfg, Draft(), at, tests, opens, tok, code);
      blocks, next := Append(blocks, insert, code), next + 2;
      points, toks := e.points, e.toks;
      assert Draft() == e;
    }

    /** A whole run of moves is one address computation, checked once. */
    method EmitMove(ghost at: nat, value: int, ghost tok: Token, ghost tests: set<nat>, ghost opens: set<nat>)
      requires Ready(at, tests, opens) && IsToken(text, at, tok.sym, tok.value, tok.next) && tok.sym == SymMove &&
        value == tok.value
      modifies this`blocks, this`next, this`points, this`toks, this`insert, this`curhead
      ensures Ready(tok.next, tests, opens) && toks == old(toks)[at := tok] && Follows(old(Draft()), Draft(), tests)
    {
      Inserting(text, cfg, Draft(), at, tests, opens);
      var code := [Gep(next, curhead, value)];
      if cfg.bounds {
        code := code + [IcmpUge(next + 1, next, ARRMAX), IcmpUlt(next + 2, next, ARR),
                        Or(next + 3, next + 1, next + 2)];
      }
      var g := Append(blocks, insert, code);
      var nextbb := insert;
      if cfg.bounds {
        nextbb := |blocks|;
        g := Close(g, insert, CondBr(next + 3, ABERRORBB, nextbb)) + [NEWBLOCK];
      }
      ghost var qts := points[tok.next := Point(nextbb, |g[nextbb].body|, next)];
      ghost var e := BrainFDraft.Draft(g, nextbb, next, next + |code|, qts, toks[at := tok]);
      Moved(text, cfg, Draft(), at, tests, opens, tok, code, e);
      Continue(g, nextbb, next, next + |code|, e);
    }

    /** The first half of a loop: its test block with half a phi, and the start of its body. */
    method EmitLoop(ghost at: nat, ghost tok: Token, ghost tests: set<nat>, ghost opens: set<nat>)
      returns (testbb: nat, bb_1: nat)
      requires Ready(at, tests, opens) && IsToken(text, at, tok.sym, tok.value, tok.next) && tok.sym == SymLoop
      modifies this`blocks, this`next, this`points, this`toks, this`insert, this`curhead
      ensures Ready(tok.next, tests + {testbb}, opens + {at}) && testbb !in tests && bb_1 == testbb + 1
      ensures Waits(text, Draft(), at, tok, testbb, bb_1) && Follows(old(Draft()), Draft(), tests)
    {
      Inserting(text, cfg, Draft(), at, tests, opens);
      ghost var e := LoopOpened(Draft(), tok);
      LoopEmitted(text, cfg, Draft(), at, tests, opens, tok);
      testbb, bb_1 := |blocks|, |blocks| + 1;
      Continue(OpenLoop(blocks, insert, curhead, next), bb_1, next, next + 1, e);
    }

    /** The second half: the phi is finished, the test is written, and the code goes on behind it. */
    method EmitEndLoop(oldbb: nat, testbb: nat, ghost at: nat, ghost tok: Token, ghost tests: set<nat>,
                       ghost opens: set<nat>, ghost op: nat, ghost opTok: Token)
      requires Ready(at, tests, opens) && IsToken(text, at, tok.sym, tok.value, tok.next) && tok.sym == SymEndLoop
      requires Waits(text, Draft(), op, opTok, testbb, oldbb) && op in opens && testbb in tests && oldbb == testbb + 1
      requires CloseOf(text, opTok.next - 1) == tok.next - 1 && OpenOf(text, tok.next - 1) == opTok.next - 1
      modifies this`blocks, this`next, this`points, this`toks, this`insert, this`curhead
      ensures Ready(tok.next, tests - {testbb}, opens - {op}) && Follows(old(Draft()), Draft(), tests - {testbb})
    {
      ghost var e := EndLoopFrom(text, cfg, Draft(), at, tests, opens, tok, op, opTok, testbb, oldbb);
      Continue(CloseLoop(blocks, insert, curhead, testbb, oldbb, next, next + 1, next + 2), |blocks|, next + 2,
               next + 3, e);
    }

    ghost predicate Inside(c: Scope, at: nat)
      reads this
    {
      pos <= |text| && Within(text, cfg, c, Draft(), at)
    }

    /** Writes out one symbol that is not a bracket. */
    method EmitPlain(cursym: Symbol, curvalue: int, ghost at: nat, ghost tok: Token, ghost c: Scope)
      requires Inside(c, at) && IsToken(text, at, tok.sym, tok.value, tok.next)
      requires tok.sym == cursym && tok.value == curvalue && cursym != SymLoop && cursym != SymEndLoop &&
        cursym != SymEof
      modifies this`blocks, this`next, this`points, this`toks, this`insert, this`curhead
      ensures Inside(c, tok.next) && Follows(old(Draft()), Draft(), c.tests)
    {
      LevelOn(text, c.base, at, tok);
      match cursym {
        case SymRead => EmitRead(at, tok, c.tests, c.opens);
        case SymWrite => EmitWrite(at, tok, c.tests, c.opens);
        case SymMove => EmitMove(at, curvalue, tok, c.tests, c.opens);
        case SymChange => EmitChange(at, curvalue, tok, c.tests, c.opens);
      }
      StaysWithin(text, cfg, c, old(Draft()), at, Draft(), tok.next);
    }

    /** Writes out a whole loop: its test block, its body, and the test. */
    method EmitInner(ghost at: nat, ghost tok: Token, ghost c: Scope) returns (r: Verdict)
      requires Inside(c, at) && IsToken(text, at, tok.sym, tok.value, tok.next) && tok.sym == SymLoop && pos == tok.next
      requires c.Fits(text)
      modifies this`pos, this`blocks, this`next, this`points, this`toks, this`insert, this`curhead
      ensures Rejected(text, r)
      ensures r == Done ==> Inside(c, pos) && pos > tok.next && Follows(old(Draft()), Draft(), c.tests)
      decreases |text| - pos, 2
    {
      LevelIn(text, c.base, at, tok);
      var testbb, bb_1 := EmitLoop(at, tok, c.tests, c.opens);
      ghost var entered := Draft();
      ghost var inner := Scope(true, tok.next, c.tests + {testbb}, c.opens + {at}, at, tok, testbb, bb_1);
      r := ReadLoop(true, bb_1, testbb, inner);
      if r == Done {
        assert inner.tests - {testbb} == c.tests && inner.opens - {at} == c.opens;
        ghost var end: nat, endTok: Token :| EndsAt(text, tok.next, end, endTok, pos);
        LevelOut(text, c.base, at, tok, end, endTok);
        FollowsOn(old(Draft()), entered, Draft(), c.tests);
        StaysWithin(text, cfg, c, old(Draft()), at, Draft(), pos);
      }
    }

    /** Writes out the current symbol. */
    method Emit(cursym: Symbol, curvalue: int, ghost at: nat, ghost tok: Token, ghost c: Scope)
      returns (r: Verdict, ghost after: nat)
      requires Inside(c, at) && IsToken(text, at, tok.sym, tok.value, tok.next) && c.Fits(text)
      requires tok.sym == cursym && tok.value == curvalue && cursym != SymEndLoop && cursym != SymEof
      requires cursym == SymLoop ==> pos == tok.next
      modifies this`pos, this`blocks, this`next, this`points, this`toks, this`insert, this`curhead
      ensures Rejected(text, r)
      ensures r == Done ==> Inside(c, after) && after > at && Follows(old(Draft()), Draft(), c.tests)
      ensures if cursym == SymLoop then r == Done ==> after == pos >= tok.next
        else r == Done && after == tok.next && pos == old(pos)
      decreases |text| - pos, 3
    {
      if cursym == SymLoop {
        r := EmitInner(at, tok, c);
        after := pos;
      } else {
        EmitPlain(cursym, curvalue, at, tok, c);
        r, after := Done, tok.next;
      }
    }

    /** Reads and compiles symbols up to the end of the text, or, inside a loop, up to its ']'. */
    method ReadLoop(phi: bool, oldbb: nat, testbb: nat, ghost c: Scope) returns (r: Verdict)
      requires Inside(c, c.base) && pos == c.base && c.Fits(text)
      requires phi == c.inLoop && (phi ==> oldbb == c.oldbb && testbb == c.testbb)
      modifies this`pos, this`blocks, this`next, this`points, this`toks, this`insert, this`curhead
      ensures Rejected(text, r)
      ensures r == Done && !phi ==> Balanced(text) && AllEmitted(text, cfg, blocks, points, toks)
      ensures r == Done && phi ==>
        c.base < pos && Ready(pos, c.tests - {testbb}, c.opens - {c.op}) &&
          Follows(old(Draft()), Draft(), c.tests - {testbb})
      ensures r == Done && phi ==> exists at: nat, tok: Token :: EndsAt(text, c.base, at, tok, pos)
      decreases |text| - pos, 1
    {
      var cursym, curvalue, nextsym, nextvalue := SymNone, 0, SymNone, 0;
      ghost var at, to := c.base, c.base;
      FollowsSelf(text, cfg, Draft(), at, c.tests, c.opens);
      while cursym != SymEof && cursym != SymEndLoop
        invariant AtSymbol(c, at, to, cursym, curvalue, nextsym, nextvalue)
        invariant Follows(old(Draft()), Draft(), c.tests)
        decreases |text| - at, if cursym == SymNone then 1 else 0
      {
        r, cursym, curvalue, nextsym, nextvalue, at, to :=
          NextRound(cursym, curvalue, nextsym, nextvalue, at, to, c, old(Draft()));
        if r != Done { return; }
      }
      ghost var tok := Token(cursym, curvalue, to);
      r := Finish(phi, cursym, oldbb, testbb, at, tok, c, old(Draft()));
    }

    /** Writes out the current symbol, if there is one, and reads on. */
    method NextRound(cursym: Symbol, curvalue: int, nextsym: Symbol, nextvalue: int, ghost at: nat, ghost to: nat,
                     ghost c: Scope, ghost start: Draft)
      returns (r: Verdict, cursym': Symbol, curvalue': int, nextsym': Symbol, nextvalue': int, ghost at': nat,
               ghost to': nat)
      requires AtSymbol(c, at, to, cursym, curvalue, nextsym, nextvalue) && c.Fits(text)
      requires cursym != SymEof && cursym != SymEndLoop && Follows(start, Draft(), c.tests)
      modifies this`pos, this`blocks, this`next, this`points, this`toks, this`insert, this`curhead
      ensures Rejected(text, r)
      ensures r == Done ==>
        AtSymbol(c, at', to', cursym', curvalue', nextsym', nextvalue') && Follows(start, Draft(), c.tests)
      ensures r == Done ==> (if cursym == SymNone then at' == at && cursym' != SymNone else at' > at)
      decreases |text| - pos, if cursym == SymNone then 0 else 4
    {
      cursym', curvalue', nextsym', nextvalue', at', to' := cursym, curvalue, nextsym, nextvalue, at, to;
      r := Done;
      ghost var before := Draft();
      if cursym != SymNone {
        r, at' := Emit(cursym, curvalue, at, Token(cursym, curvalue, to), c);
        if r != Done { return; }
        FollowsOn(start, before, Draft(), c.tests);
      }
      cursym', curvalue', nextsym', nextvalue', to' := NextSymbol(at', nextsym, nextvalue);
    }

    /** The current symbol starts at `at`, the next one at `to`, and perhaps is read already. */
    ghost predicate AtSymbol(c: Scope, at: nat, to: nat, cursym: Symbol, curvalue: int, nextsym: Symbol, nextvalue: int)
      reads this
    {
      Inside(c, at) && pos >= c.base && Pending(text, to, nextsym, nextvalue, pos) &&
      (if cursym == SymNone then at == to else IsToken(text, at, cursym, curvalue, to)) &&
      (IsSingle(cursym) || cursym == SymEof || cursym == SymNone ==> nextsym == SymNone)
    }

    /** Behind the last symbol: the loop test, or the return block. */
    method Finish(phi: bool, cursym: Symbol, oldbb: nat, testbb: nat, ghost at: nat, ghost tok: Token, ghost c: Scope,
                  ghost start: Draft) returns (r: Verdict)
      requires Inside(c, at) && c.Fits(text) && IsToken(text, at, tok.sym, tok.value, tok.next) && pos == tok.next
      requires cursym == tok.sym && (cursym == SymEndLoop || cursym == SymEof)
      requires phi == c.inLoop && (phi ==> oldbb == c.oldbb && testbb == c.testbb)
      requires Follows(start, Draft(), c.tests)
      modifies this`blocks, this`next, this`points, this`toks, this`insert, this`curhead
      ensures Rejected(text, r)
      ensures r == Done && !phi ==> Balanced(text) && AllEmitted(text, cfg, blocks, points, toks)
      ensures r == Done && phi ==>
        Ready(pos, c.tests - {testbb}, c.opens - {c.op}) && Follows(start, Draft(), c.tests - {testbb}) &&
          EndsAt(text, c.base, at, tok, pos)
    {
      ghost var before := Draft();
      if cursym == SymEndLoop {
        LevelBefore(text, c.base, at, tok);
        if !phi {
          return ExtraClose;
        }
        LevelOut(text, c.op, c.op, c.opTok, at, tok);
        EmitEndLoop(oldbb, testbb, at, tok, c.tests, c.opens, c.op, c.opTok);
        FollowsOn(start, before, Draft(), c.tests - {testbb});
        return Done;
      }
      LevelOn(text, c.base, at, tok);
      Inserting(text, cfg, before, at, c.tests, c.opens);
      if !phi {
        EndEmitted(text, cfg, before, at, tok);
      }
      blocks := Close(blocks, insert, Br(ENDBB));
      toks := toks[at := tok];
      if phi {
        return MissingClose;
      }
      return Done;
    }
  }

  lemma OneRun(text: string, at: nat, p: nat, sym: Symbol)
    requires at <= p < |text| && Comments(text, at, p) && InRun(sym, text[p])
    ensures RunSum(sym, text, at, p + 1) == Delta(text[p])
  {
    assert forall k :: at <= k < p ==> !InRun(sym, text[k]);
    NoRunNoSum(sym, text, at, p);
  }
}
