/** The state of a half-built function: which blocks and which symbols are still open, and why
    adding code at the insertion point leaves everything already laid out as it was. */
module BrainFBuild {
  import opened BrainFSource
  import opened BrainFTarget
  import opened BrainFTokens
  import opened BrainFLayout
  import opened BrainFSSA

  // ----- growing -----

  /** Finished blocks stay as they are; the block under construction only gets longer. */
  ghost predicate Grows(f: seq<Block>, g: seq<Block>, ins: nat) {
    |f| <= |g| && ins < |f| && f[ins].term.None? &&
    f[ins].phi == g[ins].phi && f[ins].body <= g[ins].body &&
    forall b :: 0 <= b < |f| && f[b].term.Some? ==> g[b] == f[b]
  }

  ghost predicate More(p: Points, q: Points) {
    forall k :: k in p ==> k in q && q[k] == p[k]
  }

  /** A point lies in a finished block or in the one under construction. */
  ghost predicate Settled(f: seq<Block>, pts: Points, ins: nat) {
    forall p :: p in pts ==> pts[p].blk < |f| && (f[pts[p].blk].term.Some? || pts[p].blk == ins)
  }

  lemma LaidKept(text: string, cfg: Config, f: seq<Block>, g: seq<Block>, pts: Points, qts: Points, ins: nat, p: int,
                 tok: Token)
    requires p in pts && Laid(text, cfg, f, pts, p, tok)
    requires Settled(f, pts, ins) && Grows(f, g, ins) && More(pts, qts)
    ensures Laid(text, cfg, g, qts, p, tok)
  {
    var pt := pts[p];
    var c, d := f[pt.blk].body, g[pt.blk].body;
    assert c <= d;
    assert forall i :: 0 <= i < |c| ==> c[i] == d[i];
    match tok.sym
    case SymLoop => LoopKept(text, f, g, pts, qts, ins, pt, tok.next - 1);
    case SymEndLoop => LoopKept(text, f, g, pts, qts, ins, pt, OpenOf(text, tok.next - 1));
    case _ =>
  }

  lemma LoopKept(text: string, f: seq<Block>, g: seq<Block>, pts: Points, qts: Points, ins: nat, pt: Point, open: nat)
    requires pt.blk < |f| && LoopLaid(text, f, pts, pt, open)
    requires Settled(f, pts, ins) && Grows(f, g, ins) && More(pts, qts)
    ensures LoopLaid(text, g, qts, pt, open)
  {
    assert g[pt.blk] == f[pt.blk];
    var test := f[pt.blk].term.value.target;
    assert g[test] == f[test];
  }

  /** The state between two symbols. `at` is the position reached, where the next symbol starts;
      `tests` are the loop tests, and `opens` the loop symbols, that wait for their ']'. */
  ghost predicate Good(text: string, cfg: Config, f: seq<Block>, ins: nat, head: nat, next: nat, pts: Points,
                       toks: Tokens, at: nat, tests: set<nat>, opens: set<nat>) {
    FrameLaid(cfg, f, pts) && Settled(f, pts, ins) && Linked(f) &&
    ins < |f| && ARRMAX < head < next &&
    at in pts && pts[at] == Point(ins, |f[ins].body|, head) && at !in opens && opens <= pts.Keys &&
    (forall p :: p in pts ==> p <= at) &&
    (forall p :: p in toks <==> p in pts && p != at && p !in opens) &&
    AllLaid(text, cfg, f, pts, toks) &&
    ins !in tests && (forall b :: b in tests ==> b < |f|) &&
    (forall b :: 0 <= b < |f| ==> (f[b].term.None? <==> b == ins || b in tests))
  }

  // ----- the steps of the builder -----

  /** How far one step of the builder may go: finished code, and the loop tests that wait for
      their ']', stay as they are. */
  ghost predicate Extends(f: seq<Block>, g: seq<Block>, ins: nat, ins': nat, pts: Points, qts: Points,
                          tests: set<nat>) {
    Grows(f, g, ins) && More(pts, qts) && ins' < |g| && (ins' == ins || g[ins].term.Some?) &&
    forall b :: b in tests && b < |f| ==> g[b] == f[b]
  }

  lemma ExtendsOn(f: seq<Block>, g: seq<Block>, h: seq<Block>, i: nat, j: nat, k: nat, pts: Points, qts: Points,
                  rts: Points, tests: set<nat>)
    requires Extends(f, g, i, j, pts, qts, tests) && Extends(g, h, j, k, qts, rts, tests)
    ensures Extends(f, h, i, k, pts, rts, tests)
  {
    assert f[i].body <= h[i].body;
  }

  lemma ToksKept(text: string, cfg: Config, f: seq<Block>, g: seq<Block>, pts: Points, qts: Points, ins: nat,
                 toks: Tokens)
    requires AllLaid(text, cfg, f, pts, toks) && forall p :: p in toks ==> p in pts
    requires Settled(f, pts, ins) && Grows(f, g, ins) && More(pts, qts)
    ensures AllLaid(text, cfg, g, qts, toks)
  {
    forall p | p in toks
      ensures p in qts && Laid(text, cfg, g, qts, p, toks[p])
    {
      LaidKept(text, cfg, f, g, pts, qts, ins, p, toks[p]);
    }
  }

  /** What a step has to establish about the code itself; the symbols already laid stay laid. */
  ghost predicate Stands(g: seq<Block>, ins: nat, head: nat, next: nat, qts: Points, at: nat, tests: set<nat>) {
    Settled(g, qts, ins) && Linked(g) && ins < |g| && ARRMAX < head < next &&
    at in qts && qts[at] == Point(ins, |g[ins].body|, head) && (forall p :: p in qts ==> p <= at) &&
    ins !in tests && (forall b :: b in tests ==> b < |g|) &&
    (forall b :: 0 <= b < |g| ==> (g[b].term.None? <==> b == ins || b in tests))
  }

  /** The symbols laid are those before `at` that do not wait for a ']', and the new ones among them are right. */
  ghost predicate Restored(text: string, cfg: Config, g: seq<Block>, qts: Points, toks: Tokens, uoks: Tokens, at: nat,
                           opens: set<nat>) {
    at !in opens && opens <= qts.Keys && (forall p :: p in uoks <==> p in qts && p != at && p !in opens) &&
    forall p {:trigger Laid(text, cfg, g, qts, p, uoks[p])} :: p in uoks ==>
      if p in toks then uoks[p] == toks[p] else Laid(text, cfg, g, qts, p, uoks[p])
  }

  lemma Advance(text: string, cfg: Config, f: seq<Block>, ins: nat, head: nat, next: nat, pts: Points, toks: Tokens,
                at: nat, tests: set<nat>, opens: set<nat>, g: seq<Block>, ins': nat, head': nat, next': nat,
                qts: Points, uoks: Tokens, at': nat, tests': set<nat>, opens': set<nat>)
    requires Good(text, cfg, f, ins, head, next, pts, toks, at, tests, opens)
    requires Grows(f, g, ins) && More(pts, qts)
    requires Stands(g, ins', head', next', qts, at', tests')
    requires Restored(text, cfg, g, qts, toks, uoks, at', opens')
    ensures Good(text, cfg, g, ins', head', next', qts, uoks, at', tests', opens')
  {
    ToksKept(text, cfg, f, g, pts, qts, ins, toks);
  }

  /** Straight-line code: the insertion block gets longer. */
  lemma Appended(text: string, cfg: Config, f: seq<Block>, ins: nat, head: nat, next: nat, pts: Points, toks: Tokens,
                 at: nat, tests: set<nat>, opens: set<nat>, code: seq<Instr>, tok: Token, head': nat, next': nat,
                 g: seq<Block>, qts: Points)
    requires Good(text, cfg, f, ins, head, next, pts, toks, at, tests, opens)
    requires ARRMAX < head' < next' && tok.next > at
    requires g == Append(f, ins, code) && qts == pts[tok.next := Point(ins, |f[ins].body| + |code|, head')]
    requires Laid(text, cfg, g, qts, at, tok)
    ensures Good(text, cfg, g, ins, head', next', qts, toks[at := tok], tok.next, tests, opens)
    ensures Extends(f, g, ins, ins, pts, qts, tests)
  {
    LinkedAppend(f, ins, code);
    assert forall b :: 0 <= b < |f| && b != ins ==> g[b] == f[b];
    Advance(text, cfg, f, ins, head, next, pts, toks, at, tests, opens, g, ins, head', next',
            qts, toks[at := tok], tok.next, tests, opens);
  }

  /** A checked move ends its block with a branch to the error block or to a new one. */
  lemma Branched(text: string, cfg: Config, f: seq<Block>, ins: nat, head: nat, next: nat, pts: Points, toks: Tokens,
                 at: nat, tests: set<nat>, opens: set<nat>, code: seq<Instr>, cond: nat, tok: Token, head': nat,
                 next': nat, g: seq<Block>, qts: Points)
    requires Good(text, cfg, f, ins, head, next, pts, toks, at, tests, opens) && cfg.bounds
    requires ARRMAX < head' < next' && tok.next > at
    requires g == Close(Append(f, ins, code), ins, CondBr(cond, ABERRORBB, |f|)) + [NEWBLOCK]
    requires qts == pts[tok.next := Point(|f|, 0, head')]
    requires Laid(text, cfg, g, qts, at, tok)
    ensures Good(text, cfg, g, |f|, head', next', qts, toks[at := tok], tok.next, tests, opens)
    ensures Extends(f, g, ins, |f|, pts, qts, tests)
  {
    LinkedBranch(f, ins, code, cond, ABERRORBB, g);
    assert forall b :: 0 <= b < |f| && b != ins ==> g[b] == f[b];
    Advance(text, cfg, f, ins, head, next, pts, toks, at, tests, opens, g, |f|, head', next',
            qts, toks[at := tok], tok.next, tests, opens);
  }

  // ----- loops -----

  /** The loop whose '[' is the symbol at `op`: its test block `test` has only the entry phi, and
      its body starts in block `body`. */
  ghost predicate Waiting(text: string, f: seq<Block>, pts: Points, op: nat, tok: Token, test: nat, body: nat) {
    op in pts && IsToken(text, op, tok.sym, tok.value, tok.next) && tok.sym == SymLoop &&
    var pt := pts[op];
    pt.blk < |f| && |f[pt.blk].body| == pt.idx && f[pt.blk].term == Some(Br(test)) &&
    test < |f| && f[test].phi.Some? && f[test].body == [] && f[test].term.None? &&
    f[test].phi.value.incoming == [Incoming(pt.blk, pt.head)] && f[test].phi.value.dst > ARRMAX &&
    Enters(f, pts, tok.next, body, f[test].phi.value.dst)
  }

  lemma WaitingKept(text: string, f: seq<Block>, g: seq<Block>, pts: Points, qts: Points, ins: nat, op: nat,
                    tok: Token, test: nat, body: nat)
    requires Waiting(text, f, pts, op, tok, test, body)
    requires Settled(f, pts, ins) && Grows(f, g, ins) && More(pts, qts) && g[test] == f[test]
    ensures Waiting(text, g, qts, op, tok, test, body)
  {
  }

  lemma OpenStands(text: string, cfg: Config, f: seq<Block>, ins: nat, head: nat, next: nat, pts: Points,
                   toks: Tokens, at: nat, tests: set<nat>, opens: set<nat>, to: nat, g: seq<Block>, qts: Points)
    requires Good(text, cfg, f, ins, head, next, pts, toks, at, tests, opens) && to > at
    requires g == OpenLoop(f, ins, head, next) && qts == pts[to := Point(|f| + 1, 0, next)]
    ensures Stands(g, |f| + 1, next, next + 1, qts, to, tests + {|f|})
    ensures Grows(f, g, ins) && More(pts, qts)
  {
    LinkedOpen(f, ins, head, next);
    assert forall b :: 0 <= b < |f| && b != ins ==> g[b] == f[b];
  }

  lemma Opened(text: string, cfg: Config, f: seq<Block>, ins: nat, head: nat, next: nat, pts: Points, toks: Tokens,
               at: nat, tests: set<nat>, opens: set<nat>, tok: Token, g: seq<Block>, qts: Points)
    requires Good(text, cfg, f, ins, head, next, pts, toks, at, tests, opens)
    requires IsToken(text, at, tok.sym, tok.value, tok.next) && tok.sym == SymLoop
    requires g == OpenLoop(f, ins, head, next) && qts == pts[tok.next := Point(|f| + 1, 0, next)]
    ensures Good(text, cfg, g, |f| + 1, next, next + 1, qts, toks, tok.next, tests + {|f|}, opens + {at})
    ensures Waiting(text, g, qts, at, tok, |f|, |f| + 1)
    ensures Extends(f, g, ins, |f| + 1, pts, qts, tests)
  {
    OpenStands(text, cfg, f, ins, head, next, pts, toks, at, tests, opens, tok.next, g, qts);
    Advance(text, cfg, f, ins, head, next, pts, toks, at, tests, opens, g, |f| + 1, next, next + 1,
            qts, toks, tok.next, tests + {|f|}, opens + {at});
  }

  lemma LoopIsLaid(text: string, f: seq<Block>, ins: nat, head: nat, pts: Points, op: nat, opTok: Token, test: nat,
                   body: nat, t: nat, c: nat, out: nat, g: seq<Block>, qts: Points, close: nat)
    requires Waiting(text, f, pts, op, opTok, test, body) && More(pts, qts)
    requires ins < |f| && f[ins].term.None? && ins != test
    requires Apart(t, f[test].phi.value.dst) && Apart(c, f[test].phi.value.dst) && out > ARRMAX
    requires CloseOf(text, opTok.next - 1) == close
    requires g == CloseLoop(f, ins, head, test, body, t, c, out)
    requires close + 1 in qts && qts[close + 1] == Point(|f|, 0, out)
    ensures LoopLaid(text, g, qts, pts[op], opTok.next - 1)
    ensures LoopLaid(text, g, qts, Point(ins, |f[ins].body|, head), opTok.next - 1)
  {
    var b0, h0 := pts[op].blk, pts[op].head;
    var incoming := g[test].phi.value.incoming;
    assert incoming == [Incoming(b0, h0), Incoming(ins, head)];
    assert incoming[1..] == [Incoming(ins, head)];
    assert TestLaid(text, g, qts, test, opTok.next - 1);
  }

  /** Closing the loop lays both of its symbols. */
  lemma BothLaid(text: string, cfg: Config, f: seq<Block>, ins: nat, head: nat, next: nat, pts: Points, at: nat,
                 tok: Token, op: nat, opTok: Token, test: nat, body: nat, g: seq<Block>, qts: Points)
    requires Waiting(text, f, pts, op, opTok, test, body) && f[test].phi.value.dst < next
    requires ins < |f| && f[ins].term.None? && ins != test && at in pts && pts[at] == Point(ins, |f[ins].body|, head)
    requires IsToken(text, at, tok.sym, tok.value, tok.next) && tok.sym == SymEndLoop
    requires CloseOf(text, opTok.next - 1) == tok.next - 1 && OpenOf(text, tok.next - 1) == opTok.next - 1
    requires g == CloseLoop(f, ins, head, test, body, next, next + 1, next + 2)
    requires More(pts, qts) && tok.next in qts && qts[tok.next] == Point(|f|, 0, next + 2)
    ensures Laid(text, cfg, g, qts, at, tok) && Laid(text, cfg, g, qts, op, opTok)
  {
    LoopIsLaid(text, f, ins, head, pts, op, opTok, test, body, next, next + 1, next + 2, g, qts, tok.next - 1);
  }

  lemma CloseSettled(f: seq<Block>, ins: nat, head: nat, next: nat, pts: Points, to: nat, test: nat, body: nat,
                     tests: set<nat>, g: seq<Block>, qts: Points)
    requires ins < |f| && test < |f| && f[test].phi.Some? && Settled(f, pts, ins) && f[ins].term.None? && ins != test
    requires test in tests && ins !in tests && (forall b :: b in tests ==> b < |f|)
    requires forall b :: 0 <= b < |f| ==> (f[b].term.None? <==> b == ins || b in tests)
    requires g == CloseLoop(f, ins, head, test, body, next, next + 1, next + 2)
    requires to !in pts && qts == pts[to := Point(|f|, 0, next + 2)]
    ensures Settled(g, qts, |f|) && Grows(f, g, ins) && More(pts, qts)
    ensures forall b :: 0 <= b < |g| ==> (g[b].term.None? <==> b == |f| || b in tests - {test})
  {
    assert forall b :: 0 <= b < |f| && b != ins && b != test ==> g[b] == f[b];
  }

  lemma CloseStands(text: string, cfg: Config, f: seq<Block>, ins: nat, head: nat, next: nat, pts: Points,
                    toks: Tokens, at: nat, tests: set<nat>, opens: set<nat>, to: nat, op: nat, opTok: Token,
                    test: nat, body: nat, g: seq<Block>, qts: Points)
    requires Good(text, cfg, f, ins, head, next, pts, toks, at, tests, opens) && to > at
    requires Waiting(text, f, pts, op, opTok, test, body) && test in tests
    requires g == CloseLoop(f, ins, head, test, body, next, next + 1, next + 2) &&
      qts == pts[to := Point(|f|, 0, next + 2)]
    ensures Stands(g, |f|, next + 2, next + 3, qts, to, tests - {test})
    ensures Extends(f, g, ins, |f|, pts, qts, tests - {test})
  {
    LinkedClose(f, ins, head, test, body, next, next + 1, next + 2, pts[op].blk, pts[op].head);
    CloseSettled(f, ins, head, next, pts, to, test, body, tests, g, qts);
  }

  /** The symbols that are laid once the loop is closed. */
  lemma BothStored(text: string, cfg: Config, g: seq<Block>, pts: Points, qts: Points, toks: Tokens, uoks: Tokens,
                   at: nat, to: nat, opens: set<nat>, tok: Token, op: nat, opTok: Token)
    requires at in pts && at !in opens && opens <= pts.Keys && op in opens && to !in pts
    requires forall p :: p in toks <==> p in pts && p != at && p !in opens
    requires qts.Keys == pts.Keys + {to} && uoks == toks[at := tok][op := opTok]
    requires Laid(text, cfg, g, qts, at, tok) && Laid(text, cfg, g, qts, op, opTok)
    ensures Restored(text, cfg, g, qts, toks, uoks, to, opens - {op})
  {
  }

  lemma CloseStores(text: string, cfg: Config, f: seq<Block>, ins: nat, head: nat, next: nat, pts: Points,
                    toks: Tokens, at: nat, tests: set<nat>, opens: set<nat>, tok: Token, op: nat, opTok: Token,
                    test: nat, body: nat, g: seq<Block>, qts: Points)
    requires Good(text, cfg, f, ins, head, next, pts, toks, at, tests, opens)
    requires Waiting(text, f, pts, op, opTok, test, body) && op in opens && test in tests &&
      f[test].phi.value.dst < next
    requires IsToken(text, at, tok.sym, tok.value, tok.next) && tok.sym == SymEndLoop
    requires CloseOf(text, opTok.next - 1) == tok.next - 1 && OpenOf(text, tok.next - 1) == opTok.next - 1
    requires g == CloseLoop(f, ins, head, test, body, next, next + 1, next + 2) &&
      qts == pts[tok.next := Point(|f|, 0, next + 2)]
    ensures Restored(text, cfg, g, qts, toks, toks[at := tok][op := opTok], tok.next, opens - {op})
  {
    BothLaid(text, cfg, f, ins, head, next, pts, at, tok, op, opTok, test, body, g, qts);
    BothStored(text, cfg, g, pts, qts, toks, toks[at := tok][op := opTok], at, tok.next, opens, tok, op, opTok);
  }

  lemma Closed(text: string, cfg: Config, f: seq<Block>, ins: nat, head: nat, next: nat, pts: Points, toks: Tokens,
               at: nat, tests: set<nat>, opens: set<nat>, tok: Token, op: nat, opTok: Token, test: nat, body: nat,
               g: seq<Block>, qts: Points)
    requires Good(text, cfg, f, ins, head, next, pts, toks, at, tests, opens)
    requires Waiting(text, f, pts, op, opTok, test, body) && op in opens && test in tests &&
      f[test].phi.value.dst < next
    requires IsToken(text, at, tok.sym, tok.value, tok.next) && tok.sym == SymEndLoop
    requires CloseOf(text, opTok.next - 1) == tok.next - 1 && OpenOf(text, tok.next - 1) == opTok.next - 1
    requires g == CloseLoop(f, ins, head, test, body, next, next + 1, next + 2) &&
      qts == pts[tok.next := Point(|f|, 0, next + 2)]
    ensures Good(text, cfg, g, |f|, next + 2, next + 3, qts, toks[at := tok][op := opTok], tok.next, tests - {test},
                 opens - {op})
    ensures Extends(f, g, ins, |f|, pts, qts, tests - {test})
  {
    CloseStands(text, cfg, f, ins, head, next, pts, toks, at, tests, opens, tok.next, op, opTok, test, body, g, qts);
    CloseStores(text, cfg, f, ins, head, next, pts, toks, at, tests, opens, tok, op, opTok, test, body, g, qts);
    Advance(text, cfg, f, ins, head, next, pts, toks, at, tests, opens, g, |f|, next + 2, next + 3,
            qts, toks[at := tok][op := opTok], tok.next, tests - {test}, opens - {op});
  }

  /** The end of the text: the last block goes to the return block and everything is laid. */
  lemma Ended(text: string, cfg: Config, f: seq<Block>, ins: nat, head: nat, next: nat, pts: Points, toks: Tokens,
              at: nat, tok: Token)
    requires Good(text, cfg, f, ins, head, next, pts, toks, at, {}, {})
    requires IsToken(text, at, tok.sym, tok.value, tok.next) && tok.sym == SymEof
    ensures Compiled(text, cfg, Close(f, ins, Br(ENDBB)), pts, toks[at := tok])
    ensures WellFormed(Close(f, ins, Br(ENDBB)))
  {
    var g := Close(f, ins, Br(ENDBB));
    LinkedEnd(f, ins, ENDBB);
    assert forall b :: 0 <= b < |f| && b != ins ==> g[b] == f[b];
    ToksKept(text, cfg, f, g, pts, pts, ins, toks);
    assert forall p :: p in toks[at := tok] <==> p in pts;
    assert Laid(text, cfg, g, pts, at, tok);
  }
}
