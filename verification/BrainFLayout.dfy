/** What it means for a list of blocks to be the code of a program text. Every position of the
    text at which a symbol starts has a point in the code: a block, an index into its body, and
    the register that holds the head there. */
module BrainFLayout {
  import opened BrainFSource
  import opened BrainFTarget
  import opened BrainFTokens

  const ARR: nat := 0
  const ARRMAX: nat := 1
  const FIRSTHEAD: nat := 2
  const ENDBB: nat := 1
  const ABERRORBB: nat := 2

  datatype Point = Point(blk: nat, idx: nat, head: nat)

  datatype Token = Token(sym: Symbol, value: int, next: nat)

  type Points = map<int, Point>

  type Tokens = map<int, Token>

  /** Writing `r` disturbs neither the array pointers nor the head. */
  predicate Apart(r: nat, head: nat) { r > ARRMAX && r != head }

  predicate ReadCode(c: seq<Instr>, i: nat, h: nat) {
    i + 3 <= |c| && c[i].GetChar? && c[i + 1].Trunc? && c[i + 1].src == c[i].dst &&
    c[i + 2] == Store(c[i + 1].dst, h) && Apart(c[i].dst, h) && Apart(c[i + 1].dst, h)
  }

  predicate WriteCode(c: seq<Instr>, i: nat, h: nat) {
    i + 3 <= |c| && c[i].Load? && c[i].ptr == h && c[i + 1].SExt? && c[i + 1].src == c[i].dst &&
    c[i + 2] == PutChar(c[i + 1].dst) && Apart(c[i].dst, h) && Apart(c[i + 1].dst, h)
  }

  predicate ChangeCode(c: seq<Instr>, i: nat, h: nat, k: int) {
    i + 3 <= |c| && c[i].Load? && c[i].ptr == h && c[i + 1].Add? && c[i + 1].src == c[i].dst && c[i + 1].k == k &&
    c[i + 2] == Store(c[i + 1].dst, h) && Apart(c[i].dst, h) && Apart(c[i + 1].dst, h)
  }

  predicate MoveCode(c: seq<Instr>, i: nat, h: nat, k: int) {
    i < |c| && c[i].Gep? && c[i].base == h && c[i].k == k && Apart(c[i].dst, h)
  }

  /** The three comparisons that test whether `h` has left the array. */
  predicate CheckCode(c: seq<Instr>, i: nat, h: nat) {
    i + 3 <= |c| && c[i].IcmpUge? && c[i].l == h && c[i].r == ARRMAX &&
    c[i + 1].IcmpUlt? && c[i + 1].l == h && c[i + 1].r == ARR &&
    c[i + 2].Or? && c[i + 2].l == c[i].dst && c[i + 2].r == c[i + 1].dst &&
    Apart(c[i].dst, h) && Apart(c[i + 1].dst, h) && Apart(c[i + 2].dst, h) && c[i].dst != c[i + 1].dst
  }

  /** Control can enter `b` by a plain edge and be at the point of `p`. */
  predicate Enters(f: seq<Block>, pts: Points, p: nat, b: nat, h: nat) {
    p in pts && pts[p] == Point(b, 0, h) && b < |f| && f[b].phi == None
  }

  predicate MoveLaid(cfg: Config, f: seq<Block>, pts: Points, pt: Point, k: int, next: nat)
    requires pt.blk < |f|
  {
    var blk := f[pt.blk];
    MoveCode(blk.body, pt.idx, pt.head, k) &&
    var h := blk.body[pt.idx].dst;
    if !cfg.bounds then next in pts && pts[next] == Point(pt.blk, pt.idx + 1, h)
    else
      CheckCode(blk.body, pt.idx + 1, h) && |blk.body| == pt.idx + 4 &&
      blk.term.Some? && blk.term.value.CondBr? &&
      blk.term.value.cond == blk.body[pt.idx + 3].dst && blk.term.value.yes == ABERRORBB &&
      Enters(f, pts, next, blk.term.value.no, h)
  }

  /** Block `test` loads the cell, and leaves or enters the body of the loop opened at `open`. */
  predicate TestLaid(text: string, f: seq<Block>, pts: Points, test: nat, open: nat) {
    open < |text| && test < |f| && f[test].phi.Some? && |f[test].body| == 2 && f[test].term.Some? &&
    var h := f[test].phi.value.dst;
    var c := f[test].body;
    c[0].Load? && c[0].ptr == h && c[1].IsZero? && c[1].src == c[0].dst &&
    h > ARRMAX && Apart(c[0].dst, h) && Apart(c[1].dst, h) &&
    f[test].term.value.CondBr? && f[test].term.value.cond == c[1].dst &&
    var exit := f[test].term.value.yes;
    Enters(f, pts, open + 1, f[test].term.value.no, h) &&
    CloseOf(text, open) + 1 in pts && exit < |f| &&
    var out := pts[CloseOf(text, open) + 1];
    out.blk == exit && out.idx == 0 && out.head > ARRMAX &&
    f[exit].phi == Some(Phi(out.head, [Incoming(test, h)]))
  }

  /** The block of `pt` ends there with a branch to the loop test, which takes its head. */
  predicate LoopLaid(text: string, f: seq<Block>, pts: Points, pt: Point, open: nat)
    requires pt.blk < |f|
  {
    var blk := f[pt.blk];
    |blk.body| == pt.idx && blk.term.Some? && blk.term.value.Br? &&
    var test := blk.term.value.target;
    TestLaid(text, f, pts, test, open) &&
    Lookup(f[test].phi.value.incoming, pt.blk) == Some(pt.head)
  }

  /** The code at the point of `p` is the code of the symbol `tok` that starts there. */
  ghost predicate Laid(text: string, cfg: Config, f: seq<Block>, pts: Points, p: int, tok: Token)
    requires p in pts
  {
    var pt := pts[p];
    p >= 0 && pt.blk < |f| && IsToken(text, p, tok.sym, tok.value, tok.next) &&
    var c := f[pt.blk].body;
    match tok.sym
    case SymNone => false
    case SymRead => ReadCode(c, pt.idx, pt.head) && tok.next in pts && pts[tok.next] == pt.(idx := pt.idx + 3)
    case SymWrite => WriteCode(c, pt.idx, pt.head) && tok.next in pts && pts[tok.next] == pt.(idx := pt.idx + 3)
    case SymChange =>
      ChangeCode(c, pt.idx, pt.head, tok.value) && tok.next in pts && pts[tok.next] == pt.(idx := pt.idx + 3)
    case SymMove => MoveLaid(cfg, f, pts, pt, tok.value, tok.next)
    case SymLoop => LoopLaid(text, f, pts, pt, tok.next - 1)
    case SymEndLoop =>
      var open := OpenOf(text, tok.next - 1);
      LoopLaid(text, f, pts, pt, open) && text[open] == '[' && CloseOf(text, open) == tok.next - 1
    case SymEof => |c| == pt.idx && f[pt.blk].term == Some(Br(ENDBB))
  }

  function HeaderCode(cfg: Config): seq<Instr> {
    [Malloc(ARR, cfg.mem), Memset(ARR, cfg.mem)] +
    (if cfg.bounds then [Gep(ARRMAX, ARR, cfg.mem)] else []) +
    [Gep(FIRSTHEAD, ARR, cfg.mem / 2)]
  }

  predicate FrameLaid(cfg: Config, f: seq<Block>, pts: Points) {
    |f| > (if cfg.bounds then 2 else 1) &&
    f[0].phi == None && HeaderCode(cfg) <= f[0].body &&
    0 in pts && pts[0] == Point(0, |HeaderCode(cfg)|, FIRSTHEAD) &&
    f[ENDBB] == Block(None, [Free(ARR)], Some(Ret)) &&
    (cfg.bounds ==> f[ABERRORBB] == Block(None, [Puts], Some(Br(ENDBB))))
  }

  ghost predicate AllLaid(text: string, cfg: Config, f: seq<Block>, pts: Points, toks: Tokens) {
    forall p {:trigger Laid(text, cfg, f, pts, p, toks[p])} ::
      p in toks ==> p in pts && Laid(text, cfg, f, pts, p, toks[p])
  }

  /** The whole text has been laid out. */
  ghost predicate Compiled(text: string, cfg: Config, f: seq<Block>, pts: Points, toks: Tokens) {
    FrameLaid(cfg, f, pts) && toks.Keys == pts.Keys && AllLaid(text, cfg, f, pts, toks)
  }
}
