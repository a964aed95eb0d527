/** Registers are defined before they are used, on every path through the blocks. */
module BrainFDefinitions {
  import opened BrainFSource
  import opened BrainFTarget
  import opened BrainFSSA
  import opened BrainFLayout

  function Uses(i: Instr): set<nat> {
    match i
    case Malloc(_, _) => {}
    case Memset(p, _) => {p}
    case Gep(_, b, _) => {b}
    case GetChar(_) => {}
    case Trunc(_, s) => {s}
    case Store(s, p) => {s, p}
    case Load(_, p) => {p}
    case SExt(_, s) => {s}
    case PutChar(s) => {s}
    case Add(_, s, _) => {s}
    case IcmpUge(_, l, r) => {l, r}
    case IcmpUlt(_, l, r) => {l, r}
    case Or(_, l, r) => {l, r}
    case IsZero(_, s) => {s}
    case Puts => {}
    case Free(p) => {p}
  }

  function Dst(i: Instr): set<nat> {
    match i
    case Malloc(d, _) => {d}
    case Gep(d, _, _) => {d}
    case GetChar(d) => {d}
    case Trunc(d, _) => {d}
    case Load(d, _) => {d}
    case SExt(d, _) => {d}
    case Add(d, _, _) => {d}
    case IcmpUge(d, _, _) => {d}
    case IcmpUlt(d, _, _) => {d}
    case Or(d, _, _) => {d}
    case IsZero(d, _) => {d}
    case _ => {}
  }

  function CodeDefs(code: seq<Instr>): set<nat> {
    if code == [] then {} else CodeDefs(code[..|code| - 1]) + Dst(code[|code| - 1])
  }

  function PhiDef(b: Block): set<nat> { if b.phi.Some? then {b.phi.value.dst} else {} }

  function TermUses(b: Block): set<nat> {
    if b.term.Some? && b.term.value.CondBr? then {b.term.value.cond} else {}
  }

  /** Every instruction uses what is known before the code or defined in it before. */
  predicate CodeOk(code: seq<Instr>, known: set<nat>) {
    code == [] ||
    (var n := |code| - 1;
     Uses(code[n]) <= known + CodeDefs(code[..n]) && CodeOk(code[..n], known))
  }

  /** What is defined at the end of a block if `live` is at its start. */
  function Avail(b: Block, live: set<nat>): set<nat> { live + PhiDef(b) + CodeDefs(b.body) }

  predicate BlockOk(b: Block, live: set<nat>) {
    CodeOk(b.body, live + PhiDef(b)) && TermUses(b) <= Avail(b, live)
  }

  /** What the phi of `t` takes for the edge from `a` is in `known`. */
  ghost predicate PhiUses(f: seq<Block>, a: nat, t: nat, known: set<nat>)
    requires t < |f|
  {
    f[t].phi.Some? ==> forall i :: i in f[t].phi.value.incoming && i.block == a ==> i.reg in known
  }

  ghost predicate EdgeOk(f: seq<Block>, live: seq<set<nat>>, a: nat, t: nat)
    requires |live| == |f| && a < |f| && t < |f|
  {
    live[t] <= Avail(f[a], live[a]) && PhiUses(f, a, t, Avail(f[a], live[a]))
  }

  /** `live` tells which registers are defined wherever control enters each block. */
  ghost predicate Defined(f: seq<Block>, live: seq<set<nat>>) {
    |live| == |f| > 0 && live[0] == {} &&
    (forall b {:trigger BlockOk(f[b], live[b])} :: 0 <= b < |f| ==> BlockOk(f[b], live[b])) &&
    (forall a, t {:trigger EdgeOk(f, live, a, t)} ::
     0 <= a < |f| && 0 <= t < |f| && HasEdge(f, a, t) ==> EdgeOk(f, live, a, t))
  }

  // ----- what it means: paths -----

  ghost predicate Path(f: seq<Block>, p: seq<nat>) {
    p != [] && p[0] == 0 && (forall i :: 0 <= i < |p| ==> p[i] < |f|) &&
    forall i :: 0 <= i && i + 1 < |p| ==> HasEdge(f, p[i], p[i + 1])
  }

  /** What the blocks of a path define. */
  function DefsAlong(f: seq<Block>, p: seq<nat>): set<nat>
    requires forall i :: 0 <= i < |p| ==> p[i] < |f|
  {
    if p == [] then {}
    else DefsAlong(f, p[..|p| - 1]) + PhiDef(f[p[|p| - 1]]) + CodeDefs(f[p[|p| - 1]].body)
  }

  /** The last block of a path uses what was defined on the path, or in the block before the use. */
  ghost predicate UsesDefined(f: seq<Block>, p: seq<nat>)
    requires Path(f, p)
  {
    var n := |p| - 1;
    var known := DefsAlong(f, p[..n]);
    BlockOk(f[p[n]], known) && (n > 0 ==> PhiUses(f, p[n - 1], p[n], known))
  }

  ghost predicate DefinedOnEveryPath(f: seq<Block>) {
    forall p {:trigger UsesDefined(f, p)} :: Path(f, p) ==> UsesDefined(f, p)
  }

  lemma {:induction false} CodeOkMore(code: seq<Instr>, known: set<nat>, more: set<nat>)
    requires CodeOk(code, known) && known <= more
    ensures CodeOk(code, more)
    decreases |code|
  {
    if code != [] { CodeOkMore(code[..|code| - 1], known, more); }
  }

  lemma {:induction false} LiveOnPath(f: seq<Block>, live: seq<set<nat>>, p: seq<nat>)
    requires Defined(f, live) && Path(f, p)
    ensures live[p[|p| - 1]] <= DefsAlong(f, p[..|p| - 1])
    decreases |p|
  {
    var n := |p| - 1;
    if n > 0 {
      var q := p[..n];
      assert q[..n - 1] == p[..n - 1];
      LiveOnPath(f, live, q);
      assert HasEdge(f, p[n - 1], p[n]) && EdgeOk(f, live, p[n - 1], p[n]);
    }
  }

  lemma DefinedMeans(f: seq<Block>, live: seq<set<nat>>)
    requires Defined(f, live)
    ensures DefinedOnEveryPath(f)
  {
    forall p | Path(f, p)
      ensures UsesDefined(f, p)
    {
      var n := |p| - 1;
      LiveOnPath(f, live, p);
      assert BlockOk(f[p[n]], live[p[n]]);
      CodeOkMore(f[p[n]].body, live[p[n]] + PhiDef(f[p[n]]), DefsAlong(f, p[..n]) + PhiDef(f[p[n]]));
      if n > 0 {
        var q := p[..n];
        assert q[..n - 1] == p[..n - 1];
        LiveOnPath(f, live, q);
        assert HasEdge(f, p[n - 1], p[n]) && EdgeOk(f, live, p[n - 1], p[n]);
      }
    }
  }

  // ----- the builder's operations -----

  lemma {:induction false} CodeDefsAppend(code: seq<Instr>, more: seq<Instr>)
    ensures CodeDefs(code + more) == CodeDefs(code) + CodeDefs(more)
    decreases |more|
  {
    if more == [] {
      assert code + more == code;
    } else {
      var n := |more| - 1;
      assert (code + more)[..|code| + n] == code + more[..n];
      CodeDefsAppend(code, more[..n]);
    }
  }

  lemma {:induction false} CodeOkAppend(code: seq<Instr>, more: seq<Instr>, known: set<nat>)
    requires CodeOk(code, known) && CodeOk(more, known + CodeDefs(code))
    ensures CodeOk(code + more, known)
    decreases |more|
  {
    if more == [] {
      assert code + more == code;
    } else {
      var n := |more| - 1;
      assert (code + more)[..|code| + n] == code + more[..n];
      CodeOkAppend(code, more[..n], known);
      CodeDefsAppend(code, more[..n]);
    }
  }

  /** Changing what comes after the start of one open block, and adding blocks nothing leads to. */
  lemma DefinedAppend(f: seq<Block>, live: seq<set<nat>>, ins: nat, code: seq<Instr>)
    requires Defined(f, live) && ins < |f| && f[ins].term.None? && CodeOk(code, Avail(f[ins], live[ins]))
    ensures Defined(Append(f, ins, code), live)
    ensures Avail(Append(f, ins, code)[ins], live[ins]) == Avail(f[ins], live[ins]) + CodeDefs(code)
  {
    var g := Append(f, ins, code);
    assert BlockOk(f[ins], live[ins]);
    CodeOkAppend(f[ins].body, code, live[ins] + PhiDef(f[ins]));
    CodeDefsAppend(f[ins].body, code);
    forall b | 0 <= b < |g| ensures BlockOk(g[b], live[b]) {
      assert BlockOk(f[b], live[b]);
    }
    forall a, t | 0 <= a < |g| && 0 <= t < |g| && HasEdge(g, a, t) ensures EdgeOk(g, live, a, t) {
      assert HasEdge(f, a, t) && EdgeOk(f, live, a, t);
    }
  }

  lemma DefinedClose(f: seq<Block>, live: seq<set<nat>>, ins: nat, t: Terminator)
    requires Defined(f, live) && ins < |f| && f[ins].term.None?
    requires t.CondBr? ==> t.cond in Avail(f[ins], live[ins])
    requires forall b :: 0 <= b < |f| && b in Targets(t) ==> EdgeOk(f, live, ins, b)
    ensures Defined(Close(f, ins, t), live)
  {
    var g := Close(f, ins, t);
    forall b | 0 <= b < |g| ensures BlockOk(g[b], live[b]) {
      assert BlockOk(f[b], live[b]);
    }
    forall a, b | 0 <= a < |g| && 0 <= b < |g| && HasEdge(g, a, b) ensures EdgeOk(g, live, a, b) {
      assert a == ins || HasEdge(f, a, b);
      assert EdgeOk(f, live, a, b);
    }
  }

  /** A new block that nothing leads to yet. */
  lemma DefinedNew(f: seq<Block>, live: seq<set<nat>>, b: Block, l: set<nat>)
    requires Defined(f, live) && b.term.None? && b.body == []
    requires forall a :: 0 <= a < |f| && f[a].term.Some? ==> |f| !in Targets(f[a].term.value)
    ensures Defined(f + [b], live + [l])
  {
    var g, m := f + [b], live + [l];
    forall i | 0 <= i < |g| ensures BlockOk(g[i], m[i]) {
      if i < |f| { assert BlockOk(f[i], live[i]); }
    }
    forall a, t | 0 <= a < |g| && 0 <= t < |g| && HasEdge(g, a, t) ensures EdgeOk(g, m, a, t) {
      assert HasEdge(f, a, t) && EdgeOk(f, live, a, t);
    }
  }

  // ----- the compiler's state -----

  /** What is defined everywhere behind the header. */
  function Base(cfg: Config): set<nat> { {ARR} + if cfg.bounds then {ARRMAX} else {} }

  predicate AllKnown(cfg: Config, head: nat, known: set<nat>) {
    ARR in known && head in known && (cfg.bounds ==> ARRMAX in known)
  }

  /** At the insertion point the array and the head are defined; the return and error blocks need only the array. */
  ghost predicate InScope(cfg: Config, f: seq<Block>, ins: nat, head: nat, live: seq<set<nat>>) {
    Defined(f, live) && ins < |f| && AllKnown(cfg, head, Avail(f[ins], live[ins])) &&
    ENDBB < |f| && live[ENDBB] == {ARR} && f[ENDBB].phi == None &&
    (cfg.bounds ==> ABERRORBB < |f| && live[ABERRORBB] == {ARR} && f[ABERRORBB].phi == None)
  }

  lemma AppendInScope(cfg: Config, f: seq<Block>, ins: nat, head: nat, live: seq<set<nat>>, code: seq<Instr>,
                      head': nat)
    requires InScope(cfg, f, ins, head, live) && f[ins].term.None? && CodeOk(code, Base(cfg) + {head})
    requires head' == head || head' in CodeDefs(code)
    ensures InScope(cfg, Append(f, ins, code), ins, head', live)
  {
    CodeOkMore(code, Base(cfg) + {head}, Avail(f[ins], live[ins]));
    DefinedAppend(f, live, ins, code);
  }

  lemma BranchInScope(cfg: Config, f: seq<Block>, ins: nat, head: nat, live: seq<set<nat>>, cond: nat, g: seq<Block>)
    requires InScope(cfg, f, ins, head, live) && f[ins].term.None? && cfg.bounds && Linked(f)
    requires cond in Avail(f[ins], live[ins]) && g == Close(f, ins, CondBr(cond, ABERRORBB, |f|)) + [NEWBLOCK]
    ensures InScope(cfg, g, |f|, head, live + [Base(cfg) + {head}])
  {
    NoEdgesOut(f);
    DefinedNew(f, live, NEWBLOCK, Base(cfg) + {head});
    var h, m := f + [NEWBLOCK], live + [Base(cfg) + {head}];
    assert EdgeOk(h, m, ins, ABERRORBB) && EdgeOk(h, m, ins, |f|);
    DefinedClose(h, m, ins, CondBr(cond, ABERRORBB, |f|));
    assert g == Close(h, ins, CondBr(cond, ABERRORBB, |f|));
  }

  lemma NoEdgesOut(f: seq<Block>)
    requires Linked(f)
    ensures forall a :: 0 <= a < |f| && f[a].term.Some? ==>
      |f| !in Targets(f[a].term.value) && |f| + 1 !in Targets(f[a].term.value)
  {
    forall a | 0 <= a < |f| && f[a].term.Some?
      ensures |f| !in Targets(f[a].term.value) && |f| + 1 !in Targets(f[a].term.value)
    {
      assert TargetsOk(f, a);
    }
  }

  lemma OpenInScope(cfg: Config, f: seq<Block>, ins: nat, head: nat, live: seq<set<nat>>, h: nat)
    requires InScope(cfg, f, ins, head, live) && f[ins].term.None? && Linked(f)
    ensures InScope(cfg, OpenLoop(f, ins, head, h), |f| + 1, h, live + [Base(cfg), Base(cfg) + {h}])
  {
    NoEdgesOut(f);
    var test := Block(Some(Phi(h, [Incoming(ins, head)])), [], None);
    DefinedNew(f, live, test, Base(cfg));
    var g, m := f + [test], live + [Base(cfg)];
    DefinedNew(g, m, NEWBLOCK, Base(cfg) + {h});
    var k, l := g + [NEWBLOCK], m + [Base(cfg) + {h}];
    assert EdgeOk(k, l, ins, |f|);
    DefinedClose(k, l, ins, Br(|f|));
    assert OpenLoop(f, ins, head, h) == Close(k, ins, Br(|f|));
    assert l == live + [Base(cfg), Base(cfg) + {h}];
  }

  /** The phi of a loop test gets its second entry. */
  lemma PhiDefined(f: seq<Block>, live: seq<set<nat>>, test: nat, ins: nat, head: nat)
    requires Defined(f, live) && ins < |f| && test < |f| && f[ins].term.None? && f[test].phi.Some?
    ensures var phi := f[test].phi.value;
      Defined(f[test := f[test].(phi := Some(phi.(incoming := phi.incoming + [Incoming(ins, head)])))], live)
  {
    var phi := f[test].phi.value;
    var g := f[test := f[test].(phi := Some(phi.(incoming := phi.incoming + [Incoming(ins, head)])))];
    forall b | 0 <= b < |g| ensures BlockOk(g[b], live[b]) {
      assert BlockOk(f[b], live[b]);
    }
    forall a, t | 0 <= a < |g| && 0 <= t < |g| && HasEdge(g, a, t) ensures EdgeOk(g, live, a, t) {
      assert HasEdge(f, a, t) && EdgeOk(f, live, a, t);
    }
  }

  lemma CloseInScope(cfg: Config, f: seq<Block>, ins: nat, head: nat, live: seq<set<nat>>, test: nat, body: nat,
                     t: nat, c: nat, out: nat, b0: nat, h0: nat)
    requires InScope(cfg, f, ins, head, live) && f[ins].term.None? && Linked(f)
    requires test < |f| && f[test].term.None? && f[test].body == [] && ins != test && body < |f| && f[body].phi.None?
    requires f[test].phi.Some? && f[test].phi.value.incoming == [Incoming(b0, h0)] && b0 != ins
    requires test != ENDBB && (cfg.bounds ==> test != ABERRORBB)
    requires live[test] == Base(cfg) && live[body] <= Base(cfg) + {f[test].phi.value.dst}
    ensures InScope(cfg, CloseLoop(f, ins, head, test, body, t, c, out), |f|, out, live + [Base(cfg)])
  {
    var phi := f[test].phi.value;
    var last := Block(Some(Phi(out, [Incoming(test, phi.dst)])), [], None);
    var l := live + [Base(cfg)];
    NoEdgesOut(f);
    DefinedNew(f, live, last, Base(cfg));
    var g1 := f + [last];
    PhiDefined(g1, l, test, ins, head);
    var g2 := g1[test := g1[test].(phi := Some(phi.(incoming := phi.incoming + [Incoming(ins, head)])))];
    TestDefined(g2, l, test, t, c, phi.dst);
    var g3 := Append(g2, test, [Load(t, phi.dst), IsZero(c, t)]);
    assert EdgeOk(g3, l, test, |f|) && EdgeOk(g3, l, test, body);
    DefinedClose(g3, l, test, CondBr(c, |f|, body));
    var g4 := Close(g3, test, CondBr(c, |f|, body));
    assert EdgeOk(g4, l, ins, test);
    DefinedClose(g4, l, ins, Br(test));
    CloseLoopSteps(f, ins, head, test, body, t, c, out, g1, g2, g3, g4);
  }

  lemma CloseLoopSteps(f: seq<Block>, ins: nat, head: nat, test: nat, body: nat, t: nat, c: nat, out: nat,
                       g1: seq<Block>, g2: seq<Block>, g3: seq<Block>, g4: seq<Block>)
    requires ins < |f| && test < |f| && ins != test && f[test].phi.Some? && f[test].body == []
    requires var phi := f[test].phi.value;
      g1 == f + [Block(Some(Phi(out, [Incoming(test, phi.dst)])), [], None)] &&
      g2 == g1[test := g1[test].(phi := Some(phi.(incoming := phi.incoming + [Incoming(ins, head)])))] &&
      g3 == Append(g2, test, [Load(t, phi.dst), IsZero(c, t)]) && g4 == Close(g3, test, CondBr(c, |f|, body))
    ensures Close(g4, ins, Br(test)) == CloseLoop(f, ins, head, test, body, t, c, out)
  {
    var g, h := Close(g4, ins, Br(test)), CloseLoop(f, ins, head, test, body, t, c, out);
    var code := [Load(t, f[test].phi.value.dst), IsZero(c, t)];
    assert g[test].body == [] + code == code;
    assert |g| == |h| && forall b :: 0 <= b < |g| ==> g[b] == h[b];
  }

  lemma TestDefined(f: seq<Block>, live: seq<set<nat>>, test: nat, t: nat, c: nat, h: nat)
    requires Defined(f, live) && test < |f| && f[test].term.None? && f[test].phi.Some? && f[test].phi.value.dst == h
    ensures var g := Append(f, test, [Load(t, h), IsZero(c, t)]);
      Defined(g, live) && Avail(g[test], live[test]) == Avail(f[test], live[test]) + {t, c}
  {
    var code, known := [Load(t, h), IsZero(c, t)], Avail(f[test], live[test]);
    assert code == [Load(t, h)] + [IsZero(c, t)];
    OneOk(Load(t, h), known);
    OneOk(IsZero(c, t), known + {t});
    CodeOkAppend([Load(t, h)], [IsZero(c, t)], known);
    CodeDefsAppend([Load(t, h)], [IsZero(c, t)]);
    DefinedAppend(f, live, test, code);
  }

  lemma EndInScope(cfg: Config, f: seq<Block>, ins: nat, head: nat, live: seq<set<nat>>)
    requires InScope(cfg, f, ins, head, live) && f[ins].term.None?
    ensures Defined(Close(f, ins, Br(ENDBB)), live)
  {
    assert EdgeOk(f, live, ins, ENDBB);
    DefinedClose(f, live, ins, Br(ENDBB));
  }

  /** Three instructions that follow each other. */
  lemma ThreeOk(a: Instr, b: Instr, c: Instr, known: set<nat>)
    requires Uses(a) <= known && Uses(b) <= known + Dst(a) && Uses(c) <= known + Dst(a) + Dst(b)
    ensures CodeOk([a, b, c], known) && CodeDefs([a, b, c]) == Dst(a) + Dst(b) + Dst(c)
  {
    var code := [a, b, c];
    assert code[..2] == [a, b] && code[..2][..1] == [a] && code[..2][..1][..0] == [];
    assert CodeDefs(code[..2][..1]) == Dst(a);
    assert CodeDefs(code[..2]) == Dst(a) + Dst(b);
    assert CodeOk(code[..2][..1], known);
    assert CodeOk(code[..2], known);
  }

  lemma OneOk(a: Instr, known: set<nat>)
    requires Uses(a) <= known
    ensures CodeOk([a], known) && CodeDefs([a]) == Dst(a)
  {
    assert [a][..0] == [];
    assert CodeDefs([a][..0]) == {};
  }

  // ----- the builder's steps -----

  /** What is defined where control enters a loop's test, and its body in the block behind it. */
  ghost predicate TestLive(cfg: Config, f: seq<Block>, live: seq<set<nat>>, t: nat) {
    t < |f| && t + 1 < |live| && f[t].phi.Some? && live[t] == Base(cfg) &&
      live[t + 1] <= Base(cfg) + {f[t].phi.value.dst}
  }

  ghost predicate TestsLive(cfg: Config, f: seq<Block>, live: seq<set<nat>>, tests: set<nat>) {
    forall t {:trigger TestLive(cfg, f, live, t)} :: t in tests ==> TestLive(cfg, f, live, t)
  }

  /** The blocks so far use only defined registers, also once the waiting loops are closed. */
  ghost predicate Scoped(cfg: Config, f: seq<Block>, ins: nat, head: nat, tests: set<nat>) {
    exists live :: InScope(cfg, f, ins, head, live) && TestsLive(cfg, f, live, tests)
  }

  lemma ScopedBy(cfg: Config, f: seq<Block>, tests: set<nat>, live: seq<set<nat>>, g: seq<Block>, ins': nat,
                 head': nat, tests': set<nat>, more: seq<set<nat>>)
    requires TestsLive(cfg, f, live, tests) && InScope(cfg, g, ins', head', live + more) && |f| <= |g|
    requires forall t :: t in tests ==> t < |f| && g[t].phi == f[t].phi
    requires forall t :: t in tests' ==> t in tests || TestLive(cfg, g, live + more, t)
    ensures Scoped(cfg, g, ins', head', tests')
  {
    forall t | t in tests' ensures TestLive(cfg, g, live + more, t) {
      if t in tests { assert TestLive(cfg, f, live, t); }
    }
  }

  lemma ScopedAppend(cfg: Config, f: seq<Block>, ins: nat, head: nat, tests: set<nat>, code: seq<Instr>, head': nat,
                     g: seq<Block>)
    requires Scoped(cfg, f, ins, head, tests) && ins < |f| && f[ins].term.None? && CodeOk(code, Base(cfg) + {head})
    requires (head' == head || head' in CodeDefs(code)) && g == Append(f, ins, code) &&
      forall t :: t in tests ==> t < |f|
    ensures Scoped(cfg, g, ins, head', tests)
  {
    var live :| InScope(cfg, f, ins, head, live) && TestsLive(cfg, f, live, tests);
    AppendInScope(cfg, f, ins, head, live, code, head');
    assert live + [] == live;
    ScopedBy(cfg, f, tests, live, g, ins, head', tests, []);
  }

  /** A move defines the new head, and with bounds checking also the outcome of the check. */
  lemma ScopedMove(cfg: Config, f: seq<Block>, ins: nat, head: nat, tests: set<nat>, value: int, n: nat,
                   code: seq<Instr>, g: seq<Block>)
    requires Scoped(cfg, f, ins, head, tests) && ins < |f| && f[ins].term.None? && Linked(f) && ins !in tests
    requires forall t :: t in tests ==> t < |f|
    requires code == [Gep(n, head, value)] +
      if cfg.bounds then [IcmpUge(n + 1, n, ARRMAX), IcmpUlt(n + 2, n, ARR), Or(n + 3, n + 1, n + 2)] else []
    requires g == if cfg.bounds then Close(Append(f, ins, code), ins, CondBr(n + 3, ABERRORBB, |f|)) + [NEWBLOCK]
                  else Append(f, ins, code)
    ensures Scoped(cfg, g, if cfg.bounds then |f| else ins, n, tests)
  {
    if cfg.bounds {
      var live :| InScope(cfg, f, ins, head, live) && TestsLive(cfg, f, live, tests);
      CheckedMoveOk(cfg, head, value, n);
      CheckedInScope(cfg, f, ins, head, live, code, n, g);
      ScopedBy(cfg, f, tests, live, g, |f|, n, tests, [Base(cfg) + {n}]);
    } else {
      OneOk(Gep(n, head, value), Base(cfg) + {head});
      assert code == [Gep(n, head, value)];
      ScopedAppend(cfg, f, ins, head, tests, code, n, g);
    }
  }

  lemma CheckedInScope(cfg: Config, f: seq<Block>, ins: nat, head: nat, live: seq<set<nat>>, code: seq<Instr>, n: nat,
                       g: seq<Block>)
    requires InScope(cfg, f, ins, head, live) && f[ins].term.None? && Linked(f) && cfg.bounds
    requires CodeOk(code, Base(cfg) + {head}) && n in CodeDefs(code) && n + 3 in CodeDefs(code)
    requires g == Close(Append(f, ins, code), ins, CondBr(n + 3, ABERRORBB, |f|)) + [NEWBLOCK]
    ensures InScope(cfg, g, |f|, n, live + [Base(cfg) + {n}])
  {
    AppendInScope(cfg, f, ins, head, live, code, n);
    CodeOkMore(code, Base(cfg) + {head}, Avail(f[ins], live[ins]));
    DefinedAppend(f, live, ins, code);
    LinkedAppend(f, ins, code);
    BranchInScope(cfg, Append(f, ins, code), ins, n, live, n + 3, g);
  }

  lemma CheckedMoveOk(cfg: Config, head: nat, value: int, n: nat)
    requires cfg.bounds
    ensures var code := [Gep(n, head, value)] +
      [IcmpUge(n + 1, n, ARRMAX), IcmpUlt(n + 2, n, ARR), Or(n + 3, n + 1, n + 2)];
      CodeOk(code, Base(cfg) + {head}) && n in CodeDefs(code) && n + 3 in CodeDefs(code)
  {
    var known := Base(cfg) + {head};
    var move := Gep(n, head, value);
    var x, y, z := IcmpUge(n + 1, n, ARRMAX), IcmpUlt(n + 2, n, ARR), Or(n + 3, n + 1, n + 2);
    OneOk(move, known);
    ThreeOk(x, y, z, known + {n});
    CodeOkAppend([move], [x, y, z], known);
    CodeDefsAppend([move], [x, y, z]);
  }

  lemma ScopedOpen(cfg: Config, f: seq<Block>, ins: nat, head: nat, tests: set<nat>, h: nat, g: seq<Block>)
    requires Scoped(cfg, f, ins, head, tests) && ins < |f| && f[ins].term.None? && Linked(f) && ins !in tests
    requires g == OpenLoop(f, ins, head, h) && forall t :: t in tests ==> t < |f|
    ensures Scoped(cfg, g, |f| + 1, h, tests + {|f|})
  {
    var live :| InScope(cfg, f, ins, head, live) && TestsLive(cfg, f, live, tests);
    OpenInScope(cfg, f, ins, head, live, h);
    var more := [Base(cfg), Base(cfg) + {h}];
    assert TestLive(cfg, g, live + more, |f|);
    ScopedBy(cfg, f, tests, live, g, |f| + 1, h, tests + {|f|}, more);
  }

  lemma ScopedClose(cfg: Config, f: seq<Block>, ins: nat, head: nat, tests: set<nat>, test: nat, body: nat, t: nat,
                    c: nat, out: nat, b0: nat, h0: nat, g: seq<Block>)
    requires Scoped(cfg, f, ins, head, tests) && ins < |f| && f[ins].term.None? && Linked(f) && ins !in tests
    requires test in tests && (forall t :: t in tests ==> t < |f|) && f[test].term.None? && f[test].body == []
    requires body == test + 1 < |f| && f[body].phi.None? && test != ENDBB && (cfg.bounds ==> test != ABERRORBB)
    requires f[test].phi.Some? && f[test].phi.value.incoming == [Incoming(b0, h0)] && b0 != ins
    requires g == CloseLoop(f, ins, head, test, body, t, c, out)
    ensures Scoped(cfg, g, |f|, out, tests - {test})
  {
    var live :| InScope(cfg, f, ins, head, live) && TestsLive(cfg, f, live, tests);
    assert TestLive(cfg, f, live, test);
    CloseInScope(cfg, f, ins, head, live, test, body, t, c, out, b0, h0);
    ScopedBy(cfg, f, tests - {test}, live, g, |f|, out, tests - {test}, [Base(cfg)]);
  }

  /** The finished program uses only what is defined, on every path. */
  lemma ScopedEnd(cfg: Config, f: seq<Block>, ins: nat, head: nat, tests: set<nat>)
    requires Scoped(cfg, f, ins, head, tests) && ins < |f| && f[ins].term.None?
    ensures DefinedOnEveryPath(Close(f, ins, Br(ENDBB)))
  {
    var live :| InScope(cfg, f, ins, head, live) && TestsLive(cfg, f, live, tests);
    EndInScope(cfg, f, ins, head, live);
    DefinedMeans(Close(f, ins, Br(ENDBB)), live);
  }

  function HeaderLive(cfg: Config): seq<set<nat>> {
    [{}, {ARR}] + if cfg.bounds then [{ARR}] else []
  }

  /** The header defines the array and the first head. */
  lemma ScopedHeader(cfg: Config, f: seq<Block>)
    requires f == [Block(None, HeaderCode(cfg), None), Block(None, [Free(ARR)], Some(Ret))] +
      if cfg.bounds then [Block(None, [Puts], Some(Br(ENDBB)))] else []
    ensures Scoped(cfg, f, 0, FIRSTHEAD, {})
  {
    var live := HeaderLive(cfg);
    HeaderDefined(cfg, f, live);
    HeaderDefines(cfg);
    assert InScope(cfg, f, 0, FIRSTHEAD, live) && TestsLive(cfg, f, live, {});
  }

  lemma HeaderDefined(cfg: Config, f: seq<Block>, live: seq<set<nat>>)
    requires f == [Block(None, HeaderCode(cfg), None), Block(None, [Free(ARR)], Some(Ret))] +
      if cfg.bounds then [Block(None, [Puts], Some(Br(ENDBB)))] else []
    requires live == HeaderLive(cfg)
    ensures Defined(f, live)
  {
    HeaderDefines(cfg);
    OneOk(Free(ARR), {ARR});
    OneOk(Puts, {ARR});
    forall b | 0 <= b < |f| ensures BlockOk(f[b], live[b]) {
      CodeOkMore(f[b].body, live[b], live[b] + PhiDef(f[b]));
    }
    forall a, t | 0 <= a < |f| && 0 <= t < |f| && HasEdge(f, a, t) ensures EdgeOk(f, live, a, t) {
    }
  }

  lemma HeaderDefines(cfg: Config)
    ensures CodeOk(HeaderCode(cfg), {}) && Base(cfg) + {FIRSTHEAD} <= CodeDefs(HeaderCode(cfg))
  {
    var a, b, c, d := Malloc(ARR, cfg.mem), Memset(ARR, cfg.mem), Gep(ARRMAX, ARR, cfg.mem),
      Gep(FIRSTHEAD, ARR, cfg.mem / 2);
    if cfg.bounds {
      ThreeOk(a, b, c, {});
      OneOk(d, {ARR, ARRMAX});
      CodeOkMore([d], {ARR, ARRMAX}, {} + CodeDefs([a, b, c]));
      CodeOkAppend([a, b, c], [d], {});
      CodeDefsAppend([a, b, c], [d]);
      assert HeaderCode(cfg) == [a, b, c] + [d];
    } else {
      ThreeOk(a, b, d, {});
      assert HeaderCode(cfg) == [a, b, d];
    }
  }
}
