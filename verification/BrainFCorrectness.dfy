/** What the compiler as a whole guarantees. */
module BrainFCorrectness {
  import opened BrainFSource
  import opened BrainFTarget
  import opened BrainFTokens
  import opened BrainFLayout
  import opened BrainFSSA
  import opened BrainFSimulation
  import opened BrainFBrackets
  import opened BrainFCompiler
  import opened BrainFDefinitions
  import opened BrainFAssignments

  /** Started on any memory and any input, the code behaves like the text on a cleared tape. */
  ghost predicate Implements(text: string, cfg: Config, f: seq<Block>) {
    forall tape, input :: SameBehaviour(text, cfg, f, Start(cfg, Clear(tape, 0, cfg.mem), input), Boot(tape, input))
  }

  /** No run of the code gets stuck. */
  ghost predicate Safe(f: seq<Block>) {
    forall tape, input :: NeverStuck(f, Boot(tape, input))
  }

  lemma CompiledCorrectly(text: string, cfg: Config, f: seq<Block>, pts: Points, toks: Tokens, tape: Tape,
                          input: seq<Byte>)
    requires Compiled(text, cfg, f, pts, toks)
    ensures SameBehaviour(text, cfg, f, Start(cfg, Clear(tape, 0, cfg.mem), input), Boot(tape, input))
    ensures cfg.bounds && cfg.mem > 0 ==> NeverStuck(f, Boot(tape, input))
  {
    var s, m := Start(cfg, Clear(tape, 0, cfg.mem), input), Boot(tape, input);
    CompiledSimulates(text, cfg, f, pts, toks);
    var b := Header(cfg, f, pts, tape, input);
    SimulationPreserves(text, cfg, f, pts, s, m, b);
    if cfg.bounds && cfg.mem > 0 { SafeAlways(text, cfg, f, s, m); }
  }

  lemma Correct(text: string, cfg: Config, f: seq<Block>, pts: Points, toks: Tokens)
    requires Compiled(text, cfg, f, pts, toks)
    ensures Implements(text, cfg, f) && (cfg.bounds && cfg.mem > 0 ==> Safe(f))
  {
    forall tape, input
      ensures SameBehaviour(text, cfg, f, Start(cfg, Clear(tape, 0, cfg.mem), input), Boot(tape, input))
      ensures cfg.bounds && cfg.mem > 0 ==> NeverStuck(f, Boot(tape, input))
    {
      CompiledCorrectly(text, cfg, f, pts, toks, tape, input);
    }
  }

  /** Compiles a whole program. It succeeds exactly on the texts whose brackets match, and then
      the code is in static single assignment form and does what the text says. With bounds checking it never gets
      stuck, which means that it is memory safe; without, just if the text never uses a cell outside the array. */
  method Parse(text: string, cfg: Config) returns (r: Verdict, code: seq<Block>)
    ensures r == Done <==> Balanced(text)
    ensures r == ExtraClose <==> !NeverBelow(text, |text|)
    ensures r == MissingClose <==> NeverBelow(text, |text|) && Height(text, |text|) > 0
    ensures r == Done ==> WellFormed(code) && DefinedOnEveryPath(code) && SingleAssignment(code)
    ensures r == Done ==> Implements(text, cfg, code) && (cfg.bounds && cfg.mem > 0 ==> Safe(code))
  {
    var compiler := new BrainF(text, cfg);
    compiler.Header();
    ghost var whole := Scope(false, 0, {}, {}, 0, Token(SymNone, 0, 0), 0, 0);
    r := compiler.ReadLoop(false, 0, 0, whole);
    code := compiler.blocks;
    if r == Done {
      Correct(text, cfg, code, compiler.points, compiler.toks);
    }
  }
}
