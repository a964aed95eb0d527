/** Bracket matching by height, as the compiler meets it: symbol by symbol. */
module BrainFBrackets {
  import opened BrainFSource
  import opened BrainFTokens
  import opened BrainFLayout

  /** No prefix closes more brackets than it opens. */
  ghost predicate NeverBelow(text: string, to: nat)
    requires to <= |text|
  {
    forall k :: 0 <= k <= to ==> Height(text, k) >= 0
  }

  /** From `base` to `at` every bracket opened is closed again, and none from before `base` is. */
  ghost predicate Level(text: string, base: nat, at: nat) {
    base <= at <= |text| && NeverBelow(text, at) &&
    Height(text, at) == Height(text, base) && forall k :: base <= k <= at ==> Height(text, k) >= Height(text, base)
  }

  ghost predicate NoBrackets(text: string, a: nat, b: nat)
    requires b <= |text|
  {
    forall k :: a <= k < b ==> text[k] != '[' && text[k] != ']'
  }

  lemma {:induction false} Flat(text: string, a: nat, b: nat)
    requires a <= b <= |text| && NoBrackets(text, a, b)
    ensures forall k :: a <= k <= b ==> Height(text, k) == Height(text, a)
    decreases b
  {
    if a < b { Flat(text, a, b - 1); }
  }

  /** Any symbol but a bracket keeps the level. */
  lemma LevelOn(text: string, base: nat, at: nat, tok: Token)
    requires Level(text, base, at) && IsToken(text, at, tok.sym, tok.value, tok.next)
    requires tok.sym != SymLoop && tok.sym != SymEndLoop
    ensures Level(text, base, tok.next)
  {
    assert forall k :: at <= k < tok.next && !IsSingle(tok.sym) && tok.sym != SymEof ==>
      InRun(tok.sym, text[k]) || !IsSignificant(text[k]);
    Flat(text, at, tok.next);
  }

  /** A bracket symbol is flat up to its bracket. */
  lemma LevelBefore(text: string, base: nat, at: nat, tok: Token)
    requires Level(text, base, at) && IsToken(text, at, tok.sym, tok.value, tok.next)
    requires tok.sym == SymLoop || tok.sym == SymEndLoop
    ensures Level(text, base, tok.next - 1)
    ensures Height(text, tok.next) == Height(text, base) + (if tok.sym == SymLoop then 1 else -1)
  {
    Flat(text, at, tok.next - 1);
  }

  /** Inside a new loop a new level starts. */
  lemma LevelIn(text: string, base: nat, at: nat, tok: Token)
    requires Level(text, base, at) && IsToken(text, at, tok.sym, tok.value, tok.next) && tok.sym == SymLoop
    ensures Level(text, tok.next, tok.next) && Height(text, tok.next) == Height(text, base) + 1
  {
    LevelBefore(text, base, at, tok);
  }

  lemma {:induction false} CloseFound(text: string, k: nat, q: nat, level: int)
    requires k <= q < |text| && Height(text, q + 1) == level
    requires forall j :: k <= j <= q ==> Height(text, j) > level
    ensures CloseFrom(text, k, level) == q
    decreases q - k
  {
    if k < q { CloseFound(text, k + 1, q, level); }
  }

  lemma {:induction false} OpenFound(text: string, k: nat, o: nat, level: int)
    requires o < k <= |text| && Height(text, o) == level
    requires forall j :: o < j < k ==> Height(text, j) > level
    ensures OpenFrom(text, k, level) == o
    decreases k
  {
    if o < k - 1 { OpenFound(text, k - 1, o, level); }
  }

  /** After a loop the level around it is back, and its two brackets are each other's. */
  lemma LevelOut(text: string, base: nat, at: nat, opTok: Token, inner: nat, tok: Token)
    requires Level(text, base, at) && IsToken(text, at, opTok.sym, opTok.value, opTok.next) && opTok.sym == SymLoop
    requires Level(text, opTok.next, inner)
    requires IsToken(text, inner, tok.sym, tok.value, tok.next) && tok.sym == SymEndLoop
    ensures Level(text, base, tok.next)
    ensures CloseOf(text, opTok.next - 1) == tok.next - 1 && OpenOf(text, tok.next - 1) == opTok.next - 1
  {
    var o, q := opTok.next - 1, tok.next - 1;
    LevelBefore(text, base, at, opTok);
    LevelBefore(text, opTok.next, inner, tok);
    assert forall j :: o < j <= q ==> Height(text, j) > Height(text, o);
    CloseFound(text, o + 1, q, Height(text, o));
    OpenFound(text, q, o, Height(text, o));
  }
}
