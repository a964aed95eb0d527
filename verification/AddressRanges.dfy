/** Which values the variables of a symbolic distance take: words of 64 bits less their extensions, and of a known
    sign. */
module AddressRanges {
  import opened Probability
  import opened Powers
  import opened AddressForms

  /** What is known about the sign of a variable, and whether it is itself a zero extension. */
  datatype Known = Known(nonNegative: bool, negative: bool, zeroExtended: bool)

  predicate Wide(x: Index, known: Value -> Known) { x.zext > 0 || known(x.v).zeroExtended }

  /** Extended to the 64 bits of a pointer. */
  predicate Extends(x: Index) { x.zext + x.sext < 64 }

  /** How many values of the variable have its sign bit clear. */
  function Half(x: Index): (h: int)
    requires Extends(x)
    ensures 0 < h
  {
    Pow2(63 - x.zext - x.sext)
  }

  /** Where the words end that are zero extended. */
  function Top(x: Index): (t: int)
    requires Extends(x)
    ensures 2 * Half(x) <= t && (x.sext == 0 ==> t == 2 * Half(x))
  {
    Pow2Grows(64 - x.zext - x.sext, 64 - x.zext);
    Pow2(64 - x.zext)
  }

  /** The variable, sign extended and then zero extended, can be this signed number. */
  predicate InRange(x: Index, e: int) {
    && Extends(x)
    && if x.zext == 0 then -Half(x) <= e < Half(x)
       else 0 <= e < Half(x) || Top(x) - Half(x) <= e < Top(x)
  }

  ghost predicate Ranged(form: seq<Index>, env: Valuation) {
    forall i | 0 <= i < |form| :: InRange(form[i], env(form[i].v, form[i].zext, form[i].sext))
  }

  predicate SignClear(x: Index, known: Value -> Known) { known(x.v).nonNegative || known(x.v).zeroExtended }

  /** The number agrees with the range of the variable and with what is known about its sign. */
  predicate Agrees(x: Index, e: int, known: Value -> Known) {
    && InRange(x, e)
    && (SignClear(x, known) ==> 0 <= e < Half(x))
    && (known(x.v).negative && !Wide(x, known) ==> e < 0)
  }

  ghost predicate AllAgree(form: seq<Index>, env: Valuation, known: Value -> Known) {
    forall i | 0 <= i < |form| :: Agrees(form[i], env(form[i].v, form[i].zext, form[i].sext), known)
  }

  predicate TermClear(x: Index, known: Value -> Known) {
    (known(x.v).nonNegative || Wide(x, known)) && x.scale >= 0
  }

  /** The term cannot be negative, whatever agrees with what is known. */
  predicate TermPositive(x: Index, known: Value -> Known) {
    var signKnownZero := known(x.v).nonNegative || Wide(x, known);
    var signKnownOne := known(x.v).negative && !Wide(x, known);
    (signKnownZero && x.scale >= 0) || (signKnownOne && x.scale < 0)
  }

  /** The largest value of a variable without a negative one. */
  function MaxValue(x: Index, known: Value -> Known): (m: int)
    requires Extends(x)
    ensures 0 <= m
  {
    if x.zext == 0 || SignClear(x, known) then Half(x) - 1 else Top(x) - 1
  }

  /** The largest value of a positive term. */
  function MaxTerm(x: Index, known: Value -> Known): int
    requires Extends(x)
  {
    if TermClear(x, known) then x.scale * MaxValue(x, known) else (-x.scale) * Half(x)
  }

  /** The largest sum of positive terms. */
  function LargestSum(form: seq<Index>, known: Value -> Known): int
    requires forall i | 0 <= i < |form| :: Extends(form[i])
  {
    if form == [] then 0 else LargestSum(form[..|form| - 1], known) + MaxTerm(form[|form| - 1], known)
  }

  lemma TermBounds(x: Index, e: int, known: Value -> Known)
    requires Agrees(x, e, known) && TermPositive(x, known)
    ensures 0 <= x.scale * e <= MaxTerm(x, known)
  {
    if TermClear(x, known) {
      MulLe(0, e, x.scale);
      MulLe(e, MaxValue(x, known), x.scale);
    } else {
      MulLe(0, -e, -x.scale);
      MulLe(-e, Half(x), -x.scale);
      assert (-e) * (-x.scale) == x.scale * e;
    }
  }

  lemma {:induction false} PositiveSum(form: seq<Index>, env: Valuation, known: Value -> Known)
    requires AllAgree(form, env, known) && forall i | 0 <= i < |form| :: TermPositive(form[i], known)
    ensures forall i | 0 <= i < |form| :: Extends(form[i])
    ensures 0 <= SumOf(form, env) <= LargestSum(form, known)
    decreases |form|
  {
    if form != [] {
      PositiveSum(form[..|form| - 1], env, known);
      var x := form[|form| - 1];
      assert TermPositive(x, known) && Agrees(x, env(x.v, x.zext, x.sext), known);
      TermBounds(x, env(x.v, x.zext, x.sext), known);
    }
  }

  /** The signed number of 64 bits with the same word. */
  function AsSigned(e: int): (r: int)
    ensures MIN <= r <= MAX
  {
    var r := e % U64;
    if r > MAX then r - U64 else r
  }

  lemma AsSignedSame(e: int)
    ensures SameAddress(AsSigned(e), e)
  {
    assert e == (e / U64) * U64 + e % U64;
    SameBy(AsSigned(e), e, -(e / U64) - if e % U64 > MAX then 1 else 0);
  }

  /** The valuation in words of 64 bits. */
  function Signed64(env: Valuation): Valuation {
    (v: Value, zext: nat, sext: nat) => AsSigned(env(v, zext, sext))
  }

  lemma {:induction false} SameSigned(form: seq<Index>, env: Valuation)
    ensures SameAddress(SumOf(form, Signed64(env)), SumOf(form, env))
    decreases |form|
  {
    if form == [] {
      SameBy(0, 0, 0);
    } else {
      var rest, x := form[..|form| - 1], form[|form| - 1];
      SameSigned(rest, env);
      var e := env(x.v, x.zext, x.sext);
      AsSignedSame(e);
      SameTimes(AsSigned(e), e, x.scale);
      SameSum(SumOf(rest, Signed64(env)), SumOf(rest, env), x.scale * AsSigned(e), x.scale * e);
    }
  }

  predicate Unextended(form: seq<Index>) {
    forall i | 0 <= i < |form| :: form[i].zext == 0 && form[i].sext == 0
  }

  lemma HalfOf64(x: Index, n: nat)
    requires x.zext == 0 && x.sext == 0 && n == 64
    ensures Extends(x) && Half(x) == MAX + 1
  {
    Pow2At(n);
    assert Half(x) == Pow2(n - 1);
  }

  lemma UnextendedRanged(form: seq<Index>, env: Valuation, n: nat)
    requires Unextended(form) && n == 64
    ensures Ranged(form, Signed64(env))
  {
    var signed := Signed64(env);
    forall i | 0 <= i < |form| ensures InRange(form[i], signed(form[i].v, form[i].zext, form[i].sext)) {
      HalfOf64(form[i], n);
      assert signed(form[i].v, form[i].zext, form[i].sext) == AsSigned(env(form[i].v, form[i].zext, form[i].sext));
    }
  }
}
