/** What a symbolic difference of two addresses says about accesses of given sizes. */
module AddressAliasing {
  import opened Probability
  import opened Powers
  import opened Bits
  import opened AddressForms
  import opened AddressRanges

  datatype AliasResult = NoAlias | MayAlias | PartialAlias | MustAlias

  /** The size of an access that may be anything. */
  const UNKNOWN: int := U64 - 1

  predicate IsSize(s: int) { 0 <= s <= UNKNOWN }

  /** Some byte of the access of s1 bytes at distance d lies in the s2 bytes at distance 0. */
  ghost predicate Overlap(d: int, s1: int, s2: int) {
    exists i, j | 0 <= i < s1 && 0 <= j < s2 :: Meet(d, i, j)
  }

  ghost predicate Meet(d: int, i: int, j: int) { SameAddress(d + i, j) }

  /** As integers, without wrapping around, the two accesses share no byte. */
  ghost predicate Beside(d: int, s1: int, s2: int) {
    forall i, j | 0 <= i < s1 && 0 <= j < s2 :: !SameByte(d, i, j)
  }

  ghost predicate SameByte(d: int, i: int, j: int) { d + i == j }

  function Sub64(a: int, b: int): int { if a >= b then a - b else a - b + U64 }

  /** All scales, or-ed together as words. */
  function OrAll(form: seq<Index>): (m: int)
    requires Scales(form)
    ensures m >= 0
  {
    if form == [] then 0 else Or(OrAll(form[..|form| - 1]), Word(form[|form| - 1].scale))
  }

  lemma {:induction false} OrAllBound(form: seq<Index>, n: nat)
    requires Scales(form) && n == 64
    ensures OrAll(form) < U64
    decreases |form|
  {
    Pow2At(n);
    if form != [] {
      OrAllBound(form[..|form| - 1], n);
      OrBound(OrAll(form[..|form| - 1]), Word(form[|form| - 1].scale), n);
    }
  }

  /** Every scale is a multiple of the lowest bit that is set in any of them. */
  lemma {:induction false} ScalesMultiple(form: seq<Index>, k: nat, env: Valuation)
    requires Scales(form) && k <= 64
    requires OrAll(form) > 0 ==> k <= TrailingZeros(OrAll(form))
    ensures Multiple(SumOf(form, env), k)
    decreases |form|
  {
    MultipleZero(k);
    if form != [] {
      var rest, x := form[..|form| - 1], form[|form| - 1];
      var m, w := OrAll(rest), Word(x.scale);
      if Or(m, w) > 0 {
        OrMultiples(m, w);
        MultipleOfLess(m, TrailingZeros(Or(m, w)), k);
        MultipleOfLess(w, TrailingZeros(Or(m, w)), k);
        if m > 0 { SmallestMultiple(m, k); }
      }
      ScalesMultiple(rest, k, env);
      WordMultiple(x.scale, k, 64);
      MultipleTimes(x.scale, env(x.v, x.zext, x.sext), k);
      MultipleSum(SumOf(rest, env), Term(x, env), k);
    }
  }

  lemma WordMultiple(x: int, k: nat, n: nat)
    requires k <= n == 64 && Multiple(Word(x), k)
    ensures Multiple(x, k)
  {
    Pow2At(n);
    PowerMultiple(n, k);
    MultipleSum(Word(x), U64, k);
  }

  /** If the distance is known up to multiples of a power of two, and the accesses fit side by side
      into that power, they are disjoint. */
  lemma ApartModulo(base: int, sum: int, k: nat, n: nat, s1: int, s2: int)
    requires k <= n == 64 && IsSigned(base) && Multiple(sum, k)
    requires var o := And(Word(base), Pow2(k) - 1); (s2 <= o && s1 <= Pow2(k) - o) || s1 == 0 || s2 == 0
    ensures !Overlap(base + sum, s1, s2)
  {
    var d := base + sum;
    forall i, j | 0 <= i < s1 && 0 <= j < s2 ensures !Meet(d, i, j) {
      BytesApart(base, sum, k, n, And(Word(base), Pow2(k) - 1), i, j);
    }
  }

  lemma BytesApart(base: int, sum: int, k: nat, n: nat, o: int, i: int, j: int)
    requires k <= n == 64 && IsSigned(base) && Multiple(sum, k)
    requires o == And(Word(base), Pow2(k) - 1) && 0 <= j < o && 0 <= i < Pow2(k) - o
    ensures !Meet(base + sum, i, j)
  {
    if Meet(base + sum, i, j) {
      MeetMultiple(base, sum, k, n, i, j);
      SmallestMultiple(o + i - j, k);
    }
  }

  /** Where two bytes meet, their distance modulo the power is zero. */
  lemma MeetMultiple(base: int, sum: int, k: nat, n: nat, i: int, j: int)
    requires k <= n == 64 && IsSigned(base) && Multiple(sum, k) && Meet(base + sum, i, j)
    ensures Multiple(And(Word(base), Pow2(k) - 1) + i - j, k)
  {
    var o := And(Word(base), Pow2(k) - 1);
    MaskIsRemainder(Word(base), k);
    Pow2At(n);
    PowerMultiple(n, k);
    var t: int :| base + sum + i - j == Times64(t);
    var b := Word(base) - o;
    var wrap := if base < 0 then 1 else 0;
    MultipleTimes(U64, t, k);
    MultipleTimes(U64, wrap, k);
    MultipleSum(Times64(t), sum, k);
    MultipleSum(Times64(t) - sum, b, k);
    MultipleSum(Times64(t) - sum - b, Times64(wrap), k);
    assert o + i - j == Times64(t) - sum - b + Times64(wrap);
  }

  /** The lowest bit set in any scale; zero if there is none. */
  function Modulus(form: seq<Index>): (m: int)
    requires Scales(form)
    ensures 0 <= m
  {
    if OrAll(form) > 0 then Pow2(TrailingZeros(OrAll(form))) else 0
  }

  /** By the distance modulo the lowest bit set in any scale, the accesses are side by side. */
  predicate PassesModulo(base: int, form: seq<Index>, s1: int, s2: int)
    requires IsSigned(base) && Scales(form)
  {
    && s1 != UNKNOWN && s2 != UNKNOWN
    && var o := And(Word(base), Sub64(Modulus(form), 1)); s2 <= o && s1 <= Sub64(Modulus(form), o)
  }

  /** Whatever the variables are, the accesses share no byte, also if addresses wrap around. */
  ghost predicate AlwaysApart(base: int, form: seq<Index>, s1: int, s2: int) {
    forall env :: !Overlap(base + SumOf(form, env), s1, s2)
  }

  /** So they do for the values that the variables take. */
  ghost predicate ApartInRange(base: int, form: seq<Index>, s1: int, s2: int) {
    forall env :: Ranged(form, env) ==> !Overlap(base + SumOf(form, env), s1, s2)
  }

  /** The test by the lowest bit set in any scale. It proves the accesses to be apart; and for known sizes and
      variables of 64 bits that each occur once, it does so whenever they are apart for all values of these. */
  method ModuloTest(base: int, form: seq<Index>, s1: int, s2: int) returns (apart: bool)
    requires IsSigned(base) && Scales(form) && IsSize(s1) && IsSize(s2)
    ensures apart == PassesModulo(base, form, s1, s2)
    ensures apart ==> AlwaysApart(base, form, s1, s2)
    ensures 0 < s1 < UNKNOWN && 0 < s2 < UNKNOWN && Separate(form) && Unextended(form) &&
            ApartInRange(base, form, s1, s2) ==>
      apart
  {
    var modulo := 0;
    for i := 0 to |form|
      invariant modulo == OrAll(form[..i])
    {
      assert form[..i + 1][..i] == form[..i];
      modulo := Or(modulo, Word(form[i].scale));
    }
    assert form[..|form|] == form;
    OrAllBound(form, 64);
    ghost var k := LowestBit(modulo, 64);
    modulo := Xor(modulo, And(modulo, Sub64(modulo, 1)));
    var modOffset := And(Word(base), Sub64(modulo, 1));
    apart := s1 != UNKNOWN && s2 != UNKNOWN && modOffset >= s2 && s1 <= Sub64(modulo, modOffset);
    ModuloExact(base, form, s1, s2);
  }

  lemma ModuloProves(base: int, form: seq<Index>, k: nat, s1: int, s2: int)
    requires IsSigned(base) && Scales(form) && k <= 64 && (OrAll(form) > 0 ==> k == TrailingZeros(OrAll(form)))
    requires var o := And(Word(base), Pow2(k) - 1); (s2 <= o && s1 <= Pow2(k) - o) || s1 == 0 || s2 == 0
    ensures AlwaysApart(base, form, s1, s2)
  {
    forall env ensures !Overlap(base + SumOf(form, env), s1, s2) {
      ScalesMultiple(form, k, env);
      ApartModulo(base, SumOf(form, env), k, 64, s1, s2);
    }
  }

  // ----- the test is exact -----

  lemma {:induction false} LowestScale(form: seq<Index>) returns (i: nat)
    requires Scales(form) && OrAll(form) > 0
    ensures i < |form| && Word(form[i].scale) > 0 && TrailingZeros(Word(form[i].scale)) == TrailingZeros(OrAll(form))
    decreases |form|
  {
    var n := |form| - 1;
    var m, w := OrAll(form[..n]), Word(form[n].scale);
    OrLowest(m, w);
    if w > 0 && TrailingZeros(w) == TrailingZeros(Or(m, w)) {
      i := n;
    } else {
      i := LowestScale(form[..n]);
    }
  }

  /** The sums reach every multiple of the lowest bit set in any scale. */
  lemma ReachesMultiple(form: seq<Index>, k: nat, n: nat, t: int) returns (env: Valuation)
    requires Scales(form) && Separate(form) && n == 64
    requires if OrAll(form) > 0 then k == TrailingZeros(OrAll(form)) else k == n
    ensures SameAddress(SumOf(form, env), t * Pow2(k))
  {
    Pow2At(n);
    if OrAll(form) == 0 {
      env := (v, zext, sext) => 0;
      ZeroSum(form, env);
      SameBy(0, t * Pow2(k), -t);
    } else {
      var i := LowestScale(form);
      var w := Word(form[i].scale);
      var a := OddPart(w);
      var b, c := OddInverse(a, n);
      env := OnlyOne(form[i], b * t);
      OnlyOneSum(form, |form|, i, b * t);
      assert form[..|form|] == form;
      InverseReaches(a, b, c, Pow2(k), t);
      var x := if form[i].scale < 0 then 1 else 0;
      assert form[i].scale == w - x * U64;
      SumReached(w, x, b * t, t * Pow2(k), c * t * Pow2(k));
    }
  }

  lemma InverseReaches(a: int, b: int, c: int, p: int, t: int)
    requires a * b == 1 + c * U64
    ensures (a * p) * (b * t) == t * p + (c * t * p) * U64
  {
    assert (a * p) * (b * t) == (a * b) * (t * p);
    assert (1 + c * U64) * (t * p) == t * p + (c * t * p) * U64;
  }

  lemma SumReached(w: int, x: int, e: int, goal: int, q: int)
    requires w * e == goal + q * U64
    ensures SameAddress((w - x * U64) * e, goal)
  {
    assert (w - x * U64) * e == w * e - (x * e) * U64;
    assert q * U64 - (x * e) * U64 == (q - x * e) * U64;
    SameBy((w - x * U64) * e, goal, q - x * e);
  }

  lemma {:induction false} ZeroSum(form: seq<Index>, env: Valuation)
    requires forall v, zext, sext :: env(v, zext, sext) == 0
    ensures SumOf(form, env) == 0
    decreases |form|
  {
    if form != [] {
      ZeroSum(form[..|form| - 1], env);
    }
  }

  /** If the test fails, the accesses meet for some values of the variables. */
  lemma TouchingValuation(base: int, form: seq<Index>, k: nat, n: nat, modulo: int, s1: int, s2: int)
    returns (env: Valuation)
    requires IsSigned(base) && Scales(form) && Separate(form) && s1 > 0 && s2 > 0 && k <= n == 64
    requires if OrAll(form) > 0 then k == TrailingZeros(OrAll(form)) && modulo == Pow2(k) < U64
      else k == n && modulo == 0 && Pow2(k) == U64
    requires var o := And(Word(base), Sub64(modulo, 1)); s2 > o || s1 > Sub64(modulo, o)
    ensures Overlap(base + SumOf(form, env), s1, s2)
  {
    var q, o, x := WordParts(base, k);
    assert if modulo == 0 then Sub64(modulo, 1) == Pow2(k) - 1 else Sub64(modulo, 1) == modulo - 1;
    assert s2 > o || s1 > Pow2(k) - o;
    env := TouchingFrom(base, form, k, n, q, o, x, s1, s2);
  }

  lemma WordParts(base: int, k: nat) returns (q: int, o: int, x: int)
    requires IsSigned(base)
    ensures o == And(Word(base), Pow2(k) - 1)
    ensures base == q * Pow2(k) + o - x * U64
    ensures 0 <= o < Pow2(k)
  {
    var w := Word(base);
    MaskIsRemainder(w, k);
    o := And(w, Pow2(k) - 1);
    MultipleIs(w - o, k);
    q := (w - o) / Pow2(k);
    x := WordWrap(base);
  }

  lemma WordWrap(base: int) returns (x: int)
    requires IsSigned(base)
    ensures base == Word(base) - x * U64
  {
    x := if base < 0 then 1 else 0;
    assert base < 0 ==> x * U64 == U64;
  }

  lemma TouchingFrom(base: int, form: seq<Index>, k: nat, n: nat, q: int, o: int, x: int, s1: int, s2: int)
    returns (env: Valuation)
    requires Scales(form) && Separate(form) && s1 > 0 && s2 > 0 && n == 64
    requires if OrAll(form) > 0 then k == TrailingZeros(OrAll(form)) else k == n
    requires base == q * Pow2(k) + o - x * U64 && 0 <= o < Pow2(k) && (s2 > o || s1 > Pow2(k) - o)
    ensures Overlap(base + SumOf(form, env), s1, s2)
  {
    var p := Pow2(k);
    if o < s2 {
      env := ReachesMultiple(form, k, n, -q);
      MeetAt(base, SumOf(form, env), q, p, x, o, s1, s2, 0, o);
    } else {
      env := ReachesMultiple(form, k, n, -(q + 1));
      Distribute(q, 1, 1, p);
      MeetAt(base, SumOf(form, env), q + 1, p, x, o - p, s1, s2, p - o, 0);
    }
  }

  lemma MeetAt(base: int, sum: int, q: int, p: int, x: int, o: int, s1: int, s2: int, i: int, j: int)
    requires base == q * p + o - x * U64 && SameAddress(sum, (-q) * p) && o + i == j
    requires 0 <= i < s1 && 0 <= j < s2
    ensures Overlap(base + sum, s1, s2)
  {
    var t: int :| sum - (-q) * p == Times64(t);
    assert (-q) * p == -(q * p);
    SameBy(base + sum + i, j, t - x);
    assert Meet(base + sum, i, j);
  }

  lemma ModuloExact(base: int, form: seq<Index>, s1: int, s2: int)
    requires IsSigned(base) && Scales(form) && IsSize(s1) && IsSize(s2)
    ensures PassesModulo(base, form, s1, s2) ==> AlwaysApart(base, form, s1, s2)
    ensures 0 < s1 < UNKNOWN && 0 < s2 < UNKNOWN && Separate(form) && Unextended(form) &&
            ApartInRange(base, form, s1, s2) ==>
      PassesModulo(base, form, s1, s2)
  {
    OrAllBound(form, 64);
    var k := LowestBit(OrAll(form), 64);
    if PassesModulo(base, form, s1, s2) {
      ModuloMeans(base, Modulus(form), k, s1, s2);
      ModuloProves(base, form, k, s1, s2);
    } else if 0 < s1 < UNKNOWN && 0 < s2 < UNKNOWN && Separate(form) && Unextended(form) {
      var env := TouchingValuation(base, form, k, 64, Modulus(form), s1, s2);
      TouchesInRange(base, form, s1, s2, env);
    }
  }

  lemma TouchesInRange(base: int, form: seq<Index>, s1: int, s2: int, env: Valuation)
    requires Unextended(form) && Overlap(base + SumOf(form, env), s1, s2)
    ensures !ApartInRange(base, form, s1, s2)
  {
    UnextendedRanged(form, env, 64);
    SameSigned(form, env);
    SameBy(base, base, 0);
    SameSum(base, base, SumOf(form, Signed64(env)), SumOf(form, env));
    OverlapSame(base + SumOf(form, Signed64(env)), base + SumOf(form, env), s1, s2);
  }

  /** The lowest set bit of a word; without one, the modulus is that of the address space. */
  lemma LowestBit(m: int, n: nat) returns (k: nat)
    requires n == 64 && 0 <= m < U64
    ensures k <= 64 && (m > 0 ==> k == TrailingZeros(m))
    ensures Xor(m, And(m, Sub64(m, 1))) == if m > 0 then Pow2(k) else 0
    ensures m == 0 ==> k == 64 && Pow2(k) == U64
    ensures m > 0 ==> Pow2(k) < U64
  {
    Pow2At(n);
    if m == 0 {
      k := n;
    } else {
      k := TrailingZeros(m);
      LowestSetBit(m);
      TrailingMultiple(m);
      if k > n { Pow2Grows(n, k); }
    }
  }

  lemma ModuloMeans(base: int, modulo: int, k: nat, s1: int, s2: int)
    requires IsSigned(base) && 0 <= s1 && 0 <= s2 && k <= 64
    requires (modulo == 0 && Pow2(k) == U64) || (0 < modulo == Pow2(k) < U64)
    requires var o := And(Word(base), Sub64(modulo, 1)); s2 <= o && s1 <= Sub64(modulo, o)
    ensures var o := And(Word(base), Pow2(k) - 1);
      (s2 <= o && s1 <= Pow2(k) - o) || s1 == 0 || s2 == 0
  {
    MaskIsRemainder(Word(base), k);
  }

  /** The exact condition for two accesses at an integer distance to share no byte when addresses wrap around. */
  lemma ApartExact(d: int, s1: int, s2: int)
    requires s1 > 0 && s2 > 0
    ensures !Overlap(d, s1, s2) <==> s2 <= d % U64 <= U64 - s1
  {
    var r, q := d % U64, d / U64;
    assert d == q * U64 + r;
    if r < s2 {
      SameBy(d, r, q);
      assert Meet(d, 0, r);
    } else if r > U64 - s1 {
      assert d + (U64 - r) == (q + 1) * U64;
      SameBy(d + (U64 - r), 0, q + 1);
      assert Meet(d, U64 - r, 0);
    } else {
      forall i, j | 0 <= i < s1 && 0 <= j < s2 ensures !Meet(d, i, j) {
        SameBy(d + i, r + i, q);
        if Meet(d, i, j) {
          SameChain(r + i, d + i, j) by { SameBy(r + i, d + i, -q); }
          NotFarApart(r + i, j);
        }
      }
    }
  }

  lemma NotFarApart(a: int, b: int)
    requires a != b && -U64 < a - b < U64
    ensures !SameAddress(a, b)
  {
    forall k: int ensures a - b != Times64(k) {
    }
  }

  /** Accesses that are side by side as integers share no byte exactly if neither reaches around the address space
      to the other. */
  lemma BesideExact(d: int, s1: int, s2: int)
    requires s1 > 0 && s2 > 0 && Beside(d, s1, s2) && -U64 <= d <= U64
    ensures !Overlap(d, s1, s2) <==> d + s1 <= U64 && s2 - d <= U64
  {
    assert s2 <= d || s1 <= -d by {
      assert if d >= 0 then d < s2 ==> SameByte(d, 0, d) else -d < s1 ==> SameByte(d, -d, 0);
    }
    ApartExact(d, s1, s2);
    if 0 <= d < U64 {
      assert d % U64 == d;
    } else if d < 0 {
      assert d % U64 == d + U64;
    } else {
      assert d % U64 == 0;
    }
  }

  /** All terms of a symbolic distance are known not to be negative, and the second access fits before the constant. */
  predicate KnownSigns(base: int, form: seq<Index>, s2: int, known: Value -> Known) {
    base > 0 && s2 <= base && forall i | 0 <= i < |form| :: TermPositive(form[i], known)
  }

  /** The valuation agrees with all that is known. */
  ghost predicate Possible(form: seq<Index>, env: Valuation, known: Value -> Known, offsets: Decomposed) {
    AllAgree(form, env, known) && AtOffset(form, env, offsets)
  }

  ghost predicate AlwaysBeside(base: int, form: seq<Index>, s1: int, s2: int, known: Value -> Known,
                               offsets: Decomposed) {
    forall env :: Possible(form, env, known, offsets) ==> Beside(base + SumOf(form, env), s1, s2)
  }

  lemma SignsProve(base: int, form: seq<Index>, s1: int, s2: int, known: Value -> Known, offsets: Decomposed)
    requires KnownSigns(base, form, s2, known)
    ensures AlwaysBeside(base, form, s1, s2, known, offsets)
  {
    forall env | Possible(form, env, known, offsets) ensures Beside(base + SumOf(form, env), s1, s2) {
      PositiveSum(form, env, known);
    }
  }

  /** Known signs say nothing about addresses that wrap around: two accesses of 8 bytes that lie 8 bytes apart, plus
      twice an index that may be large, can be the same. */
  lemma SignsWrap(v: Value, known: Value -> Known, n: nat) returns (form: seq<Index>, env: Valuation)
    requires known(v).nonNegative && !known(v).negative && n == 64
    ensures KnownSigns(8, form, 8, known) && Scales(form) && Separate(form) && AllAgree(form, env, known)
    ensures form == [Index(v, 0, 0, 2)] && env(v, 0, 0) == MAX - 3
    ensures Overlap(8 + SumOf(form, env), 8, 8)
  {
    form := [Index(v, 0, 0, 2)];
    env := OnlyOne(form[0], MAX - 3);
    OnlyOneSum(form, 1, 0, MAX - 3);
    assert form[..1] == form;
    Pow2At(n);
    assert Pow2(n - 1) == MAX + 1;
    ApartExact(8 + SumOf(form, env), 8, 8);
  }

  /** As long as the largest distance leaves room for the first access, known signs are right for addresses that wrap
      around, too. */
  lemma SignsFit(base: int, form: seq<Index>, s1: int, s2: int, known: Value -> Known)
    requires KnownSigns(base, form, s2, known) && s1 > 0 && s2 > 0
    requires forall i | 0 <= i < |form| :: Extends(form[i])
    requires base + LargestSum(form, known) <= U64 - s1
    ensures forall env :: AllAgree(form, env, known) ==> !Overlap(base + SumOf(form, env), s1, s2)
  {
    forall env | AllAgree(form, env, known) ensures !Overlap(base + SumOf(form, env), s1, s2) {
      PositiveSum(form, env, known);
      ApartExact(base + SumOf(form, env), s1, s2);
    }
  }

  /** All values from zero to the largest one are possible. */
  predicate FromZero(x: Index, known: Value -> Known) {
    TermClear(x, known) && Extends(x) && !known(x.v).negative && (x.zext == 0 || x.sext == 0 || SignClear(x, known))
  }

  /** For one index whose steps cannot jump over the other access, that is the exact condition. */
  lemma SignsExact(base: int, x: Index, s1: int, s2: int, known: Value -> Known)
    requires IsSigned(base) && KnownSigns(base, [x], s2, known) && FromZero(x, known)
    requires s1 > 0 && s2 > 0 && 0 < x.scale <= s1 + s2 - 1
    ensures (forall env :: AllAgree([x], env, known) ==> !Overlap(base + SumOf([x], env), s1, s2)) <==>
      base + LargestSum([x], known) <= U64 - s1
  {
    OneTerm(x, known);
    if base + MaxTerm(x, known) <= U64 - s1 {
      SignsFit(base, [x], s1, s2, known);
    } else {
      var e := FirstBeyond(base, x.scale, MaxValue(x, known), U64 - s1);
      var env := OnlyOne(x, e);
      OnlyOneSum([x], 1, 0, e);
      assert [x][..1] == [x];
      assert AllAgree([x], env, known);
      Around(base + x.scale * e, s1, s2);
    }
  }

  lemma OneTerm(x: Index, known: Value -> Known)
    requires Extends(x)
    ensures LargestSum([x], known) == MaxTerm(x, known)
  {
    assert [x][..0] == [];
    assert LargestSum([x][..0], known) == 0;
  }

  /** The first step beyond a limit. */
  lemma FirstBeyond(base: int, scale: int, most: int, limit: int) returns (e: int)
    requires 0 < scale && 0 <= most && base + scale * most > limit
    ensures 0 <= e <= most && limit < base + scale * e && (base + scale * e <= limit + scale || e == 0)
  {
    if base > limit {
      e := 0;
    } else {
      var q := (limit - base) / scale;
      DivBounds(limit - base, scale);
      e := q + 1;
      Distribute(q, 1, 1, scale);
      assert e * scale == scale * e;
      if e > most {
        MulLe(most, q, scale);
      }
    }
  }

  /** Just before the end of the address space, the first access reaches around to the second. */
  lemma Around(d: int, s1: int, s2: int)
    requires s1 > 0 && s2 > 0 && U64 - s1 < d < U64 + s2
    ensures Overlap(d, s1, s2)
  {
    ApartExact(d, s1, s2);
    if d >= U64 {
      assert d % U64 == d - U64 || d >= 2 * U64;
    }
  }

  // ----- two indices that differ by a constant -----

  /** What a second decomposition finds about two variables: nothing, or that they are one value plus constants,
      in words of a width. */
  datatype Offsets = Unrelated | Offsets(width: nat, first: int, second: int)

  type Decomposed = (Value, Value) -> Offsets

  function Abs(x: int): int { if x < 0 then -x else x }

  function WrapTo(x: int, w: nat): (r: int)
    ensures 0 <= r < Pow2(w)
  {
    x % Pow2(w)
  }

  /** The least distance of two words of which one is the other plus x. */
  function MinDiff(x: int, w: nat): (r: int)
    ensures 0 <= r
  {
    Min(WrapTo(x, w), WrapTo(-WrapTo(x, w), w))
  }

  /** The two terms of the form cancel but for a constant distance of their variables. */
  predicate Cancels(form: seq<Index>, offsets: Decomposed) {
    && |form| == 2 && form[0].zext == form[1].zext && form[0].sext == form[1].sext
    && form[0].scale == WrapSigned(-form[1].scale) && offsets(form[0].v, form[1].v).Offsets?
  }

  /** The least distance in bytes, as a 64-bit word. */
  function MinDiffBytes(form: seq<Index>, offsets: Decomposed): int
    requires Cancels(form, offsets)
  {
    var o := offsets(form[0].v, form[1].v);
    (MinDiff(o.first - o.second, o.width) * Abs(form[0].scale)) % U64
  }

  predicate PassesOffset(base: int, form: seq<Index>, s1: int, s2: int, offsets: Decomposed) {
    && s1 != UNKNOWN && s2 != UNKNOWN && Cancels(form, offsets)
    && Add64(s1, Abs(base)) <= MinDiffBytes(form, offsets) && Add64(s2, Abs(base)) <= MinDiffBytes(form, offsets)
  }

  /** Both accesses fit into the gap that two variables at a constant distance leave, whichever comes first. */
  method ConstantOffsetHeuristic(base: int, form: seq<Index>, s1: int, s2: int, offsets: Decomposed)
    returns (apart: bool)
    ensures apart == PassesOffset(base, form, s1, s2, offsets)
  {
    if |form| != 2 || s1 == UNKNOWN || s2 == UNKNOWN {
      return false;
    }
    var x, y := form[0], form[1];
    if x.zext != y.zext || x.sext != y.sext || x.scale != WrapSigned(-y.scale) {
      return false;
    }
    match offsets(x.v, y.v) {
      case Unrelated => return false;
      case Offsets(width, first, second) =>
        var minDiff := WrapTo(first - second, width);
        var wrapped := WrapTo(-minDiff, width);
        minDiff := Min(minDiff, wrapped);
        var minDiffBytes := (minDiff * Abs(x.scale)) % U64;
        return Add64(s1, Abs(base)) <= minDiffBytes && Add64(s2, Abs(base)) <= minDiffBytes;
    }
  }

  /** The valuation agrees with the decomposition: extended alike, the variables are at the constant distance but for
      multiples of the width. */
  predicate AtOffset(form: seq<Index>, env: Valuation, offsets: Decomposed) {
    Cancels(form, offsets) ==>
      var x, y, o := form[0], form[1], offsets(form[0].v, form[1].v);
      Multiple(env(x.v, x.zext, x.sext) - env(y.v, y.zext, y.sext) - (o.first - o.second), o.width)
  }

  /** The sizes can be added to the constant in 64 bits, and the scale can be negated. */
  predicate OffsetInRange(base: int, form: seq<Index>, s1: int, s2: int) {
    s1 + Abs(base) < U64 && s2 + Abs(base) < U64 && forall i | 0 <= i < |form| :: form[i].scale != MIN
  }

  lemma AtLeastMinDiff(d: int, x: int, w: nat)
    requires Multiple(d - x, w)
    ensures MinDiff(x, w) <= Abs(d)
  {
    var p := Pow2(w);
    var m, q := x % p, x / p;
    assert x == q * p + m;
    MultipleIs(d - x, w);
    var t := (d - x) / p + q;
    assert d == t * p + m by { Distribute((d - x) / p, 1, q, p); }
    if t >= 0 {
      MulLe(0, t, p);
    } else {
      MulLe(t, -1, p);
      if m > 0 {
        DivUnique(-m, p, -1, p - m);
      }
    }
  }

  lemma OffsetProves(base: int, form: seq<Index>, s1: int, s2: int, offsets: Decomposed, env: Valuation)
    requires IsSigned(base) && Scales(form) && 0 <= s1 && 0 <= s2
    requires PassesOffset(base, form, s1, s2, offsets) && OffsetInRange(base, form, s1, s2) &&
      AtOffset(form, env, offsets)
    ensures Beside(base + SumOf(form, env), s1, s2)
  {
    var x, y, o := form[0], form[1], offsets(form[0].v, form[1].v);
    var d := env(x.v, x.zext, x.sext) - env(y.v, y.zext, y.sext);
    TwoTerms(form, env);
    AtLeastMinDiff(d, o.first - o.second, o.width);
    FarApart(x.scale, d, MinDiff(o.first - o.second, o.width));
    RemainderBelow(MinDiff(o.first - o.second, o.width) * Abs(x.scale));
    GapBeside(base, x.scale * d, s1, s2, MinDiffBytes(form, offsets));
  }

  lemma RemainderBelow(x: int)
    requires 0 <= x
    ensures x % U64 <= x
  {
    DivBounds(x, U64);
    MulLe(0, x / U64, U64);
  }

  lemma TwoTerms(form: seq<Index>, env: Valuation)
    requires |form| == 2 && form[1].scale == -form[0].scale
    ensures SumOf(form, env) ==
      form[0].scale * (env(form[0].v, form[0].zext, form[0].sext) - env(form[1].v, form[1].zext, form[1].sext))
  {
    var x, y := form[0], form[1];
    SumAppend([], x, env);
    SumAppend([] + [x], y, env);
    assert form == [] + [x] + [y];
    var a, b, scale := env(x.v, x.zext, x.sext), env(y.v, y.zext, y.sext), x.scale;
    assert scale * a + (-scale) * b == scale * (a - b);
  }

  lemma FarApart(scale: int, d: int, least: int)
    requires 0 <= least <= Abs(d)
    ensures 0 <= least * Abs(scale) <= Abs(scale * d)
  {
    MulLe(least, Abs(d), Abs(scale));
    MulLe(0, least, Abs(scale));
    AbsTimes(scale, d);
  }

  lemma AbsTimes(a: int, b: int)
    ensures Abs(a * b) == Abs(b) * Abs(a)
  {
    assert (-a) * b == -(a * b) && a * (-b) == -(a * b) && (-a) * (-b) == a * b;
    if a >= 0 && b >= 0 {
      MulLe(0, a, b);
    } else if a < 0 && b < 0 {
      MulLe(0, -a, -b);
    } else if a >= 0 {
      MulLe(0, a, -b);
    } else {
      MulLe(0, -a, b);
    }
  }

  lemma GapBeside(base: int, far: int, s1: int, s2: int, gap: int)
    requires gap <= Abs(far) && s1 + Abs(base) <= gap && s2 + Abs(base) <= gap
    ensures Beside(base + far, s1, s2)
  {
  }

  /** Side by side as integers. */
  predicate SideBySide(d: int, s1: int, s2: int) { s2 <= d || s1 <= -d }

  lemma SideBySideExact(d: int, s1: int, s2: int)
    requires s1 > 0 && s2 > 0
    ensures SideBySide(d, s1, s2) <==> Beside(d, s1, s2)
  {
    assert if d >= 0 then d < s2 ==> SameByte(d, 0, d) else -d < s1 ==> SameByte(d, -d, 0);
  }

  /** When the answer by a constant offset is right for all values of the two variables: exactly if the accesses are
      side by side for the offset as it is, and for the offset when one of the variables wraps around. */
  lemma OffsetExact(base: int, form: seq<Index>, s1: int, s2: int, offsets: Decomposed)
    requires Scales(form) && Separate(form) && s1 > 0 && s2 > 0 && Cancels(form, offsets) && Negated(form)
    requires OfWidth(form[0], offsets(form[0].v, form[1].v).width)
    ensures (forall env :: Ranged(form, env) && AtOffset(form, env, offsets) ==>
             Beside(base + SumOf(form, env), s1, s2)) <==>
      var o := offsets(form[0].v, form[1].v);
      var m := WrapTo(o.first - o.second, o.width);
      SideBySide(base + form[0].scale * m, s1, s2) &&
      (m > 0 ==> SideBySide(base + form[0].scale * (m - Pow2(o.width)), s1, s2))
  {
    var o := offsets(form[0].v, form[1].v);
    var p, m := Pow2(o.width), WrapTo(o.first - o.second, o.width);
    SideBySideExact(base + form[0].scale * m, s1, s2);
    SideBySideExact(base + form[0].scale * (m - p), s1, s2);
    var env := AtDistance(form, offsets, m);
    if m > 0 {
      var around := AtDistance(form, offsets, m - p);
    }
    forall env | Ranged(form, env) && AtOffset(form, env, offsets)
      ensures SumOf(form, env) == form[0].scale * m || (m > 0 && SumOf(form, env) == form[0].scale * (m - p))
    {
      TwoDistances(form, offsets, env);
    }
  }

  /** The scale is not the one that cannot be negated. */
  predicate Negated(form: seq<Index>) { |form| == 2 && form[0].scale != MIN && form[1].scale != MIN }

  /** The variable has this many bits, and is extended in one way at most. */
  predicate OfWidth(x: Index, width: nat) {
    Extends(x) && width == 64 - x.zext - x.sext && (x.zext == 0 || x.sext == 0)
  }

  /** The lowest value of the variable. */
  function Lowest(x: Index): int
    requires Extends(x)
  {
    if x.zext == 0 then -Half(x) else 0
  }

  /** Two variables that differ by a constant modulo their width have one of two distances. */
  lemma TwoDistances(form: seq<Index>, offsets: Decomposed, env: Valuation)
    requires Scales(form) && Cancels(form, offsets) && Negated(form) &&
      OfWidth(form[0], offsets(form[0].v, form[1].v).width)
    requires Ranged(form, env) && AtOffset(form, env, offsets)
    ensures var o := offsets(form[0].v, form[1].v);
      var m := WrapTo(o.first - o.second, o.width);
      SumOf(form, env) == form[0].scale * m || (m > 0 && SumOf(form, env) == form[0].scale * (m - Pow2(o.width)))
  {
    var x, y, o := form[0], form[1], offsets(form[0].v, form[1].v);
    var d, c, p := env(x.v, x.zext, x.sext) - env(y.v, y.zext, y.sext), o.first - o.second, Pow2(o.width);
    TwoTerms(form, env);
    assert InRange(x, env(x.v, x.zext, x.sext)) && InRange(y, env(y.v, y.zext, y.sext));
    assert p == 2 * Half(x);
    MultipleIs(d - c, o.width);
    WrappedDistance(d, c, (d - c) / p, p);
  }

  lemma WrappedDistance(d: int, c: int, n: int, p: int)
    requires p > 0 && -p < d < p && d - c == n * p
    ensures d == c % p || (c % p > 0 && d == c % p - p)
  {
    var m, q := c % p, c / p;
    assert c == q * p + m;
    Distribute(n, 1, q, p);
    assert d == (n + q) * p + m;
    if n + q >= 1 {
      MulLe(1, n + q, p);
    } else if n + q <= -1 {
      if n + q <= -2 { MulLe(n + q, -2, p); }
    }
  }

  /** And both of them are possible. */
  lemma AtDistance(form: seq<Index>, offsets: Decomposed, d: int) returns (env: Valuation)
    requires Scales(form) && Separate(form) && Cancels(form, offsets) && Negated(form)
    requires OfWidth(form[0], offsets(form[0].v, form[1].v).width)
    requires var o := offsets(form[0].v, form[1].v);
      var m := WrapTo(o.first - o.second, o.width); d == m || (m > 0 && d == m - Pow2(o.width))
    ensures Ranged(form, env) && AtOffset(form, env, offsets) && SumOf(form, env) == form[0].scale * d
  {
    var x, y, o := form[0], form[1], offsets(form[0].v, form[1].v);
    var low := Lowest(x);
    env := TwoValues(x, if d >= 0 then low + d else low, y, if d >= 0 then low else low - d);
    assert !SameVariable(x, y);
    assert Pow2(o.width) == 2 * Half(x);
    TwoTerms(form, env);
    OffsetMultiple(d, o.first - o.second, o.width);
  }

  lemma OffsetMultiple(d: int, c: int, w: nat)
    requires d == c % Pow2(w) || d == c % Pow2(w) - Pow2(w)
    ensures Multiple(d - c, w)
  {
    var p := Pow2(w);
    var n := if d == c % p then -(c / p) else -(c / p) - 1;
    assert c == (c / p) * p + c % p;
    PowerMultiple(w, w);
    MultipleTimes(p, n, w);
    assert d - c == p * n;
  }

  function TwoValues(x: Index, a: int, y: Index, b: int): Valuation {
    (v: Value, zext: nat, sext: nat) => if v == x.v then a else if v == y.v then b else 0
  }

  /** With a size of almost the whole address space, the addition wraps around and the heuristic is wrong: a byte
      at distance 4 from a pair of 8-bit variables that are 8 apart, or 248 if one of them wraps. */
  lemma OffsetWraps(v: Value, w: Value, width: nat, offsets: Decomposed) returns (form: seq<Index>, env: Valuation)
    requires v != w && offsets(v, w) == Offsets(width, 8, 0) && width == 8
    ensures Scales(form) && Separate(form) && IsSize(UNKNOWN - 1) && PassesOffset(4, form, UNKNOWN - 1, 1, offsets)
    ensures Ranged(form, env) && AtOffset(form, env, offsets) && !Beside(4 + SumOf(form, env), UNKNOWN - 1, 1)
  {
    form := [Index(v, 64 - width, 0, 1), Index(w, 64 - width, 0, -1)];
    TwoToThe8(width);
    EightBytes(form, width, offsets);
    env := AtDistance(form, offsets, -248);
    assert SameByte(4 + SumOf(form, env), 244, 0);
  }

  lemma TwoToThe8(n: nat)
    requires n == 8
    ensures Pow2(n) == 256
  {
    assert Pow2(n - 8) == 1 && Pow2(n - 7) == 2 && Pow2(n - 6) == 4 && Pow2(n - 5) == 8;
    assert Pow2(n - 4) == 16 && Pow2(n - 3) == 32 && Pow2(n - 2) == 64 && Pow2(n - 1) == 128;
  }

  lemma EightBytes(form: seq<Index>, width: nat, offsets: Decomposed)
    requires Cancels(form, offsets) && form[0].scale == 1 && Pow2(width) == 256
    requires offsets(form[0].v, form[1].v) == Offsets(width, 8, 0)
    ensures PassesOffset(4, form, UNKNOWN - 1, 1, offsets)
  {
    assert MinDiff(8, width) == 8;
  }

  /** A constant distance decides if the sizes that matter are known. */
  predicate Decides(base: int, s1: int, s2: int) { s2 != UNKNOWN && (base >= 0 || s1 != UNKNOWN) }

  /** Of two accesses at a constant distance, the later one starts within the other. */
  predicate StartsWithin(base: int, s1: int, s2: int) { if base >= 0 then base < s2 else -base < s1 }

  lemma ConstantMeans(base: int, s1: int, s2: int)
    ensures !StartsWithin(base, s1, s2) ==> Beside(base, s1, s2)
    ensures StartsWithin(base, s1, s2) && s1 > 0 && s2 > 0 ==> Overlap(base, s1, s2)
  {
    if StartsWithin(base, s1, s2) && s1 > 0 && s2 > 0 {
      if base >= 0 {
        SameBy(base, base, 0);
        assert Meet(base, 0, base);
      } else {
        SameBy(0, 0, 0);
        assert Meet(base, -base, 0);
      }
    }
  }

  lemma OffsetsProve(base: int, form: seq<Index>, s1: int, s2: int, known: Value -> Known, offsets: Decomposed)
    requires IsSigned(base) && Scales(form) && 0 <= s1 && 0 <= s2
    requires PassesOffset(base, form, s1, s2, offsets) && OffsetInRange(base, form, s1, s2)
    ensures AlwaysBeside(base, form, s1, s2, known, offsets)
  {
    forall env | Possible(form, env, known, offsets) ensures Beside(base + SumOf(form, env), s1, s2) {
      OffsetProves(base, form, s1, s2, offsets, env);
    }
  }

  /** Why accesses at a symbolic distance are said to be apart, in the order of the tests. */
  predicate SaidApart(base: int, form: seq<Index>, s1: int, s2: int, known: Value -> Known, offsets: Decomposed)
    requires IsSigned(base) && Scales(form)
  {
    PassesModulo(base, form, s1, s2) || KnownSigns(base, form, s2, known) || PassesOffset(base, form, s1, s2, offsets)
  }

  /** The difference as an integer tells the accesses apart: always for a constant distance and for known signs. */
  predicate ByIntegers(base: int, form: seq<Index>, s1: int, s2: int, known: Value -> Known) {
    form == [] || KnownSigns(base, form, s2, known) || OffsetInRange(base, form, s1, s2)
  }

  /** What two pointers at a symbolic distance say about their accesses. */
  method AliasAtDistance(base: int, form: seq<Index>, s1: int, s2: int, known: Value -> Known, offsets: Decomposed)
    returns (r: AliasResult)
    requires IsSigned(base) && Scales(form) && IsSize(s1) && IsSize(s2)
    ensures r == MustAlias <==> base == 0 && form == []
    ensures form == [] && base != 0 ==>
      r == if !Decides(base, s1, s2) then MayAlias else if StartsWithin(base, s1, s2) then PartialAlias else NoAlias
    ensures r == PartialAlias && s1 > 0 && s2 > 0 ==> Overlap(base, s1, s2)
    ensures form != [] ==> r == if SaidApart(base, form, s1, s2, known, offsets) then NoAlias else MayAlias
    ensures form != [] && PassesModulo(base, form, s1, s2) ==> AlwaysApart(base, form, s1, s2)
    ensures r == NoAlias && !(form != [] && PassesModulo(base, form, s1, s2)) &&
            ByIntegers(base, form, s1, s2, known) ==>
      AlwaysBeside(base, form, s1, s2, known, offsets)
  {
    if base == 0 && form == [] {
      return MustAlias;
    }
    if base != 0 && form == [] {
      ConstantMeans(base, s1, s2);
      if base >= 0 {
        if s2 != UNKNOWN {
          if base < s2 {
            return PartialAlias;
          }
          return NoAlias;
        }
      } else if s1 != UNKNOWN && s2 != UNKNOWN {
        if -base < s1 {
          return PartialAlias;
        }
        return NoAlias;
      }
    }
    if form != [] {
      var apart := ModuloTest(base, form, s1, s2);
      if apart {
        return NoAlias;
      }
      var allPositive := AllPositive(form, known);
      if allPositive && base > 0 && s2 <= base {
        SignsProve(base, form, s1, s2, known, offsets);
        return NoAlias;
      }
      apart := ConstantOffsetHeuristic(base, form, s1, s2, offsets);
      if apart {
        if OffsetInRange(base, form, s1, s2) {
          OffsetsProve(base, form, s1, s2, known, offsets);
        }
        return NoAlias;
      }
    }
    return MayAlias;
  }

  method AllPositive(form: seq<Index>, known: Value -> Known) returns (allPositive: bool)
    ensures allPositive <==> forall k | 0 <= k < |form| :: TermPositive(form[k], known)
  {
    allPositive := true;
    for i := 0 to |form|
      invariant allPositive <==> forall k | 0 <= k < i :: TermPositive(form[k], known)
    {
      if allPositive {
        allPositive := TermPositive(form[i], known);
      }
    }
  }

  /** Subtracts two forms over one base, and asks about the difference. By the modulus, and by an overlap at a constant
      distance, the answer holds for all addresses; otherwise for the difference as an integer, hence for all
      accesses that do not reach around the address space. */
  method AliasForms(base1: int, form1: seq<Index>, s1: int, base2: int, form2: seq<Index>, s2: int, equal: Equality,
                    known: Value -> Known, offsets: Decomposed)
    returns (r: AliasResult, ghost base: int, ghost form: seq<Index>)
    requires IsSigned(base1) && IsSigned(base2) && Scales(form1) && Scales(form2)
    requires IsSize(s1) && IsSize(s2) && Sound(equal)
    ensures IsSigned(base) && Scales(form)
    ensures forall env :: SameAddress(base + SumOf(form, env), Distance(base1, form1, base2, form2, env))
    ensures r == MustAlias ==> forall env :: SameAddress(base1 + SumOf(form1, env), base2 + SumOf(form2, env))
    ensures r == PartialAlias && s1 > 0 && s2 > 0 ==>
      forall env :: Overlap(Distance(base1, form1, base2, form2, env), s1, s2)
    ensures r == NoAlias && form != [] && PassesModulo(base, form, s1, s2) ==>
      forall env :: !Overlap(Distance(base1, form1, base2, form2, env), s1, s2)
    ensures r == NoAlias && !(form != [] && PassesModulo(base, form, s1, s2)) &&
            ByIntegers(base, form, s1, s2, known) ==>
      AlwaysBeside(base, form, s1, s2, known, offsets)
    ensures r == NoAlias && ByIntegers(base, form, s1, s2, known) && s1 > 0 && s2 > 0 ==>
      forall env :: Possible(form, env, known, offsets) && ReachesNotAround(base + SumOf(form, env), s1, s2) ==>
        !Overlap(Distance(base1, form1, base2, form2, env), s1, s2)
  {
    var difference := WrapSigned(base1 - base2);
    var indices := GetIndexDifference(form1, form2, equal);
    WrapSame(base1 - base2);
    base, form := difference, indices;
    forall env ensures SameAddress(base + SumOf(form, env), Distance(base1, form1, base2, form2, env)) {
      SameSum(base, base1 - base2, SumOf(form, env), SumOf(form1, env) - SumOf(form2, env));
    }
    r := AliasAtDistance(difference, indices, s1, s2, known, offsets);
    forall env {
      OverlapSame(base + SumOf(form, env), Distance(base1, form1, base2, form2, env), s1, s2);
    }
    if r == MustAlias {
      forall env ensures SameAddress(base1 + SumOf(form1, env), base2 + SumOf(form2, env)) {
        SameBy(0, 0, 0);
        DifferenceZero(base1 + SumOf(form1, env), base2 + SumOf(form2, env));
      }
    }
    if r == NoAlias && ByIntegers(base, form, s1, s2, known) && s1 > 0 && s2 > 0 {
      NoWrapApart(base, form, s1, s2, known, offsets);
    }
  }

  /** Neither access reaches around to the other one. */
  predicate ReachesNotAround(distance: int, s1: int, s2: int) {
    distance <= U64 - s1 && s2 - U64 <= distance
  }

  lemma NoWrapApart(base: int, form: seq<Index>, s1: int, s2: int, known: Value -> Known, offsets: Decomposed)
    requires s1 > 0 && s2 > 0 && (AlwaysApart(base, form, s1, s2) || AlwaysBeside(base, form, s1, s2, known, offsets))
    ensures forall env :: Possible(form, env, known, offsets) && ReachesNotAround(base + SumOf(form, env), s1, s2) ==>
      !Overlap(base + SumOf(form, env), s1, s2)
  {
    forall env | Possible(form, env, known, offsets) && ReachesNotAround(base + SumOf(form, env), s1, s2)
      ensures !Overlap(base + SumOf(form, env), s1, s2)
    {
      if AlwaysBeside(base, form, s1, s2, known, offsets) {
        BesideExact(base + SumOf(form, env), s1, s2);
      }
    }
  }

  /** From the second pointer to the first. */
  function Distance(base1: int, form1: seq<Index>, base2: int, form2: seq<Index>, env: Valuation): int {
    (base1 + SumOf(form1, env)) - (base2 + SumOf(form2, env))
  }

  lemma DifferenceZero(a: int, b: int)
    requires SameAddress(0, a - b)
    ensures SameAddress(a, b)
  {
    var k: int :| 0 - (a - b) == Times64(k);
    SameBy(a, b, -k);
  }

  /** Only the distance modulo the address space matters. */
  lemma OverlapSame(d: int, e: int, s1: int, s2: int)
    requires SameAddress(d, e)
    ensures Overlap(d, s1, s2) == Overlap(e, s1, s2)
  {
    SameBy(d, d, 0);
    SameChain(d, e, e) by { SameBy(e, e, 0); }
    forall i: int, j: int ensures Meet(d, i, j) == Meet(e, i, j) {
      SameBy(i, i, 0);
      SameSum(d, e, i, i);
      if Meet(e, i, j) { SameChain(d + i, e + i, j); }
      SameChain(d + i, e + i, e + i) by { SameBy(e + i, e + i, 0); }
      if Meet(d, i, j) { SameChain(e + i, d + i, j); }
    }
  }

  /** Two fields of structs in an array: by the offsets of the fields and the size of the struct, the
      accesses never overlap, whichever elements of the array they are in. */
  predicate EltsDontOverlap(v1Off: int, v1Size: int, v2Off: int, v2Size: int, structSize: int) {
    && v1Off < v2Off && v1Off + v1Size <= v2Off
    && (v2Off + v2Size <= structSize || v2Off + v2Size - structSize <= v1Off)
  }

  /** Byte i of the field at off in element n of the array. */
  function FieldByte(n: int, structSize: int, off: int, i: int): int { n * structSize + off + i }

  ghost predicate FieldsApart(off1: int, size1: int, off2: int, size2: int, structSize: int) {
    forall n1, n2, i, j | 0 <= i < size1 && 0 <= j < size2 ::
      FieldByte(n1, structSize, off1, i) != FieldByte(n2, structSize, off2, j)
  }

  /** The test is exact. */
  lemma FieldsApartIff(off1: int, size1: int, off2: int, size2: int, structSize: int)
    requires 0 <= off1 <= structSize && 0 <= off2 <= structSize && size1 > 0 && size2 > 0
    ensures FieldsApart(off1, size1, off2, size2, structSize) <==>
      EltsDontOverlap(off1, size1, off2, size2, structSize) || EltsDontOverlap(off2, size2, off1, size1, structSize)
  {
    if EltsDontOverlap(off1, size1, off2, size2, structSize) {
      ApartFields(off1, size1, off2, size2, structSize);
    } else if EltsDontOverlap(off2, size2, off1, size1, structSize) {
      ApartFields(off2, size2, off1, size1, structSize);
    } else if off1 <= off2 {
      MeetingFields(off1, size1, off2, size2, structSize);
    } else {
      MeetingFields(off2, size2, off1, size1, structSize);
    }
  }

  lemma ApartFields(off1: int, size1: int, off2: int, size2: int, structSize: int)
    requires 0 <= off1 <= structSize && 0 <= off2 <= structSize && size1 > 0 && size2 > 0
    requires EltsDontOverlap(off1, size1, off2, size2, structSize)
    ensures FieldsApart(off1, size1, off2, size2, structSize) && FieldsApart(off2, size2, off1, size1, structSize)
  {
    forall n1, n2, i, j | 0 <= i < size1 && 0 <= j < size2
      ensures FieldByte(n1, structSize, off1, i) != FieldByte(n2, structSize, off2, j)
    {
      if n1 <= n2 {
        MulLe(n1, n2, structSize);
      } else {
        MulLe(n2 + 1, n1, structSize);
        Distribute(n2, 1, 1, structSize);
      }
    }
  }

  lemma MeetingFields(off1: int, size1: int, off2: int, size2: int, structSize: int)
    requires 0 <= off1 <= off2 <= structSize && size1 > 0 && size2 > 0
    requires !EltsDontOverlap(off1, size1, off2, size2, structSize)
    ensures !FieldsApart(off1, size1, off2, size2, structSize) && !FieldsApart(off2, size2, off1, size1, structSize)
  {
    if off2 < off1 + size1 {
      assert FieldByte(0, structSize, off1, off2 - off1) == FieldByte(0, structSize, off2, 0);
    } else {
      assert 1 * structSize == structSize && 0 * structSize == 0;
      assert FieldByte(1, structSize, off1, 0) == FieldByte(0, structSize, off2, structSize + off1 - off2);
    }
  }
}
