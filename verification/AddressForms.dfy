/** Pointers as a base plus scaled symbolic indices, their difference, and what it says about two accesses. */
module AddressForms {
  import opened Probability

  datatype Value = Value(id: int)

  /** A variable, how far it is zero and sign extended, and a signed 64-bit scale. */
  datatype Index = Index(v: Value, zext: nat, sext: nat, scale: int)

  /** What the extended variables are, as signed integers. */
  type Valuation = (Value, nat, nat) -> int

  const MIN: int := -0x8000_0000_0000_0000
  const MAX: int := 0x7fff_ffff_ffff_ffff

  predicate IsSigned(x: int) { MIN <= x <= MAX }

  /** Signed 64-bit arithmetic wraps around. */
  function WrapSigned(x: int): int { if x > MAX then x - U64 else if x < MIN then x + U64 else x }

  /** The word that represents a signed number. */
  function Word(x: int): int { if x < 0 then x + U64 else x }

  ghost predicate SameAddress(a: int, b: int) { exists k: int :: a - b == Times64(k) }

  function Times64(k: int): int { k * U64 }

  function SumOf(form: seq<Index>, env: Valuation): int {
    if form == [] then 0 else SumOf(form[..|form| - 1], env) + Term(form[|form| - 1], env)
  }

  function Term(x: Index, env: Valuation): int { x.scale * env(x.v, x.zext, x.sext) }

  predicate Scales(form: seq<Index>) {
    forall i | 0 <= i < |form| :: IsSigned(form[i].scale)
  }

  predicate NoZeroScale(form: seq<Index>) {
    forall i | 0 <= i < |form| :: form[i].scale != 0
  }

  /** Each variable occurs once. */
  predicate Separate(form: seq<Index>) {
    forall i, j {:trigger SameVariable(form[i], form[j])} | 0 <= i < j < |form| :: !SameVariable(form[i], form[j])
  }

  predicate SameVariable(x: Index, y: Index) { x.v == y.v && x.zext == y.zext && x.sext == y.sext }

  lemma SameBy(a: int, b: int, k: int)
    requires a - b == k * U64
    ensures SameAddress(a, b)
  {
    assert a - b == Times64(k);
  }

  lemma SameSum(a: int, b: int, c: int, d: int)
    requires SameAddress(a, b) && SameAddress(c, d)
    ensures SameAddress(a + c, b + d) && SameAddress(a - c, b - d)
  {
    var k: int :| a - b == Times64(k);
    var l: int :| c - d == Times64(l);
    assert (a + c) - (b + d) == Times64(k + l);
    assert (a - c) - (b - d) == Times64(k - l);
  }

  lemma SameTimes(a: int, b: int, x: int)
    requires SameAddress(a, b)
    ensures SameAddress(a * x, b * x)
  {
    var k: int :| a - b == Times64(k);
    assert (a - b) * x == a * x - b * x;
    assert (k * U64) * x == (k * x) * U64;
    assert a * x - b * x == Times64(k * x);
  }

  lemma SameChain(a: int, b: int, c: int)
    requires SameAddress(a, b) && SameAddress(b, c)
    ensures SameAddress(a, c) && SameAddress(c, a)
  {
    var k: int :| a - b == Times64(k);
    var l: int :| b - c == Times64(l);
    assert a - c == Times64(k + l);
    assert c - a == Times64(-k - l);
  }

  lemma WrapSame(x: int)
    requires MIN - U64 <= x <= MAX + U64
    ensures IsSigned(WrapSigned(x)) && SameAddress(WrapSigned(x), x)
  {
    SameBy(WrapSigned(x), x, if x > MAX then -1 else if x < MIN then 1 else 0);
  }

  /** Scaling a variable by a wrapped difference. */
  lemma TermDifference(x: Index, y: Index, env: Valuation)
    requires IsSigned(x.scale) && IsSigned(y.scale) && x.v == y.v && x.zext == y.zext && x.sext == y.sext
    ensures SameAddress(Term(x.(scale := WrapSigned(x.scale - y.scale)), env), Term(x, env) - Term(y, env))
  {
    var d := x.scale - y.scale;
    var e := env(x.v, x.zext, x.sext);
    WrapSame(d);
    SameTimes(WrapSigned(d), d, e);
    assert d * e == x.scale * e - y.scale * e;
  }

  lemma TermNegated(y: Index, env: Valuation)
    requires IsSigned(y.scale)
    ensures SameAddress(Term(y.(scale := WrapSigned(-y.scale)), env), -Term(y, env))
  {
    var e := env(y.v, y.zext, y.sext);
    WrapSame(-y.scale);
    SameTimes(WrapSigned(-y.scale), -y.scale, e);
    assert (-y.scale) * e == -(y.scale * e);
  }

  lemma SumAppend(form: seq<Index>, x: Index, env: Valuation)
    ensures SumOf(form + [x], env) == SumOf(form, env) + Term(x, env)
  {
    assert (form + [x])[..|form|] == form;
  }

  lemma {:induction false} SumUpdate(form: seq<Index>, j: nat, x: Index, env: Valuation)
    requires j < |form|
    ensures SumOf(form[j := x], env) == SumOf(form, env) - Term(form[j], env) + Term(x, env)
    decreases |form|
  {
    var n := |form| - 1;
    if j < n {
      SumUpdate(form[..n], j, x, env);
      assert form[j := x][..n] == form[..n][j := x];
    } else {
      assert form[j := x][..n] == form[..n];
    }
  }

  lemma {:induction false} SumErase(form: seq<Index>, j: nat, env: Valuation)
    requires j < |form|
    ensures SumOf(form[..j] + form[j + 1..], env) == SumOf(form, env) - Term(form[j], env)
    decreases |form|
  {
    var n := |form| - 1;
    var out := form[..j] + form[j + 1..];
    if j < n {
      SumErase(form[..n], j, env);
      assert out[..n - 1] == form[..n][..j] + form[..n][j + 1..];
    } else {
      assert out == form[..n];
    }
  }

  /** Whether two values are known to be equal; the caller's cycle analysis may deny it for a value and itself. */
  type Equality = (Value, Value) -> bool

  ghost predicate Sound(equal: Equality) {
    forall a, b :: equal(a, b) ==> a == b
  }

  /** No analysis of cycles denies that a value is equal to itself. */
  ghost predicate Reflexive(equal: Equality) {
    forall a :: equal(a, a)
  }

  /** Subtracts the indices of src from those of dest: whatever the variables are, the result stands for
      the difference of addresses. Matching variables are merged, and none with scale zero is left: unless equality
      is denied, each variable occurs once, and a form has no difference with itself. */
  method GetIndexDifference(dest: seq<Index>, src: seq<Index>, equal: Equality) returns (r: seq<Index>)
    requires Scales(dest) && Scales(src) && Sound(equal)
    ensures Scales(r) && (NoZeroScale(dest) ==> NoZeroScale(r))
    ensures forall env :: SameAddress(SumOf(r, env), SumOf(dest, env) - SumOf(src, env))
    ensures Reflexive(equal) && Separate(dest) ==> Separate(r)
    ensures Reflexive(equal) && Separate(dest) && NoZeroScale(dest) && src == dest ==> r == []
  {
    r := dest;
    assert forall env :: SumOf(src[..0], env) == 0;
    forall env ensures SameAddress(SumOf(r, env), SumOf(dest, env) - SumOf(src[..0], env)) {
      SameBy(SumOf(r, env), SumOf(dest, env), 0);
    }
    for i := 0 to |src|
      invariant Scales(r) && (NoZeroScale(dest) ==> NoZeroScale(r))
      invariant Reflexive(equal) && Separate(dest) ==> Separate(r)
      invariant forall env :: SameAddress(SumOf(r, env), SumOf(dest, env) - SumOf(src[..i], env))
    {
      ghost var before := r;
      r := SubtractIndex(r, src[i], equal);
      forall env ensures SameAddress(SumOf(r, env), SumOf(dest, env) - SumOf(src[..i + 1], env)) {
        assert src[..i + 1] == src[..i] + [src[i]];
        SumAppend(src[..i], src[i], env);
        assert SameAddress(SumOf(r, env), SumOf(before, env) - Term(src[i], env));
        SameBy(Term(src[i], env), Term(src[i], env), 0);
        SameSum(SumOf(before, env), SumOf(dest, env) - SumOf(src[..i], env), Term(src[i], env), Term(src[i], env));
        SameChain(SumOf(r, env), SumOf(before, env) - Term(src[i], env),
                  SumOf(dest, env) - SumOf(src[..i], env) - Term(src[i], env));
      }
    }
    assert src[..|src|] == src;
    if Reflexive(equal) && Separate(dest) && NoZeroScale(dest) && src == dest {
      SelfDifference(dest, r);
    }
  }

  /** One step: merges into the first matching entry, or adds an entry. */
  method SubtractIndex(dest: seq<Index>, x: Index, equal: Equality) returns (r: seq<Index>)
    requires Scales(dest) && IsSigned(x.scale) && Sound(equal)
    ensures Scales(r) && (NoZeroScale(dest) ==> NoZeroScale(r))
    ensures forall env :: SameAddress(SumOf(r, env), SumOf(dest, env) - Term(x, env))
    ensures Reflexive(equal) && Separate(dest) ==> Separate(r)
  {
    r := dest;
    var scale := x.scale;
    var j := 0;
    while j < |dest|
      invariant 0 <= j <= |dest| && r == dest && scale == x.scale
      invariant Reflexive(equal) ==> forall k | 0 <= k < j :: !SameVariable(dest[k], x)
    {
      if equal(dest[j].v, x.v) && dest[j].zext == x.zext && dest[j].sext == x.sext {
        if dest[j].scale != scale {
          r := dest[j := dest[j].(scale := WrapSigned(dest[j].scale - scale))];
          forall env ensures SameAddress(SumOf(r, env), SumOf(dest, env) - Term(x, env)) {
            MergedSum(dest, j, x, env);
          }
          WrapSame(dest[j].scale - scale);
          StillSeparate(dest, r, j);
        } else {
          r := dest[..j] + dest[j + 1..];
          ErasedSeparate(dest, j);
          forall env ensures SameAddress(SumOf(r, env), SumOf(dest, env) - Term(x, env)) {
            SumErase(dest, j, env);
            SameBy(SumOf(r, env), SumOf(dest, env) - Term(x, env), 0);
          }
        }
        scale := 0;
        return;
      }
      j := j + 1;
    }
    if scale != 0 {
      var entry := Index(x.v, x.zext, x.sext, WrapSigned(-scale));
      r := dest + [entry];
      forall env ensures SameAddress(SumOf(r, env), SumOf(dest, env) - Term(x, env)) {
        SumAppend(dest, entry, env);
        TermNegated(x, env);
        SameBy(SumOf(dest, env), SumOf(dest, env), 0);
        SameSum(SumOf(dest, env), SumOf(dest, env), Term(entry, env), -Term(x, env));
      }
      WrapSame(-scale);
    } else {
      forall env ensures SameAddress(SumOf(r, env), SumOf(dest, env) - Term(x, env)) {
        SameBy(SumOf(r, env), SumOf(dest, env) - Term(x, env), 0);
      }
    }
  }

  lemma MergedSum(dest: seq<Index>, j: nat, x: Index, env: Valuation)
    requires j < |dest| && IsSigned(dest[j].scale) && IsSigned(x.scale)
    requires dest[j].v == x.v && dest[j].zext == x.zext && dest[j].sext == x.sext
    ensures SameAddress(SumOf(dest[j := dest[j].(scale := WrapSigned(dest[j].scale - x.scale))], env),
                        SumOf(dest, env) - Term(x, env))
  {
    var merged := dest[j].(scale := WrapSigned(dest[j].scale - x.scale));
    var others := SumOf(dest, env) - Term(dest[j], env);
    SumUpdate(dest, j, merged, env);
    TermDifference(dest[j], x, env);
    SameBy(others, others, 0);
    SameSum(others, others, Term(merged, env), Term(dest[j], env) - Term(x, env));
  }

  lemma StillSeparate(form: seq<Index>, r: seq<Index>, j: nat)
    requires j < |form| == |r| && SameVariable(form[j], r[j]) && forall i | 0 <= i < |form| && i != j :: r[i] == form[i]
    ensures Separate(form) ==> Separate(r)
  {
    forall a, b | Separate(form) && 0 <= a < b < |r| ensures !SameVariable(r[a], r[b]) {
      assert !SameVariable(form[a], form[b]);
    }
  }

  lemma ErasedSeparate(form: seq<Index>, j: nat)
    requires j < |form|
    ensures Separate(form) ==> Separate(form[..j] + form[j + 1..])
  {
    var r := form[..j] + form[j + 1..];
    forall a, b | Separate(form) && 0 <= a < b < |r| ensures !SameVariable(r[a], r[b]) {
      assert !SameVariable(form[if a < j then a else a + 1], form[if b < j then b else b + 1]);
    }
  }

  // ----- one normal form -----

  /** One variable has the value e, and all others are zero. */
  function OnlyOne(x: Index, e: int): Valuation {
    (v, zext, sext) => if v == x.v && zext == x.zext && sext == x.sext then e else 0
  }

  lemma {:induction false} OnlyOneAt(form: seq<Index>, n: nat, i: nat, x: Index, e: int)
    requires n <= |form| && i < |form| && Separate(form) && SameVariable(form[i], x)
    ensures SumOf(form[..n], OnlyOne(x, e)) == if i < n then form[i].scale * e else 0
    decreases n
  {
    if n > 0 {
      OnlyOneAt(form, n - 1, i, x, e);
      assert form[..n][..n - 1] == form[..n - 1];
      if n - 1 < i {
        assert !SameVariable(form[n - 1], form[i]);
      } else if i < n - 1 {
        assert !SameVariable(form[i], form[n - 1]);
      }
    }
  }

  lemma OnlyOneSum(form: seq<Index>, n: nat, i: nat, e: int)
    requires n <= |form| && i < |form| && Separate(form)
    ensures SumOf(form[..n], OnlyOne(form[i], e)) == if i < n then form[i].scale * e else 0
  {
    OnlyOneAt(form, n, i, form[i], e);
  }

  lemma {:induction false} NoneSum(form: seq<Index>, x: Index, e: int)
    requires forall i | 0 <= i < |form| :: !SameVariable(form[i], x)
    ensures SumOf(form, OnlyOne(x, e)) == 0
    decreases |form|
  {
    if form != [] { NoneSum(form[..|form| - 1], x, e); }
  }

  lemma SignedSame(a: int, b: int)
    requires IsSigned(a) && IsSigned(b) && SameAddress(a, b)
    ensures a == b
  {
    var k: int :| a - b == Times64(k);
  }

  /** Normal forms that stand for the same address, whatever the variables are, have the same entries. So the result
      of a subtraction is determined, but for its order. */
  lemma NormalFormUnique(a: seq<Index>, b: seq<Index>)
    requires Separate(a) && Scales(a) && NoZeroScale(a) && Separate(b) && Scales(b)
    requires forall env :: SameAddress(SumOf(a, env), SumOf(b, env))
    ensures (forall x | x in a :: x in b) && (|b| == 0 ==> |a| == 0)
  {
    forall i | 0 <= i < |a| ensures a[i] in b {
      var env := OnlyOne(a[i], 1);
      OnlyOneSum(a, |a|, i, 1);
      assert a[..|a|] == a && b[..|b|] == b;
      assert SameAddress(SumOf(a, env), SumOf(b, env));
      if j :| 0 <= j < |b| && SameVariable(b[j], a[i]) {
        OnlyOneAt(b, |b|, j, a[i], 1);
        SignedSame(a[i].scale, b[j].scale);
      } else {
        NoneSum(b, a[i], 1);
        SignedSame(a[i].scale, 0);
      }
    }
    assert |a| > 0 ==> a[0] in b;
  }

  /** Nothing is left of the difference of a form with itself. */
  lemma SelfDifference(form: seq<Index>, r: seq<Index>)
    requires Separate(r) && Scales(r) && NoZeroScale(r)
    requires forall env :: SameAddress(SumOf(r, env), SumOf(form, env) - SumOf(form, env))
    ensures r == []
  {
    forall env ensures SameAddress(SumOf(r, env), SumOf([], env)) {
      assert SumOf([], env) == 0;
    }
    NormalFormUnique(r, []);
  }
}
