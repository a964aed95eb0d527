/** Bitwise operations on words, and the lowest set bit. */
module Bits {
  import opened Probability
  import opened Powers

  function And(a: int, b: int): (r: int)
    requires a >= 0 && b >= 0
    ensures 0 <= r <= a && r <= b
    decreases a
  {
    if a == 0 || b == 0 then 0 else 2 * And(a / 2, b / 2) + if a % 2 == 1 && b % 2 == 1 then 1 else 0
  }

  function Or(a: int, b: int): (r: int)
    requires a >= 0 && b >= 0
    ensures a <= r && b <= r <= a + b
    decreases a
  {
    if a == 0 then b else 2 * Or(a / 2, b / 2) + if a % 2 == 1 || b % 2 == 1 then 1 else 0
  }

  function Xor(a: int, b: int): (r: int)
    requires a >= 0 && b >= 0
    ensures r >= 0
    decreases a
  {
    if a == 0 then b else 2 * Xor(a / 2, b / 2) + if a % 2 != b % 2 then 1 else 0
  }

  lemma AndStep(a: int, b: int)
    requires a >= 0 && b >= 0
    ensures And(a, b) == 2 * And(a / 2, b / 2) + if a % 2 == 1 && b % 2 == 1 then 1 else 0
  {
  }

  lemma OrStep(a: int, b: int)
    requires a >= 0 && b >= 0
    ensures Or(a, b) == 2 * Or(a / 2, b / 2) + if a % 2 == 1 || b % 2 == 1 then 1 else 0
  {
  }

  lemma XorStep(a: int, b: int)
    requires a >= 0 && b >= 0
    ensures Xor(a, b) == 2 * Xor(a / 2, b / 2) + if a % 2 != b % 2 then 1 else 0
  {
  }

  /** Words without common set bits add up without carries. */
  lemma {:induction false} OrAdds(a: int, b: int)
    requires a >= 0 && b >= 0 && And(a, b) == 0
    ensures Or(a, b) == a + b
    decreases a
  {
    if a > 0 && b > 0 {
      OrAdds(a / 2, b / 2);
    } else if a > 0 {
      OrZero(a);
    }
  }

  lemma {:induction false} OrZero(a: int)
    requires a >= 0
    ensures Or(a, 0) == a
    decreases a
  {
    if a > 0 {
      OrZero(a / 2);
    }
  }

  lemma {:induction false} AndSelf(a: int)
    requires a >= 0
    ensures And(a, a) == a && Xor(a, a) == 0
    decreases a
  {
    if a > 0 {
      AndSelf(a / 2);
    }
  }

  lemma {:induction false} XorZero(a: int)
    requires a >= 0
    ensures Xor(a, 0) == a
    decreases a
  {
    if a > 0 {
      XorZero(a / 2);
    }
  }

  /** The position of the lowest set bit. */
  function TrailingZeros(m: int): (k: nat)
    requires m > 0
    decreases m
  {
    if m % 2 == 1 then 0 else 1 + TrailingZeros(m / 2)
  }

  /** Clearing the lowest set bit and taking the difference leaves just that bit. */
  lemma {:induction false} LowestSetBit(m: int)
    requires m > 0
    ensures Xor(m, And(m, m - 1)) == Pow2(TrailingZeros(m))
    decreases m
  {
    var h, low := m / 2, And(m, m - 1);
    AndStep(m, m - 1);
    XorStep(m, low);
    AndSelf(h);
    if m % 2 == 1 {
      assert (m - 1) / 2 == h;
      assert low == 2 * h && low / 2 == h;
    } else {
      LowestSetBit(h);
      assert (m - 1) / 2 == h - 1;
      assert low / 2 == And(h, h - 1);
    }
  }

  /** a is a multiple of 2 to the k. */
  predicate Multiple(a: int, k: nat)
    decreases k
  {
    k == 0 || (a % 2 == 0 && Multiple(a / 2, k - 1))
  }

  /** Every word that was or-ed into m is a multiple of the lowest set bit of m. */
  lemma {:induction false} OrMultiples(a: int, b: int)
    requires a >= 0 && b >= 0 && Or(a, b) > 0
    ensures Multiple(a, TrailingZeros(Or(a, b))) && Multiple(b, TrailingZeros(Or(a, b)))
    decreases a + b
  {
    OrStep(a, b);
    var m := Or(a, b);
    if m % 2 == 0 {
      assert m / 2 == Or(a / 2, b / 2);
      OrMultiples(a / 2, b / 2);
    }
  }

  lemma {:induction false} MultipleIs(a: int, k: nat)
    ensures Multiple(a, k) ==> a == (a / Pow2(k)) * Pow2(k)
    decreases k
  {
    if k > 0 && a % 2 == 0 {
      MultipleIs(a / 2, k - 1);
      var p := Pow2(k - 1);
      if Multiple(a, k) {
        var q := a / 2 / p;
        Double(q, p);
        assert a == q * (2 * p);
        Quotient(a, 2 * p, q);
      }
    }
  }

  lemma Quotient(n: int, d: int, q: int)
    requires d > 0 && n == q * d
    ensures n / d == q
  {
    if n / d < q {
      MulLe(n / d + 1, q, d);
    } else if n / d > q {
      MulLe(q + 1, n / d, d);
    }
  }

  /** Fewer trailing zeros are asked for by a smaller power. */
  lemma {:induction false} MultipleOfLess(a: int, k: nat, j: nat)
    requires Multiple(a, k) && j <= k
    ensures Multiple(a, j)
    decreases k
  {
    if j > 0 {
      MultipleOfLess(a / 2, k - 1, j - 1);
    }
  }

  /** Masking with one less than a power of two is the remainder. */
  lemma {:induction false} MaskIsRemainder(a: int, k: nat)
    requires a >= 0
    ensures 0 <= And(a, Pow2(k) - 1) < Pow2(k)
    ensures Multiple(a - And(a, Pow2(k) - 1), k)
    decreases k
  {
    if k > 0 {
      MaskIsRemainder(a / 2, k - 1);
      MaskStep(a, Pow2(k - 1) - 1);
      HalfMasked(a, And(a / 2, Pow2(k - 1) - 1), k);
    }
  }

  lemma HalfMasked(a: int, low: int, k: nat)
    requires k > 0 && Multiple(a / 2 - low, k - 1)
    ensures Multiple(a - (2 * low + a % 2), k)
  {
    assert (a - (2 * low + a % 2)) / 2 == a / 2 - low;
  }

  lemma MaskStep(a: int, half: int)
    requires a >= 0 && half >= 0
    ensures And(a, 2 * half + 1) == 2 * And(a / 2, half) + a % 2
  {
    AndStep(a, 2 * half + 1);
    assert (2 * half + 1) / 2 == half;
  }

  lemma {:induction false} MultipleSum(a: int, b: int, k: nat)
    requires Multiple(a, k) && Multiple(b, k)
    ensures Multiple(a + b, k) && Multiple(a - b, k)
    decreases k
  {
    if k > 0 {
      MultipleSum(a / 2, b / 2, k - 1);
      assert (a + b) / 2 == a / 2 + b / 2 && (a - b) / 2 == a / 2 - b / 2;
    }
  }

  lemma {:induction false} MultipleTimes(a: int, x: int, k: nat)
    requires Multiple(a, k)
    ensures Multiple(a * x, k)
    decreases k
  {
    if k > 0 {
      MultipleTimes(a / 2, x, k - 1);
      var h := a / 2;
      assert a == 2 * h;
      assert (2 * h) * x == 2 * (h * x);
      assert a * x == 2 * (h * x);
    }
  }

  lemma {:induction false} MultipleZero(k: nat)
    ensures Multiple(0, k)
    decreases k
  {
    if k > 0 {
      MultipleZero(k - 1);
    }
  }

  lemma {:induction false} PowerMultiple(n: nat, k: nat)
    requires k <= n
    ensures Multiple(Pow2(n), k)
    decreases k
  {
    if k > 0 {
      PowerMultiple(n - 1, k - 1);
    }
  }

  /** A positive multiple is at least the power itself. */
  lemma {:induction false} SmallestMultiple(a: int, k: nat)
    requires Multiple(a, k) && a > 0
    ensures Pow2(k) <= a && k <= TrailingZeros(a)
    decreases k
  {
    if k > 0 {
      SmallestMultiple(a / 2, k - 1);
    }
  }

  lemma {:induction false} TrailingMultiple(m: int)
    requires m > 0
    ensures Multiple(m, TrailingZeros(m)) && Pow2(TrailingZeros(m)) <= m
    decreases m
  {
    if m % 2 == 0 {
      TrailingMultiple(m / 2);
    }
  }

  lemma {:induction false} OrBound(a: int, b: int, n: nat)
    requires 0 <= a < Pow2(n) && 0 <= b < Pow2(n)
    ensures Or(a, b) < Pow2(n)
    decreases n
  {
    if n > 0 {
      OrStep(a, b);
      OrBound(a / 2, b / 2, n - 1);
    }
  }

  /** The lowest set bit of a disjunction is that of one of the words. */
  lemma {:induction false} OrLowest(a: int, b: int)
    requires a >= 0 && b >= 0 && Or(a, b) > 0
    ensures (a > 0 && TrailingZeros(a) == TrailingZeros(Or(a, b))) ||
      (b > 0 && TrailingZeros(b) == TrailingZeros(Or(a, b)))
    decreases a + b
  {
    OrStep(a, b);
    if Or(a, b) % 2 == 0 {
      assert Or(a, b) / 2 == Or(a / 2, b / 2);
      OrLowest(a / 2, b / 2);
    }
  }

  lemma {:induction false} OddPart(m: int) returns (a: int)
    requires m > 0
    ensures a % 2 == 1 && m == a * Pow2(TrailingZeros(m))
    decreases m
  {
    if m % 2 == 1 {
      a := m;
    } else {
      a := OddPart(m / 2);
      Double(a, Pow2(TrailingZeros(m / 2)));
      assert m == 2 * (m / 2);
    }
  }

  /** Odd numbers can be inverted modulo a power of two. */
  lemma {:induction false} OddInverse(a: int, n: nat) returns (b: int, c: int)
    requires a % 2 == 1
    ensures a * b == 1 + c * Pow2(n)
  {
    if n == 0 {
      b, c := 0, -1;
    } else {
      b, c := OddInverse(a, n - 1);
      var p := Pow2(n - 1);
      if c % 2 == 1 {
        assert a * (b + p) == a * b + a * p && (c + a) * p == c * p + a * p;
        b, c := b + p, c + a;
      }
      assert c * p == (c / 2) * (2 * p) by { HalfTimes(c, p); }
      c := c / 2;
    }
  }

  lemma HalfTimes(c: int, p: int)
    requires c % 2 == 0
    ensures c * p == (c / 2) * (2 * p)
  {
    var h := c / 2;
    assert c == 2 * h;
    assert (2 * h) * p == h * (2 * p);
  }
}
