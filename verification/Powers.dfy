/** Powers of two, shifts, and the number of bits of a word. */
module Powers {
  import opened Probability

  function Pow2(n: nat): (r: int)
    ensures r >= 1
  {
    if n == 0 then 1 else 2 * Pow2(n - 1)
  }

  /** The position of the highest set bit, plus one. */
  function Bits(x: int): (b: nat)
    requires x >= 0
    ensures x < Pow2(b) && (x > 0 ==> b > 0 && Pow2(b - 1) <= x)
  {
    if x == 0 then 0 else 1 + Bits(x / 2)
  }

  lemma {:induction false} Pow2Grows(a: nat, b: nat)
    requires a <= b
    ensures Pow2(a) <= Pow2(b)
    decreases b
  {
    if a < b {
      Pow2Grows(a, b - 1);
    }
  }

  lemma {:induction false} Pow2Adds(a: nat, b: nat)
    ensures Pow2(a + b) == Pow2(a) * Pow2(b)
    decreases b
  {
    if b > 0 {
      Pow2Adds(a, b - 1);
      assert Pow2(a) * Pow2(b) == 2 * (Pow2(a) * Pow2(b - 1)) by {
        Double(Pow2(a), Pow2(b - 1));
      }
    }
  }

  lemma Double(a: int, b: int)
    ensures a * (2 * b) == 2 * (a * b)
  {
  }

  lemma Pow2Byte(n: nat)
    ensures Pow2(n + 8) == 256 * Pow2(n)
  {
    assert Pow2(n + 2) == 2 * Pow2(n + 1);
    assert Pow2(n + 4) == 2 * Pow2(n + 3);
    assert Pow2(n + 6) == 2 * Pow2(n + 5);
    assert Pow2(n + 8) == 2 * Pow2(n + 7);
  }

  lemma Pow2Word(n: nat)
    ensures Pow2(n + 32) == U32 * Pow2(n)
  {
    Pow2Byte(n);
    Pow2Byte(n + 8);
    Pow2Byte(n + 16);
    Pow2Byte(n + 24);
  }

  lemma Pow2At(n: nat)
    ensures n == 32 ==> Pow2(n) == U32 && Pow2(n - 1) == DENOM
    ensures n == 33 ==> Pow2(n) == 2 * U32
    ensures n == 64 ==> Pow2(n) == U64
  {
    if n >= 32 {
      Pow2Word(n - 32);
    }
    if n >= 64 {
      Pow2Word(n - 64);
    }
  }

  /** Shifting a word right, one bit at a time. */
  function ShiftRight(n: int, shift: nat): (r: int)
    requires n >= 0
    ensures 0 <= r <= n
  {
    if shift == 0 then n else ShiftRight(n / 2, shift - 1)
  }

  /** Shifting a word right, adding the last bit that is lost. */
  function ShiftRightAndRound(n: int, shift: nat): (r: int)
    requires n >= 0
    ensures 0 <= r <= n + 1
  {
    if shift == 0 then n else ShiftRight(n, shift) + ShiftRight(n, shift - 1) % 2
  }

  lemma {:induction false} ShiftRightDivides(n: int, shift: nat)
    requires n >= 0
    ensures ShiftRight(n, shift) == n / Pow2(shift)
    decreases shift
  {
    if shift > 0 {
      ShiftRightDivides(n / 2, shift - 1);
      var q, p := n / 2 / Pow2(shift - 1), Pow2(shift - 1);
      DivBounds(n / 2, p);
      Double(q, p);
      DivUnique(n, 2 * p, q, 2 * ((n / 2) % p) + n % 2);
    }
  }

  /** Rounding is to the nearest multiple, halves going up. */
  lemma ShiftRightRounds(n: int, shift: nat)
    requires n >= 0 && shift > 0
    ensures ShiftRightAndRound(n, shift) == (n + Pow2(shift - 1)) / Pow2(shift)
  {
    ShiftRightDivides(n, shift);
    ShiftRightDivides(n, shift - 1);
    RoundsToNearest(n, Pow2(shift - 1));
  }

  lemma RoundsToNearest(n: int, half: int)
    requires n >= 0 && half > 0
    ensures n / (2 * half) + n / half % 2 == (n + half) / (2 * half)
  {
    var q, r := n / half, n % half;
    DivBounds(n, half);
    Halve(q, half);
    Halve(q + 1, half);
    DivUnique(n, 2 * half, q / 2, (q % 2) * half + r);
    DivUnique(n + half, 2 * half, (q + 1) / 2, ((q + 1) % 2) * half + r);
  }

  lemma Halve(q: int, half: int)
    ensures q * half == (q / 2) * (2 * half) + (q % 2) * half
    ensures q % 2 == 0 ==> (q % 2) * half == 0
    ensures q % 2 == 1 ==> (q % 2) * half == half
  {
    var h, b := q / 2, q % 2;
    assert q == 2 * h + b;
    assert (2 * h + b) * half == (2 * h) * half + b * half;
    Double(h, half);
  }

  /** A larger number never shifts to a smaller one, and rounding adds less than one. */
  lemma ShiftRightMonotone(a: int, b: int, shift: nat)
    requires 0 <= a <= b
    ensures ShiftRightAndRound(a, shift) <= ShiftRightAndRound(b, shift)
  {
    if shift > 0 {
      ShiftRightRounds(a, shift);
      ShiftRightRounds(b, shift);
      DivMonotone(a + Pow2(shift - 1), b + Pow2(shift - 1), Pow2(shift));
    }
  }

  lemma DivMonotone(a: int, b: int, d: int)
    requires 0 <= a <= b && d > 0
    ensures a / d <= b / d
  {
    DivBounds(a, d);
    DivBounds(b, d);
    var x, y := a / d, b / d;
    assert (y + 1) * d == y * d + d;
    Cancel(x, y + 1, d);
  }

  lemma ShiftRightBound(n: int, shift: nat)
    requires n >= 0
    ensures 0 <= ShiftRightAndRound(n, shift) * Pow2(shift) <= n + Pow2(shift)
    ensures shift > 0 ==> ShiftRightAndRound(n, shift) * Pow2(shift) <= n + Pow2(shift - 1)
  {
    if shift > 0 {
      ShiftRightRounds(n, shift);
      DivBounds(n + Pow2(shift - 1), Pow2(shift));
      MulLe(0, ShiftRightAndRound(n, shift), Pow2(shift));
    }
  }
}
