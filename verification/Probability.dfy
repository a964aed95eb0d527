/** Fixed-point probabilities over 2^31, and scaling a 64-bit number by one in 32-bit digits. */
module Probability {

  const U32: int := 0x1_0000_0000
  const U64: int := 0x1_0000_0000_0000_0000
  const DENOM: int := 0x8000_0000

  /** A probability is its numerator over DENOM. */
  type Prob = n: int | 0 <= n <= DENOM

  function Min(a: int, b: int): int { if a <= b then a else b }

  /** Adding words of 64 bits: the carry is lost. */
  function Add64(a: int, b: int): int { if a + b >= U64 then a + b - U64 else a + b }

  /** The nearest probability to num / den. */
  function FromFraction(num: int, den: int): (p: Prob)
    requires 0 <= num <= den && 0 < den < U32
    ensures 2 * DENOM * num - den <= 2 * p * den <= 2 * DENOM * num + den
    ensures num == den ==> p == DENOM
  {
    if den == DENOM then num
    else
      FractionRounds(num, den);
      (num * DENOM + den / 2) / den
  }

  lemma FractionRounds(num: int, den: int)
    requires 0 <= num <= den && 0 < den < U32
    ensures var p := (num * DENOM + den / 2) / den;
      0 <= p <= DENOM && 2 * DENOM * num - den <= 2 * p * den <= 2 * DENOM * num + den &&
      (num == den ==> p == DENOM)
  {
    var n := num * DENOM + den / 2;
    DivBounds(n, den);
    Nearest(num, den, n / den, n % den);
  }

  lemma Nearest(num: int, den: int, p: int, rest: int)
    requires 0 <= num <= den && 0 < den && 0 <= rest < den && p >= 0
    requires num * DENOM + den / 2 == p * den + rest
    ensures p <= DENOM && 2 * DENOM * num - den <= 2 * p * den <= 2 * DENOM * num + den
    ensures num == den ==> p == DENOM
  {
    var scaled := p * den;
    assert 2 * p * den == 2 * scaled;
    Cancel(p, DENOM + 1, den);
    if num == den {
      Cancel(DENOM, p + 1, den);
    }
  }

  lemma DivBounds(n: int, d: int)
    requires n >= 0 && d > 0
    ensures n / d >= 0 && 0 <= n % d < d && n == (n / d) * d + n % d
  {
  }

  lemma MulLe(a: int, b: int, c: int)
    requires a <= b && c >= 0
    ensures a * c <= b * c
  {
  }

  lemma Cancel(a: int, b: int, c: int)
    requires a * c < b * c && c > 0
    ensures a < b
  {
    if a >= b { MulLe(b, a, c); }
  }

  lemma DivUnique(n: int, d: int, q: int, r: int)
    requires d > 0 && 0 <= r < d && n == q * d + r
    ensures n / d == q && n % d == r
  {
    if n / d < q {
      MulLe(n / d + 1, q, d);
    } else if n / d > q {
      MulLe(q + 1, n / d, d);
    }
  }

  /** Scaling rounds down; at most everything is taken, and by one everything. */
  function Scale(num: int, p: Prob): (r: int)
    requires 0 <= num
    ensures 0 <= r <= num && (p == DENOM ==> r == num)
  {
    MulLe(p, DENOM, num);
    num * p / DENOM
  }

  /** The low and the high 32 bits. */
  function Lo(x: int): int { x % U32 }

  function Hi(x: int): int { x / U32 }

  lemma Product32(a: int, b: int)
    requires 0 <= a < U32 && 0 <= b < U32
    ensures 0 <= a * b <= (U32 - 1) * (U32 - 1)
  {
    MulLe(0, a, b);
    MulLe(a, U32 - 1, b);
    TimesMax(b);
  }

  lemma TimesMax(b: int)
    requires b < U32
    ensures (U32 - 1) * b <= (U32 - 1) * (U32 - 1)
  {
  }

  /** Long division in base 2^32: one digit of the quotient after the other. */
  lemma LongDivision(upper: int, mid: int, lower: int, d: int, highQ: int, rem: int, lowQ: int)
    requires 0 < d < U32 && 0 <= upper < d && 0 <= mid < U32 && 0 <= lower < U32
    requires highQ == (upper * U32 + mid) / d && rem == (upper * U32 + mid) % d
    requires lowQ == (rem * U32 + lower) / d
    ensures 0 <= highQ < U32 && 0 <= lowQ < U32
    ensures (upper * U32 * U32 + mid * U32 + lower) / d == highQ * U32 + lowQ
  {
    var high, low := upper * U32 + mid, rem * U32 + lower;
    DivBounds(high, d);
    DivBounds(low, d);
    Cancel(highQ, U32, d);
    Cancel(lowQ, U32, d);
    var q := highQ * U32 + lowQ;
    assert high == highQ * d + rem;
    var last := low - lowQ * d;
    assert q * d == (highQ * d) * U32 + lowQ * d by { Distribute(highQ, U32, lowQ, d); }
    DivUnique(upper * U32 * U32 + mid * U32 + lower, d, q, last);
  }

  lemma Distribute(a: int, b: int, c: int, d: int)
    ensures (a * b + c) * d == (a * d) * b + c * d
  {
  }

  /** Multiplies and divides in 32-bit digits; the result is the exact quotient, rounded down and
      saturated to 64 bits. */
  method ScaleWords(num: int, n: int, d: int) returns (r: int)
    requires 0 <= num < U64 && 0 <= n < U32 && 0 < d < U32
    ensures r == Min(num * n / d, U64 - 1)
  {
    if num == 0 || d == n {
      DivUnique(num * n, d, num, 0);
      return num;
    }
    var upper32, mid32, lower32 := Multiply(num, n);
    r := Divide(upper32, mid32, lower32, d);
  }

  /** The product, as three 32-bit digits. */
  method Multiply(num: int, n: int) returns (upper32: int, mid32: int, lower32: int)
    requires 0 <= num < U64 && 0 <= n < U32
    ensures num * n == upper32 * U32 * U32 + mid32 * U32 + lower32
    ensures 0 <= upper32 < U32 && 0 <= mid32 < U32 && 0 <= lower32 < U32
  {
    var productHigh := Hi(num) * n;
    var productLow := Lo(num) * n;
    upper32 := Hi(productHigh);
    lower32 := Lo(productLow);
    var mid32Partial := Lo(productHigh);
    mid32 := (mid32Partial + Hi(productLow)) % U32;
    if mid32 < mid32Partial {
      upper32 := upper32 + 1;
    }
    DigitsAgree(num, n, upper32, mid32, lower32);
  }

  method Divide(upper32: int, mid32: int, lower32: int, d: int) returns (r: int)
    requires 0 <= upper32 < U32 && 0 <= mid32 < U32 && 0 <= lower32 < U32 && 0 < d < U32
    ensures r == Min((upper32 * U32 * U32 + mid32 * U32 + lower32) / d, U64 - 1)
  {
    if upper32 >= d {
      Saturates(upper32, mid32, lower32, d);
      return U64 - 1;
    }
    var rem := upper32 * U32 + mid32;
    var upperQ := rem / d;
    var last := rem % d;
    var lowerQ := (last * U32 + lower32) / d;
    LongDivision(upper32, mid32, lower32, d, upperQ, last, lowerQ);
    if upperQ >= U32 {
      return U64 - 1;
    }
    var q := (upperQ * U32 + lowerQ) % U64;
    r := if q < lowerQ then U64 - 1 else q;
  }

  lemma DigitsAgree(num: int, n: int, upper: int, mid: int, lower: int)
    requires 0 <= num < U64 && 0 <= n < U32
    requires var h, l := Hi(num) * n, Lo(num) * n;
      lower == Lo(l) && mid == (Lo(h) + Hi(l)) % U32 && upper == Hi(h) + (if mid < Lo(h) then 1 else 0)
    ensures num * n == upper * U32 * U32 + mid * U32 + lower
    ensures 0 <= upper < U32 && 0 <= mid < U32 && 0 <= lower < U32
  {
    var h, l := Hi(num) * n, Lo(num) * n;
    Product32(Hi(num), n);
    Product32(Lo(num), n);
    Distribute(Hi(num), U32, Lo(num), n);
    assert num * n == h * U32 + l;
    Carry(h, l, upper, mid, lower);
  }

  lemma Carry(h: int, l: int, upper: int, mid: int, lower: int)
    requires 0 <= h <= (U32 - 1) * (U32 - 1) && 0 <= l <= (U32 - 1) * (U32 - 1)
    requires lower == Lo(l) && mid == (Lo(h) + Hi(l)) % U32 && upper == Hi(h) + (if mid < Lo(h) then 1 else 0)
    ensures h * U32 + l == upper * U32 * U32 + mid * U32 + lower
    ensures 0 <= upper < U32 && 0 <= mid < U32 && 0 <= lower < U32
  {
  }

  lemma Saturates(upper: int, mid: int, lower: int, d: int)
    requires 0 < d <= upper && 0 <= mid && 0 <= lower
    ensures (upper * U32 * U32 + mid * U32 + lower) / d >= U64
  {
    var t := upper * U32 * U32 + mid * U32 + lower;
    DivBounds(t, d);
    MulLe(d, upper, U64);
    if t / d < U64 { MulLe(t / d + 1, U64, d); }
  }

  /** Scaling by a probability is exact: the saturation never comes into play. */
  lemma ScaleIsExact(num: int, p: Prob)
    requires 0 <= num < U64
    ensures Min(num * p / DENOM, U64 - 1) == Scale(num, p)
  {
  }
}
