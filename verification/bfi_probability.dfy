/** Fixed-point probabilities and block masses. */
module BranchProbabilities {

  const TWO32: nat := 0x1_0000_0000
  const TWO64: nat := 0x1_0000_0000_0000_0000
  const UINT32_MAX: nat := TWO32 - 1
  const UINT64_MAX: nat := TWO64 - 1

  /** The denominator of every probability. */
  const D: nat := 0x8000_0000

  // ---- Probabilities ----

  /** The numerator over `D` of the probability `n` in `d`: the nearest there is, and exact for
      certainty. */
  function Numerator(n: nat, d: nat): (r: nat)
    requires n <= d && 0 < d <= UINT32_MAX
    ensures r <= D && (n == d ==> r == D)
    ensures -(d as int) <= 2 * (r * d - n * D) <= d
  {
    SameDenominator(n, d);
    if d == D then n else Nearest(n * D, d)
  }

  lemma SameDenominator(n: nat, d: nat)
    requires n <= d
    ensures n * D <= d * D && (d == D ==> n * d == n * D)
  {
  }

  /** The quotient, rounded to the nearest number. */
  function Nearest(x: nat, d: nat): (r: nat)
    requires d > 0
    ensures -(d as int) <= 2 * (r * d - x) <= d
    ensures (x <= d * D ==> r <= D) && (x == d * D ==> r == D)
  {
    NearestQuotient(x, d);
    (x + d / 2) / d
  }

  lemma NearestQuotient(x: nat, d: nat)
    requires d > 0
    ensures var r := (x + d / 2) / d;
            && -(d as int) <= 2 * (r * d - x) <= d
            && (x <= d * D ==> r <= D) && (x == d * D ==> r == D)
  {
    var r, h := (x + d / 2) / d, d / 2;
    DivMod(x + h, d);
    assert r * d <= x + h < r * d + d;
    if x <= d * D && r > D {
      assert r * d >= (D + 1) * d by { MulMono(D + 1, r, d); }
    }
    if x == d * D {
      QuotientIs(x + h, d, D, h);
    }
  }

  function Quotient(n: nat, d: nat): nat
    requires d > 0
  {
    n / d
  }

  function Remainder(n: nat, d: nat): nat
    requires d > 0
  {
    n % d
  }

  lemma Division(n: nat, d: nat)
    requires d > 0
    ensures n == Quotient(n, d) * d + Remainder(n, d) && Remainder(n, d) < d
  {
    DivMod(n, d);
  }

  lemma DivMod(x: nat, d: nat)
    requires d > 0
    ensures x == (x / d) * d + x % d && 0 <= x % d < d
  {
  }

  lemma MulMono(a: int, b: int, c: int)
    requires a <= b && 0 <= c
    ensures a * c <= b * c && c * a <= c * b
  {
  }

  lemma ProductAtLeast(a: nat, b: nat, c: nat, d: nat)
    requires a >= b && c >= d
    ensures a * c >= b * d
  {
    MulMono(b, a, c);
    MulMono(d, c, b);
  }

  lemma CancelLess(a: int, b: int, c: nat)
    requires a * c < b * c
    ensures a < b
  {
    if a >= b { MulMono(b, a, c); }
  }

  /** A quotient is known by its multiple and its remainder. */
  lemma QuotientIs(x: int, d: nat, q: int, r: int)
    requires d > 0 && x == q * d + r && 0 <= r < d
    ensures x / d == q
  {
    var p, s := x / d, x % d;
    assert x == p * d + s && 0 <= s < d;
    if p < q { MulMono(p + 1, q, d); }
    if q < p { MulMono(q + 1, p, d); }
  }

  // ---- Scaling ----

  /** The quotient of a product, held at the largest 64-bit number. */
  function Scaled(num: nat, n: nat, d: nat): nat
    requires d > 0
  {
    Held(num * n, d)
  }

  /** Multiplies a 64-bit number by `n` and divides by `d`, in 32-bit digits; the result is the
      quotient rounded down, unless that takes more than 64 bits. */
  method Scale(num: nat, n: nat, d: nat) returns (r: nat)
    requires num <= UINT64_MAX && n <= UINT32_MAX && 0 < d <= UINT32_MAX
    ensures r == Scaled(num, n, d)
  {
    hide Held;
    if num == 0 || d == n {
      ScaledByOne(num, n, d);
      return num;
    }
    var upper32, mid32, lower32 := MultiplyDigits(num, n);
    r := DivideDigits(num * n, upper32, mid32, lower32, d);
  }

  /** The upper and the lower 32 bits. */
  function High(x: nat): nat {
    x / TWO32
  }

  function Low(x: nat): (r: nat)
    ensures r < TWO32
  {
    x % TWO32
  }

  /** The first half: multiplies two digits by one. */
  method MultiplyDigits(num: nat, n: nat) returns (upper32: nat, mid32: nat, lower32: nat)
    requires num <= UINT64_MAX && n <= UINT32_MAX
    ensures upper32 < TWO32 && mid32 < TWO32 && lower32 < TWO32
    ensures num * n == (upper32 * TWO32 + mid32) * TWO32 + lower32
  {
    hide High, Low;
    var productHigh := High(num) * n;
    var productLow := Low(num) * n;
    DigitsOfProduct(num, n, productHigh, productLow);
    upper32 := High(productHigh);
    lower32 := Low(productLow);
    var mid32Partial := Low(productHigh);
    mid32 := Low(mid32Partial + High(productLow));
    upper32 := Low(upper32 + if mid32 < mid32Partial then 1 else 0);
  }

  function Held(p: nat, d: nat): nat
    requires d > 0
  {
    if Quotient(p, d) > UINT64_MAX then UINT64_MAX else Quotient(p, d)
  }

  /** The second half: divides three digits by one. */
  method DivideDigits(ghost p: nat, upper32: nat, mid32: nat, lower32: nat, d: nat) returns (r: nat)
    requires 0 < d <= UINT32_MAX && upper32 < TWO32 && mid32 < TWO32 && lower32 < TWO32
    requires p == (upper32 * TWO32 + mid32) * TWO32 + lower32
    ensures r == Held(p, d)
  {
    hide Held, Quotient, Remainder;
    QuotientByDigits(p, d, upper32, mid32, lower32);
    if upper32 >= d {
      return UINT64_MAX;
    }
    var rem := upper32 * TWO32 + mid32;
    var upperQ := Quotient(rem, d);
    if upperQ > UINT32_MAX {
      return UINT64_MAX;
    }
    rem := Remainder(rem, d) * TWO32 + lower32;
    var lowerQ := Quotient(rem, d);
    NoWrap(upperQ, lowerQ);
    var q := (upperQ * TWO32 + lowerQ) % TWO64;
    r := Saturate(q, lowerQ);
  }

  /** A sum that has become less than one of its summands has overflowed. */
  function Saturate(sum: int, summand: int): int {
    if sum < summand then UINT64_MAX else sum
  }

  lemma NoWrap(a: int, b: int)
    requires 0 <= a < TWO32 && 0 <= b < TWO32
    ensures (a * TWO32 + b) % TWO64 == a * TWO32 + b
  {
  }

  lemma QuotientByDigits(p: nat, d: nat, upper: nat, mid: nat, low: nat)
    requires d > 0 && p == (upper * TWO32 + mid) * TWO32 + low && mid < TWO32 && low < TWO32
    ensures var x := upper * TWO32 + mid;
            && (upper >= d ==> Held(p, d) == UINT64_MAX)
            && (upper < d ==>
                  var y := Remainder(x, d) * TWO32 + low;
                  Quotient(x, d) < TWO32 && Quotient(y, d) < TWO32 && Held(p, d) == Quotient(x, d) * TWO32 + Quotient(y, d))
  {
    hide Quotient, Remainder;
    var x := upper * TWO32 + mid;
    LongDivision(p, x, low, d);
    assert upper < d ==> x < d * TWO32;
  }

  lemma ScaledByOne(num: nat, n: nat, d: nat)
    requires d > 0 && num <= UINT64_MAX && (num == 0 || d == n)
    ensures Scaled(num, n, d) == num
  {
    if num == 0 {
      QuotientIs(num * n, d, 0, 0);
    } else {
      QuotientIs(num * n, d, num, 0);
    }
  }

  /** The three digits of the product; the carry into the highest does not overflow it. */
  lemma DigitsOfProduct(num: nat, n: nat, high: nat, low: nat)
    requires num <= UINT64_MAX && n <= UINT32_MAX && high == High(num) * n && low == Low(num) * n
    ensures var mid := Low(Low(high) + High(low));
            var carry := if mid < Low(high) then 1 else 0;
            num * n == (Low(High(high) + carry) * TWO32 + mid) * TWO32 + Low(low)
  {
    Halves(num);
    var a, b := High(num), Low(num);
    hide High, Low;
    MulMono(a, UINT32_MAX, n);
    MulMono(b, UINT32_MAX, n);
    MulMono(n, UINT32_MAX, UINT32_MAX);
    Distribute(a, b, n);
    ThreeDigits(high, low);
  }

  lemma Halves(num: nat)
    requires num <= UINT64_MAX
    ensures num == High(num) * TWO32 + Low(num) && High(num) <= UINT32_MAX && Low(num) <= UINT32_MAX
  {
  }

  lemma ThreeDigits(high: nat, low: nat)
    requires high <= UINT32_MAX * UINT32_MAX && low <= UINT32_MAX * UINT32_MAX
    ensures var mid := Low(Low(high) + High(low));
            var carry := if mid < Low(high) then 1 else 0;
            high * TWO32 + low == (Low(High(high) + carry) * TWO32 + mid) * TWO32 + Low(low)
  {
  }

  lemma Distribute(a: nat, b: nat, n: nat)
    ensures (a * TWO32 + b) * n == (a * n) * TWO32 + b * n
  {
  }

  /** Dividing one digit after the other. */
  lemma LongDivision(p: nat, x: nat, low: nat, d: nat)
    requires p == x * TWO32 + low && low < TWO32 && d > 0
    ensures x >= d * TWO32 ==> Quotient(p, d) > UINT64_MAX
    ensures x < d * TWO32 ==>
              var y := Remainder(x, d) * TWO32 + low;
              Quotient(x, d) < TWO32 && Quotient(y, d) < TWO32 && Quotient(p, d) == Quotient(x, d) * TWO32 + Quotient(y, d)
  {
    hide Quotient, Remainder;
    if x >= d * TWO32 {
      QuotientAtLeast(p, d, TWO64);
    } else {
      Division(x, d);
      QuotientBelow(x, d, TWO32);
      NextDigit(p, x, low, d, Quotient(x, d), Remainder(x, d));
    }
  }

  lemma NextDigit(p: nat, x: nat, low: nat, d: nat, q: nat, r: nat)
    requires p == x * TWO32 + low && low < TWO32 && d > 0 && x == q * d + r && r < d
    ensures var y := r * TWO32 + low; Quotient(y, d) < TWO32 && Quotient(p, d) == q * TWO32 + Quotient(y, d)
  {
    hide Quotient, Remainder;
    var y := r * TWO32 + low;
    assert y < d * TWO32;
    QuotientBelow(y, d, TWO32);
    Division(y, d);
    TwoDigits(q, r, low, d, Quotient(y, d), Remainder(y, d));
    QuotientKnown(p, d, q * TWO32 + Quotient(y, d), Remainder(y, d));
  }

  lemma QuotientKnown(x: nat, d: nat, q: nat, r: nat)
    requires d > 0 && x == q * d + r && r < d
    ensures Quotient(x, d) == q
  {
    QuotientIs(x, d, q, r);
  }

  lemma TwoDigits(q: nat, r: nat, low: nat, d: nat, q': nat, r': nat)
    requires r * TWO32 + low == q' * d + r'
    ensures (q * d + r) * TWO32 + low == (q * TWO32 + q') * d + r'
  {
  }

  lemma QuotientAtLeast(p: nat, d: nat, q: nat)
    requires d > 0 && p >= d * q
    ensures Quotient(p, d) >= q
  {
    hide Quotient, Remainder;
    Division(p, d);
    if Quotient(p, d) < q { MulMono(Quotient(p, d) + 1, q, d); }
  }

  lemma QuotientBelow(p: nat, d: nat, q: nat)
    requires d > 0 && p < d * q
    ensures Quotient(p, d) < q
  {
    hide Quotient, Remainder;
    Division(p, d);
    if Quotient(p, d) >= q { MulMono(q, Quotient(p, d), d); }
  }

  // ---- Masses ----

  /** A mass of 1.0. */
  const FULL: nat := UINT64_MAX

  function AddMass(a: nat, b: nat): (r: nat)
    requires a <= FULL && b <= FULL
    ensures r == if a + b <= FULL then a + b else FULL
  {
    var sum := (a + b) % TWO64;
    if sum < a then FULL else sum
  }

  function SubtractMass(a: nat, b: nat): (r: nat)
    requires a <= FULL && b <= FULL
    ensures r == if b <= a then a - b else 0
  {
    var diff := (a + TWO64 - b) % TWO64;
    if diff > a then 0 else diff
  }
}
