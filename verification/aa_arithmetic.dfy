/** Machine arithmetic for address analysis: powers of two, congruence, and the bits of a
    number. */
module MachineArithmetic {

  function Pow2(n: nat): (r: nat)
    ensures r > 0
  {
    if n == 0 then 1 else 2 * Pow2(n - 1)
  }

  lemma {:induction false} Pow2Adds(a: nat, b: nat)
    ensures Pow2(a + b) == Pow2(a) * Pow2(b)
    decreases b
  {
    if b > 0 {
      Pow2Adds(a, b - 1);
      TwicePulledOut(Pow2(a), Pow2(b - 1));
    }
  }

  lemma TwicePulledOut(a: int, b: int)
    ensures a * (2 * b) == 2 * (a * b)
  {
  }

  lemma {:induction false} Pow2Grows(a: nat, b: nat)
    requires a <= b
    ensures Pow2(a) <= Pow2(b)
    ensures a < b ==> Pow2(a) < Pow2(b)
    decreases b
  {
    if a < b {
      Pow2Grows(a, b - 1);
    }
  }

  function Times(k: int, m: int): int {
    k * m
  }

  /** `a` and `b` differ by a multiple of `m`. */
  ghost predicate Cong(a: int, b: int, m: int) {
    exists k: int :: a == b + Times(k, m)
  }

  lemma CongBy(a: int, b: int, k: int, m: int)
    requires a == b + k * m
    ensures Cong(a, b, m)
  {
    assert a == b + Times(k, m);
  }

  lemma CongRefl(a: int, m: int)
    ensures Cong(a, a, m)
  {
    CongBy(a, a, 0, m);
  }

  lemma CongSym(a: int, b: int, m: int)
    requires Cong(a, b, m)
    ensures Cong(b, a, m)
  {
    var k :| a == b + Times(k, m);
    assert (-k) * m == -(k * m);
    CongBy(b, a, -k, m);
  }

  lemma CongTrans(a: int, b: int, c: int, m: int)
    requires Cong(a, b, m) && Cong(b, c, m)
    ensures Cong(a, c, m)
  {
    CongAdd(a, b, b, c, m);
    var k :| a + b == b + c + Times(k, m);
    CongBy(a, c, k, m);
  }

  lemma CongAdd(a: int, b: int, c: int, d: int, m: int)
    requires Cong(a, b, m) && Cong(c, d, m)
    ensures Cong(a + c, b + d, m)
  {
    var k :| a == b + Times(k, m);
    var l :| c == d + Times(l, m);
    assert (k + l) * m == k * m + l * m;
    CongBy(a + c, b + d, k + l, m);
  }

  lemma CongSub(a: int, b: int, c: int, d: int, m: int)
    requires Cong(a, b, m) && Cong(c, d, m)
    ensures Cong(a - c, b - d, m)
  {
    var k :| a == b + Times(k, m);
    var l :| c == d + Times(l, m);
    assert (k - l) * m == k * m - l * m;
    CongBy(a - c, b - d, k - l, m);
  }

  lemma CongScale(a: int, b: int, c: int, m: int)
    requires Cong(a, b, m)
    ensures Cong(a * c, b * c, m)
  {
    var k :| a == b + Times(k, m);
    assert (b + k * m) * c == b * c + (k * c) * m;
    CongBy(a * c, b * c, k * c, m);
  }

  /** Congruence for a modulus is congruence for its divisors. */
  lemma CongDivisor(a: int, b: int, m: int, q: int)
    requires Cong(a, b, m * q)
    ensures Cong(a, b, m)
  {
    var k :| a == b + Times(k, m * q);
    assert k * (m * q) == (k * q) * m;
    CongBy(a, b, k * q, m);
  }

  lemma CongNarrow(a: int, b: int, wide: nat, narrow: nat)
    requires Cong(a, b, Pow2(wide)) && narrow <= wide
    ensures Cong(a, b, Pow2(narrow))
  {
    Pow2Adds(narrow, wide - narrow);
    CongDivisor(a, b, Pow2(narrow), Pow2(wide - narrow));
  }

  lemma CongMod(a: int, m: int)
    requires m > 0
    ensures Cong(a % m, a, m) && Cong(a, a % m, m)
  {
    assert a == (a / m) * m + a % m;
    CongBy(a, a % m, a / m, m);
    CongSym(a, a % m, m);
  }

  /** Congruent numbers less than the modulus apart are equal. */
  lemma CongClose(a: int, b: int, m: int)
    requires Cong(a, b, m) && -m < a - b < m
    ensures a == b
  {
    var k :| a == b + Times(k, m);
    MultipleIsFar(k, m);
  }

  lemma NotCong(a: int, b: int, m: int)
    requires a != b && -m < a - b < m
    ensures !Cong(a, b, m)
  {
    if Cong(a, b, m) {
      CongClose(a, b, m);
    }
  }

  lemma MultipleIsFar(k: int, m: int)
    requires m >= 0
    ensures k == 0 || k * m >= m || k * m <= 0 - m
  {
    if k >= 1 {
      assert k * m == (k - 1) * m + m && (k - 1) * m >= 0;
    } else if k <= -1 {
      assert k * m == (k + 1) * m - m && (k + 1) * m <= 0;
    }
  }

  lemma CongZero(a: int, m: int)
    requires m > 0
    ensures Cong(a, 0, m) <==> a % m == 0
  {
    CongMod(a, m);
    if Cong(a, 0, m) {
      CongSym(a, a % m, m);
      CongTrans(a % m, a, 0, m);
      CongClose(a % m, 0, m);
    }
  }

  // ---- Fixed-width numbers ----

  /** The low `w` bits. */
  function Wrap(x: int, w: nat): (r: nat)
    ensures r < Pow2(w)
  {
    x % Pow2(w)
  }

  /** The low `w` bits read as a two's complement number. */
  function Signed(x: int, w: nat): (r: int)
    requires w > 0
    ensures 0 - Pow2(w - 1) <= r < Pow2(w - 1)
  {
    if Wrap(x, w) < Pow2(w - 1) then Wrap(x, w) else Wrap(x, w) - Pow2(w)
  }

  lemma WrapCong(x: int, w: nat)
    ensures Cong(Wrap(x, w), x, Pow2(w)) && Cong(x, Wrap(x, w), Pow2(w))
  {
    CongMod(x, Pow2(w));
  }

  lemma SignedCong(x: int, w: nat)
    requires w > 0
    ensures Cong(Signed(x, w), x, Pow2(w)) && Cong(x, Signed(x, w), Pow2(w))
  {
    WrapCong(x, w);
    var s := Signed(x, w);
    CongBy(s, Wrap(x, w), if s < 0 then -1 else 0, Pow2(w));
    CongTrans(s, Wrap(x, w), x, Pow2(w));
    CongSym(s, x, Pow2(w));
  }

  predicate FitsSigned(x: int, w: nat)
    requires w > 0
  {
    0 - Pow2(w - 1) <= x < Pow2(w - 1)
  }

  /** The signed reading is the only congruent number that fits. */
  lemma SignedUnique(x: int, t: int, w: nat)
    requires w > 0 && FitsSigned(t, w) && Cong(x, t, Pow2(w))
    ensures Signed(x, w) == t
  {
    SignedCong(x, w);
    CongTrans(Signed(x, w), x, t, Pow2(w));
    CongClose(Signed(x, w), t, Pow2(w));
  }

  /** A number is zero in `w` bits exactly when its signed reading is. */
  lemma SignedZero(x: int, w: nat)
    requires w > 0
    ensures Signed(x, w) == 0 <==> Cong(x, 0, Pow2(w))
  {
    SignedCong(x, w);
    if Cong(x, 0, Pow2(w)) {
      CongTrans(Signed(x, w), x, 0, Pow2(w));
      CongClose(Signed(x, w), 0, Pow2(w));
    }
  }

  // ---- Bits ----

  function BitAnd(a: nat, b: nat): (r: nat)
    ensures r <= a && r <= b
    decreases a
  {
    if a == 0 || b == 0 then 0 else 2 * BitAnd(a / 2, b / 2) + (a % 2) * (b % 2)
  }

  function BitOr(a: nat, b: nat): (r: nat)
    ensures r >= a && r >= b
    decreases a
  {
    if a == 0 then b else if b == 0 then a
    else 2 * BitOr(a / 2, b / 2) + (if a % 2 == 1 || b % 2 == 1 then 1 else 0)
  }

  function BitXor(a: nat, b: nat): nat
    decreases a
  {
    if a == 0 then b else if b == 0 then a
    else 2 * BitXor(a / 2, b / 2) + (if a % 2 != b % 2 then 1 else 0)
  }

  /** Without a common bit, or is addition. */
  lemma {:induction false} DisjointOrAdds(a: nat, b: nat)
    requires BitAnd(a, b) == 0
    ensures BitOr(a, b) == a + b
    decreases a
  {
    if a > 0 && b > 0 {
      DisjointOrAdds(a / 2, b / 2);
    }
  }

  lemma {:induction false} OrFits(a: nat, b: nat, w: nat)
    requires a < Pow2(w) && b < Pow2(w)
    ensures BitOr(a, b) < Pow2(w)
    decreases w
  {
    if a > 0 && b > 0 {
      OrFits(a / 2, b / 2, w - 1);
    }
  }

  lemma AndHalves(a: nat, b: nat)
    ensures BitAnd(a, b) == 2 * BitAnd(a / 2, b / 2) + (a % 2) * (b % 2)
  {
    if a == 0 || b == 0 {
      assert BitAnd(a / 2, b / 2) == 0;
    }
  }

  lemma XorHalves(a: nat, b: nat)
    ensures BitXor(a, b) == 2 * BitXor(a / 2, b / 2) + (if a % 2 != b % 2 then 1 else 0)
  {
  }

  /** The remainder, under a name. */
  function Mod(a: nat, m: nat): (r: nat)
    requires m > 0
    ensures r < m
  {
    a % m
  }

  lemma HalfMod(a: nat, m: nat)
    requires m > 0
    ensures Mod(a, 2 * m) == 2 * Mod(a / 2, m) + a % 2
  {
    HalfRemainder(a, m);
  }

  lemma Pow2Next(n: nat)
    ensures Pow2(n + 1) == 2 * Pow2(n)
  {
  }

  lemma ModByOne(a: nat)
    ensures Mod(a, 1) == 0 && Pow2(0) == 1
  {
  }

  lemma {:induction false} MaskIsMod(a: nat, n: nat)
    ensures BitAnd(a, Pow2(n) - 1) == Mod(a, Pow2(n))
    decreases n
  {
    hide BitAnd, Mod, Pow2;
    if n > 0 {
      MaskIsMod(a / 2, n - 1);
      var m := Pow2(n - 1);
      Pow2Next(n - 1);
      OddHalf(m);
      AndHalves(a, 2 * m - 1);
      HalfMod(a, m);
    } else {
      ModByOne(a);
      AndNothing(a);
    }
  }

  lemma OddHalf(m: nat)
    requires m > 0
    ensures (2 * m - 1) / 2 == m - 1 && (2 * m - 1) % 2 == 1
  {
  }

  lemma AndNothing(a: nat)
    ensures BitAnd(a, 0) == 0
  {
  }

  /** Masking with `Pow2(n) - 1` keeps the remainder. */
  lemma MaskIsRemainder(a: nat, n: nat)
    ensures BitAnd(a, Pow2(n) - 1) == a % Pow2(n)
  {
    hide BitAnd, Pow2;
    MaskIsMod(a, n);
  }

  lemma HalfRemainder(a: nat, m: nat)
    requires m > 0
    ensures a % (2 * m) == 2 * ((a / 2) % m) + a % 2
  {
    var q, r := (a / 2) / m, (a / 2) % m;
    assert a / 2 == q * m + r;
    assert a == q * (2 * m) + (2 * r + a % 2);
    RemainderUnique(a, 2 * m, q, 2 * r + a % 2);
  }

  lemma RemainderUnique(a: int, m: int, q: int, r: int)
    requires m > 0 && a == q * m + r && 0 <= r < m
    ensures a % m == r
  {
    CongBy(a, r, q, m);
    CongMod(a, m);
    CongSym(a, r, m);
    CongTrans(r, a, a % m, m);
    CongClose(r, a % m, m);
  }

  /** The trick that isolates the lowest bit set. */
  function LowestBit(m: nat): nat
    requires m > 0
  {
    BitXor(m, BitAnd(m, m - 1))
  }

  /** The place of the lowest bit set. */
  function LowestPlace(m: nat): nat
    requires m > 0
  {
    if m % 2 == 1 then 0 else 1 + LowestPlace(m / 2)
  }

  lemma {:induction false} XorSelf(a: nat)
    ensures BitXor(a, a) == 0
    decreases a
  {
    if a > 0 {
      XorSelf(a / 2);
    }
  }

  lemma {:induction false} AndSelf(a: nat)
    ensures BitAnd(a, a) == a
    decreases a
  {
    if a > 0 {
      AndSelf(a / 2);
    }
  }

  lemma {:induction false} LowestBitByPlace(m: nat)
    requires m > 0
    ensures LowestBit(m) == Pow2(LowestPlace(m))
    ensures Mod(m, Pow2(LowestPlace(m))) == 0 && Mod(m, Pow2(LowestPlace(m) + 1)) != 0
    decreases m
  {
    hide LowestBit, LowestPlace, Mod, Pow2;
    if m % 2 == 1 {
      LowestBitOfOdd(m, m / 2);
    } else {
      LowestBitByPlace(m / 2);
      LowestBitOfEven(m, m / 2);
    }
  }

  lemma LowestBitOfOdd(m: nat, h: nat)
    requires m == 2 * h + 1
    ensures LowestPlace(m) == 0 && LowestBit(m) == Pow2(0) && Mod(m, Pow2(0)) == 0 && Mod(m, Pow2(0 + 1)) != 0
  {
    hide BitAnd, BitXor, Mod, Pow2;
    AndHalves(m, m - 1);
    XorHalves(m, BitAnd(m, m - 1));
    assert m / 2 == h && (m - 1) / 2 == h;
    AndSelf(h);
    XorSelf(h);
    ModByOne(m);
    Pow2Next(0);
    HalfMod(m, 1);
  }

  lemma LowestBitOfEven(m: nat, h: nat)
    requires m == 2 * h && h > 0
    requires LowestBit(h) == Pow2(LowestPlace(h))
    requires Mod(h, Pow2(LowestPlace(h))) == 0 && Mod(h, Pow2(LowestPlace(h) + 1)) != 0
    ensures LowestBit(m) == Pow2(LowestPlace(m))
    ensures Mod(m, Pow2(LowestPlace(m))) == 0 && Mod(m, Pow2(LowestPlace(m) + 1)) != 0
  {
    hide LowestBit, LowestPlace, Mod, Pow2;
    LowestBitDoubles(m, h);
    var k := LowestPlace(h);
    Pow2Next(k);
    Pow2Next(k + 1);
    HalfMod(m, Pow2(k));
    HalfMod(m, Pow2(k + 1));
  }

  lemma LowestBitDoubles(m: nat, h: nat)
    requires m == 2 * h && h > 0
    ensures LowestBit(m) == 2 * LowestBit(h) && LowestPlace(m) == LowestPlace(h) + 1
  {
    hide BitAnd, BitXor;
    AndHalves(m, m - 1);
    XorHalves(m, BitAnd(m, m - 1));
    assert m / 2 == h && (m - 1) / 2 == h - 1;
  }

  /** The trick yields the largest power of two that divides the number. */
  lemma LowestBitIsPower(m: nat)
    requires m > 0
    ensures LowestBit(m) == Pow2(LowestPlace(m))
    ensures m % Pow2(LowestPlace(m)) == 0
    ensures m % Pow2(LowestPlace(m) + 1) != 0
  {
    hide LowestBit, Pow2;
    LowestBitByPlace(m);
  }

  lemma OrHalves(a: nat, b: nat)
    ensures BitOr(a, b) / 2 == BitOr(a / 2, b / 2)
    ensures BitOr(a, b) % 2 == 0 <==> a % 2 == 0 && b % 2 == 0
  {
  }

  lemma {:induction false} OrMod(a: nat, b: nat, n: nat)
    ensures Mod(BitOr(a, b), Pow2(n)) == 0 <==> Mod(a, Pow2(n)) == 0 && Mod(b, Pow2(n)) == 0
    decreases n
  {
    hide BitOr, Mod, Pow2;
    if n > 0 {
      OrMod(a / 2, b / 2, n - 1);
      Pow2Next(n - 1);
      OrHalves(a, b);
      HalfMod(a, Pow2(n - 1));
      HalfMod(b, Pow2(n - 1));
      HalfMod(BitOr(a, b), Pow2(n - 1));
    } else {
      ModByOne(a);
      ModByOne(b);
      ModByOne(BitOr(a, b));
    }
  }

  /** A power of two divides an or exactly when it divides both sides. */
  lemma OrDivisible(a: nat, b: nat, n: nat)
    ensures BitOr(a, b) % Pow2(n) == 0 <==> a % Pow2(n) == 0 && b % Pow2(n) == 0
  {
    hide BitOr, Pow2;
    OrMod(a, b, n);
  }
}
