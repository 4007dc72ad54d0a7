/** What normalizing a distribution does to the proportions of its weights. */
module Proportions {
  import opened MachineArithmetic
  import opened BranchProbabilities
  import opened WeightCombining
  import opened Distributions

  /** The amount is the quotient of the weight by `p`, rounded to the nearest number and upwards
      from the middle, but at least one. */
  predicate RoundedShare(amount: nat, weight: nat, p: nat) {
    if 2 * weight < p then amount == 1 else -(p as int) < 2 * (amount * p - weight) <= p
  }

  predicate AllRounded(r: seq<Weight>, c: seq<Weight>, p: nat)
    requires |r| == |c|
  {
    forall k :: 0 <= k < |c| ==> RoundedShare(r[k].amount, c[k].amount, p)
  }

  /** The divisor: 2^33 after an overflow, otherwise the power of two that brings the total to
      between 2^30 and 2^31. */
  predicate Divisor(p: nat, total: nat, didOverflow: bool) {
    if didOverflow then p == TWO33 else D * p <= 2 * total < 2 * (D * p)
  }

  /** The amounts are the weights divided so that their sum fits in 32 bits. */
  ghost predicate Proportional(r: seq<Weight>, c: seq<Weight>, total: nat, didOverflow: bool) {
    && |r| == |c| && (forall k :: 0 <= k < |c| ==> r[k] == c[k].(amount := r[k].amount))
    && if |c| == 1 then r[0].amount == 1
       else if !didOverflow && total <= UINT32_MAX then r == c
       else exists s :: Divisor(Pow2(s), total, didOverflow) && AllRounded(r, c, Pow2(s))
  }

  // ---- The normal form is proportional, and nothing else is ----

  lemma ScaledIsRounded(w: Weight, s: nat)
    requires 0 < s < 64 && 0 < w.amount
    ensures RoundedShare(ScaleDown(w, s).amount, w.amount, Pow2(s))
  {
    hide ShiftRightAndRound, ToNearest;
    assert Pow2(s) == 2 * Pow2(s - 1);
    ShiftRounds(w.amount, s);
    hide Pow2;
    NearestOrOne(ShiftRightAndRound(w.amount, s), w.amount, Pow2(s - 1), Pow2(s));
  }

  lemma NearestOrOne(r: nat, n: nat, h: nat, p: nat)
    requires h > 0 && p == 2 * h && 0 < n && -(h as int) < r * p - n <= h
    ensures RoundedShare(if r < 1 then 1 else r, n, p)
  {
    if 2 * n < p && r >= 2 {
      MulMono(2, r, p);
    }
  }

  /** Only one number is nearest. */
  lemma RoundedOnlyOneWay(a: nat, b: nat, n: nat, p: nat)
    requires RoundedShare(a, n, p) && RoundedShare(b, n, p) && p > 0
    ensures a == b
  {
    if a < b {
      NextTooFar(a, b, n, p);
    } else if b < a {
      NextTooFar(b, a, n, p);
    }
  }

  lemma NextTooFar(a: nat, b: nat, n: nat, p: nat)
    requires a < b && p > 0 && -(p as int) < 2 * (a * p - n)
    ensures 2 * (b * p - n) > p
  {
    MulMono(a + 1, b, p);
    assert (a + 1) * p == a * p + p;
  }

  /** Nor is there more than one divisor. */
  lemma DivisorOnlyOneWay(s: nat, u: nat, total: nat, didOverflow: bool)
    requires Divisor(Pow2(s), total, didOverflow) && Divisor(Pow2(u), total, didOverflow)
    ensures Pow2(s) == Pow2(u)
  {
    hide Pow2;
    if s < u {
      TwiceAsLarge(s, u);
    } else if u < s {
      TwiceAsLarge(u, s);
    }
  }

  lemma TwiceAsLarge(s: nat, u: nat)
    requires s < u
    ensures 2 * Pow2(s) <= Pow2(u)
  {
    Pow2Grows(s + 1, u);
  }

  lemma ShiftDivides(total: nat, didOverflow: bool)
    requires total <= UINT64_MAX && (didOverflow || total > UINT32_MAX)
    ensures 0 < Shift(total, didOverflow) < 64 && Divisor(Pow2(Shift(total, didOverflow)), total, didOverflow)
  {
    hide Pow2;
    if didOverflow {
      Powers();
    } else {
      ShiftFits(total);
    }
  }

  lemma RescaledIsProportional(c: seq<Weight>, total: nat, didOverflow: bool)
    requires PositiveAmounts(c) && total <= UINT64_MAX && |c| != 1
    ensures Proportional(NormalForm(c, total, didOverflow), c, total, didOverflow)
  {
    hide Pow2, ShiftRightAndRound, Shift, RoundedShare, Rescaled, Divisor;
    ManyRescaled(c, total, didOverflow);
    var r, s := NormalForm(c, total, didOverflow), Shift(total, didOverflow);
    if !didOverflow && total <= UINT32_MAX {
      NotShifted(total);
      UnscaledSame(c, total, didOverflow);
    } else {
      ShiftDivides(total, didOverflow);
      forall k | 0 <= k < |c| ensures RoundedShare(r[k].amount, c[k].amount, Pow2(s)) {
        ScaledIsRounded(c[k], s);
      }
      assert Divisor(Pow2(s), total, didOverflow) && AllRounded(r, c, Pow2(s));
    }
  }

  lemma NotShifted(total: nat)
    requires total <= UINT32_MAX
    ensures Shift(total, false) == 0
  {
  }

  lemma NormalFormIsProportional(c: seq<Weight>, total: nat, didOverflow: bool)
    requires PositiveAmounts(c) && total <= UINT64_MAX
    ensures Proportional(NormalForm(c, total, didOverflow), c, total, didOverflow)
  {
    hide Rescaled;
    if |c| != 1 {
      RescaledIsProportional(c, total, didOverflow);
    }
  }

  /** Two lists that are proportional to the same weights are equal. */
  lemma ProportionalOnlyOneWay(a: seq<Weight>, b: seq<Weight>, c: seq<Weight>, total: nat, didOverflow: bool)
    requires Proportional(a, c, total, didOverflow) && Proportional(b, c, total, didOverflow)
    ensures a == b
  {
    hide Pow2, RoundedShare, Divisor;
    if |c| != 1 && (didOverflow || total > UINT32_MAX) {
      var s :| Divisor(Pow2(s), total, didOverflow) && AllRounded(a, c, Pow2(s));
      var u :| Divisor(Pow2(u), total, didOverflow) && AllRounded(b, c, Pow2(u));
      DivisorOnlyOneWay(s, u, total, didOverflow);
      forall k | 0 <= k < |c| ensures a[k].amount == b[k].amount {
        RoundedOnlyOneWay(a[k].amount, b[k].amount, c[k].amount, Pow2(s));
      }
    }
    forall k | 0 <= k < |c| ensures a[k] == b[k] {
    }
  }

  /** A distribution is normalized if and only if its amounts are proportional to the combined
      weights, and its total is their sum. */
  lemma NormalizedIffProportional(r: seq<Weight>, t: nat, ws: seq<Weight>, total: nat, didOverflow: bool)
    requires Represents(ws, total, didOverflow)
    ensures Normalizes(r, t, ws, total, didOverflow)
            <==> t == Sum(r) && exists c :: Combines(c, ws) && Proportional(r, c, total, didOverflow)
  {
    hide Combines, NormalForm, Proportional, Sum, SameKinds;
    forall c | Combines(c, ws)
      ensures Proportional(r, c, total, didOverflow) <==> r == NormalForm(c, total, didOverflow)
    {
      CombinedPositive(c, ws);
      NormalFormIsProportional(c, total, didOverflow);
      if Proportional(r, c, total, didOverflow) {
        ProportionalOnlyOneWay(r, NormalForm(c, total, didOverflow), c, total, didOverflow);
      }
    }
  }

  // ---- How well the proportions are kept ----

  /** What the divided weights gain together, in whole and half divisors. */
  lemma {:induction false} GainOfAll(r: seq<Weight>, c: seq<Weight>, p: nat)
    requires |r| == |c| && AllRounded(r, c, p) && PositiveAmounts(c)
    ensures -(|c| * p) <= 2 * (Sum(r) * p - Sum(c)) && Sum(r) * p - Sum(c) <= |c| * p
    decreases |c|
  {
    hide RoundedShare, Sum;
    if c == [] {
      SumOfEmpty(p);
    } else {
      var n := |c| - 1;
      GainOfAll(r[..n], c[..n], p);
      GainOfOne(r[n].amount, c[n].amount, p);
      SplitLast(r);
      SplitLast(c);
      AddGain(Sum(r[..n]), r[n].amount, n, p);
    }
  }

  lemma SumOfEmpty(p: nat)
    ensures Sum([]) == 0 && 0 * p == 0
  {
  }

  lemma SplitLast(ws: seq<Weight>)
    requires ws != []
    ensures Sum(ws) == Sum(ws[..|ws| - 1]) + ws[|ws| - 1].amount
  {
  }

  lemma GainOfOne(amount: nat, weight: nat, p: nat)
    requires RoundedShare(amount, weight, p) && 0 < weight
    ensures -(p as int) <= 2 * (amount * p - weight) && amount * p - weight <= p
  {
  }

  lemma AddGain(a: nat, b: nat, n: nat, p: nat)
    ensures (a + b) * p == a * p + b * p && (n + 1) * p == n * p + p
  {
  }

  /** The proportion of every target in the normal form differs from its proportion in the weights
      by less than what `|c|` roundings and one more can make: multiplied by both sums, by the sum
      of the weights and `|c|` times the weight. */
  lemma ProportionsAreKept(r: seq<Weight>, c: seq<Weight>, total: nat, didOverflow: bool, k: nat)
    requires Proportional(r, c, total, didOverflow) && PositiveAmounts(c) && k < |c|
    ensures var error := r[k].amount * Sum(c) - c[k].amount * Sum(r);
            -(Sum(c) + |c| * c[k].amount) <= error <= Sum(c) + |c| * c[k].amount
  {
    hide RoundedShare, Divisor, Pow2, Sum;
    if |c| == 1 {
      SumOfOne(r);
      SumOfOne(c);
    } else if !didOverflow && total <= UINT32_MAX {
      assert r[k].amount * Sum(c) == c[k].amount * Sum(r);
      ProductNotNegative(|c|, c[k].amount);
    } else {
      var s :| Divisor(Pow2(s), total, didOverflow) && AllRounded(r, c, Pow2(s));
      GainOfOne(r[k].amount, c[k].amount, Pow2(s));
      GainOfAll(r, c, Pow2(s));
      ErrorOfShare(r[k].amount, Sum(r), c[k].amount, Sum(c), |c|, Pow2(s));
    }
  }

  lemma ProductNotNegative(a: nat, b: nat)
    ensures a * b >= 0
  {
  }

  lemma SumOfOne(ws: seq<Weight>)
    requires |ws| == 1
    ensures Sum(ws) == ws[0].amount
  {
    assert ws[..0] == [];
  }

  lemma ErrorOfShare(a: nat, t: nat, w: nat, sum: nat, n: nat, p: nat)
    requires p > 0 && -(p as int) <= 2 * (a * p - w) && a * p - w <= p
    requires -(n * p) <= 2 * (t * p - sum) && t * p - sum <= n * p
    ensures -(sum + n * w) <= a * sum - w * t <= sum + n * w
  {
    var g, gs := a * p - w, t * p - sum;
    assert (a * sum - w * t) * p == g * sum - w * gs by { ErrorExactly(a, t, w, sum, p); }
    MulMono(g, p, sum);
    MulMono(-(p as int), g, sum);
    MulMono(gs, n * p, w);
    MulMono(-(n * p), gs, w);
    assert (sum + n * w) * p == p * sum + w * (n * p) by { BothProducts(sum, n, w, p); }
    NegatedProduct(p, sum);
    NegatedProduct(n * p, w);
    NegatedProduct(sum + n * w, p);
    AtMostByFactor(a * sum - w * t, sum + n * w, p);
    AtMostByFactor(-(sum + n * w), a * sum - w * t, p);
  }

  lemma ErrorExactly(a: nat, t: nat, w: nat, sum: nat, p: nat)
    ensures (a * sum - w * t) * p == (a * p - w) * sum - w * (t * p - sum)
  {
    assert (a * p - w) * sum == (a * p) * sum - w * sum;
    assert w * (t * p - sum) == w * (t * p) - w * sum;
    assert (a * p) * sum == (a * sum) * p && w * (t * p) == (w * t) * p;
  }

  lemma BothProducts(sum: nat, n: nat, w: nat, p: nat)
    ensures (sum + n * w) * p == p * sum + w * (n * p)
  {
    assert (n * w) * p == w * (n * p);
  }

  lemma NegatedProduct(a: int, b: int)
    ensures (-a) * b == -(a * b) && b * (-a) == -(a * b)
  {
  }

  lemma AtMostByFactor(a: int, b: int, p: nat)
    requires p > 0 && a * p <= b * p
    ensures a <= b
  {
    if a > b { MulMono(b + 1, a, p); }
  }

  /** Weights that are divided keep a total of about 2^30 to 2^31, or of 2^31 to 2^32 after an
      overflow: no precision is given away. */
  lemma TotalIsLarge(r: seq<Weight>, t: nat, ws: seq<Weight>, total: nat, didOverflow: bool)
    requires Represents(ws, total, didOverflow) && Normalizes(r, t, ws, total, didOverflow)
    requires |r| > 1 && Sum(ws) > UINT32_MAX
    ensures !didOverflow ==> D - |r| <= 2 * t && t < D + |r|
    ensures didOverflow ==> 2 * D - |r| <= 2 * t && t < 2 * D + |r|
  {
    hide RoundedShare, Pow2, Sum, Combines, SameKinds, NormalForm;
    NormalizedIffProportional(r, t, ws, total, didOverflow);
    var c :| Combines(c, ws) && Proportional(r, c, total, didOverflow);
    CombinedPositive(c, ws);
    CombinedSum(c, ws);
    var s :| Divisor(Pow2(s), total, didOverflow) && AllRounded(r, c, Pow2(s));
    DivisorIsLarge(Pow2(s), total, didOverflow);
    GainOfAll(r, c, Pow2(s));
    LargeTotal(t, Sum(c), |c|, Pow2(s), if didOverflow then 2 * D else D);
  }

  lemma LargeTotal(t: nat, sum: nat, n: nat, p: nat, d: nat)
    requires p > 2 && -(n * p) <= 2 * (t * p - sum) && t * p - sum <= n * p
    requires d * p <= 2 * sum + 2 && sum < d * p
    ensures d - n <= 2 * t && t < d + n
  {
    assert (d + n) * p == d * p + n * p;
    CancelLess(t, d + n, p);
    assert (2 * t + 1) * p == 2 * (t * p) + p;
    assert (d - n) * p == d * p - n * p;
    CancelLess(d - n, 2 * t + 1, p);
  }

  /** The divisor is at least four. */
  lemma DivisorIsLarge(p: nat, total: nat, didOverflow: bool)
    requires Divisor(p, total, didOverflow) && (didOverflow || total > UINT32_MAX)
    ensures p > 2
  {
  }
}
