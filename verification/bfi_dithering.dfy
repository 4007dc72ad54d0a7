/** Splitting a mass into portions without losing any of it. */
module Dithering {
  import opened BranchProbabilities
  import opened WeightCombining
  import opened Distributions

  /** The portion of the remaining mass that a weight gets. */
  function Portion(mass: nat, weight: nat, remWeight: nat): (r: nat)
    requires mass <= FULL && 0 < weight <= remWeight <= UINT32_MAX
    ensures r <= mass && (weight == remWeight ==> r == mass)
    ensures var n := Numerator(weight, remWeight);
            r * D <= mass * n < r * D + D
  {
    var n := Numerator(weight, remWeight);
    ScaledBounds(mass, n);
    Scaled(mass, n, D)
  }

  lemma ScaledBounds(mass: nat, n: nat)
    requires mass <= FULL && n <= D
    ensures var r := Scaled(mass, n, D);
            r <= mass && (n == D ==> r == mass) && r * D <= mass * n < r * D + D
  {
    MulMono(n, D, mass);
    DivMod(mass * n, D);
    CancelLess(mass * n / D, mass + 1, D);
    if n == D {
      QuotientIs(mass * n, D, mass, 0);
    }
  }

  /** Takes one portion after the other. */
  class DitheringDistributer {
    var remWeight: nat
    var remMass: nat

    constructor (dist: Distribution, mass: nat)
      requires dist.Valid() && |dist.weights| <= UINT32_MAX && Fits(dist.weights) && mass <= FULL
      modifies dist`weights, dist`total
      ensures remWeight == dist.total <= UINT32_MAX && remMass == mass
      ensures Normalizes(dist.weights, dist.total, old(dist.weights), old(dist.total), dist.didOverflow)
      ensures old(dist.weights) == [] ==> dist.weights == []
    {
      new;
      hide Normalizes, Fits, Represents;
      dist.Normalize();
      NormalizedFits(dist.weights, dist.total, old(dist.weights), old(dist.total), dist.didOverflow);
      remWeight, remMass := dist.total, mass;
    }

    method TakeMass(weight: nat) returns (mass: nat)
      requires 0 < weight <= remWeight <= UINT32_MAX && remMass <= FULL
      modifies this
      ensures mass == Portion(old(remMass), weight, old(remWeight))
      ensures remWeight == old(remWeight) - weight && remMass == old(remMass) - mass
    {
      hide Numerator, Scaled;
      var probability := Numerator(weight, remWeight);
      mass := Scale(remMass, probability, D);
      assert mass == Portion(remMass, weight, remWeight);
      remWeight := remWeight - weight;
      remMass := SubtractMass(remMass, mass);
    }
  }

  /** What is left of the mass after a portion for each weight. */
  function RemMass(mass: nat, total: nat, ws: seq<Weight>): (r: nat)
    requires mass <= FULL && total <= UINT32_MAX && PositiveAmounts(ws) && Sum(ws) <= total
    ensures r <= mass
    decreases |ws|
  {
    if ws == [] then mass
    else
      var n := |ws| - 1;
      var rest := RemMass(mass, total, ws[..n]);
      rest - Portion(rest, ws[n].amount, total - Sum(ws[..n]))
  }

  /** The last portion takes all that is left. */
  lemma NothingRemains(mass: nat, total: nat, ws: seq<Weight>)
    requires mass <= FULL && total <= UINT32_MAX && PositiveAmounts(ws) && Sum(ws) == total && ws != []
    ensures RemMass(mass, total, ws) == 0
  {
    hide Numerator;
  }

  function Abs(x: int): nat {
    if x < 0 then -x else x
  }

  /** How far the remaining mass is from its share `mass * remWeight / total`, times `total`. */
  function Drift(mass: nat, total: nat, ws: seq<Weight>): int
    requires mass <= FULL && total <= UINT32_MAX && PositiveAmounts(ws) && Sum(ws) <= total
  {
    RemMass(mass, total, ws) * total - mass * (total - Sum(ws))
  }

  /** After `k` portions the remaining mass is within `k * (mass / (2 * D) + 1)` of its share; here
      multiplied by `2 * D * total`. */
  lemma {:induction false} ErrorBound(mass: nat, total: nat, ws: seq<Weight>)
    requires mass <= FULL && total <= UINT32_MAX && PositiveAmounts(ws) && Sum(ws) <= total
    ensures 2 * D * Abs(Drift(mass, total, ws)) <= |ws| * ((mass + 2 * D) * total)
    decreases |ws|
  {
    hide Numerator, Abs, Portion, Drift, RemMass;
    if ws == [] {
      NoDrift(mass, total);
    } else {
      var n := |ws| - 1;
      ErrorBound(mass, total, ws[..n]);
      DriftNext(mass, total, ws);
      SumOfBounds(n, (mass + 2 * D) * total);
    }
  }

  lemma NoDrift(mass: nat, total: nat)
    requires mass <= FULL && total <= UINT32_MAX
    ensures Abs(Drift(mass, total, [])) == 0
  {
    assert mass * total == total * mass;
  }

  lemma DriftNext(mass: nat, total: nat, ws: seq<Weight>)
    requires mass <= FULL && total <= UINT32_MAX && PositiveAmounts(ws) && Sum(ws) <= total && ws != []
    ensures Sum(ws[..|ws| - 1]) <= total && PositiveAmounts(ws[..|ws| - 1])
    ensures 2 * D * Abs(Drift(mass, total, ws)) <= 2 * D * Abs(Drift(mass, total, ws[..|ws| - 1])) + (mass + 2 * D) * total
  {
    hide Numerator, Abs, Portion, RemMass, PositiveAmounts, Drift;
    var n := |ws| - 1;
    RemMassNext(mass, total, ws);
    var rest, r, w := RemMass(mass, total, ws[..n]), total - Sum(ws[..n]), ws[n].amount;
    Diluted(mass, total, rest, r, w);
    DriftIs(mass, total, ws[..n], rest, r);
    DriftIs(mass, total, ws, rest - Portion(rest, w, r), r - w);
  }

  lemma DriftIs(mass: nat, total: nat, ws: seq<Weight>, rest: int, r: int)
    requires mass <= FULL && total <= UINT32_MAX && PositiveAmounts(ws) && Sum(ws) <= total
    requires RemMass(mass, total, ws) == rest && total - Sum(ws) == r
    ensures Drift(mass, total, ws) == rest * total - mass * r
  {
    hide RemMass, PositiveAmounts, Sum;
  }

  lemma RemMassNext(mass: nat, total: nat, ws: seq<Weight>)
    requires mass <= FULL && total <= UINT32_MAX && PositiveAmounts(ws) && Sum(ws) <= total && ws != []
    ensures var n := |ws| - 1;
            && PositiveAmounts(ws[..n]) && Sum(ws) == Sum(ws[..n]) + ws[n].amount && 0 < ws[n].amount
            && var rest := RemMass(mass, total, ws[..n]);
               RemMass(mass, total, ws) == rest - Portion(rest, ws[n].amount, total - Sum(ws[..n]))
  {
    hide Portion;
  }

  lemma SumOfBounds(n: nat, x: nat)
    ensures (n + 1) * x == n * x + x
  {
  }

  lemma AbsBounds(x: int)
    ensures x <= Abs(x) && -x <= Abs(x) && (Abs(x) == x || Abs(x) == -x)
  {
  }

  /** One portion dilutes the error so far and adds at most a rounding of the probability and a
      rounding of the product. */
  lemma Diluted(mass: nat, total: nat, rest: nat, r: nat, w: nat)
    requires rest <= mass <= FULL && 0 < w <= r <= total <= UINT32_MAX
    ensures var e, e' := rest * total - mass * r, (rest - Portion(rest, w, r)) * total - mass * (r - w);
            2 * D * Abs(e') <= 2 * D * Abs(e) + (mass + 2 * D) * total
  {
    hide Numerator, Abs, Portion;
    var n, t := Numerator(w, r), Portion(rest, w, r);
    var e, e' := rest * total - mass * r, (rest - t) * total - mass * (r - w);
    var x := rest * w - t * r;
    assert e' * r == e * (r - w) + total * x by { DilutedExactly(mass, total, rest, r, w, t); }
    PortionError(rest, w, r, n, t);
    MulMono(rest, mass, r);
    assert 2 * D * Abs(x) <= (mass + 2 * D) * r by { Widened(rest, mass, r); }
    Divided(e, e', r, w, total, x, mass + 2 * D);
  }

  lemma Widened(rest: nat, mass: nat, r: nat)
    requires rest * r <= mass * r
    ensures (rest + 2 * D) * r <= (mass + 2 * D) * r
  {
  }

  lemma DilutedExactly(mass: nat, total: nat, rest: nat, r: nat, w: nat, t: nat)
    ensures ((rest - t) * total - mass * (r - w)) * r == (rest * total - mass * r) * (r - w) + total * (rest * w - t * r)
  {
    var a, b := rest * total, mass * r;
    calc {
      ((rest - t) * total - mass * (r - w)) * r;
      (a - t * total - (b - mass * w)) * r;
      a * r - t * total * r - b * r + mass * w * r;
    }
    assert mass * w * r == b * w;
    assert (a - b) * (r - w) == a * r - a * w - b * r + b * w;
    assert total * (rest * w - t * r) == a * w - t * total * r;
  }

  /** The error of one portion, times `2 * D * r`. */
  lemma PortionError(rest: nat, w: nat, r: nat, n: nat, t: nat)
    requires 0 < w <= r && -(r as int) <= 2 * (n * r - w * D) <= r
    requires t * D <= rest * n < t * D + D
    ensures 2 * D * Abs(rest * w - t * r) <= (rest + 2 * D) * r
  {
    hide Abs;
    var u, s := n * r - w * D, rest * n - t * D;
    PortionErrorExactly(rest, w, r, n, t);
    MulMono(2 * u, r, rest);
    MulMono(-(r as int), 2 * u, rest);
    MulMono(0, s, r);
    MulMono(s, D, r);
    AbsBounds(rest * w - t * r);
    Rounded(rest * w - t * r, rest, r, u, s);
  }

  lemma PortionErrorExactly(rest: nat, w: nat, r: nat, n: nat, t: nat)
    ensures D * (rest * w - t * r) == (rest * n - t * D) * r - rest * (n * r - w * D)
  {
    assert (rest * n - t * D) * r == rest * n * r - t * D * r;
    assert rest * (n * r - w * D) == rest * (n * r) - rest * (w * D);
    assert rest * (n * r) == rest * n * r && rest * (w * D) == D * (rest * w);
  }

  lemma Rounded(x: int, rest: nat, r: nat, u: int, s: int)
    requires D * x == s * r - rest * u
    requires rest * (-(r as int)) <= rest * (2 * u) <= rest * r && 0 <= s * r <= D * r
    ensures 2 * D * x <= (rest + 2 * D) * r && -(2 * D * x) <= (rest + 2 * D) * r
  {
    assert rest * (2 * u) == 2 * (rest * u) && rest * (-(r as int)) == -(rest * r);
    assert (rest + 2 * D) * r == rest * r + 2 * (D * r);
  }

  /** Dividing by the remaining weight. */
  lemma Divided(e: int, e': int, r: nat, w: nat, total: nat, x: int, b: nat)
    requires 0 < w <= r && e' * r == e * (r - w) + total * x && 2 * D * Abs(x) <= b * r
    ensures 2 * D * Abs(e') <= 2 * D * Abs(e) + b * total
  {
    hide Abs;
    AbsOfProduct(e', r);
    AbsOfProduct(e, r - w);
    AbsOfProduct(x, total);
    assert total * x == x * total;
    AbsOfSum(e * (r - w), total * x);
    MulMono(r - w, r, Abs(e));
    assert Abs(e') * r <= Abs(e) * r + Abs(x) * total;
    MulMono(2 * D * Abs(x), b * r, total);
    Regroup(Abs(e'), Abs(e), Abs(x), r, total, b);
    Cancel(2 * D * Abs(e'), 2 * D * Abs(e) + b * total, r);
  }

  lemma Regroup(a: nat, c: nat, x: nat, r: nat, total: nat, b: nat)
    requires a * r <= c * r + x * total && (2 * D * x) * total <= (b * r) * total
    ensures (2 * D * a) * r <= (2 * D * c + b * total) * r
  {
    assert (2 * D * a) * r == 2 * D * (a * r);
    assert (2 * D * c) * r == 2 * D * (c * r);
    assert (2 * D * x) * total == 2 * D * (x * total);
    assert (b * r) * total == (b * total) * r;
    assert (2 * D * c + b * total) * r == (2 * D * c) * r + (b * total) * r;
  }

  lemma Cancel(a: int, b: int, r: nat)
    requires r > 0 && a * r <= b * r
    ensures a <= b
  {
    if a > b { MulMono(b + 1, a, r); }
  }

  lemma AbsOfProduct(x: int, k: nat)
    ensures Abs(x * k) == Abs(x) * k
  {
    if x < 0 {
      assert x * k == -((-x) * k);
      MulMono(0, -x, k);
    } else {
      MulMono(0, x, k);
    }
  }

  lemma AbsOfSum(x: int, y: int)
    ensures Abs(x + y) <= Abs(x) + Abs(y)
  {
  }
}
