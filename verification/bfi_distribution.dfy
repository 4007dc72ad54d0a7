/** The distribution of weight over the successors of a block, and its normal form. */
module Distributions {
  import opened BranchProbabilities
  import opened MachineArithmetic
  import opened WeightCombining

  const TWO33: nat := 0x2_0000_0000

  // ---- By hashing ----

  /** The table holds one entry per target, with the sum of what goes there. */
  ghost predicate Tabulates(table: map<nat, Weight>, ws: seq<Weight>) {
    && (forall t :: t in table ==> table[t].target == t && EntryFor(table[t], ws))
    && (forall k :: 0 <= k < |ws| ==> ws[k].target in table)
  }

  ghost function Targets(ws: seq<Weight>): set<nat> {
    set k | 0 <= k < |ws| :: ws[k].target
  }

  lemma TargetsNext(ws: seq<Weight>, n: nat)
    requires n + 1 == |ws|
    ensures Targets(ws) == Targets(ws[..n]) + {ws[n].target}
    ensures ws[n].target !in Targets(ws[..n]) && DistinctTargets(ws[..n]) ==> DistinctTargets(ws)
  {
    forall u | u in Targets(ws) ensures u in Targets(ws[..n]) + {ws[n].target} {
      var k :| 0 <= k < |ws| && ws[k].target == u;
      if k < n { assert ws[..n][k].target == u; }
    }
    forall k | 0 <= k < n ensures ws[k].target in Targets(ws[..n]) {
      assert ws[..n][k].target == ws[k].target;
    }
  }

  lemma {:induction false} FewTargets(ws: seq<Weight>)
    ensures |Targets(ws)| <= |ws|
    ensures |Targets(ws)| == |ws| ==> DistinctTargets(ws)
  {
    hide Targets, DistinctTargets;
    if ws != [] {
      var n := |ws| - 1;
      FewTargets(ws[..n]);
      TargetsNext(ws, n);
    } else {
      NoTargets();
    }
  }

  lemma NoTargets()
    ensures Targets([]) == {} && DistinctTargets([])
  {
  }

  /** Distinct weights are their own combination. */
  lemma DistinctCombines(ws: seq<Weight>)
    requires DistinctTargets(ws) && PositiveAmounts(ws)
    ensures Combines(ws, ws)
  {
    forall i | 0 <= i < |ws| ensures EntryFor(ws[i], ws) {
      var t := ws[i].target;
      TargetSumElsewhere(ws, 0, i, t);
      TargetSumNext(ws, i, t);
      TargetSumElsewhere(ws, i + 1, |ws|, t);
      assert ws[..|ws|] == ws && ws[..0] == [];
    }
  }

  /** A combination of a prefix, one edge further. */
  lemma TabulatesNext(table: map<nat, Weight>, ws: seq<Weight>, k: nat, w: Weight)
    requires k < |ws| && Tabulates(table, ws[..k]) && SameKinds(ws) && PositiveAmounts(ws)
    requires w.target == ws[k].target && w.kind == ws[k].kind
    requires w.amount == AddMass(SaturatedSum(ws[..k], w.target), ws[k].amount)
    ensures Tabulates(table[w.target := w], ws[..k + 1])
  {
    hide SaturatedSum;
    var t := ws[k].target;
    SaturatedNext(ws, k, t);
    var s, table' := ws[..k + 1], table[t := w];
    assert s[k].target == t;
    forall u | u in table' ensures table'[u].target == u && EntryFor(table'[u], s) {
      if u != t {
        TableCarries(table[u], ws, k);
      }
    }
    forall i | 0 <= i < |s| ensures s[i].target in table' {
      assert i < k ==> ws[..k][i].target in table;
    }
  }

  lemma TableCarries(w: Weight, ws: seq<Weight>, k: nat)
    requires k < |ws| && EntryFor(w, ws[..k]) && ws[k].target != w.target
    ensures EntryFor(w, ws[..k + 1])
  {
    var s := ws[..k + 1];
    var j :| 0 <= j < k && ws[..k][j].target == w.target;
    assert s[j].target == w.target;
    TargetSumElsewhere(ws, k, k + 1, w.target);
    forall i | 0 <= i < |s| && s[i].target == w.target ensures s[i].kind == w.kind {
      assert i < k && ws[..k][i].target == w.target;
    }
  }

  lemma NoSuchTarget(ws: seq<Weight>, k: nat)
    requires k < |ws| && !HasTarget(ws[..k], ws[k].target)
    ensures SaturatedSum(ws[..k], ws[k].target) == 0
  {
    var t := ws[k].target;
    assert forall j :: 0 <= j < k ==> ws[..k][j].target != t;
    TargetSumElsewhere(ws, 0, k, t);
    assert ws[..0] == [];
  }

  /** Collects the weights in a hash table, whose order is left open. */
  method CombineWeightsByHashing(weights: seq<Weight>) returns (r: seq<Weight>)
    requires PositiveAmounts(weights) && SameKinds(weights)
    ensures Combines(r, weights)
  {
    hide Combines, EntryFor, SaturatedSum, HasTarget, SameKinds, Tabulates, TargetSum;
    var combined: map<nat, Weight> := map[];
    EmptyTable(weights);
    for k := 0 to |weights|
      invariant Tabulates(combined, weights[..k])
    {
      var w := weights[k];
      TableEntry(combined, weights, k);
      var entry := if w.target in combined then combined[w.target] else Weight(Local, 0, 0);
      entry := CombineWeight(entry, w);
      TabulatesNext(combined, weights, k, entry);
      combined := combined[w.target := entry];
    }
    assert weights[..|weights|] == weights;
    TableKeys(combined, weights);
    if |weights| == |combined.Keys| {
      FewTargets(weights);
      DistinctCombines(weights);
      return weights;
    }
    r := ListTable(combined, weights);
  }

  lemma EmptyTable(ws: seq<Weight>)
    ensures Tabulates(map[], ws[..0])
  {
  }

  lemma TableKeys(table: map<nat, Weight>, ws: seq<Weight>)
    requires Tabulates(table, ws)
    ensures table.Keys == Targets(ws)
  {
    hide SaturatedSum;
  }

  /** What the table holds for the target of the next edge. */
  lemma TableEntry(table: map<nat, Weight>, ws: seq<Weight>, k: nat)
    requires k < |ws| && Tabulates(table, ws[..k]) && SameKinds(ws) && PositiveAmounts(ws)
    ensures var t := ws[k].target;
            if t in table then
              && table[t].target == t && table[t].kind == ws[k].kind
              && table[t].amount == SaturatedSum(ws[..k], t) <= UINT64_MAX
            else SaturatedSum(ws[..k], t) == 0
  {
    var t := ws[k].target;
    if t in table {
      var j :| 0 <= j < k && ws[..k][j].target == t;
      assert ws[j].kind == ws[k].kind;
    } else {
      assert forall j :: 0 <= j < k ==> ws[..k][j].target in table;
      NoSuchTarget(ws, k);
    }
  }

  method ListTable(table: map<nat, Weight>, ghost ws: seq<Weight>) returns (r: seq<Weight>)
    requires Tabulates(table, ws)
    ensures Combines(r, ws)
  {
    hide EntryFor;
    r := [];
    var keys := table.Keys;
    while keys != {}
      invariant keys <= table.Keys && DistinctTargets(r)
      invariant forall i :: 0 <= i < |r| ==> r[i].target in table.Keys - keys && r[i] == table[r[i].target]
      invariant forall t :: t in table.Keys - keys ==> HasTarget(r, t)
      decreases |keys|
    {
      var t :| t in keys;
      ghost var was := r;
      r := r + [table[t]];
      keys := keys - {t};
      HasTargetGrows(was, table[t]);
    }
  }

  lemma HasTargetGrows(r: seq<Weight>, w: Weight)
    ensures HasTarget(r + [w], w.target)
    ensures forall t :: HasTarget(r, t) ==> HasTarget(r + [w], t)
  {
    assert (r + [w])[|r|] == w;
    forall t | HasTarget(r, t) ensures HasTarget(r + [w], t) {
      var k :| 0 <= k < |r| && r[k].target == t;
      assert (r + [w])[k].target == t;
    }
  }

  // ---- Combining does not lose weight ----

  /** The edges to other targets. */
  function Others(ws: seq<Weight>, t: nat): seq<Weight> {
    if ws == [] then []
    else Others(ws[..|ws| - 1], t) + if ws[|ws| - 1].target == t then [] else [ws[|ws| - 1]]
  }

  lemma {:induction false} OthersSums(ws: seq<Weight>, t: nat)
    ensures Sum(ws) == Sum(Others(ws, t)) + TargetSum(ws, t)
    ensures |Others(ws, t)| <= |ws| && (HasTarget(ws, t) ==> |Others(ws, t)| < |ws|)
  {
    if ws != [] {
      var n := |ws| - 1;
      OthersSums(ws[..n], t);
      SumWith(Others(ws[..n], t), ws[n]);
      assert Others(ws, t) == if ws[n].target == t then Others(ws[..n], t) else Others(ws[..n], t) + [ws[n]];
      if HasTarget(ws, t) && ws[n].target != t {
        var k :| 0 <= k < |ws| && ws[k].target == t;
        assert ws[..n][k].target == t;
      }
    }
  }

  lemma {:induction false} OthersTargetSum(ws: seq<Weight>, t: nat, u: nat)
    requires u != t
    ensures TargetSum(Others(ws, t), u) == TargetSum(ws, u)
  {
    if ws != [] {
      var n := |ws| - 1;
      OthersTargetSum(ws[..n], t, u);
      TargetSumWith(Others(ws[..n], t), ws[n], u);
      assert Others(ws, t) == if ws[n].target == t then Others(ws[..n], t) else Others(ws[..n], t) + [ws[n]];
    }
  }

  lemma {:induction false} OthersMembers(ws: seq<Weight>, t: nat, w: Weight)
    ensures w in Others(ws, t) <==> w in ws && w.target != t
  {
    if ws != [] {
      var n := |ws| - 1;
      OthersMembers(ws[..n], t, w);
      assert ws == ws[..n] + [ws[n]];
    }
  }

  /** Without its last target, a combination combines the edges to the other targets. */
  lemma CombinesOthers(c: seq<Weight>, ws: seq<Weight>)
    requires c != [] && Combines(c, ws)
    ensures Combines(c[..|c| - 1], Others(ws, c[|c| - 1].target))
  {
    hide SaturatedSum, TargetSum, Others;
    var n := |c| - 1;
    var t := c[n].target;
    var others := Others(ws, t);
    forall i | 0 <= i < n ensures EntryFor(c[i], others) {
      EntryForOthers(c[i], ws, t);
    }
    forall k | 0 <= k < |others| ensures HasTarget(c[..n], others[k].target) {
      OthersMembers(ws, t, others[k]);
      var j :| 0 <= j < |ws| && ws[j] == others[k];
      assert HasTarget(c, ws[j].target);
      var i :| 0 <= i < |c| && c[i].target == ws[j].target;
      assert c[..n][i].target == ws[j].target;
    }
  }

  lemma EntryForOthers(w: Weight, ws: seq<Weight>, t: nat)
    requires EntryFor(w, ws) && w.target != t
    ensures EntryFor(w, Others(ws, t))
  {
    hide Others;
    var others := Others(ws, t);
    OthersTargetSum(ws, t, w.target);
    var k :| 0 <= k < |ws| && ws[k].target == w.target;
    OthersMembers(ws, t, ws[k]);
    var i :| 0 <= i < |others| && others[i] == ws[k];
    forall j | 0 <= j < |others| && others[j].target == w.target ensures others[j].kind == w.kind {
      OthersMembers(ws, t, others[j]);
    }
  }

  /** Combining makes neither the sum nor the number of weights larger, and keeps the sum unless
      one of the sums is held. */
  lemma {:induction false} CombinedSum(c: seq<Weight>, ws: seq<Weight>)
    requires Combines(c, ws)
    ensures Sum(c) <= Sum(ws) && |c| <= |ws| && (ws != [] ==> c != [])
    ensures Sum(ws) <= UINT64_MAX ==> Sum(c) == Sum(ws)
    ensures Sum(c) < Sum(ws) ==> Sum(c) >= UINT64_MAX
    decreases |c|
  {
    hide Combines, TargetSum, Others, SaturatedSum;
    if c == [] {
      CombinedNone(ws);
    } else {
      var n := |c| - 1;
      CombinesOthers(c, ws);
      CombinedSum(c[..n], Others(ws, c[n].target));
      OthersSums(ws, c[n].target);
      CombinedAmount(c, ws, n);
    }
  }

  lemma CombinedNone(ws: seq<Weight>)
    requires Combines([], ws)
    ensures ws == []
  {
    NoTarget(if ws == [] then 0 else ws[0].target);
  }

  lemma NoTarget(t: nat)
    ensures !HasTarget([], t)
  {
  }

  lemma CombinedAmount(c: seq<Weight>, ws: seq<Weight>, i: nat)
    requires i < |c| && Combines(c, ws)
    ensures HasTarget(ws, c[i].target) && c[i].amount <= TargetSum(ws, c[i].target) && c[i].amount <= UINT64_MAX
    ensures TargetSum(ws, c[i].target) <= UINT64_MAX ==> c[i].amount == TargetSum(ws, c[i].target)
    ensures c[i].amount < TargetSum(ws, c[i].target) ==> c[i].amount == UINT64_MAX
  {
    assert EntryFor(c[i], ws);
  }

  lemma {:induction false} TargetSumPositive(ws: seq<Weight>, k: nat)
    requires k < |ws| && PositiveAmounts(ws)
    ensures TargetSum(ws, ws[k].target) > 0
  {
    var n := |ws| - 1;
    if k < n {
      TargetSumPositive(ws[..n], k);
    }
  }

  lemma CombinedPositive(c: seq<Weight>, ws: seq<Weight>)
    requires Combines(c, ws) && PositiveAmounts(ws)
    ensures PositiveAmounts(c) && DistinctTargets(c)
  {
    hide TargetSum;
    forall i | 0 <= i < |c| ensures 0 < c[i].amount <= UINT64_MAX {
      assert EntryFor(c[i], ws);
      var k :| 0 <= k < |ws| && ws[k].target == c[i].target;
      TargetSumPositive(ws, k);
    }
  }

  // ---- Scaling down ----

  function LeadingZeros(n: nat): nat
    requires 0 < n <= UINT64_MAX
    decreases TWO64 - n
  {
    if n >= 0x8000_0000_0000_0000 then 0 else 1 + LeadingZeros(2 * n)
  }

  lemma {:induction false} LeadingZerosFit(n: nat)
    requires 0 < n <= UINT64_MAX
    ensures 0x8000_0000_0000_0000 <= n * Pow2(LeadingZeros(n)) < TWO64
    decreases TWO64 - n
  {
    if n < 0x8000_0000_0000_0000 {
      LeadingZerosFit(2 * n);
      Doubling(n, Pow2(LeadingZeros(2 * n)));
    }
  }

  lemma Doubling(n: nat, p: nat)
    ensures n * (2 * p) == (2 * n) * p
  {
  }

  lemma Powers()
    ensures Pow2(31) == D && Pow2(32) == TWO32 && Pow2(33) == TWO33
  {
    assert Pow2(8) == 256;
    Pow2Adds(8, 8);
    Pow2Adds(16, 16);
    assert Pow2(33) == 2 * Pow2(32) && Pow2(32) == 2 * Pow2(31);
  }

  lemma FewZeros(n: nat)
    requires TWO32 <= n <= UINT64_MAX
    ensures LeadingZeros(n) < 32
  {
    hide Pow2, LeadingZeros;
    var z := LeadingZeros(n);
    LeadingZerosFit(n);
    Powers();
    if z >= 32 {
      Pow2Grows(32, z);
      ProductAtLeast(n, TWO32, Pow2(z), TWO32);
    }
  }

  /** How far the weights are shifted to make their total fit in 32 bits. */
  function Shift(total: nat, didOverflow: bool): nat
    requires total <= UINT64_MAX
  {
    if didOverflow then 33
    else if total > UINT32_MAX then
      FewZeros(total);
      33 - LeadingZeros(total)
    else 0
  }

  /** A shift brings the total below 2^31, and not below 2^30, unless the total overflowed. */
  lemma ShiftFits(total: nat)
    requires UINT32_MAX < total <= UINT64_MAX
    ensures LeadingZeros(total) < 32
    ensures 0 < Shift(total, false) <= 33
    ensures D * Pow2(Shift(total, false)) <= 2 * total < 2 * (D * Pow2(Shift(total, false)))
  {
    hide Pow2, LeadingZeros;
    var z := LeadingZeros(total);
    LeadingZerosFit(total);
    Powers();
    FewZeros(total);
    var s: nat := 33 - z;
    Pow2Adds(s, z);
    assert (D * Pow2(s)) * Pow2(z) == D * (Pow2(s) * Pow2(z));
    CancelLess(total, D * Pow2(s), Pow2(z));
    Regrouped(2, total, Pow2(z));
    CancelLess(D * Pow2(s), 2 * total + 1, Pow2(z));
  }

  lemma Regrouped(a: nat, n: nat, p: nat)
    ensures a * (n * p) == (a * n) * p && (a * n + 1) * p == a * (n * p) + p
  {
  }

  /** Shifts right; the last bit shifted out decides the rounding. */
  function ShiftRightAndRound(n: nat, shift: nat): nat
    requires shift < 64
  {
    if shift == 0 then n else TopAndHalf(n, Pow2(shift - 1))
  }

  /** The quotient by 2h, and the last bit of the quotient by h. */
  function TopAndHalf(n: nat, h: nat): nat
    requires h > 0
  {
    Quotient(n, 2 * h) + Quotient(n, h) % 2
  }

  /** The result is the nearest quotient, upwards from the middle. */
  lemma ShiftRounds(n: nat, shift: nat)
    requires 0 < shift < 64
    ensures ShiftRightAndRound(n, shift) * Pow2(shift) == n + ToNearest(n, Pow2(shift - 1))
    ensures -(Pow2(shift - 1) as int) < ToNearest(n, Pow2(shift - 1)) <= Pow2(shift - 1)
  {
    hide ToNearest;
    hide TopAndHalf;
    var h, p := Pow2(shift - 1), Pow2(shift);
    assert p == 2 * h && ShiftRightAndRound(n, shift) == TopAndHalf(n, h);
    hide ShiftRightAndRound, Pow2;
    HalvesRound(n, h, p, TopAndHalf(n, h));
  }

  /** What leads from `n` to the nearest multiple of 2h, upwards from the middle. */
  function ToNearest(n: nat, h: nat): int
    requires h > 0
  {
    if n % (2 * h) >= h then 2 * h - n % (2 * h) else 0 - n % (2 * h)
  }

  lemma NearestIsNear(n: nat, h: nat)
    requires h > 0
    ensures -(h as int) < ToNearest(n, h) <= h
  {
  }

  lemma HalvesRound(n: nat, h: nat, p: nat, r: nat)
    requires h > 0 && p == 2 * h && r == TopAndHalf(n, h)
    ensures r * p == n + ToNearest(n, h) && -(h as int) < r * p - n <= h
  {
    hide ToNearest;
    DivMod(n, p);
    HalfQuotient(n, h, p, n / p, n % p);
    RoundedUp(n, h, p, n / p, n % p, r);
    NearestIsNear(n, h);
  }

  /** The last bit shifted out tells whether the remainder is at least half. */
  lemma HalfQuotient(n: nat, h: nat, p: nat, q: nat, s: nat)
    requires h > 0 && p == 2 * h && n == q * p + s && s < p
    ensures (n / h) % 2 == if s < h then 0 else 1
  {
    DoubleAndHalf(q, h, p);
    if s < h {
      QuotientIs(n, h, 2 * q, s);
    } else {
      QuotientIs(n, h, 2 * q + 1, s - h);
    }
    Parity(q);
  }

  lemma DoubleAndHalf(q: nat, h: nat, p: nat)
    requires p == 2 * h
    ensures q * p == (2 * q) * h && (2 * q + 1) * h == (2 * q) * h + h
  {
  }

  lemma Parity(q: nat)
    ensures (2 * q) % 2 == 0 && (2 * q + 1) % 2 == 1
  {
  }

  lemma RoundedUp(n: nat, h: nat, p: nat, q: nat, s: nat, r: nat)
    requires h > 0 && p == 2 * h && n == q * p + s && s < p && s == n % p && r == q + if s < h then 0 else 1
    ensures r * p == n + ToNearest(n, h)
  {
    OneMoreMultiple(q, p);
  }

  lemma OneMoreMultiple(q: nat, p: nat)
    ensures (q + 1) * p == q * p + p
  {
  }

  function ScaleDown(w: Weight, shift: nat): Weight
    requires shift < 64
  {
    var amount := ShiftRightAndRound(w.amount, shift);
    w.(amount := if amount < 1 then 1 else amount)
  }

  function Rescaled(ws: seq<Weight>, shift: nat): (r: seq<Weight>)
    requires shift < 64
    ensures |r| == |ws| && forall k :: 0 <= k < |ws| ==> r[k] == ScaleDown(ws[k], shift)
  {
    if ws == [] then [] else Rescaled(ws[..|ws| - 1], shift) + [ScaleDown(ws[|ws| - 1], shift)]
  }

  /** A weight shifted down is at least 1, and exceeds its share by less than 1. */
  lemma ScaleDownBounds(w: Weight, shift: nat)
    requires 0 < shift < 64 && 0 < w.amount < D * Pow2(shift)
    ensures 1 <= ScaleDown(w, shift).amount <= D
    ensures ScaleDown(w, shift).amount * Pow2(shift) <= w.amount + Pow2(shift) - 1
  {
    hide ShiftRightAndRound, ToNearest;
    var r, p, h := ShiftRightAndRound(w.amount, shift), Pow2(shift), Pow2(shift - 1);
    assert p == 2 * h;
    ShiftRounds(w.amount, shift);
    hide Pow2;
    RoundedFits(r, w.amount, h, p);
  }

  lemma RoundedFits(r: nat, n: nat, h: nat, p: nat)
    requires 0 < h && p == 2 * h && r * p - n <= h && 0 < n < D * p
    ensures var a := if r < 1 then 1 else r;
            a <= D && a * p <= n + p - 1
  {
    OneMoreMultiple(D, p);
    CancelLess(r, D + 1, p);
  }

  lemma {:induction false} RescaledSum(ws: seq<Weight>, shift: nat)
    requires 0 < shift < 64 && forall k :: 0 <= k < |ws| ==> 0 < ws[k].amount < D * Pow2(shift)
    ensures Sum(Rescaled(ws, shift)) * Pow2(shift) <= Sum(ws) + |ws| * (Pow2(shift) - 1)
    ensures Sum(Rescaled(ws, shift)) <= |ws| * D
  {
    hide ScaleDown, Pow2;
    if ws != [] {
      var n := |ws| - 1;
      RescaledSum(ws[..n], shift);
      ScaleDownBounds(ws[n], shift);
      SumWith(Rescaled(ws[..n], shift), ScaleDown(ws[n], shift));
      OneMore(Sum(Rescaled(ws[..n], shift)), ScaleDown(ws[n], shift).amount, n, Pow2(shift));
    } else {
      assert Sum(Rescaled(ws, shift)) == 0;
    }
  }

  lemma OneMore(a: nat, b: nat, n: nat, p: nat)
    ensures (a + b) * p == a * p + b * p
    ensures (n + 1) * (p - 1) == n * (p - 1) + (p - 1)
  {
  }

  /** What a weight gains when it becomes a multiple of 2^shift, at least one. */
  function Gain(amount: nat, shift: nat): int
    requires shift > 0
  {
    if amount < Pow2(shift) then Pow2(shift) - amount else ToNearest(amount, Pow2(shift - 1))
  }

  function TotalGain(ws: seq<Weight>, shift: nat): int
    requires shift > 0
  {
    if ws == [] then 0 else TotalGain(ws[..|ws| - 1], shift) + Gain(ws[|ws| - 1].amount, shift)
  }

  lemma ScaledDownGains(w: Weight, shift: nat)
    requires 0 < shift < 64 && 0 < w.amount
    ensures ScaleDown(w, shift).amount * Pow2(shift) == w.amount + Gain(w.amount, shift)
  {
    hide ShiftRightAndRound, ToNearest;
    assert Pow2(shift) == 2 * Pow2(shift - 1);
    ShiftRounds(w.amount, shift);
    hide Pow2;
    AtLeastOne(ShiftRightAndRound(w.amount, shift), w.amount, ToNearest(w.amount, Pow2(shift - 1)), Pow2(shift - 1), Pow2(shift));
  }

  lemma AtLeastOne(r: nat, n: nat, g: int, h: nat, p: nat)
    requires h > 0 && p == 2 * h && 0 < n && r * p == n + g && -(h as int) < g <= h
    ensures var a := if r < 1 then 1 else r;
            a * p == n + if n < p then p - n else g
  {
    if n < p {
      if r >= 2 {
        MulMono(2, r, p);
      }
    } else {
      CancelLess(0, r, p);
    }
  }

  lemma {:induction false} RescaledTotal(ws: seq<Weight>, shift: nat)
    requires 0 < shift < 64 && PositiveAmounts(ws)
    ensures Sum(Rescaled(ws, shift)) * Pow2(shift) == Sum(ws) + TotalGain(ws, shift)
  {
    hide ScaleDown, Pow2, Gain;
    if ws != [] {
      var n := |ws| - 1;
      RescaledTotal(ws[..n], shift);
      ScaledDownGains(ws[n], shift);
      SumWith(Rescaled(ws[..n], shift), ScaleDown(ws[n], shift));
      OneMore(Sum(Rescaled(ws[..n], shift)), ScaleDown(ws[n], shift).amount, n, Pow2(shift));
    } else {
      assert Sum(Rescaled(ws, shift)) == 0;
    }
  }

  /** The total after a shift fits in 32 bits exactly when the sum with what the weights gain is
      less than 2^32 times the shift. */
  lemma RescaledFitsIff(ws: seq<Weight>, shift: nat)
    requires 0 < shift < 64 && PositiveAmounts(ws)
    ensures Sum(Rescaled(ws, shift)) <= UINT32_MAX <==> Sum(ws) + TotalGain(ws, shift) < TWO32 * Pow2(shift)
  {
    hide Rescaled, Pow2;
    RescaledTotal(ws, shift);
    var t, p := Sum(Rescaled(ws, shift)), Pow2(shift);
    if t * p < TWO32 * p {
      CancelLess(t, TWO32, p);
    }
    if t < TWO32 {
      MulLess(t, TWO32, p);
    }
  }

  lemma MulLess(a: int, b: int, c: nat)
    requires a < b && c > 0
    ensures a * c < b * c
  {
    MulMono(a + 1, b, c);
    assert (a + 1) * c == a * c + c;
  }

  // ---- The order of the weights does not matter ----

  lemma RescaledWith(ws: seq<Weight>, w: Weight, shift: nat)
    requires shift < 64
    ensures Sum(Rescaled(ws + [w], shift)) == Sum(Rescaled(ws, shift)) + ScaleDown(w, shift).amount
  {
    hide ScaleDown;
    assert (ws + [w])[..|ws|] == ws;
    SumWith(Rescaled(ws, shift), ScaleDown(w, shift));
  }

  lemma WithoutBeforeLast(ws: seq<Weight>, front: seq<Weight>, last: Weight, i: nat)
    requires ws == front + [last] && i < |front|
    ensures ws[..i] + ws[i + 1..] == (front[..i] + front[i + 1..]) + [last]
  {
    assert ws[..i] == front[..i];
    assert ws[i + 1..] == front[i + 1..] + [last];
  }

  lemma {:induction false} RescaledWithout(ws: seq<Weight>, i: nat, shift: nat)
    requires i < |ws| && shift < 64
    ensures Sum(Rescaled(ws, shift)) == Sum(Rescaled(ws[..i] + ws[i + 1..], shift)) + ScaleDown(ws[i], shift).amount
    decreases |ws|
  {
    hide ScaleDown, Rescaled, Sum;
    var front, last := ws[..|ws| - 1], ws[|ws| - 1];
    assert ws == front + [last];
    RescaledWith(front, last, shift);
    if i == |front| {
      assert ws[..i] + ws[i + 1..] == front;
    } else {
      RescaledWithout(front, i, shift);
      WithoutBeforeLast(ws, front, last, i);
      RescaledWith(front[..i] + front[i + 1..], last, shift);
    }
  }

  lemma {:induction false} RescaledPermuted(a: seq<Weight>, b: seq<Weight>, shift: nat)
    requires multiset(a) == multiset(b) && shift < 64
    ensures Sum(Rescaled(a, shift)) == Sum(Rescaled(b, shift)) && |a| == |b|
    decreases |a|
  {
    hide Rescaled, ScaleDown, Sum;
    assert |multiset(a)| == |a| && |multiset(b)| == |b|;
    if a == [] {
      assert b == [];
    } else {
      var front, last := a[..|a| - 1], a[|a| - 1];
      assert a == front + [last];
      RescaledWith(front, last, shift);
      var i := PlaceOf(last, a, b);
      RescaledPermuted(front, b[..i] + b[i + 1..], shift);
      RescaledWithout(b, i, shift);
    }
  }

  lemma PlaceOf(w: Weight, a: seq<Weight>, b: seq<Weight>) returns (i: nat)
    requires multiset(a) == multiset(b) && a != [] && w == a[|a| - 1]
    ensures i < |b| && b[i] == w && multiset(a[..|a| - 1]) == multiset(b[..i] + b[i + 1..])
  {
    assert a == a[..|a| - 1] + [w];
    assert w in multiset(b);
    i :| 0 <= i < |b| && b[i] == w;
    assert b == b[..i] + [w] + b[i + 1..];
    assert multiset(b) == multiset(b[..i]) + multiset{w} + multiset(b[i + 1..]);
    assert multiset(b[..i] + b[i + 1..]) == multiset(b) - multiset{w};
    assert multiset(a[..|a| - 1]) == multiset(a) - multiset{w};
  }

  // ---- The normal form ----

  /** The normalized total fits in 32 bits, as normalisation asserts in the end. */
  ghost predicate Fits(ws: seq<Weight>) {
    forall c :: Combines(c, ws) && Sum(ws) < 2 * TWO64 ==>
      Sum(NormalForm(c, Sum(ws) % TWO64, Sum(ws) >= TWO64)) <= UINT32_MAX
  }

  /** When that is certain from the sum and the number of the weights. */
  predicate SurelyFits(ws: seq<Weight>) {
    if Sum(ws) < TWO64 then |ws| <= D else Sum(ws) + |ws| * TWO33 <= 2 * TWO64
  }

  function NormalForm(c: seq<Weight>, total: nat, didOverflow: bool): seq<Weight>
    requires total <= UINT64_MAX
  {
    if |c| == 1 then [c[0].(amount := 1)] else Rescaled(c, Shift(total, didOverflow))
  }

  ghost predicate Represents(ws: seq<Weight>, total: nat, didOverflow: bool) {
    && PositiveAmounts(ws) && SameKinds(ws) && total <= UINT64_MAX
    && Sum(ws) == total + if didOverflow then TWO64 else 0
  }

  /** `r` and `t` are the normal form of the weights and their total. */
  ghost predicate Normalizes(r: seq<Weight>, t: nat, ws: seq<Weight>, total: nat, didOverflow: bool) {
    && total <= UINT64_MAX && t == Sum(r)
    && exists c :: Combines(c, ws) && r == NormalForm(c, total, didOverflow)
  }

  /** In the normal form every weight is at least 1 and there is one entry per target.  If the sum of
      the weights fits in 64 bits, or is not too close to 2^65, the total fits in 32 bits. */
  lemma NormalizedFits(r: seq<Weight>, t: nat, ws: seq<Weight>, total: nat, didOverflow: bool)
    requires Represents(ws, total, didOverflow) && Normalizes(r, t, ws, total, didOverflow)
    ensures DistinctTargets(r) && t == Sum(r) && (ws != [] ==> r != [])
    ensures forall k :: 0 <= k < |r| ==> 1 <= r[k].amount <= UINT32_MAX
    ensures Fits(ws) <==> t <= UINT32_MAX
    ensures SurelyFits(ws) ==> t <= UINT32_MAX
  {
    hide Combines, Rescaled, Shift, ScaleDown, ShiftRightAndRound, SameKinds, SurelyFits, Sum, NormalForm;
    var c: seq<Weight> :| Combines(c, ws) && r == NormalForm(c, total, didOverflow);
    CombinedSum(c, ws);
    CombinedPositive(c, ws);
    forall a | Combines(a, ws) ensures Sum(NormalForm(a, total, didOverflow)) == t {
      NormalFormsAgree(a, c, ws, total, didOverflow);
    }
    SumsAsRepresented(ws, total, didOverflow);
    if |c| == 1 {
      OneIsOne(c[0], total, didOverflow);
      assert c == [c[0]];
    } else {
      ManyRescaled(c, total, didOverflow);
      RescaledFits(c, ws, total, didOverflow);
    }
  }

  lemma SumsAsRepresented(ws: seq<Weight>, total: nat, didOverflow: bool)
    requires Represents(ws, total, didOverflow)
    ensures Sum(ws) < 2 * TWO64 && Sum(ws) % TWO64 == total && (Sum(ws) >= TWO64 <==> didOverflow)
  {
  }

  lemma OneIsOne(w: Weight, total: nat, didOverflow: bool)
    requires total <= UINT64_MAX
    ensures NormalForm([w], total, didOverflow) == [w.(amount := 1)] && Sum([w.(amount := 1)]) == 1
    ensures DistinctTargets([w.(amount := 1)])
  {
    assert [w.(amount := 1)][..0] == [];
  }

  lemma ManyRescaled(c: seq<Weight>, total: nat, didOverflow: bool)
    requires total <= UINT64_MAX && |c| != 1
    ensures Shift(total, didOverflow) < 64 && NormalForm(c, total, didOverflow) == Rescaled(c, Shift(total, didOverflow))
  {
    hide Shift, Rescaled;
    ShiftBelow64(total, didOverflow);
  }

  /** Whatever order the weights are combined in, the normal form has the same total. */
  lemma NormalFormsAgree(a: seq<Weight>, b: seq<Weight>, ws: seq<Weight>, total: nat, didOverflow: bool)
    requires Combines(a, ws) && Combines(b, ws) && total <= UINT64_MAX
    ensures Sum(NormalForm(a, total, didOverflow)) == Sum(NormalForm(b, total, didOverflow))
  {
    hide Combines, Rescaled, Shift;
    CombinedOnlyOneWay(a, b, ws);
    if total > UINT32_MAX && !didOverflow {
      ShiftFits(total);
    }
    ShiftBelow64(total, didOverflow);
    RescaledPermuted(a, b, Shift(total, didOverflow));
    if |a| == 1 {
      OneInBoth(a, b);
    }
  }

  lemma ShiftBelow64(total: nat, didOverflow: bool)
    requires total <= UINT64_MAX
    ensures Shift(total, didOverflow) < 64
  {
    if total > UINT32_MAX && !didOverflow {
      ShiftFits(total);
    }
  }

  lemma OneInBoth(a: seq<Weight>, b: seq<Weight>)
    requires |a| == |b| == 1 && multiset(a) == multiset(b)
    ensures a == b
  {
    assert a[0] in multiset(b);
  }

  /** For any number of targets: the total fits exactly when there is one target, nothing is shifted,
      or the combined weights, with what they gain by being rounded, stay below 2^32 times the
      shift. */
  lemma FitsIff(c: seq<Weight>, ws: seq<Weight>, total: nat, didOverflow: bool)
    requires Represents(ws, total, didOverflow) && Combines(c, ws)
    ensures Shift(total, didOverflow) < 64
    ensures var s := Shift(total, didOverflow);
            Fits(ws) <==> |c| == 1 || s == 0 || Sum(c) + TotalGain(c, s) < TWO32 * Pow2(s)
  {
    hide Combines, Rescaled, Shift, SameKinds, TotalGain, Fits, Pow2;
    ShiftBelow64(total, didOverflow);
    var r := NormalForm(c, total, didOverflow);
    assert Normalizes(r, Sum(r), ws, total, didOverflow);
    NormalizedFits(r, Sum(r), ws, total, didOverflow);
    CombinedSum(c, ws);
    CombinedPositive(c, ws);
    if |c| == 1 {
      OneIsOne(c[0], total, didOverflow);
      assert c == [c[0]];
    } else if Shift(total, didOverflow) == 0 {
      UnscaledSame(c, total, didOverflow);
    } else {
      RescaledFitsIff(c, Shift(total, didOverflow));
    }
  }

  lemma RescaledFits(c: seq<Weight>, ws: seq<Weight>, total: nat, didOverflow: bool)
    requires total <= UINT64_MAX && Sum(ws) == total + (if didOverflow then TWO64 else 0)
    requires PositiveAmounts(c) && DistinctTargets(c) && Sum(c) <= Sum(ws) && |c| <= |ws|
    requires Sum(ws) <= UINT64_MAX ==> Sum(c) == Sum(ws)
    ensures var r := Rescaled(c, Shift(total, didOverflow));
            && DistinctTargets(r)
            && (forall k :: 0 <= k < |r| ==> 1 <= r[k].amount <= UINT32_MAX)
            && (SurelyFits(ws) ==> Sum(r) <= UINT32_MAX)
  {
    hide Rescaled;
    var s := Shift(total, didOverflow);
    var r := Rescaled(c, s);
    if s == 0 {
      UnscaledSame(c, total, didOverflow);
      forall k | 0 <= k < |r| ensures r[k].amount <= Sum(c) {
        AmountBelowSum(c, k);
      }
    } else {
      ShiftCovers(c, total, didOverflow);
      forall k | 0 <= k < |r| ensures 1 <= r[k].amount <= UINT32_MAX && r[k].target == c[k].target {
        ScaleDownBounds(c[k], s);
      }
      RescaledSum(c, s);
      if SurelyFits(ws) {
        TotalFits(Sum(r), Sum(c), |c|, ws, total, didOverflow);
      }
    }
  }

  lemma {:induction false} AmountBelowSum(c: seq<Weight>, k: nat)
    requires k < |c|
    ensures c[k].amount <= Sum(c)
  {
    if k < |c| - 1 {
      AmountBelowSum(c[..|c| - 1], k);
    }
  }

  /** Nothing is shifted only if the total fits already. */
  lemma UnscaledSame(c: seq<Weight>, total: nat, didOverflow: bool)
    requires PositiveAmounts(c) && total <= UINT64_MAX && Shift(total, didOverflow) == 0
    ensures !didOverflow && total <= UINT32_MAX && Rescaled(c, 0) == c
  {
    if !didOverflow && total > UINT32_MAX {
      ShiftFits(total);
    }
    assert forall k :: 0 <= k < |c| ==> ScaleDown(c[k], 0) == c[k];
  }

  /** Every weight is below 2^31 times the shift. */
  lemma ShiftCovers(c: seq<Weight>, total: nat, didOverflow: bool)
    requires PositiveAmounts(c) && total <= UINT64_MAX && Shift(total, didOverflow) != 0
    requires !didOverflow ==> Sum(c) <= total
    ensures Shift(total, didOverflow) <= 33
    ensures forall k :: 0 <= k < |c| ==> 0 < c[k].amount < D * Pow2(Shift(total, didOverflow))
  {
    Powers();
    if !didOverflow {
      ShiftFits(total);
    }
    forall k | 0 <= k < |c| ensures c[k].amount < D * Pow2(Shift(total, didOverflow)) {
      AmountBelowSum(c, k);
    }
  }

  lemma LessOneEach(n: nat, p: nat)
    ensures n * (p - 1) == n * p - n && TWO32 * p == D * p + D * p
  {
  }

  lemma TotalFits(t: nat, sum: nat, n: nat, ws: seq<Weight>, total: nat, didOverflow: bool)
    requires total <= UINT64_MAX && Sum(ws) == total + (if didOverflow then TWO64 else 0)
    requires Shift(total, didOverflow) != 0 && SurelyFits(ws) && sum <= Sum(ws) && n <= |ws|
    requires t * Pow2(Shift(total, didOverflow)) <= sum + n * (Pow2(Shift(total, didOverflow)) - 1)
    ensures t <= UINT32_MAX
  {
    hide Sum, Pow2;
    var s := Shift(total, didOverflow);
    var p := Pow2(s);
    Powers();
    LessOneEach(n, p);
    if !didOverflow {
      ShiftFits(total);
      MulMono(n, D, p);
    }
    CancelLess(t, TWO32, p);
  }

  /** With an overflow and two targets, the total does not fit in 32 bits exactly when both
      weights are within 2^32 of 2^64. */
  lemma TwoHeavyTargets(c: seq<Weight>)
    requires |c| == 2 && PositiveAmounts(c)
    ensures Sum(Rescaled(c, 33)) > UINT32_MAX <==> c[0].amount >= TWO64 - TWO32 && c[1].amount >= TWO64 - TWO32
  {
    hide ScaleDown;
    var r := Rescaled(c, 33);
    SumOfTwo(r);
    HeavyWeight(c[0]);
    HeavyWeight(c[1]);
  }

  lemma SumOfTwo(r: seq<Weight>)
    requires |r| == 2
    ensures Sum(r) == r[0].amount + r[1].amount
  {
    assert r[..1][..0] == [];
    assert Sum(r[..1]) == r[0].amount;
  }

  lemma HeavyWeight(w: Weight)
    requires 0 < w.amount <= UINT64_MAX
    ensures ScaleDown(w, 33).amount <= D
    ensures ScaleDown(w, 33).amount == D <==> w.amount >= TWO64 - TWO32
  {
    hide ShiftRightAndRound, ToNearest, Pow2;
    Powers();
    ShiftRounds(w.amount, 33);
  }

  // ---- The distribution ----

  class Distribution {
    var weights: seq<Weight>
    var total: nat
    var didOverflow: bool

    ghost predicate Valid()
      reads this
    {
      Represents(weights, total, didOverflow)
    }

    constructor ()
      ensures Valid() && weights == [] && total == 0 && !didOverflow
    {
      weights, total, didOverflow := [], 0, false;
    }

    /** Adds an edge.  The total may overflow 64 bits once, not twice. */
    method Add(node: nat, amount: nat, kind: EdgeKind)
      requires Valid() && 0 < amount <= UINT64_MAX && Sum(weights) + amount < 2 * TWO64
      requires forall k :: 0 <= k < |weights| && weights[k].target == node ==> weights[k].kind == kind
      modifies this
      ensures Valid() && weights == old(weights) + [Weight(kind, node, amount)]
    {
      hide Sum;
      var newTotal := (total + amount) % TWO64;
      var isOverflow := newTotal < total;
      assert !(didOverflow && isOverflow);
      didOverflow := didOverflow || isOverflow;
      total := newTotal;
      SumWith(weights, Weight(kind, node, amount));
      weights := weights + [Weight(kind, node, amount)];
    }

    method CombineWeights()
      requires Valid()
      modifies this`weights
      ensures Combines(weights, old(weights))
    {
      if |weights| > 128 {
        weights := CombineWeightsByHashing(weights);
      } else {
        weights := CombineWeightsBySorting(weights);
      }
    }

    /** Brings the distribution to its normal form. */
    method Normalize()
      requires Valid() && |weights| <= UINT32_MAX
      modifies this`weights, this`total
      ensures old(weights) == [] ==> weights == [] && total == old(total)
      ensures Normalizes(weights, total, old(weights), old(total), didOverflow)
    {
      hide Combines, Rescaled, ScaleDown, PositiveAmounts, SameKinds, ShiftRightAndRound;
      if |weights| == 0 {
        NothingCombinedYet();
        return;
      }
      if |weights| > 1 {
        CombineWeights();
      } else {
        OneCombines(weights);
      }
      ghost var c := weights;
      CombinedSum(c, old(weights));
      CombinedPositive(c, old(weights));
      if |weights| == 1 {
        total := 1;
        weights := weights[0 := weights[0].(amount := 1)];
        assert weights == NormalForm(c, old(total), didOverflow);
        assert weights[..0] == [];
        return;
      }
      var shift := 0;
      if didOverflow {
        shift := 33;
      } else if total > UINT32_MAX {
        FewZeros(total);
        shift := 33 - LeadingZeros(total);
      }
      assert shift == Shift(total, didOverflow);
      if shift == 0 {
        UnscaledSame(c, total, didOverflow);
        assert total == Sum(weights);
        return;
      }
      ShiftCovers(c, total, didOverflow);
      Rescale(c, shift);
    }

    /** Shifts every weight and sums them up again. */
    method Rescale(ghost c: seq<Weight>, shift: nat)
      requires weights == c && |c| <= UINT32_MAX && 0 < shift < 64
      requires forall k :: 0 <= k < |c| ==> 0 < c[k].amount < D * Pow2(shift)
      modifies this`weights, this`total
      ensures weights == Rescaled(c, shift) && total == Sum(weights)
    {
      hide Pow2, Rescaled, ShiftRightAndRound, Sum;
      total := 0;
      NothingRescaled(c, shift);
      for k := 0 to |weights|
        invariant |weights| == |c| && weights[k..] == c[k..] && weights[..k] == Rescaled(c[..k], shift)
        invariant total == Sum(weights[..k]) <= k * D
      {
        ScaleDownBounds(c[k], shift);
        Overwritten(weights, c, k, ScaleDown(c[k], shift));
        var amount := ShiftRightAndRound(weights[k].amount, shift);
        var w := weights[k].(amount := if amount < 1 then 1 else amount);
        assert w == ScaleDown(c[k], shift);
        SumWith(weights[..k], w);
        weights := weights[k := w];
        total := (total + w.amount) % TWO64;
        RescaledNext(c, k, shift);
      }
      assert c[..|c|] == c && weights[..|c|] == weights;
    }
  }

  lemma Overwritten(ws: seq<Weight>, c: seq<Weight>, k: nat, w: Weight)
    requires k < |ws| == |c| && ws[k..] == c[k..]
    ensures ws[k] == c[k]
    ensures ws[k := w][..k + 1] == ws[..k] + [w] && ws[k := w][k + 1..] == c[k + 1..]
  {
    assert ws[k] == ws[k..][0] == c[k..][0];
    assert ws[k..][1..] == c[k..][1..];
  }

  lemma NothingRescaled(c: seq<Weight>, shift: nat)
    requires shift < 64
    ensures c[..0] == [] == Rescaled(c[..0], shift) && Sum([]) == 0
  {
  }

  lemma RescaledNext(c: seq<Weight>, k: nat, shift: nat)
    requires k < |c| && shift < 64
    ensures Rescaled(c[..k + 1], shift) == Rescaled(c[..k], shift) + [ScaleDown(c[k], shift)]
  {
    assert c[..k + 1][..k] == c[..k];
  }

  lemma OneCombines(ws: seq<Weight>)
    requires |ws| == 1 && PositiveAmounts(ws)
    ensures Combines(ws, ws)
  {
    DistinctCombines(ws);
  }

  lemma NothingCombinedYet()
    ensures forall total: nat, didOverflow: bool :: total <= UINT64_MAX ==> Normalizes([], 0, [], total, didOverflow)
  {
    assert Combines([], []);
    assert forall total: nat, didOverflow: bool :: total <= UINT64_MAX ==> NormalForm([], total, didOverflow) == [];
  }
}
