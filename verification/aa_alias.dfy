/** Answering alias queries about two decomposed addresses by arithmetic. */
module GepAliasing {
  import opened MachineArithmetic
  import opened LinearExpressions
  import opened GepDecomposition
  import opened AddressCircle

  // ---- The symbolic difference ----

  /** Two values are the same value whenever the query is asked; a value in `unstable` may come
      from different iterations of a loop. */
  predicate SameInEveryCycle(a: TypedExpr, b: TypedExpr, unstable: set<TypedExpr>) {
    a == b && a !in unstable
  }

  lemma VarSumUpdate(vars: seq<VarIndex>, j: nat, scale: int, rho: Valuation)
    requires j < |vars|
    ensures VarSum(vars[j := vars[j].(scale := scale)], rho)
            == VarSum(vars, rho) + (scale - vars[j].scale) * VarValue(vars[j], rho)
  {
    hide VarSum, VarValue;
    var x := vars[j].(scale := scale);
    VarSumWithout(vars, j, rho);
    VarSumWithout(vars[j := x], j, rho);
    assert Without(vars, j) == Without(vars[j := x], j);
    assert VarValue(x, rho) == VarValue(vars[j], rho) by { SameValue(x, vars[j], rho); }
    Subtract(scale, vars[j].scale, VarValue(vars[j], rho));
  }

  lemma Subtract(a: int, b: int, x: int)
    ensures (a - b) * x == a * x - b * x
  {
  }

  lemma SameValue(a: VarIndex, b: VarIndex, rho: Valuation)
    requires SameKey(a, b)
    ensures VarValue(a, rho) == VarValue(b, rho)
  {
  }

  /** One source variable has been subtracted. */
  ghost predicate Subtracted(dest: seq<VarIndex>, dest': seq<VarIndex>, x: VarIndex) {
    forall rho: Valuation :: Cong(VarSum(dest', rho), VarSum(dest, rho) - Term(x, rho), Pow2(64))
  }

  lemma SubtractFromEntry(dest: seq<VarIndex>, j: nat, x: VarIndex, dest': seq<VarIndex>)
    requires j < |dest| && SameKey(dest[j], x)
    requires dest' == if dest[j].scale != x.scale then dest[j := dest[j].(scale := Signed(dest[j].scale - x.scale, 64))]
                      else Without(dest, j)
    ensures Subtracted(dest, dest', x)
  {
    hide Cong, VarSum, VarValue, Pow2, Signed;
    var m := Pow2(64);
    forall rho: Valuation ensures Cong(VarSum(dest', rho), VarSum(dest, rho) - Term(x, rho), m) {
      SameValue(dest[j], x, rho);
      var v := VarValue(x, rho);
      if dest[j].scale != x.scale {
        var s := Signed(dest[j].scale - x.scale, 64);
        SignedCong(dest[j].scale - x.scale, 64);
        VarSumUpdate(dest, j, s, rho);
        CongScale(s, dest[j].scale - x.scale, v, m);
        Subtract(dest[j].scale, x.scale, v);
        Subtract(s, dest[j].scale, v);
        var rest := VarSum(dest, rho) - dest[j].scale * v;
        CongRefl(rest, m);
        CongAdd(rest, rest, s * v, (dest[j].scale - x.scale) * v, m);
      } else {
        VarSumWithout(dest, j, rho);
        CongRefl(VarSum(dest', rho), m);
      }
    }
  }

  lemma SubtractAsEntry(dest: seq<VarIndex>, x: VarIndex)
    ensures Subtracted(dest, dest + [x.(scale := Signed(0 - x.scale, 64))], x)
  {
    hide Cong, VarSum, VarValue, Pow2, Signed;
    var m := Pow2(64);
    var y := x.(scale := Signed(0 - x.scale, 64));
    SignedCong(0 - x.scale, 64);
    forall rho: Valuation ensures Cong(VarSum(dest + [y], rho), VarSum(dest, rho) - Term(x, rho), m) {
      VarSumWith(dest, y, rho);
      SameValue(x, y, rho);
      var v := VarValue(x, rho);
      CongScale(y.scale, 0 - x.scale, v, m);
      Subtract(0, x.scale, v);
      CongRefl(VarSum(dest, rho), m);
      CongAdd(VarSum(dest, rho), VarSum(dest, rho), y.scale * v, (0 - x.scale) * v, m);
    }
  }

  predicate HasKey(vars: seq<VarIndex>, x: VarIndex) {
    exists j :: 0 <= j < |vars| && SameKey(vars[j], x)
  }

  /** Every entry is for a variable of the other list. */
  predicate KeysFrom(vars: seq<VarIndex>, others: seq<VarIndex>) {
    forall k :: 0 <= k < |vars| ==> HasKey(others, vars[k])
  }

  lemma KeyAt(vars: seq<VarIndex>, j: nat, x: VarIndex)
    requires j < |vars| && SameKey(vars[j], x)
    ensures HasKey(vars, x)
  {
  }

  lemma KeysStay(dest: seq<VarIndex>, before: seq<VarIndex>, x: VarIndex, others: seq<VarIndex>, i: nat)
    requires KeysFrom(dest, before + [x]) && KeysFrom(before, others) && i < |others| && others[i] == x
    ensures KeysFrom(dest, others)
  {
    forall k | 0 <= k < |dest| ensures HasKey(others, dest[k]) {
      assert HasKey(before + [x], dest[k]);
      var j :| 0 <= j < |before + [x]| && SameKey((before + [x])[j], dest[k]);
      if j < |before| {
        assert HasKey(others, before[j]);
        var l :| 0 <= l < |others| && SameKey(others[l], before[j]);
        KeyAt(others, l, dest[k]);
      } else {
        KeyAt(others, i, dest[k]);
      }
    }
  }

  /** Taking out, rescaling and appending entries brings in no new variable. */
  lemma KeysOfChanges(vars: seq<VarIndex>, x: VarIndex)
    ensures KeysFrom(vars, vars + [x])
    ensures forall i :: 0 <= i < |vars| ==> KeysFrom(Without(vars, i), vars + [x])
    ensures forall i, y :: 0 <= i < |vars| && SameKey(vars[i], y) ==> KeysFrom(vars[i := y], vars + [x])
    ensures forall y :: SameKey(x, y) ==> KeysFrom(vars + [y], vars + [x])
  {
    KeysOfSelf(vars, [x]);
    forall i | 0 <= i < |vars| ensures KeysFrom(Without(vars, i), vars + [x]) {
      var w := Without(vars, i);
      forall k | 0 <= k < |w| ensures HasKey(vars + [x], w[k]) {
        KeyAt(vars + [x], if k < i then k else k + 1, w[k]);
      }
    }
    forall i, y | 0 <= i < |vars| && SameKey(vars[i], y) ensures KeysFrom(vars[i := y], vars + [x]) {
      var w := vars[i := y];
      forall k | 0 <= k < |w| ensures HasKey(vars + [x], w[k]) {
        KeyAt(vars + [x], k, w[k]);
      }
    }
    forall y | SameKey(x, y) ensures KeysFrom(vars + [y], vars + [x]) {
      var w := vars + [y];
      forall k | 0 <= k < |w| ensures HasKey(vars + [x], w[k]) {
        KeyAt(vars + [x], k, w[k]);
      }
    }
  }

  lemma KeysOfSelf(vars: seq<VarIndex>, src: seq<VarIndex>)
    ensures KeysFrom(vars, vars + src)
  {
    forall k | 0 <= k < |vars| ensures HasKey(vars + src, vars[k]) {
      KeyAt(vars + src, k, vars[k]);
    }
  }

  predicate Scales64(vars: seq<VarIndex>) {
    forall k :: 0 <= k < |vars| ==> FitsSigned(vars[k].scale, 64)
  }

  predicate Matches(a: VarIndex, x: VarIndex, unstable: set<TypedExpr>) {
    SameInEveryCycle(a.v, x.v, unstable) && a.zext == x.zext && a.sext == x.sext
  }

  /** The list less one variable: from the first entry that is the same variable in every cycle, or
      as a new entry. */
  function LessOne(dest: seq<VarIndex>, x: VarIndex, unstable: set<TypedExpr>): seq<VarIndex> {
    if dest == [] then
      if x.scale == 0 then [] else [x.(scale := Signed(0 - x.scale, 64))]
    else if !Matches(dest[0], x, unstable) then [dest[0]] + LessOne(dest[1..], x, unstable)
    else if dest[0].scale == x.scale then dest[1..]
    else [dest[0].(scale := Signed(dest[0].scale - x.scale, 64))] + dest[1..]
  }

  function Less(dest: seq<VarIndex>, src: seq<VarIndex>, unstable: set<TypedExpr>): seq<VarIndex> {
    if src == [] then dest else LessOne(Less(dest, src[..|src| - 1], unstable), src[|src| - 1], unstable)
  }

  lemma {:induction false} LessOneAt(dest: seq<VarIndex>, x: VarIndex, unstable: set<TypedExpr>, j: nat)
    requires j <= |dest| && forall k :: 0 <= k < j ==> !Matches(dest[k], x, unstable)
    ensures j == |dest| ==>
              LessOne(dest, x, unstable) == if x.scale == 0 then dest else dest + [x.(scale := Signed(0 - x.scale, 64))]
    ensures j < |dest| && Matches(dest[j], x, unstable) ==>
              LessOne(dest, x, unstable)
              == if dest[j].scale == x.scale then dest[..j] + dest[j + 1..]
                 else dest[j := dest[j].(scale := Signed(dest[j].scale - x.scale, 64))]
    decreases j
  {
    hide Signed, Matches;
    if j > 0 {
      assert !Matches(dest[0], x, unstable);
      LessOneAt(dest[1..], x, unstable, j - 1);
      assert [dest[0]] + dest[1..] == dest;
    }
  }

  /** Subtracting one variable is exact for every valuation, in 64-bit arithmetic. */
  lemma LessOneExact(dest0: seq<VarIndex>, x: VarIndex, unstable: set<TypedExpr>)
    requires Scales64(dest0) && FitsSigned(x.scale, 64)
    ensures var dest := LessOne(dest0, x, unstable);
            && Subtracted(dest0, dest, x) && Scales64(dest) && KeysFrom(dest, dest0 + [x])
            && (NonZero(dest0) ==> NonZero(dest))
            && (DistinctKeys(dest0) && x.v !in unstable ==> DistinctKeys(dest))
  {
    hide Signed, Pow2, Cong, FitsSigned, KeysFrom, Subtracted, LessOne, Matches;
    KeysOfChanges(dest0, x);
    var j := FirstMatch(dest0, x, unstable);
    LessOneAt(dest0, x, unstable, j);
    var dest := LessOne(dest0, x, unstable);
    if j < |dest0| {
      MatchIsSame(dest0[j], x, unstable);
      SignedFits(dest0[j].scale - x.scale, 64);
      NeverZero(dest0[j].scale, x.scale);
      assert SameKey(dest0[j], dest0[j].(scale := Signed(dest0[j].scale - x.scale, 64)));
      assert dest0[j].scale == x.scale ==> dest == Without(dest0, j);
      SubtractFromEntry(dest0, j, x, dest);
    } else {
      NoMatchNoKey(dest0, x, unstable);
      SignedFits(0 - x.scale, 64);
      NeverZero(0, x.scale);
      if x.scale != 0 {
        SubtractAsEntry(dest0, x);
      } else {
        NothingSubtracted(dest0, x);
      }
    }
  }

  lemma FirstMatch(dest: seq<VarIndex>, x: VarIndex, unstable: set<TypedExpr>) returns (j: nat)
    ensures j <= |dest| && (j < |dest| ==> Matches(dest[j], x, unstable))
    ensures forall k :: 0 <= k < j ==> !Matches(dest[k], x, unstable)
  {
    hide Matches;
    j := 0;
    while j < |dest| && !Matches(dest[j], x, unstable)
      invariant 0 <= j <= |dest| && forall k :: 0 <= k < j ==> !Matches(dest[k], x, unstable)
    {
      j := j + 1;
    }
  }

  lemma NoMatchNoKey(dest: seq<VarIndex>, x: VarIndex, unstable: set<TypedExpr>)
    requires forall k :: 0 <= k < |dest| ==> !Matches(dest[k], x, unstable)
    ensures x.v !in unstable ==> forall k :: 0 <= k < |dest| ==> !SameKey(dest[k], x)
  {
    forall k | 0 <= k < |dest| ensures x.v !in unstable ==> !SameKey(dest[k], x) {
      assert !Matches(dest[k], x, unstable);
    }
  }

  lemma MatchIsSame(y: VarIndex, x: VarIndex, unstable: set<TypedExpr>)
    requires Matches(y, x, unstable)
    ensures SameKey(y, x) && SameKey(x, y)
  {
  }

  /** Subtracts one source variable from the list, in place. */
  method SubtractOne(dest0: seq<VarIndex>, x: VarIndex, unstable: set<TypedExpr>) returns (dest: seq<VarIndex>)
    requires Scales64(dest0) && FitsSigned(x.scale, 64)
    ensures dest == LessOne(dest0, x, unstable)
    ensures Subtracted(dest0, dest, x) && Scales64(dest) && KeysFrom(dest, dest0 + [x])
    ensures NonZero(dest0) ==> NonZero(dest)
    ensures DistinctKeys(dest0) && x.v !in unstable ==> DistinctKeys(dest)
  {
    hide Signed, Pow2, FitsSigned, KeysFrom, Subtracted, LessOne, NonZero, DistinctKeys, Scales64;
    dest := dest0;
    LessOneExact(dest0, x, unstable);
    var scale := x.scale;
    for j := 0 to |dest|
      invariant dest == dest0 && scale == x.scale
      invariant forall k :: 0 <= k < j ==> !Matches(dest[k], x, unstable)
    {
      if SameInEveryCycle(dest[j].v, x.v, unstable) && dest[j].zext == x.zext && dest[j].sext == x.sext {
        LessOneAt(dest0, x, unstable, j);
        if dest[j].scale != scale {
          dest := dest[j := dest[j].(scale := Signed(dest[j].scale - scale, 64))];
        } else {
          dest := dest[..j] + dest[j + 1..];
        }
        return;
      }
    }
    LessOneAt(dest0, x, unstable, |dest0|);
    if scale != 0 {
      dest := dest + [VarIndex(x.v, x.zext, x.sext, Signed(0 - scale, 64))];
    }
  }

  /** The difference of different 64-bit numbers is not zero in 64 bits. */
  lemma NeverZero(a: int, b: int)
    requires (FitsSigned(a, 64) && FitsSigned(b, 64)) || (a == 0 && FitsSigned(b, 64))
    ensures a != b ==> Signed(a - b, 64) != 0
  {
    hide Cong, Signed;
    SignedZero(a - b, 64);
    if Signed(a - b, 64) == 0 {
      CongClose(a - b, 0, Pow2(64));
    }
  }

  lemma NothingSubtracted(dest: seq<VarIndex>, x: VarIndex)
    requires x.scale == 0
    ensures Subtracted(dest, dest, x)
  {
    hide Cong, VarSum, VarValue, Pow2;
    forall rho: Valuation ensures Cong(VarSum(dest, rho), VarSum(dest, rho) - Term(x, rho), Pow2(64)) {
      CongRefl(VarSum(dest, rho), Pow2(64));
    }
  }

  /** Dest minus Src, for every valuation, in 64-bit arithmetic. */
  ghost predicate DifferenceOf(dest0: seq<VarIndex>, src: seq<VarIndex>, dest: seq<VarIndex>) {
    forall rho: Valuation :: Cong(VarSum(dest, rho), VarSum(dest0, rho) - VarSum(src, rho), Pow2(64))
  }

  /** The symbolic difference is exact; no entry is scaled by zero, and when no value is unstable no
      variable is listed twice. */
  lemma {:induction false} LessExact(dest0: seq<VarIndex>, src: seq<VarIndex>, unstable: set<TypedExpr>)
    requires Scales64(dest0) && Scales64(src)
    ensures var dest := Less(dest0, src, unstable);
            && DifferenceOf(dest0, src, dest) && Scales64(dest) && KeysFrom(dest, dest0 + src)
            && (NonZero(dest0) ==> NonZero(dest))
            && (DistinctKeys(dest0) && (forall k :: 0 <= k < |src| ==> src[k].v !in unstable) ==> DistinctKeys(dest))
    decreases |src|
  {
    hide Cong, Pow2, FitsSigned, VarSum, KeysFrom, DifferenceOf, Subtracted, LessOne, NonZero, DistinctKeys;
    if src == [] {
      DifferenceStart(dest0);
      KeysOfSelf(dest0, src);
    } else {
      var n := |src| - 1;
      assert src == src[..n] + [src[n]];
      LessExact(dest0, src[..n], unstable);
      var before := Less(dest0, src[..n], unstable);
      LessOneExact(before, src[n], unstable);
      DifferenceStep(dest0, src[..n], before, LessOne(before, src[n], unstable), src[n]);
      KeysFromMore(before, dest0, src[..n], src[n]);
      KeysStay(LessOne(before, src[n], unstable), before, src[n], dest0 + src, |dest0| + n);
    }
  }

  lemma KeysFromMore(before: seq<VarIndex>, dest0: seq<VarIndex>, src: seq<VarIndex>, x: VarIndex)
    requires KeysFrom(before, dest0 + src)
    ensures KeysFrom(before, dest0 + (src + [x]))
  {
    hide SameKey, HasKey;
    forall k | 0 <= k < |before| ensures HasKey(dest0 + (src + [x]), before[k]) {
      KeyInLonger(dest0 + src, dest0 + (src + [x]), before[k]);
    }
  }

  lemma KeyInLonger(s: seq<VarIndex>, t: seq<VarIndex>, x: VarIndex)
    requires HasKey(s, x) && s <= t
    ensures HasKey(t, x)
  {
    var j :| 0 <= j < |s| && SameKey(s[j], x);
    assert SameKey(t[j], x);
  }

  method GetIndexDifference(dest0: seq<VarIndex>, src: seq<VarIndex>, unstable: set<TypedExpr>) returns (dest: seq<VarIndex>)
    requires Scales64(dest0) && Scales64(src)
    ensures dest == Less(dest0, src, unstable) && DifferenceOf(dest0, src, dest)
    ensures Scales64(dest) && KeysFrom(dest, dest0 + src)
    ensures NonZero(dest0) ==> NonZero(dest)
    ensures DistinctKeys(dest0) && (forall k :: 0 <= k < |src| ==> src[k].v !in unstable) ==> DistinctKeys(dest)
  {
    hide Pow2, FitsSigned, KeysFrom, DifferenceOf, Subtracted, LessOne, NonZero, DistinctKeys;
    LessExact(dest0, src, unstable);
    dest := dest0;
    for i := 0 to |src|
      invariant dest == Less(dest0, src[..i], unstable) && Scales64(dest)
    {
      assert src[..i + 1][..i] == src[..i];
      dest := SubtractOne(dest, src[i], unstable);
    }
    assert src[..|src|] == src;
  }

  lemma DifferenceStart(dest0: seq<VarIndex>)
    ensures DifferenceOf(dest0, [], dest0)
  {
    hide Cong, Pow2;
    forall rho: Valuation ensures Cong(VarSum(dest0, rho), VarSum(dest0, rho) - VarSum([], rho), Pow2(64)) {
      CongRefl(VarSum(dest0, rho), Pow2(64));
    }
  }

  lemma DifferenceStep(dest0: seq<VarIndex>, done: seq<VarIndex>, before: seq<VarIndex>, dest: seq<VarIndex>, x: VarIndex)
    requires DifferenceOf(dest0, done, before) && Subtracted(before, dest, x)
    ensures DifferenceOf(dest0, done + [x], dest)
  {
    hide Cong, Pow2, VarSum, Term;
    var m := Pow2(64);
    forall rho: Valuation ensures Cong(VarSum(dest, rho), VarSum(dest0, rho) - VarSum(done + [x], rho), m) {
      VarSumWith(done, x, rho);
      var t := Term(x, rho);
      assert Cong(VarSum(before, rho), VarSum(dest0, rho) - VarSum(done, rho), m);
      CongRefl(t, m);
      CongSub(VarSum(before, rho), VarSum(dest0, rho) - VarSum(done, rho), t, t, m);
      CongTrans(VarSum(dest, rho), VarSum(before, rho) - t, VarSum(dest0, rho) - VarSum(done, rho) - t, m);
    }
  }

  /** No scale goes around the address circle. */
  predicate Below(x: int, bits: nat) {
    0 - Pow2(bits) < x < Pow2(bits)
  }

  /** Not subtracted from yet, or the difference of two numbers of the pointer's width. */
  predicate Settled(y: VarIndex, done: seq<VarIndex>, bits: nat)
    requires bits > 0
  {
    Below(y.scale, bits) && (FitsSigned(y.scale, bits) || HasKey(done, y))
  }

  predicate AllSettled(vars: seq<VarIndex>, done: seq<VarIndex>, bits: nat)
    requires bits > 0
  {
    forall k :: 0 <= k < |vars| ==> Settled(vars[k], done, bits)
  }

  /** In a difference of decompositions no scale goes around the address circle. */
  lemma {:induction false} DifferenceBelow(dest: seq<VarIndex>, src: seq<VarIndex>, unstable: set<TypedExpr>, bits: nat)
    requires 0 < bits <= 64 && TidyVars(dest, bits) && TidyVars(src, bits)
    ensures AllSettled(Less(dest, src, unstable), src, bits)
    decreases |src|
  {
    hide Pow2, LessOne, FitsSigned, Below, Settled, HasKey, SameKey;
    if src == [] {
      NothingDone(dest, bits);
    } else {
      var n := |src| - 1;
      TidyPrefix(src, bits);
      DifferenceBelow(dest, src[..n], unstable, bits);
      OneSettled(Less(dest, src[..n], unstable), src[n], unstable, src[..n], bits);
      assert src == src[..n] + [src[n]];
    }
  }

  lemma NothingDone(dest: seq<VarIndex>, bits: nat)
    requires bits > 0 && TidyVars(dest, bits)
    ensures AllSettled(dest, [], bits)
  {
    hide Pow2, FitsSigned, Below, HasKey;
    forall k | 0 <= k < |dest| ensures Settled(dest[k], [], bits) {
      FitsBelow(dest[k].scale, bits);
    }
  }

  lemma TidyPrefix(src: seq<VarIndex>, bits: nat)
    requires bits > 0 && src != [] && TidyVars(src, bits)
    ensures TidyVars(src[..|src| - 1], bits) && FitsSigned(src[|src| - 1].scale, bits)
    ensures !HasKey(src[..|src| - 1], src[|src| - 1])
  {
    hide Pow2, FitsSigned;
    var front, last := src[..|src| - 1], src[|src| - 1];
    forall j | 0 <= j < |front| ensures !SameKey(front[j], last) {
      assert !SameKey(src[j], last);
    }
  }

  lemma {:induction false} OneSettled(dest: seq<VarIndex>, x: VarIndex, unstable: set<TypedExpr>, done: seq<VarIndex>, bits: nat)
    requires 0 < bits <= 64 && FitsSigned(x.scale, bits) && !HasKey(done, x)
    requires AllSettled(dest, done, bits)
    ensures AllSettled(LessOne(dest, x, unstable), done + [x], bits)
  {
    hide Pow2, Below, FitsSigned, Signed, HasKey, SameKey, Settled, Matches;
    if dest == [] {
      ItsOwnKey(x);
      NewSettled(0, x, x, done, bits);
    } else {
      var y, rest := dest[0], dest[1..];
      assert AllSettled(rest, done, bits);
      if !Matches(y, x, unstable) {
        OneSettled(rest, x, unstable, done, bits);
        StillSettled(y, done, x, bits);
        var less := LessOne(rest, x, unstable);
        assert forall k :: 0 < k < |[y] + less| ==> ([y] + less)[k] == less[k - 1];
      } else {
        MatchIsSame(y, x, unstable);
        if !FitsSigned(y.scale, bits) {
          NotSettled(y, x, done, bits);
        }
        NewSettled(y.scale, y, x, done, bits);
        forall k | 0 <= k < |rest| ensures Settled(rest[k], done + [x], bits) {
          StillSettled(rest[k], done, x, bits);
        }
      }
    }
  }

  lemma ItsOwnKey(x: VarIndex)
    ensures SameKey(x, x)
  {
  }

  lemma NotSettled(y: VarIndex, x: VarIndex, done: seq<VarIndex>, bits: nat)
    requires bits > 0 && SameKey(y, x) && !HasKey(done, x) && !FitsSigned(y.scale, bits)
    ensures !Settled(y, done, bits)
  {
    hide HasKey, FitsSigned, Below;
    if HasKey(done, y) {
      KeySame(done, y, x);
    }
  }

  lemma StillSettled(y: VarIndex, done: seq<VarIndex>, x: VarIndex, bits: nat)
    requires bits > 0 && Settled(y, done, bits)
    ensures Settled(y, done + [x], bits)
  {
    hide HasKey, FitsSigned, Below;
    if HasKey(done, y) {
      HasKeyWith(done, x, y);
    }
  }

  lemma NewSettled(scale: int, y: VarIndex, x: VarIndex, done: seq<VarIndex>, bits: nat)
    requires 0 < bits <= 64 && SameKey(x, y) && FitsSigned(x.scale, bits) && (scale == 0 || FitsSigned(scale, bits))
    ensures Settled(y.(scale := Signed(scale - x.scale, 64)), done + [x], bits)
  {
    hide Pow2, Below, FitsSigned, Signed, HasKey;
    DifferenceIsBelow(scale, x.scale, bits);
    HasKeyWith(done, x, y.(scale := Signed(scale - x.scale, 64)));
  }

  lemma HasKeyWith(done: seq<VarIndex>, x: VarIndex, y: VarIndex)
    requires HasKey(done, y) || SameKey(x, y)
    ensures HasKey(done + [x], y)
  {
    if HasKey(done, y) {
      var j :| 0 <= j < |done| && SameKey(done[j], y);
      assert SameKey((done + [x])[j], y);
    } else {
      assert SameKey((done + [x])[|done|], y);
    }
  }

  lemma KeySame(done: seq<VarIndex>, y: VarIndex, x: VarIndex)
    requires HasKey(done, y) && SameKey(y, x)
    ensures HasKey(done, x)
  {
    var j :| 0 <= j < |done| && SameKey(done[j], y);
    assert SameKey(done[j], x);
  }

  lemma FitsBelow(x: int, bits: nat)
    requires bits > 0 && FitsSigned(x, bits)
    ensures Below(x, bits)
  {
  }

  lemma DifferenceIsBelow(a: int, b: int, bits: nat)
    requires 0 < bits <= 64 && (FitsSigned(a, bits) || a == 0) && FitsSigned(b, bits)
    ensures Below(Signed(a - b, 64), bits)
  {
    hide Cong, Signed, FitsSigned;
    SignedFits(a - b, 64);
    if bits < 64 {
      DifferenceFits(a, b, bits);
      CongRefl(a - b, Pow2(64));
      SignedUnique(a - b, a - b, 64);
    } else {
      FitsBelow(Signed(a - b, 64), 64);
    }
  }

  lemma DifferenceFits(a: int, b: int, bits: nat)
    requires 0 < bits < 64 && (FitsSigned(a, bits) || a == 0) && FitsSigned(b, bits)
    ensures FitsSigned(a - b, 64) && Below(a - b, bits)
  {
    Pow2Grows(bits, 63);
  }

  // ---- The modulo test ----

  /** The bits of all scales together; negative scales count in two's complement. */
  function ScaleBits(vars: seq<VarIndex>): (r: nat)
    ensures r < Pow2(64)
  {
    if vars == [] then Pow2Grows(0, 64); 0
    else
      OrFits(ScaleBits(vars[..|vars| - 1]), Wrap(vars[|vars| - 1].scale, 64), 64);
      BitOr(ScaleBits(vars[..|vars| - 1]), Wrap(vars[|vars| - 1].scale, 64))
  }

  /** A power of two divides the or of the scales exactly when it divides each of them. */
  lemma {:induction false} ScaleBitsDivisible(vars: seq<VarIndex>, n: nat)
    requires n <= 64
    ensures ScaleBits(vars) % Pow2(n) == 0 <==> forall k :: 0 <= k < |vars| ==> Cong(vars[k].scale, 0, Pow2(n))
    decreases |vars|
  {
    hide Pow2, Cong, Wrap;
    if vars == [] {
      CongRefl(0, Pow2(n));
      CongZero(0, Pow2(n));
    } else {
      var front, x := vars[..|vars| - 1], vars[|vars| - 1];
      ScaleBitsDivisible(front, n);
      OrDivisible(ScaleBits(front), Wrap(x.scale, 64), n);
      WrapDivisible(x.scale, n);
      assert forall k :: 0 <= k < |front| ==> vars[k] == front[k];
    }
  }

  lemma WrapDivisible(x: int, n: nat)
    requires n <= 64
    ensures Wrap(x, 64) % Pow2(n) == 0 <==> Cong(x, 0, Pow2(n))
  {
    hide Pow2, Cong, Wrap;
    WrapCong(x, 64);
    CongNarrow(x, Wrap(x, 64), 64, n);
    CongNarrow(Wrap(x, 64), x, 64, n);
    CongZero(Wrap(x, 64), Pow2(n));
    if Cong(x, 0, Pow2(n)) {
      CongTrans(Wrap(x, 64), x, 0, Pow2(n));
    }
    if Cong(Wrap(x, 64), 0, Pow2(n)) {
      CongTrans(x, Wrap(x, 64), 0, Pow2(n));
    }
  }

  /** `m` is the largest power of two, 2^place, that divides every scale, and it is no larger
      than the address circle. */
  ghost predicate LargestModulo(vars: seq<VarIndex>, m: nat, place: nat, bits: nat) {
    && m == Pow2(place) && place < bits
    && (forall k :: 0 <= k < |vars| ==> Cong(vars[k].scale, 0, m))
    && exists k :: 0 <= k < |vars| && !Cong(vars[k].scale, 0, Pow2(place + 1))
  }

  /** The trick on the or of the scales. */
  function ModuloOf(vars: seq<VarIndex>): nat {
    var m := ScaleBits(vars);
    if m == 0 then 0 else BitXor(m, BitAnd(m, m - 1))
  }

  lemma ModuloIsLargest(vars: seq<VarIndex>, bits: nat) returns (place: nat)
    requires 0 < bits <= 64 && vars != [] && NonZero(vars)
    requires forall k :: 0 <= k < |vars| ==> Below(vars[k].scale, bits)
    ensures ScaleBits(vars) > 0 && ModuloOf(vars) > 0 && LargestModulo(vars, ModuloOf(vars), place, bits)
  {
    hide Pow2, Cong, Wrap, ScaleBits, BitXor, BitAnd, Below;
    SomeBitIsSet(vars, bits);
    place := LowestPlace(ScaleBits(vars));
    LowestBitIsPower(ScaleBits(vars));
    PlaceIsLow(vars, bits);
    ScaleBitsDivisible(vars, place);
    ScaleBitsDivisible(vars, place + 1);
  }

  method ScaleModulo(vars: seq<VarIndex>, bits: nat) returns (modulo: nat, ghost place: nat)
    requires 0 < bits <= 64 && vars != [] && NonZero(vars)
    requires forall k :: 0 <= k < |vars| ==> Below(vars[k].scale, bits)
    ensures modulo == ModuloOf(vars) > 0 && LargestModulo(vars, modulo, place, bits)
  {
    hide Pow2, Cong, Wrap, Below;
    modulo := 0;
    for i := 0 to |vars|
      invariant modulo == ScaleBits(vars[..i])
    {
      assert vars[..i + 1][..i] == vars[..i] && vars[..i + 1][i] == vars[i];
      modulo := BitOr(modulo, Wrap(vars[i].scale, 64));
    }
    assert vars[..|vars|] == vars;
    place := ModuloIsLargest(vars, bits);
    modulo := BitXor(modulo, BitAnd(modulo, modulo - 1));
  }

  lemma SomeBitIsSet(vars: seq<VarIndex>, bits: nat)
    requires 0 < bits <= 64 && vars != [] && NonZero(vars)
    requires forall k :: 0 <= k < |vars| ==> Below(vars[k].scale, bits)
    ensures ScaleBits(vars) > 0
    ensures ScaleBits(vars) % Pow2(bits) != 0
  {
    hide Cong, Wrap, Pow2, ScaleBits;
    ScaleBitsDivisible(vars, bits);
    NotCong(vars[0].scale, 0, Pow2(bits));
    NoRemainder(Pow2(bits));
  }

  lemma NoRemainder(m: nat)
    requires m > 0
    ensures 0 % m == 0
  {
  }

  lemma PlaceIsLow(vars: seq<VarIndex>, bits: nat)
    requires ScaleBits(vars) > 0 && ScaleBits(vars) % Pow2(bits) != 0 && bits <= 64
    ensures LowestPlace(ScaleBits(vars)) < bits
  {
    hide Cong;
    var x, place := ScaleBits(vars), LowestPlace(ScaleBits(vars));
    LowestBitIsPower(x);
    if place >= bits {
      CongZero(x, Pow2(place));
      CongNarrow(x, 0, place, bits);
      CongZero(x, Pow2(bits));
    }
  }

  /** What divides every scale divides every sum. */
  lemma {:induction false} SumDivisible(vars: seq<VarIndex>, m: nat, rho: Valuation)
    requires forall k :: 0 <= k < |vars| ==> Cong(vars[k].scale, 0, m)
    ensures Cong(VarSum(vars, rho), 0, m)
    decreases |vars|
  {
    hide Cong, VarValue;
    if vars == [] {
      CongRefl(0, m);
    } else {
      var x := vars[|vars| - 1];
      SumDivisible(vars[..|vars| - 1], m, rho);
      CongScale(x.scale, 0, VarValue(x, rho), m);
      CongAdd(VarSum(vars[..|vars| - 1], rho), 0, x.scale * VarValue(x, rho), 0 * VarValue(x, rho), m);
    }
  }

  const UNKNOWNSIZE: nat := 0xFFFF_FFFF_FFFF_FFFF

  /** The two accesses lie in different places of the period of all scales. */
  predicate ModuloFires(modulo: nat, baseOffset: int, size1: nat, size2: nat)
    requires modulo > 0
  {
    var modOffset := BitAnd(Wrap(baseOffset, 64), modulo - 1);
    size1 != UNKNOWNSIZE && size2 != UNKNOWNSIZE && modOffset >= size2 && size1 <= modulo - modOffset
  }

  /** If the test fires, the accesses are disjoint for every assignment to any number of index
      variables, on the whole address circle. */
  lemma ModuloTestIsSound(vars: seq<VarIndex>, modulo: nat, place: nat, baseOffset: int, size1: nat, size2: nat, bits: nat,
                          rho: Valuation)
    requires 0 < bits <= 64 && LargestModulo(vars, modulo, place, bits) && ModuloFires(modulo, baseOffset, size1, size2)
    ensures Disjoint(baseOffset + VarSum(vars, rho), size1, 0, size2, bits)
  {
    hide Cong, VarSum, Pow2, Wrap, ModuloFires;
    SumDivisible(vars, modulo, rho);
    ModuloKeepsApart(place, baseOffset, VarSum(vars, rho), size1, size2, bits);
  }

  lemma ModuloKeepsApart(place: nat, baseOffset: int, sum: int, size1: nat, size2: nat, bits: nat)
    requires place <= bits <= 64 && Cong(sum, 0, Pow2(place)) && ModuloFires(Pow2(place), baseOffset, size1, size2)
    ensures Disjoint(baseOffset + sum, size1, 0, size2, bits)
  {
    hide Cong, Pow2, Wrap;
    var d, modulo := baseOffset + sum, Pow2(place);
    var mo := BitAnd(Wrap(baseOffset, 64), modulo - 1);
    ModOffset(place, baseOffset, sum);
    forall t1, t2 | 0 <= t1 < size1 && 0 <= t2 < size2 ensures !SameByte(d, t1, 0, t2, bits) {
      if SameByte(d, t1, 0, t2, bits) {
        CongNarrow(d + t1, t2, bits, place);
        CongRefl(t1, modulo);
        CongAdd(mo, d, t1, t1, modulo);
        CongTrans(mo + t1, d + t1, t2, modulo);
        CongClose(mo + t1, t2, modulo);
      }
    }
  }

  lemma ModOffset(place: nat, baseOffset: int, sum: int)
    requires place <= 64 && Cong(sum, 0, Pow2(place))
    ensures Cong(BitAnd(Wrap(baseOffset, 64), Pow2(place) - 1), baseOffset + sum, Pow2(place))
  {
    hide Cong, Wrap, BitAnd;
    var m, x := Pow2(place), Wrap(baseOffset, 64);
    MaskIsRemainder(x, place);
    CongMod(x, m);
    WrapCong(baseOffset, 64);
    CongNarrow(x, baseOffset, 64, place);
    CongTrans(x % m, x, baseOffset, m);
    CongSym(sum, 0, m);
    CongAdd(x % m, baseOffset, 0, sum, m);
  }

  // ---- The constant-offset heuristic ----

  function Abs(x: int): nat {
    if x < 0 then 0 - x else x
  }

  function Min(a: nat, b: nat): nat {
    if a < b then a else b
  }

  /** The least distance two numbers can have that differ by `d` modulo 2^w. */
  function LeastDistance(d: int, w: nat): nat {
    Min(Wrap(d, w), Wrap(0 - d, w))
  }

  lemma LeastDistanceIsLeast(x: int, y: int, d: int, w: nat)
    requires Cong(x - y, d, Pow2(w))
    ensures Abs(x - y) >= LeastDistance(d, w)
  {
    hide Cong;
    var m := Pow2(w);
    if x >= y {
      AtLeastRemainder(x - y, d, m);
    } else {
      CongRefl(0, m);
      CongSub(0, 0, x - y, d, m);
      AtLeastRemainder(y - x, 0 - d, m);
    }
  }

  lemma AtLeastRemainder(x: nat, d: int, m: nat)
    requires m > 0 && Cong(x, d, m)
    ensures x >= d % m
  {
    hide Cong;
    CongMod(d, m);
    CongTrans(x, d, d % m, m);
    if x < d % m {
      CongClose(x, d % m, m);
    }
  }

  /** The two variables are scaled oppositely, extended alike and differ only by a constant.  (The
      second round is made in the width of the second variable.  If the first is wider, the numbers
      do not fit together; its variable is another one in any case.) */
  predicate DifferByConstant(vars: seq<VarIndex>, unstable: set<TypedExpr>) {
    && |vars| == 2
    && vars[0].zext == vars[1].zext && vars[0].sext == vars[1].sext
    && vars[0].scale == Signed(0 - vars[1].scale, 64)
    && var w := Width(vars[1].v);
       && Width(vars[0].v) <= w
       && var r0, r1 := GetLinear(vars[0].v, w, 0, START), GetLinear(vars[1].v, w, 0, START);
          && r0.s.scale == r1.s.scale && r0.s.zext == r1.s.zext && r0.s.sext == r1.s.sext
          && SameInEveryCycle(r0.v, r1.v, unstable)
  }

  /** The two variables differ only by a constant, and that keeps the accesses apart. */
  predicate OffsetHeuristic(vars: seq<VarIndex>, size1: nat, size2: nat, baseOffset: int, unstable: set<TypedExpr>) {
    && size1 != UNKNOWNSIZE && size2 != UNKNOWNSIZE && DifferByConstant(vars, unstable)
    && var w := Width(vars[1].v);
       var r0, r1 := GetLinear(vars[0].v, w, 0, START), GetLinear(vars[1].v, w, 0, START);
       var gap := Wrap(LeastDistance(r0.s.offset - r1.s.offset, w) * Abs(vars[0].scale), 64);
       Wrap(size1 + Abs(baseOffset), 64) <= gap && Wrap(size2 + Abs(baseOffset), 64) <= gap
  }

  method ConstantOffsetHeuristic(vars: seq<VarIndex>, size1: nat, size2: nat, baseOffset: int, unstable: set<TypedExpr>)
    returns (apart: bool)
    ensures apart == OffsetHeuristic(vars, size1, size2, baseOffset, unstable)
  {
    hide GetLinear, Wrap, Signed, Pow2;
    if |vars| != 2 || size1 == UNKNOWNSIZE || size2 == UNKNOWNSIZE {
      return false;
    }
    var var0, var1 := vars[0], vars[1];
    if var0.zext != var1.zext || var0.sext != var1.sext || var0.scale != Signed(0 - var1.scale, 64) {
      return false;
    }
    var width := Width(var1.v);
    if Width(var0.v) > width {
      return false;
    }
    var v0, v0Scale, v0Offset, v0ZExt, v0SExt, _, _ := GetLinearExpression(var0.v, 0, 0, 0, 0, width, 0, true, true);
    var v1, v1Scale, v1Offset, v1ZExt, v1SExt, _, _ := GetLinearExpression(var1.v, 0, 0, 0, 0, width, 0, true, true);
    if v0Scale != v1Scale || v0ZExt != v1ZExt || v0SExt != v1SExt || !SameInEveryCycle(v0, v1, unstable) {
      return false;
    }
    var difference := v0Offset as int - v1Offset as int;
    var minDiff := Wrap(difference, width);
    var wrapped := Wrap(0 - difference, width);
    minDiff := Min(minDiff, wrapped);
    var minDiffBytes := Wrap(minDiff * Abs(var0.scale), 64);
    apart := Wrap(size1 + Abs(baseOffset), 64) <= minDiffBytes && Wrap(size2 + Abs(baseOffset), 64) <= minDiffBytes;
  }

  /** Both variables as numbers: their difference is the difference of the two offsets, modulo
      the width of the sums inside. */
  lemma VariablesDiffer(a: VarIndex, b: VarIndex, rho: Valuation)
    requires Width(a.v) == Width(b.v) && Defined(a.v, rho) && Defined(b.v, rho)
    requires Readable(a.v, Width(a.v), 0) && Readable(b.v, Width(b.v), 0)
    requires var r0, r1 := GetLinear(a.v, Width(b.v), 0, START), GetLinear(b.v, Width(b.v), 0, START);
             r0.s.scale == r1.s.scale && r0.v == r1.v && r0.s.sext == r1.s.sext
    ensures var r0, r1 := GetLinear(a.v, Width(b.v), 0, START), GetLinear(b.v, Width(b.v), 0, START);
            Cong(VarValue(a, rho) - VarValue(b, rho), r0.s.offset - r1.s.offset, Pow2(Width(b.v)))
  {
    hide Cong, GetLinear, Eval, Defined, Wrap, Signed, Pow2, VarValue, Readable, SignExtended;
    var w := Width(b.v);
    var r0, r1, m := GetLinear(a.v, w, 0, START), GetLinear(b.v, w, 0, START), Pow2(w);
    LinearIsAffine(a.v, w, 0, rho);
    LinearIsAffine(b.v, w, 0, rho);
    CongSub(Eval(a.v, rho), AffineValue(r0, rho), Eval(b.v, rho), AffineValue(r1, rho), m);
    ExtensionKeepsLow(a, rho);
    ExtensionKeepsLow(b, rho);
    CongSub(VarValue(a, rho), Eval(a.v, rho), VarValue(b, rho), Eval(b.v, rho), m);
    CongTrans(VarValue(a, rho) - VarValue(b, rho), Eval(a.v, rho) - Eval(b.v, rho),
              AffineValue(r0, rho) - AffineValue(r1, rho), m);
  }

  lemma ExtensionKeepsLow(a: VarIndex, rho: Valuation)
    ensures Cong(VarValue(a, rho), Eval(a.v, rho), Pow2(Width(a.v)))
  {
    hide Cong, Eval, Wrap, Signed, Pow2;
    var x, w := Eval(a.v, rho), Width(a.v);
    if a.sext > 0 {
      SignedCong(x, w);
      WrapCong(Signed(x, w), w + a.sext);
      CongNarrow(Wrap(Signed(x, w), w + a.sext), Signed(x, w), w + a.sext, w);
      CongTrans(Wrap(Signed(x, w), w + a.sext), Signed(x, w), x, Pow2(w));
    } else {
      CongRefl(x, Pow2(w));
    }
  }

  /** The exact distance of the two accesses leaves room for both. */
  predicate Apart(d: int, size1: nat, size2: nat) {
    d >= size2 || 0 - d >= size1
  }

  /** Two entries, scaled oppositely, as one product. */
  lemma OppositeTerms(vars: seq<VarIndex>, rho: Valuation)
    requires |vars| == 2 && vars[0].scale == 0 - vars[1].scale
    ensures VarSum(vars, rho) == vars[0].scale * (VarValue(vars[0], rho) - VarValue(vars[1], rho))
  {
    hide VarValue;
    assert vars[..1] == [vars[0]] && vars[..1][..0] == [];
    assert VarSum([vars[0]], rho) == Term(vars[0], rho);
    Opposite(vars[0].scale, VarValue(vars[0], rho), VarValue(vars[1], rho));
  }

  lemma Opposite(s: int, x: int, y: int)
    ensures s * x + (0 - s) * y == s * (x - y)
  {
  }

  lemma ProductGrows(a: nat, b: nat, c: nat)
    requires a <= b
    ensures c * a <= c * b && a * c <= b * c
  {
  }

  lemma AbsProduct(a: int, b: int)
    ensures Abs(a * b) == Abs(a) * Abs(b)
  {
  }

  lemma WrapIsLess(x: nat, w: nat)
    ensures Wrap(x, w) <= x
    ensures x < Pow2(w) ==> Wrap(x, w) == x
  {
    hide Pow2;
    AtLeastRemainder(x, x, Pow2(w)) by { CongRefl(x, Pow2(w)); }
    if x < Pow2(w) {
      WrapSmall(x, w);
    }
  }

  /** Every sign extension inside the variables can be read. */
  predicate ReadableVars(vars: seq<VarIndex>) {
    forall k :: 0 <= k < |vars| ==> Readable(vars[k].v, Width(vars[k].v), 0)
  }

  /** Whenever the heuristic answers, then for every value of the shared variable, wrapping of the
      narrow sums included, the exact distance of the accesses leaves room for both. */
  lemma {:induction false} HeuristicKeepsApart(vars: seq<VarIndex>, size1: nat, size2: nat, baseOffset: int,
                                               unstable: set<TypedExpr>, rho: Valuation)
    requires OffsetHeuristic(vars, size1, size2, baseOffset, unstable)
    requires ReadableVars(vars) && DefinedVars(vars, rho)
    requires vars[0].scale == 0 - vars[1].scale
    requires size1 + Abs(baseOffset) < Pow2(64) && size2 + Abs(baseOffset) < Pow2(64)
    ensures Apart(baseOffset + VarSum(vars, rho), size1, size2)
  {
    hide Cong, GetLinear, Defined, Signed, Pow2, VarValue, Wrap, VarSum, Readable;
    HeuristicHasTwo(vars, unstable);
    var w := Width(vars[1].v);
    var r0, r1 := GetLinear(vars[0].v, w, 0, START), GetLinear(vars[1].v, w, 0, START);
    var x, y, s := VarValue(vars[0], rho), VarValue(vars[1], rho), vars[0].scale;
    VariablesDiffer(vars[0], vars[1], rho);
    LeastDistanceIsLeast(x, y, r0.s.offset - r1.s.offset, w);
    OppositeTerms(vars, rho);
    AbsProduct(s, x - y);
    var least := LeastDistance(r0.s.offset - r1.s.offset, w);
    ProductGrows(least, Abs(x - y), Abs(s));
    WrapIsLess(least * Abs(s), 64);
    WrapIsLess(size1 + Abs(baseOffset), 64);
    WrapIsLess(size2 + Abs(baseOffset), 64);
  }

  /** Variables that differ by a constant are equally wide. */
  lemma HeuristicHasTwo(vars: seq<VarIndex>, unstable: set<TypedExpr>)
    requires DifferByConstant(vars, unstable)
    ensures |vars| == 2 && Width(vars[0].v) == Width(vars[1].v)
  {
    hide GetLinear, Wrap, Signed, Width;
    var w := Width(vars[1].v);
    LinearWidth(vars[0].v, w, 0, START);
    LinearWidth(vars[1].v, w, 0, START);
  }

  lemma Pow2Of64()
    ensures Pow2(64) == 0x1_0000_0000_0000_0000 && Pow2(63) == 0x8000_0000_0000_0000
  {
    hide Pow2;
    Pow2Of8();
    Pow2Adds(8, 8);
    Pow2Adds(16, 16);
    Pow2Adds(32, 32);
    Pow2Next(63);
  }

  lemma Pow2Of8()
    ensures Pow2(8) == 256 && Pow2(5) == 32
  {
    assert Pow2(4) == 16;
  }

  lemma CounterexampleFires(e: TypedExpr, x: TypedExpr, c: nat)
    requires x == Opaque(0, 64) && c == 0x3FFF_FFFF_FFFF_FFFF && e == Bin(1, AddOp, x, c, false, false, false)
    ensures OffsetHeuristic([VarIndex(e, 0, 0, 4), VarIndex(x, 0, 0, -4)], 8, 8, 0, {})
  {
    hide Cong, Pow2, Wrap;
    Pow2Of64();
    WrapSmall(c, 64);
    WrapSmall(4 * c, 64);
    WrapSmall(8, 64);
    WrapOfNegative(c);
    assert GetLinear(x, 64, 0, START) == Give(x, START);
    assert GetLinear(x, 64, 1, START) == Give(x, START);
    assert GetLinear(e, 64, 0, START).s.offset == c;
    assert LeastDistance(c, 64) == c;
    SignedUnique(4, 4, 64) by { CongRefl(4, Pow2(64)); }
  }

  lemma WrapOfNegative(c: nat)
    requires c == 0x3FFF_FFFF_FFFF_FFFF
    ensures Wrap(0 - c, 64) >= c
  {
    hide Cong, Pow2;
    Pow2Of64();
    var m := Pow2(64);
    CongBy(m - c, 0 - c, 1, m);
    WrapCong(0 - c, 64);
    CongTrans(m - c, 0 - c, Wrap(0 - c, 64), m);
    CongClose(m - c, Wrap(0 - c, 64), m);
  }

  lemma CounterexampleSum(vars: seq<VarIndex>, rho: Valuation)
    requires var x, c := Opaque(0, 64), 0x3FFF_FFFF_FFFF_FFFF;
             var e := Bin(1, AddOp, x, c, false, false, false);
             Typed(e) && vars == [VarIndex(e, 0, 0, 4), VarIndex(x, 0, 0, -4)]
    requires rho == map[0 := 0]
    ensures VarSum(vars, rho) == Pow2(64) - 4
  {
    hide Cong, Pow2, Wrap;
    Pow2Of64();
    OppositeTerms(vars, rho);
    WrapSmall(0, 64);
    WrapSmall(0x3FFF_FFFF_FFFF_FFFF, 64);
  }
}
