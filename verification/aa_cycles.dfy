/** Answers to alias queries about pointers that are looked at in different iterations of a loop. */
module AliasCycles {
  import opened MachineArithmetic
  import opened LinearExpressions
  import opened GepDecomposition
  import opened AddressCircle
  import opened GepAliasing
  import opened OffsetHeuristics
  import opened AliasAnswers

  /** Two iterations have the same values, but for those that are unstable. */
  ghost predicate Agree(unstable: set<TypedExpr>, rho: Valuation, sigma: Valuation) {
    forall e: TypedExpr :: e !in unstable ==> Eval(e, rho) == Eval(e, sigma)
  }

  function At(first: bool, rho: Valuation, sigma: Valuation): Valuation {
    if first then rho else sigma
  }

  /** The sum of variables of which some are looked at in the first and some in the second
      iteration. */
  function MixedSum(vars: seq<VarIndex>, side: seq<bool>, rho: Valuation, sigma: Valuation): int
    requires |side| == |vars|
  {
    if vars == [] then 0
    else Term(vars[0], At(side[0], rho, sigma)) + MixedSum(vars[1..], side[1..], rho, sigma)
  }

  predicate DefinedMixed(vars: seq<VarIndex>, side: seq<bool>, rho: Valuation, sigma: Valuation)
    requires |side| == |vars|
  {
    forall k :: 0 <= k < |vars| ==> Defined(vars[k].v, At(side[k], rho, sigma))
  }

  lemma {:induction false} AllFirst(vars: seq<VarIndex>, rho: Valuation, sigma: Valuation)
    ensures MixedSum(vars, seq(|vars|, _ => true), rho, sigma) == VarSum(vars, rho)
    decreases |vars|
  {
    hide Term;
    if vars != [] {
      AllFirst(vars[1..], rho, sigma);
      FirstTerm(vars, rho);
      assert seq(|vars|, _ => true)[1..] == seq(|vars[1..]|, _ => true);
    }
  }

  lemma AllFirstDefined(vars: seq<VarIndex>, rho: Valuation, sigma: Valuation)
    requires DefinedVars(vars, rho)
    ensures DefinedMixed(vars, seq(|vars|, _ => true), rho, sigma)
  {
    hide Defined;
  }

  lemma {:induction false} FirstTerm(vars: seq<VarIndex>, rho: Valuation)
    requires vars != []
    ensures VarSum(vars, rho) == Term(vars[0], rho) + VarSum(vars[1..], rho)
    decreases |vars|
  {
    hide Term;
    var n := |vars| - 1;
    if n > 0 {
      FirstTerm(vars[..n], rho);
      assert vars[..n][1..] == vars[1..][..n - 1];
    } else {
      assert vars[..0] == [] && vars[1..] == [];
    }
  }

  // ---- The symbolic difference ----

  /** Where the entries of the difference come from. */
  function SidesLess(dest: seq<VarIndex>, side: seq<bool>, x: VarIndex, unstable: set<TypedExpr>): (r: seq<bool>)
    requires |side| == |dest|
    ensures |r| == |LessOne(dest, x, unstable)|
  {
    if dest == [] then
      if x.scale == 0 then [] else [false]
    else if !Matches(dest[0], x, unstable) then [side[0]] + SidesLess(dest[1..], side[1..], x, unstable)
    else if dest[0].scale == x.scale then side[1..]
    else side
  }

  lemma MixedFirst(y: VarIndex, b: bool, rest: seq<VarIndex>, sides: seq<bool>, rho: Valuation, sigma: Valuation)
    requires |sides| == |rest|
    ensures MixedSum([y] + rest, [b] + sides, rho, sigma) == Term(y, At(b, rho, sigma)) + MixedSum(rest, sides, rho, sigma)
    ensures DefinedMixed([y] + rest, [b] + sides, rho, sigma)
            <==> Defined(y.v, At(b, rho, sigma)) && DefinedMixed(rest, sides, rho, sigma)
  {
    hide Term, Defined;
    var vars, side := [y] + rest, [b] + sides;
    assert vars[1..] == rest && side[1..] == sides && vars[0] == y && side[0] == b;
    if DefinedMixed(vars, side, rho, sigma) {
      forall k | 0 <= k < |rest| ensures Defined(rest[k].v, At(sides[k], rho, sigma)) {
        assert vars[k + 1] == rest[k] && side[k + 1] == sides[k];
      }
    }
  }

  lemma MixedNone(rho: Valuation, sigma: Valuation)
    ensures MixedSum([], [], rho, sigma) == 0 && DefinedMixed([], [], rho, sigma)
  {
  }

  /** One entry has been subtracted. */
  ghost predicate LessBy(dest': seq<VarIndex>, side': seq<bool>, dest: seq<VarIndex>, side: seq<bool>, x: VarIndex,
                         rho: Valuation, sigma: Valuation)
    requires |side| == |dest| && |side'| == |dest'|
  {
    && Cong(MixedSum(dest', side', rho, sigma), MixedSum(dest, side, rho, sigma) - Term(x, sigma), Pow2(64))
    && (DefinedMixed(dest, side, rho, sigma) && Defined(x.v, sigma) ==> DefinedMixed(dest', side', rho, sigma))
  }

  lemma LessBySkipping(dest': seq<VarIndex>, side': seq<bool>, dest: seq<VarIndex>, side: seq<bool>, x: VarIndex,
                       y: VarIndex, b: bool, rho: Valuation, sigma: Valuation)
    requires |side| == |dest| && |side'| == |dest'| && LessBy(dest', side', dest, side, x, rho, sigma)
    ensures LessBy([y] + dest', [b] + side', [y] + dest, [b] + side, x, rho, sigma)
  {
    hide Cong, Term, Pow2, Defined, MixedSum, DefinedMixed;
    MixedFirst(y, b, dest', side', rho, sigma);
    MixedFirst(y, b, dest, side, rho, sigma);
    var t := Term(y, At(b, rho, sigma));
    CongRefl(t, Pow2(64));
    CongAdd(t, t, MixedSum(dest', side', rho, sigma), MixedSum(dest, side, rho, sigma) - Term(x, sigma), Pow2(64));
  }

  lemma LessByNew(x: VarIndex, rho: Valuation, sigma: Valuation)
    ensures x.scale == 0 ==> LessBy([], [], [], [], x, rho, sigma)
    ensures LessBy([x.(scale := Signed(0 - x.scale, 64))], [false], [], [], x, rho, sigma)
  {
    hide Cong, Term, Pow2, Defined, MixedSum, DefinedMixed, Signed;
    MixedNone(rho, sigma);
    var y := x.(scale := Signed(0 - x.scale, 64));
    MixedFirst(y, false, [], [], rho, sigma);
    assert [y] + [] == [y] && [false] + [] == [false];
    NegatedTerm(x, sigma);
    if x.scale == 0 {
      NoTerm(x, sigma);
      CongRefl(0, Pow2(64));
    }
  }

  lemma LessByMatch(rest: seq<VarIndex>, sides: seq<bool>, y: VarIndex, b: bool, x: VarIndex, unstable: set<TypedExpr>,
                    rho: Valuation, sigma: Valuation)
    requires |sides| == |rest| && Matches(y, x, unstable) && Agree(unstable, rho, sigma)
    ensures y.scale == x.scale ==> LessBy(rest, sides, [y] + rest, [b] + sides, x, rho, sigma)
    ensures LessBy([y.(scale := Signed(y.scale - x.scale, 64))] + rest, [b] + sides, [y] + rest, [b] + sides, x, rho, sigma)
  {
    hide Cong, Term, Pow2, Defined, MixedSum, DefinedMixed, Signed, Matches, Agree;
    var z, s, m := y.(scale := Signed(y.scale - x.scale, 64)), MixedSum(rest, sides, rho, sigma), Pow2(64);
    MatchedTerm(y, At(b, rho, sigma), x, unstable, rho, sigma);
    MixedFirst(y, b, rest, sides, rho, sigma);
    MixedFirst(z, b, rest, sides, rho, sigma);
    CongRefl(s, m);
    CongAdd(Term(z, At(b, rho, sigma)), Term(y, At(b, rho, sigma)) - Term(x, sigma), s, s, m);
  }

  /** An entry is subtracted from only if it is the same value in both iterations. */
  lemma {:induction false} LessOneMixed(dest: seq<VarIndex>, side: seq<bool>, x: VarIndex, unstable: set<TypedExpr>,
                                        rho: Valuation, sigma: Valuation)
    requires |side| == |dest| && Agree(unstable, rho, sigma)
    ensures LessBy(LessOne(dest, x, unstable), SidesLess(dest, side, x, unstable), dest, side, x, rho, sigma)
    decreases |dest|
  {
    hide LessBy, Agree, Matches, Signed;
    if dest == [] {
      LessByNew(x, rho, sigma);
    } else {
      assert dest == [dest[0]] + dest[1..] && side == [side[0]] + side[1..];
      if Matches(dest[0], x, unstable) {
        LessByMatch(dest[1..], side[1..], dest[0], side[0], x, unstable, rho, sigma);
      } else {
        LessOneMixed(dest[1..], side[1..], x, unstable, rho, sigma);
        LessBySkipping(LessOne(dest[1..], x, unstable), SidesLess(dest[1..], side[1..], x, unstable), dest[1..], side[1..], x,
                       dest[0], side[0], rho, sigma);
      }
    }
  }

  lemma NoTerm(x: VarIndex, rho: Valuation)
    requires x.scale == 0
    ensures Term(x, rho) == 0
  {
    hide VarValue;
  }

  lemma NegatedTerm(x: VarIndex, rho: Valuation)
    ensures Cong(Term(x.(scale := Signed(0 - x.scale, 64)), rho), 0 - Term(x, rho), Pow2(64))
  {
    hide Cong, VarValue, Pow2, Signed;
    var y := x.(scale := Signed(0 - x.scale, 64));
    SameValue(x, y, rho);
    SignedCong(0 - x.scale, 64);
    CongScale(y.scale, 0 - x.scale, VarValue(x, rho), Pow2(64));
    Subtract(0, x.scale, VarValue(x, rho));
  }

  lemma MatchedTerm(y: VarIndex, tau: Valuation, x: VarIndex, unstable: set<TypedExpr>, rho: Valuation, sigma: Valuation)
    requires Matches(y, x, unstable) && Agree(unstable, rho, sigma) && (tau == rho || tau == sigma)
    ensures y.scale == x.scale ==> Term(y, tau) == Term(x, sigma)
    ensures Cong(Term(y.(scale := Signed(y.scale - x.scale, 64)), tau), Term(y, tau) - Term(x, sigma), Pow2(64))
  {
    hide Cong, Pow2, Signed;
    assert Eval(y.v, rho) == Eval(y.v, sigma);
    var z, v := y.(scale := Signed(y.scale - x.scale, 64)), VarValue(y, tau);
    assert VarValue(z, tau) == v && VarValue(x, sigma) == v;
    hide VarValue;
    SignedCong(y.scale - x.scale, 64);
    CongScale(z.scale, y.scale - x.scale, v, Pow2(64));
    Subtract(y.scale, x.scale, v);
  }

  lemma {:induction false} LessMixed(dest: seq<VarIndex>, src: seq<VarIndex>, unstable: set<TypedExpr>,
                                     rho: Valuation, sigma: Valuation) returns (side: seq<bool>)
    requires Agree(unstable, rho, sigma) && DefinedVars(dest, rho) && DefinedVars(src, sigma)
    ensures |side| == |Less(dest, src, unstable)| && DefinedMixed(Less(dest, src, unstable), side, rho, sigma)
    ensures Cong(MixedSum(Less(dest, src, unstable), side, rho, sigma), VarSum(dest, rho) - VarSum(src, sigma), Pow2(64))
    decreases |src|
  {
    hide Cong, Term, Pow2, Defined, Agree, MixedSum, LessOne, SidesLess, DefinedMixed;
    var m := Pow2(64);
    if src == [] {
      side := seq(|dest|, _ => true);
      AllFirst(dest, rho, sigma);
      AllFirstDefined(dest, rho, sigma);
      CongRefl(VarSum(dest, rho), m);
    } else {
      var n := |src| - 1;
      var before := LessMixed(dest, src[..n], unstable, rho, sigma);
      var less := Less(dest, src[..n], unstable);
      LessOneMixed(less, before, src[n], unstable, rho, sigma);
      side := SidesLess(less, before, src[n], unstable);
      CongRefl(Term(src[n], sigma), m);
      CongSub(MixedSum(less, before, rho, sigma), VarSum(dest, rho) - VarSum(src[..n], sigma),
              Term(src[n], sigma), Term(src[n], sigma), m);
      CongTrans(MixedSum(LessOne(less, src[n], unstable), side, rho, sigma), MixedSum(less, before, rho, sigma) - Term(src[n], sigma),
                VarSum(dest, rho) - VarSum(src[..n], sigma) - Term(src[n], sigma), m);
    }
  }

  // ---- The difference of the addresses ----

  /** The first address in one iteration is the second address in the other, moved by the offset and
      the variables, each looked at in one of the iterations. */
  ghost predicate DifferenceAcross(p1: Ptr, rho: Valuation, p2: Ptr, sigma: Valuation, bits: nat, d: int, vars: seq<VarIndex>,
                                   side: seq<bool>, bases: Bases)
  {
    && |side| == |vars| && DefinedMixed(vars, side, rho, sigma)
    && Cong(Address(p1, bits, rho, bases) - Address(p2, bits, sigma, bases), d + MixedSum(vars, side, rho, sigma), Pow2(bits))
  }

  lemma DifferenceIsMixed(p1: Ptr, p2: Ptr, bits: nat, unstable: set<TypedExpr>, rho: Valuation, sigma: Valuation, bases: Bases)
    returns (side: seq<bool>)
    requires 0 < bits <= 64 && PlainPtr(p1, bits) && PlainPtr(p2, bits) && SameBase(p1, p2, bits)
    requires DefinedPtr(p1, rho) && DefinedPtr(p2, sigma) && Agree(unstable, rho, sigma)
    ensures DifferenceAcross(p1, rho, p2, sigma, bits, OffsetBetween(p1, p2, bits), VarsBetween(p1, p2, bits, unstable), side, bases)
  {
    hide Pow2, Decompose, PlainPtr, SExtFreePtr, WideVars, TidyVars, Less, Signed, StopsEarly, DefinedPtr, Agree, Cong, MixedSum,
         DefinedMixed, VarSum, Defined;
    var d1, d2 := Decompose(p1, bits), Decompose(p2, bits);
    DecomposeIsExact(p1, bits);
    DecomposeIsExact(p2, bits);
    var o1, o2 := d1.structOffset + d1.otherOffset, d2.structOffset + d2.otherOffset;
    assert TracksAt(p1, bits, d1.base, [], o1, d1.vars, rho, bases);
    assert TracksAt(p2, bits, d2.base, [], o2, d2.vars, sigma, bases);
    side := LessMixed(d1.vars, d2.vars, unstable, rho, sigma);
    var b := Address(d1.base, bits, rho, bases);
    assert b == Address(d2.base, bits, sigma, bases);
    SubtractMixed(Address(p1, bits, rho, bases), Address(p2, bits, sigma, bases), b, o1, o2, VarSum(d1.vars, rho),
                  VarSum(d2.vars, sigma), MixedSum(VarsBetween(p1, p2, bits, unstable), side, rho, sigma), bits);
  }

  lemma SubtractMixed(a1: int, a2: int, b: int, o1: int, o2: int, s1: int, s2: int, s: int, bits: nat)
    requires bits <= 64 && Cong(a1, b + 0 + o1 + s1, Pow2(bits)) && Cong(a2, b + 0 + o2 + s2, Pow2(bits))
    requires Cong(s, s1 - s2, Pow2(64))
    ensures Cong(a1 - a2, Signed(Signed(o1, 64) - Signed(o2, 64), 64) + s, Pow2(bits))
  {
    hide Cong, Signed, Pow2;
    var m, offset := Pow2(bits), Signed(Signed(o1, 64) - Signed(o2, 64), 64);
    CongSub(a1, b + 0 + o1 + s1, a2, b + 0 + o2 + s2, m);
    OffsetsDiffer(o1, o2, bits);
    CongNarrow(s, s1 - s2, 64, bits);
    CongSym(s, s1 - s2, m);
    CongAdd(o1 - o2, offset, s1 - s2, s, m);
    CongTrans(a1 - a2, (o1 - o2) + (s1 - s2), offset + s, m);
  }

  // ---- The answers ----

  /** For pointers of any width, looked at in the same or in different iterations, for every valuation
      without poison and every placement of the bases: an answer by a constant distance holds exactly
      under the condition above, an answer by the modulo test always, an answer by the heuristic when
      every difference leaves room. */
  lemma {:induction false} AliasAnswerHolds(p1: Ptr, size1: nat, n1: nat, p2: Ptr, size2: nat, n2: nat, bits: nat,
                                            unstable: set<TypedExpr>, rho: Valuation, sigma: Valuation, bases: Bases)
    requires 0 < bits <= 64 && PlainPtr(p1, bits) && PlainPtr(p2, bits) && Agree(unstable, rho, sigma)
    requires DefinedPtr(p1, rho) && DefinedPtr(p2, sigma) && Accesses(size1, n1) && Accesses(size2, n2)
    ensures var r := AliasAnswer(p1, size1, p2, size2, bits, unstable);
            var d, vars := OffsetBetween(p1, p2, bits), VarsBetween(p1, p2, bits, unstable);
            var holds := AnswerHolds(r, Address(p1, bits, rho, bases), n1, Address(p2, bits, sigma, bases), n2, bits);
            match AliasReason(p1, size1, p2, size2, bits, unstable)
            case Nothing => r == MayAlias && holds
            case Distance => vars == [] && (holds <==> ConstantRight(r, d, n1, n2, bits))
                             && (r == MustAlias <==> d == 0)
                             && (r == MayAlias ==> d != 0 && (size2 == UNKNOWNSIZE || (d < 0 && size1 == UNKNOWNSIZE)))
            case Modulo => r == NoAlias && holds
            case Heuristic => r == NoAlias && SameForm(vars, bits)
                              && (SExtFreePtr(p1) && SExtFreePtr(p2) ==> ReadableVars(vars) && ExtendedOnce(vars, bits))
                              && (ReadableVars(vars) && ExtendedOnce(vars, bits) && HeuristicRight(vars, d, size1, size2, bits)
                                  ==> holds)
  {
    hide Pow2, Decompose, PlainPtr, SExtFreePtr, Less, Signed, StopsEarly, DefinedPtr, OffsetHeuristic, ModuloOf, Agree,
         ModuloFires, ConstantRight, ConstantAnswer, SameBase, VarsBetween, OffsetBetween, AnswerHolds, Address, DifferenceAcross,
         HeuristicRight, Width, ReadableVars, ExtendedOnce, WideVars, SameForm;
    var d, vars := OffsetBetween(p1, p2, bits), VarsBetween(p1, p2, bits, unstable);
    var a1, a2 := Address(p1, bits, rho, bases), Address(p2, bits, sigma, bases);
    if SameBase(p1, p2, bits) {
      var side := DifferenceIsMixed(p1, p2, bits, unstable, rho, sigma, bases);
      DifferenceIsTidy(p1, p2, bits, unstable);
      match AliasReason(p1, size1, p2, size2, bits, unstable)
      case Nothing => NoPromise(a1, n1, a2, n2, bits);
      case Distance =>
        NothingBetween(p1, p2, bits, d, side, rho, sigma, bases);
        ConstantAnswerHoldsIff(d, a1, size1, n1, a2, size2, n2, bits);
        Undecided(d, size1, size2);
      case Modulo => ModuloHolds(p1, size1, n1, p2, size2, n2, bits, d, vars, side, rho, sigma, bases);
      case Heuristic => HeuristicHolds(p1, size1, n1, p2, size2, n2, bits, d, vars, unstable, side, rho, sigma, bases);
    } else {
      NoPromise(a1, n1, a2, n2, bits);
    }
  }

  lemma NoPromise(a1: int, n1: nat, a2: int, n2: nat, bits: nat)
    ensures AnswerHolds(MayAlias, a1, n1, a2, n2, bits)
  {
  }

  lemma NothingBetween(p1: Ptr, p2: Ptr, bits: nat, d: int, side: seq<bool>, rho: Valuation, sigma: Valuation, bases: Bases)
    requires DifferenceAcross(p1, rho, p2, sigma, bits, d, [], side, bases)
    ensures Cong(Address(p1, bits, rho, bases) - Address(p2, bits, sigma, bases), d, Pow2(bits))
  {
    hide Cong, Address, Pow2;
  }

  /** What divides every scale divides every sum. */
  lemma {:induction false} MixedDivisible(vars: seq<VarIndex>, side: seq<bool>, m: nat, rho: Valuation, sigma: Valuation)
    requires |side| == |vars| && forall k :: 0 <= k < |vars| ==> Cong(vars[k].scale, 0, m)
    ensures Cong(MixedSum(vars, side, rho, sigma), 0, m)
    decreases |vars|
  {
    hide Cong, VarValue;
    if vars == [] {
      CongRefl(0, m);
    } else {
      var x, v := vars[0], VarValue(vars[0], At(side[0], rho, sigma));
      MixedDivisible(vars[1..], side[1..], m, rho, sigma);
      CongScale(x.scale, 0, v, m);
      CongAdd(x.scale * v, 0 * v, MixedSum(vars[1..], side[1..], rho, sigma), 0, m);
    }
  }

  lemma ModuloHolds(p1: Ptr, size1: nat, n1: nat, p2: Ptr, size2: nat, n2: nat, bits: nat, d: int, vars: seq<VarIndex>,
                    side: seq<bool>, rho: Valuation, sigma: Valuation, bases: Bases)
    requires 0 < bits <= 64 && DifferenceAcross(p1, rho, p2, sigma, bits, d, vars, side, bases)
    requires Accesses(size1, n1) && Accesses(size2, n2)
    requires vars != [] && NonZero(vars) && forall k :: 0 <= k < |vars| ==> Below(vars[k].scale, bits)
    requires ModuloOf(vars) > 0 && ModuloFires(ModuloOf(vars), d, size1, size2)
    ensures AnswerHolds(NoAlias, Address(p1, bits, rho, bases), n1, Address(p2, bits, sigma, bases), n2, bits)
  {
    hide Cong, Address, Pow2, ModuloOf, ModuloFires, Below, Disjoint, MixedSum, DefinedMixed;
    var place := ModuloIsLargest(vars, bits);
    KnownSizes(ModuloOf(vars), d, size1, n1, size2, n2);
    MixedDivisible(vars, side, Pow2(place), rho, sigma);
    var sum := MixedSum(vars, side, rho, sigma);
    ModuloKeepsApart(place, d, sum, size1, size2, bits);
    DisjointByDifference(Address(p1, bits, rho, bases), n1, Address(p2, bits, sigma, bases), n2, d + sum, bits);
  }

  lemma HeuristicHolds(p1: Ptr, size1: nat, n1: nat, p2: Ptr, size2: nat, n2: nat, bits: nat, d: int, vars: seq<VarIndex>,
                       unstable: set<TypedExpr>, side: seq<bool>, rho: Valuation, sigma: Valuation, bases: Bases)
    requires 0 < bits <= 64 && DifferenceAcross(p1, rho, p2, sigma, bits, d, vars, side, bases)
    requires Accesses(size1, n1) && Accesses(size2, n2) && Agree(unstable, rho, sigma)
    requires OffsetHeuristic(vars, size1, size2, d, unstable)
    ensures SameForm(vars, bits)
    ensures ReadableVars(vars) && ExtendedOnce(vars, bits) && HeuristicRight(vars, d, size1, size2, bits) ==>
              AnswerHolds(NoAlias, Address(p1, bits, rho, bases), n1, Address(p2, bits, sigma, bases), n2, bits)
  {
    hide Cong, Address, Pow2, OffsetHeuristic, Disjoint, MixedSum, PairSum, HeuristicRight, ReadableVars, ExtendedOnce, SameForm,
         Width, Agree, Defined;
    FiredDiffer(vars, size1, size2, d, unstable);
    DifferingIsSameForm(vars, unstable, bits);
    HeuristicSizes(vars, size1, size2, d, unstable);
    if ReadableVars(vars) && ExtendedOnce(vars, bits) && HeuristicRight(vars, d, size1, size2, bits) {
      var tau, ups := At(side[0], rho, sigma), At(side[1], rho, sigma);
      CommonIsStable(vars, size1, size2, d, unstable, rho, sigma);
      MixedPair(vars, side, rho, sigma);
      HeuristicWithRoom(vars, size1, size2, d, bits, tau, ups);
      DisjointByDifference(Address(p1, bits, rho, bases), n1, Address(p2, bits, sigma, bases), n2, d + PairSum(vars, tau, ups), bits);
    }
  }

  /** What the two variables have in common is the same in both iterations. */
  lemma CommonIsStable(vars: seq<VarIndex>, size1: nat, size2: nat, d: int, unstable: set<TypedExpr>, rho: Valuation, sigma: Valuation)
    requires OffsetHeuristic(vars, size1, size2, d, unstable) && Agree(unstable, rho, sigma)
    requires |vars| == 2 && Width(vars[0].v) == Width(vars[1].v)
    ensures Eval(Form(vars, 0).v, rho) == Eval(Form(vars, 0).v, sigma)
  {
    hide GetLinear, Eval, Width;
  }

  lemma MixedPair(vars: seq<VarIndex>, side: seq<bool>, rho: Valuation, sigma: Valuation)
    requires |side| == |vars| == 2
    ensures MixedSum(vars, side, rho, sigma) == PairSum(vars, At(side[0], rho, sigma), At(side[1], rho, sigma))
  {
    hide Term;
    assert vars[1..] == [vars[1]] && side[1..] == [side[1]];
    assert MixedSum([vars[1]], [side[1]], rho, sigma) == Term(vars[1], At(side[1], rho, sigma));
    PairOfTerms(vars, At(side[0], rho, sigma), At(side[1], rho, sigma));
  }

  lemma PairOfTerms(vars: seq<VarIndex>, tau: Valuation, ups: Valuation)
    requires |vars| == 2
    ensures PairSum(vars, tau, ups) == Term(vars[0], tau) + Term(vars[1], ups)
  {
    hide VarValue;
  }
}
