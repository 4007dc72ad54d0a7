/** The alias query for two pointers off the same base: its answer, and exactly when it holds. */
module AliasAnswers {
  import opened MachineArithmetic
  import opened LinearExpressions
  import opened GepDecomposition
  import opened AddressCircle
  import opened GepAliasing
  import opened OffsetHeuristics
  import opened NarrowIndices

  datatype AliasResult = NoAlias | MayAlias | PartialAlias | MustAlias

  // ---- The difference of two addresses ----

  /** The first address is the second, moved by the offset and the variables. */
  ghost predicate DifferenceAt(p1: Ptr, p2: Ptr, bits: nat, offset: int, vars: seq<VarIndex>, rho: Valuation, bases: Bases) {
    && DefinedVars(vars, rho)
    && Cong(Address(p1, bits, rho, bases) - Address(p2, bits, rho, bases), offset + VarSum(vars, rho), Pow2(bits))
  }

  lemma SubtractAt(p1: Ptr, p2: Ptr, base: Ptr, o1: int, v1: seq<VarIndex>, o2: int, v2: seq<VarIndex>, vars: seq<VarIndex>,
                   bits: nat, rho: Valuation, bases: Bases)
    requires TracksAt(p1, bits, base, [], o1, v1, rho, bases) && TracksAt(p2, bits, base, [], o2, v2, rho, bases)
    requires bits <= 64 && DifferenceOf(v1, v2, vars) && KeysFrom(vars, v1 + v2)
    ensures DifferenceAt(p1, p2, bits, Signed(Signed(o1, 64) - Signed(o2, 64), 64), vars, rho, bases)
  {
    hide Cong, Signed, VarSum, Pow2, Address, DefinedPtr, Defined, KeysFrom;
    DefinedKeys(vars, v1, v2, rho);
    var m := Pow2(bits);
    var b, s1, s2 := Address(base, bits, rho, bases), VarSum(v1, rho), VarSum(v2, rho);
    var a1: int, a2: int := Address(p1, bits, rho, bases), Address(p2, bits, rho, bases);
    CongSub(a1, b + 0 + o1 + s1, a2, b + 0 + o2 + s2, m);
    OffsetsDiffer(o1, o2, bits);
    assert Cong(VarSum(vars, rho), s1 - s2, Pow2(64));
    CongNarrow(VarSum(vars, rho), s1 - s2, 64, bits);
    CongSym(VarSum(vars, rho), s1 - s2, m);
    var offset := Signed(Signed(o1, 64) - Signed(o2, 64), 64);
    CongAdd(o1 - o2, offset, s1 - s2, VarSum(vars, rho), m);
    CongTrans(a1 - a2, (o1 - o2) + (s1 - s2), offset + VarSum(vars, rho), m);
  }

  lemma OffsetsDiffer(o1: int, o2: int, bits: nat)
    requires bits <= 64
    ensures Cong(o1 - o2, Signed(Signed(o1, 64) - Signed(o2, 64), 64), Pow2(bits))
  {
    hide Cong, Signed;
    SignedCong(o1, 64);
    SignedCong(o2, 64);
    CongSub(o1, Signed(o1, 64), o2, Signed(o2, 64), Pow2(64));
    SignedCong(Signed(o1, 64) - Signed(o2, 64), 64);
    CongTrans(o1 - o2, Signed(o1, 64) - Signed(o2, 64), Signed(Signed(o1, 64) - Signed(o2, 64), 64), Pow2(64));
    CongNarrow(o1 - o2, Signed(Signed(o1, 64) - Signed(o2, 64), 64), 64, bits);
  }

  lemma DefinedKeys(vars: seq<VarIndex>, v1: seq<VarIndex>, v2: seq<VarIndex>, rho: Valuation)
    requires KeysFrom(vars, v1 + v2) && DefinedVars(v1, rho) && DefinedVars(v2, rho)
    ensures DefinedVars(vars, rho)
  {
    hide Defined;
    forall k | 0 <= k < |vars| ensures Defined(vars[k].v, rho) {
      assert HasKey(v1 + v2, vars[k]);
      var j :| 0 <= j < |v1 + v2| && SameKey((v1 + v2)[j], vars[k]);
      assert Defined((v1 + v2)[j].v, rho);
    }
  }

  /** What holds of the variables of both lists holds of those of their difference. */
  lemma PlainKeys(vars: seq<VarIndex>, v1: seq<VarIndex>, v2: seq<VarIndex>, bits: nat)
    requires KeysFrom(vars, v1 + v2)
    ensures PlainVars(v1) && PlainVars(v2) ==> PlainVars(vars)
    ensures WideVars(v1, bits) && WideVars(v2, bits) ==> WideVars(vars, bits)
  {
    hide SExtFree, Width;
    forall k | 0 <= k < |vars|
      ensures PlainVars(v1) && PlainVars(v2) ==> SExtFree(vars[k].v) && (vars[k].sext == 0 || vars[k].zext == 0)
      ensures WideVars(v1, bits) && WideVars(v2, bits) ==> Width(vars[k].v) + vars[k].zext + vars[k].sext >= bits
    {
      assert HasKey(v1 + v2, vars[k]);
      var j :| 0 <= j < |v1 + v2| && SameKey((v1 + v2)[j], vars[k]);
    }
  }

  lemma PlainIsReadable(vars: seq<VarIndex>, bits: nat)
    requires PlainVars(vars) && WideVars(vars, bits)
    ensures ReadableVars(vars) && ExtendedOnce(vars, bits)
  {
    hide SExtFree, Width, Readable;
    forall k | 0 <= k < |vars| ensures Readable(vars[k].v, Width(vars[k].v), 0) {
      SExtFreeReadable(vars[k].v, Width(vars[k].v), 0);
    }
  }

  lemma FitsWider(x: int, bits: nat)
    requires 0 < bits <= 64 && FitsSigned(x, bits)
    ensures FitsSigned(x, 64)
  {
    Pow2Grows(bits - 1, 63);
  }

  // ---- A constant distance ----

  /** How many bytes an access of that size may have. */
  predicate Accesses(size: nat, n: nat) {
    size == UNKNOWNSIZE || n == size
  }

  /** What an answer promises about two accesses of `n1` and `n2` bytes. */
  ghost predicate AnswerHolds(r: AliasResult, a1: int, n1: nat, a2: int, n2: nat, bits: nat) {
    && (r == MustAlias ==> Cong(a1, a2, Pow2(bits)))
    && (r == NoAlias ==> Disjoint(a1, n1, a2, n2, bits))
    && (r == PartialAlias ==> !Cong(a1, a2, Pow2(bits)) && !Disjoint(a1, n1, a2, n2, bits))
  }

  /** The answer for accesses whose distance is the constant `d`. */
  function ConstantAnswer(d: int, size1: nat, size2: nat): AliasResult {
    if d == 0 then MustAlias
    else if d > 0 then
      if size2 == UNKNOWNSIZE then MayAlias else if d < size2 then PartialAlias else NoAlias
    else
      if size1 == UNKNOWNSIZE || size2 == UNKNOWNSIZE then MayAlias else if 0 - d < size1 then PartialAlias else NoAlias
  }

  /** The comparison is made on the line; on the circle the distance must leave room for both
      accesses, or must not vanish. */
  predicate ConstantRight(r: AliasResult, d: int, n1: nat, n2: nat, bits: nat) {
    match r
    case NoAlias => RoomOnCircle(d, n1, n2, bits)
    case PartialAlias => Wrap(d, bits) != 0 && n1 > 0 && n2 > 0
    case _ => true
  }

  /** For pointers of any width and accesses of any size: the answer for a constant distance holds
      if and only if that condition does. */
  lemma ConstantAnswerHoldsIff(d: int, a1: int, size1: nat, n1: nat, a2: int, size2: nat, n2: nat, bits: nat)
    requires Cong(a1 - a2, d, Pow2(bits)) && Accesses(size1, n1) && Accesses(size2, n2)
    ensures var r := ConstantAnswer(d, size1, size2);
            AnswerHolds(r, a1, n1, a2, n2, bits) <==> ConstantRight(r, d, n1, n2, bits)
  {
    hide Cong, Disjoint, RoomOnCircle, Pow2, Wrap;
    var m := Pow2(bits);
    SameAddressIff(d, a1, a2, bits);
    match ConstantAnswer(d, size1, size2)
    case MustAlias =>
      CongRefl(0, m);
    case NoAlias =>
      RoomIffDisjoint(d, n1, n2, bits);
      DisjointByDifference(a1, n1, a2, n2, d, bits);
    case PartialAlias =>
      DisjointByDifference(a1, n1, a2, n2, d, bits);
      RoomIffDisjoint(d, n1, n2, bits);
      OverlapWithin(d, n1, n2, bits);
    case MayAlias =>
  }

  lemma SameAddressIff(d: int, a1: int, a2: int, bits: nat)
    requires Cong(a1 - a2, d, Pow2(bits))
    ensures Cong(a1, a2, Pow2(bits)) <==> Wrap(d, bits) == 0
    ensures d == 0 ==> Wrap(d, bits) == 0
  {
    hide Cong, Pow2, Wrap;
    var m := Pow2(bits);
    CongRefl(a2, m);
    WrapZero(d, bits);
    if Cong(a1, a2, m) {
      CongSub(a1, a2, a2, a2, m);
      CongSym(a1 - a2, d, m);
      CongTrans(d, a1 - a2, 0, m);
    }
    if Cong(d, 0, m) {
      CongTrans(a1 - a2, d, 0, m);
      CongAdd(a1 - a2, 0, a2, a2, m);
    }
    if d == 0 {
      CongRefl(0, m);
    }
  }

  lemma WrapZero(d: int, bits: nat)
    ensures Wrap(d, bits) == 0 <==> Cong(d, 0, Pow2(bits))
  {
    hide Cong, Pow2;
    CongZero(d, Pow2(bits));
  }

  /** A distance on the line that is less than a size is less than it on the circle. */
  lemma OverlapWithin(d: int, n1: nat, n2: nat, bits: nat)
    requires (0 < d < n2) || (0 < 0 - d < n1)
    ensures RoomOnCircle(d, n1, n2, bits) <==> n1 == 0 || n2 == 0
  {
    hide Cong, Pow2, Wrap;
    var m, r := Pow2(bits), Wrap(d, bits);
    WrapCong(d, bits);
    if 0 < d {
      if r > d {
        CongClose(r, d, m);
      }
    } else if r + n1 <= m {
      CongBy(m, 0, 1, m);
      CongAdd(d, r, m, 0, m);
      CongClose(d + m, r, m);
    }
  }

  /** For 64-bit pointers and accesses of up to 2^63 bytes it always does. */
  lemma ConstantAnswerHolds(d: int, a1: int, size1: nat, n1: nat, a2: int, size2: nat, n2: nat)
    requires FitsSigned(d, 64) && Cong(a1 - a2, d, Pow2(64)) && Accesses(size1, n1) && Accesses(size2, n2)
    requires 0 < n1 <= Pow2(63) && 0 < n2 <= Pow2(63)
    ensures AnswerHolds(ConstantAnswer(d, size1, size2), a1, n1, a2, n2, 64)
  {
    hide Cong, AnswerHolds, Wrap, RoomOnCircle;
    ConstantAnswerHoldsIff(d, a1, size1, n1, a2, size2, n2, 64);
    if d != 0 {
      NotCong(d, 0, Pow2(64));
      WrapZero(d, 64);
      if (d > 0 && d >= n2) || (d < 0 && 0 - d >= n1) {
        DistanceIsEnough(d, n1, n2, 64);
        RoomIffDisjoint(d, n1, n2, 64);
      }
    }
  }

  // ---- The answer ----

  /** What decides: nothing, the constant distance, the modulo test or the constant-offset
      heuristic, in that order. */
  datatype Reason = Nothing | Distance | Modulo | Heuristic

  function BaseOffset(d: Decomposition): int {
    Signed(d.structOffset + d.otherOffset, 64)
  }

  function OffsetBetween(p1: Ptr, p2: Ptr, bits: nat): int
    requires bits > 0
  {
    Signed(BaseOffset(Decompose(p1, bits)) - BaseOffset(Decompose(p2, bits)), 64)
  }

  function VarsBetween(p1: Ptr, p2: Ptr, bits: nat, unstable: set<TypedExpr>): seq<VarIndex>
    requires bits > 0
  {
    Less(Decompose(p1, bits).vars, Decompose(p2, bits).vars, unstable)
  }

  predicate SameBase(p1: Ptr, p2: Ptr, bits: nat)
    requires bits > 0
  {
    Decompose(p1, bits).base == Decompose(p2, bits).base && !StopsEarly(p1, MAXLOOKUP) && !StopsEarly(p2, MAXLOOKUP)
  }

  function AliasReason(p1: Ptr, size1: nat, p2: Ptr, size2: nat, bits: nat, unstable: set<TypedExpr>): Reason
    requires bits > 0
  {
    if !SameBase(p1, p2, bits) then Nothing
    else
      var d, vars := OffsetBetween(p1, p2, bits), VarsBetween(p1, p2, bits, unstable);
      if vars == [] then Distance
      else if ModuloOf(vars) > 0 && ModuloFires(ModuloOf(vars), d, size1, size2) then Modulo
      else if OffsetHeuristic(vars, size1, size2, d, unstable) then Heuristic
      else Nothing
  }

  function AliasAnswer(p1: Ptr, size1: nat, p2: Ptr, size2: nat, bits: nat, unstable: set<TypedExpr>): AliasResult
    requires bits > 0
  {
    match AliasReason(p1, size1, p2, size2, bits, unstable)
    case Nothing => MayAlias
    case Distance => ConstantAnswer(OffsetBetween(p1, p2, bits), size1, size2)
    case _ => NoAlias
  }

  /** The query when no variable is left. */
  method AnswerDistance(d: int, size1: nat, size2: nat) returns (r: AliasResult)
    ensures r == ConstantAnswer(d, size1, size2)
  {
    if d == 0 {
      return MustAlias;
    }
    if d >= 0 {
      if size2 != UNKNOWNSIZE {
        if d < size2 {
          return PartialAlias;
        }
        return NoAlias;
      }
    } else {
      if size1 != UNKNOWNSIZE && size2 != UNKNOWNSIZE {
        if 0 - d < size1 {
          return PartialAlias;
        }
        return NoAlias;
      }
    }
    return MayAlias;
  }

  /** The alias query for two pointers: the constant distance, the modulo test and the
      constant-offset heuristic, in that order. */
  method AliasGEP(p1: Ptr, size1: nat, p2: Ptr, size2: nat, bits: nat, unstable: set<TypedExpr>) returns (r: AliasResult)
    requires 0 < bits <= 64
    ensures r == AliasAnswer(p1, size1, p2, size2, bits, unstable)
  {
    hide Signed, Pow2, Decompose, StopsEarly, PlainPtr, SExtFreePtr, Tracks, WideVars, OffsetHeuristic, Less, ReadableVars, ExtendedOnce,
         BitAnd, ModuloOf, LargestModulo, KeysFrom, DifferenceOf, FitsSigned, TidyVars, Scales64, Below, ConstantAnswer;
    DifferenceIsTidy(p1, p2, bits, unstable);
    var gep1 := new DecomposedGEP();
    var limit1 := gep1.DecomposeGEPExpression(p1, bits);
    var gep2 := new DecomposedGEP();
    var limit2 := gep2.DecomposeGEPExpression(p2, bits);
    assert gep1.Value() == Decompose(p1, bits) && gep2.Value() == Decompose(p2, bits);
    var baseOffset1 := Signed(gep1.structOffset + gep1.otherOffset, 64);
    var baseOffset2 := Signed(gep2.structOffset + gep2.otherOffset, 64);
    if gep1.base != gep2.base || limit1 || limit2 {
      return MayAlias;
    }
    var baseOffset := Signed(baseOffset1 - baseOffset2, 64);
    assert baseOffset == OffsetBetween(p1, p2, bits);
    var varIndices := GetIndexDifference(gep1.varIndices, gep2.varIndices, unstable);
    assert varIndices == VarsBetween(p1, p2, bits, unstable);
    if varIndices == [] {
      r := AnswerDistance(baseOffset, size1, size2);
      return r;
    } else {
      var modulo, place := ScaleModulo(varIndices, bits);
      var modOffset := BitAnd(Wrap(baseOffset, 64), modulo - 1);
      if size1 != UNKNOWNSIZE && size2 != UNKNOWNSIZE && modOffset >= size2 && size1 <= modulo - modOffset {
        return NoAlias;
      }
      var apart := ConstantOffsetHeuristic(varIndices, size1, size2, baseOffset, unstable);
      if apart {
        return NoAlias;
      }
    }
    return MayAlias;
  }

  /** What the three tests rely on. */
  lemma DifferenceIsTidy(p1: Ptr, p2: Ptr, bits: nat, unstable: set<TypedExpr>)
    requires 0 < bits <= 64
    ensures var vars := VarsBetween(p1, p2, bits, unstable);
            && Scales64(Decompose(p1, bits).vars) && Scales64(Decompose(p2, bits).vars)
            && NonZero(vars) && (forall k :: 0 <= k < |vars| ==> Below(vars[k].scale, bits))
            && KeysFrom(vars, Decompose(p1, bits).vars + Decompose(p2, bits).vars)
            && DifferenceOf(Decompose(p1, bits).vars, Decompose(p2, bits).vars, vars)
            && WideVars(vars, bits)
            && (PlainPtr(p1, bits) && PlainPtr(p2, bits) && SExtFreePtr(p1) && SExtFreePtr(p2) ==>
                  ReadableVars(vars) && ExtendedOnce(vars, bits))
  {
    hide Pow2, Decompose, PlainPtr, SExtFreePtr, Tracks, WideVars, Less, KeysFrom, DifferenceOf, FitsSigned, PlainVars,
         Below, StopsEarly, ReadableVars, ExtendedOnce;
    var d1, d2 := Decompose(p1, bits), Decompose(p2, bits);
    DecomposeIsExact(p1, bits);
    DecomposeIsExact(p2, bits);
    forall k | 0 <= k < |d1.vars| ensures FitsSigned(d1.vars[k].scale, 64) {
      FitsWider(d1.vars[k].scale, bits);
    }
    forall k | 0 <= k < |d2.vars| ensures FitsSigned(d2.vars[k].scale, 64) {
      FitsWider(d2.vars[k].scale, bits);
    }
    LessExact(d1.vars, d2.vars, unstable);
    DifferenceBelow(d1.vars, d2.vars, unstable, bits);
    var vars := VarsBetween(p1, p2, bits, unstable);
    forall k | 0 <= k < |vars| ensures Below(vars[k].scale, bits) {
      assert Settled(vars[k], d2.vars, bits);
    }
    PlainKeys(vars, d1.vars, d2.vars, bits);
    if PlainVars(vars) {
      PlainIsReadable(vars, bits);
    }
  }

  /** For every valuation, and pointers of any width: the difference of the addresses is the
      difference of the constants plus the difference of the variables. */
  lemma DifferenceIsExact(p1: Ptr, p2: Ptr, bits: nat, unstable: set<TypedExpr>, rho: Valuation, bases: Bases)
    requires 0 < bits <= 64 && PlainPtr(p1, bits) && PlainPtr(p2, bits) && SameBase(p1, p2, bits)
    requires DefinedPtr(p1, rho) && DefinedPtr(p2, rho)
    ensures DifferenceAt(p1, p2, bits, OffsetBetween(p1, p2, bits), VarsBetween(p1, p2, bits, unstable), rho, bases)
  {
    hide Pow2, Decompose, PlainPtr, SExtFreePtr, WideVars, TracksAt, KeysFrom, DifferenceOf, Less, Signed, DifferenceAt, StopsEarly, DefinedPtr, Scales64;
    var d1, d2 := Decompose(p1, bits), Decompose(p2, bits);
    DecomposeIsExact(p1, bits);
    DecomposeIsExact(p2, bits);
    DifferenceIsTidy(p1, p2, bits, unstable);
    var o1, o2 := d1.structOffset + d1.otherOffset, d2.structOffset + d2.otherOffset;
    assert TracksAt(p1, bits, d1.base, [], o1, d1.vars, rho, bases);
    assert TracksAt(p2, bits, d2.base, [], o2, d2.vars, rho, bases);
    SubtractAt(p1, p2, d1.base, o1, d1.vars, o2, d2.vars, VarsBetween(p1, p2, bits, unstable), bits, rho, bases);
  }

  /** A constant distance is decided unless a size that matters is unknown. */
  lemma Undecided(d: int, size1: nat, size2: nat)
    ensures var r := ConstantAnswer(d, size1, size2);
            && (r == MustAlias <==> d == 0)
            && (r == MayAlias ==> d != 0 && (size2 == UNKNOWNSIZE || (d < 0 && size1 == UNKNOWNSIZE)))
  {
  }

  /** No operation of any index carries a promise. */
  predicate FlaglessPtr(p: Ptr) {
    match p
    case Base(_) => true
    case Cast(q) => FlaglessPtr(q)
    case Gep(q, indices) => FlaglessPtr(q) && forall k :: 0 <= k < |indices| ==> FlaglessIndex(indices[k])
  }

  predicate FlaglessIndex(i: Index) {
    i.Elem? ==> Flagless(i.e)
  }

  lemma {:induction false} FlaglessPtrDefined(p: Ptr, rho: Valuation)
    requires FlaglessPtr(p)
    ensures DefinedPtr(p, rho)
  {
    hide Defined, Flagless;
    match p
    case Base(_) =>
    case Cast(q) => FlaglessPtrDefined(q, rho);
    case Gep(q, indices) =>
      FlaglessPtrDefined(q, rho);
      forall k | 0 <= k < |indices| ensures DefinedIndex(indices[k], rho) {
        assert FlaglessIndex(indices[k]);
        if indices[k].Elem? {
          FlaglessDefined(indices[k].e, rho);
        }
      }
  }

  /** When the heuristic answers for pointers without flagged operations, and the two variables have
      something as wide as themselves in common: the answer holds for every valuation and placement
      of the bases if and only if every difference they can have leaves room. */
  lemma {:induction false} HeuristicAnswerIff(p1: Ptr, size1: nat, p2: Ptr, size2: nat, bits: nat, unstable: set<TypedExpr>, n: nat)
    requires 0 < bits <= 64 && PlainPtr(p1, bits) && PlainPtr(p2, bits) && FlaglessPtr(p1) && FlaglessPtr(p2)
    requires AliasReason(p1, size1, p2, size2, bits, unstable) == Heuristic
    requires var vars := VarsBetween(p1, p2, bits, unstable);
             && ExtendedOnce(vars, bits) && (forall k :: 0 <= k < |vars| ==> Flagless(vars[k].v))
             && SameForm(vars, bits) && Form(vars, 1).v == Opaque(n, Width(vars[1].v))
    ensures (forall rho: Valuation, bases: Bases ::
               AnswerHolds(NoAlias, Address(p1, bits, rho, bases), size1, Address(p2, bits, rho, bases), size2, bits))
            <==> HeuristicRight(VarsBetween(p1, p2, bits, unstable), OffsetBetween(p1, p2, bits), size1, size2, bits)
  {
    hide Pow2, Decompose, PlainPtr, Less, Signed, OffsetHeuristic, ModuloOf, ModuloFires, SameBase, VarsBetween, OffsetBetween,
         Address, DifferenceAt, HeuristicRight, Width, ExtendedOnce, SameForm, Form, Disjoint, VarSum, Flagless, FlaglessPtr,
         DefinedPtr, Readable;
    var d, vars := OffsetBetween(p1, p2, bits), VarsBetween(p1, p2, bits, unstable);
    assert SameBase(p1, p2, bits);
    SameFormHasTwo(vars, bits);
    HeuristicExactIff(vars, n, size1, size2, d, bits);
    if HeuristicRight(vars, d, size1, size2, bits) {
      forall rho: Valuation, bases: Bases
        ensures AnswerHolds(NoAlias, Address(p1, bits, rho, bases), size1, Address(p2, bits, rho, bases), size2, bits)
      {
        assert Disjoint(d + VarSum(vars, rho), size1, 0, size2, bits);
        FlaglessAnswer(p1, size1, p2, size2, bits, unstable, rho, bases);
      }
    } else {
      var rho: Valuation, bases: Bases :| !Disjoint(d + VarSum(vars, rho), size1, 0, size2, bits) && bases == map[];
      FlaglessAnswer(p1, size1, p2, size2, bits, unstable, rho, bases);
    }
  }

  lemma FlaglessAnswer(p1: Ptr, size1: nat, p2: Ptr, size2: nat, bits: nat, unstable: set<TypedExpr>, rho: Valuation, bases: Bases)
    requires 0 < bits <= 64 && PlainPtr(p1, bits) && PlainPtr(p2, bits) && FlaglessPtr(p1) && FlaglessPtr(p2) && SameBase(p1, p2, bits)
    ensures AnswerHolds(NoAlias, Address(p1, bits, rho, bases), size1, Address(p2, bits, rho, bases), size2, bits)
            <==> Disjoint(OffsetBetween(p1, p2, bits) + VarSum(VarsBetween(p1, p2, bits, unstable), rho), size1, 0, size2, bits)
  {
    hide Pow2, Decompose, PlainPtr, SameBase, VarsBetween, OffsetBetween, Address, DifferenceAt, Disjoint, VarSum, FlaglessPtr,
         DefinedPtr;
    FlaglessPtrDefined(p1, rho);
    FlaglessPtrDefined(p2, rho);
    DifferenceIsExact(p1, p2, bits, unstable, rho, bases);
    NoAliasByDifference(p1, size1, p2, size2, bits, OffsetBetween(p1, p2, bits), VarsBetween(p1, p2, bits, unstable), rho, bases);
  }

  lemma SameFormHasTwo(vars: seq<VarIndex>, bits: nat)
    requires SameForm(vars, bits)
    ensures |vars| == 2 && Width(vars[0].v) == Width(vars[1].v)
  {
    hide Form, Width, Pow2;
  }

  lemma NoAliasByDifference(p1: Ptr, n1: nat, p2: Ptr, n2: nat, bits: nat, d: int, vars: seq<VarIndex>, rho: Valuation, bases: Bases)
    requires DifferenceAt(p1, p2, bits, d, vars, rho, bases)
    ensures AnswerHolds(NoAlias, Address(p1, bits, rho, bases), n1, Address(p2, bits, rho, bases), n2, bits)
            <==> Disjoint(d + VarSum(vars, rho), n1, 0, n2, bits)
  {
    hide Cong, Address, Pow2, Disjoint, VarSum;
    DisjointByDifference(Address(p1, bits, rho, bases), n1, Address(p2, bits, rho, bases), n2, d + VarSum(vars, rho), bits);
  }

  lemma KnownSizes(modulo: nat, d: int, size1: nat, n1: nat, size2: nat, n2: nat)
    requires modulo > 0 && ModuloFires(modulo, d, size1, size2) && Accesses(size1, n1) && Accesses(size2, n2)
    ensures n1 == size1 && n2 == size2
  {
    hide BitAnd, Wrap;
  }

  lemma HeuristicSizes(vars: seq<VarIndex>, size1: nat, size2: nat, d: int, unstable: set<TypedExpr>)
    requires OffsetHeuristic(vars, size1, size2, d, unstable)
    ensures size1 != UNKNOWNSIZE && size2 != UNKNOWNSIZE
  {
    hide GetLinear, Wrap, Signed, Width;
  }

  // ---- Queries that are answered wrongly ----

  /** A GEP with one index, off a base. */
  lemma DecomposeOne(n: nat, size: nat, e: TypedExpr, bits: nat)
    requires bits > 0 && !e.Const?
    ensures var r := LinearIndex(e, bits);
            var scale := NewScale(size, r.s.scale, Width(e), 0, bits);
            Decompose(Gep(Base(n), [Elem(size, e)]), bits)
            == Decomposition(Base(n), 0, Signed(0 + Signed(r.s.offset, Width(e)) * size, 64),
                             if scale != 0 then [VarIndex(r.v, r.s.zext, r.s.sext, scale)] else [])
    ensures !StopsEarly(Gep(Base(n), [Elem(size, e)]), MAXLOOKUP)
  {
    hide LinearIndex, NewScale, Signed, Width;
    var p, i := Gep(Base(n), [Elem(size, e)]), Elem(size, e);
    var d := Decomposition(p, 0, 0, []);
    assert [i][..0] == [];
    assert WithIndices(d, [i], bits) == WithIndex(d, i, bits);
    assert !ConstantIndex([i][0]);
    assert Walk(d, p, bits, MAXLOOKUP) == Walk(WithGep(d, [i], bits), Base(n), bits, MAXLOOKUP - 1);
  }

  lemma ZeroOffset()
    ensures forall w: nat :: w > 0 ==> Signed(0, w) == 0
  {
    hide Signed, Pow2;
    forall w: nat | w > 0 ensures Signed(0, w) == 0 {
      ZeroIsZero(w);
    }
  }

  /** With 32-bit pointers: 8*(x + 2^29) and 8*x are the same address, but the query says that they
      do not alias, because the constants of the two decompositions are 2^32 apart. */
  lemma ConstantBranchCounterexample()
    ensures var x: TypedExpr := Opaque(0, 32);
            var e := Bin(1, AddOp, x, 0x2000_0000, false, false, false);
            && Typed(e)
            && var p1, p2 := Gep(Base(0), [Elem(8, e)]), Gep(Base(0), [Elem(8, x)]);
               && PlainPtr(p1, 32) && PlainPtr(p2, 32) && AliasAnswer(p1, 4, p2, 4, 32, {}) == NoAlias
               && forall rho: Valuation, bases: Bases :: Address(p1, 32, rho, bases) == Address(p2, 32, rho, bases)
  {
    hide Cong, Signed, Wrap, Pow2, Address, Decompose, StopsEarly, NewScale, Less;
    assert Pow2(29) == 0x2000_0000 && Pow2(32) == 0x1_0000_0000 && Pow2(31) == 0x8000_0000 by { Pow2Of32(); }
    var x: TypedExpr := Opaque(0, 32);
    var e: TypedExpr := Bin(1, AddOp, x, 0x2000_0000, false, false, false);
    var p1, p2 := Gep(Base(0), [Elem(8, e)]), Gep(Base(0), [Elem(8, x)]);
    DecomposeOne(0, 8, e, 32);
    DecomposeOne(0, 8, x, 32);
    WrapSmall(0x2000_0000, 32);
    LinearOfSum(x, e, 32);
    SmallSigned();
    ZeroOffset();
    var scale := NewScale(8, 1, 32, 0, 32);
    SameVariables(if scale != 0 then [VarIndex(x, 0, 0, scale)] else []);
    assert OffsetBetween(p1, p2, 32) == 0x1_0000_0000;
    assert AliasReason(p1, 4, p2, 4, 32, {}) == Distance;
    forall rho: Valuation, bases: Bases ensures Address(p1, 32, rho, bases) == Address(p2, 32, rho, bases) {
      SameAddress32(x, e, rho, bases);
    }
  }

  lemma LinearOfSum(x: TypedExpr, e: TypedExpr, bits: nat)
    requires x.Opaque? && Width(x) == bits && e.Bin? && e.op == AddOp && e.operand == x && bits > 0
    ensures LinearIndex(x, bits).v == x && LinearIndex(x, bits).s.scale == 1 && LinearIndex(x, bits).s.offset == 0
    ensures LinearIndex(x, bits).s.zext == 0 && LinearIndex(x, bits).s.sext == 0
    ensures LinearIndex(e, bits).v == x && LinearIndex(e, bits).s.scale == 1
    ensures LinearIndex(e, bits).s.offset == Wrap(0 + e.constant, bits)
    ensures LinearIndex(e, bits).s.zext == 0 && LinearIndex(e, bits).s.sext == 0
  {
    hide Wrap, Pow2;
    var s := Lin(0, 0, 0, 0, true, true);
    assert GetLinear(x, bits, 0, s) == Give(x, s);
    assert GetLinear(x, bits, 1, s) == Give(x, s);
  }

  lemma SmallSigned()
    ensures Signed(0x2000_0000, 32) == 0x2000_0000 && Signed(0x1_0000_0000, 64) == 0x1_0000_0000
  {
    hide Cong, Signed;
    Pow2Of32();
    Pow2Of64();
    CongRefl(0x2000_0000, Pow2(32));
    SignedUnique(0x2000_0000, 0x2000_0000, 32);
    CongRefl(0x1_0000_0000, Pow2(64));
    SignedUnique(0x1_0000_0000, 0x1_0000_0000, 64);
  }

  lemma SameVariables(vars: seq<VarIndex>)
    requires |vars| <= 1
    ensures Less(vars, vars, {}) == []
  {
    hide Signed;
    if vars != [] {
      assert vars[..0] == [] && vars == [vars[0]];
      assert LessOne(vars, vars[0], {}) == [];
    }
  }

  lemma Pow2Of32()
    ensures Pow2(29) == 0x2000_0000 && Pow2(32) == 0x1_0000_0000 && Pow2(31) == 0x8000_0000
  {
    hide Pow2;
    Pow2Of8();
    Pow2Adds(8, 8);
    Pow2Adds(16, 8);
    Pow2Adds(24, 5);
    Pow2Adds(16, 16);
    Pow2Next(31);
  }

  lemma SameAddress32(x: TypedExpr, e: TypedExpr, rho: Valuation, bases: Bases)
    requires x == Opaque(0, 32) && e == Bin(1, AddOp, x, 0x2000_0000, false, false, false)
    ensures Address(Gep(Base(0), [Elem(8, e)]), 32, rho, bases) == Address(Gep(Base(0), [Elem(8, x)]), 32, rho, bases)
  {
    hide Cong, Signed, Wrap, Pow2;
    Pow2Of32();
    var m := Pow2(32);
    var b := Address(Base(0), 32, rho, bases);
    var v, y := Eval(x, rho), Eval(e, rho);
    SignedCong(v, 32);
    SignedCong(y, 32);
    WrapCong(v + 0x2000_0000, 32);
    CongTrans(Signed(y, 32), y, v + 0x2000_0000, m);
    CongScale(Signed(y, 32), v + 0x2000_0000, 8, m);
    CongScale(Signed(v, 32), v, 8, m);
    CongSym(Signed(v, 32) * 8, v * 8, m);
    CongBy((v + 0x2000_0000) * 8, v * 8, 1, m);
    CongTrans(Signed(y, 32) * 8, (v + 0x2000_0000) * 8, v * 8, m);
    CongTrans(Signed(y, 32) * 8, v * 8, Signed(v, 32) * 8, m);
    CongRefl(b, m);
    CongAdd(b, b, Signed(y, 32) * 8, Signed(v, 32) * 8, m);
    SameWrap(b + Signed(y, 32) * 8, b + Signed(v, 32) * 8, 32);
    OneIndex(Elem(8, e), rho);
    OneIndex(Elem(8, x), rho);
  }

  lemma OneIndex(i: Index, rho: Valuation)
    ensures IndexOffsets([i], rho) == IndexOffset(i, rho)
  {
    hide IndexOffset;
    assert [i][1..] == [];
  }

  lemma SameWrap(a: int, b: int, w: nat)
    requires Cong(a, b, Pow2(w))
    ensures Wrap(a, w) == Wrap(b, w)
  {
    hide Cong;
    WrapCong(a, w);
    WrapCong(b, w);
    CongTrans(Wrap(a, w), a, b, Pow2(w));
    CongTrans(Wrap(a, w), b, Wrap(b, w), Pow2(w));
    CongClose(Wrap(a, w), Wrap(b, w), Pow2(w));
  }

  /** Additions of zero: as deep as the analysis looks. */
  function ZeroAdditions(): seq<Addend> {
    [Addend(2, 0, false, false), Addend(3, 0, false, false), Addend(4, 0, false, false),
     Addend(5, 0, false, false), Addend(6, 0, false, false), Addend(7, 0, false, false)]
  }

  lemma ZeroTotal(w: nat)
    ensures |ZeroAdditions()| == MAXDEPTH && Total(ZeroAdditions()) == 0 && AddendsFit(ZeroAdditions(), w)
  {
    PowPositive(w);
    AllZero(ZeroAdditions());
  }

  lemma {:induction false} AllZero(a: seq<Addend>)
    requires forall k :: 0 <= k < |a| ==> a[k].c == 0
    ensures Total(a) == 0
  {
    if a != [] {
      AllZero(a[..|a| - 1]);
    }
  }

  /** The indices x + 2^62-1, below so many operations that the analysis does not look at the
      addition, and x, both of elements of four bytes. */
  function FarIndex(): Expr {
    Additions(Bin(1, AddOp, Opaque(0, 64), FAR, false, false, false), ZeroAdditions())
  }

  const FAR: nat := 0x3FFF_FFFF_FFFF_FFFF

  lemma FarTyped()
    ensures Typed(Bin(1, AddOp, Opaque(0, 64), FAR, false, false, false)) && Typed(FarIndex()) && Width(FarIndex()) == 64
    ensures SExtFree(FarIndex()) && FarIndex().Bin?
  {
    hide Pow2, ZeroAdditions;
    Pow2Of64();
    ZeroTotal(64);
    AdditionsTyped(Bin(1, AddOp, Opaque(0, 64), FAR, false, false, false), ZeroAdditions());
    AdditionsSExtFree(Bin(1, AddOp, Opaque(0, 64), FAR, false, false, false), ZeroAdditions());
  }

  lemma {:induction false} AdditionsSExtFree(x: Expr, a: seq<Addend>)
    requires SExtFree(x) && x.Bin?
    ensures SExtFree(Additions(x, a)) && Additions(x, a).Bin?
  {
    if a != [] {
      AdditionsSExtFree(x, a[..|a| - 1]);
    }
  }

  /** With 64-bit pointers: the heuristic answers for 4*(x + 2^62-1) and 4*x, but when x is zero they
      are four bytes apart on the circle and the accesses of eight bytes overlap. */
  lemma HeuristicCounterexample()
    ensures Typed(FarIndex()) && Typed(Opaque(0, 64))
    ensures var p1, p2 := Gep(Base(0), [Elem(4, FarIndex())]), Gep(Base(0), [Elem(4, Opaque(0, 64))]);
            var rho: Valuation := map[0 := 0];
            && PlainPtr(p1, 64) && PlainPtr(p2, 64) && AliasAnswer(p1, 8, p2, 8, 64, {}) == NoAlias
            && AliasReason(p1, 8, p2, 8, 64, {}) == Heuristic && DefinedPtr(p1, rho) && DefinedPtr(p2, rho)
            && forall bases: Bases :: !Disjoint(Address(p1, 64, rho, bases), 8, Address(p2, 64, rho, bases), 8, 64)
  {
    hide Cong, Signed, Wrap, Pow2, Address, Decompose, StopsEarly, FarIndex, Less, Disjoint, OffsetHeuristic, VarSum,
         ModuloOf, ModuloFires, DefinedPtr, PlainPtr, DifferenceAt;
    FarTyped();
    var x: TypedExpr := Opaque(0, 64);
    var e: TypedExpr := Bin(1, AddOp, x, FAR, false, false, false);
    var p1, p2 := Gep(Base(0), [Elem(4, FarIndex())]), Gep(Base(0), [Elem(4, x)]);
    var vars, rho: Valuation := [VarIndex(e, 0, 0, 4), VarIndex(x, 0, 0, -4)], map[0 := 0];
    FarDecomposed(x, e);
    FarModulo(vars);
    CounterexampleFires(e, x, FAR);
    FarDefined(x, p1, p2, rho);
    CounterexampleSum(vars, rho);
    FarOverlap();
    forall bases: Bases ensures !Disjoint(Address(p1, 64, rho, bases), 8, Address(p2, 64, rho, bases), 8, 64) {
      DifferenceIsExact(p1, p2, 64, {}, rho, bases);
      FarApart(p1, p2, vars, rho, bases);
    }
  }

  lemma FarApart(p1: Ptr, p2: Ptr, vars: seq<VarIndex>, rho: Valuation, bases: Bases)
    requires DifferenceAt(p1, p2, 64, 0, vars, rho, bases) && VarSum(vars, rho) == Pow2(64) - 4
    requires !Disjoint(Pow2(64) - 4, 8, 0, 8, 64)
    ensures !Disjoint(Address(p1, 64, rho, bases), 8, Address(p2, 64, rho, bases), 8, 64)
  {
    hide Cong, Pow2, Address, Disjoint, VarSum;
    DisjointByDifference(Address(p1, 64, rho, bases), 8, Address(p2, 64, rho, bases), 8, Pow2(64) - 4, 64);
  }

  lemma FarOverlap()
    ensures !Disjoint(Pow2(64) - 4, 8, 0, 8, 64)
  {
    hide Cong, Pow2;
    CongBy(Pow2(64) - 4 + 4, 0, 1, Pow2(64));
    assert SameByte(Pow2(64) - 4, 4, 0, 0, 64);
  }

  lemma FarModulo(vars: seq<VarIndex>)
    ensures ModuloOf(vars) > 0 ==> !ModuloFires(ModuloOf(vars), 0, 8, 8)
  {
    hide ModuloOf, Pow2;
    WrapZeroIsZero();
  }

  lemma WrapZeroIsZero()
    ensures Wrap(0, 64) == 0
  {
    hide Pow2, Wrap;
    PowPositive(64);
    WrapSmall(0, 64);
  }

  lemma FarDefined(x: TypedExpr, p1: Ptr, p2: Ptr, rho: Valuation)
    requires x == Opaque(0, 64) && Typed(FarIndex()) && Width(FarIndex()) == 64 && SExtFree(FarIndex())
    requires p1 == Gep(Base(0), [Elem(4, FarIndex())]) && p2 == Gep(Base(0), [Elem(4, x)])
    ensures DefinedPtr(p1, rho) && DefinedPtr(p2, rho) && PlainPtr(p1, 64) && PlainPtr(p2, 64)
  {
    hide Pow2, FarIndex, PlainPtr, DefinedPtr;
    AdditionsDefined(rho);
    FarPointer(FarIndex(), rho);
    FarPointer(x, rho);
  }

  lemma FarPointer(e: TypedExpr, rho: Valuation)
    requires Width(e) == 64 && SExtFree(e) && Defined(e, rho)
    ensures DefinedPtr(Gep(Base(0), [Elem(4, e)]), rho) && PlainPtr(Gep(Base(0), [Elem(4, e)]), 64)
  {
    hide Readable, Width, Pow2, Defined;
    SExtFreeReadable(e, Width(e), 0);
  }

  lemma AdditionsDefined(rho: Valuation)
    requires Typed(FarIndex())
    ensures Defined(FarIndex(), rho)
  {
    hide Pow2, ZeroAdditions, Eval;
    FarTyped();
    assert forall k :: 0 <= k < |ZeroAdditions()| ==> !ZeroAdditions()[k].nuw && !ZeroAdditions()[k].nsw by { ZeroUnflagged(); }
    UnflaggedDefined(Bin(1, AddOp, Opaque(0, 64), FAR, false, false, false), ZeroAdditions(), rho);
  }

  lemma ZeroUnflagged()
    ensures forall k :: 0 <= k < |ZeroAdditions()| ==> !ZeroAdditions()[k].nuw && !ZeroAdditions()[k].nsw
  {
  }

  lemma {:induction false} UnflaggedDefined(x: Expr, a: seq<Addend>, rho: Valuation)
    requires Typed(x) && Typed(Additions(x, a)) && Defined(x, rho)
    requires forall k :: 0 <= k < |a| ==> !a[k].nuw && !a[k].nsw
    ensures Defined(Additions(x, a), rho)
  {
    hide Pow2, Eval;
    if a != [] {
      UnflaggedDefined(x, a[..|a| - 1], rho);
    }
  }

  lemma FarDecomposed(x: TypedExpr, e: TypedExpr)
    requires x == Opaque(0, 64) && e == Bin(1, AddOp, x, FAR, false, false, false) && Typed(FarIndex()) && FarIndex().Bin?
    requires Width(FarIndex()) == 64
    ensures var p1, p2 := Gep(Base(0), [Elem(4, FarIndex())]), Gep(Base(0), [Elem(4, x)]);
            && SameBase(p1, p2, 64) && OffsetBetween(p1, p2, 64) == 0
            && VarsBetween(p1, p2, 64, {}) == [VarIndex(e, 0, 0, 4), VarIndex(x, 0, 0, -4)]
  {
    hide Signed, Pow2, Decompose, StopsEarly, FarIndex, Less;
    FarFirst(e);
    FarSecond(x);
    ZeroOffset();
    FourBytes();
    LessOther(VarIndex(e, 0, 0, 4), VarIndex(x, 0, 0, 4));
  }

  lemma FarFirst(e: TypedExpr)
    requires e == Bin(1, AddOp, Opaque(0, 64), FAR, false, false, false) && Typed(FarIndex()) && FarIndex().Bin?
    requires Width(FarIndex()) == 64
    ensures var p := Gep(Base(0), [Elem(4, FarIndex())]);
            Decompose(p, 64) == Decomposition(Base(0), 0, 0, [VarIndex(e, 0, 0, 4)]) && !StopsEarly(p, MAXLOOKUP)
  {
    hide Signed, Wrap, Pow2, Decompose, StopsEarly, ZeroAdditions, NewScale, GetLinear, Typed;
    Pow2Of64();
    ZeroTotal(64);
    DecomposeOne(0, 4, FarIndex(), 64);
    AdditionsTyped(e, ZeroAdditions());
    AdditionsLinear(e, ZeroAdditions(), 0, Lin(0, 0, 0, 0, true, true));
    WrapZeroIsZero();
    ZeroOffset();
    FourBytes();
  }

  lemma FarSecond(x: TypedExpr)
    requires x == Opaque(0, 64)
    ensures var p := Gep(Base(0), [Elem(4, x)]);
            Decompose(p, 64) == Decomposition(Base(0), 0, 0, [VarIndex(x, 0, 0, 4)]) && !StopsEarly(p, MAXLOOKUP)
  {
    hide Signed, Wrap, Pow2, Decompose, StopsEarly, NewScale;
    DecomposeOne(0, 4, x, 64);
    assert GetLinear(x, 64, 0, Lin(0, 0, 0, 0, true, true)) == Give(x, Lin(0, 0, 0, 0, true, true));
    ZeroOffset();
    FourBytes();
  }

  lemma FourBytes()
    ensures NewScale(4, 1, 64, 0, 64) == 4 && Signed(0 - 4, 64) == -4
  {
    hide Cong, Signed, Wrap, Pow2;
    Pow2Of64();
    OneSigned(64);
    WrapSmall(4, 64);
    CongRefl(4, Pow2(64));
    CongRefl(-4, Pow2(64));
    SignedUnique(4, 4, 64);
    SignedUnique(-4, -4, 64);
  }

  lemma LessOther(y: VarIndex, x: VarIndex)
    requires y.v != x.v && x.scale == 4 && Signed(0 - 4, 64) == -4
    ensures Less([y], [x], {}) == [y, x.(scale := -4)]
  {
    hide Signed;
    assert [x][..0] == [] && [y][1..] == [];
    assert Less([y], [], {}) == [y];
    assert LessOne([], x, {}) == [x.(scale := -4)];
    assert LessOne([y], x, {}) == [y] + LessOne([], x, {});
  }
}
