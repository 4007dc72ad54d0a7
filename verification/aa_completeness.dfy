/** When the alias query must decide: its tests fire whenever what they look at allows it. */
module AliasCompleteness {
  import opened MachineArithmetic
  import opened LinearExpressions
  import opened GepDecomposition
  import opened AddressCircle
  import opened GepAliasing
  import opened OffsetHeuristics
  import opened AliasAnswers
  import opened AliasCycles

  // ---- When the bases are compared ----

  /** What a chain of casts and GEPs starts from. */
  function Underlying(p: Ptr): Ptr {
    match p
    case Base(_) => p
    case Cast(q) => Underlying(q)
    case Gep(q, _) => Underlying(q)
  }

  function Levels(p: Ptr): nat {
    match p
    case Base(_) => 0
    case Cast(q) => Levels(q) + 1
    case Gep(q, _) => Levels(q) + 1
  }

  lemma {:induction false} StopsIffDeep(p: Ptr, steps: nat)
    ensures StopsEarly(p, steps) <==> Levels(p) >= steps
    decreases p
  {
    if steps > 0 {
      match p
      case Base(_) =>
      case Cast(q) => StopsIffDeep(q, steps - 1);
      case Gep(q, _) => StopsIffDeep(q, steps - 1);
    }
  }

  lemma {:induction false} WalkReachesBase(d: Decomposition, p: Ptr, bits: nat, steps: nat)
    requires bits > 0 && Levels(p) < steps
    ensures Walk(d, p, bits, steps).base == Underlying(p)
    decreases steps
  {
    hide WithGep;
    match p
    case Base(_) =>
    case Cast(q) => WalkReachesBase(d, q, bits, steps - 1);
    case Gep(q, indices) => WalkReachesBase(WithGep(d, indices, bits), q, bits, steps - 1);
  }

  /** Two pointers are compared if they start from the same, through fewer than six casts and GEPs
      each. */
  lemma SameBaseIff(p1: Ptr, p2: Ptr, bits: nat)
    requires bits > 0
    ensures SameBase(p1, p2, bits) <==> Levels(p1) < 6 && Levels(p2) < 6 && Underlying(p1) == Underlying(p2)
  {
    hide Walk;
    StopsIffDeep(p1, 6);
    StopsIffDeep(p2, 6);
    if Levels(p1) < 6 && Levels(p2) < 6 {
      WalkReachesBase(Decomposition(p1, 0, 0, []), p1, bits, 6);
      WalkReachesBase(Decomposition(p2, 0, 0, []), p2, bits, 6);
    }
  }

  // ---- How far an index is read ----

  /** The operation is linear in its operand. */
  predicate LinearIn(e: Expr) {
    e.Bin? && (e.op == AddOp || e.op == SubOp || e.op == MulOp || e.op == ShlOp || (e.op == OrOp && e.disjoint))
  }

  /** What is below at most `n` such operations. */
  function LinearLeaf(e: Expr, n: nat): Expr {
    if n > 0 && LinearIn(e) then LinearLeaf(e.operand, n - 1) else e
  }

  /** None of these operations wraps around without a sign, or none with one.  That a shift does not is
      not made use of; an or of disjoint bits never does. */
  predicate NeverWraps(e: Expr, n: nat, signed: bool) {
    n > 0 && LinearIn(e) ==>
      && (e.op == OrOp || (e.op != ShlOp && if signed then e.nsw else e.nuw))
      && NeverWraps(e.operand, n - 1, signed)
  }

  /** Without extensions on the way, an index is read through up to six operations. */
  lemma {:induction false} ReadsThrough(e: Expr, big: nat, depth: nat)
    requires Typed(e) && Width(e) <= big && depth <= 6 && !LinearLeaf(e, 6 - depth).Ext?
    ensures var r := GetLinear(e, big, depth, START);
            && r.v == LinearLeaf(e, 6 - depth) && r.s.zext == 0 && r.s.sext == 0
            && (NeverWraps(e, 6 - depth, true) ==> r.s.nsw) && (NeverWraps(e, 6 - depth, false) ==> r.s.nuw)
    decreases e
  {
    hide Wrap, Pow2, ApplyOp;
    if depth < 6 && LinearIn(e) {
      ReadsThrough(e.operand, big, depth + 1);
      ApplyKeeps(e.op, e.constant, e.nuw, e.nsw, big, GetLinear(e.operand, big, depth + 1, START).s);
    }
  }

  lemma ApplyKeeps(op: Op, c: nat, nuw: bool, nsw: bool, big: nat, s: Lin)
    ensures var r := ApplyOp(op, c, nuw, nsw, big, s);
            && r.zext == s.zext && r.sext == s.sext
            && ((op == OrOp || (op != ShlOp && nsw)) && s.nsw ==> r.nsw) && ((op == OrOp || (op != ShlOp && nuw)) && s.nuw ==> r.nuw)
  {
    hide Wrap, Pow2;
  }

  /** A zero extension of operations that do not wrap around, and a sign extension of operations that
      do not wrap around as signed ones, is read through as well, and counted. */
  lemma ReadsThroughExtension(e: Expr, big: nat)
    requires Typed(e) && Width(e) <= big && e.Ext? && !LinearLeaf(e.operand, 5).Ext? && NeverWraps(e.operand, 5, e.sext)
    ensures var r := GetLinear(e, big, 0, START);
            && r.v == LinearLeaf(e.operand, 5)
            && r.s.zext == (if e.sext then 0 else Width(e) - Width(e.operand))
            && r.s.sext == (if e.sext then Width(e) - Width(e.operand) else 0)
  {
    hide Wrap, Pow2, Signed;
    ReadsThrough(e.operand, big, 1);
  }

  // ---- A constant distance ----

  /** 64-bit pointers a constant apart, in the same or in different iterations, for every valuation
      without poison and every placement of the bases: must alias is answered exactly for the same address.  Between different addresses an
      access of unknown size may leave it open; accesses of 1 up to 2^63 bytes are told to be
      disjoint exactly when they are, and to overlap partially exactly when they do. */
  lemma DistanceAnswerExact(p1: Ptr, size1: nat, p2: Ptr, size2: nat, unstable: set<TypedExpr>,
                            rho: Valuation, sigma: Valuation, bases: Bases)
    requires PlainPtr(p1, 64) && PlainPtr(p2, 64) && DefinedPtr(p1, rho) && DefinedPtr(p2, sigma)
    requires Agree(unstable, rho, sigma) && SameBase(p1, p2, 64) && VarsBetween(p1, p2, 64, unstable) == []
    ensures var r := AliasAnswer(p1, size1, p2, size2, 64, unstable);
            var a1, a2 := Address(p1, 64, rho, bases), Address(p2, 64, sigma, bases);
            && (r == MustAlias <==> a1 == a2)
            && (r == MayAlias ==> a1 != a2 && (size1 == UNKNOWNSIZE || size2 == UNKNOWNSIZE))
            && (0 < size1 <= Pow2(63) && 0 < size2 <= Pow2(63) ==>
                  && (r == NoAlias <==> Disjoint(a1, size1, a2, size2, 64))
                  && (r == PartialAlias <==> a1 != a2 && !Disjoint(a1, size1, a2, size2, 64)))
  {
    hide Cong, Disjoint, Pow2, PlainPtr, DefinedPtr, Address, SameBase, VarsBetween, Wrap, OffsetBetween, DifferenceAcross, Signed, Agree;
    var d := OffsetBetween(p1, p2, 64);
    var a1, a2 := Address(p1, 64, rho, bases), Address(p2, 64, sigma, bases);
    var side := DifferenceIsMixed(p1, p2, 64, unstable, rho, sigma, bases);
    OffsetFits(p1, p2);
    NothingBetween(p1, p2, 64, d, side, rho, sigma, bases);
    AddressIsSmall(p1, 64, rho, bases);
    AddressIsSmall(p2, 64, sigma, bases);
    SameIffZero(d, a1, a2);
    Pow2Of64();
    if 0 < size1 <= Pow2(63) && 0 < size2 <= Pow2(63) {
      ConstantAnswerHolds(d, a1, size1, size1, a2, size2, size2);
      SameAddressOverlaps(a1, size1, a2, size2);
    }
  }

  lemma OffsetFits(p1: Ptr, p2: Ptr)
    ensures FitsSigned(OffsetBetween(p1, p2, 64), 64)
  {
    hide Pow2, Decompose, BaseOffset;
    SignedCong(BaseOffset(Decompose(p1, 64)) - BaseOffset(Decompose(p2, 64)), 64);
  }

  lemma AddressIsSmall(p: Ptr, bits: nat, rho: Valuation, bases: Bases)
    ensures Address(p, bits, rho, bases) < Pow2(bits)
  {
  }

  lemma SameIffZero(d: int, a1: nat, a2: nat)
    requires FitsSigned(d, 64) && Cong(a1 - a2, d, Pow2(64)) && a1 < Pow2(64) && a2 < Pow2(64)
    ensures d == 0 <==> a1 == a2
  {
    hide Cong;
    if d == 0 {
      CongClose(a1 - a2, 0, Pow2(64));
    }
    if a1 == a2 && d != 0 {
      CongSym(0, d, Pow2(64));
      CongClose(d, 0, Pow2(64));
    }
  }

  lemma SameAddressOverlaps(a1: int, size1: nat, a2: int, size2: nat)
    requires 0 < size1 && 0 < size2
    ensures a1 == a2 ==> !Disjoint(a1, size1, a2, size2, 64)
  {
    hide Cong;
    CongRefl(a1 + 0, Pow2(64));
    assert a1 == a2 ==> SameByte(a1, 0, a2, 0, 64);
  }

  // ---- The modulo test ----

  /** For accesses of known sizes that are not empty, the test with a power of two fires exactly when
      the accesses are apart modulo that power. */
  lemma ModuloFiresIff(place: nat, d: int, size1: nat, size2: nat)
    requires place <= 64 && size1 > 0 && size2 > 0 && size1 != UNKNOWNSIZE && size2 != UNKNOWNSIZE
    ensures ModuloFires(Pow2(place), d, size1, size2) <==> Disjoint(d, size1, 0, size2, place)
  {
    hide Cong, Disjoint, Pow2, BitAnd, Wrap;
    RoomIffDisjoint(d, size1, size2, place);
    MaskIsRemainder(Wrap(d, 64), place);
    WrapAgain(d, place);
  }

  lemma WrapAgain(d: int, place: nat)
    requires place <= 64
    ensures Wrap(d, 64) % Pow2(place) == Wrap(d, place)
  {
    hide Cong, Pow2, Wrap;
    var x, m := Wrap(d, 64), Pow2(place);
    CongMod(x, m);
    WrapCong(d, 64);
    CongNarrow(x, d, 64, place);
    CongTrans(x % m, x, d, m);
    WrapCong(d, place);
    CongTrans(x % m, d, Wrap(d, place), m);
    CongClose(x % m, Wrap(d, place), m);
  }

  /** The scales are multiples of 2^q, and the accesses are apart modulo 2^q whatever the variables
      are. */
  ghost predicate ApartModulo(vars: seq<VarIndex>, d: int, size1: nat, size2: nat, q: nat) {
    (forall k :: 0 <= k < |vars| ==> Cong(vars[k].scale, 0, Pow2(q))) && Disjoint(d, size1, 0, size2, q)
  }

  /** The modulo test decides exactly when there is any power of two that divides all scales and keeps
      the accesses apart. */
  lemma ModuloDecidesIff(p1: Ptr, size1: nat, p2: Ptr, size2: nat, bits: nat, unstable: set<TypedExpr>)
    requires 0 < bits <= 64 && SameBase(p1, p2, bits) && VarsBetween(p1, p2, bits, unstable) != []
    requires size1 > 0 && size2 > 0 && size1 != UNKNOWNSIZE && size2 != UNKNOWNSIZE
    ensures AliasReason(p1, size1, p2, size2, bits, unstable) == Modulo
            <==> exists q :: ApartModulo(VarsBetween(p1, p2, bits, unstable), OffsetBetween(p1, p2, bits), size1, size2, q)
    ensures AliasReason(p1, size1, p2, size2, bits, unstable) == Modulo ==> AliasAnswer(p1, size1, p2, size2, bits, unstable) == NoAlias
  {
    hide SameBase, VarsBetween, OffsetBetween, ModuloOf, ModuloFires, Pow2, Cong, Disjoint, LargestModulo, Decompose, NonZero,
         OffsetHeuristic, KeysFrom, DifferenceOf, WideVars, ReadableVars, ExtendedOnce, Scales64, PlainPtr, SExtFreePtr, Below;
    var d, vars := OffsetBetween(p1, p2, bits), VarsBetween(p1, p2, bits, unstable);
    DifferenceIsTidy(p1, p2, bits, unstable);
    var place := ModuloIsLargest(vars, bits);
    LargestFacts(vars, ModuloOf(vars), place, bits);
    ModuloFiresIff(place, d, size1, size2);
    assert ModuloFires(ModuloOf(vars), d, size1, size2) <==> ApartModulo(vars, d, size1, size2, place);
    hide ApartModulo;
    forall q | ApartModulo(vars, d, size1, size2, q) ensures ApartModulo(vars, d, size1, size2, place) {
      ApartModuloMore(vars, d, size1, size2, q, place, bits);
    }
  }

  lemma LargestFacts(vars: seq<VarIndex>, m: nat, place: nat, bits: nat)
    requires LargestModulo(vars, m, place, bits)
    ensures m == Pow2(place) && place < bits && forall k :: 0 <= k < |vars| ==> Cong(vars[k].scale, 0, Pow2(place))
  {
    hide Cong, Pow2;
  }

  lemma DividesAtMost(vars: seq<VarIndex>, q: nat, place: nat, bits: nat)
    requires LargestModulo(vars, Pow2(place), place, bits)
    requires forall k :: 0 <= k < |vars| ==> Cong(vars[k].scale, 0, Pow2(q))
    ensures q <= place
  {
    hide Cong, Pow2;
    if q > place {
      var k :| 0 <= k < |vars| && !Cong(vars[k].scale, 0, Pow2(place + 1));
      CongNarrow(vars[k].scale, 0, q, place + 1);
    }
  }

  lemma ApartModuloMore(vars: seq<VarIndex>, d: int, size1: nat, size2: nat, q: nat, place: nat, bits: nat)
    requires LargestModulo(vars, Pow2(place), place, bits) && ApartModulo(vars, d, size1, size2, q)
    ensures ApartModulo(vars, d, size1, size2, place)
  {
    hide Cong, Pow2;
    DividesAtMost(vars, q, place, bits);
    forall t1, t2 | 0 <= t1 < size1 && 0 <= t2 < size2 ensures !SameByte(d, t1, 0, t2, place) {
      SameByteNarrow(d, t1, t2, place, q);
    }
  }

  lemma SameByteNarrow(d: int, t1: int, t2: int, wide: nat, narrow: nat)
    requires narrow <= wide
    ensures SameByte(d, t1, 0, t2, wide) ==> SameByte(d, t1, 0, t2, narrow)
  {
    hide Cong, Pow2;
    if SameByte(d, t1, 0, t2, wide) {
      CongNarrow(d + t1, 0 + t2, wide, narrow);
    }
  }

  // ---- The heuristic ----

  /** The difference of the constants of the two variables. */
  function ConstantsDiffer(vars: seq<VarIndex>, unstable: set<TypedExpr>): int
    requires DifferByConstant(vars, unstable)
  {
    var w := Width(vars[1].v);
    GetLinear(vars[0].v, w, 0, START).s.offset - GetLinear(vars[1].v, w, 0, START).s.offset
  }

  /** Either access and the constant offset have room in the scaled distance. */
  predicate HaveRoom(x: int, scale: int, size1: nat, size2: nat, d: int) {
    size1 + Abs(d) <= Abs(x) * Abs(scale) && size2 + Abs(d) <= Abs(x) * Abs(scale)
  }

  /** As long as no sum and no product leaves 64 bits, the heuristic fires exactly when every distance
      the two variables can have, scaled, leaves that room. */
  lemma HeuristicFiresIff(vars: seq<VarIndex>, size1: nat, size2: nat, d: int, unstable: set<TypedExpr>)
    requires DifferByConstant(vars, unstable) && size1 != UNKNOWNSIZE && size2 != UNKNOWNSIZE
    requires size1 + Abs(d) < Pow2(64) && size2 + Abs(d) < Pow2(64)
    requires LeastDistance(ConstantsDiffer(vars, unstable), Width(vars[1].v)) * Abs(vars[0].scale) < Pow2(64)
    ensures OffsetHeuristic(vars, size1, size2, d, unstable)
            <==> forall x :: Cong(x, ConstantsDiffer(vars, unstable), Pow2(Width(vars[1].v))) ==>
                   HaveRoom(x, vars[0].scale, size1, size2, d)
  {
    hide Cong, Pow2, Wrap, GetLinear, Width, DifferByConstant, HaveRoom, Abs, LeastDistance;
    HeuristicHasTwo(vars, unstable);
    var w, c, scale := Width(vars[1].v), ConstantsDiffer(vars, unstable), vars[0].scale;
    var least := LeastDistance(c, w);
    FiresIffLeast(vars, size1, size2, d, unstable, w, least, scale);
    var x := NearestMultiple(c, w);
    forall y | Cong(y, c, Pow2(w)) && HaveRoom(x, scale, size1, size2, d) ensures HaveRoom(y, scale, size1, size2, d) {
      LeastDistanceIsLeast(y, 0, c, w);
      RoomGrows(x, y, scale, size1, size2, d);
    }
    SameRoom(x, least, scale, size1, size2, d);
  }

  lemma FiresIffLeast(vars: seq<VarIndex>, size1: nat, size2: nat, d: int, unstable: set<TypedExpr>, w: nat, least: nat, scale: int)
    requires DifferByConstant(vars, unstable) && size1 != UNKNOWNSIZE && size2 != UNKNOWNSIZE
    requires w == Width(vars[1].v) && scale == vars[0].scale && least == LeastDistance(ConstantsDiffer(vars, unstable), w)
    requires size1 + Abs(d) < Pow2(64) && size2 + Abs(d) < Pow2(64) && least * Abs(scale) < Pow2(64)
    ensures OffsetHeuristic(vars, size1, size2, d, unstable) <==> HaveRoom(least, scale, size1, size2, d)
  {
    hide Cong, Pow2, Wrap, GetLinear, Width, Abs, LeastDistance, DifferByConstant;
    HeuristicHasTwo(vars, unstable);
    assert Abs(least) == least by { AbsOfNat(least); }
    WrapSmall(size1 + Abs(d), 64);
    WrapSmall(size2 + Abs(d), 64);
    WrapSmall(least * Abs(scale), 64);
  }

  lemma AbsOfNat(n: nat)
    ensures Abs(n) == n && Abs(0 - n) == n
  {
  }

  /** The least distance is the distance of one of the numbers from zero. */
  lemma NearestMultiple(c: int, w: nat) returns (x: int)
    ensures Cong(x, c, Pow2(w)) && Abs(x) == LeastDistance(c, w)
  {
    hide Cong, Pow2, Wrap;
    WrapCong(c, w);
    WrapCong(0 - c, w);
    if Wrap(c, w) <= Wrap(0 - c, w) {
      x := Wrap(c, w);
    } else {
      x := 0 - Wrap(0 - c, w);
      CongRefl(0, Pow2(w));
      CongSub(0, 0, Wrap(0 - c, w), 0 - c, Pow2(w));
    }
  }

  lemma RoomGrows(x: int, y: int, scale: int, size1: nat, size2: nat, d: int)
    requires HaveRoom(x, scale, size1, size2, d) && Abs(x) <= Abs(y)
    ensures HaveRoom(y, scale, size1, size2, d)
  {
    hide Abs;
    ProductGrows(Abs(x), Abs(y), Abs(scale));
  }

  lemma ProductGrows(a: nat, b: nat, c: nat)
    requires a <= b
    ensures a * c <= b * c
  {
  }

  lemma SameRoom(x: int, least: nat, scale: int, size1: nat, size2: nat, d: int)
    requires Abs(x) == least
    ensures HaveRoom(x, scale, size1, size2, d) <==> HaveRoom(least, scale, size1, size2, d)
  {
    AbsOfNat(least);
  }
}
