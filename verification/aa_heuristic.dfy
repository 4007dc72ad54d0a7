/** Exactly when the answer of the constant-offset heuristic holds on the address circle. */
module OffsetHeuristics {
  import opened MachineArithmetic
  import opened LinearExpressions
  import opened GepDecomposition
  import opened AddressCircle
  import opened GepAliasing

  // ---- Multiples of a scale ----

  /** The place of the lowest bit of `s`, in `w` bits; `w` if there is none. */
  function CommonPlace(s: nat, w: nat): (k: nat)
    ensures k <= w
  {
    if w == 0 || s % 2 == 1 then 0 else 1 + CommonPlace(s / 2, w - 1)
  }

  lemma CongDouble(a: int, b: int, m: int)
    requires Cong(a, b, m)
    ensures Cong(2 * a, 2 * b, 2 * m)
  {
    var q :| a == b + Times(q, m);
    TwicePulledOut(q, m);
    CongBy(2 * a, 2 * b, q, 2 * m);
  }

  /** The scale is a multiple of that power of two. */
  lemma {:induction false} CommonDivides(s: nat, w: nat)
    ensures Cong(s, 0, Pow2(CommonPlace(s, w)))
    decreases w
  {
    hide Cong, Pow2;
    if w == 0 || s % 2 == 1 {
      assert Pow2(0) == 1 by { PowOne(); }
      CongBy(s, 0, s, 1);
    } else {
      CommonDivides(s / 2, w - 1);
      Pow2Next(CommonPlace(s / 2, w - 1));
      CongDouble(s / 2, 0, Pow2(CommonPlace(s / 2, w - 1)));
      assert 2 * (s / 2) == s;
    }
  }

  lemma PowOne()
    ensures Pow2(0) == 1
  {
  }

  /** An odd number has an inverse modulo every power of two. */
  lemma {:induction false} OddInverse(s: nat, w: nat) returns (v: nat)
    requires s % 2 == 1
    ensures Cong(s * v, 1, Pow2(w))
    decreases w
  {
    hide Cong, Pow2;
    if w == 0 {
      PowOne();
      v := 1;
      CongBy(s * 1, 1, s - 1, 1);
    } else {
      var u := OddInverse(s, w - 1);
      Pow2Next(w - 1);
      var q := Quotient(s * u, 1, Pow2(w - 1));
      if q % 2 == 0 {
        v := u;
        HalfOf(q, Pow2(w - 1));
        CongBy(s * v, 1, q / 2, Pow2(w));
      } else {
        v := u + Pow2(w - 1);
        LiftInverse(s, u, q, Pow2(w - 1));
        CongBy(s * v, 1, (q + s) / 2, Pow2(w));
      }
    }
  }

  lemma Quotient(a: int, b: int, m: int) returns (q: int)
    requires Cong(a, b, m)
    ensures a == b + q * m
  {
    q :| a == b + Times(q, m);
  }

  lemma HalfOf(q: int, m: int)
    requires q % 2 == 0
    ensures q * m == (q / 2) * (2 * m)
  {
    TwicePulledOut(q / 2, m);
    assert q == 2 * (q / 2);
  }

  lemma LiftInverse(s: int, u: int, q: int, m: int)
    requires s * u == 1 + q * m && s % 2 == 1 && q % 2 == 1
    ensures s * (u + m) == 1 + ((q + s) / 2) * (2 * m)
  {
    HalfOf(q + s, m);
    assert s * (u + m) == s * u + s * m;
    assert (q + s) * m == q * m + s * m;
  }

  /** Multiplying by the scale reaches every multiple of that power of two. */
  lemma {:induction false} MultiplesReached(s: nat, q: int, w: nat) returns (u: int)
    ensures Cong(s * u, q * Pow2(CommonPlace(s, w)), Pow2(w))
    decreases w
  {
    hide Cong, Pow2;
    if w == 0 {
      PowOne();
      u := 0;
      CongBy(0, q, 0 - q, 1);
    } else if s % 2 == 1 {
      PowOne();
      var v := OddInverse(s, w);
      u := v * q;
      CongScale(s * v, 1, q, Pow2(w));
      Regrouped(s, v, q);
    } else {
      u := MultiplesReached(s / 2, q, w - 1);
      var k := CommonPlace(s / 2, w - 1);
      Pow2Next(k);
      Pow2Next(w - 1);
      CongDouble((s / 2) * u, q * Pow2(k), Pow2(w - 1));
      TwicePulledOut(q, Pow2(k));
      Regrouped(2, s / 2, u);
      assert 2 * (s / 2) == s;
    }
  }

  lemma Regrouped(a: int, b: int, c: int)
    ensures (a * b) * c == a * (b * c)
  {
  }

  // ---- Two numbers that differ by a constant ----

  /** Numbers of a residue class from zero up to a multiple of its modulus. */
  lemma ClassBounds(t: int, r: nat, g: nat, m: nat)
    requires 0 <= t < m && r < g && Cong(t, r, g) && Cong(m, 0, g)
    ensures r <= t <= m - g + r
  {
    hide Cong;
    if t < r {
      CongClose(t, r, g);
    }
    if t > m - g + r {
      CongRefl(r, g);
      CongAdd(m, 0, r, r, g);
      CongSym(t, r, g);
      CongTrans(m + r, r, t, g);
      CongClose(m + r, t, g);
    }
  }

  /** Two numbers from a range of 2^w that differ by `d` modulo 2^w have one of two exact
      differences, and which ones depends on the residues the second can have. */
  lemma TwoDifferences(x: int, y: int, low: int, d: int, r: nat, k: nat, w: nat)
    requires k <= w && low <= x < low + Pow2(w) && low <= y < low + Pow2(w)
    requires Cong(x - y, d, Pow2(w)) && r < Pow2(k) && Cong(y - low, r, Pow2(k))
    ensures var e := Wrap(d, w);
            (x - y == e && r + e < Pow2(w)) || (x - y == e - Pow2(w) && r + e >= Pow2(k))
  {
    hide Cong, Wrap, Pow2;
    var m, e := Pow2(w), Wrap(d, w);
    WrapCong(d, w);
    CongTrans(x - y, d, e, m);
    CongBy(m, 0, 1, m);
    CongNarrow(m, 0, w, k);
    ClassBounds(y - low, r, Pow2(k), m);
    if x >= y {
      CongClose(x - y, e, m);
    } else {
      CongAdd(x - y, e, m, 0, m);
      CongClose(x - y + m, e, m);
    }
  }

  /** The exact differences that two such numbers can have, scaled, leave room on the circle. */
  predicate KeepsRoom(d: int, r: nat, k: nat, w: nat, scale: int, baseOffset: int, size1: nat, size2: nat, bits: nat) {
    var e := Wrap(d, w);
    && (r + e < Pow2(w) ==> RoomOnCircle(baseOffset + scale * e, size1, size2, bits))
    && (r + e >= Pow2(k) ==> RoomOnCircle(baseOffset + scale * (e - Pow2(w)), size1, size2, bits))
  }

  // ---- Two variables that differ by a constant ----

  /** The number a variable stands for. */
  function Reading(i: VarIndex, rho: Valuation): int {
    if i.sext > 0 then Signed(Eval(i.v, rho), Width(i.v)) else Eval(i.v, rho)
  }

  function Lowest(i: VarIndex): int {
    if i.sext > 0 then 0 - Pow2(Width(i.v) - 1) else 0
  }

  /** Zero extended, or sign extended to the pointer's width. */
  predicate ExtendedOnce(vars: seq<VarIndex>, bits: nat) {
    forall k :: 0 <= k < |vars| ==> vars[k].sext == 0 || (vars[k].zext == 0 && Width(vars[k].v) + vars[k].sext >= bits)
  }

  lemma ReadingIs(i: VarIndex, bits: nat, rho: Valuation)
    requires i.sext == 0 || (i.zext == 0 && Width(i.v) + i.sext >= bits)
    ensures Lowest(i) <= Reading(i, rho) < Lowest(i) + Pow2(Width(i.v))
    ensures Cong(VarValue(i, rho), Reading(i, rho), Pow2(bits))
    ensures Cong(Reading(i, rho), Eval(i.v, rho), Pow2(Width(i.v)))
  {
    hide Cong, Eval, Signed, Pow2, Wrap;
    var x, w := Eval(i.v, rho), Width(i.v);
    if i.sext > 0 {
      Pow2Next(w - 1);
      SignedCong(x, w);
      WrapCong(Signed(x, w), w + i.sext);
      CongNarrow(Wrap(Signed(x, w), w + i.sext), Signed(x, w), w + i.sext, bits);
    } else {
      CongRefl(x, Pow2(bits));
      CongRefl(x, Pow2(w));
    }
  }

  /** The form the second round of the heuristic gives the variable. */
  function Form(vars: seq<VarIndex>, j: nat): (r: Decomposed)
    requires j < 2 == |vars| && Width(vars[0].v) == Width(vars[1].v)
    ensures Typed(r.v)
  {
    GetLinear(vars[j].v, Width(vars[1].v), 0, START)
  }

  /** The difference of the offsets that the heuristic computes. */
  function OffsetDifference(vars: seq<VarIndex>): int
    requires |vars| == 2 && Width(vars[0].v) == Width(vars[1].v)
  {
    Form(vars, 0).s.offset - Form(vars, 1).s.offset
  }

  function Place(vars: seq<VarIndex>): (k: nat)
    requires |vars| == 2 && Width(vars[0].v) == Width(vars[1].v)
    ensures k <= Width(vars[1].v)
  {
    CommonPlace(Form(vars, 1).s.scale, Width(vars[1].v))
  }

  /** The residue of the second variable, from its lowest value on. */
  function Residue(vars: seq<VarIndex>): nat
    requires |vars| == 2 && Width(vars[0].v) == Width(vars[1].v)
  {
    Wrap(Form(vars, 1).s.offset - Lowest(vars[1]), Place(vars))
  }

  /** Every difference that the two variables can have, scaled, leaves room on the circle. */
  predicate HeuristicRight(vars: seq<VarIndex>, baseOffset: int, size1: nat, size2: nat, bits: nat)
    requires |vars| == 2 && Width(vars[0].v) == Width(vars[1].v)
  {
    KeepsRoom(OffsetDifference(vars), Residue(vars), Place(vars), Width(vars[1].v), vars[0].scale, baseOffset, size1, size2, bits)
  }

  /** The two variables have the same form but for the constants, and opposite scales. */
  predicate SameForm(vars: seq<VarIndex>, bits: nat) {
    && |vars| == 2 && Width(vars[0].v) == Width(vars[1].v)
    && vars[0].zext == vars[1].zext && vars[0].sext == vars[1].sext
    && (vars[0].scale + vars[1].scale) % Pow2(bits) == 0
    && Form(vars, 0).s.scale == Form(vars, 1).s.scale && Form(vars, 0).v == Form(vars, 1).v
    && Form(vars, 0).s.sext == Form(vars, 1).s.sext
  }

  lemma DifferingIsSameForm(vars: seq<VarIndex>, unstable: set<TypedExpr>, bits: nat)
    requires DifferByConstant(vars, unstable) && bits <= 64
    ensures SameForm(vars, bits)
  {
    hide GetLinear, Signed, Wrap, Pow2, Cong, Width;
    HeuristicHasTwo(vars, unstable);
    var s, u, m := vars[0].scale, vars[1].scale, Pow2(bits);
    SignedCong(0 - u, 64);
    CongNarrow(s, 0 - u, 64, bits);
    CongRefl(u, m);
    CongAdd(s, 0 - u, u, u, m);
    CongZero(s + u, m);
  }

  /** What two such variables have to do with each other, as numbers; they may be looked at in two
      iterations of a loop, if what they have in common does not change. */
  lemma {:induction false} FormsDiffer(vars: seq<VarIndex>, bits: nat, rho: Valuation, sigma: Valuation)
    requires SameForm(vars, bits) && ReadableVars(vars) && ExtendedOnce(vars, bits)
    requires Defined(vars[0].v, rho) && Defined(vars[1].v, sigma) && Eval(Form(vars, 0).v, rho) == Eval(Form(vars, 0).v, sigma)
    ensures var x, y, w := Reading(vars[0], rho), Reading(vars[1], sigma), Width(vars[1].v);
            && Cong(x - y, OffsetDifference(vars), Pow2(w))
            && Cong(y - Lowest(vars[1]), Residue(vars), Pow2(Place(vars)))
  {
    hide Cong, GetLinear, Defined, Signed, Pow2, Wrap, Eval, Reading, Readable, CommonPlace, SignExtended;
    var x, y, w := Reading(vars[0], rho), Reading(vars[1], sigma), Width(vars[1].v);
    var r0, r1, m := Form(vars, 0), Form(vars, 1), Pow2(w);
    ReadingIs(vars[0], bits, rho);
    ReadingIs(vars[1], bits, sigma);
    LinearIsAffine(vars[0].v, w, 0, rho);
    LinearIsAffine(vars[1].v, w, 0, sigma);
    CongTrans(x, Eval(vars[0].v, rho), AffineValue(r0, rho), m);
    CongTrans(y, Eval(vars[1].v, sigma), AffineValue(r1, sigma), m);
    CongSub(x, AffineValue(r0, rho), y, AffineValue(r1, sigma), m);
    ResidueOf(y, r1.s.scale, Variable(r1, sigma), r1.s.offset, Lowest(vars[1]), w);
  }

  lemma ResidueOf(y: int, s: nat, v: int, b: int, low: int, w: nat)
    requires Cong(y, s * v + b, Pow2(w))
    ensures Cong(y - low, Wrap(b - low, CommonPlace(s, w)), Pow2(CommonPlace(s, w)))
  {
    hide Cong, Pow2, Wrap, CommonPlace;
    var k := CommonPlace(s, w);
    var g := Pow2(k);
    CongNarrow(y, s * v + b, w, k);
    CommonDivides(s, w);
    CongScale(s, 0, v, g);
    CongRefl(b, g);
    CongAdd(s * v, 0, b, b, g);
    CongTrans(y, s * v + b, b, g);
    CongRefl(low, g);
    CongSub(y, b, low, low, g);
    WrapCong(b - low, k);
    CongTrans(y - low, b - low, Wrap(b - low, k), g);
  }

  /** What the two variables are together. */
  function PairSum(vars: seq<VarIndex>, rho: Valuation, sigma: Valuation): int
    requires |vars| == 2
  {
    vars[0].scale * VarValue(vars[0], rho) + vars[1].scale * VarValue(vars[1], sigma)
  }

  /** The distance of the accesses is the scaled difference of the two numbers. */
  lemma OppositeModulo(vars: seq<VarIndex>, baseOffset: int, bits: nat, rho: Valuation, sigma: Valuation)
    requires |vars| == 2 && (vars[0].scale + vars[1].scale) % Pow2(bits) == 0 && ExtendedOnce(vars, bits)
    ensures var x, y := Reading(vars[0], rho), Reading(vars[1], sigma);
            Cong(baseOffset + PairSum(vars, rho, sigma), baseOffset + vars[0].scale * (x - y), Pow2(bits))
  {
    hide Cong, VarValue, Pow2, Reading;
    ReadingIs(vars[0], bits, rho);
    ReadingIs(vars[1], bits, sigma);
    CongZero(vars[0].scale + vars[1].scale, Pow2(bits));
    OppositePair(vars[0].scale, vars[1].scale, VarValue(vars[0], rho), VarValue(vars[1], sigma),
                 Reading(vars[0], rho), Reading(vars[1], sigma), baseOffset, Pow2(bits));
  }

  lemma OppositePair(s: int, t: int, a: int, b: int, x: int, y: int, o: int, m: int)
    requires Cong(a, x, m) && Cong(b, y, m) && Cong(s + t, 0, m)
    ensures Cong(o + (s * a + t * b), o + s * (x - y), m)
  {
    hide Cong;
    CongScale(a, x, s, m);
    CongScale(b, y, t, m);
    CongScale(s + t, 0, y, m);
    CongAdd(a * s, x * s, b * t, y * t, m);
    CongRefl(x * s + y * t, m);
    CongSub(x * s + y * t, x * s + y * t, (s + t) * y, 0, m);
    CongSym(x * s + y * t - (s + t) * y, x * s + y * t, m);
    CongTrans(a * s + b * t, x * s + y * t, x * s + y * t - (s + t) * y, m);
    CongRefl(o, m);
    CongAdd(o, o, a * s + b * t, x * s + y * t - (s + t) * y, m);
    PairAsProduct(s, t, x, y, a, b);
  }

  lemma SumOfPair(vars: seq<VarIndex>, rho: Valuation)
    requires |vars| == 2
    ensures VarSum(vars, rho) == PairSum(vars, rho, rho)
  {
    hide VarValue;
    assert vars[..1] == [vars[0]] && vars[..1][..0] == [];
    assert VarSum([vars[0]], rho) == Term(vars[0], rho);
  }

  lemma PairAsProduct(s: int, t: int, x: int, y: int, a: int, b: int)
    ensures x * s + y * t - (s + t) * y == s * (x - y) && s * a + t * b == a * s + b * t
  {
  }

  /** If every difference they can have leaves room, the answer holds for every value of what the
      two variables share, whatever flags their operations have. */
  lemma {:induction false} HeuristicWithRoom(vars: seq<VarIndex>, size1: nat, size2: nat, baseOffset: int, bits: nat,
                                             rho: Valuation, sigma: Valuation)
    requires SameForm(vars, bits) && ReadableVars(vars) && ExtendedOnce(vars, bits)
    requires Defined(vars[0].v, rho) && Defined(vars[1].v, sigma) && Eval(Form(vars, 0).v, rho) == Eval(Form(vars, 0).v, sigma)
    requires HeuristicRight(vars, baseOffset, size1, size2, bits)
    ensures Disjoint(baseOffset + PairSum(vars, rho, sigma), size1, 0, size2, bits)
  {
    hide Cong, GetLinear, Defined, Signed, Pow2, Wrap, VarSum, RoomOnCircle, Disjoint, Eval, Reading, Readable, OffsetDifference,
         Residue, Place, Lowest, Form, PairSum;
    var x, y, s := Reading(vars[0], rho), Reading(vars[1], sigma), vars[0].scale;
    FormsDiffer(vars, bits, rho, sigma);
    ReadingIs(vars[0], bits, rho);
    ReadingIs(vars[1], bits, sigma);
    SameLowest(vars);
    ResidueIsLess(vars);
    TwoDifferences(x, y, Lowest(vars[1]), OffsetDifference(vars), Residue(vars), Place(vars), Width(vars[1].v));
    OppositeModulo(vars, baseOffset, bits, rho, sigma);
    RoomIffDisjoint(baseOffset + s * (x - y), size1, size2, bits);
    DisjointByDifference(baseOffset + PairSum(vars, rho, sigma), size1, 0, size2, baseOffset + s * (x - y), bits);
  }

  lemma SameLowest(vars: seq<VarIndex>)
    requires |vars| == 2 && Width(vars[0].v) == Width(vars[1].v) && vars[0].sext == vars[1].sext
    ensures Lowest(vars[0]) == Lowest(vars[1])
  {
    hide Pow2, Width;
  }

  lemma ResidueIsLess(vars: seq<VarIndex>)
    requires |vars| == 2 && Width(vars[0].v) == Width(vars[1].v)
    ensures Residue(vars) < Pow2(Place(vars))
  {
    hide Pow2, Place, Form, Wrap, Lowest;
  }

  // ---- Exactly when ----

  /** No operation carries a promise. */
  predicate Flagless(e: Expr) {
    match e
    case Const(_, _) => true
    case Opaque(_, _) => true
    case Ext(_, _, x, _) => Flagless(x)
    case Bin(_, op, x, c, nuw, nsw, disjoint) =>
      !nuw && !nsw && !disjoint && (op == ShlOp ==> c < Width(x)) && Flagless(x)
  }

  lemma {:induction false} FlaglessDefined(e: Expr, rho: Valuation)
    requires Typed(e) && Flagless(e)
    ensures Defined(e, rho)
  {
    hide Pow2, Eval, BitAnd, Exact, FitsSigned;
    match e
    case Ext(_, _, x, _) => FlaglessDefined(x, rho);
    case Bin(_, _, x, _, _, _, _) => FlaglessDefined(x, rho);
    case _ =>
  }

  /** If V is as wide as the value, nothing is extended on the way to it. */
  lemma {:induction false} SameWidthReadable(e: Expr, big: nat, depth: nat)
    requires Typed(e) && Width(e) <= big && depth <= MAXDEPTH && Width(GetLinear(e, big, depth, START).v) == Width(e)
    ensures Readable(e, big, depth)
    decreases e
  {
    hide Pow2, Wrap, Signed, ApplyOp;
    if depth < MAXDEPTH {
      match e
      case Bin(_, op, x, _, _, _, disjoint) =>
        if Understood(op, disjoint) {
          SameWidthReadable(x, big, depth + 1);
        }
      case Ext(_, _, x, _) => LinearWidth(x, big, depth + 1, START);
      case _ =>
    }
  }

  /** For variables `S*x + a` and `S*x + b`, however their flagless operations are nested: the answer
      holds for every value of `x` if and only if every difference leaves room.  With m = 2^w, g the
      common power of two of S and m, and d = a - b modulo m, the difference d occurs if and only
      if b modulo g plus d is less than m, and d - m if and only if it is at least g. */
  lemma {:induction false} HeuristicExactIff(vars: seq<VarIndex>, n: nat, size1: nat, size2: nat, baseOffset: int, bits: nat)
    requires SameForm(vars, bits) && ExtendedOnce(vars, bits) && Flagless(vars[0].v) && Flagless(vars[1].v)
    requires Form(vars, 1).v == Opaque(n, Width(vars[1].v))
    ensures (forall rho: Valuation :: Disjoint(baseOffset + VarSum(vars, rho), size1, 0, size2, bits))
            <==> HeuristicRight(vars, baseOffset, size1, size2, bits)
  {
    hide Disjoint, HeuristicRight, VarSum, Pow2, Wrap, Flagless, Readable, GetLinear, Defined, ExtendedOnce, Width;
    FormsReadable(vars, n, bits);
    if HeuristicRight(vars, baseOffset, size1, size2, bits) {
      forall rho: Valuation ensures Disjoint(baseOffset + VarSum(vars, rho), size1, 0, size2, bits) {
        FlaglessDefined(vars[0].v, rho);
        FlaglessDefined(vars[1].v, rho);
        HeuristicWithRoom(vars, size1, size2, baseOffset, bits, rho, rho);
        SumOfPair(vars, rho);
      }
    } else {
      var rho := SomeWithoutRoom(vars, n, size1, size2, baseOffset, bits);
    }
  }

  lemma FormsReadable(vars: seq<VarIndex>, n: nat, bits: nat)
    requires SameForm(vars, bits) && Form(vars, 1).v == Opaque(n, Width(vars[1].v))
    ensures ReadableVars(vars) && Form(vars, 1).s.sext == 0
  {
    hide GetLinear, Readable, Pow2, Wrap;
    var w := Width(vars[1].v);
    assert Width(Opaque(n, w)) == w;
    SameWidthReadable(vars[0].v, w, 0);
    SameWidthReadable(vars[1].v, w, 0);
    LinearWidth(vars[1].v, w, 0, START);
  }

  lemma SomeWithoutRoom(vars: seq<VarIndex>, n: nat, size1: nat, size2: nat, baseOffset: int, bits: nat) returns (rho: Valuation)
    requires SameForm(vars, bits) && ExtendedOnce(vars, bits) && Flagless(vars[0].v) && Flagless(vars[1].v)
    requires Form(vars, 1).v == Opaque(n, Width(vars[1].v)) && ReadableVars(vars) && Form(vars, 1).s.sext == 0
    requires !HeuristicRight(vars, baseOffset, size1, size2, bits)
    ensures !Disjoint(baseOffset + VarSum(vars, rho), size1, 0, size2, bits)
  {
    hide Cong, Disjoint, RoomOnCircle, VarSum, Pow2, Wrap, Flagless, Readable, Form, Reading, Lowest, Residue, Place, OffsetDifference,
         Defined, Width;
    var w, k, low, r := Width(vars[1].v), Place(vars), Lowest(vars[1]), Residue(vars);
    var e, m, s := Wrap(OffsetDifference(vars), w), Pow2(w), vars[0].scale;
    ResidueIsLess(vars);
    Pow2Grows(k, w);
    var first := r + e < m && !RoomOnCircle(baseOffset + s * e, size1, size2, bits);
    var y := if first then low + r else low + r + m - Pow2(k);
    var x := if first then y + e else y + e - m;
    rho := ValueReached(vars, n, bits, y, if first then 0 else 1);
    FlaglessDefined(vars[0].v, rho);
    FlaglessDefined(vars[1].v, rho);
    FormsDiffer(vars, bits, rho, rho);
    ReadingIs(vars[0], bits, rho);
    SameLowest(vars);
    DifferenceReached(Reading(vars[0], rho), x, y, low, OffsetDifference(vars), w);
    OppositeModulo(vars, baseOffset, bits, rho, rho);
    SumOfPair(vars, rho);
    RoomIffDisjoint(baseOffset + s * (x - y), size1, size2, bits);
    DisjointByDifference(baseOffset + VarSum(vars, rho), size1, 0, size2, baseOffset + s * (x - y), bits);
  }

  lemma DifferenceReached(x': int, x: int, y: int, low: int, d: int, w: nat)
    requires low <= x' < low + Pow2(w) && low <= x < low + Pow2(w) && Cong(x' - y, d, Pow2(w))
    requires x - y == Wrap(d, w) || x - y == Wrap(d, w) - Pow2(w)
    ensures x' == x
  {
    hide Cong, Wrap, Pow2;
    var m: int, e: int := Pow2(w), Wrap(d, w);
    WrapCong(d, w);
    CongTrans(x' - y, d, e, m);
    CongBy(e, x - y, if x - y == e then 0 else 1, m);
    CongTrans(x' - y, e, x - y, m);
    CongRefl(y, m);
    CongAdd(x' - y, x - y, y, y, m);
    CongClose(x', x, m);
  }

  /** Some value of `x` gives the second variable the least number of its residue, or the greatest. */
  lemma ValueReached(vars: seq<VarIndex>, n: nat, bits: nat, y: int, last: nat) returns (rho: Valuation)
    requires SameForm(vars, bits) && ExtendedOnce(vars, bits) && Flagless(vars[1].v) && ReadableVars(vars)
    requires Form(vars, 1).v == Opaque(n, Width(vars[1].v)) && Form(vars, 1).s.sext == 0 && last <= 1
    requires y == Lowest(vars[1]) + Residue(vars) + last * (Pow2(Width(vars[1].v)) - Pow2(Place(vars)))
    ensures Reading(vars[1], rho) == y
  {
    hide Cong, Pow2, Wrap, Flagless, Readable, GetLinear, Reading, Lowest, CommonPlace, Defined;
    var w, k, low := Width(vars[1].v), Place(vars), Lowest(vars[1]);
    var r1, m, g := Form(vars, 1), Pow2(w), Pow2(Place(vars));
    var b, s := r1.s.offset, r1.s.scale;
    WrapCong(b - low, k);
    var q := Quotient(Wrap(b - low, k), b - low, g);
    var p := Quotients(w, k);
    var u := MultiplesReached(s, q + last * (p - 1), w);
    rho := map[n := Wrap(u, w)];
    FlaglessDefined(vars[1].v, rho);
    ReadingIs(vars[1], bits, rho);
    LinearIsAffine(vars[1].v, w, 0, rho);
    var x, v := Reading(vars[1], rho), Variable(r1, rho);
    OpaqueValue(r1, n, w, Wrap(u, w), rho);
    WrapCong(u, w);
    CongTrans(x, Eval(vars[1].v, rho), s * v + b, m);
    SolvedFor(x, s, v, u, b, q, last, p, g, y, low, m);
    Pow2Grows(k, w);
    ResidueIsLess(vars);
    CongClose(x, y, m);
  }

  lemma Quotients(w: nat, k: nat) returns (p: nat)
    requires k <= w
    ensures Pow2(w) == p * Pow2(k)
  {
    p := Pow2(w - k);
    Pow2Adds(k, w - k);
  }

  lemma OpaqueValue(r: Decomposed, n: nat, w: nat, v: nat, rho: Valuation)
    requires w > 0 && r.v == Opaque(n, w) && r.s.sext == 0 && v < Pow2(w) && rho == map[n := v]
    ensures Variable(r, rho) == v
  {
    hide Pow2, Wrap;
    WrapSmall(v, w);
  }

  lemma SolvedFor(x: int, s: int, v: int, u: int, b: int, q: int, last: int, p: int, g: int, y: int, low: int, m: int)
    requires Cong(x, s * v + b, m) && Cong(v, u, m) && Cong(s * u, (q + last * (p - 1)) * g, m)
    requires m == p * g && y == low + (b - low + q * g) + last * (m - g)
    ensures Cong(x, y, m)
  {
    hide Cong;
    CongScale(v, u, s, m);
    Commutes(v, s);
    Commutes(u, s);
    CongTrans(s * v, s * u, (q + last * (p - 1)) * g, m);
    CongRefl(b, m);
    CongAdd(s * v, (q + last * (p - 1)) * g, b, b, m);
    Expanded(q, last, p, g);
    CongTrans(x, s * v + b, y, m);
  }

  lemma Expanded(q: int, last: int, p: int, g: int)
    ensures (q + last * (p - 1)) * g == q * g + last * (p * g - g)
  {
    assert (last * (p - 1)) * g == last * ((p - 1) * g) by { Regrouped(last, p - 1, g); }
    assert (p - 1) * g == p * g - g;
  }

  // ---- Special cases ----

  /** `x + c` and `x`, equally extended and oppositely scaled. */
  function SumAndVariable(n: nat, k: nat, w: nat, c: nat, zext: nat, scale: int): seq<VarIndex>
    requires w > 0 && c < Pow2(w)
  {
    SumTyped(n, k, w, c);
    [VarIndex(Bin(k, AddOp, Opaque(n, w), c, false, false, false), zext, 0, scale),
     VarIndex(Opaque(n, w), zext, 0, 0 - scale)]
  }

  lemma SumTyped(n: nat, k: nat, w: nat, c: nat)
    requires w > 0 && c < Pow2(w)
    ensures Typed(Bin(k, AddOp, Opaque(n, w), c, false, false, false)) && Typed(Opaque(n, w))
  {
    hide Pow2;
  }

  /** For two such variables, where S is one, the differences are c and, unless it is zero, c - 2^w. */
  lemma {:induction false} HeuristicExactlyWhen(n: nat, k: nat, w: nat, c: nat, zext: nat, scale: int, baseOffset: int,
                                                size1: nat, size2: nat, bits: nat)
    requires w > 0 && c < Pow2(w)
    ensures (forall rho: Valuation :: Disjoint(baseOffset + VarSum(SumAndVariable(n, k, w, c, zext, scale), rho),
                                               size1, 0, size2, bits))
            <==> RoomOnCircle(baseOffset + scale * c, size1, size2, bits)
                 && (c != 0 ==> RoomOnCircle(baseOffset + scale * (c - Pow2(w)), size1, size2, bits))
  {
    hide Disjoint, VarSum, Pow2, Wrap, RoomOnCircle, SameForm, Form, Residue, OffsetDifference, Place;
    var vars := SumAndVariable(n, k, w, c, zext, scale);
    SumForms(n, k, w, c, zext, scale, bits);
    HeuristicExactIff(vars, n, size1, size2, baseOffset, bits);
  }

  lemma SumForms(n: nat, k: nat, w: nat, c: nat, zext: nat, scale: int, bits: nat)
    requires w > 0 && c < Pow2(w)
    ensures var vars := SumAndVariable(n, k, w, c, zext, scale);
            && SameForm(vars, bits) && Form(vars, 1).v == Opaque(n, w)
            && Wrap(OffsetDifference(vars), w) == c && Pow2(Place(vars)) == 1 && Residue(vars) == 0
  {
    hide Pow2, Wrap;
    var vars := SumAndVariable(n, k, w, c, zext, scale);
    PowOne();
    Pow2Grows(0, bits);
    WrapSmall(c, w);
    WrapSmall(0, 0);
    assert Form(vars, 1) == Give(Opaque(n, w), START);
    assert GetLinear(Opaque(n, w), w, 1, START) == Give(Opaque(n, w), START);
    assert Form(vars, 0).s.offset == Wrap(0 + c, w);
  }

  /** Variables as wide as the pointer have one distance on the circle, whatever their value; the
      answer holds if that distance, with the base and the sizes, does not exceed the circle. */
  lemma {:induction false} HeuristicAtFullWidth(vars: seq<VarIndex>, size1: nat, size2: nat, baseOffset: int,
                                                unstable: set<TypedExpr>, bits: nat, rho: Valuation)
    requires OffsetHeuristic(vars, size1, size2, baseOffset, unstable)
    requires ReadableVars(vars) && DefinedVars(vars, rho) && ExtendedOnce(vars, bits)
    requires Width(vars[0].v) == Width(vars[1].v) == bits && bits <= 64
    requires LeastDistance(OffsetDifference(vars), bits) * Abs(vars[0].scale) + Abs(baseOffset) + size1 + size2 <= Pow2(bits)
    ensures Disjoint(baseOffset + VarSum(vars, rho), size1, 0, size2, bits)
  {
    hide Cong, GetLinear, Defined, Signed, Pow2, Wrap, VarSum, Disjoint, Eval, LeastDistance, OffsetHeuristic,
         OffsetDifference, Width, Abs, ReadableVars, DefinedVars, ExtendedOnce;
    FiredDiffer(vars, size1, size2, baseOffset, unstable);
    if size1 == 0 || size2 == 0 {
      NothingIsDisjoint(baseOffset + VarSum(vars, rho), size1, size2, bits);
    } else {
      var d := OffsetDifference(vars);
      var e := LeastReached(d, bits);
      var p := vars[0].scale * e;
      OneDistance(vars, size1, size2, baseOffset, unstable, bits, rho, e);
      AbsProduct(vars[0].scale, e);
      Commutes(Abs(vars[0].scale), Abs(e));
      FiredFits(vars, size1, size2, baseOffset, unstable, bits);
      RoomForBoth(p, baseOffset, size1, size2, Pow2(bits));
      DistanceIsEnough(baseOffset + p, size1, size2, bits);
      DisjointByDifference(baseOffset + VarSum(vars, rho), size1, 0, size2, baseOffset + p, bits);
    }
  }

  lemma RoomForBoth(p: int, baseOffset: int, size1: nat, size2: nat, m: nat)
    requires size1 + Abs(baseOffset) <= Abs(p) && size2 + Abs(baseOffset) <= Abs(p)
    requires Abs(p) + Abs(baseOffset) + size1 + size2 <= m
    ensures var d := baseOffset + p;
            (d >= size2 && d + size1 <= m) || (0 - d >= size1 && size2 - d <= m)
  {
  }

  lemma FiredFits(vars: seq<VarIndex>, size1: nat, size2: nat, baseOffset: int, unstable: set<TypedExpr>, bits: nat)
    requires OffsetHeuristic(vars, size1, size2, baseOffset, unstable)
    requires Width(vars[0].v) == Width(vars[1].v) == bits && bits <= 64 && size1 > 0 && size2 > 0
    requires LeastDistance(OffsetDifference(vars), bits) * Abs(vars[0].scale) + Abs(baseOffset) + size1 + size2 <= Pow2(bits)
    ensures var gap := LeastDistance(OffsetDifference(vars), bits) * Abs(vars[0].scale);
            size1 + Abs(baseOffset) <= gap && size2 + Abs(baseOffset) <= gap
  {
    hide Pow2, LeastDistance, OffsetDifference, OffsetHeuristic, Abs;
    FiredDiffer(vars, size1, size2, baseOffset, unstable);
    Pow2Grows(bits, 64);
    NotNegative(LeastDistance(OffsetDifference(vars), bits), Abs(vars[0].scale));
    FiredDistance(vars, size1, size2, baseOffset, unstable);
  }

  lemma NotNegative(a: nat, b: nat)
    ensures a * b >= 0
  {
  }

  lemma OneDistance(vars: seq<VarIndex>, size1: nat, size2: nat, baseOffset: int, unstable: set<TypedExpr>, bits: nat,
                    rho: Valuation, e: int)
    requires OffsetHeuristic(vars, size1, size2, baseOffset, unstable) && bits <= 64
    requires ReadableVars(vars) && DefinedVars(vars, rho) && ExtendedOnce(vars, bits)
    requires Width(vars[0].v) == Width(vars[1].v) == bits && Cong(e, OffsetDifference(vars), Pow2(bits))
    ensures Cong(baseOffset + VarSum(vars, rho), baseOffset + vars[0].scale * e, Pow2(bits))
  {
    hide Cong, DifferByConstant, Form, Readable, Defined, Pow2, VarSum, LeastDistance, Reading, OffsetDifference, Residue, Place, PairSum,
         ReadableVars, ExtendedOnce, SameForm, Lowest, Abs, Eval, GetLinear, Signed, Wrap, Width, VarValue, OffsetHeuristic;
    FiredDiffer(vars, size1, size2, baseOffset, unstable);
    DifferingIsSameForm(vars, unstable, bits);
    OppositeScales(vars, bits);
    FormsDiffer(vars, bits, rho, rho);
    OppositeModulo(vars, baseOffset, bits, rho, rho);
    SumOfPair(vars, rho);
    hide DefinedVars;
    SameDistance(Reading(vars[0], rho) - Reading(vars[1], rho), OffsetDifference(vars), e, vars[0].scale,
                 baseOffset + VarSum(vars, rho), baseOffset, Pow2(bits));
  }

  lemma OppositeScales(vars: seq<VarIndex>, bits: nat)
    requires SameForm(vars, bits)
    ensures |vars| == 2 && (vars[0].scale + vars[1].scale) % Pow2(bits) == 0
  {
    hide Pow2, Form, Width;
  }

  lemma SameDistance(z: int, d: int, e: int, s: int, y: int, o: int, m: int)
    requires Cong(z, d, m) && Cong(e, d, m) && Cong(y, o + s * z, m)
    ensures Cong(y, o + s * e, m)
  {
    hide Cong;
    CongSym(e, d, m);
    CongTrans(z, d, e, m);
    CongScale(z, e, s, m);
    Commutes(s, z);
    Commutes(s, e);
    CongRefl(o, m);
    CongAdd(o, o, s * z, s * e, m);
    CongTrans(y, o + s * z, o + s * e, m);
  }

  /** When the scaled range of the variables cannot go around the address circle, that the heuristic
      answers is enough. */
  lemma {:induction false} HeuristicIsSound(vars: seq<VarIndex>, size1: nat, size2: nat, baseOffset: int,
                                            unstable: set<TypedExpr>, bits: nat, rho: Valuation)
    requires OffsetHeuristic(vars, size1, size2, baseOffset, unstable) && bits <= 64
    requires ReadableVars(vars) && DefinedVars(vars, rho) && ExtendedOnce(vars, bits)
    requires Abs(vars[0].scale) * Pow2(Width(vars[0].v)) + Abs(baseOffset) + size1 + size2 < Pow2(bits)
    ensures Disjoint(baseOffset + VarSum(vars, rho), size1, 0, size2, bits)
  {
    hide Cong, DifferByConstant, Form, Readable, Defined, Pow2, VarSum, LeastDistance, Reading, OffsetDifference, Residue, Place,
         Disjoint, Width, OffsetHeuristic, Lowest, Abs, PairSum;
    FiredDiffer(vars, size1, size2, baseOffset, unstable);
    DifferingIsSameForm(vars, unstable, bits);
    FormsDiffer(vars, bits, rho, rho);
    ReadingIs(vars[0], bits, rho);
    ReadingIs(vars[1], bits, rho);
    SameLowest(vars);
    OppositeModulo(vars, baseOffset, bits, rho, rho);
    SumOfPair(vars, rho);
    Pow2Grows(bits, 64);
    NotNegative(Abs(vars[0].scale), Pow2(Width(vars[0].v)));
    FiredDistance(vars, size1, size2, baseOffset, unstable);
    var d, s := Reading(vars[0], rho) - Reading(vars[1], rho), vars[0].scale;
    LeastDistanceIsLeast(Reading(vars[0], rho), Reading(vars[1], rho), OffsetDifference(vars), Width(vars[1].v));
    AbsProduct(s, d);
    AbsBelow(d, Pow2(Width(vars[0].v)));
    ProductGrows(Abs(d), Pow2(Width(vars[0].v)), Abs(s));
    ProductGrows(LeastDistance(OffsetDifference(vars), Width(vars[1].v)), Abs(d), Abs(s));
    RoomForBoth(s * d, baseOffset, size1, size2, Pow2(bits));
    DistanceIsEnough(baseOffset + s * d, size1, size2, bits);
    DisjointByDifference(baseOffset + VarSum(vars, rho), size1, 0, size2, baseOffset + s * d, bits);
  }

  lemma FiredDiffer(vars: seq<VarIndex>, size1: nat, size2: nat, baseOffset: int, unstable: set<TypedExpr>)
    requires OffsetHeuristic(vars, size1, size2, baseOffset, unstable)
    ensures DifferByConstant(vars, unstable) && |vars| == 2 && Width(vars[0].v) == Width(vars[1].v)
  {
    hide DifferByConstant;
    HeuristicHasTwo(vars, unstable);
  }

  lemma AbsBelow(d: int, m: int)
    requires -m < d < m
    ensures Abs(d) <= m
  {
  }

  lemma LeastReached(d: int, w: nat) returns (e: int)
    ensures Abs(e) == LeastDistance(d, w) && Cong(e, d, Pow2(w))
  {
    hide Cong, Pow2, Wrap;
    var m := Pow2(w);
    WrapCong(d, w);
    WrapCong(0 - d, w);
    if Wrap(d, w) < Wrap(0 - d, w) {
      e := Wrap(d, w);
    } else {
      e := 0 - Wrap(0 - d, w);
      CongRefl(0, m);
      CongSub(0, 0, Wrap(0 - d, w), 0 - d, m);
    }
  }

  /** What it means that the heuristic answers, if the sizes do not overflow. */
  lemma FiredDistance(vars: seq<VarIndex>, size1: nat, size2: nat, baseOffset: int, unstable: set<TypedExpr>)
    requires OffsetHeuristic(vars, size1, size2, baseOffset, unstable)
    requires size1 + Abs(baseOffset) < Pow2(64) && size2 + Abs(baseOffset) < Pow2(64)
    ensures |vars| == 2 && Width(vars[0].v) == Width(vars[1].v)
    ensures var gap := LeastDistance(OffsetDifference(vars), Width(vars[1].v)) * Abs(vars[0].scale);
            size1 + Abs(baseOffset) <= gap && size2 + Abs(baseOffset) <= gap
  {
    hide GetLinear, Pow2, Wrap, Signed, LeastDistance;
    HeuristicHasTwo(vars, unstable);
    WrapIsLess(LeastDistance(OffsetDifference(vars), Width(vars[1].v)) * Abs(vars[0].scale), 64);
    WrapIsLess(size1 + Abs(baseOffset), 64);
    WrapIsLess(size2 + Abs(baseOffset), 64);
  }
}
