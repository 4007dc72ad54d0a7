/** Reading an integer value as Scale*V + Offset. */
module LinearExpressions {
  import opened MachineArithmetic

  datatype Op = AddOp | SubOp | MulOp | ShlOp | OrOp | AndOp

  /** An integer value as the analysis sees it: a constant, a value it does not look into, a
      binary operation whose right operand is a constant, or an extension.  The name is the
      identity of the instruction.  `disjoint` records that known-bits analysis found no common
      bit of the two operands. */
  datatype Expr =
    | Const(width: nat, value: nat)
    | Opaque(name: nat, width: nat)
    | Bin(name: nat, op: Op, operand: Expr, constant: nat, nuw: bool, nsw: bool, disjoint: bool)
    | Ext(name: nat, sext: bool, operand: Expr, width: nat)

  function Width(e: Expr): nat {
    match e
    case Const(w, _) => w
    case Opaque(_, w) => w
    case Bin(_, _, x, _, _, _, _) => Width(x)
    case Ext(_, _, _, w) => w
  }

  predicate Typed(e: Expr)
    ensures Typed(e) ==> Width(e) > 0
  {
    match e
    case Const(w, v) => w > 0 && v < Pow2(w)
    case Opaque(_, w) => w > 0
    case Bin(_, _, x, c, _, _, _) => Typed(x) && c < Pow2(Width(x))
    case Ext(_, _, x, w) => Typed(x) && Width(x) < w
  }

  type TypedExpr = e: Expr | Typed(e) witness Const(1, 0)

  predicate SExtFree(e: Expr) {
    match e
    case Const(_, _) => true
    case Opaque(_, _) => true
    case Bin(_, _, x, _, _, _, _) => SExtFree(x)
    case Ext(_, sext, x, _) => !sext && SExtFree(x)
  }

  // ---- Meaning ----

  /** What the values the analysis does not look into happen to be. */
  type Valuation = map<nat, nat>

  function Eval(e: Expr, rho: Valuation): (r: nat)
    requires Typed(e)
    ensures r < Pow2(Width(e))
  {
    match e
    case Const(_, v) => v
    case Opaque(n, w) => Wrap(if n in rho then rho[n] else 0, w)
    case Bin(_, op, x, c, _, _, _) => EvalOp(op, Eval(x, rho), c, Width(x))
    case Ext(_, sext, x, w) => if sext then Wrap(Signed(Eval(x, rho), Width(x)), w) else Extended(Eval(x, rho), Width(x), w)
  }

  function EvalOp(op: Op, x: nat, c: nat, w: nat): (r: nat)
    requires x < Pow2(w) && c < Pow2(w)
    ensures r < Pow2(w)
  {
    match op
    case AddOp => Wrap(x + c, w)
    case SubOp => Wrap(x - c, w)
    case MulOp => Wrap(x * c, w)
    case ShlOp => Wrap(x * Pow2(c), w)
    case OrOp => OrFits(x, c, w); BitOr(x, c)
    case AndOp => BitAnd(x, c)
  }

  function Extended(x: nat, small: nat, w: nat): (r: nat)
    requires x < Pow2(small) && small < w
    ensures r == x && r < Pow2(w)
  {
    Pow2Grows(small, w);
    x
  }

  /** The exact results of an operation, on the operands read unsigned and read signed. */
  function Exact(op: Op, x: int, c: int, amount: nat): int {
    match op
    case AddOp => x + c
    case SubOp => x - c
    case MulOp => x * c
    case ShlOp => x * Pow2(amount)
    case _ => 0
  }

  /** The value is not poison: no flag promises in vain, no shift is too far, and the known-bits
      analysis was right. */
  predicate Defined(e: Expr, rho: Valuation)
    requires Typed(e)
  {
    match e
    case Const(_, _) => true
    case Opaque(_, _) => true
    case Ext(_, _, x, _) => Defined(x, rho)
    case Bin(_, op, x, c, nuw, nsw, disjoint) =>
      var v, w := Eval(x, rho), Width(x);
      && Defined(x, rho)
      && (op == ShlOp ==> c < w)
      && (op == OrOp && disjoint ==> BitAnd(v, c) == 0)
      && (nuw && op != OrOp && op != AndOp ==> 0 <= Exact(op, v, c, c) < Pow2(w))
      && (nsw && op != OrOp && op != AndOp ==> FitsSigned(Exact(op, Signed(v, w), Signed(c, w), c), w))
  }

  // ---- The decomposition ----

  /** What the recursion passes by reference. */
  datatype Lin = Lin(scale: nat, offset: nat, zext: nat, sext: nat, nsw: bool, nuw: bool)

  datatype Decomposed = Decomposed(v: Expr, s: Lin)

  const MAXDEPTH: nat := 6

  /** `e` itself, once. */
  function Give(e: Expr, s: Lin): Decomposed {
    Decomposed(e, s.(scale := 1, offset := 0))
  }

  predicate Understood(op: Op, disjoint: bool) {
    op != AndOp && (op == OrOp ==> disjoint)
  }

  /** The decomposition of `e`, in numbers as wide as the outermost value, `big` bits. */
  function GetLinear(e: Expr, big: nat, depth: nat, s: Lin): (r: Decomposed)
    requires Typed(e) && Width(e) <= big && depth <= MAXDEPTH
    ensures Typed(r.v) && Width(r.v) <= Width(e)
    decreases e
  {
    if depth == MAXDEPTH then Give(e, s)
    else match e
      case Const(_, c) => Decomposed(e, s.(offset := Wrap(s.offset + c, big)))
      case Opaque(_, _) => Give(e, s)
      case Bin(_, op, x, c, nuw, nsw, disjoint) =>
        if !Understood(op, disjoint) then Give(e, s)
        else
          var r := GetLinear(x, big, depth + 1, s);
          Decomposed(r.v, ApplyOp(op, c, nuw, nsw, big, r.s))
      case Ext(_, sext, x, w) =>
        var r := GetLinear(x, big, depth + 1, s);
        var added := w - Width(x);
        if sext && r.s.zext == 0 then
          if r.s.nsw then
            Decomposed(r.v, r.s.(offset := Wrap(Wrap(Signed(r.s.offset, Width(x)), w), big), sext := r.s.sext + added))
          else Decomposed(x, r.s.(scale := 1, offset := 0, zext := s.zext, sext := s.sext + added))
        else if r.s.nuw then Decomposed(r.v, r.s.(zext := r.s.zext + added))
        else Decomposed(x, r.s.(scale := 1, offset := 0, zext := s.zext + added, sext := s.sext))
  }

  function ApplyOp(op: Op, c: nat, nuw: bool, nsw: bool, big: nat, s: Lin): Lin {
    match op
    case AddOp => s.(offset := Wrap(s.offset + c, big), nuw := s.nuw && nuw, nsw := s.nsw && nsw)
    case SubOp => s.(offset := Wrap(s.offset - c, big), nuw := s.nuw && nuw, nsw := s.nsw && nsw)
    case MulOp => s.(offset := Wrap(s.offset * c, big), scale := Wrap(s.scale * c, big),
                     nuw := s.nuw && nuw, nsw := s.nsw && nsw)
    case ShlOp => s.(offset := Wrap(s.offset * Pow2(c), big), scale := Wrap(s.scale * Pow2(c), big),
                     nuw := false, nsw := false)
    case OrOp => s.(offset := Wrap(s.offset + c, big))
    case AndOp => s
  }

  // ---- The decomposition is affine ----

  /** A number of `w` bits, sign extended by `sext` bits. */
  function SignExtended(x: nat, w: nat, sext: nat): (r: nat)
    requires w > 0 && x < Pow2(w)
    ensures r < Pow2(w + sext)
  {
    if sext > 0 then Wrap(Signed(x, w), w + sext) else x
  }

  /** What V stands for, with its sign bits; zero bits do not change a number. */
  function Variable(r: Decomposed, rho: Valuation): nat
    requires Typed(r.v)
  {
    SignExtended(Eval(r.v, rho), Width(r.v), r.s.sext)
  }

  function AffineValue(r: Decomposed, rho: Valuation): int
    requires Typed(r.v)
  {
    r.s.scale * Variable(r, rho) + r.s.offset
  }

  /** Scale*V + Offset is the value in the value's own width; while the no-unsigned-wrap flag
      holds, even in the outermost width. */
  ghost predicate Affine(x: int, w: nat, big: nat, r: Decomposed, rho: Valuation)
    requires Typed(r.v)
  {
    && Cong(x, AffineValue(r, rho), Pow2(w))
    && (r.s.nuw ==> Cong(x, AffineValue(r, rho), Pow2(big)))
  }

  lemma StepAdd(x: int, y: int, a: int, v: int, b: int, c: int, n: nat, big: nat)
    requires n <= big && Cong(x, a * v + b, Pow2(n)) && Cong(y, x + c, Pow2(n))
    ensures Cong(y, a * v + Wrap(b + c, big), Pow2(n))
  {
    var m := Pow2(n);
    WrapCong(b + c, big);
    CongNarrow(b + c, Wrap(b + c, big), big, n);
    CongRefl(a * v, m);
    CongAdd(a * v, a * v, b + c, Wrap(b + c, big), m);
    CongRefl(c, m);
    CongAdd(x, a * v + b, c, c, m);
    CongTrans(y, x + c, a * v + b + c, m);
    CongTrans(y, a * v + b + c, a * v + Wrap(b + c, big), m);
  }

  lemma StepMul(x: int, y: int, a: int, v: int, b: int, c: int, n: nat, big: nat)
    requires n <= big && Cong(x, a * v + b, Pow2(n)) && Cong(y, x * c, Pow2(n))
    ensures Cong(y, Wrap(a * c, big) * v + Wrap(b * c, big), Pow2(n))
  {
    var m := Pow2(n);
    WrapCong(a * c, big);
    WrapCong(b * c, big);
    CongNarrow(a * c, Wrap(a * c, big), big, n);
    CongNarrow(b * c, Wrap(b * c, big), big, n);
    CongScale(a * c, Wrap(a * c, big), v, m);
    CongAdd((a * c) * v, Wrap(a * c, big) * v, b * c, Wrap(b * c, big), m);
    CongScale(x, a * v + b, c, m);
    assert (a * v + b) * c == (a * c) * v + b * c by { Distribute(a, v, b, c); }
    CongTrans(y, x * c, (a * c) * v + b * c, m);
    CongTrans(y, (a * c) * v + b * c, Wrap(a * c, big) * v + Wrap(b * c, big), m);
  }

  lemma Distribute(a: int, v: int, b: int, c: int)
    ensures (a * v + b) * c == (a * c) * v + b * c
  {
  }

  /** What one understood operation does, modulo the value's width, and exactly when no wrap is
      promised. */
  lemma OpIsExact(op: Op, x: nat, c: nat, w: nat, nuw: bool, disjoint: bool)
    requires x < Pow2(w) && c < Pow2(w) && Understood(op, disjoint)
    requires op == OrOp ==> BitAnd(x, c) == 0
    requires nuw && op != OrOp ==> 0 <= Exact(op, x, c, c) < Pow2(w)
    ensures op != OrOp ==> Cong(EvalOp(op, x, c, w), Exact(op, x, c, c), Pow2(w))
    ensures op != OrOp && nuw ==> EvalOp(op, x, c, w) == Exact(op, x, c, c)
    ensures op == OrOp ==> EvalOp(op, x, c, w) == x + c
  {
    if op == OrOp {
      DisjointOrAdds(x, c);
    } else {
      var y := Exact(op, x, c, c);
      WrapCong(y, w);
      if nuw {
        CongClose(Wrap(y, w), y, Pow2(w));
      }
    }
  }

  lemma {:induction false} OpIsAffine(op: Op, x: nat, c: nat, w: nat, nuw: bool, nsw: bool, disjoint: bool, big: nat,
                                      r: Decomposed, rho: Valuation)
    requires w <= big && x < Pow2(w) && c < Pow2(w) && Understood(op, disjoint) && Typed(r.v)
    requires op == OrOp ==> BitAnd(x, c) == 0
    requires nuw && op != OrOp ==> 0 <= Exact(op, x, c, c) < Pow2(w)
    requires Affine(x, w, big, r, rho)
    ensures Affine(EvalOp(op, x, c, w), w, big, Decomposed(r.v, ApplyOp(op, c, nuw, nsw, big, r.s)), rho)
  {
    hide Eval, EvalOp, SignExtended, Cong, Wrap;
    OpIsExact(op, x, c, w, nuw, disjoint);
    var y, v := EvalOp(op, x, c, w), Variable(r, rho);
    OpKeepsExtensions(op, c, nuw, nsw, big, r.s);
    CongRefl(y, Pow2(big));
    CongRefl(y, Pow2(w));
    OpInWidth(op, x, y, r.s.scale, v, r.s.offset, c, w, big);
    if r.s.nuw && (op == OrOp || nuw) && op != ShlOp {
      OpInWidth(op, x, y, r.s.scale, v, r.s.offset, c, big, big);
    }
  }

  lemma {:induction false} OpInWidth(op: Op, x: int, y: int, a: nat, v: int, b: nat, c: nat, n: nat, big: nat)
    requires n <= big && op != AndOp && Cong(x, a * v + b, Pow2(n))
    requires Cong(y, if op == OrOp then x + c else Exact(op, x, c, c), Pow2(n))
    ensures var s := ApplyOp(op, c, true, true, big, Lin(a, b, 0, 0, true, true));
            Cong(y, s.scale * v + s.offset, Pow2(n))
  {
    hide Cong, Wrap;
    match op
    case AddOp => StepAdd(x, y, a, v, b, c, n, big);
    case OrOp => StepAdd(x, y, a, v, b, c, n, big);
    case SubOp => StepAdd(x, y, a, v, b, 0 - c, n, big);
    case MulOp => StepMul(x, y, a, v, b, c, n, big);
    case ShlOp => StepMul(x, y, a, v, b, Pow2(c), n, big);
  }

  lemma GivenIsAffine(x: int, w: nat, big: nat, v: Expr, s: Lin, rho: Valuation)
    requires Typed(v) && x == SignExtended(Eval(v, rho), Width(v), s.sext) && s.scale == 1 && s.offset == 0
    ensures Affine(x, w, big, Decomposed(v, s), rho)
  {
    CongRefl(x, Pow2(w));
    CongRefl(x, Pow2(big));
  }

  lemma WrapSmall(x: nat, w: nat)
    requires x < Pow2(w)
    ensures Wrap(x, w) == x
  {
    WrapCong(x, w);
    CongClose(Wrap(x, w), x, Pow2(w));
  }

  lemma WrapTwice(x: int, c: int, w: nat)
    ensures Wrap(Wrap(x, w) + c, w) == Wrap(x + c, w)
  {
    var m := Pow2(w);
    WrapCong(x, w);
    CongRefl(c, m);
    CongAdd(Wrap(x, w), x, c, c, m);
    WrapCong(Wrap(x, w) + c, w);
    WrapCong(x + c, w);
    CongTrans(Wrap(Wrap(x, w) + c, w), Wrap(x, w) + c, x + c, m);
    CongTrans(Wrap(Wrap(x, w) + c, w), x + c, Wrap(x + c, w), m);
    CongClose(Wrap(Wrap(x, w) + c, w), Wrap(x + c, w), m);
  }

  // ---- Sums without signed wraps ----

  /** A sum of constants and of something the analysis takes as it is; no addition or subtraction
      wraps as a signed one. */
  predicate NswSum(e: Expr, depth: nat) {
    depth >= MAXDEPTH ||
    match e
    case Opaque(_, _) => true
    case Bin(_, op, x, _, _, nsw, disjoint) =>
      !Understood(op, disjoint) || (((op == AddOp && nsw) || (op == SubOp && nsw) || op == OrOp) && NswSum(x, depth + 1))
    case _ => false
  }

  /** The constants of the sum, as signed numbers. */
  function SumOffset(e: Expr, depth: nat): int
    requires Typed(e)
  {
    if depth >= MAXDEPTH then 0
    else match e
      case Bin(_, op, x, c, _, _, disjoint) =>
        if !Understood(op, disjoint) then 0
        else if op == SubOp then SumOffset(x, depth + 1) - Signed(c, Width(x))
        else SumOffset(x, depth + 1) + Signed(c, Width(x))
      case _ => 0
  }

  lemma {:induction false} NswSumLinear(e: Expr, big: nat, depth: nat, k: nat)
    requires Typed(e) && Width(e) <= big && depth <= MAXDEPTH && NswSum(e, depth)
    ensures var r := GetLinear(e, big, depth, Lin(0, 0, 0, k, true, true));
            && r.s.scale == 1 && r.s.zext == 0 && r.s.sext == k && r.s.nsw && Width(r.v) == Width(e)
            && Cong(r.s.offset, SumOffset(e, depth), Pow2(Width(e)))
    decreases e
  {
    hide Cong, Wrap, Pow2, Signed;
    var s := Lin(0, 0, 0, k, true, true);
    CongRefl(0, Pow2(Width(e)));
    if depth < MAXDEPTH && e.Bin? && Understood(e.op, e.disjoint) {
      NswSumLinear(e.operand, big, depth + 1, k);
      var r := GetLinear(e.operand, big, depth + 1, s);
      OffsetStep(e.op, r.s.offset, SumOffset(e.operand, depth + 1), e.constant, Width(e), big);
    }
  }

  lemma OffsetStep(op: Op, offset: int, sum: int, c: nat, w: nat, big: nat)
    requires 0 < w <= big && Cong(offset, sum, Pow2(w))
    ensures Cong(Wrap(offset + c, big), sum + Signed(c, w), Pow2(w))
    ensures Cong(Wrap(offset - c, big), sum - Signed(c, w), Pow2(w))
  {
    hide Cong, Wrap, Pow2, Signed;
    var m := Pow2(w);
    SignedCong(c, w);
    CongAdd(offset, sum, c, Signed(c, w), m);
    CongSub(offset, sum, c, Signed(c, w), m);
    WrapCong(offset + c, big);
    WrapCong(offset - c, big);
    CongNarrow(Wrap(offset + c, big), offset + c, big, w);
    CongNarrow(Wrap(offset - c, big), offset - c, big, w);
    CongTrans(Wrap(offset + c, big), offset + c, sum + Signed(c, w), m);
    CongTrans(Wrap(offset - c, big), offset - c, sum - Signed(c, w), m);
  }

  /** The sum is a sum of integers. */
  lemma {:induction false} NswSumValue(e: Expr, big: nat, depth: nat, k: nat, rho: Valuation)
    requires Typed(e) && Width(e) <= big && depth <= MAXDEPTH && NswSum(e, depth) && Defined(e, rho)
    ensures var r, w := GetLinear(e, big, depth, Lin(0, 0, 0, k, true, true)), Width(e);
            Width(r.v) == w && Defined(r.v, rho) && Signed(Eval(e, rho), w) == Signed(Eval(r.v, rho), w) + SumOffset(e, depth)
    decreases e
  {
    hide Wrap, Pow2, Signed, ApplyOp, EvalOp, Exact, BitAnd;
    if depth < MAXDEPTH && e.Bin? && Understood(e.op, e.disjoint) {
      NswSumValue(e.operand, big, depth + 1, k, rho);
      SignedStep(e.op, Eval(e.operand, rho), e.constant, Width(e));
    }
  }

  /** One addition, subtraction or disjoint or, without a signed wrap, is one of integers. */
  lemma SignedStep(op: Op, x: nat, c: nat, w: nat)
    requires w > 0 && x < Pow2(w) && c < Pow2(w) && (op == AddOp || op == SubOp || op == OrOp)
    requires if op == OrOp then BitAnd(x, c) == 0 else FitsSigned(Exact(op, Signed(x, w), Signed(c, w), c), w)
    ensures Signed(EvalOp(op, x, c, w), w) == Signed(x, w) + if op == SubOp then 0 - Signed(c, w) else Signed(c, w)
  {
    hide Wrap, Pow2, Signed, BitAnd, BitOr, Cong;
    match op
    case AddOp => AddSigned(x, c, w);
    case SubOp => SubSigned(x, c, w);
    case OrOp => OrSigned(x, c, w);
    case _ =>
  }

  lemma AddSigned(v: nat, c: nat, w: nat)
    requires w > 0 && FitsSigned(Signed(v, w) + Signed(c, w), w)
    ensures Signed(Wrap(v + c, w), w) == Signed(v, w) + Signed(c, w)
  {
    var m := Pow2(w);
    SignedCong(v, w);
    SignedCong(c, w);
    CongAdd(v, Signed(v, w), c, Signed(c, w), m);
    WrapCong(v + c, w);
    CongTrans(Wrap(v + c, w), v + c, Signed(v, w) + Signed(c, w), m);
    SignedUnique(Wrap(v + c, w), Signed(v, w) + Signed(c, w), w);
  }

  lemma SubSigned(v: nat, c: nat, w: nat)
    requires w > 0 && FitsSigned(Signed(v, w) - Signed(c, w), w)
    ensures Signed(Wrap(v - c, w), w) == Signed(v, w) - Signed(c, w)
  {
    hide Wrap, Pow2, Signed, Cong;
    var m := Pow2(w);
    SignedCong(v, w);
    SignedCong(c, w);
    CongSub(v, Signed(v, w), c, Signed(c, w), m);
    WrapCong(v - c, w);
    CongTrans(Wrap(v - c, w), v - c, Signed(v, w) - Signed(c, w), m);
    SignedUnique(Wrap(v - c, w), Signed(v, w) - Signed(c, w), w);
  }

  /** Of two disjoint numbers only one has the sign bit. */
  lemma OrSigned(x: nat, c: nat, w: nat)
    requires w > 0 && x < Pow2(w) && c < Pow2(w) && BitAnd(x, c) == 0
    ensures Signed(BitOr(x, c), w) == Signed(x, w) + Signed(c, w)
  {
    hide Wrap, Pow2, Signed, BitAnd, BitOr, Cong;
    DisjointOrAdds(x, c);
    OrFits(x, c, w);
    Pow2Next(w - 1);
    SignedSmall(x, w);
    SignedSmall(c, w);
    SignedSmall(x + c, w);
    if x < Pow2(w - 1) && c < Pow2(w - 1) {
      OrFits(x, c, w - 1);
    }
  }

  lemma SignedSmall(x: nat, w: nat)
    requires w > 0 && x < Pow2(w)
    ensures Signed(x, w) == if x < Pow2(w - 1) then x else x - Pow2(w)
  {
    hide Pow2, Wrap;
    WrapSmall(x, w);
  }

  // ---- Where the decomposition is exact ----

  /** Sign extensions are of something taken as it is, of a zero extension, or of a sum without
      wraps whose constants can be read back from their low bits. */
  predicate Readable(e: Expr, big: nat, depth: nat)
    requires Typed(e) && Width(e) <= big
    decreases e
  {
    depth >= MAXDEPTH ||
    match e
    case Const(_, _) => true
    case Opaque(_, _) => true
    case Bin(_, op, x, _, _, _, disjoint) => Understood(op, disjoint) ==> Readable(x, big, depth + 1)
    case Ext(_, sext, x, w) =>
      var s := GetLinear(x, big, depth + 1, START).s;
      if sext && s.zext == 0 then
        s.nsw ==> NswSum(x, depth + 1) && FitsSigned(SumOffset(x, depth + 1), Width(x))
                  && (w == big || SumOffset(x, depth + 1) == 0)
      else (sext ==> x.Ext? && !x.sext) && (s.nuw ==> Readable(x, big, depth + 1))
  }

  const START: Lin := Lin(0, 0, 0, 0, true, true)

  /** Without sign extensions everything is. */
  lemma {:induction false} SExtFreeReadable(e: Expr, big: nat, depth: nat)
    requires Typed(e) && Width(e) <= big && SExtFree(e)
    ensures Readable(e, big, depth)
    decreases e
  {
    hide Wrap, Pow2, Signed;
    if depth < MAXDEPTH {
      match e
      case Bin(_, _, x, _, _, _, _) => SExtFreeReadable(x, big, depth + 1);
      case Ext(_, _, x, _) => SExtFreeReadable(x, big, depth + 1);
      case _ =>
    }
  }

  /** The decomposition preserves meaning for every valuation without poison; and V is the value
      the extension bits say it is. */
  lemma {:induction false} LinearIsAffine(e: Expr, big: nat, depth: nat, rho: Valuation)
    requires Typed(e) && Width(e) <= big && depth <= MAXDEPTH && Readable(e, big, depth) && Defined(e, rho)
    ensures var r := GetLinear(e, big, depth, START);
            Affine(Eval(e, rho), Width(e), big, r, rho) && Defined(r.v, rho)
    decreases e
  {
    hide Cong, EvalOp, ApplyOp, Wrap, Affine, AffineValue, Pow2, Signed, FitsSigned, Exact, BitAnd, NswSum, SumOffset;
    var r := GetLinear(e, big, depth, START);
    if depth == MAXDEPTH {
      GivenIsAffine(Eval(e, rho), Width(e), big, e, r.s, rho);
    } else {
      match e
      case Const(_, c) =>
        ConstIsAffine(c, Width(e), big, r, rho);
      case Opaque(_, _) =>
        GivenIsAffine(Eval(e, rho), Width(e), big, e, r.s, rho);
      case Bin(_, op, x, c, nuw, nsw, disjoint) =>
        if Understood(op, disjoint) {
          LinearIsAffine(x, big, depth + 1, rho);
          OpIsAffine(op, Eval(x, rho), c, Width(x), nuw, nsw, disjoint, big, GetLinear(x, big, depth + 1, START), rho);
        } else {
          GivenIsAffine(Eval(e, rho), Width(e), big, e, r.s, rho);
        }
      case Ext(_, sext, x, w) =>
        var inner := GetLinear(x, big, depth + 1, START).s;
        if inner.nuw && !(sext && inner.zext == 0) {
          LinearIsAffine(x, big, depth + 1, rho);
        }
        ExtensionIsAffine(e, big, depth, rho);
    }
  }

  /** An extension, given that what is extended is affine. */
  lemma {:induction false} ExtensionIsAffine(e: Expr, big: nat, depth: nat, rho: Valuation)
    requires Typed(e) && e.Ext? && Width(e) <= big && depth < MAXDEPTH && Readable(e, big, depth) && Defined(e, rho)
    requires var inner := GetLinear(e.operand, big, depth + 1, START);
             inner.s.nuw && !(e.sext && inner.s.zext == 0) ==>
               Affine(Eval(e.operand, rho), Width(e.operand), big, inner, rho) && Defined(inner.v, rho)
    ensures var r := GetLinear(e, big, depth, START);
            Affine(Eval(e, rho), Width(e), big, r, rho) && Defined(r.v, rho)
  {
    hide Cong, Wrap, Affine, AffineValue, Pow2, Signed, FitsSigned, NswSum, SumOffset, SignExtended;
    var Ext(_, sext, x, w) := e;
    var inner, r := GetLinear(x, big, depth + 1, START), GetLinear(e, big, depth, START);
    ExtensionForm(e, big, depth, rho);
    hide GetLinear, Readable, Eval, Defined;
    if sext && inner.s.zext == 0 {
      FoldedOrFresh(x, w, big, depth, r, rho);
    } else {
      if sext {
        SExtOfZExt(x, w, rho);
      }
      ExtIsAffine(Eval(x, rho), Width(x), w, big, inner, r, x, rho);
    }
  }

  /** A sign extension with no zero extension further inside. */
  lemma FoldedOrFresh(x: Expr, w: nat, big: nat, depth: nat, r: Decomposed, rho: Valuation)
    requires Typed(x) && Width(x) < w <= big && depth < MAXDEPTH && Defined(x, rho)
    requires var inner, n := GetLinear(x, big, depth + 1, START), Width(x);
             && inner.s.zext == 0
             && if inner.s.nsw then
                  && NswSum(x, depth + 1) && FitsSigned(SumOffset(x, depth + 1), n) && (w == big || SumOffset(x, depth + 1) == 0)
                  && r == Decomposed(inner.v, inner.s.(offset := Wrap(Wrap(Signed(inner.s.offset, n), w), big),
                                                       sext := inner.s.sext + (w - n)))
                else r == Decomposed(x, inner.s.(scale := 1, offset := 0, zext := 0, sext := w - n))
    ensures Affine(Wrap(Signed(Eval(x, rho), Width(x)), w), w, big, r, rho) && Defined(r.v, rho)
  {
    hide Cong, Wrap, Affine, AffineValue, Pow2, Signed, FitsSigned, NswSum, SumOffset, SignExtended, GetLinear, Eval, Defined;
    var inner, y := GetLinear(x, big, depth + 1, START), Wrap(Signed(Eval(x, rho), Width(x)), w);
    if inner.s.nsw {
      NswSumLinear(x, big, depth + 1, 0);
      NswSumValue(x, big, depth + 1, 0, rho);
      FoldIsAffine(y, w, big, inner, SumOffset(x, depth + 1), r, rho);
    } else {
      SignExtendedBy(Eval(x, rho), Width(x), w - Width(x));
      GivenIsAffine(y, w, big, x, r.s, rho);
    }
  }

  /** What the definitions say about an extension. */
  lemma ExtensionForm(e: Expr, big: nat, depth: nat, rho: Valuation)
    requires Typed(e) && e.Ext? && Width(e) <= big && depth < MAXDEPTH && Readable(e, big, depth) && Defined(e, rho)
    ensures var Ext(_, sext, x, w) := e;
            var inner, r := GetLinear(x, big, depth + 1, START), GetLinear(e, big, depth, START);
            && Defined(x, rho)
            && Eval(e, rho) == (if sext then Wrap(Signed(Eval(x, rho), Width(x)), w) else Eval(x, rho))
            && if sext && inner.s.zext == 0 then
                 if inner.s.nsw then
                   && NswSum(x, depth + 1) && FitsSigned(SumOffset(x, depth + 1), Width(x))
                   && (w == big || SumOffset(x, depth + 1) == 0)
                   && r == Decomposed(inner.v, inner.s.(offset := Wrap(Wrap(Signed(inner.s.offset, Width(x)), w), big),
                                                        sext := inner.s.sext + (w - Width(x))))
                 else r == Decomposed(x, inner.s.(scale := 1, offset := 0, zext := 0, sext := w - Width(x)))
               else
                 && (sext ==> x.Ext? && !x.sext)
                 && r.s.nuw == inner.s.nuw
                 && if inner.s.nuw then r == Decomposed(inner.v, inner.s.(zext := inner.s.zext + (w - Width(x))))
                    else r == Decomposed(x, inner.s.(scale := 1, offset := 0, zext := w - Width(x), sext := 0))
  {
    hide Cong, Wrap, Pow2, Signed, FitsSigned, NswSum, SumOffset;
  }

  /** Sign extending a zero extension adds zeros. */
  lemma SExtOfZExt(x: Expr, w: nat, rho: Valuation)
    requires Typed(x) && x.Ext? && !x.sext && Width(x) < w
    ensures Wrap(Signed(Eval(x, rho), Width(x)), w) == Eval(x, rho)
  {
    hide Pow2, Wrap, Signed;
    var v := Eval(x, rho);
    Pow2Grows(Width(x.operand), Width(x) - 1);
    SignedSmall(v, Width(x));
    Pow2Grows(Width(x), w);
    WrapSmall(v, w);
  }

  /** A sign extension of a sum without wraps is the sum of the extended variable and constant. */
  lemma FoldIsAffine(y: nat, w: nat, big: nat, inner: Decomposed, sum: int, r: Decomposed, rho: Valuation)
    requires Typed(inner.v) && w <= big && Width(inner.v) < w && inner.s.scale == 1 && inner.s.sext == 0
    requires var n := Width(inner.v);
             && FitsSigned(sum, n) && Cong(inner.s.offset, sum, Pow2(n)) && (w == big || sum == 0)
             && y == Wrap(Signed(Eval(inner.v, rho), n) + sum, w)
             && r == Decomposed(inner.v, inner.s.(offset := Wrap(Wrap(Signed(inner.s.offset, n), w), big), sext := w - n))
    ensures Affine(y, w, big, r, rho)
  {
    hide Cong, Eval, Pow2, Signed, FitsSigned, Wrap;
    var n, m, v := Width(inner.v), Pow2(w), Signed(Eval(inner.v, rho), Width(inner.v));
    SignedUnique(inner.s.offset, sum, n);
    Pow2Grows(w, big);
    WrapSmall(Wrap(sum, w), big);
    WrapCong(v, w);
    WrapCong(sum, w);
    WrapCong(v + sum, w);
    CongAdd(Wrap(v, w), v, Wrap(sum, w), sum, m);
    CongSym(Wrap(v, w) + Wrap(sum, w), v + sum, m);
    CongTrans(y, v + sum, Wrap(v, w) + Wrap(sum, w), m);
    if sum == 0 {
      WrapSmall(0, w);
      CongRefl(y, Pow2(big));
    }
  }

  /** A zero extension keeps the form that is exact in the outermost width, or starts afresh. */
  lemma ExtIsAffine(x: nat, small: nat, w: nat, big: nat, inner: Decomposed, r: Decomposed, e: Expr, rho: Valuation)
    requires Typed(inner.v) && Typed(r.v) && Typed(e) && w <= big && x == Eval(e, rho)
    requires inner.s.nuw ==> Affine(x, small, big, inner, rho)
    requires r.s.nuw == inner.s.nuw
    requires if inner.s.nuw then r.v == inner.v && r.s.scale == inner.s.scale && r.s.offset == inner.s.offset && r.s.sext == inner.s.sext
             else r.v == e && r.s.scale == 1 && r.s.offset == 0 && r.s.sext == 0
    ensures Affine(x, w, big, r, rho)
  {
    hide Cong, Eval, SignExtended;
    if inner.s.nuw {
      CongNarrow(x, AffineValue(r, rho), big, w);
    } else {
      SignExtendedByNothing(x, Width(e));
      GivenIsAffine(x, w, big, e, r.s, rho);
    }
  }

  lemma SignExtendedBy(x: nat, w: nat, k: nat)
    requires w > 0 && k > 0 && x < Pow2(w)
    ensures SignExtended(x, w, k) == Wrap(Signed(x, w), w + k)
  {
    hide Pow2, Wrap, Signed;
  }

  lemma SignExtendedByNothing(x: nat, w: nat)
    requires w > 0 && x < Pow2(w)
    ensures SignExtended(x, w, 0) == x
  {
  }

  lemma OpKeepsExtensions(op: Op, c: nat, nuw: bool, nsw: bool, big: nat, s: Lin)
    ensures var t := ApplyOp(op, c, nuw, nsw, big, s);
            t.zext == s.zext && t.sext == s.sext
  {
  }

  lemma ConstIsAffine(c: nat, w: nat, big: nat, r: Decomposed, rho: Valuation)
    requires Typed(r.v) && r.s.scale == 0 && r.s.offset == Wrap(c, big) && c < Pow2(w) && w <= big
    ensures Affine(c, w, big, r, rho)
  {
    WrapCong(c, big);
    CongNarrow(c, Wrap(c, big), big, w);
  }

  // ---- Sign extension ----

  /** Where a sign extension of a sum without signed wraps is folded, the decomposition is right if and
      only if the constants add up to a number that fits the narrow width.  (They are read back from
      their low bits only.) */
  lemma {:induction false} FoldExactIff(x: Expr, big: nat, rho: Valuation)
    requires Typed(x) && Width(x) < big && NswSum(x, 1) && Defined(x, rho)
    ensures var e, r := Ext(0, true, x, big), GetLinear(Ext(0, true, x, big), big, 0, START);
            && Typed(e) && r.s.sext == big - Width(x) && r.s.zext == 0 && r.s.scale == 1 && Width(r.v) == Width(x)
            && r.v == GetLinear(x, big, 1, START).v
            && (Cong(Eval(e, rho), AffineValue(r, rho), Pow2(big)) <==> FitsSigned(SumOffset(x, 1), Width(x)))
  {
    hide Pow2, Cong, Wrap, Signed, NswSum, SumOffset, FitsSigned;
    NswSumLinear(x, big, 1, 0);
    NswSumValue(x, big, 1, 0, rho);
    var inner := GetLinear(x, big, 1, START);
    hide GetLinear, Eval, Defined;
    SignedRange(Eval(inner.v, rho), Width(x));
    SignedRange(Eval(x, rho), Width(x));
    FoldedIff(Signed(Eval(inner.v, rho), Width(x)), SumOffset(x, 1), inner.s.offset, Width(x), big);
  }

  /** A number and a constant, extended, against their sum, extended. */
  lemma FoldedIff(v: int, sum: int, offset: nat, w: nat, big: nat)
    requires 0 < w < big && FitsSigned(v, w) && FitsSigned(v + sum, w) && Cong(offset, sum, Pow2(w))
    ensures Cong(Wrap(v + sum, big), 1 * Wrap(v, big) + Wrap(Wrap(Signed(offset, w), big), big), Pow2(big)) <==> FitsSigned(sum, w)
  {
    hide Pow2, Cong, Wrap, Signed, FitsSigned;
    var m, t := Pow2(big), Signed(offset, w);
    var o := Wrap(Wrap(t, big), big);
    WrapCong(t, big);
    WrapCong(Wrap(t, big), big);
    CongTrans(o, Wrap(t, big), t, m);
    WrapCong(v, big);
    CongAdd(Wrap(v, big), v, o, t, m);
    WrapCong(v + sum, big);
    SignedCong(offset, w);
    CongSym(offset, sum, Pow2(w));
    CongTrans(sum, offset, t, Pow2(w));
    FoldDiffers(v, sum, t, Wrap(v, big) + o, Wrap(v + sum, big), big);
    SignedRange(offset, w);
    FoldFits(v, sum, t, w, big);
  }

  lemma SignedRange(x: int, w: nat)
    requires w > 0
    ensures FitsSigned(Signed(x, w), w)
  {
    hide Pow2;
  }

  /** The folded form is right exactly when the folded constant is. */
  lemma FoldDiffers(v: int, sum: int, t: int, z: int, y: int, w: nat)
    requires Cong(y, v + sum, Pow2(w)) && Cong(z, v + t, Pow2(w))
    ensures Cong(y, z, Pow2(w)) <==> Cong(sum, t, Pow2(w))
  {
    hide Cong;
    var m := Pow2(w);
    CongRefl(v, m);
    CongSym(z, v + t, m);
    if Cong(sum, t, m) {
      CongAdd(v, v, sum, t, m);
      CongTrans(y, v + sum, v + t, m);
      CongTrans(y, v + t, z, m);
    }
    if Cong(y, z, m) {
      CongTrans(y, z, v + t, m);
      CongSym(y, v + sum, m);
      CongTrans(v + sum, y, v + t, m);
      CongSub(v + sum, v + t, v, v, m);
    }
  }

  lemma FoldFits(v: int, sum: int, t: int, w: nat, big: nat)
    requires 0 < w < big && FitsSigned(v, w) && FitsSigned(v + sum, w) && FitsSigned(t, w) && Cong(sum, t, Pow2(w))
    ensures Cong(sum, t, Pow2(big)) <==> FitsSigned(sum, w)
  {
    hide Cong;
    Pow2Grows(w + 1, big);
    if FitsSigned(sum, w) {
      CongClose(sum, t, Pow2(w));
      CongRefl(t, Pow2(big));
    }
    if Cong(sum, t, Pow2(big)) {
      CongClose(sum, t, Pow2(big));
    }
  }

  /** Where there is a zero extension further inside, a sign extension is taken for another one: that
      is right if and only if the sign bit is clear. */
  lemma {:induction false} SExtAsZExtIff(x: Expr, big: nat, rho: Valuation)
    requires Typed(x) && Width(x) < big && Defined(x, rho) && GetLinear(x, big, 1, START).s.zext > 0
    requires GetLinear(x, big, 1, START).s.nuw ==> Readable(x, big, 1)
    ensures var e, r := Ext(0, true, x, big), GetLinear(Ext(0, true, x, big), big, 0, START);
            Typed(e) && (Cong(Eval(e, rho), AffineValue(r, rho), Pow2(big)) <==> Eval(x, rho) < Pow2(Width(x) - 1))
  {
    hide Pow2, Cong, Wrap, Signed, AffineValue, Affine, Readable;
    var w, v, m := Width(x), Eval(x, rho), Pow2(big);
    var inner, r := GetLinear(x, big, 1, START), GetLinear(Ext(0, true, x, big), big, 0, START);
    if inner.s.nuw {
      LinearIsAffine(x, big, 1, rho);
    }
    ExtIsAffine(v, w, big, big, inner, r, x, rho);
    AffineIsCong(v, big, r, rho);
    SignedSmall(v, w);
    WrapCong(Signed(v, w), big);
    var y, z := Wrap(Signed(v, w), big), AffineValue(r, rho);
    if v < Pow2(w - 1) {
      CongTrans(y, v, z, m);
    } else if Cong(y, z, m) {
      CongSym(v, z, m);
      CongTrans(y, z, v, m);
      CongSym(y, Signed(v, w), m);
      CongTrans(Signed(v, w), y, v, m);
      Pow2Grows(w, big);
      CongClose(Signed(v, w), v, m);
    }
  }

  lemma AffineIsCong(x: int, big: nat, r: Decomposed, rho: Valuation)
    requires Typed(r.v) && Affine(x, big, big, r, rho)
    ensures Cong(x, AffineValue(r, rho), Pow2(big))
  {
    hide Cong, AffineValue;
  }

  function Product(n: nat, w: nat, k: nat, c: nat, nuw: bool): (x: Expr)
    requires w > 0 && c < Pow2(w)
    ensures Typed(x) && Width(x) == w
  {
    Bin(k, MulOp, Opaque(n, w), c, nuw, true, false)
  }

  /** A multiplication below a sign extension keeps its factor as an unsigned number: that is right
      if and only if the factor is not negative, or the variable is zero in all the bits that make
      the difference. */
  lemma {:induction false} SExtProductIff(n: nat, w: nat, k: nat, c: nat, nuw: bool, big: nat, rho: Valuation)
    requires 0 < w < big && c < Pow2(w)
    ensures var x := Product(n, w, k, c, nuw);
            var e, r := Ext(0, true, x, big), GetLinear(Ext(0, true, x, big), big, 0, START);
            && Typed(e)
            && (Defined(x, rho) ==>
                  (Cong(Eval(e, rho), AffineValue(r, rho), Pow2(big))
                   <==> c < Pow2(w - 1) || Cong(Signed(Eval(Opaque(n, w), rho), w) * Pow2(w), 0, Pow2(big))))
  {
    hide Pow2, Cong, Wrap, Signed, FitsSigned;
    var v: Expr := Opaque(n, w);
    var x := Product(n, w, k, c, nuw);
    if Defined(x, rho) {
      var s, d, m := Signed(Eval(v, rho), w), Signed(c, w), Pow2(big);
      ProductForm(n, w, k, c, nuw, big, rho);
      var r := GetLinear(Ext(0, true, x, big), big, 0, START);
      MulSigned(Eval(v, rho), c, w);
      WrapCong(s * d, big);
      WrapCong(s, big);
      CongScale(Wrap(s, big), s, c, m);
      SignedSmall(c, w);
      ProductDiffers(Wrap(s * d, big), AffineValue(r, rho), s, c, d, if c < Pow2(w - 1) then 0 else Pow2(w), m);
      CongRefl(0, m);
    }
  }

  lemma ProductForm(n: nat, w: nat, k: nat, c: nat, nuw: bool, big: nat, rho: Valuation)
    requires 0 < w < big && c < Pow2(w)
    ensures var v: Expr := Opaque(n, w);
            var x := Product(n, w, k, c, nuw);
            var r := GetLinear(Ext(0, true, x, big), big, 0, START);
            AffineValue(r, rho) == Wrap(Signed(Eval(v, rho), w), big) * c
  {
    hide Pow2, Wrap, Signed, Eval;
    var v: Expr := Opaque(n, w);
    var x := Product(n, w, k, c, nuw);
    Pow2Grows(w, big);
    WrapSmall(c, big);
    ZeroWraps(w);
    ZeroWraps(big);
    assert GetLinear(v, big, 2, START) == Give(v, START);
    assert GetLinear(x, big, 1, START) == Decomposed(v, Lin(c, 0, 0, 0, true, nuw));
    var r := GetLinear(Ext(0, true, x, big), big, 0, START);
    assert r == Decomposed(v, Lin(c, 0, 0, big - w, true, nuw));
    SignExtendedBy(Eval(v, rho), w, big - w);
    hide GetLinear, SignExtended;
    TimesAndNothing(c, Variable(r, rho));
  }

  lemma TimesAndNothing(a: int, b: int)
    ensures a * b + 0 == b * a
  {
  }

  lemma ZeroWraps(w: nat)
    ensures Wrap(0, w) == 0 && (w > 0 ==> Signed(0, w) == 0)
  {
    hide Pow2;
    WrapSmall(0, w);
  }

  lemma MulSigned(v: nat, c: nat, w: nat)
    requires w > 0 && FitsSigned(Signed(v, w) * Signed(c, w), w)
    ensures Signed(Wrap(v * c, w), w) == Signed(v, w) * Signed(c, w)
  {
    hide Wrap, Pow2, Signed, Cong;
    var m := Pow2(w);
    SignedCong(v, w);
    SignedCong(c, w);
    CongScale(v, Signed(v, w), c, m);
    CongScale(c, Signed(c, w), Signed(v, w), m);
    CongTrans(v * c, Signed(v, w) * c, Signed(v, w) * Signed(c, w), m);
    WrapCong(v * c, w);
    CongTrans(Wrap(v * c, w), v * c, Signed(v, w) * Signed(c, w), m);
    SignedUnique(Wrap(v * c, w), Signed(v, w) * Signed(c, w), w);
  }

  lemma ProductDiffers(y: int, z: int, s: int, c: int, d: int, p: int, m: int)
    requires Cong(y, s * d, m) && Cong(z, s * c, m) && c == d + p
    ensures Cong(y, z, m) <==> Cong(s * p, 0, m)
  {
    hide Cong;
    assert s * c == s * d + s * p;
    CongRefl(s * d, m);
    if Cong(y, z, m) {
      CongTrans(y, z, s * c, m);
      CongSym(y, s * d, m);
      CongTrans(s * d, y, s * c, m);
      CongSub(s * d, s * c, s * d, s * d, m);
      CongSym(0, s * p, m);
    }
    if Cong(s * p, 0, m) {
      CongAdd(s * d, s * d, s * p, 0, m);
      CongSym(s * c, s * d, m);
      CongTrans(y, s * d, s * c, m);
      CongSym(z, s * c, m);
      CongTrans(y, s * c, z, m);
    }
  }

  /** A chain of additions that promise not to wrap as signed numbers. */
  function Chain(x: Expr, cs: seq<nat>): Expr {
    if cs == [] then x else Bin(0, AddOp, Chain(x, cs[..|cs| - 1]), cs[|cs| - 1], false, true, false)
  }

  function SignedSum(cs: seq<nat>, w: nat): int
    requires w > 0
  {
    if cs == [] then 0 else SignedSum(cs[..|cs| - 1], w) + Signed(cs[|cs| - 1], w)
  }

  predicate ConstantsFit(cs: seq<nat>, w: nat) {
    forall i :: 0 <= i < |cs| ==> cs[i] < Pow2(w)
  }

  lemma {:induction false} ChainIsSum(n: nat, w: nat, cs: seq<nat>, big: nat, depth: nat)
    requires 0 < w <= big && ConstantsFit(cs, w) && depth + |cs| <= MAXDEPTH
    ensures var e := Chain(Opaque(n, w), cs);
            && Typed(e) && Width(e) == w && NswSum(e, depth) && SumOffset(e, depth) == SignedSum(cs, w)
            && GetLinear(e, big, depth, START).v == Opaque(n, w)
    decreases |cs|
  {
    hide Pow2, Signed, Wrap;
    if cs != [] {
      ChainIsSum(n, w, cs[..|cs| - 1], big, depth + 1);
    }
  }

  /** So it is for chains of additions: the constants must fit, whatever the valuation. */
  lemma {:induction false} SExtFoldExactIff(n: nat, w: nat, cs: seq<nat>, big: nat, rho: Valuation)
    requires 0 < w < big && ConstantsFit(cs, w) && |cs| < MAXDEPTH
    requires Typed(Chain(Opaque(n, w), cs)) && Width(Chain(Opaque(n, w), cs)) == w
    requires Defined(Chain(Opaque(n, w), cs), rho)
    ensures var e := Ext(0, true, Chain(Opaque(n, w), cs), big);
            var r := GetLinear(e, big, 0, Lin(0, 0, 0, 0, true, true));
            && Typed(e) && r.v == Opaque(n, w) && r.s.sext == big - w && r.s.scale == 1
            && (Cong(Eval(e, rho), Signed(Eval(r.v, rho), w) + r.s.offset, Pow2(big)) <==> FitsSigned(SignedSum(cs, w), w))
  {
    hide Chain, GetLinear, Pow2, Cong, Wrap, Signed, NswSum, SumOffset, FitsSigned, Defined;
    var x := Chain(Opaque(n, w), cs);
    ChainIsSum(n, w, cs, big, 1);
    FoldExactIff(x, big, rho);
    var e, r := Ext(0, true, x, big), GetLinear(Ext(0, true, x, big), big, 0, START);
    var v, m := Signed(Eval(r.v, rho), w), Pow2(big);
    WrapCong(v, big);
    CongRefl(r.s.offset, m);
    CongAdd(Wrap(v, big), v, r.s.offset, r.s.offset, m);
    CongSym(AffineValue(r, rho), v + r.s.offset, m);
    if Cong(Eval(e, rho), AffineValue(r, rho), m) {
      CongTrans(Eval(e, rho), AffineValue(r, rho), v + r.s.offset, m);
    }
    if Cong(Eval(e, rho), v + r.s.offset, m) {
      CongTrans(Eval(e, rho), v + r.s.offset, AffineValue(r, rho), m);
    }
  }

  lemma TwoHundredValues()
    ensures var x, rho := Opaque(0, 8), map[0 := 156];
            && Eval(x, rho) == 156 && Signed(156, 8) == -100 && Signed(100, 8) == 100 && Signed(0, 8) == 0
            && FitsSigned(0, 8) && FitsSigned(100, 8) && !FitsSigned(200, 8) && Pow2(8) == 256
  {
    assert Pow2(4) == 16;
    assert Pow2(7) == 128;
  }

  lemma TwoHundredDefined()
    ensures var e, rho := Chain(Opaque(0, 8), [100, 100]), map[0 := 156];
            ConstantsFit([100, 100], 8) && Typed(e) && Width(e) == 8 && Defined(e, rho)
  {
    hide Pow2, Signed, FitsSigned, Cong;
    TwoHundredValues();
    var x := Opaque(0, 8);
    assert [100, 100][..1] == [100] && [100][..0] == [];
    assert Chain(x, []) == x;
    assert Chain(x, [100]) == Bin(0, AddOp, x, 100, false, true, false);
    assert Chain(x, [100, 100]) == Bin(0, AddOp, Bin(0, AddOp, x, 100, false, true, false), 100, false, true, false);
  }

  /** Two additions of 100 to an i8 that is -100: no wrap, and yet the folded form is off. */
  lemma SExtFoldCounterexample()
    ensures var e := Ext(0, true, Chain(Opaque(0, 8), [100, 100]), 16);
            && Typed(e) && Defined(e, map[0 := 156])
            && var r := GetLinear(e, 16, 0, Lin(0, 0, 0, 0, true, true));
               !Cong(Eval(e, map[0 := 156]), Signed(Eval(r.v, map[0 := 156]), 8) + r.s.offset, Pow2(16))
  {
    hide Cong, GetLinear, Eval, Pow2, Chain, Signed, FitsSigned;
    TwoHundredValues();
    TwoHundredDefined();
    SExtFoldExactIff(0, 8, [100, 100], 16, map[0 := 156]);
    assert [100, 100][..1] == [100] && [100][..0] == [];
    assert SignedSum([], 8) == 0;
    assert SignedSum([100], 8) == 100;
    assert SignedSum([100, 100], 8) == 200;
  }

  lemma SmallPowers()
    ensures Pow2(3) == 8 && Pow2(4) == 16 && Pow2(7) == 128 && Pow2(8) == 256 && Pow2(16) == 65536
  {
    assert Pow2(4) == 16;
    assert Pow2(7) == 128 && Pow2(8) == 256;
    assert Pow2(12) == 4096;
  }

  /** The product of 1 and -1 in 8 bits is extended to -1, and decomposed as 255 times 1. */
  lemma SExtProductCounterexample()
    ensures var x, rho := Product(0, 8, 1, 255, false), map[0 := 1];
            && Typed(Ext(0, true, x, 16)) && Defined(x, rho)
            && !Cong(Eval(Ext(0, true, x, 16), rho), AffineValue(GetLinear(Ext(0, true, x, 16), 16, 0, START), rho), Pow2(16))
  {
    hide Cong, Pow2, GetLinear, AffineValue;
    SmallPowers();
    var rho: Valuation := map[0 := 1];
    assert Eval(Opaque(0, 8), rho) == 1 && Signed(1, 8) == 1 && Signed(255, 8) == -1;
    SExtProductIff(0, 8, 1, 255, false, 16, rho);
    NotCong(256, 0, 65536);
  }

  /** 0 + 200 in 8 bits is negative; because the 0 is zero extended, so is the sum. */
  lemma SExtAsZExtCounterexample()
    ensures var x, rho := Bin(1, AddOp, Ext(2, false, Opaque(0, 4), 8), 200, false, false, false), map[0 := 0];
            && Typed(x) && Typed(Ext(0, true, x, 16)) && Width(x) == 8 && Defined(x, rho)
            && !Cong(Eval(Ext(0, true, x, 16), rho), AffineValue(GetLinear(Ext(0, true, x, 16), 16, 0, START), rho), Pow2(16))
  {
    hide Cong, Pow2, AffineValue;
    SmallPowers();
    var z, rho := Ext(2, false, Opaque(0, 4), 8), map[0 := 0];
    var x := Bin(1, AddOp, z, 200, false, false, false);
    assert GetLinear(Opaque(0, 4), 16, 3, START) == Give(Opaque(0, 4), START);
    assert GetLinear(z, 16, 2, START).s.zext == 4;
    assert Eval(z, rho) == 0 && Eval(x, rho) == 200;
    SExtAsZExtIff(x, 16, rho);
  }
}
