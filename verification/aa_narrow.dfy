/** Indices narrower than the pointer: exactly when their decomposition is right.  The walk extends
    the variable and not the sum, so it is off when the sum wraps. */
module NarrowIndices {
  import opened MachineArithmetic
  import opened LinearExpressions
  import opened GepDecomposition

  /** One addition of a constant, with the wraps it promises not to make. */
  datatype Addend = Addend(name: nat, c: nat, nuw: bool, nsw: bool)

  function Additions(x: Expr, a: seq<Addend>): Expr {
    if a == [] then x
    else
      var l := a[|a| - 1];
      Bin(l.name, AddOp, Additions(x, a[..|a| - 1]), l.c, l.nuw, l.nsw, false)
  }

  predicate AddendsFit(a: seq<Addend>, w: nat) {
    forall k :: 0 <= k < |a| ==> a[k].c < Pow2(w)
  }

  function Total(a: seq<Addend>): nat {
    if a == [] then 0 else Total(a[..|a| - 1]) + a[|a| - 1].c
  }

  /** The analysis takes `x`, `depth` operations down, as the variable. */
  predicate IsVariable(x: Expr, depth: nat) {
    depth == MAXDEPTH || x.Opaque? || (x.Bin? && !Understood(x.op, x.disjoint))
  }

  lemma {:induction false} AdditionsTyped(x: Expr, a: seq<Addend>)
    requires Typed(x) && AddendsFit(a, Width(x))
    ensures Typed(Additions(x, a)) && Width(Additions(x, a)) == Width(x)
  {
    if a != [] {
      AdditionsTyped(x, a[..|a| - 1]);
    }
  }

  lemma {:induction false} AdditionsValue(x: Expr, a: seq<Addend>, rho: Valuation)
    requires Typed(x) && AddendsFit(a, Width(x)) && Typed(Additions(x, a))
    ensures Eval(Additions(x, a), rho) == Wrap(Eval(x, rho) + Total(a), Width(x))
  {
    hide Pow2, Wrap, Typed;
    if a == [] {
      WrapSmall(Eval(x, rho), Width(x));
    } else {
      AdditionsTyped(x, a[..|a| - 1]);
      AdditionsValue(x, a[..|a| - 1], rho);
      WrapTwice(Eval(x, rho) + Total(a[..|a| - 1]), a[|a| - 1].c, Width(x));
      LastAddition(x, a, rho);
    }
  }

  lemma LastAddition(x: Expr, a: seq<Addend>, rho: Valuation)
    requires a != [] && Typed(Additions(x, a)) && Typed(Additions(x, a[..|a| - 1]))
    requires Width(Additions(x, a[..|a| - 1])) == Width(x)
    ensures Eval(Additions(x, a), rho) == Wrap(Eval(Additions(x, a[..|a| - 1]), rho) + a[|a| - 1].c, Width(x))
  {
    hide Pow2, Wrap;
  }

  /** The constants are folded, in the width of the index, and the variable is left alone. */
  lemma {:induction false} AdditionsLinear(x: Expr, a: seq<Addend>, depth: nat, s: Lin)
    requires Typed(x) && AddendsFit(a, Width(x)) && Typed(Additions(x, a)) && Width(Additions(x, a)) == Width(x)
    requires depth + |a| <= MAXDEPTH && IsVariable(x, depth + |a|)
    ensures var r := GetLinear(Additions(x, a), Width(x), depth, s);
            && r.v == x && r.s.scale == 1 && r.s.offset == Wrap(Total(a), Width(x))
            && r.s.zext == s.zext && r.s.sext == s.sext
    decreases |a|
  {
    hide Pow2, Wrap, Typed;
    if a == [] {
      PowPositive(Width(x));
      WrapSmall(0, Width(x));
    } else {
      AdditionsTyped(x, a[..|a| - 1]);
      AdditionsLinear(x, a[..|a| - 1], depth + 1, s);
      WrapTwice(Total(a[..|a| - 1]), a[|a| - 1].c, Width(x));
      TypedLast(x, a);
    }
  }

  lemma TypedLast(x: Expr, a: seq<Addend>)
    requires a != [] && Typed(Additions(x, a))
    ensures Typed(Additions(x, a[..|a| - 1]))
  {
  }

  lemma PowPositive(w: nat)
    ensures Pow2(w) > 0
  {
  }

  /** The folded constant, as the walk reads it. */
  function Folded(a: seq<Addend>, w: nat): int
    requires w > 0
  {
    Signed(Wrap(Total(a), w), w)
  }

  // ---- One valuation ----

  /** For one valuation, constants and variables together have moved by the offset of the index. */
  ghost predicate MovesAt(i: Index, bits: nat, d: Decomposition, d': Decomposition, rho: Valuation) {
    Cong(d.structOffset + d.otherOffset + VarSum(d.vars, rho) + IndexOffset(i, rho),
         d'.structOffset + d'.otherOffset + VarSum(d'.vars, rho), Pow2(bits))
  }

  /** The sum of variable and constant is the number that the decomposition takes it for.  In one
      bit the scale 1 is read as -1. */
  predicate SumFits(v: int, t: int, w: nat)
    requires w > 0
  {
    if w == 1 then v == 0 || t != 0 else FitsSigned(v + t, w)
  }

  /** The elements are so large that a wrap goes around the whole address circle. */
  ghost predicate WrapsAround(size: nat, w: nat, bits: nat) {
    Cong(size * Pow2(w), 0, Pow2(bits))
  }

  /** The new scale and the new constant, modulo the pointer width. */
  lemma NarrowScale(size: nat, w: nat, merged: int, bits: nat)
    requires 0 < w && 0 < bits <= 64
    ensures Cong(NewScale(size, 1, w, merged, bits), size * Signed(1, w) + merged, Pow2(bits))
  {
    hide Cong, Signed, Wrap, Pow2;
    var m, s := Pow2(bits), size * Signed(1, w);
    WrapCong(s, 64);
    WrapCong(Wrap(s, 64) + merged, 64);
    SignedCong(Wrap(Wrap(s, 64) + merged, 64), bits);
    CongNarrow(Wrap(s, 64), s, 64, bits);
    CongNarrow(Wrap(Wrap(s, 64) + merged, 64), Wrap(s, 64) + merged, 64, bits);
    CongRefl(merged, m);
    CongAdd(Wrap(s, 64), s, merged, merged, m);
    CongTrans(NewScale(size, 1, w, merged, bits), Wrap(Wrap(s, 64) + merged, 64), Wrap(s, 64) + merged, m);
    CongTrans(NewScale(size, 1, w, merged, bits), Wrap(s, 64) + merged, s + merged, m);
  }

  /** What the walk adds for the index: the variable, sign extended, and the folded constant. */
  lemma {:induction false} NarrowAdded(d: Decomposition, size: nat, x: TypedExpr, a: seq<Addend>, bits: nat, rho: Valuation)
    requires 0 < Width(x) < bits <= 64 && AddendsFit(a, Width(x)) && Typed(Additions(x, a))
    requires |a| <= MAXDEPTH && IsVariable(x, |a|)
    ensures var w, d' := Width(x), WithVariable(d, size, Additions(x, a), bits);
            Cong(d'.structOffset + d'.otherOffset + VarSum(d'.vars, rho),
                 d.structOffset + d.otherOffset + VarSum(d.vars, rho)
                 + size * (Signed(1, w) * Signed(Eval(x, rho), w) + Folded(a, w)), Pow2(bits))
  {
    hide Cong, Signed, Wrap, Pow2, GetLinear, Eval, Typed, VarSum, TakeOut, NewScale, Additions, Width, Total, WithVariable, VarValue;
    var w, m, e := Width(x), Pow2(bits), Additions(x, a);
    AdditionsTyped(x, a);
    AdditionsLinear(x, a, 0, Lin(0, 0, 0, bits - w, true, true));
    var key := VarIndex(x, 0, bits - w, 0);
    var t, d' := TakeOut(d.vars, key), WithVariable(d, size, e, bits);
    var scale, v := NewScale(size, 1, w, t.merged, bits), Signed(Eval(x, rho), w);
    NarrowWith(d, size, x, a, bits);
    TakeOutTakes(d.vars, key);
    TakenSum(d.vars, key, t.merged, t.rest, rho);
    SumOfAdded(t.rest, key.(scale := scale), rho);
    ExtendedValue(key, v, bits, rho);
    NarrowScale(size, w, t.merged, bits);
    SignedCong(d.otherOffset + Folded(a, w) * size, 64);
    CongNarrow(d'.otherOffset, d.otherOffset + Folded(a, w) * size, 64, bits);
    NarrowSum(VarSum(t.rest, rho), t.merged, scale, size * Signed(1, w), VarValue(key, rho), v, d'.otherOffset,
              d.otherOffset, Folded(a, w) * size, d.structOffset, m);
    Regroup(size, Signed(1, w), v, Folded(a, w));
  }

  lemma NarrowWith(d: Decomposition, size: nat, x: TypedExpr, a: seq<Addend>, bits: nat)
    requires 0 < Width(x) < bits && Typed(Additions(x, a)) && Width(Additions(x, a)) == Width(x)
    requires var r := GetLinear(Additions(x, a), Width(x), 0, Lin(0, 0, 0, bits - Width(x), true, true));
             r.v == x && r.s.scale == 1 && r.s.offset == Wrap(Total(a), Width(x)) && r.s.zext == 0 && r.s.sext == bits - Width(x)
    ensures var w := Width(x);
            var t := TakeOut(d.vars, VarIndex(x, 0, bits - w, 0));
            var scale := NewScale(size, 1, w, t.merged, bits);
            WithVariable(d, size, Additions(x, a), bits)
            == d.(otherOffset := Signed(d.otherOffset + Folded(a, w) * size, 64),
                  vars := if scale != 0 then t.rest + [VarIndex(x, 0, bits - w, scale)] else t.rest)
  {
    hide Signed, Wrap, Pow2, GetLinear, Typed, TakeOut, NewScale, Additions, Width, Total;
  }

  lemma SumOfAdded(rest: seq<VarIndex>, x: VarIndex, rho: Valuation)
    ensures VarSum(if x.scale != 0 then rest + [x] else rest, rho)
            == VarSum(rest, rho) + x.scale * VarValue(x.(scale := 0), rho)
  {
    hide VarSum, Eval, Signed, Wrap;
    VarSumWith(rest, x, rho);
  }

  lemma ExtendedValue(x: VarIndex, v: int, bits: nat, rho: Valuation)
    requires x.sext > 0 && Width(x.v) + x.sext == bits && v == Signed(Eval(x.v, rho), Width(x.v))
    ensures Cong(VarValue(x, rho), v, Pow2(bits))
  {
    hide Cong, Signed, Wrap, Eval, Width, Pow2;
    WrapCong(v, bits);
  }

  lemma NarrowSum(rest: int, merged: int, scale: int, k: int, x: int, v: int, o': int, o: int, c: int, s: int, m: int)
    requires Cong(scale, k + merged, m) && Cong(x, v, m) && Cong(o', o + c, m)
    ensures Cong(s + o' + (rest + scale * x), s + o + (rest + merged * x) + (k * v + c), m)
  {
    hide Cong;
    CongScale(scale, k + merged, x, m);
    CongScale(x, v, k, m);
    CongRefl(merged * x, m);
    CongAdd(x * k, v * k, merged * x, merged * x, m);
    Distribute(k, x, merged);
    CongTrans(scale * x, x * k + merged * x, v * k + merged * x, m);
    CongAdd(scale * x, v * k + merged * x, o', o + c, m);
    CongRefl(s + rest, m);
    CongAdd(scale * x + o', v * k + merged * x + (o + c), s + rest, s + rest, m);
    Commutes(v, k);
  }

  lemma Distribute(k: int, x: int, merged: int)
    ensures (k + merged) * x == x * k + merged * x
  {
  }

  lemma Regroup(size: int, k: int, v: int, t: int)
    ensures (size * k) * v + t * size == size * (k * v + t)
  {
  }

  /** The value of the index is the number the decomposition takes it for, or a whole wrap away
      from it. */
  lemma SignedOfSum(ex: nat, total: nat, w: nat, y: int, v: int, t: int)
    requires w > 0 && y == Signed(Wrap(ex + total, w), w) && v == Signed(ex, w) && t == Signed(Wrap(total, w), w)
    ensures SumFits(v, t, w) ==> y == Signed(1, w) * v + t
    ensures !SumFits(v, t, w) ==> var q := y - (Signed(1, w) * v + t); q == Pow2(w) || q == 0 - Pow2(w)
  {
    hide Cong, Signed, Wrap, Pow2;
    OneSigned(w);
    SumCong(ex, total, w, y, v, t);
    SignedFits(ex, w);
    SignedFits(Wrap(total, w), w);
    SignedFits(Wrap(ex + total, w), w);
    if w == 1 {
      OneBit(y, v, t);
    } else {
      ManyBits(y, v, t, w);
    }
  }

  lemma ManyBits(y: int, v: int, t: int, w: nat)
    requires w > 0 && FitsSigned(y, w) && FitsSigned(v, w) && FitsSigned(t, w) && Cong(y, v + t, Pow2(w))
    ensures if FitsSigned(v + t, w) then y == v + t else y - (v + t) == Pow2(w) || y - (v + t) == 0 - Pow2(w)
  {
    hide Cong;
    OneBitOrMore(w);
    WithinOneWrap(y, v + t, Pow2(w - 1), Pow2(w));
  }

  lemma WithinOneWrap(y: int, z: int, h: int, m: int)
    requires h > 0 && m == 2 * h && -h <= y < h && -m <= z < m && Cong(y, z, m)
    ensures if -h <= z < h then y == z else y - z == m || y - z == 0 - m
  {
    hide Cong;
    if -h <= z < h {
      CongClose(y, z, m);
    } else {
      WholeWrap(y, z, m);
    }
  }

  lemma SumCong(ex: nat, total: nat, w: nat, y: int, v: int, t: int)
    requires w > 0 && y == Signed(Wrap(ex + total, w), w) && v == Signed(ex, w) && t == Signed(Wrap(total, w), w)
    ensures Cong(y, v + t, Pow2(w))
  {
    hide Cong, Signed, Wrap, Pow2;
    var m := Pow2(w);
    SignedCong(ex, w);
    WrapCong(total, w);
    SignedCong(Wrap(total, w), w);
    CongTrans(total, Wrap(total, w), t, m);
    CongAdd(ex, v, total, t, m);
    WrapCong(ex + total, w);
    SignedCong(Wrap(ex + total, w), w);
    CongTrans(y, Wrap(ex + total, w), ex + total, m);
    CongTrans(y, ex + total, v + t, m);
  }

  lemma WholeWrap(y: int, z: int, m: int)
    requires m > 0 && Cong(y, z, m) && y != z && -2 * m < y - z < 2 * m
    ensures y - z == m || y - z == 0 - m
  {
    hide Cong;
    CongBy(m, 0, 1, m);
    if y > z {
      CongSub(y, z, m, 0, m);
      CongClose(y - m, z, m);
    } else {
      CongAdd(y, z, m, 0, m);
      CongClose(y + m, z, m);
    }
  }

  /** In one bit the sum of two ones is zero. */
  lemma OneBit(y: int, v: int, t: int)
    requires FitsSigned(y, 1) && FitsSigned(v, 1) && FitsSigned(t, 1) && Cong(y, v + t, Pow2(1))
    ensures if v == 0 || t != 0 then y == 0 - v + t else y - (0 - v + t) == 0 - Pow2(1)
  {
    hide Cong;
    assert Pow2(1) == 2 && Pow2(0) == 1;
    if y != v + t {
      WholeWrap(y, v + t, 2);
    }
  }

  /** A wrong value moves the address, unless the elements are so large that it does not matter. */
  lemma ScaledWrap(size: nat, y: int, z: int, w: nat, bits: nat)
    requires y == z || y - z == Pow2(w) || y - z == 0 - Pow2(w)
    ensures Cong(size * y, size * z, Pow2(bits)) <==> y == z || WrapsAround(size, w, bits)
  {
    hide Cong, Pow2;
    var m, p := Pow2(bits), size * Pow2(w);
    if y == z {
      CongRefl(size * y, m);
    } else {
      ProductDiffers(size, y, z);
      CongRefl(size * z, m);
      if Cong(size * y, size * z, m) {
        CongSub(size * y, size * z, size * z, size * z, m);
        if y - z == Pow2(w) {
        } else {
          ProductNegated(size, Pow2(w));
          CongRefl(0, m);
          CongSub(0, 0, size * (y - z), 0, m);
        }
      }
      if WrapsAround(size, w, bits) {
        if y - z == Pow2(w) {
          CongAdd(p, 0, size * z, size * z, m);
        } else {
          ProductNegated(size, Pow2(w));
          CongRefl(0, m);
          CongSub(0, 0, p, 0, m);
          CongAdd(0 - p, 0, size * z, size * z, m);
        }
      }
    }
  }

  lemma ProductDiffers(size: int, y: int, z: int)
    ensures size * y - size * z == size * (y - z)
  {
  }

  lemma ProductNegated(size: int, p: int)
    ensures size * (0 - p) == 0 - size * p
  {
  }

  /** For every chain of constant additions narrower than the pointer and every valuation: the
      decomposition of the index is right if and only if the sum of variable and folded constant
      does not wrap, or wraps around the whole address circle. */
  lemma {:induction false} NarrowIndexExactIff(d: Decomposition, size: nat, x: TypedExpr, a: seq<Addend>, bits: nat, rho: Valuation)
    requires 0 < Width(x) < bits <= 64 && AddendsFit(a, Width(x)) && Typed(Additions(x, a))
    requires |a| <= MAXDEPTH && IsVariable(x, |a|)
    ensures var w := Width(x);
            MovesAt(Elem(size, Additions(x, a)), bits, d, WithVariable(d, size, Additions(x, a), bits), rho)
            <==> SumFits(Signed(Eval(x, rho), w), Folded(a, w), w) || WrapsAround(size, w, bits)
  {
    hide Cong, Signed, Wrap, Pow2, Eval, Typed, VarSum, Additions, Width, Total, WithVariable, WrapsAround, SumFits, IndexOffset;
    var w, m, e := Width(x), Pow2(bits), Additions(x, a);
    AdditionsTyped(x, a);
    AdditionsValue(x, a, rho);
    NarrowAdded(d, size, x, a, bits, rho);
    var y, z := Signed(Eval(e, rho), w), Signed(1, w) * Signed(Eval(x, rho), w) + Folded(a, w);
    SignedOfSum(Eval(x, rho), Total(a), w, y, Signed(Eval(x, rho), w), Folded(a, w));
    ScaledWrap(size, y, z, w, bits);
    ElemOffset(Elem(size, e), rho);
    Commutes(size, y);
    var d' := WithVariable(d, size, e, bits);
    SameMoves(d.structOffset + d.otherOffset + VarSum(d.vars, rho), size * y, size * z,
              d'.structOffset + d'.otherOffset + VarSum(d'.vars, rho), m);
    PowPositive(w);
  }

  lemma SameMoves(b: int, y: int, z: int, r: int, m: int)
    requires Cong(r, b + z, m)
    ensures Cong(b + y, r, m) <==> Cong(y, z, m)
  {
    hide Cong;
    CongRefl(b, m);
    if Cong(b + y, r, m) {
      CongTrans(b + y, r, b + z, m);
      CongSub(b + y, b + z, b, b, m);
    }
    if Cong(y, z, m) {
      CongAdd(b, b, y, z, m);
      CongSym(r, b + z, m);
      CongTrans(b + y, b + z, r, m);
    }
  }

  lemma BytesDoNotWrap()
    ensures !WrapsAround(1, 8, 16)
  {
    hide Cong;
    assert Pow2(4) == 16 && Pow2(8) == 256;
    assert Pow2(12) == 4096 && Pow2(16) == 65536;
    NotCong(256, 0, 65536);
  }

  /** The sum wraps in 8 bits, but not in the decomposition: 127 + 1. */
  lemma NarrowIndexCounterexample()
    ensures var e, rho := Additions(Opaque(0, 8), [Addend(1, 1, false, false)]), map[0 := 127];
            && Typed(e) && Defined(e, rho)
            && forall d: Decomposition :: !MovesAt(Elem(1, e), 16, d, WithVariable(d, 1, e, 16), rho)
  {
    hide Cong, MovesAt, WithVariable, WrapsAround;
    var x, a, rho := Opaque(0, 8), [Addend(1, 1, false, false)], map[0 := 127];
    assert Pow2(4) == 16;
    assert Pow2(7) == 128 && Pow2(8) == 256;
    assert Pow2(12) == 4096;
    assert a[..0] == [];
    assert Additions(x, []) == x;
    assert Total([]) == 0 && Total(a) == 1;
    assert Eval(x, rho) == 127 && Signed(127, 8) == 127 && Folded(a, 8) == 1;
    BytesDoNotWrap();
    forall d: Decomposition ensures !MovesAt(Elem(1, Additions(x, a)), 16, d, WithVariable(d, 1, Additions(x, a), 16), rho) {
      NarrowIndexExactIff(d, 1, x, a, 16, rho);
    }
  }

  // ---- All valuations ----

  /** No addition makes a wrap that it promises not to make when the variable is `v`. */
  predicate Permitted(a: seq<Addend>, w: nat, v: nat)
    requires w > 0
  {
    a == [] || (Permitted(a[..|a| - 1], w, v) && PermittedLast(a, w, v))
  }

  predicate PermittedLast(a: seq<Addend>, w: nat, v: nat)
    requires w > 0 && a != []
  {
    var l, y := a[|a| - 1], Wrap(v + Total(a[..|a| - 1]), w);
    && (l.nuw ==> y + l.c < Pow2(w))
    && (l.nsw ==> FitsSigned(Signed(y, w) + Signed(l.c, w), w))
  }

  lemma {:induction false} DefinedIsPermitted(x: Expr, a: seq<Addend>, rho: Valuation)
    requires x.Opaque? && Typed(x) && AddendsFit(a, Width(x)) && Typed(Additions(x, a))
    ensures Defined(Additions(x, a), rho) <==> Permitted(a, Width(x), Eval(x, rho))
  {
    hide Pow2, Wrap, Eval, FitsSigned, Signed;
    if a != [] {
      var front := a[..|a| - 1];
      AdditionsTyped(x, front);
      AdditionsValue(x, front, rho);
      DefinedIsPermitted(x, front, rho);
    }
  }

  /** Where a sum of the variable and a constant passes from the greatest number to the least. */
  predicate IsEdge(a: seq<Addend>, w: nat, v: nat)
    requires w > 0
  {
    exists k :: 0 <= k <= |a| && (v == LowEdge(a, w, k) || v == HighEdge(a, w, k))
  }

  /** Here the sum up to addition `k` is zero. */
  function LowEdge(a: seq<Addend>, w: nat, k: nat): nat
    requires k <= |a|
  {
    Wrap(0 - Total(a[..k]), w)
  }

  /** Here the sum up to addition `k` is the least signed number. */
  function HighEdge(a: seq<Addend>, w: nat, k: nat): nat
    requires k <= |a| && w > 0
  {
    Wrap(0 - Pow2(w - 1) - Total(a[..k]), w)
  }

  /** The variable and the constant do not wrap, unless the additions forbid that value. */
  predicate SafeAt(a: seq<Addend>, w: nat, v: nat)
    requires w > 0
  {
    Permitted(a, w, v) ==> SumFits(Signed(v, w), Folded(a, w), w)
  }

  /** Away from the edges, the sum for the next smaller number is smaller by one. */
  lemma StepDown(v: nat, total: nat, w: nat)
    requires 0 < v && w > 0
    ensures Wrap(v + total, w) != 0 ==> Wrap(v - 1 + total, w) == Wrap(v + total, w) - 1
    ensures Wrap(v + total, w) != 0 && Wrap(v + total, w) != Pow2(w - 1) ==>
              Signed(Wrap(v - 1 + total, w), w) == Signed(Wrap(v + total, w), w) - 1
  {
    hide Cong, Wrap, Signed;
    var y, m := Wrap(v + total, w), Pow2(w);
    if y != 0 {
      WrapCong(v + total, w);
      CongRefl(1, m);
      CongSub(y, v + total, 1, 1, m);
      CongSub(v + total, y, 1, 1, m);
      WrapUnique(v - 1 + total, y - 1, w);
      if y != Pow2(w - 1) {
        SignedStep(y, w);
      }
    }
  }

  lemma WrapUnique(x: int, y: nat, w: nat)
    requires y < Pow2(w) && Cong(x, y, Pow2(w))
    ensures Wrap(x, w) == y
  {
    hide Cong, Pow2, Wrap;
    WrapCong(x, w);
    CongTrans(Wrap(x, w), x, y, Pow2(w));
    CongClose(Wrap(x, w), y, Pow2(w));
  }

  lemma SignedStep(y: nat, w: nat)
    requires w > 0 && 0 < y < Pow2(w) && y != Pow2(w - 1)
    ensures Signed(y - 1, w) == Signed(y, w) - 1
  {
    hide Wrap;
    WrapSmall(y, w);
    WrapSmall(y - 1, w);
  }

  /** The sum is zero, or the least signed number, at an edge only. */
  lemma EdgeAt(a: seq<Addend>, w: nat, v: nat, k: nat)
    requires w > 0 && v < Pow2(w) && k <= |a|
    ensures Wrap(v + Total(a[..k]), w) == 0 ==> v == LowEdge(a, w, k)
    ensures Wrap(v + Total(a[..k]), w) == Pow2(w - 1) ==> v == HighEdge(a, w, k)
  {
    hide Cong, Wrap;
    var m: int, t: int, h: int := Pow2(w), Total(a[..k]), Pow2(w - 1);
    WrapCong(v + t, w);
    CongRefl(t, m);
    if Wrap(v + t, w) == 0 {
      CongSub(v + t, 0, t, t, m);
      CongSym(v, 0 - t, m);
      WrapUnique(0 - t, v, w);
    }
    if Wrap(v + t, w) == h {
      CongSub(v + t, h, t, t, m);
      CongBy(h, 0 - h, 1, m);
      CongSub(h, 0 - h, t, t, m);
      CongTrans(v, h - t, 0 - h - t, m);
      CongSym(v, 0 - h - t, m);
      WrapUnique(0 - h - t, v, w);
    }
  }

  /** Away from the edges, an addition that permits `v` permits the next smaller number. */
  lemma LastStepDown(a: seq<Addend>, w: nat, v: nat)
    requires w > 0 && a != [] && 0 < v < Pow2(w) && AddendsFit(a, w) && !IsEdge(a, w, v) && PermittedLast(a, w, v)
    ensures PermittedLast(a, w, v - 1)
  {
    hide Cong, Wrap, Signed, Total, IsEdge, AddendsFit, LowEdge, HighEdge;
    var n := |a| - 1;
    var l, t := a[n], Total(a[..n]);
    NotAtEdge(a, w, v, n);
    NotAtEdge(a, w, v, n + 1);
    StepDown(v, t, w);
    assert a[..n + 1] == a;
    if l.nsw {
      TotalWith(a);
      SignedStepAdd(v, t, l.c, w);
    }
  }

  lemma TotalWith(a: seq<Addend>)
    requires a != []
    ensures Total(a) == Total(a[..|a| - 1]) + a[|a| - 1].c
  {
  }

  lemma NotAtEdge(a: seq<Addend>, w: nat, v: nat, k: nat)
    requires w > 0 && v < Pow2(w) && k <= |a| && !IsEdge(a, w, v)
    ensures Wrap(v + Total(a[..k]), w) != 0 && Wrap(v + Total(a[..k]), w) != Pow2(w - 1)
  {
    hide Wrap, Pow2, Total, LowEdge, HighEdge;
    EdgeAt(a, w, v, k);
  }

  /** A signed sum that is not the least number still fits when it is one smaller. */
  lemma SignedStepAdd(v: nat, t: nat, c: nat, w: nat)
    requires w > 0 && FitsSigned(Signed(Wrap(v + t, w), w) + Signed(c, w), w) && Wrap(v + t + c, w) != Pow2(w - 1)
    ensures FitsSigned(Signed(Wrap(v + t, w), w) + Signed(c, w) - 1, w)
  {
    hide Cong, Wrap, Signed;
    var m: int, y, h: int := Pow2(w), Wrap(v + t, w), Pow2(w - 1);
    var z := Signed(y, w) + Signed(c, w);
    if z == 0 - h {
      WrapCong(v + t, w);
      SignedCong(y, w);
      CongTrans(v + t, y, Signed(y, w), m);
      SignedCong(c, w);
      CongAdd(v + t, Signed(y, w), c, Signed(c, w), m);
      CongBy(0 - h, h, -1, m);
      CongTrans(v + t + c, 0 - h, h, m);
      WrapUnique(v + t + c, h, w);
    }
  }

  lemma {:induction false} PermittedStepDown(a: seq<Addend>, b: seq<Addend>, w: nat, v: nat)
    requires w > 0 && 0 < v < Pow2(w) && AddendsFit(a, w) && b <= a && !IsEdge(a, w, v) && Permitted(b, w, v)
    ensures Permitted(b, w, v - 1)
    decreases |b|
  {
    hide PermittedLast, IsEdge;
    if b != [] {
      PermittedStepDown(a, b[..|b| - 1], w, v);
      if IsEdge(b, w, v) {
        EdgesOfPrefix(a, b, w, v);
      }
      LastStepDown(b, w, v);
    }
  }

  lemma EdgesOfPrefix(a: seq<Addend>, b: seq<Addend>, w: nat, v: nat)
    requires w > 0 && b <= a && IsEdge(b, w, v)
    ensures IsEdge(a, w, v)
  {
    hide Wrap, Total, Pow2;
    var k :| 0 <= k <= |b| && (v == LowEdge(b, w, k) || v == HighEdge(b, w, k));
    assert a[..k] == b[..k];
    assert v == LowEdge(a, w, k) || v == HighEdge(a, w, k);
  }

  /** A value at which the decomposition is wrong, and that is no edge, is followed by another. */
  lemma UnsafeStepDown(a: seq<Addend>, w: nat, v: nat)
    requires w > 0 && 0 < v < Pow2(w) && AddendsFit(a, w) && !IsEdge(a, w, v) && !SafeAt(a, w, v)
    ensures !SafeAt(a, w, v - 1)
  {
    hide Cong, Wrap, Signed, Total, IsEdge, AddendsFit, Permitted;
    PermittedStepDown(a, a, w, v);
    NotAtEdge(a, w, v, 0);
    assert a[..0] == [];
    NoTotal();
    WrapSmall(v, w);
    StepDown(v, 0, w);
    WrapSmall(v - 1, w);
    assert Signed(v - 1, w) == Signed(v, w) - 1;
    var t := Folded(a, w);
    if w == 1 {
      OneBitEdge(v);
    } else {
      assert a[..|a|] == a;
      NotAtEdge(a, w, v, |a|);
      UnsafeSum(v, Total(a), t, w);
    }
  }

  lemma NoTotal()
    ensures Total([]) == 0
  {
  }

  lemma OneBitEdge(v: nat)
    requires 0 < v < Pow2(1)
    ensures v == Pow2(0)
  {
  }

  /** A sum that does not fit still does not when it is one smaller, unless it was the first that
      is too large. */
  lemma UnsafeSum(v: nat, total: nat, t: int, w: nat)
    requires w > 0 && t == Signed(Wrap(total, w), w) && !FitsSigned(Signed(v, w) + t, w)
    requires Wrap(v + total, w) != Pow2(w - 1)
    ensures !FitsSigned(Signed(v, w) + t - 1, w)
  {
    hide Cong, Wrap, Signed;
    var m, h := Pow2(w), Pow2(w - 1);
    if Signed(v, w) + t == h {
      SumCong(v, total, w, Signed(Wrap(v + total, w), w), Signed(v, w), t);
      WrapCong(v + total, w);
      SignedCong(Wrap(v + total, w), w);
      CongTrans(v + total, Wrap(v + total, w), Signed(Wrap(v + total, w), w), m);
      CongTrans(v + total, Signed(Wrap(v + total, w), w), h, m);
      WrapUnique(v + total, h, w);
    }
  }

  /** If all edges are safe, everything is. */
  lemma {:induction false} SafeFromEdges(a: seq<Addend>, w: nat, v: nat)
    requires w > 0 && v < Pow2(w) && AddendsFit(a, w) && EdgesSafe(a, w)
    ensures SafeAt(a, w, v)
    decreases v
  {
    hide SafeAt, Pow2, LowEdge, HighEdge;
    if v == 0 {
      ZeroIsEdge(a, w);
    } else if !SafeAt(a, w, v) {
      if IsEdge(a, w, v) {
        var k :| 0 <= k <= |a| && (v == LowEdge(a, w, k) || v == HighEdge(a, w, k));
      } else {
        UnsafeStepDown(a, w, v);
        SafeFromEdges(a, w, v - 1);
      }
    }
  }

  predicate EdgesSafe(a: seq<Addend>, w: nat)
    requires w > 0
  {
    forall k {:trigger LowEdge(a, w, k)} {:trigger HighEdge(a, w, k)} :: 0 <= k <= |a| ==>
      SafeAt(a, w, LowEdge(a, w, k)) && SafeAt(a, w, HighEdge(a, w, k))
  }

  lemma ZeroIsEdge(a: seq<Addend>, w: nat)
    ensures LowEdge(a, w, 0) == 0
  {
    hide Wrap;
    assert a[..0] == [];
    PowPositive(w);
    WrapSmall(0, w);
  }

  /** For every chain of constant additions to a variable narrower than the pointer, whatever wraps
      they forbid: the decomposition is right for every valuation without poison if and only if it
      is right for the 2n + 2 values at which one of the n + 1 partial sums is zero or the least
      signed number, or wraps do not matter. */
  lemma {:induction false} NarrowIndexAlwaysExactIff(d: Decomposition, size: nat, n: nat, w: nat, a: seq<Addend>, bits: nat)
    requires 0 < w < bits <= 64 && AddendsFit(a, w) && Typed(Additions(Opaque(n, w), a)) && |a| <= MAXDEPTH
    ensures var e := Additions(Opaque(n, w), a);
            (forall rho: Valuation :: Defined(e, rho) ==> MovesAt(Elem(size, e), bits, d, WithVariable(d, size, e, bits), rho))
            <==> EdgesSafe(a, w) || WrapsAround(size, w, bits)
  {
    hide Cong, WithVariable, WrapsAround, Additions, EdgesSafe, MovesAt, SumFits, Permitted, Signed, Folded, Pow2, Eval, Defined;
    var x: TypedExpr := Opaque(n, w);
    var e: TypedExpr := Additions(x, a);
    assert Width(x) == w;
    var d' := WithVariable(d, size, e, bits);
    if EdgesSafe(a, w) || WrapsAround(size, w, bits) {
      forall rho: Valuation | Defined(e, rho) ensures MovesAt(Elem(size, e), bits, d, d', rho) {
        NarrowIndexExactIff(d, size, x, a, bits, rho);
        DefinedIsPermitted(x, a, rho);
        if EdgesSafe(a, w) {
          SafeFromEdges(a, w, Eval(x, rho));
        }
      }
    } else {
      var v := UnsafeEdge(a, w);
      var rho: Valuation := map[n := v];
      ValueOfOpaque(n, w, v, rho);
      NarrowIndexExactIff(d, size, x, a, bits, rho);
      DefinedIsPermitted(x, a, rho);
    }
  }

  lemma ValueOfOpaque(n: nat, w: nat, v: nat, rho: Valuation)
    requires w > 0 && v < Pow2(w) && n in rho && rho[n] == v
    ensures Eval(Opaque(n, w), rho) == v
  {
    hide Pow2, Wrap;
    WrapSmall(v, w);
  }

  lemma UnsafeEdge(a: seq<Addend>, w: nat) returns (v: nat)
    requires w > 0 && !EdgesSafe(a, w)
    ensures v < Pow2(w) && !SafeAt(a, w, v)
  {
    hide SafeAt, Pow2;
    var k :| 0 <= k <= |a| && !(SafeAt(a, w, LowEdge(a, w, k)) && SafeAt(a, w, HighEdge(a, w, k)));
    v := if SafeAt(a, w, LowEdge(a, w, k)) then HighEdge(a, w, k) else LowEdge(a, w, k);
  }

  /** Additions that forbid no wrap are right only if they add nothing (in one bit: something). */
  lemma UnflaggedExactIff(a: seq<Addend>, w: nat)
    requires w > 0 && AddendsFit(a, w) && forall k :: 0 <= k < |a| ==> !a[k].nuw && !a[k].nsw
    ensures EdgesSafe(a, w) <==> if w == 1 then Folded(a, w) != 0 else Folded(a, w) == 0
  {
    hide Wrap, Signed, Folded, EdgesSafe, LowEdge, HighEdge, Permitted, AddendsFit;
    var t := Folded(a, w);
    if if w == 1 then t != 0 else t == 0 {
      forall v: nat ensures SafeAt(a, w, v) {
        SignedFits(v, w);
      }
      AllSafe(a, w);
    } else {
      FoldedFits(a, w);
      var v := if w == 1 then 1 else if t < 0 then Pow2(w - 1) else Pow2(w - 1) - t;
      OneBitOrMore(w);
      LargestOf(v, t, w);
      UnflaggedPermitted(a, w, v);
      if EdgesSafe(a, w) {
        SafeFromEdges(a, w, v);
      }
    }
  }

  lemma OneBitOrMore(w: nat)
    requires w > 0
    ensures Pow2(w) == 2 * Pow2(w - 1) && Pow2(w - 1) > 0 && (w == 1 ==> Pow2(w - 1) == 1)
  {
  }

  lemma FoldedFits(a: seq<Addend>, w: nat)
    requires w > 0
    ensures FitsSigned(Folded(a, w), w)
  {
    hide Signed, Wrap, Pow2;
    SignedFits(Wrap(Total(a), w), w);
  }

  /** A value whose sum with `t` wraps. */
  lemma LargestOf(v: nat, t: int, w: nat)
    requires w > 0 && FitsSigned(t, w) && (w == 1 <==> t == 0)
    requires v == if w == 1 then 1 else if t < 0 then Pow2(w - 1) else Pow2(w - 1) - t
    ensures v < Pow2(w) && !SumFits(Signed(v, w), t, w)
  {
    hide Wrap;
    WrapSmall(v, w);
  }

  lemma {:induction false} UnflaggedPermitted(a: seq<Addend>, w: nat, v: nat)
    requires w > 0 && forall k :: 0 <= k < |a| ==> !a[k].nuw && !a[k].nsw
    ensures Permitted(a, w, v)
  {
    if a != [] {
      UnflaggedPermitted(a[..|a| - 1], w, v);
    }
  }

  lemma AllSafe(a: seq<Addend>, w: nat)
    requires w > 0 && forall v: nat :: SafeAt(a, w, v)
    ensures EdgesSafe(a, w)
  {
    hide SafeAt;
  }

  function SignedTotal(a: seq<Addend>, w: nat): int
    requires w > 0
  {
    if a == [] then 0 else SignedTotal(a[..|a| - 1], w) + Signed(a[|a| - 1].c, w)
  }

  /** Additions that promise not to wrap as signed numbers add their signed constants. */
  lemma {:induction false} NswValue(a: seq<Addend>, w: nat, v: nat)
    requires w > 0 && v < Pow2(w) && Permitted(a, w, v) && forall k :: 0 <= k < |a| ==> a[k].nsw
    ensures Signed(Wrap(v + Total(a), w), w) == Signed(v, w) + SignedTotal(a, w)
  {
    hide Wrap, Signed, Pow2, FitsSigned;
    if a == [] {
      WrapSmall(v, w);
    } else {
      var front, c := a[..|a| - 1], a[|a| - 1].c;
      NswValue(front, w, v);
      AddSigned(Wrap(v + Total(front), w), c, w);
      WrapTwice(v + Total(front), c, w);
    }
  }

  /** For additions that all promise not to wrap as signed numbers, the promise forbids the wrap of
      the folded sum exactly when the signed constants add up to a number of that width. */
  lemma NswExactIff(a: seq<Addend>, w: nat, v: nat)
    requires w > 1 && v < Pow2(w) && Permitted(a, w, v) && forall k :: 0 <= k < |a| ==> a[k].nsw
    ensures SumFits(Signed(v, w), Folded(a, w), w) <==> FitsSigned(SignedTotal(a, w), w)
  {
    hide Cong, Wrap, Signed, Permitted, Total;
    var s, t, z := SignedTotal(a, w), Folded(a, w), Signed(v, w);
    NswValue(a, w, v);
    SignedFits(Wrap(v + Total(a), w), w);
    FoldedFits(a, w);
    SumCong(v, Total(a), w, z + s, z, t);
    CongRefl(z, Pow2(w));
    CongSub(z + s, z + t, z, z, Pow2(w));
    if FitsSigned(z + t, w) || FitsSigned(s, w) {
      CongClose(s, t, Pow2(w));
    }
  }
}
