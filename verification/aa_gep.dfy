/** Decomposing an address into a base pointer, a constant offset and scaled variables. */
module GepDecomposition {
  import opened MachineArithmetic
  import opened LinearExpressions

  /** One index of a getelementptr: a member of a struct, or an element of an array or of what
      the pointer points to. */
  datatype Index = Field(number: nat, offset: nat) | Elem(size: nat, e: TypedExpr)

  datatype Ptr = Base(name: nat) | Cast(p: Ptr) | Gep(p: Ptr, indices: seq<Index>)

  /** A variable, extended by `zext` and `sext` bits, times a scale. */
  datatype VarIndex = VarIndex(v: TypedExpr, zext: nat, sext: nat, scale: int)

  const MAXLOOKUP: nat := 6

  // ---- Addresses ----

  /** Where the base pointers point. */
  type Bases = map<nat, nat>

  /** How far one index moves the address; an index is a signed number. */
  function IndexOffset(i: Index, rho: Valuation): int {
    match i
    case Field(_, offset) => offset
    case Elem(size, e) => size * Signed(Eval(e, rho), Width(e))
  }

  function IndexOffsets(indices: seq<Index>, rho: Valuation): int {
    if indices == [] then 0 else IndexOffset(indices[0], rho) + IndexOffsets(indices[1..], rho)
  }

  /** The address of a pointer `bits` wide. */
  function Address(p: Ptr, bits: nat, rho: Valuation, bases: Bases): nat {
    match p
    case Base(n) => Wrap(if n in bases then bases[n] else 0, bits)
    case Cast(q) => Address(q, bits, rho, bases)
    case Gep(q, indices) => Wrap(Address(q, bits, rho, bases) + IndexOffsets(indices, rho), bits)
  }

  /** The value a variable stands for, extended. */
  function VarValue(i: VarIndex, rho: Valuation): int {
    SignExtended(Eval(i.v, rho), Width(i.v), i.sext)
  }

  function Term(i: VarIndex, rho: Valuation): int {
    i.scale * VarValue(i, rho)
  }

  function VarSum(vars: seq<VarIndex>, rho: Valuation): int {
    if vars == [] then 0 else VarSum(vars[..|vars| - 1], rho) + Term(vars[|vars| - 1], rho)
  }

  predicate SameKey(a: VarIndex, b: VarIndex) {
    a.v == b.v && a.zext == b.zext && a.sext == b.sext
  }

  predicate DistinctKeys(vars: seq<VarIndex>) {
    forall i, j :: 0 <= i < j < |vars| ==> !SameKey(vars[i], vars[j])
  }

  predicate NonZero(vars: seq<VarIndex>) {
    forall i :: 0 <= i < |vars| ==> vars[i].scale != 0
  }

  // ---- Where the decomposition claims to be exact ----

  /** The first member of a struct is at its beginning. */
  predicate TypedIndex(i: Index) {
    i.Field? && i.number == 0 ==> i.offset == 0
  }

  /** An index the decomposition is exact for: a constant, a value at least as wide as the pointer
      in which every sign extension can be read, or a narrower sum without signed wraps whose
      constants fit; the index itself is sign extended. */
  predicate PlainIndex(i: Index, bits: nat) {
    i.Elem? ==>
      || i.e.Const?
      || (Width(i.e) >= bits && Readable(i.e, Width(i.e), 0))
      || (1 < Width(i.e) < bits && NswSum(i.e, 0) && FitsSigned(SumOffset(i.e, 0), Width(i.e)))
  }

  /** No index of the chain has a sign extension inside. */
  predicate SExtFreePtr(p: Ptr) {
    match p
    case Base(_) => true
    case Cast(q) => SExtFreePtr(q)
    case Gep(q, indices) => SExtFreePtr(q) && forall k :: 0 <= k < |indices| ==> SExtFreeIndex(indices[k])
  }

  predicate SExtFreeIndex(i: Index) {
    i.Elem? ==> SExtFree(i.e)
  }

  predicate PlainPtr(p: Ptr, bits: nat) {
    match p
    case Base(_) => true
    case Cast(q) => PlainPtr(q, bits)
    case Gep(q, indices) => PlainPtr(q, bits) && PlainIndices(indices, bits)
  }

  predicate PlainIndices(indices: seq<Index>, bits: nat) {
    forall k :: 0 <= k < |indices| ==> TypedIndex(indices[k]) && PlainIndex(indices[k], bits)
  }

  predicate DefinedIndices(indices: seq<Index>, rho: Valuation) {
    forall k :: 0 <= k < |indices| ==> DefinedIndex(indices[k], rho)
  }

  predicate DefinedIndex(i: Index, rho: Valuation) {
    i.Elem? ==> Defined(i.e, rho)
  }

  /** No index of the chain is poison. */
  predicate DefinedPtr(p: Ptr, rho: Valuation) {
    match p
    case Base(_) => true
    case Cast(q) => DefinedPtr(q, rho)
    case Gep(q, indices) => DefinedPtr(q, rho) && DefinedIndices(indices, rho)
  }

  predicate DefinedVars(vars: seq<VarIndex>, rho: Valuation) {
    forall k :: 0 <= k < |vars| ==> Defined(vars[k].v, rho)
  }

  /** Variables in which nothing is sign extended, and that are extended in one way only. */
  predicate PlainVars(vars: seq<VarIndex>) {
    forall k :: 0 <= k < |vars| ==> SExtFree(vars[k].v) && (vars[k].sext == 0 || vars[k].zext == 0)
  }

  /** Variables that with their extensions are at least as wide as the pointer. */
  predicate WideVars(vars: seq<VarIndex>, bits: nat) {
    forall k :: 0 <= k < |vars| ==> Width(vars[k].v) + vars[k].zext + vars[k].sext >= bits
  }

  // ---- Changing the sum of variables ----

  function Without(vars: seq<VarIndex>, i: nat): seq<VarIndex>
    requires i < |vars|
  {
    vars[..i] + vars[i + 1..]
  }

  /** The entry for the variable of `x`, if there is one, is taken out; `merged` is its scale. */
  ghost predicate TakenOut(vars: seq<VarIndex>, x: VarIndex, merged: int, rest: seq<VarIndex>) {
    if forall k :: 0 <= k < |vars| ==> !SameKey(vars[k], x) then merged == 0 && rest == vars
    else exists k :: 0 <= k < |vars| && SameKey(vars[k], x) && merged == vars[k].scale && rest == Without(vars, k)
  }

  lemma {:induction false} VarSumWithout(vars: seq<VarIndex>, i: nat, rho: Valuation)
    requires i < |vars|
    ensures VarSum(vars, rho) == VarSum(Without(vars, i), rho) + Term(vars[i], rho)
    decreases |vars|
  {
    hide Term;
    var last := |vars| - 1;
    if i == last {
      assert Without(vars, i) == vars[..last];
    } else {
      VarSumWithout(vars[..last], i, rho);
      assert Without(vars, i) == Without(vars[..last], i) + [vars[last]];
      VarSumWith(Without(vars[..last], i), vars[last], rho);
    }
  }

  lemma VarSumWith(vars: seq<VarIndex>, x: VarIndex, rho: Valuation)
    ensures VarSum(vars + [x], rho) == VarSum(vars, rho) + Term(x, rho)
  {
    hide Term;
    assert (vars + [x])[..|vars|] == vars;
  }

  // ---- What one index does to the decomposition ----

  /** The address of `p` is that of `q`, moved by the indices not yet looked at, the constants
      and the variables found so far. */
  ghost predicate Tracks(p: Ptr, bits: nat, q: Ptr, rest: seq<Index>, offset: int, vars: seq<VarIndex>) {
    forall rho: Valuation, bases: Bases :: DefinedPtr(p, rho) ==> TracksAt(p, bits, q, rest, offset, vars, rho, bases)
  }

  ghost predicate TracksAt(p: Ptr, bits: nat, q: Ptr, rest: seq<Index>, offset: int, vars: seq<VarIndex>,
                           rho: Valuation, bases: Bases)
  {
    && DefinedPtr(q, rho) && DefinedIndices(rest, rho) && DefinedVars(vars, rho)
    && Cong(Address(p, bits, rho, bases),
            Address(q, bits, rho, bases) + IndexOffsets(rest, rho) + offset + VarSum(vars, rho), Pow2(bits))
  }

  lemma TracksStart(p: Ptr, bits: nat)
    ensures Tracks(p, bits, p, [], 0, [])
  {
    hide Cong, Address, DefinedPtr;
    forall rho: Valuation, bases: Bases | DefinedPtr(p, rho) ensures TracksAt(p, bits, p, [], 0, [], rho, bases) {
      CongRefl(Address(p, bits, rho, bases), Pow2(bits));
    }
  }

  lemma TracksCast(p: Ptr, bits: nat, q: Ptr, offset: int, vars: seq<VarIndex>)
    requires q.Cast? && Tracks(p, bits, q, [], offset, vars)
    ensures Tracks(p, bits, q.p, [], offset, vars)
  {
    hide Cong, VarSum, TracksAt, DefinedPtr;
    forall rho: Valuation, bases: Bases | DefinedPtr(p, rho) ensures TracksAt(p, bits, q.p, [], offset, vars, rho, bases) {
      assert TracksAt(p, bits, q, [], offset, vars, rho, bases);
      TracksCastAt(p, bits, q, offset, vars, rho, bases);
    }
  }

  lemma TracksCastAt(p: Ptr, bits: nat, q: Ptr, offset: int, vars: seq<VarIndex>, rho: Valuation, bases: Bases)
    requires q.Cast? && TracksAt(p, bits, q, [], offset, vars, rho, bases)
    ensures TracksAt(p, bits, q.p, [], offset, vars, rho, bases)
  {
    hide Cong, VarSum, Pow2;
  }

  lemma TracksGep(p: Ptr, bits: nat, q: Ptr, offset: int, vars: seq<VarIndex>)
    requires q.Gep? && Tracks(p, bits, q, [], offset, vars)
    ensures Tracks(p, bits, q.p, q.indices, offset, vars)
  {
    hide Cong, VarSum, TracksAt, DefinedPtr;
    forall rho: Valuation, bases: Bases | DefinedPtr(p, rho)
      ensures TracksAt(p, bits, q.p, q.indices, offset, vars, rho, bases)
    {
      assert TracksAt(p, bits, q, [], offset, vars, rho, bases);
      TracksGepAt(p, bits, q, offset, vars, rho, bases);
    }
  }

  lemma TracksGepAt(p: Ptr, bits: nat, q: Ptr, offset: int, vars: seq<VarIndex>, rho: Valuation, bases: Bases)
    requires q.Gep? && TracksAt(p, bits, q, [], offset, vars, rho, bases)
    ensures TracksAt(p, bits, q.p, q.indices, offset, vars, rho, bases)
  {
    hide Cong, VarSum, Address, DefinedPtr, DefinedIndices, IndexOffset, Pow2, Wrap;
    GepAddress(q, bits, rho, bases);
    var x, m := Address(q.p, bits, rho, bases) + IndexOffsets(q.indices, rho), Pow2(bits);
    var y := offset + VarSum(vars, rho);
    WrapCong(x, bits);
    CongRefl(y, m);
    CongAdd(Wrap(x, bits), x, y, y, m);
    CongTrans(Address(p, bits, rho, bases), Wrap(x, bits) + y, x + y, m);
  }

  lemma GepAddress(q: Ptr, bits: nat, rho: Valuation, bases: Bases)
    requires q.Gep?
    ensures Address(q, bits, rho, bases) == Wrap(Address(q.p, bits, rho, bases) + IndexOffsets(q.indices, rho), bits)
    ensures DefinedPtr(q, rho) ==> DefinedPtr(q.p, rho) && DefinedIndices(q.indices, rho)
  {
    hide Wrap, Pow2;
  }

  /** Constants and variables together have moved by the offset of the index. */
  ghost predicate Moves(i: Index, bits: nat, offset: int, vars: seq<VarIndex>, offset': int, vars': seq<VarIndex>) {
    forall rho: Valuation :: DefinedIndex(i, rho) && DefinedVars(vars, rho) ==>
      && DefinedVars(vars', rho)
      && Cong(offset + VarSum(vars, rho) + IndexOffset(i, rho), offset' + VarSum(vars', rho), Pow2(bits))
  }

  lemma TracksIndex(p: Ptr, bits: nat, q: Ptr, rest: seq<Index>, offset: int, vars: seq<VarIndex>,
                    offset': int, vars': seq<VarIndex>)
    requires rest != [] && Tracks(p, bits, q, rest, offset, vars) && Moves(rest[0], bits, offset, vars, offset', vars')
    ensures Tracks(p, bits, q, rest[1..], offset', vars')
  {
    hide Cong, VarSum, Address, DefinedPtr, IndexOffset, Pow2, DefinedIndex;
    forall rho: Valuation, bases: Bases | DefinedPtr(p, rho)
      ensures TracksAt(p, bits, q, rest[1..], offset', vars', rho, bases)
    {
      assert TracksAt(p, bits, q, rest, offset, vars, rho, bases);
      assert DefinedIndex(rest[0], rho);
      var a, m := Address(q, bits, rho, bases) + IndexOffsets(rest[1..], rho), Pow2(bits);
      var x, y := offset + VarSum(vars, rho) + IndexOffset(rest[0], rho), offset' + VarSum(vars', rho);
      CongRefl(a, m);
      CongAdd(a, a, x, y, m);
      CongTrans(Address(p, bits, rho, bases), a + x, a + y, m);
    }
  }

  /** An index that always moves the address by `k`. */
  lemma MovesBy(i: Index, bits: nat, offset: int, vars: seq<VarIndex>, k: int, offset': int)
    requires forall rho: Valuation :: IndexOffset(i, rho) == k
    requires Cong(offset + k, offset', Pow2(bits))
    ensures Moves(i, bits, offset, vars, offset', vars)
  {
    hide Cong, VarSum, IndexOffset, Pow2;
    forall rho: Valuation
      ensures Cong(offset + VarSum(vars, rho) + IndexOffset(i, rho), offset' + VarSum(vars, rho), Pow2(bits))
    {
      var x, m := VarSum(vars, rho), Pow2(bits);
      CongRefl(x, m);
      CongAdd(offset + k, offset', x, x, m);
    }
  }

  /** Adding in 64 bits is adding modulo the pointer width. */
  lemma Add64(a: int, b: int, c: int, bits: nat)
    requires bits <= 64
    ensures Cong(a + b + c, Signed(a + c, 64) + b, Pow2(bits))
    ensures Cong(a + b + c, a + Signed(b + c, 64), Pow2(bits))
  {
    hide Signed, Cong;
    var m := Pow2(bits);
    SignedCong(a + c, 64);
    SignedCong(b + c, 64);
    CongNarrow(a + c, Signed(a + c, 64), 64, bits);
    CongNarrow(b + c, Signed(b + c, 64), 64, bits);
    CongRefl(a, m);
    CongRefl(b, m);
    CongAdd(a + c, Signed(a + c, 64), b, b, m);
    CongAdd(a, a, b + c, Signed(b + c, 64), m);
  }

  /** Adjusting both constants to the pointer width changes nothing modulo it. */
  lemma TracksAdjusted(p: Ptr, bits: nat, q: Ptr, s: int, o: int, vars: seq<VarIndex>)
    requires bits > 0 && Tracks(p, bits, q, [], s + o, vars)
    ensures Tracks(p, bits, q, [], Signed(s, bits) + Signed(o, bits), vars)
  {
    hide Cong, VarSum, Address, DefinedPtr, Signed, Pow2, IndexOffsets;
    var m := Pow2(bits);
    SignedCong(s, bits);
    SignedCong(o, bits);
    CongAdd(s, Signed(s, bits), o, Signed(o, bits), m);
    var x, y := s + o, Signed(s, bits) + Signed(o, bits);
    forall rho: Valuation, bases: Bases | DefinedPtr(p, rho) ensures TracksAt(p, bits, q, [], y, vars, rho, bases) {
      assert TracksAt(p, bits, q, [], x, vars, rho, bases);
      var a := Address(q, bits, rho, bases) + IndexOffsets([], rho) + VarSum(vars, rho);
      CongRefl(a, m);
      CongAdd(a, a, x, y, m);
      CongTrans(Address(p, bits, rho, bases), a + x, a + y, m);
    }
  }

  // ---- A variable index ----

  /** The scale a new entry gets, with the scale of an equal entry merged in. */
  function NewScale(size: nat, scale: nat, width: nat, merged: int, bits: nat): int
    requires width > 0 && bits > 0
  {
    Signed(Wrap(Wrap(size * Signed(scale, width), 64) + merged, 64), bits)
  }

  lemma NewScaleCong(size: nat, scale: nat, width: nat, merged: int, bits: nat)
    requires 0 < bits <= 64 && width > 0
    ensures Cong(size * Signed(scale, width) + merged, NewScale(size, scale, width, merged, bits), Pow2(bits))
  {
    hide Cong, Signed, Wrap;
    var m, s := Pow2(bits), size * Signed(scale, width);
    WrapCong(s, 64);
    CongNarrow(s, Wrap(s, 64), 64, bits);
    CongRefl(merged, m);
    CongAdd(s, Wrap(s, 64), merged, merged, m);
    var a := Wrap(s, 64) + merged;
    WrapCong(a, 64);
    CongNarrow(a, Wrap(a, 64), 64, bits);
    CongTrans(s + merged, a, Wrap(a, 64), m);
    SignedCong(Wrap(a, 64), bits);
    CongTrans(s + merged, Wrap(a, 64), NewScale(size, scale, width, merged, bits), m);
  }

  /** The constant part of a variable index. */
  lemma NewOffsetCong(o: int, k: int, bits: nat)
    requires 0 < bits <= 64
    ensures Cong(o + k, Signed(o + k, 64), Pow2(bits))
  {
    hide Cong, Signed;
    SignedCong(o + k, 64);
    CongNarrow(o + k, Signed(o + k, 64), 64, bits);
  }

  /** A plain index moves the address by its affine form, with scale and offset read signed. */
  lemma PlainIndexOffset(i: Index, bits: nat, rho: Valuation)
    requires i.Elem? && !i.e.Const? && PlainIndex(i, bits) && DefinedIndex(i, rho) && bits > 0
    ensures var r, w := LinearIndex(i.e, bits), Width(i.e);
            && w > 0 && Defined(r.v, rho)
            && Cong(IndexOffset(i, rho), i.size * (Signed(r.s.scale, w) * Variable(r, rho) + Signed(r.s.offset, w)), Pow2(bits))
  {
    hide Cong, Signed, GetLinear, Eval, Defined, Pow2, Typed, Width, IndexOffset, FitsSigned, Variable, LinearIndex,
         Readable, NswSum, SumOffset;
    ElemOffset(i, rho);
    LinearIs(i.e, bits);
    var w, r := Width(i.e), LinearIndex(i.e, bits);
    var y, z := Signed(Eval(i.e, rho), w), Signed(r.s.scale, w) * Variable(r, rho) + Signed(r.s.offset, w);
    if w >= bits {
      WideIndexValue(i.e, bits, r, rho);
    } else {
      NarrowIndexValue(i.e, bits, r, rho);
    }
    CongScale(y, z, i.size, Pow2(bits));
    Commutes(i.size, z);
  }

  lemma WideIndexValue(e: TypedExpr, bits: nat, r: Decomposed, rho: Valuation)
    requires 0 < bits <= Width(e) && Readable(e, Width(e), 0) && Defined(e, rho)
    requires r == GetLinear(e, Width(e), 0, START)
    ensures var w := Width(e);
            && Defined(r.v, rho)
            && Cong(Signed(Eval(e, rho), w), Signed(r.s.scale, w) * Variable(r, rho) + Signed(r.s.offset, w), Pow2(bits))
  {
    hide Cong, Signed, GetLinear, Eval, Defined, Pow2, Typed, Width, Variable, Readable;
    var w, x, v := Width(e), Eval(e, rho), Variable(r, rho);
    var m, a, b := Pow2(w), r.s.scale, r.s.offset;
    LinearIsAffine(e, w, 0, rho);
    SignedCong(x, w);
    SignedCong(a, w);
    SignedCong(b, w);
    CongScale(a, Signed(a, w), v, m);
    CongAdd(a * v, Signed(a, w) * v, b, Signed(b, w), m);
    CongTrans(Signed(x, w), x, a * v + b, m);
    CongTrans(Signed(x, w), a * v + b, Signed(a, w) * v + Signed(b, w), m);
    CongNarrow(Signed(x, w), Signed(a, w) * v + Signed(b, w), w, bits);
  }

  lemma NarrowIndexValue(e: TypedExpr, bits: nat, r: Decomposed, rho: Valuation)
    requires 1 < Width(e) < bits && NswSum(e, 0) && FitsSigned(SumOffset(e, 0), Width(e)) && Defined(e, rho)
    requires r == GetLinear(e, Width(e), 0, Lin(0, 0, 0, bits - Width(e), true, true))
    ensures var w := Width(e);
            && Defined(r.v, rho)
            && Cong(Signed(Eval(e, rho), w), Signed(r.s.scale, w) * Variable(r, rho) + Signed(r.s.offset, w), Pow2(bits))
  {
    hide Cong, Signed, GetLinear, Eval, Defined, Pow2, Typed, NswSum, SumOffset, FitsSigned, Wrap;
    var w := Width(e);
    NswSumLinear(e, w, 0, bits - w);
    NswSumValue(e, w, 0, bits - w, rho);
    SignedUnique(r.s.offset, SumOffset(e, 0), w);
    OneSigned(w);
    var v, b, m := Signed(Eval(r.v, rho), w), SumOffset(e, 0), Pow2(bits);
    WrapCong(v, bits);
    CongRefl(b, m);
    CongAdd(v, Wrap(v, bits), b, b, m);
  }

  lemma OneSigned(w: nat)
    requires w > 0
    ensures Signed(1, w) == if w == 1 then -1 else 1
  {
    if w == 1 {
      assert Pow2(1) == 2;
    } else {
      Pow2Grows(1, w - 1);
      assert Pow2(1) == 2;
      CongRefl(1, Pow2(w));
      SignedUnique(1, 1, w);
    }
  }

  lemma ElemOffset(i: Index, rho: Valuation)
    requires i.Elem?
    ensures IndexOffset(i, rho) == Signed(Eval(i.e, rho), Width(i.e)) * i.size
  {
  }

  lemma Commutes(a: int, b: int)
    ensures a * b == b * a
  {
  }

  /** What a variable index leaves behind: a constant, and an entry unless its scale is zero. */
  lemma {:induction false} MovesVariable(i: Index, bits: nat, s: int, o: int, vars: seq<VarIndex>, rest: seq<VarIndex>, merged: int,
                                         o': int, vars': seq<VarIndex>)
    requires i.Elem? && !i.e.Const? && PlainIndex(i, bits) && 0 < bits <= 64
    requires var r := LinearIndex(i.e, bits);
             var x := VarIndex(r.v, r.s.zext, r.s.sext, NewScale(i.size, r.s.scale, Width(i.e), merged, bits));
             && o' == Signed(o + Signed(r.s.offset, Width(i.e)) * i.size, 64)
             && vars' == (if x.scale == 0 then rest else rest + [x])
             && (forall rho: Valuation :: VarSum(vars, rho) == VarSum(rest, rho) + merged * VarValue(x.(scale := 0), rho))
             && (forall rho: Valuation :: DefinedVars(vars, rho) ==> DefinedVars(rest, rho))
    ensures Moves(i, bits, s + o, vars, s + o', vars')
  {
    hide Cong, Signed, LinearIndex, VarValue, Defined, Pow2, NewScale, VarSum, IndexOffset, DefinedIndex, PlainIndex, Width;
    var r := LinearIndex(i.e, bits);
    forall rho: Valuation | DefinedIndex(i, rho) && DefinedVars(vars, rho)
      ensures DefinedVars(vars', rho)
      ensures Cong(s + o + VarSum(vars, rho) + IndexOffset(i, rho), s + o' + VarSum(vars', rho), Pow2(bits))
    {
      assert DefinedVars(rest, rho);
      MovesVariableAt(i, bits, s, o, rest, merged, o', vars', VarSum(vars, rho), r, rho);
    }
  }

  lemma {:induction false} MovesVariableAt(i: Index, bits: nat, s: int, o: int, rest: seq<VarIndex>, merged: int,
                                           o': int, vars': seq<VarIndex>, sum: int, r: Decomposed, rho: Valuation)
    requires i.Elem? && !i.e.Const? && PlainIndex(i, bits) && 0 < bits <= 64 && DefinedIndex(i, rho)
    requires r == LinearIndex(i.e, bits)
    requires var x := VarIndex(r.v, r.s.zext, r.s.sext, NewScale(i.size, r.s.scale, Width(i.e), merged, bits));
             && o' == Signed(o + Signed(r.s.offset, Width(i.e)) * i.size, 64)
             && vars' == (if x.scale == 0 then rest else rest + [x])
             && sum == VarSum(rest, rho) + merged * VarValue(x.(scale := 0), rho)
    ensures Cong(s + o + sum + IndexOffset(i, rho), s + o' + VarSum(vars', rho), Pow2(bits))
    ensures Defined(r.v, rho)
  {
    hide Cong, Signed, LinearIndex, SignExtended, Eval, Defined, Pow2, NewScale, VarSum, IndexOffset, Term, DefinedIndex,
         PlainIndex, Width;
    var w := Width(i.e);
    PlainIndexOffset(i, bits, rho);
    var scale, v := NewScale(i.size, r.s.scale, w, merged, bits), Variable(r, rho);
    var x := VarIndex(r.v, r.s.zext, r.s.sext, scale);
    NewScaleCong(i.size, r.s.scale, w, merged, bits);
    Commutes(Signed(r.s.offset, w), i.size);
    NewOffsetCong(o, i.size * Signed(r.s.offset, w), bits);
    VarSumWith(rest, x, rho);
    NoTerm(x, rho);
    assert VarValue(x.(scale := 0), rho) == v;
    VariableSum(VarSum(rest, rho), i.size, Signed(r.s.scale, w), Signed(r.s.offset, w), v, merged, scale, s, o, o',
                IndexOffset(i, rho), Pow2(bits));
  }

  lemma NoTerm(x: VarIndex, rho: Valuation)
    ensures Term(x, rho) == x.scale * VarValue(x.(scale := 0), rho) && (x.scale == 0 ==> Term(x, rho) == 0)
  {
    hide SignExtended, Eval;
  }

  /** The arithmetic of one variable index. */
  lemma VariableSum(sum: int, size: nat, a: int, b: int, v: int, merged: int, scale: int, s: int, o: int, o': int, d: int, m: int)
    requires Cong(size * a + merged, scale, m) && Cong(o + size * b, o', m) && Cong(d, size * (a * v + b), m)
    ensures Cong(s + o + (sum + merged * v) + d, s + o' + (sum + scale * v), m)
  {
    hide Cong;
    CongScale(size * a + merged, scale, v, m);
    CongAdd((size * a + merged) * v, scale * v, o + size * b, o', m);
    var x := (size * a + merged) * v + (o + size * b);
    var y := scale * v + o';
    CongRefl(s + sum, m);
    CongAdd(x, y, s + sum, s + sum, m);
    var z := s + o + (sum + merged * v);
    CongRefl(z, m);
    CongAdd(z, z, d, size * (a * v + b), m);
    assert z + size * (a * v + b) == x + (s + sum) by { Spread(size, a, v, b, merged); }
    CongTrans(z + d, x + (s + sum), y + (s + sum), m);
  }

  lemma Spread(size: int, a: int, v: int, b: int, merged: int)
    ensures size * (a * v + b) == (size * a) * v + size * b
    ensures (size * a + merged) * v == (size * a) * v + merged * v
  {
  }

  // ---- The walk ----

  /** Recursion of the analysis of an index, passing its results by reference as the source
      does. */
  method GetLinearExpression(v: TypedExpr, scale0: nat, offset0: nat, zext0: nat, sext0: nat, big: nat, depth: nat,
                             nsw0: bool, nuw0: bool)
    returns (result: TypedExpr, scale: nat, offset: nat, zext: nat, sext: nat, nsw: bool, nuw: bool)
    requires Width(v) <= big && depth <= MAXDEPTH
    ensures Decomposed(result, Lin(scale, offset, zext, sext, nsw, nuw))
            == GetLinear(v, big, depth, Lin(scale0, offset0, zext0, sext0, nsw0, nuw0))
    decreases v
  {
    hide Wrap, Signed, Pow2, ApplyOp;
    result, scale, offset, zext, sext, nsw, nuw := v, scale0, offset0, zext0, sext0, nsw0, nuw0;
    if depth == MAXDEPTH {
      scale, offset := 1, 0;
      return;
    }
    match v {
      case Const(_, c) =>
        offset := Wrap(offset + c, big);
      case Opaque(_, _) =>
        scale, offset := 1, 0;
      case Bin(_, op, x, c, hasNuw, hasNsw, disjoint) =>
        if op == AndOp || (op == OrOp && !disjoint) {
          scale, offset := 1, 0;
          return;
        }
        result, scale, offset, zext, sext, nsw, nuw :=
          GetLinearExpression(x, scale, offset, zext, sext, big, depth + 1, nsw, nuw);
        scale, offset, nsw, nuw := ApplyOperator(op, c, hasNuw, hasNsw, big, scale, offset, zext, sext, nsw, nuw);
      case Ext(_, isSExt, castOp, newWidth) =>
        var smallWidth := Width(castOp);
        var oldZExt, oldSExt := zext, sext;
        result, scale, offset, zext, sext, nsw, nuw :=
          GetLinearExpression(castOp, scale, offset, zext, sext, big, depth + 1, nsw, nuw);
        var extendedBy := newWidth - smallWidth;
        if isSExt && zext == 0 {
          if nsw {
            offset := Wrap(Wrap(Signed(offset, smallWidth), newWidth), big);
          } else {
            scale, offset, result, zext, sext := 1, 0, castOp, oldZExt, oldSExt;
          }
          sext := sext + extendedBy;
        } else {
          if !nuw {
            scale, offset, result, zext, sext := 1, 0, castOp, oldZExt, oldSExt;
          }
          zext := zext + extendedBy;
        }
    }
  }

  /** What an operation with a constant does to the results of the recursion. */
  method ApplyOperator(op: Op, c: nat, hasNuw: bool, hasNsw: bool, big: nat, scale0: nat, offset0: nat,
                       ghost zext: nat, ghost sext: nat, nsw0: bool, nuw0: bool)
    returns (scale: nat, offset: nat, nsw: bool, nuw: bool)
    requires op != AndOp
    ensures Lin(scale, offset, zext, sext, nsw, nuw)
            == ApplyOp(op, c, hasNuw, hasNsw, big, Lin(scale0, offset0, zext, sext, nsw0, nuw0))
  {
    hide Wrap, Pow2;
    scale, offset, nsw, nuw := scale0, offset0, nsw0, nuw0;
    match op {
      case AddOp => offset := Wrap(offset + c, big);
      case OrOp => offset := Wrap(offset + c, big);
      case SubOp => offset := Wrap(offset - c, big);
      case MulOp =>
        offset := Wrap(offset * c, big);
        scale := Wrap(scale * c, big);
      case _ =>
        offset := Wrap(offset * Pow2(c), big);
        scale := Wrap(scale * Pow2(c), big);
        nsw, nuw := false, false;
        return;
    }
    if op != OrOp {
      nuw := nuw && hasNuw;
      nsw := nsw && hasNsw;
    }
  }

  // ---- The decomposition as a function ----

  /** What the walk has found. */
  datatype Decomposition = Decomposition(base: Ptr, structOffset: int, otherOffset: int, vars: seq<VarIndex>)

  datatype Taken = Taken(merged: int, rest: seq<VarIndex>)

  /** The scale of the first entry for the variable of `x`, and the list without that entry. */
  function TakeOut(vars: seq<VarIndex>, x: VarIndex): Taken {
    if vars == [] then Taken(0, [])
    else if SameKey(vars[0], x) then Taken(vars[0].scale, vars[1..])
    else
      var t := TakeOut(vars[1..], x);
      Taken(t.merged, [vars[0]] + t.rest)
  }

  lemma WithoutLater(vars: seq<VarIndex>, i: nat)
    requires 0 < i < |vars|
    ensures Without(vars, i) == [vars[0]] + Without(vars[1..], i - 1)
  {
    assert vars[..i] == [vars[0]] + vars[1..][..i - 1];
    assert vars[1..][i..] == vars[i + 1..];
  }

  lemma {:induction false} TakeOutAt(vars: seq<VarIndex>, x: VarIndex, i: nat)
    requires i < |vars| && SameKey(vars[i], x) && forall k :: 0 <= k < i ==> !SameKey(vars[k], x)
    ensures TakeOut(vars, x) == Taken(vars[i].scale, Without(vars, i))
    decreases i
  {
    hide SameKey;
    if i == 0 {
      assert Without(vars, 0) == vars[1..];
    } else {
      var rest := vars[1..];
      assert rest[i - 1] == vars[i];
      forall k | 0 <= k < i - 1 ensures !SameKey(rest[k], x) {
        assert rest[k] == vars[k + 1];
      }
      TakeOutAt(rest, x, i - 1);
      hide Without;
      WithoutLater(vars, i);
    }
  }

  lemma {:induction false} TakeOutNothing(vars: seq<VarIndex>, x: VarIndex)
    requires forall k :: 0 <= k < |vars| ==> !SameKey(vars[k], x)
    ensures TakeOut(vars, x) == Taken(0, vars)
  {
    if vars != [] {
      assert !SameKey(vars[0], x);
      TakeOutNothing(vars[1..], x);
      assert [vars[0]] + vars[1..] == vars;
    }
  }

  /** The index in affine form; a narrower index is sign extended to the pointer's width. */
  function LinearIndex(e: TypedExpr, bits: nat): (r: Decomposed)
    ensures Typed(r.v)
  {
    GetLinear(e, Width(e), 0, Lin(0, 0, 0, if bits > Width(e) then bits - Width(e) else 0, true, true))
  }

  function WithVariable(d: Decomposition, size: nat, e: TypedExpr, bits: nat): Decomposition
    requires bits > 0
  {
    var r := LinearIndex(e, bits);
    var t := TakeOut(d.vars, VarIndex(r.v, r.s.zext, r.s.sext, 0));
    var scale := NewScale(size, r.s.scale, Width(e), t.merged, bits);
    d.(otherOffset := Signed(d.otherOffset + Signed(r.s.offset, Width(e)) * size, 64),
       vars := if scale != 0 then t.rest + [VarIndex(r.v, r.s.zext, r.s.sext, scale)] else t.rest)
  }

  predicate ConstantIndex(i: Index) {
    i.Field? || i.e.Const?
  }

  function WithIndex(d: Decomposition, i: Index, bits: nat): Decomposition
    requires bits > 0
  {
    match i
    case Field(number, offset) => if number == 0 then d else d.(structOffset := Signed(d.structOffset + offset, 64))
    case Elem(size, e) =>
      if !e.Const? then WithVariable(d, size, e, bits)
      else if e.value == 0 then d
      else d.(otherOffset := Signed(d.otherOffset + size * Signed(e.value, e.width), 64))
  }

  function WithIndices(d: Decomposition, indices: seq<Index>, bits: nat): Decomposition
    requires bits > 0
  {
    if indices == [] then d
    else WithIndex(WithIndices(d, indices[..|indices| - 1], bits), indices[|indices| - 1], bits)
  }

  /** One GEP: its indices from first to last; constants are adjusted to the pointer's width if
      there is nothing else. */
  function WithGep(d: Decomposition, indices: seq<Index>, bits: nat): Decomposition
    requires bits > 0
  {
    var e := WithIndices(d, indices, bits);
    if forall k :: 0 <= k < |indices| ==> ConstantIndex(indices[k])
    then e.(structOffset := Signed(e.structOffset, bits), otherOffset := Signed(e.otherOffset, bits))
    else e
  }

  /** The walk from `p` towards its base, for at most `steps` steps. */
  function Walk(d: Decomposition, p: Ptr, bits: nat, steps: nat): Decomposition
    requires bits > 0
    decreases steps
  {
    if steps == 0 then d.(base := p)
    else match p
      case Base(_) => d.(base := p)
      case Cast(q) => Walk(d, q, bits, steps - 1)
      case Gep(q, indices) => Walk(WithGep(d, indices, bits), q, bits, steps - 1)
  }

  predicate StopsEarly(p: Ptr, steps: nat) {
    if steps == 0 then true
    else match p
      case Base(_) => false
      case Cast(q) => StopsEarly(q, steps - 1)
      case Gep(q, _) => StopsEarly(q, steps - 1)
  }

  function Decompose(p: Ptr, bits: nat): Decomposition
    requires bits > 0
  {
    Walk(Decomposition(p, 0, 0, []), p, bits, MAXLOOKUP)
  }

  /** The variables are in order: no two entries for the same variable, none scaled by zero, every
      scale a number of the pointer's width. */
  predicate TidyVars(vars: seq<VarIndex>, bits: nat)
    requires bits > 0
  {
    && DistinctKeys(vars) && NonZero(vars)
    && forall k :: 0 <= k < |vars| ==> FitsSigned(vars[k].scale, bits)
  }

  lemma TakeOutTakes(vars: seq<VarIndex>, x: VarIndex)
    ensures TakenOut(vars, x, TakeOut(vars, x).merged, TakeOut(vars, x).rest)
  {
    hide SameKey;
    var i := 0;
    while i < |vars| && !SameKey(vars[i], x)
      invariant 0 <= i <= |vars| && forall k :: 0 <= k < i ==> !SameKey(vars[k], x)
    {
      i := i + 1;
    }
    if i < |vars| {
      TakeOutAt(vars, x, i);
    } else {
      TakeOutNothing(vars, x);
    }
  }

  /** A variable index keeps the variables in order and, if it is plain, moves constants and
      variables together by just its offset. */
  lemma WithVariableExact(d: Decomposition, size: nat, e: TypedExpr, bits: nat)
    requires 0 < bits <= 64 && !e.Const? && TidyVars(d.vars, bits)
    ensures var d' := WithVariable(d, size, e, bits);
            && TidyVars(d'.vars, bits)
            && (SExtFree(e) && PlainIndex(Elem(size, e), bits) && PlainVars(d.vars) ==> PlainVars(d'.vars))
            && (WideVars(d.vars, bits) ==> WideVars(d'.vars, bits))
            && (PlainIndex(Elem(size, e), bits) ==>
                  Moves(Elem(size, e), bits, d.structOffset + d.otherOffset, d.vars, d'.structOffset + d'.otherOffset, d'.vars))
  {
    hide Moves, Signed, Wrap, Pow2, GetLinear, PlainIndex, FitsSigned, SExtFree, Width, PlainVars, WideVars,
         DistinctKeys, NonZero, Typed, TakenOut, NewScale, Without, TakeOut, LinearIndex;
    var w := Width(e);
    var r := LinearIndex(e, bits);
    LinearIs(e, bits);
    var x := VarIndex(r.v, r.s.zext, r.s.sext, 0);
    var t := TakeOut(d.vars, x);
    TakeOutTakes(d.vars, x);
    WithoutTidy(d.vars, t.rest, x, t.merged, bits);
    var scale := NewScale(size, r.s.scale, w, t.merged, bits);
    ScaleIs(size, r.s.scale, w, t.merged, bits);
    WithTidy(t.rest, x.(scale := scale), bits);
    NewVariable(size, e, bits);
    if PlainIndex(Elem(size, e), bits) {
      VariableMoves(size, e, bits, d.structOffset, d.otherOffset, d.vars, t.rest, t.merged, scale);
    }
  }

  lemma WithIndexExact(d: Decomposition, i: Index, bits: nat)
    requires 0 < bits <= 64 && TidyVars(d.vars, bits)
    ensures var d' := WithIndex(d, i, bits);
            && TidyVars(d'.vars, bits)
            && (SExtFreeIndex(i) && PlainIndex(i, bits) && PlainVars(d.vars) ==> PlainVars(d'.vars))
            && (WideVars(d.vars, bits) ==> WideVars(d'.vars, bits))
            && (TypedIndex(i) && PlainIndex(i, bits) ==>
                  Moves(i, bits, d.structOffset + d.otherOffset, d.vars, d'.structOffset + d'.otherOffset, d'.vars))
  {
    hide Moves, Signed, Pow2, PlainIndex, Cong, WithVariable, TidyVars, WideVars, PlainVars, SExtFree;
    match i
    case Field(_, _) =>
      if TypedIndex(i) {
        ConstantMoves(i, bits, d.structOffset, d.otherOffset, d.vars);
      }
    case Elem(size, e) =>
      if e.Const? {
        ConstantMoves(i, bits, d.structOffset, d.otherOffset, d.vars);
      } else {
        WithVariableExact(d, size, e, bits);
      }
  }

  /** What is known when the walk from `p` has come to `v`, with the indices `rest` still to come. */
  ghost predicate Found(p: Ptr, v: Ptr, rest: seq<Index>, bits: nat, d: Decomposition)
    requires bits > 0
  {
    && TidyVars(d.vars, bits) && WideVars(d.vars, bits)
    && (PlainPtr(p, bits) ==> Tracks(p, bits, v, rest, d.structOffset + d.otherOffset, d.vars))
    && (PlainPtr(p, bits) && SExtFreePtr(p) ==> PlainVars(d.vars))
  }

  predicate PartOf(p: Ptr, v: Ptr, bits: nat) {
    (PlainPtr(p, bits) ==> PlainPtr(v, bits)) && (SExtFreePtr(p) ==> SExtFreePtr(v))
  }

  lemma {:induction false} IndicesFound(p: Ptr, v: Ptr, d: Decomposition, k: nat, bits: nat)
    requires 0 < bits <= 64 && v.Gep? && k <= |v.indices| && PartOf(p, v, bits)
    requires Found(p, v.p, v.indices, bits, d)
    ensures Found(p, v.p, v.indices[k..], bits, WithIndices(d, v.indices[..k], bits))
    decreases k
  {
    hide Tracks, Moves, Signed, PlainIndex, TypedIndex, SExtFreeIndex, WithIndex, TidyVars, WideVars, PlainVars;
    if k == 0 {
      assert v.indices[0..] == v.indices;
    } else {
      IndicesFound(p, v, d, k - 1, bits);
      var e := WithIndices(d, v.indices[..k - 1], bits);
      assert v.indices[..k][..k - 1] == v.indices[..k - 1];
      WithIndexExact(e, v.indices[k - 1], bits);
      if PlainPtr(p, bits) {
        assert v.indices[k - 1..][0] == v.indices[k - 1] && v.indices[k - 1..][1..] == v.indices[k..];
        var f := WithIndex(e, v.indices[k - 1], bits);
        TracksIndex(p, bits, v.p, v.indices[k - 1..], e.structOffset + e.otherOffset, e.vars, f.structOffset + f.otherOffset, f.vars);
      }
    }
  }

  lemma GepFound(p: Ptr, v: Ptr, d: Decomposition, bits: nat)
    requires 0 < bits <= 64 && v.Gep? && PartOf(p, v, bits)
    requires Found(p, v.p, v.indices, bits, d)
    ensures Found(p, v.p, [], bits, WithGep(d, v.indices, bits))
  {
    hide Tracks, Signed, TidyVars, WideVars, PlainVars, WithIndices, PlainPtr, SExtFreePtr;
    IndicesFound(p, v, d, |v.indices|, bits);
    assert v.indices[..|v.indices|] == v.indices && v.indices[|v.indices|..] == [];
    if PlainPtr(p, bits) {
      var e := WithIndices(d, v.indices, bits);
      TracksAdjusted(p, bits, v.p, e.structOffset, e.otherOffset, e.vars);
    }
  }

  lemma {:induction false} WalkFound(p: Ptr, v: Ptr, d: Decomposition, bits: nat, steps: nat)
    requires 0 < bits <= 64 && PartOf(p, v, bits) && Found(p, v, [], bits, d)
    ensures var e := Walk(d, v, bits, steps);
            Found(p, e.base, [], bits, e) && (!StopsEarly(v, steps) ==> e.base.Base?)
    decreases steps
  {
    hide Tracks, TidyVars, WideVars, PlainVars, WithGep;
    if steps > 0 {
      match v
      case Base(_) =>
      case Cast(q) =>
        if PlainPtr(p, bits) {
          TracksCast(p, bits, v, d.structOffset + d.otherOffset, d.vars);
        }
        WalkFound(p, q, d, bits, steps - 1);
      case Gep(q, indices) =>
        if PlainPtr(p, bits) {
          TracksGep(p, bits, v, d.structOffset + d.otherOffset, d.vars);
        }
        GepFound(p, v, d, bits);
        WalkFound(p, q, WithGep(d, indices, bits), bits, steps - 1);
    }
  }

  /** Whatever is left as the base, for every valuation without poison the address of `p` is the
      address of the base plus the constants plus the scaled variables, modulo the pointer width. */
  lemma DecomposeIsExact(p: Ptr, bits: nat)
    requires 0 < bits <= 64
    ensures var d := Decompose(p, bits);
            && TidyVars(d.vars, bits) && WideVars(d.vars, bits)
            && (PlainPtr(p, bits) ==> Tracks(p, bits, d.base, [], d.structOffset + d.otherOffset, d.vars))
            && (PlainPtr(p, bits) && SExtFreePtr(p) ==> PlainVars(d.vars))
            && (!StopsEarly(p, MAXLOOKUP) ==> d.base.Base?)
  {
    hide Tracks, Walk;
    TracksStart(p, bits);
    WalkFound(p, p, Decomposition(p, 0, 0, []), bits, MAXLOOKUP);
  }

  /** The struct that the walk fills in. */
  class DecomposedGEP {
    var base: Ptr
    var structOffset: int
    var otherOffset: int
    var varIndices: seq<VarIndex>

    constructor ()
      ensures varIndices == []
    {
      base, structOffset, otherOffset, varIndices := Base(0), 0, 0, [];
    }

    function Value(): Decomposition
      reads this
    {
      Decomposition(base, structOffset, otherOffset, varIndices)
    }

    /** If the variable has an entry already, takes it out and gives its scale. */
    method TakeEntry(v: TypedExpr, zext: nat, sext: nat) returns (merged: int)
      modifies this`varIndices
      ensures TakenOut(old(varIndices), VarIndex(v, zext, sext, 0), merged, varIndices)
      ensures Taken(merged, varIndices) == TakeOut(old(varIndices), VarIndex(v, zext, sext, 0))
    {
      merged := 0;
      for i := 0 to |varIndices|
        invariant varIndices == old(varIndices)
        invariant forall k :: 0 <= k < i ==> !SameKey(varIndices[k], VarIndex(v, zext, sext, 0))
      {
        if varIndices[i].v == v && varIndices[i].zext == zext && varIndices[i].sext == sext {
          merged := varIndices[i].scale;
          varIndices := varIndices[..i] + varIndices[i + 1..];
          assert SameKey(old(varIndices)[i], VarIndex(v, zext, sext, 0)) && varIndices == Without(old(varIndices), i);
          TakeOutAt(old(varIndices), VarIndex(v, zext, sext, 0), i);
          return;
        }
      }
      TakeOutNothing(varIndices, VarIndex(v, zext, sext, 0));
    }

    /** An index that is a value and not a constant. */
    method AddVariable(size: nat, e: TypedExpr, bits: nat)
      requires 0 < bits <= 64 && !e.Const? && TidyVars(varIndices, bits)
      modifies this`otherOffset, this`varIndices
      ensures Value() == WithVariable(old(Value()), size, e, bits) && TidyVars(varIndices, bits)
      ensures PlainIndex(Elem(size, e), bits) ==>
                Moves(Elem(size, e), bits, old(structOffset + otherOffset), old(varIndices), structOffset + otherOffset, varIndices)
    {
      hide Moves, Signed, Wrap, Pow2, GetLinear, PlainIndex, TidyVars, Width, TakenOut, TakeOut, PlainVars, WideVars, NewScale, LinearIndex, SExtFree;
      LinearIs(e, bits);
      var width := Width(e);
      var sext0 := if bits > width then bits - width else 0;
      var v, indexScale, indexOffset, zext, sext, _, _ := GetLinearExpression(e, 0, 0, 0, sext0, width, 0, true, true);
      otherOffset := Signed(otherOffset + Signed(indexOffset, width) * size, 64);
      var merged := TakeEntry(v, zext, sext);
      var scale := Signed(Wrap(Wrap(size * Signed(indexScale, width), 64) + merged, 64), bits);
      if scale != 0 {
        varIndices := varIndices + [VarIndex(v, zext, sext, scale)];
      }
      ScaleIs(size, indexScale, width, merged, bits);
      WithVariableExact(old(Value()), size, e, bits);
    }

    /** One index; tells whether it was a constant. */
    method AddIndex(i: Index, bits: nat) returns (constant: bool)
      requires 0 < bits <= 64 && TidyVars(varIndices, bits)
      modifies this`structOffset, this`otherOffset, this`varIndices
      ensures Value() == WithIndex(old(Value()), i, bits) && constant == ConstantIndex(i) && TidyVars(varIndices, bits)
      ensures TypedIndex(i) && PlainIndex(i, bits) ==>
                Moves(i, bits, old(structOffset + otherOffset), old(varIndices), structOffset + otherOffset, varIndices)
    {
      hide Moves, Signed, Pow2, PlainIndex, TidyVars, WithVariable, PlainVars, WideVars, SExtFree;
      constant := true;
      match i {
        case Field(number, offset) =>
          if number != 0 {
            structOffset := Signed(structOffset + offset, 64);
          }
        case Elem(size, e) =>
          if e.Const? {
            if e.value != 0 {
              otherOffset := Signed(otherOffset + size * Signed(e.value, e.width), 64);
            }
          } else {
            constant := false;
            AddVariable(size, e, bits);
          }
      }
      WithIndexExact(old(Value()), i, bits);
    }

    /** Walks from the pointer towards its base.  Whatever is left as the base, for every
        valuation without poison the address of `p` is the address of the base plus the constants
        plus the scaled variables, modulo the pointer width. */
    method DecomposeGEPExpression(p: Ptr, bits: nat) returns (limitReached: bool)
      requires 0 < bits <= 64
      modifies this
      ensures Value() == Decompose(p, bits) && limitReached == StopsEarly(p, MAXLOOKUP)
      ensures PlainPtr(p, bits) ==> Tracks(p, bits, base, [], structOffset + otherOffset, varIndices)
      ensures TidyVars(varIndices, bits)
      ensures !limitReached ==> base.Base?
    {
      hide Tracks, WithGep, TidyVars, PlainVars, WideVars, PlainPtr, SExtFreePtr;
      DecomposeIsExact(p, bits);
      var v, maxLookup := p, MAXLOOKUP;
      base, structOffset, otherOffset, varIndices := p, 0, 0, [];
      NothingFound(bits);
      while maxLookup > 0
        invariant Walk(Value(), v, bits, maxLookup) == Decompose(p, bits) && TidyVars(varIndices, bits)
        invariant StopsEarly(v, maxLookup) == StopsEarly(p, MAXLOOKUP)
      {
        match v {
          case Base(_) =>
            base := v;
            return false;
          case Cast(q) => v := q;
          case Gep(q, indices) =>
            WalkIndices(indices, bits);
            v := q;
        }
        maxLookup := maxLookup - 1;
      }
      base := v;
      return true;
    }

    method WalkIndices(indices: seq<Index>, bits: nat)
      requires 0 < bits <= 64 && TidyVars(varIndices, bits)
      modifies this`structOffset, this`otherOffset, this`varIndices
      ensures Value() == WithGep(old(Value()), indices, bits) && TidyVars(varIndices, bits)
    {
      hide Signed, WithIndex, TidyVars;
      var gepHasConstantOffset := true;
      for k := 0 to |indices|
        invariant Value() == WithIndices(old(Value()), indices[..k], bits) && TidyVars(varIndices, bits)
        invariant gepHasConstantOffset <==> forall j :: 0 <= j < k ==> ConstantIndex(indices[j])
      {
        assert indices[..k + 1][..k] == indices[..k];
        var constant := AddIndex(indices[k], bits);
        gepHasConstantOffset := gepHasConstantOffset && constant;
      }
      assert indices[..|indices|] == indices;
      if gepHasConstantOffset {
        structOffset := Signed(structOffset, bits);
        otherOffset := Signed(otherOffset, bits);
      }
    }
  }

  lemma NothingFound(bits: nat)
    requires bits > 0
    ensures TidyVars([], bits)
  {
  }

  lemma LinearIs(e: TypedExpr, bits: nat)
    ensures var w := Width(e);
            w > 0 && LinearIndex(e, bits) == GetLinear(e, w, 0, Lin(0, 0, 0, if bits > w then bits - w else 0, true, true))
  {
    hide GetLinear, Width;
  }

  lemma ScaleIs(size: nat, scale: nat, w: nat, merged: int, bits: nat)
    requires w > 0 && bits > 0
    ensures NewScale(size, scale, w, merged, bits) == Signed(Wrap(Wrap(size * Signed(scale, w), 64) + merged, 64), bits)
    ensures FitsSigned(NewScale(size, scale, w, merged, bits), bits)
  {
    hide Signed, Wrap, Pow2, FitsSigned;
    SignedFits(Wrap(Wrap(size * Signed(scale, w), 64) + merged, 64), bits);
  }

  lemma SignedFits(x: int, w: nat)
    requires w > 0
    ensures FitsSigned(Signed(x, w), w)
  {
    hide Pow2;
  }

  /** Taking an entry out leaves the rest in order, and without that variable. */
  lemma WithoutTidy(vars: seq<VarIndex>, rest: seq<VarIndex>, x: VarIndex, merged: int, bits: nat)
    requires bits > 0 && DistinctKeys(vars) && NonZero(vars)
    requires forall k :: 0 <= k < |vars| ==> FitsSigned(vars[k].scale, bits)
    requires TakenOut(vars, x, merged, rest)
    ensures PlainVars(vars) ==> PlainVars(rest)
    ensures WideVars(vars, bits) ==> WideVars(rest, bits)
    ensures DistinctKeys(rest) && NonZero(rest) && forall k :: 0 <= k < |rest| ==> FitsSigned(rest[k].scale, bits)
    ensures forall k :: 0 <= k < |rest| ==> !SameKey(rest[k], x)
  {
    hide FitsSigned;
  }

  /** Appending an entry for a variable that has none, unless it is scaled by zero. */
  lemma WithTidy(vars: seq<VarIndex>, x: VarIndex, bits: nat)
    requires bits > 0 && DistinctKeys(vars) && NonZero(vars) && FitsSigned(x.scale, bits)
    requires forall k :: 0 <= k < |vars| ==> FitsSigned(vars[k].scale, bits)
    requires forall k :: 0 <= k < |vars| ==> !SameKey(vars[k], x.(scale := 0))
    ensures var vars' := if x.scale != 0 then vars + [x] else vars;
            && DistinctKeys(vars') && NonZero(vars')
            && (forall k :: 0 <= k < |vars'| ==> FitsSigned(vars'[k].scale, bits))
            && (PlainVars(vars) && SExtFree(x.v) && (x.sext == 0 || x.zext == 0) ==> PlainVars(vars'))
            && (WideVars(vars, bits) && Width(x.v) + x.zext + x.sext >= bits ==> WideVars(vars', bits))
  {
    hide FitsSigned, SExtFree, Width;
  }

  /** The variable an index comes down to: at least as wide, with its extensions, as the pointer. */
  lemma NewVariable(size: nat, e: TypedExpr, bits: nat)
    requires 0 < bits && !e.Const?
    ensures var r := LinearIndex(e, bits);
            && Width(r.v) + r.s.zext + r.s.sext >= bits
            && (SExtFree(e) && PlainIndex(Elem(size, e), bits) ==> SExtFree(r.v) && (r.s.sext == 0 || r.s.zext == 0))
  {
    hide GetLinear, SExtFree, Width, Pow2, NswSum, Readable, SumOffset, FitsSigned;
    var w := Width(e);
    var s := Lin(0, 0, 0, if bits > w then bits - w else 0, true, true);
    LinearWidth(e, w, 0, s);
    if SExtFree(e) && PlainIndex(Elem(size, e), bits) {
      LinearHasNoSExt(e, w, 0, s);
      if w < bits {
        NswSumLinear(e, w, 0, bits - w);
      }
    }
  }

  lemma {:induction false} LinearHasNoSExt(e: Expr, big: nat, depth: nat, s: Lin)
    requires Typed(e) && SExtFree(e) && Width(e) <= big && depth <= MAXDEPTH
    ensures var r := GetLinear(e, big, depth, s);
            r.s.sext == s.sext && SExtFree(r.v)
    decreases e
  {
    hide Pow2, Wrap, Signed;
    if depth < MAXDEPTH {
      match e
      case Bin(_, _, x, _, _, _, _) => LinearHasNoSExt(x, big, depth + 1, s);
      case Ext(_, _, x, _) => LinearHasNoSExt(x, big, depth + 1, s);
      case _ =>
    }
  }

  /** The widths of `e`, of what the analysis makes of it, and of the extensions it finds. */
  predicate WidthsAddUp(e: Expr, r: Decomposed, s: Lin) {
    r.s.zext >= s.zext && r.s.sext >= s.sext && Width(r.v) + (r.s.zext - s.zext) + (r.s.sext - s.sext) == Width(e)
  }

  lemma WidthOfBin(e: Expr, big: nat, depth: nat, s: Lin)
    requires Typed(e) && e.Bin? && Width(e) <= big && depth < MAXDEPTH
    requires WidthsAddUp(e.operand, GetLinear(e.operand, big, depth + 1, s), s)
    ensures WidthsAddUp(e, GetLinear(e, big, depth, s), s)
  {
    hide Pow2, Wrap, Signed, ApplyOp, Typed;
    assert Typed(e.operand) by { OperandTyped(e); }
    var r := GetLinear(e.operand, big, depth + 1, s);
    OpKeepsExtensions(e.op, e.constant, e.nuw, e.nsw, big, r.s);
  }

  lemma WidthOfExt(e: Expr, big: nat, depth: nat, s: Lin)
    requires Typed(e) && e.Ext? && Width(e) <= big && depth < MAXDEPTH && Width(e.operand) < Width(e)
    requires WidthsAddUp(e.operand, GetLinear(e.operand, big, depth + 1, s), s)
    ensures WidthsAddUp(e, GetLinear(e, big, depth, s), s)
  {
    hide Pow2, Wrap, Signed, Typed;
  }

  lemma OperandTyped(e: Expr)
    requires Typed(e) && (e.Bin? || e.Ext?)
    ensures Typed(e.operand) && (e.Ext? ==> Width(e.operand) < Width(e))
  {
    hide Pow2;
  }

  /** The extension bits make up exactly the width that is missing. */
  lemma {:induction false} LinearWidth(e: Expr, big: nat, depth: nat, s: Lin)
    requires Typed(e) && Width(e) <= big && depth <= MAXDEPTH
    ensures var r := GetLinear(e, big, depth, s);
            && r.s.zext >= s.zext && r.s.sext >= s.sext
            && Width(r.v) + (r.s.zext - s.zext) + (r.s.sext - s.sext) == Width(e)
    decreases e
  {
    hide Pow2, Wrap, Signed, ApplyOp, Typed;
    if depth < MAXDEPTH && (e.Bin? || e.Ext?) {
      OperandTyped(e);
      LinearWidth(e.operand, big, depth + 1, s);
      hide GetLinear;
      if e.Bin? {
        WidthOfBin(e, big, depth, s);
      } else {
        WidthOfExt(e, big, depth, s);
      }
    }
  }

  lemma TakenSum(vars: seq<VarIndex>, x: VarIndex, merged: int, rest: seq<VarIndex>, rho: Valuation)
    requires TakenOut(vars, x, merged, rest)
    ensures VarSum(vars, rho) == VarSum(rest, rho) + merged * VarValue(x, rho)
  {
    hide VarSum, Eval, Signed, Wrap;
    if !(forall k :: 0 <= k < |vars| ==> !SameKey(vars[k], x)) {
      var k :| 0 <= k < |vars| && SameKey(vars[k], x) && merged == vars[k].scale && rest == Without(vars, k);
      VarSumWithout(vars, k, rho);
    }
  }

  lemma TakenDefined(vars: seq<VarIndex>, x: VarIndex, merged: int, rest: seq<VarIndex>, rho: Valuation)
    requires TakenOut(vars, x, merged, rest) && DefinedVars(vars, rho)
    ensures DefinedVars(rest, rho)
  {
    hide Defined;
  }

  lemma {:induction false} VariableMoves(size: nat, e: TypedExpr, bits: nat, s: int, o: int, vars: seq<VarIndex>,
                                         rest: seq<VarIndex>, merged: int, scale: int)
    requires 0 < bits <= 64 && !e.Const? && PlainIndex(Elem(size, e), bits)
    requires var r := LinearIndex(e, bits);
             && TakenOut(vars, VarIndex(r.v, r.s.zext, r.s.sext, 0), merged, rest)
             && scale == NewScale(size, r.s.scale, Width(e), merged, bits)
    ensures var r := LinearIndex(e, bits);
            Moves(Elem(size, e), bits, s + o, vars, s + Signed(o + Signed(r.s.offset, Width(e)) * size, 64),
                  if scale != 0 then rest + [VarIndex(r.v, r.s.zext, r.s.sext, scale)] else rest)
  {
    hide Moves, Signed, NewScale, Pow2, LinearIndex, PlainIndex, Width, Typed, TakenOut, VarSum, VarValue, DefinedVars;
    var r := LinearIndex(e, bits);
    var x := VarIndex(r.v, r.s.zext, r.s.sext, 0);
    forall rho: Valuation ensures VarSum(vars, rho) == VarSum(rest, rho) + merged * VarValue(x, rho) {
      TakenSum(vars, x, merged, rest, rho);
    }
    forall rho: Valuation | DefinedVars(vars, rho) ensures DefinedVars(rest, rho) {
      TakenDefined(vars, x, merged, rest, rho);
    }
    MovesVariable(Elem(size, e), bits, s, o, vars, rest, merged, Signed(o + Signed(r.s.offset, Width(e)) * size, 64),
                  if scale != 0 then rest + [x.(scale := scale)] else rest);
  }

  /** A struct member or a constant element. */
  lemma ConstantMoves(i: Index, bits: nat, s: int, o: int, vars: seq<VarIndex>)
    requires 0 < bits <= 64 && TypedIndex(i) && (i.Elem? ==> i.e.Const?)
    ensures i.Field? ==> Moves(i, bits, s + o, vars, (if i.number != 0 then Signed(s + i.offset, 64) else s) + o, vars)
    ensures i.Elem? ==>
              Moves(i, bits, s + o, vars,
                    s + if i.e.value != 0 then Signed(o + i.size * Signed(i.e.value, i.e.width), 64) else o, vars)
  {
    hide Cong, Signed, Moves, Pow2;
    match i
    case Field(n, offset) =>
      Add64(s, o, offset, bits);
      CongRefl(s + o, Pow2(bits));
      MovesBy(i, bits, s + o, vars, offset, (if n != 0 then Signed(s + offset, 64) else s) + o);
    case Elem(size, e) =>
      var k := size * Signed(e.value, e.width);
      Add64(s, o, k, bits);
      CongRefl(s + o, Pow2(bits));
      if e.value == 0 {
        ZeroIsZero(e.width);
        assert k == 0;
      }
      MovesBy(i, bits, s + o, vars, k, s + if e.value != 0 then Signed(o + k, 64) else o);
  }

  lemma ZeroIsZero(w: nat)
    requires w > 0
    ensures Signed(0, w) == 0
  {
    CongRefl(0, Pow2(w));
    SignedZero(0, w);
  }
}
