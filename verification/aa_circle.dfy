/** Accesses to addresses that count modulo the pointer width. */
module AddressCircle {
  import opened MachineArithmetic

  /** Byte `t1` behind one address is byte `t2` behind the other; addresses count modulo
      2^bits. */
  ghost predicate SameByte(a1: int, t1: int, a2: int, t2: int, bits: nat) {
    Cong(a1 + t1, a2 + t2, Pow2(bits))
  }

  /** No byte of the first access is a byte of the second. */
  ghost predicate Disjoint(a1: int, size1: nat, a2: int, size2: nat, bits: nat) {
    forall t1, t2 :: 0 <= t1 < size1 && 0 <= t2 < size2 ==> !SameByte(a1, t1, a2, t2, bits)
  }

  /** Only the difference of the two addresses matters. */
  lemma DisjointByDifference(a1: int, size1: nat, a2: int, size2: nat, d: int, bits: nat)
    requires Cong(a1 - a2, d, Pow2(bits))
    ensures Disjoint(d, size1, 0, size2, bits) <==> Disjoint(a1, size1, a2, size2, bits)
  {
    hide SameByte, Cong;
    forall t1, t2 | 0 <= t1 < size1 && 0 <= t2 < size2 ensures SameByte(a1, t1, a2, t2, bits) <==> SameByte(d, t1, 0, t2, bits) {
      SameByteShifts(a1, t1, a2, t2, d, bits);
    }
  }

  lemma SameByteShifts(a1: int, t1: int, a2: int, t2: int, d: int, bits: nat)
    requires Cong(a1 - a2, d, Pow2(bits))
    ensures SameByte(a1, t1, a2, t2, bits) <==> SameByte(d, t1, 0, t2, bits)
  {
    hide Cong;
    var m := Pow2(bits);
    CongRefl(t1, m);
    CongAdd(a1 - a2, d, t1, t1, m);
    CongRefl(a2, m);
    assert (a1 - a2) + t1 == (a1 + t1) - a2;
    if SameByte(a1, t1, a2, t2, bits) {
      CongSub(a1 + t1, a2 + t2, a2, a2, m);
      CongSym((a1 - a2) + t1, d + t1, m);
      CongTrans(d + t1, (a1 - a2) + t1, t2, m);
    }
    if SameByte(d, t1, 0, t2, bits) {
      CongTrans((a1 - a2) + t1, d + t1, t2, m);
      CongAdd((a1 - a2) + t1, t2, a2, a2, m);
    }
  }

  /** An exact distance that leaves room for both accesses on the circle. */
  lemma DistanceIsEnough(d: int, size1: nat, size2: nat, bits: nat)
    requires (d >= size2 && d + size1 <= Pow2(bits)) || (0 - d >= size1 && size2 - d <= Pow2(bits))
    ensures Disjoint(d, size1, 0, size2, bits)
  {
    hide Cong;
    forall t1, t2 | 0 <= t1 < size1 && 0 <= t2 < size2 ensures !SameByte(d, t1, 0, t2, bits) {
      NotCong(d + t1, t2, Pow2(bits));
    }
  }

  /** An access that begins `d` bytes behind another has room between its two sides. */
  predicate RoomOnCircle(d: int, size1: nat, size2: nat, bits: nat) {
    size1 == 0 || size2 == 0 || (size2 <= Wrap(d, bits) && Wrap(d, bits) + size1 <= Pow2(bits))
  }

  lemma RoomIffDisjoint(d: int, size1: nat, size2: nat, bits: nat)
    ensures RoomOnCircle(d, size1, size2, bits) <==> Disjoint(d, size1, 0, size2, bits)
  {
    hide Cong, Wrap, Pow2;
    var r, m := Wrap(d, bits), Pow2(bits);
    WrapCong(d, bits);
    if size1 == 0 || size2 == 0 {
    } else if size2 <= r && r + size1 <= m {
      DistanceIsEnough(r, size1, size2, bits);
      DisjointByDifference(d, size1, 0, size2, r, bits);
    } else if r < size2 {
      assert SameByte(d, 0, 0, r, bits);
    } else {
      CongBy(r + (m - r), 0, 1, m);
      CongRefl(m - r, m);
      CongAdd(d, r, m - r, m - r, m);
      CongTrans(d + (m - r), r + (m - r), 0, m);
      assert SameByte(d, m - r, 0, 0, bits);
    }
  }

  lemma NothingIsDisjoint(d: int, size1: nat, size2: nat, bits: nat)
    requires size1 == 0 || size2 == 0
    ensures Disjoint(d, size1, 0, size2, bits)
  {
    hide SameByte;
  }
}
