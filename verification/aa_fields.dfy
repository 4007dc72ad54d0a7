/** Whether accesses to two different fields of a struct in an array can overlap. */
module FieldOverlap {

  const TWO64: nat := 0x1_0000_0000_0000_0000

  function Add64(a: nat, b: nat): nat {
    (a + b) % TWO64
  }

  /** The first field ends before the second begins, and the second does not run over the end of the
      struct into the first field of the next. */
  predicate EltsDontOverlap(structSize: nat, off1: nat, size1: nat, off2: nat, size2: nat) {
    && off1 < off2 && Add64(off1, size1) <= off2
    && (Add64(off2, size2) <= structSize || (Add64(off2, size2) + TWO64 - structSize) % TWO64 <= off1)
  }

  predicate NoAlias(structSize: nat, off1: nat, size1: nat, off2: nat, size2: nat) {
    EltsDontOverlap(structSize, off1, size1, off2, size2) || EltsDontOverlap(structSize, off2, size2, off1, size1)
  }

  function Times(m: int, structSize: nat): int {
    m * structSize
  }

  /** The second struct is `distance` bytes after the first; the two accesses have no byte in
      common. */
  predicate Apart(distance: int, off1: nat, size1: nat, off2: nat, size2: nat) {
    size1 == 0 || size2 == 0 || off1 + size1 <= distance + off2 || distance + off2 + size2 <= off1
  }

  /** However many structs the two are apart, the accesses have no byte in common. */
  ghost predicate AlwaysApart(structSize: nat, off1: nat, size1: nat, off2: nat, size2: nat) {
    forall m: int :: Apart(Times(m, structSize), off1, size1, off2, size2)
  }

  lemma AtLeast(m: int, n: nat)
    requires m >= 1
    ensures Times(m, n) >= n
  {
    assert Times(m, n) == Times(m - 1, n) + n;
    if m > 1 {
      AtLeast(m - 1, n);
    }
  }

  lemma Opposite(m: int, n: nat)
    ensures Times(-m, n) == -Times(m, n)
  {
  }

  lemma Ordered(structSize: nat, off1: nat, size1: nat, off2: nat, size2: nat)
    requires off1 + size1 <= off2 && off2 + size2 <= structSize + off1
    ensures AlwaysApart(structSize, off1, size1, off2, size2) && AlwaysApart(structSize, off2, size2, off1, size1)
  {
    forall m: int
      ensures Apart(Times(m, structSize), off1, size1, off2, size2) && Apart(Times(m, structSize), off2, size2, off1, size1)
    {
      Opposite(m, structSize);
      if m >= 1 {
        AtLeast(m, structSize);
      } else if m <= -1 {
        AtLeast(-m, structSize);
      }
    }
  }

  /** The first field comes first, the end of at least one access is not a 64-bit number, and what
      the addition makes of the ends passes the guards although the ends do not: either the first
      end wraps (and then is before the second field) and the second end passes, or the first end
      passes and the second wraps (and then is within the struct) past the next first field. */
  predicate WrappedEndPasses(structSize: nat, off1: nat, size1: nat, off2: nat, size2: nat) {
    && off1 < off2
    && if off1 + size1 >= TWO64 then off2 + size2 >= TWO64 || off2 + size2 <= structSize + off1
       else off2 + size2 >= TWO64 && off1 + size1 <= off2 && off2 + size2 > structSize + off1
  }

  /** In that order, the test passes exactly if the fields are in order on the line, or a wrapped
      end passes. */
  lemma GuardsPassIff(structSize: nat, off1: nat, size1: nat, off2: nat, size2: nat)
    requires off1 < structSize < TWO64 && off2 < structSize && size1 < TWO64 && size2 < TWO64
    ensures EltsDontOverlap(structSize, off1, size1, off2, size2)
            <==> (off1 < off2 && off1 + size1 <= off2 && off2 + size2 <= structSize + off1)
                 || WrappedEndPasses(structSize, off1, size1, off2, size2)
  {
    Reduced(off1, size1);
    Reduced(off2, size2);
    hide Add64;
    var e2 := Add64(off2, size2);
    if e2 > structSize {
      AfterStruct(e2, structSize);
    }
  }

  lemma Reduced(off: nat, size: nat)
    requires off < TWO64 && size < TWO64
    ensures Add64(off, size) == if off + size < TWO64 then off + size else off + size - TWO64
  {
  }

  lemma AfterStruct(e: nat, structSize: nat)
    requires structSize < e < TWO64
    ensures (e + TWO64 - structSize) % TWO64 == e - structSize
  {
  }

  /** An access that is not empty and whose end passes only because it wraps does overlap. */
  lemma WrappedEndOverlaps(structSize: nat, off1: nat, size1: nat, off2: nat, size2: nat)
    requires 0 < size1 && 0 < size2 && off1 < structSize < TWO64 && off2 < structSize
    requires WrappedEndPasses(structSize, off1, size1, off2, size2)
    ensures !AlwaysApart(structSize, off1, size1, off2, size2) && !AlwaysApart(structSize, off2, size2, off1, size1)
  {
    if off1 + size1 >= TWO64 {
      assert !Apart(Times(0, structSize), off1, size1, off2, size2);
      assert !Apart(Times(0, structSize), off2, size2, off1, size1);
    } else {
      assert !Apart(Times(-1, structSize), off1, size1, off2, size2);
      assert !Apart(Times(1, structSize), off2, size2, off1, size1);
    }
  }

  /** For all 64-bit offsets and sizes: what the test says holds if and only if an access is empty or
      no end passes only because it wraps; accesses that are not empty and cannot overlap always
      pass; so for those the test is exact if and only if no end passes only because it wraps. */
  lemma FieldTestExactIff(structSize: nat, off1: nat, size1: nat, off2: nat, size2: nat)
    requires off1 < structSize < TWO64 && off2 < structSize && size1 < TWO64 && size2 < TWO64
    ensures (NoAlias(structSize, off1, size1, off2, size2) ==> AlwaysApart(structSize, off1, size1, off2, size2))
            <==> size1 == 0 || size2 == 0 || !(WrappedEndPasses(structSize, off1, size1, off2, size2)
                                               || WrappedEndPasses(structSize, off2, size2, off1, size1))
    ensures size1 > 0 && size2 > 0 && AlwaysApart(structSize, off1, size1, off2, size2) ==>
              NoAlias(structSize, off1, size1, off2, size2)
    ensures size1 > 0 && size2 > 0 ==>
              ((NoAlias(structSize, off1, size1, off2, size2) <==> AlwaysApart(structSize, off1, size1, off2, size2))
               <==> !(WrappedEndPasses(structSize, off1, size1, off2, size2) || WrappedEndPasses(structSize, off2, size2, off1, size1)))
  {
    hide EltsDontOverlap;
    GuardsPassIff(structSize, off1, size1, off2, size2);
    GuardsPassIff(structSize, off2, size2, off1, size1);
    if size1 == 0 || size2 == 0 {
      forall m: int ensures Apart(Times(m, structSize), off1, size1, off2, size2) {
      }
    } else if WrappedEndPasses(structSize, off1, size1, off2, size2) {
      WrappedEndOverlaps(structSize, off1, size1, off2, size2);
    } else if WrappedEndPasses(structSize, off2, size2, off1, size1) {
      WrappedEndOverlaps(structSize, off2, size2, off1, size1);
    } else {
      OrderedOrNot(structSize, off1, size1, off2, size2);
    }
  }

  /** Accesses that are not empty are always apart exactly if their fields are in order. */
  lemma OrderedOrNot(structSize: nat, off1: nat, size1: nat, off2: nat, size2: nat)
    requires 0 < size1 && 0 < size2 && off1 < structSize && off2 < structSize
    ensures AlwaysApart(structSize, off1, size1, off2, size2)
            <==> (off1 < off2 && off1 + size1 <= off2 && off2 + size2 <= structSize + off1)
                 || (off2 < off1 && off2 + size2 <= off1 && off1 + size1 <= structSize + off2)
  {
    if off1 + size1 <= off2 && off2 + size2 <= structSize + off1 {
      Ordered(structSize, off1, size1, off2, size2);
    } else if off2 + size2 <= off1 && off1 + size1 <= structSize + off2 {
      Ordered(structSize, off2, size2, off1, size1);
    }
    ApartAtOnce(structSize, off1, size1, off2, size2);
  }

  lemma ApartAtOnce(structSize: nat, off1: nat, size1: nat, off2: nat, size2: nat)
    ensures AlwaysApart(structSize, off1, size1, off2, size2) ==>
              Apart(0, off1, size1, off2, size2) && Apart(structSize, off1, size1, off2, size2)
              && Apart(0 - structSize as int, off1, size1, off2, size2)
  {
    assert Times(0, structSize) == 0 && Times(1, structSize) == structSize && Times(-1, structSize) == 0 - structSize as int;
  }

  /** An access whose end is not a 64-bit number is missed. */
  lemma FieldTestCounterexample()
    ensures NoAlias(16, 4, TWO64 - 2, 8, 4) && !AlwaysApart(16, 4, TWO64 - 2, 8, 4)
  {
    assert !Apart(Times(0, 16), 4, TWO64 - 2, 8, 4);
  }
}
