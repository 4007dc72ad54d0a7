/** What alias sets are for: no two of them have to do with the same memory. */
module AliasSetDisjointness {
  import opened AliasSetForest
  import opened AliasSetSteps
  import opened AliasSetReferences
  import opened AliasSetMerging
  import opened AliasSetJoining

  /** Where pointers point to, and which bytes instructions read and write. */
  datatype World = World(addr: nat -> int, loads: (nat, int) -> bool, stores: (nat, int) -> bool)

  /** What a set lists. */
  datatype Item = Mem(loc: Location) | Inst(inst: nat)

  predicate Uses(w: World, a: Item, b: int) {
    match a
    case Mem(l) => w.addr(l.ptr) <= b < w.addr(l.ptr) + l.size
    case Inst(i) => w.loads(i, b) || w.stores(i, b)
  }

  /** Both use some byte; two instructions may read the same one. */
  ghost predicate Conflict(w: World, a: Item, c: Item) {
    exists b :: Uses(w, a, b) && Uses(w, c, b) && (a.Inst? && c.Inst? ==> w.stores(a.inst, b) || w.stores(c.inst, b))
  }

  /** The analysis says nothing wrong about the world. */
  ghost predicate Sound(aa: Analysis, w: World) {
    && (forall k, l :: aa.alias(k, l) == NoAlias ==> !Conflict(w, Mem(k), Mem(l)))
    && (forall k, l :: aa.alias(k, l) == MustAlias ==> w.addr(k.ptr) == w.addr(l.ptr))
    && (forall i, l :: !aa.touches(i, l) ==> !Conflict(w, Inst(i), Mem(l)))
    && (forall i, j :: !aa.interact(i, j) ==> !Conflict(w, Inst(i), Inst(j)))
    && (forall i, c :: !aa.mayAccess(i) ==> !Conflict(w, Inst(i), c))
  }

  predicate Has(s: State, x: nat, a: Item) {
    && x in s.sets
    && match a
       case Mem(l) => l.ptr in s.sets[x].pointers && l.ptr in s.records && l.size == s.records[l.ptr].size
       case Inst(i) => i in s.sets[x].unknownInsts
  }

  /** Nothing in a set conflicts with anything in another. */
  ghost predicate Disjoint(s: State, w: World) {
    forall x, y, a, c :: IsRoot(s, x) && IsRoot(s, y) && x != y && Has(s, x, a) && Has(s, y, c) ==> !Conflict(w, a, c)
  }

  /** The first pointer of the set points to where the pointer does, and is as large. */
  predicate Led(s: State, w: World, x: nat, v: nat) {
    && x in s.sets && s.sets[x].pointers != [] && v in s.records && s.sets[x].pointers[0] in s.records
    && w.addr(s.sets[x].pointers[0]) == w.addr(v) && s.records[v].size <= s.records[s.sets[x].pointers[0]].size
  }

  /** In sets of pointers that must alias the first pointer stands for all. */
  ghost predicate FirstLeads(s: State, w: World) {
    forall x, v :: IsRoot(s, x) && !s.sets[x].may && v in s.sets[x].pointers ==> Led(s, w, x, v)
  }

  ghost predicate Positive(s: State) {
    forall v :: v in s.records ==> s.records[v].size > 0
  }

  /** No two sets have to do with the same memory, and the first pointers keep it so. */
  ghost predicate Apart(s: State, w: World) {
    Disjoint(s, w) && FirstLeads(s, w) && Positive(s)
  }

  lemma ConflictIsMutual(w: World, a: Item, c: Item)
    ensures Conflict(w, a, c) <==> Conflict(w, c, a)
  {
  }

  /** Locations at one address. */
  lemma SameAddressConflicts(w: World, k: Location, l: Location)
    requires w.addr(k.ptr) == w.addr(l.ptr) && k.size > 0 && l.size > 0
    ensures Conflict(w, Mem(k), Mem(l))
  {
    assert Uses(w, Mem(k), w.addr(k.ptr)) && Uses(w, Mem(l), w.addr(k.ptr));
  }

  /** The larger location at one address conflicts with whatever the smaller one does. */
  lemma LargerConflicts(w: World, k: Location, l: Location, c: Item)
    requires w.addr(k.ptr) == w.addr(l.ptr) && l.size <= k.size && Conflict(w, Mem(l), c)
    ensures Conflict(w, Mem(k), c)
  {
    var b :| Uses(w, Mem(l), b) && Uses(w, c, b);
    assert Uses(w, Mem(k), b);
  }

  // ---- What a set that is not found cannot conflict with ----

  lemma NotFoundApart(aa: Analysis, w: World, s: State, x: nat, loc: Location, c: Item)
    requires Sound(aa, w) && Forest(s) && Listed(s) && IsRoot(s, x) && Has(s, x, c) && !Aliases(aa, s, x, loc)
    requires !s.sets[x].may ==> forall v :: v in s.sets[x].pointers ==> Led(s, w, x, v)
    ensures !Conflict(w, Mem(loc), c)
  {
    hide Forest, Resolve, Conflict, Sound;
    assert SetLists(s, x);
    if s.sets[x].may {
      MayNotFoundApart(aa, w, s, x, loc, c);
    } else {
      var l, first := c.loc, s.sets[x].pointers[0];
      assert Led(s, w, x, l.ptr);
      SoundApart(aa, w, LocationOf(s, first), loc);
      ConflictIsMutual(w, Mem(LocationOf(s, first)), Mem(loc));
      ConflictIsMutual(w, Mem(l), Mem(loc));
      if Conflict(w, Mem(l), Mem(loc)) {
        LargerConflicts(w, LocationOf(s, first), l, Mem(loc));
      }
    }
  }

  lemma MayNotFoundApart(aa: Analysis, w: World, s: State, x: nat, loc: Location, c: Item)
    requires Sound(aa, w) && IsRoot(s, x) && s.sets[x].may && Has(s, x, c) && !Aliases(aa, s, x, loc)
    ensures !Conflict(w, Mem(loc), c)
  {
    hide Conflict, Sound;
    match c
    case Mem(l) =>
      var k :| 0 <= k < |s.sets[x].pointers| && s.sets[x].pointers[k] == l.ptr;
      assert !PointerAliases(aa, s, s.sets[x].pointers[k], loc);
      SoundApart(aa, w, loc, l);
    case Inst(i) =>
      var k :| 0 <= k < |s.sets[x].unknownInsts| && s.sets[x].unknownInsts[k] == i;
      SoundUntouched(aa, w, i, loc);
      ConflictIsMutual(w, Inst(i), Mem(loc));
  }

  lemma SoundApart(aa: Analysis, w: World, k: Location, l: Location)
    requires Sound(aa, w)
    ensures aa.alias(k, l) == NoAlias ==> !Conflict(w, Mem(k), Mem(l))
    ensures aa.alias(k, l) == MustAlias ==> w.addr(k.ptr) == w.addr(l.ptr)
  {
    hide Conflict;
  }

  lemma SoundUntouched(aa: Analysis, w: World, i: nat, l: Location)
    requires Sound(aa, w)
    ensures !aa.touches(i, l) ==> !Conflict(w, Inst(i), Mem(l))
  {
    hide Conflict;
  }

  /** Sets of pointers that must alias and whose first pointers must alias would not be two sets. */
  lemma NotTwoSets(aa: Analysis, w: World, s: State, x: nat, y: nat)
    requires Sound(aa, w) && Valid(s) && Apart(s, w) && IsRoot(s, x) && IsRoot(s, y) && x != y
    requires !s.sets[x].may && !s.sets[y].may
    ensures FirstsDiffer(aa, s, x, y)
  {
    hide Forest, Resolve, Conflict, Sound, Homes, Forwarders, Counted, Shape, Saturated;
    MustBeListed(s, x);
    MustBeListed(s, y);
    var p, q := s.sets[x].pointers[0], s.sets[y].pointers[0];
    SoundApart(aa, w, LocationOf(s, p), LocationOf(s, q));
    assert Has(s, x, Mem(LocationOf(s, p))) && Has(s, y, Mem(LocationOf(s, q)));
    if w.addr(p) == w.addr(q) {
      SameAddressConflicts(w, LocationOf(s, p), LocationOf(s, q));
    }
  }

  lemma MustBeListed(s: State, x: nat)
    requires Valid(s) && IsRoot(s, x) && !s.sets[x].may
    ensures s.sets[x].pointers != [] && s.sets[x].pointers[0] in s.records
  {
    hide Homes, Forwarders, Resolve, Counted, Shape, Saturated;
    assert SetLists(s, x);
    MustAliasNotEmpty(s, multiset{}, x);
    assert s.sets[x].pointers[0] in s.sets[x].pointers;
  }

  // ---- A new pointer ----

  /** The sets that stayed have what they had. */
  lemma OthersHave(s: State, t: State, xs: set<nat>, f: nat, y: nat)
    requires Forest(t) && JoinedBy(s, t, xs, f) && IsRoot(t, y) && y != f
    ensures IsRoot(s, y) && y !in xs && SameBut(s.sets[y], t.sets[y])
  {
    hide Forest;
    if y in xs {
      RootResolves(t, y);
    } else {
      assert Stays(s, t, y);
    }
  }

  /** A pointer is in one set only. */
  lemma InOneSet(t: State, x: nat, y: nat, v: nat)
    requires Forest(t) && Listed(t) && IsRoot(t, x) && IsRoot(t, y) && v in t.sets[x].pointers && v in t.sets[y].pointers
    ensures x == y
  {
    hide Forest, Resolve;
    assert SetLists(t, x) && SetLists(t, y);
  }

  lemma JoinsIsJoined(aa: Analysis, s: State, t: State, loc: Location, f: nat)
    requires Forest(t) && Joins(aa, s, t, loc, f)
    ensures JoinedBy(s, t, Hits(aa, s, loc), f)
  {
    hide Forest, MovedTo, Stays, LocationOf;
    forall x | IsRoot(s, x) ensures if x in Hits(aa, s, loc) then MovedTo(s, t, x, f) else Stays(s, t, x) {
      if Aliases(aa, s, x, loc) {
        AliasesMoved(aa, s, t, x, loc, f);
      } else {
        NotAliasedStays(aa, s, t, x, loc, f);
      }
    }
  }

  lemma AliasesMoved(aa: Analysis, s: State, t: State, x: nat, loc: Location, f: nat)
    requires Forest(t) && Joins(aa, s, t, loc, f) && IsRoot(s, x) && Aliases(aa, s, x, loc)
    ensures MovedTo(s, t, x, f)
  {
    hide Forest, MovedTo, Stays;
    if !s.sets[x].any && s.sets[x].may {
      if k :| 0 <= k < |s.sets[x].pointers| && PointerAliases(aa, s, s.sets[x].pointers[k], loc) {
        assert s.sets[x].pointers[k] in s.sets[x].pointers;
      } else {
        var k :| 0 <= k < |s.sets[x].unknownInsts| && aa.touches(s.sets[x].unknownInsts[k], loc);
        assert s.sets[x].unknownInsts[k] in s.sets[x].unknownInsts;
      }
    }
  }

  lemma NotAliasedStays(aa: Analysis, s: State, t: State, x: nat, loc: Location, f: nat)
    requires Forest(t) && Joins(aa, s, t, loc, f) && IsRoot(s, x) && !Aliases(aa, s, x, loc)
    ensures Stays(s, t, x)
  {
    hide Forest, MovedTo, Stays;
    AliasesAnyway(aa, s, x, loc);
  }

  // ---- Joined by something new ----

  ghost predicate FromSome(s: State, xs: set<nat>, c: Item) {
    exists x :: x in xs && IsRoot(s, x) && Has(s, x, c)
  }

  /** Whatever the one conflicts with, the other does too. */
  ghost predicate LikeNew(w: World, c: Item, n: Item) {
    forall d :: Conflict(w, c, d) ==> Conflict(w, n, d)
  }

  /** The root `f` has what some sets had, and the new item; the other roots have at most what they
      had, which does not conflict with the new item. */
  ghost predicate JoinedWith(s: State, t: State, w: World, xs: set<nat>, f: nat, n: Item) {
    && (forall y :: IsRoot(t, y) && y != f ==> IsRoot(s, y) && y !in xs)
    && (forall y, c :: IsRoot(t, y) && y != f && Has(t, y, c) ==> Has(s, y, c) && !Conflict(w, n, c))
    && forall c :: Has(t, f, c) ==> FromSome(s, xs, c) || LikeNew(w, c, n)
  }

  lemma JoinedIsDisjoint(s: State, t: State, w: World, xs: set<nat>, f: nat, n: Item)
    requires Disjoint(s, w) && JoinedWith(s, t, w, xs, f, n)
    ensures Disjoint(t, w)
  {
    hide Conflict, Has, IsRoot;
    forall x, y, a, c | IsRoot(t, x) && IsRoot(t, y) && x != y && Has(t, x, a) && Has(t, y, c) ensures !Conflict(w, a, c) {
      if y == f {
        ConflictIsMutual(w, a, c);
        JoinedPair(s, t, w, xs, f, n, x, a, c);
      } else if x == f {
        JoinedPair(s, t, w, xs, f, n, y, c, a);
      }
    }
  }

  lemma JoinedPair(s: State, t: State, w: World, xs: set<nat>, f: nat, n: Item, y: nat, c: Item, a: Item)
    requires Disjoint(s, w) && JoinedWith(s, t, w, xs, f, n) && IsRoot(t, y) && y != f && Has(t, y, c) && Has(t, f, a)
    ensures !Conflict(w, a, c)
  {
    hide Conflict, Has, IsRoot;
    if FromSome(s, xs, a) {
      var x :| x in xs && IsRoot(s, x) && Has(s, x, a);
    }
  }

  /** The lists of the sets that were joined. */
  lemma FromAll(s: State, xs: set<nat>, a: AliasSet, c: Item)
    requires AllOf(s, xs, a) && forall x :: x in xs ==> IsRoot(s, x)
    requires match c case Mem(l) => l.ptr in a.pointers && l.ptr in s.records && l.size == s.records[l.ptr].size
                    case Inst(i) => i in a.unknownInsts
    ensures FromSome(s, xs, c)
  {
    match c
    case Mem(l) =>
      var x :| x in xs && HasPointer(s, x, l.ptr);
      assert Has(s, x, c);
    case Inst(i) =>
      var x :| x in xs && HasUnknown(s, x, i);
      assert Has(s, x, c);
  }

  /** A new pointer keeps sets disjoint, and the first pointers in the lead. */
  lemma InsertedApart(aa: Analysis, w: World, s: State, t: State, v: nat, size: nat, r: nat)
    requires Valid(s) && Valid(t) && v !in s.records && size > 0 && Sound(aa, w) && Apart(s, w) && IsRoot(t, r)
    requires Joins(aa, s, t, Location(v, size), r) && Newly(aa, s, t, v, size, r) && t.records.Keys == s.records.Keys + {v}
    ensures Apart(t, w)
  {
    hide Forest, Conflict, Sound, Joins, Hits, Has, IsRoot, Disjoint, FirstLeads, JoinedWith, Newly, Resolve, Shape, Listed, Counted,
         Alive, Saturated;
    var near := Hits(aa, s, Location(v, size));
    JoinsIsJoined(aa, s, t, Location(v, size), r);
    InsertedWith(aa, w, s, t, v, size, r, near);
    JoinedIsDisjoint(s, t, w, near, r, Mem(Location(v, size)));
    InsertedLeads(aa, w, s, t, v, size, r, near);
    InsertedPositive(aa, s, t, v, size, r);
  }

  lemma InsertedPositive(aa: Analysis, s: State, t: State, v: nat, size: nat, r: nat)
    requires Newly(aa, s, t, v, size, r) && t.records.Keys == s.records.Keys + {v} && size > 0 && Positive(s)
    ensures Positive(t)
  {
    hide AllOf, MayOfAll, Hits, NotMust, FirstKept;
  }

  lemma InsertedWith(aa: Analysis, w: World, s: State, t: State, v: nat, size: nat, r: nat, near: set<nat>)
    requires Valid(s) && Valid(t) && v !in s.records && Sound(aa, w) && Apart(s, w)
    requires near == Hits(aa, s, Location(v, size)) && JoinedBy(s, t, near, r)
    requires Newly(aa, s, t, v, size, r) && IsRoot(t, r) && t.records.Keys == s.records.Keys + {v}
    ensures JoinedWith(s, t, w, near, r, Mem(Location(v, size)))
  {
    hide Forest, Conflict, Sound, Hits, Has, Newly, Resolve, Shape, Listed, Counted, Alive, Saturated, JoinedBy, Disjoint, FirstLeads;
    forall y | IsRoot(t, y) && y != r ensures IsRoot(s, y) && y !in near {
      OthersHave(s, t, near, r, y);
    }
    forall y, c | IsRoot(t, y) && y != r && Has(t, y, c) ensures Has(s, y, c) && !Conflict(w, Mem(Location(v, size)), c) {
      InsertedOthers(aa, w, s, t, v, size, r, near, y, c);
    }
    forall c | Has(t, r, c) ensures FromSome(s, near, c) || LikeNew(w, c, Mem(Location(v, size))) {
      InsertedFound(aa, w, s, t, v, size, r, near, c);
    }
  }

  lemma InsertedOthers(aa: Analysis, w: World, s: State, t: State, v: nat, size: nat, r: nat, near: set<nat>, y: nat, c: Item)
    requires Valid(s) && Valid(t) && Sound(aa, w) && FirstLeads(s, w)
    requires near == Hits(aa, s, Location(v, size)) && JoinedBy(s, t, near, r)
    requires Newly(aa, s, t, v, size, r) && IsRoot(t, r) && IsRoot(t, y) && y != r && Has(t, y, c)
    ensures Has(s, y, c) && !Conflict(w, Mem(Location(v, size)), c)
  {
    hide Forest, Conflict, Sound, Resolve, Counted, Shape, Alive, Saturated, Newly, JoinedBy, Has, Aliases;
    InsertedHad(aa, s, t, v, size, r, near, y, c);
    NotFoundApart(aa, w, s, y, Location(v, size), c);
  }

  lemma InsertedHad(aa: Analysis, s: State, t: State, v: nat, size: nat, r: nat, near: set<nat>, y: nat, c: Item)
    requires Valid(s) && Valid(t) && near == Hits(aa, s, Location(v, size)) && JoinedBy(s, t, near, r)
    requires Newly(aa, s, t, v, size, r) && IsRoot(t, r) && IsRoot(t, y) && y != r && Has(t, y, c)
    ensures Has(s, y, c) && IsRoot(s, y) && !Aliases(aa, s, y, Location(v, size))
  {
    hide Forest, Resolve, Counted, Shape, Alive, Saturated, AllOf, MayOfAll, NotMust, JoinedBy, FirstKept;
    OthersHave(s, t, near, r, y);
    if c.Mem? {
      assert SetLists(s, y) by { hide Hits, Newly; }
      if c.loc.ptr == t.sets[r].pointers[0] {
        InOneSet(t, y, r, c.loc.ptr);
      }
    }
  }

  lemma InsertedFound(aa: Analysis, w: World, s: State, t: State, v: nat, size: nat, r: nat, near: set<nat>, c: Item)
    requires Valid(s) && v !in s.records && Sound(aa, w) && near == Hits(aa, s, Location(v, size))
    requires Newly(aa, s, t, v, size, r) && t.records.Keys == s.records.Keys + {v} && Has(t, r, c)
    ensures FromSome(s, near, c) || LikeNew(w, c, Mem(Location(v, size)))
  {
    hide Forest, Conflict, Sound, Resolve, Counted, Shape, Alive, Saturated, AllOf, MayOfAll, FirstKept, Aliases, Listed, FromSome;
    var ps := t.sets[r].pointers;
    var a := t.sets[r].(pointers := ps[..|ps| - 1]);
    assert AllOf(s, near, a);
    assert ps == a.pointers + [v];
    if c.Inst? {
      FromAll(s, near, a, c);
    } else if c.loc.ptr == v {
      assert c == Mem(Location(v, size));
    } else if c.loc.size == s.records[c.loc.ptr].size {
      FromAll(s, near, a, c);
    } else {
      assert !NotMust(aa, s, ps[0], v, size) && c.loc.ptr == ps[0];
      GrownLikeNew(aa, w, s, ps[0], v, size);
    }
  }

  lemma GrownLikeNew(aa: Analysis, w: World, s: State, first: nat, v: nat, size: nat)
    requires Sound(aa, w) && first in s.records && !NotMust(aa, s, first, v, size)
    ensures w.addr(first) == w.addr(v) && LikeNew(w, Mem(Location(first, size)), Mem(Location(v, size)))
  {
    hide Sound, Conflict;
    SoundApart(aa, w, LocationOf(s, first), Location(v, size));
    forall d | Conflict(w, Mem(Location(first, size)), d) ensures Conflict(w, Mem(Location(v, size)), d) {
      LargerConflicts(w, Location(v, size), Location(first, size), d);
    }
  }

  /** If the pointers of all of them must alias, one set at most was joined. */
  lemma OnlyOneJoined(aa: Analysis, w: World, s: State, near: set<nat>, f: nat)
    requires Valid(s) && Sound(aa, w) && Apart(s, w) && (forall x :: x in near ==> IsRoot(s, x)) && f in near
    requires MayOfAll(aa, s, near, f, false)
    ensures near == {f} && f in s.sets && !s.sets[f].may
  {
    hide Conflict, Sound, Apart, FirstsDiffer, Valid;
    assert !s.sets[f].may;
    forall x | x in near ensures x == f {
      if x != f {
        NotTwoSets(aa, w, s, f, x);
      }
    }
  }

  lemma InsertedLeads(aa: Analysis, w: World, s: State, t: State, v: nat, size: nat, r: nat, near: set<nat>)
    requires Valid(s) && Valid(t) && v !in s.records && Sound(aa, w) && Apart(s, w) && IsRoot(t, r)
    requires near == Hits(aa, s, Location(v, size)) && JoinedBy(s, t, near, r)
    requires Newly(aa, s, t, v, size, r) && t.records.Keys == s.records.Keys + {v}
    ensures FirstLeads(t, w)
  {
    hide Forest, Conflict, Sound, Hits, Newly, Resolve, Shape, Listed, Counted, Alive, Saturated, JoinedBy, Disjoint, FirstLeads, Led;
    forall y, u | IsRoot(t, y) && !t.sets[y].may && u in t.sets[y].pointers ensures Led(t, w, y, u) {
      if y != r {
        InsertedOthersLead(aa, w, s, t, v, size, r, near, y, u);
      } else {
        InsertedLeadsFound(aa, w, s, t, v, size, r, near, u);
      }
    }
    assert FirstLeads(t, w) by { LedAll(t, w); }
  }

  lemma LedAll(t: State, w: World)
    requires forall y, u :: IsRoot(t, y) && !t.sets[y].may && u in t.sets[y].pointers ==> Led(t, w, y, u)
    ensures FirstLeads(t, w)
  {
    hide Led;
  }

  lemma InsertedOthersLead(aa: Analysis, w: World, s: State, t: State, v: nat, size: nat, r: nat, near: set<nat>, y: nat, u: nat)
    requires Valid(s) && Valid(t) && FirstLeads(s, w) && near == Hits(aa, s, Location(v, size)) && JoinedBy(s, t, near, r)
    requires Newly(aa, s, t, v, size, r) && IsRoot(t, r) && IsRoot(t, y) && y != r && !t.sets[y].may && u in t.sets[y].pointers
    ensures Led(t, w, y, u)
  {
    hide Forest, Resolve, Counted, Shape, Alive, Saturated, AllOf, MayOfAll, NotMust, JoinedBy, Hits, FirstKept;
    OthersHave(s, t, near, r, y);
    assert Led(s, w, y, u);
    var first := s.sets[y].pointers[0];
    if first == t.sets[r].pointers[0] {
      InOneSet(t, y, r, first);
    }
    if u == t.sets[r].pointers[0] {
      InOneSet(t, y, r, u);
    }
  }

  lemma InsertedLeadsFound(aa: Analysis, w: World, s: State, t: State, v: nat, size: nat, r: nat, near: set<nat>, u: nat)
    requires Valid(s) && Valid(t) && v !in s.records && Sound(aa, w) && Apart(s, w) && near == Hits(aa, s, Location(v, size))
    requires Newly(aa, s, t, v, size, r) && t.records.Keys == s.records.Keys + {v}
    requires r in t.sets && !t.sets[r].may && u in t.sets[r].pointers
    ensures Led(t, w, r, u)
  {
    hide Forest, Conflict, Sound, Resolve, Counted, Shape, Alive, Saturated, Listed, Disjoint, FirstLeads, AllOf, MayOfAll, NotMust, Aliases;
    var ps := t.sets[r].pointers;
    var a := t.sets[r].(pointers := ps[..|ps| - 1]);
    assert AllOf(s, near, a) && ps == a.pointers + [v] && MayOfAll(aa, s, near, r, false) && !NotMust(aa, s, ps[0], v, size);
    if near == {} {
      NoneIsEmpty(s, a);
    } else {
      hide Hits, Apart;
      OnlyOneJoined(aa, w, s, near, r);
      MustBeListed(s, r);
      GrownLikeNew(aa, w, s, ps[0], v, size);
      if u != v {
        OneIsSame(s, r, a, u);
        assert FirstLeads(s, w) by { ApartFacts(s, w); }
        LedThere(s, w, r, u);
      }
    }
  }

  lemma ApartFacts(s: State, w: World)
    requires Apart(s, w)
    ensures FirstLeads(s, w)
  {
    hide FirstLeads;
  }

  lemma NoneIsEmpty(s: State, a: AliasSet)
    requires AllOf(s, {}, a)
    ensures a.pointers == []
  {
    SomeElement(a.pointers);
  }

  lemma SomeElement(ps: seq<nat>)
    ensures ps != [] ==> exists v :: v in ps
  {
    if ps != [] {
      assert ps[0] in ps;
    }
  }

  lemma OneIsSame(s: State, x: nat, a: AliasSet, u: nat)
    requires AllOf(s, {x}, a) && u in a.pointers
    ensures HasPointer(s, x, u)
  {
    var y :| y in {x} && HasPointer(s, y, u);
  }

  lemma LedThere(s: State, w: World, x: nat, u: nat)
    requires FirstLeads(s, w) && IsRoot(s, x) && !s.sets[x].may && u in s.sets[x].pointers
    ensures Led(s, w, x, u)
  {
  }

  /** The location conflicts with a pointer of a set that must alias, but is told apart from the first
      of them. */
  ghost predicate NotLedTo(aa: Analysis, w: World, s: State, loc: Location, x: nat, u: Location) {
    && IsRoot(s, x) && !s.sets[x].may && !Aliases(aa, s, x, loc) && Has(s, x, Mem(u))
    && Conflict(w, Mem(loc), Mem(u))
  }

  /** Whether or not the first pointers lead: a new pointer keeps sets disjoint if and only if no pointer
      that must alias a first one that is told apart conflicts with it. */
  lemma InsertedDisjointIff(aa: Analysis, w: World, s: State, t: State, v: nat, size: nat, r: nat)
    requires Valid(s) && Valid(t) && v !in s.records && Sound(aa, w) && Disjoint(s, w) && IsRoot(t, r)
    requires Joins(aa, s, t, Location(v, size), r) && Newly(aa, s, t, v, size, r) && t.records.Keys == s.records.Keys + {v}
    ensures Disjoint(t, w)
            <==> forall x, u :: !NotLedTo(aa, w, s, Location(v, size), x, u)
  {
    hide Forest, Conflict, Sound, Joins, Hits, Has, NotLedTo, Disjoint, JoinedWith, Newly, Resolve, Shape, Listed, Counted,
         Alive, Saturated, JoinedBy, Aliases;
    var loc := Location(v, size);
    var near := Hits(aa, s, loc);
    JoinsIsJoined(aa, s, t, loc, r);
    if forall x, u :: !NotLedTo(aa, w, s, loc, x, u) {
      forall y | IsRoot(t, y) && y != r ensures IsRoot(s, y) && y !in near {
        OthersHave(s, t, near, r, y);
      }
      forall y, c | IsRoot(t, y) && y != r && Has(t, y, c) ensures Has(s, y, c) && !Conflict(w, Mem(loc), c) {
        InsertedHad(aa, s, t, v, size, r, near, y, c);
        if s.sets[y].may {
          MayNotFoundApart(aa, w, s, y, loc, c);
        } else {
          MustHasPointers(s, y, c);
          assert !NotLedTo(aa, w, s, loc, y, c.loc);
          LedTo(aa, w, s, loc, y, c.loc);
        }
      }
      forall c | Has(t, r, c) ensures FromSome(s, near, c) || LikeNew(w, c, Mem(loc)) {
        InsertedFound(aa, w, s, t, v, size, r, near, c);
      }
      assert JoinedWith(s, t, w, near, r, Mem(loc)) by { AllJoinedWith(s, t, w, near, r, Mem(loc)); }
      JoinedIsDisjoint(s, t, w, near, r, Mem(loc));
    } else {
      var x, u :| NotLedTo(aa, w, s, loc, x, u);
      ConflictStays(aa, w, s, t, v, size, r, x, u);
    }
  }

  lemma LedTo(aa: Analysis, w: World, s: State, loc: Location, x: nat, u: Location)
    requires !NotLedTo(aa, w, s, loc, x, u) && IsRoot(s, x) && !s.sets[x].may && !Aliases(aa, s, x, loc) && Has(s, x, Mem(u))
    ensures !Conflict(w, Mem(loc), Mem(u))
  {
    hide Conflict, Aliases;
  }

  lemma MustHasPointers(s: State, x: nat, c: Item)
    requires Valid(s) && IsRoot(s, x) && !s.sets[x].may && Has(s, x, c)
    ensures c.Mem?
  {
    hide Homes, Forwarders, Resolve, Counted, Shape, Saturated, Alive;
    assert SetLists(s, x);
  }

  lemma ConflictStays(aa: Analysis, w: World, s: State, t: State, v: nat, size: nat, r: nat, x: nat, u: Location)
    requires Valid(s) && Valid(t) && IsRoot(t, r) && JoinedBy(s, t, Hits(aa, s, Location(v, size)), r)
    requires Newly(aa, s, t, v, size, r) && v !in s.records
    requires NotLedTo(aa, w, s, Location(v, size), x, u)
    ensures !Disjoint(t, w)
  {
    hide Forest, Conflict, Resolve, Counted, Alive, Saturated, AllOf, MayOfAll, NotMust, FirstKept, Aliases, Increasing, Listed;
    assert x !in Hits(aa, s, Location(v, size)) && Stays(s, t, x);
    assert x != r;
    if u.ptr == t.sets[r].pointers[0] {
      InOneSet(t, x, r, u.ptr);
    }
    assert Has(t, x, Mem(u)) && Has(t, r, Mem(Location(v, size)));
  }

  // ---- A known pointer that is larger than before ----

  /** What a caller can check before: the pointers of the set need not all alias, or another set will
      join it, or the first pointer is the one that grows, or is as large. */
  ghost predicate StillLed(aa: Analysis, s: State, v: nat, size: nat)
    requires Forest(s) && v in s.records && s.records[v].home in s.sets
  {
    var x := Resolve(s, s.records[v].home);
    || s.sets[x].may || Hits(aa, Resized(s, v, size), Location(v, size)) != {x}
    || (s.sets[x].pointers != [] && s.sets[x].pointers[0] in s.records
        && (s.sets[x].pointers[0] == v || size <= s.records[s.sets[x].pointers[0]].size))
  }

  /** That a known pointer has grown keeps sets disjoint.  The first pointers stay in the lead if and
      only if that condition holds. */
  lemma GrownApart(aa: Analysis, w: World, s: State, t: State, v: nat, size: nat, f: nat)
    requires Valid(s) && Valid(t) && v in s.records && size > s.records[v].size && Sound(aa, w) && Apart(s, w)
    requires t.records.Keys == s.records.Keys && v in t.records && t.records[v].size == size && SizesKept(s, t, v)
    requires Forest(Resized(s, v, size)) && Joins(aa, Resized(s, v, size), t, Location(v, size), f)
    requires Grown(aa, Resized(s, v, size), t, Location(v, size), f)
    ensures Disjoint(t, w) && Positive(t) && s.records[v].home in s.sets
    ensures FirstLeads(t, w) <==> StillLed(aa, s, v, size)
  {
    hide Forest, Conflict, Sound, Joins, Hits, Has, IsRoot, Disjoint, FirstLeads, JoinedWith, Grown, Resolve, Shape, Listed, Counted,
         Alive, Saturated, Aliases, StillLed, Led;
    var s0, loc := Resized(s, v, size), Location(v, size);
    var near := Hits(aa, s0, loc);
    var x := SetOf(s, v);
    OwnSetIsFound(aa, w, s, v, size, x);
    JoinsIsJoined(aa, s0, t, loc, f);
    GrownWith(aa, w, s, t, v, size, f, x, near);
    JoinedIsDisjoint(s, t, w, near, f, Mem(loc));
    GrownLeads(aa, w, s, t, v, size, f, x, near);
  }

  lemma SetOf(s: State, v: nat) returns (x: nat)
    requires Valid(s) && v in s.records
    ensures s.records[v].home in s.sets && x == Resolve(s, s.records[v].home) && IsRoot(s, x) && v in s.sets[x].pointers
    ensures forall y :: IsRoot(s, y) && v in s.sets[y].pointers ==> y == x
  {
    hide Homes, Forwarders, Resolve, Counted, Shape, Saturated, Alive;
    assert RecordListed(s, v);
    x := Resolve(s, s.records[v].home);
    forall y | IsRoot(s, y) && v in s.sets[y].pointers ensures y == x {
      InOneSet(s, x, y, v);
    }
  }

  /** The set of a pointer that is not empty may alias it. */
  lemma OwnSetIsFound(aa: Analysis, w: World, s: State, v: nat, size: nat, x: nat)
    requires Valid(s) && v in s.records && size > s.records[v].size && Sound(aa, w) && Apart(s, w)
    requires IsRoot(s, x) && v in s.sets[x].pointers
    ensures x in Hits(aa, Resized(s, v, size), Location(v, size))
  {
    hide Homes, Forwarders, Resolve, Counted, Shape, Saturated, Alive, Conflict, Sound, Disjoint, Forest;
    var s0, loc := Resized(s, v, size), Location(v, size);
    SameAddressConflicts(w, loc, loc);
    SoundApart(aa, w, loc, loc);
    if s.sets[x].may {
      var k :| 0 <= k < |s.sets[x].pointers| && s.sets[x].pointers[k] == v;
      assert PointerAliases(aa, s0, s0.sets[x].pointers[k], loc);
    } else {
      LedThere(s, w, x, v);
      var first := s.sets[x].pointers[0];
      SameAddressConflicts(w, LocationOf(s0, first), loc);
      SoundApart(aa, w, LocationOf(s0, first), loc);
    }
    assert Aliases(aa, s0, x, loc);
  }

  lemma GrownWith(aa: Analysis, w: World, s: State, t: State, v: nat, size: nat, f: nat, x: nat, near: set<nat>)
    requires Valid(s) && Valid(t) && v in s.records && size > s.records[v].size && Sound(aa, w) && FirstLeads(s, w)
    requires t.records.Keys == s.records.Keys && v in t.records && t.records[v].size == size && SizesKept(s, t, v)
    requires IsRoot(s, x) && v in s.sets[x].pointers && x in near && near == Hits(aa, Resized(s, v, size), Location(v, size))
    requires forall y :: IsRoot(s, y) && v in s.sets[y].pointers ==> y == x
    requires JoinedBy(Resized(s, v, size), t, near, f) && Grown(aa, Resized(s, v, size), t, Location(v, size), f)
    ensures JoinedWith(s, t, w, near, f, Mem(Location(v, size)))
  {
    hide Forest, Conflict, Sound, Hits, Grown, Resolve, Shape, Listed, Counted, Alive, Saturated, JoinedBy, FirstLeads, Aliases, Has;
    forall y | IsRoot(t, y) && y != f ensures IsRoot(s, y) && y !in near {
      OthersHave(Resized(s, v, size), t, near, f, y);
    }
    forall y, c | IsRoot(t, y) && y != f && Has(t, y, c) ensures Has(s, y, c) && !Conflict(w, Mem(Location(v, size)), c) {
      GrownOthers(aa, w, s, t, v, size, f, x, near, y, c);
    }
    forall c | Has(t, f, c) ensures FromSome(s, near, c) || LikeNew(w, c, Mem(Location(v, size))) {
      GrownFound(aa, w, s, t, v, size, f, near, c);
    }
  }

  lemma GrownOthers(aa: Analysis, w: World, s: State, t: State, v: nat, size: nat, f: nat, x: nat, near: set<nat>, y: nat, c: Item)
    requires Valid(s) && v in s.records && Sound(aa, w) && FirstLeads(s, w) && Forest(t) && SizesKept(s, t, v)
    requires x in near && near == Hits(aa, Resized(s, v, size), Location(v, size))
    requires forall y :: IsRoot(s, y) && v in s.sets[y].pointers ==> y == x
    requires JoinedBy(Resized(s, v, size), t, near, f) && IsRoot(t, y) && y != f && Has(t, y, c)
    ensures Has(s, y, c) && !Conflict(w, Mem(Location(v, size)), c)
  {
    hide Forest, Conflict, Sound, Resolve, Counted, Shape, Alive, Saturated, JoinedBy;
    var s0, loc := Resized(s, v, size), Location(v, size);
    OthersHave(s0, t, near, f, y);
    assert v !in s.sets[y].pointers;
    if c.Mem? {
      assert SetLists(s, y);
    }
    assert !Aliases(aa, s0, y, loc);
    hide Aliases, Hits;
    ResizedLists(s, v, size);
    forall u | !s.sets[y].may && u in s.sets[y].pointers ensures Led(s0, w, y, u) {
      LedThere(s, w, y, u);
      assert s.sets[y].pointers[0] in s.sets[y].pointers;
    }
    NotFoundApart(aa, w, s0, y, loc, c);
  }

  lemma ResizedLists(s: State, v: nat, size: nat)
    requires Valid(s) && v in s.records
    ensures Forest(Resized(s, v, size)) && Listed(Resized(s, v, size))
  {
    hide Homes, Forwarders, Counted, Shape, Saturated, Alive;
    ResizedInvariant(s, multiset{}, v, size);
  }

  lemma GrownFound(aa: Analysis, w: World, s: State, t: State, v: nat, size: nat, f: nat, near: set<nat>, c: Item)
    requires v in s.records && near == Hits(aa, Resized(s, v, size), Location(v, size)) && near != {} && SizesKept(s, t, v)
    requires v in t.records && t.records[v].size == size && t.records.Keys == s.records.Keys
    requires Grown(aa, Resized(s, v, size), t, Location(v, size), f) && Has(t, f, c)
    ensures FromSome(s, near, c) || LikeNew(w, c, Mem(Location(v, size)))
  {
    hide Conflict, AllOf, MayOfAll, FirstKept, Aliases;
    var s0 := Resized(s, v, size);
    if c.Mem? && c.loc.ptr == v {
      assert c == Mem(Location(v, size));
    } else {
      FromAll(s0, near, t.sets[f], c);
      var x :| x in near && IsRoot(s0, x) && Has(s0, x, c);
      assert IsRoot(s, x) && Has(s, x, c);
    }
  }

  lemma GrownLeads(aa: Analysis, w: World, s: State, t: State, v: nat, size: nat, f: nat, x: nat, near: set<nat>)
    requires Valid(s) && Valid(t) && v in s.records && size > s.records[v].size && Sound(aa, w) && Apart(s, w)
    requires t.records.Keys == s.records.Keys && v in t.records && t.records[v].size == size && SizesKept(s, t, v)
    requires IsRoot(s, x) && v in s.sets[x].pointers && x in near && near == Hits(aa, Resized(s, v, size), Location(v, size))
    requires s.records[v].home in s.sets && x == Resolve(s, s.records[v].home)
    requires forall y :: IsRoot(s, y) && v in s.sets[y].pointers ==> y == x
    requires JoinedBy(Resized(s, v, size), t, near, f) && Grown(aa, Resized(s, v, size), t, Location(v, size), f)
    ensures FirstLeads(t, w) <==> StillLed(aa, s, v, size)
  {
    hide Forest, Conflict, Sound, Hits, Grown, Resolve, Shape, Listed, Counted, Alive, Saturated, JoinedBy, FirstLeads, Aliases, Led,
         Disjoint, StillLed;
    if StillLed(aa, s, v, size) {
      forall y, u | IsRoot(t, y) && !t.sets[y].may && u in t.sets[y].pointers ensures Led(t, w, y, u) {
        if y != f {
          GrownOthersLead(w, s, t, v, size, f, x, near, y, u);
        } else {
          GrownLeadsFound(aa, w, s, t, v, size, f, x, near, u);
        }
      }
      LedAll(t, w);
    } else {
      NotLedAnyMore(aa, w, s, t, v, size, f, x);
    }
  }

  lemma GrownOthersLead(w: World, s: State, t: State, v: nat, size: nat, f: nat, x: nat, near: set<nat>, y: nat, u: nat)
    requires Forest(t) && v in s.records && FirstLeads(s, w) && SizesKept(s, t, v) && x in near
    requires forall y :: IsRoot(s, y) && v in s.sets[y].pointers ==> y == x
    requires JoinedBy(Resized(s, v, size), t, near, f) && IsRoot(t, y) && y != f && !t.sets[y].may && u in t.sets[y].pointers
    ensures Led(t, w, y, u)
  {
    hide Forest, Resolve, JoinedBy;
    OthersHave(Resized(s, v, size), t, near, f, y);
    LedThere(s, w, y, u);
    assert s.sets[y].pointers[0] in s.sets[y].pointers;
  }

  /** If the pointers of the set still must alias, it is the pointer's own set and nothing joined it. */
  lemma OnlyOwnSet(aa: Analysis, w: World, s: State, t: State, v: nat, size: nat, f: nat, x: nat, near: set<nat>)
    requires Valid(s) && v in s.records && size > s.records[v].size && Sound(aa, w) && Apart(s, w)
    requires x in near && near == Hits(aa, Resized(s, v, size), Location(v, size))
    requires Grown(aa, Resized(s, v, size), t, Location(v, size), f) && f in t.sets && !t.sets[f].may
    ensures near == {x} && f == x && !s.sets[f].may && FirstKept(s.sets[f], t.sets[f])
  {
    hide Conflict, Sound, Apart, Valid, AllOf, Aliases, FirstsDiffer, FirstKept;
    var s0 := Resized(s, v, size);
    assert MayOfAll(aa, s0, near, f, false) && !s0.sets[f].may;
    forall y | y in near ensures y == f {
      if y != f {
        TwoSetsStillDiffer(aa, w, s, v, size, f, y);
      }
    }
  }

  lemma TwoSetsStillDiffer(aa: Analysis, w: World, s: State, v: nat, size: nat, x: nat, y: nat)
    requires Valid(s) && v in s.records && size > s.records[v].size && Sound(aa, w) && Apart(s, w)
    requires IsRoot(s, x) && IsRoot(s, y) && x != y && !s.sets[x].may && !s.sets[y].may
    ensures FirstsDiffer(aa, Resized(s, v, size), x, y)
  {
    hide Conflict, Sound, Valid;
    MustBeListed(s, x);
    MustBeListed(s, y);
    var s0 := Resized(s, v, size);
    var p, q := s.sets[x].pointers[0], s.sets[y].pointers[0];
    SoundApart(aa, w, LocationOf(s0, p), LocationOf(s0, q));
    assert Has(s, x, Mem(LocationOf(s, p))) && Has(s, y, Mem(LocationOf(s, q)));
    if w.addr(p) == w.addr(q) {
      SameAddressConflicts(w, LocationOf(s, p), LocationOf(s, q));
    }
  }

  lemma GrownLeadsFound(aa: Analysis, w: World, s: State, t: State, v: nat, size: nat, f: nat, x: nat, near: set<nat>, u: nat)
    requires Valid(s) && v in s.records && size > s.records[v].size && Sound(aa, w) && Apart(s, w)
    requires t.records.Keys == s.records.Keys && v in t.records && t.records[v].size == size && SizesKept(s, t, v)
    requires IsRoot(s, x) && v in s.sets[x].pointers && x in near && near == Hits(aa, Resized(s, v, size), Location(v, size))
    requires s.records[v].home in s.sets && x == Resolve(s, s.records[v].home) && StillLed(aa, s, v, size)
    requires Grown(aa, Resized(s, v, size), t, Location(v, size), f) && f in t.sets && !t.sets[f].may && u in t.sets[f].pointers
    ensures Led(t, w, f, u)
  {
    hide Conflict, Sound, Disjoint, FirstLeads, Valid, Aliases, Hits, AllOf, MayOfAll;
    OnlyOwnSet(aa, w, s, t, v, size, f, x, near);
    MustBeListed(s, x);
    var s0 := Resized(s, v, size);
    assert AllOf(s0, {x}, t.sets[f]);
    OneIsSame(s0, x, t.sets[f], u);
    LedThere(s, w, x, u);
    LedThere(s, w, x, v);
  }

  lemma NotLedAnyMore(aa: Analysis, w: World, s: State, t: State, v: nat, size: nat, f: nat, x: nat)
    requires Valid(s) && v in s.records && size > s.records[v].size && Sound(aa, w) && Apart(s, w)
    requires v in t.records && t.records[v].size == size && SizesKept(s, t, v) && Forest(t)
    requires IsRoot(s, x) && v in s.sets[x].pointers && s.records[v].home in s.sets && x == Resolve(s, s.records[v].home)
    requires !StillLed(aa, s, v, size) && Grown(aa, Resized(s, v, size), t, Location(v, size), f)
    requires JoinedBy(Resized(s, v, size), t, Hits(aa, Resized(s, v, size), Location(v, size)), f)
    ensures !FirstLeads(t, w)
  {
    hide Conflict, Sound, Disjoint, Aliases, Forest, Resolve, Homes, Forwarders, Counted, Shape, Saturated, Alive, Listed;
    var s0 := Resized(s, v, size);
    assert Hits(aa, s0, Location(v, size)) == {x} && f == x;
    hide Hits;
    MustBeListed(s, x);
    LedThere(s, w, x, v);
    assert MovedTo(s0, t, x, x);
    hide MovedTo;
    assert v in t.sets[x].pointers;
    assert !t.sets[x].may;
    assert !Led(t, w, x, v);
  }

  // ---- Instructions ----

  /** So does an instruction without a known location. */
  lemma UnknownApart(aa: Analysis, w: World, s: State, t: State, inst: nat, x: nat)
    requires Valid(s) && Valid(t) && Sound(aa, w) && Apart(s, w) && IsRoot(t, x) && aa.mayAccess(inst)
    requires JoinsInst(aa, s, t, inst, x) && NewlyInst(aa, s, t, inst, x)
    ensures Apart(t, w)
  {
    hide Forest, Conflict, Sound, JoinsInst, InstHits, Has, Disjoint, FirstLeads, JoinedWith, Resolve, Shape, Listed, Counted,
         Alive, Saturated, JoinedBy, AllOf;
    var near := InstHits(aa, s, inst);
    JoinsIsJoinedInst(aa, s, t, inst, x);
    forall y | IsRoot(t, y) && y != x ensures IsRoot(s, y) && y !in near {
      OthersHave(s, t, near, x, y);
    }
    forall y, c | IsRoot(t, y) && y != x && Has(t, y, c) ensures Has(s, y, c) && !Conflict(w, Inst(inst), c) {
      UnknownOthers(aa, w, s, t, inst, x, near, y, c);
    }
    forall c | Has(t, x, c) ensures FromSome(s, near, c) || LikeNew(w, c, Inst(inst)) {
      UnknownFound(aa, w, s, t, inst, x, near, c);
    }
    assert JoinedWith(s, t, w, near, x, Inst(inst)) by { AllJoinedWith(s, t, w, near, x, Inst(inst)); }
    JoinedIsDisjoint(s, t, w, near, x, Inst(inst));
    UnknownLeads(s, t, w, near, x);
  }

  lemma AllJoinedWith(s: State, t: State, w: World, xs: set<nat>, f: nat, n: Item)
    requires forall y :: IsRoot(t, y) && y != f ==> IsRoot(s, y) && y !in xs
    requires forall y, c :: IsRoot(t, y) && y != f && Has(t, y, c) ==> Has(s, y, c) && !Conflict(w, n, c)
    requires forall c :: Has(t, f, c) ==> FromSome(s, xs, c) || LikeNew(w, c, n)
    ensures JoinedWith(s, t, w, xs, f, n)
  {
    hide Has, IsRoot, Conflict, FromSome, LikeNew;
  }

  lemma JoinsIsJoinedInst(aa: Analysis, s: State, t: State, inst: nat, f: nat)
    requires Forest(t) && JoinsInst(aa, s, t, inst, f) && aa.mayAccess(inst)
    ensures JoinedBy(s, t, InstHits(aa, s, inst), f)
  {
    hide Forest, MovedTo, Stays, LocationOf;
    forall x | IsRoot(s, x) ensures if x in InstHits(aa, s, inst) then MovedTo(s, t, x, f) else Stays(s, t, x) {
      if AliasesInst(aa, s, x, inst) {
        TouchedMoved(aa, s, t, x, inst, f);
      } else {
        InstAnyway(aa, s, x, inst);
      }
    }
  }

  lemma TouchedMoved(aa: Analysis, s: State, t: State, x: nat, inst: nat, f: nat)
    requires Forest(t) && JoinsInst(aa, s, t, inst, f) && IsRoot(s, x) && AliasesInst(aa, s, x, inst)
    ensures MovedTo(s, t, x, f)
  {
    hide Forest, MovedTo, Stays;
    if !s.sets[x].any {
      if k :| 0 <= k < |s.sets[x].unknownInsts| && aa.interact(s.sets[x].unknownInsts[k], inst) {
        assert s.sets[x].unknownInsts[k] in s.sets[x].unknownInsts;
      } else {
        var k :| 0 <= k < |s.sets[x].pointers| && PointerTouched(aa, s, s.sets[x].pointers[k], inst);
        assert s.sets[x].pointers[k] in s.sets[x].pointers;
      }
    }
  }

  lemma UnknownOthers(aa: Analysis, w: World, s: State, t: State, inst: nat, x: nat, near: set<nat>, y: nat, c: Item)
    requires Valid(s) && Sound(aa, w) && Forest(t) && near == InstHits(aa, s, inst) && JoinedBy(s, t, near, x)
    requires t.records == s.records && IsRoot(t, y) && y != x && Has(t, y, c) && aa.mayAccess(inst)
    ensures Has(s, y, c) && !Conflict(w, Inst(inst), c)
  {
    hide Forest, Conflict, Resolve, JoinedBy;
    OthersHave(s, t, near, x, y);
    assert !AliasesInst(aa, s, y, inst);
    match c
    case Mem(l) =>
      var k :| 0 <= k < |s.sets[y].pointers| && s.sets[y].pointers[k] == l.ptr;
      assert !PointerTouched(aa, s, s.sets[y].pointers[k], inst);
      assert !aa.touches(inst, l);
    case Inst(i) =>
      assert !aa.interact(i, inst);
      ConflictIsMutual(w, Inst(i), Inst(inst));
  }

  lemma UnknownFound(aa: Analysis, w: World, s: State, t: State, inst: nat, x: nat, near: set<nat>, c: Item)
    requires near == InstHits(aa, s, inst) && NewlyInst(aa, s, t, inst, x) && Has(t, x, c)
    ensures FromSome(s, near, c) || LikeNew(w, c, Inst(inst))
  {
    hide Conflict, AllOf, AliasesInst;
    var insts := t.sets[x].unknownInsts;
    var access :| AllOf(s, near, t.sets[x].(unknownInsts := insts[..|insts| - 1], access := access));
    assert insts == insts[..|insts| - 1] + [inst];
    if c != Inst(inst) {
      FromAll(s, near, t.sets[x].(unknownInsts := insts[..|insts| - 1], access := access), c);
    }
  }

  lemma UnknownLeads(s: State, t: State, w: World, near: set<nat>, x: nat)
    requires Forest(t) && JoinedBy(s, t, near, x) && t.records == s.records && x in t.sets && t.sets[x].may && FirstLeads(s, w)
    ensures FirstLeads(t, w)
  {
    hide Forest, Resolve, JoinedBy;
    forall y, u | IsRoot(t, y) && !t.sets[y].may && u in t.sets[y].pointers ensures Led(t, w, y, u) {
      OthersHave(s, t, near, x, y);
      LedThere(s, w, y, u);
    }
  }

  // ---- Pointers that go, and copies ----

  /** What a caller can check before: another pointer leads, or the next one can. */
  predicate NextLeads(s: State, ps: seq<nat>, v: nat) {
    ps == [] || ps[0] != v || |ps| == 1
    || (ps[1] in s.records && forall u :: u in ps && u != v && u in s.records ==> s.records[u].size <= s.records[ps[1]].size)
  }

  /** Deleting a pointer keeps sets disjoint.  The first pointers stay in the lead if and only if those
      of the set need not all alias, or that condition holds. */
  lemma DeletedApart(w: World, s: State, t: State, v: nat, x: nat)
    requires Valid(s) && Valid(t) && v in s.records && Apart(s, w) && t.records.Keys == s.records.Keys - {v}
    requires s.records[v].home in s.sets && x == Resolve(s, s.records[v].home) && SizesKept(s, t, v)
    requires OnlyList(s, t, x, DropPointer(s.sets[x].pointers, v))
    requires x in t.sets <==> DropPointer(s.sets[x].pointers, v) != [] || s.sets[x].unknownInsts != []
    ensures Disjoint(t, w) && Positive(t)
    ensures FirstLeads(t, w) <==> s.sets[x].may || NextLeads(s, s.sets[x].pointers, v)
  {
    hide Forest, Conflict, Resolve, Shape, Listed, Counted, Alive, Saturated, DropPointer, Has, IsRoot, FirstLeads, OnlyList,
         SizesKept, NextLeads;
    forall y, c | IsRoot(t, y) && Has(t, y, c) ensures IsRoot(s, y) && Has(s, y, c) {
      DeletedHas(s, t, v, x, y, c);
    }
    assert Positive(t) by { DeletedPositive(s, t, v); }
    DeletedLeads(w, s, t, v, x);
  }

  lemma DeletedPositive(s: State, t: State, v: nat)
    requires Positive(s) && SizesKept(s, t, v) && t.records.Keys == s.records.Keys - {v}
    ensures Positive(t)
  {
  }

  lemma DeletedHas(s: State, t: State, v: nat, x: nat, y: nat, c: Item)
    requires IsRoot(s, x) && OnlyList(s, t, x, DropPointer(s.sets[x].pointers, v)) && SizesKept(s, t, v)
    requires t.records.Keys == s.records.Keys - {v} && IsRoot(t, y) && Has(t, y, c)
    ensures IsRoot(s, y) && Has(s, y, c)
  {
    hide DropPointer;
    if y != x {
      assert Stays(s, t, y);
    }
  }

  lemma DroppedFirst(ps: seq<nat>, v: nat)
    requires NoneTwice(ps) && ps != []
    ensures ps[0] == v ==> DropPointer(ps, v) == ps[1..]
    ensures ps[0] != v ==> DropPointer(ps, v) != [] && DropPointer(ps, v)[0] == ps[0]
  {
    if ps[0] == v {
      NothingDropped(ps[1..], v);
    }
  }

  lemma {:induction false} NothingDropped(ps: seq<nat>, v: nat)
    requires v !in ps
    ensures DropPointer(ps, v) == ps
  {
    if ps != [] {
      NothingDropped(ps[1..], v);
    }
  }

  lemma DeletedLeads(w: World, s: State, t: State, v: nat, x: nat)
    requires Valid(s) && Valid(t) && v in s.records && FirstLeads(s, w) && IsRoot(s, x)
    requires t.records.Keys == s.records.Keys - {v} && SizesKept(s, t, v)
    requires s.records[v].home in s.sets && x == Resolve(s, s.records[v].home)
    requires OnlyList(s, t, x, DropPointer(s.sets[x].pointers, v))
    requires x in t.sets <==> DropPointer(s.sets[x].pointers, v) != [] || s.sets[x].unknownInsts != []
    ensures FirstLeads(t, w) <==> s.sets[x].may || NextLeads(s, s.sets[x].pointers, v)
  {
    hide Forest, Resolve, Shape, Listed, Counted, Alive, Saturated, DropPointer, FirstLeads, Led, OnlyList, NextLeads;
    var own := SetOf(s, v);
    var ps := s.sets[x].pointers;
    ListFacts(s, x);
    if s.sets[x].may || NextLeads(s, ps, v) {
      forall y, u | IsRoot(t, y) && !t.sets[y].may && u in t.sets[y].pointers ensures Led(t, w, y, u) {
        DeletedLed(w, s, t, v, x, y, u);
      }
      LedAll(t, w);
    } else {
      NextDoesNotLead(w, s, t, v, x);
    }
  }

  lemma ListFacts(s: State, x: nat)
    requires Valid(s) && IsRoot(s, x)
    ensures NoneTwice(s.sets[x].pointers) && forall u :: u in s.sets[x].pointers ==> u in s.records
    ensures !s.sets[x].may ==> s.sets[x].unknownInsts == []
  {
    hide Homes, Forwarders, Resolve, Counted, Shape, Saturated, Alive;
    assert SetLists(s, x);
  }

  lemma DeletedLed(w: World, s: State, t: State, v: nat, x: nat, y: nat, u: nat)
    requires Forest(s) && Listed(s) && FirstLeads(s, w) && IsRoot(s, x) && v in s.sets[x].pointers && NoneTwice(s.sets[x].pointers)
    requires SizesKept(s, t, v) && OnlyList(s, t, x, DropPointer(s.sets[x].pointers, v))
    requires s.sets[x].may || NextLeads(s, s.sets[x].pointers, v)
    requires IsRoot(t, y) && !t.sets[y].may && u in t.sets[y].pointers
    ensures Led(t, w, y, u)
  {
    hide Forest, Resolve, DropPointer, Listed, FirstLeads;
    if y != x {
      assert Stays(s, t, y);
      LedThere(s, w, y, u);
      if s.sets[y].pointers[0] == v || u == v {
        InOneSet(s, x, y, v);
      }
    } else {
      var ps := s.sets[x].pointers;
      DroppedFirst(ps, v);
      LedThere(s, w, x, u);
      if ps[0] == v {
        LedThere(s, w, x, ps[1]);
        assert ps[1] != v;
      }
    }
  }

  lemma NextDoesNotLead(w: World, s: State, t: State, v: nat, x: nat)
    requires IsRoot(s, x) && NoneTwice(s.sets[x].pointers) && SizesKept(s, t, v)
    requires forall u :: u in s.sets[x].pointers ==> u in s.records
    requires OnlyList(s, t, x, DropPointer(s.sets[x].pointers, v))
    requires x in t.sets <==> DropPointer(s.sets[x].pointers, v) != [] || s.sets[x].unknownInsts != []
    requires !s.sets[x].may && !NextLeads(s, s.sets[x].pointers, v)
    ensures !FirstLeads(t, w)
  {
    hide DropPointer;
    var ps := s.sets[x].pointers;
    DroppedFirst(ps, v);
    assert ps[1] in ps;
    var u :| u in ps && u != v && s.records[u].size > s.records[ps[1]].size;
    assert u in DropPointer(ps, v);
    assert ps[1..][0] == ps[1] && ps[1] != v;
    assert !Led(t, w, x, u);
  }

  /** A copy points to where the original does. */
  lemma CopiedApart(w: World, s: State, t: State, v: nat, copy: nat, x: nat)
    requires Valid(s) && Valid(t) && Apart(s, w) && v in s.records && copy !in s.records && w.addr(copy) == w.addr(v)
    requires s.records[v].home in s.sets && x == Resolve(s, s.records[v].home)
    requires t.records.Keys == s.records.Keys + {copy} && t.records[copy].size == s.records[v].size && SizesKept(s, t, copy)
    requires OnlyList(s, t, x, s.sets[x].pointers + [copy]) && x in t.sets
    ensures Apart(t, w)
  {
    hide Forest, Conflict, Resolve, Shape, Listed, Counted, Alive, Saturated, FirstLeads, OnlyList, Disjoint, SizesKept, Has, Led;
    var n := Mem(Location(copy, s.records[v].size));
    var own := SetOf(s, v);
    forall y, c | IsRoot(t, y) && y != x && Has(t, y, c) ensures Has(s, y, c) && !Conflict(w, n, c) {
      CopiedOthers(w, s, t, v, copy, x, y, c);
    }
    forall c | Has(t, x, c) ensures FromSome(s, {x}, c) || LikeNew(w, c, n) {
      CopiedFound(w, s, t, v, copy, x, c);
    }
    OnlyListRoots(s, t, x, s.sets[x].pointers + [copy]);
    assert JoinedWith(s, t, w, {x}, x, n) by { AllJoinedWith(s, t, w, {x}, x, n); }
    JoinedIsDisjoint(s, t, w, {x}, x, n);
    forall y, u | IsRoot(t, y) && !t.sets[y].may && u in t.sets[y].pointers ensures Led(t, w, y, u) {
      CopiedLed(w, s, t, v, copy, x, y, u);
    }
    LedAll(t, w);
    assert Positive(t) by { CopiedPositive(s, t, v, copy); }
  }

  lemma OnlyListRoots(s: State, t: State, x: nat, ps: seq<nat>)
    requires OnlyList(s, t, x, ps)
    ensures forall y :: IsRoot(t, y) ==> IsRoot(s, y)
  {
  }

  lemma CopiedPositive(s: State, t: State, v: nat, copy: nat)
    requires Positive(s) && v in s.records && SizesKept(s, t, copy) && copy in t.records && t.records[copy].size == s.records[v].size
    requires t.records.Keys == s.records.Keys + {copy}
    ensures Positive(t)
  {
  }

  lemma CopiedOthers(w: World, s: State, t: State, v: nat, copy: nat, x: nat, y: nat, c: Item)
    requires Disjoint(s, w) && v in s.records && copy !in s.records && w.addr(copy) == w.addr(v) && IsRoot(s, x)
    requires Forest(s) && Listed(s) && v in s.sets[x].pointers && SizesKept(s, t, copy)
    requires OnlyList(s, t, x, s.sets[x].pointers + [copy]) && IsRoot(t, y) && y != x && Has(t, y, c)
    ensures Has(s, y, c) && !Conflict(w, Mem(Location(copy, s.records[v].size)), c)
  {
    hide Forest, Resolve, Conflict;
    assert Stays(s, t, y);
    assert SetLists(s, y);
    var l := Location(v, s.records[v].size);
    assert Has(s, x, Mem(l));
    if Conflict(w, Mem(Location(copy, l.size)), c) {
      LargerConflicts(w, l, Location(copy, l.size), c);
    }
  }

  lemma CopiedFound(w: World, s: State, t: State, v: nat, copy: nat, x: nat, c: Item)
    requires v in s.records && copy !in s.records && IsRoot(s, x) && SizesKept(s, t, copy) && Forest(s) && Listed(s)
    requires copy in t.records && t.records[copy].size == s.records[v].size
    requires OnlyList(s, t, x, s.sets[x].pointers + [copy]) && Has(t, x, c)
    ensures FromSome(s, {x}, c) || LikeNew(w, c, Mem(Location(copy, s.records[v].size)))
  {
    hide Forest, Resolve, Conflict;
    assert SetLists(s, x);
    if c == Mem(Location(copy, s.records[v].size)) {
    } else {
      assert Has(s, x, c) && x in {x};
    }
  }

  lemma CopiedLed(w: World, s: State, t: State, v: nat, copy: nat, x: nat, y: nat, u: nat)
    requires FirstLeads(s, w) && v in s.records && copy !in s.records && w.addr(copy) == w.addr(v) && IsRoot(s, x)
    requires v in s.sets[x].pointers && SizesKept(s, t, copy) && copy in t.records && t.records[copy].size == s.records[v].size
    requires OnlyList(s, t, x, s.sets[x].pointers + [copy]) && IsRoot(t, y) && !t.sets[y].may && u in t.sets[y].pointers
    ensures Led(t, w, y, u)
  {
    hide FirstLeads;
    if y != x {
      assert Stays(s, t, y);
      LedThere(s, w, y, u);
    } else {
      LedThere(s, w, x, v);
      if u != copy {
        LedThere(s, w, x, u);
      }
    }
  }
}
