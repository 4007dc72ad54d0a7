/** Whole runs of the alias set tracker. */
module AliasSetRuns {
  import opened AliasSetForest
  import opened AliasSetSteps
  import opened AliasSetReferences
  import opened AliasSetMerging
  import opened AliasSetInstructions
  import opened AliasSetJoining
  import opened AliasSetDisjointness
  import opened AliasSetTracking

  /** What a tracker is told: an access through a pointer, or an instruction without a location. */
  datatype Op = Accessed(v: nat, size: nat, access: Access, tooMany: bool) | Unknown(inst: nat)

  /** No access is empty, and none is larger than an access through the same pointer before. */
  predicate NeverLarger(ops: seq<Op>) {
    && (forall k :: 0 <= k < |ops| && ops[k].Accessed? ==> ops[k].size > 0)
    && forall j, k :: 0 <= j < k < |ops| && ops[j].Accessed? && ops[k].Accessed? && ops[j].v == ops[k].v ==> ops[k].size <= ops[j].size
  }

  /** In every world the analysis is right about. */
  ghost predicate AlwaysApart(aa: Analysis, s: State) {
    forall w :: Sound(aa, w) ==> Apart(s, w)
  }

  ghost predicate AlwaysDisjoint(aa: Analysis, s: State) {
    forall w :: Sound(aa, w) ==> Disjoint(s, w)
  }

  /** The pointers accessed so far are known, with what they were accessed with at least. */
  ghost predicate Known(s: State, ops: seq<Op>) {
    && (forall v :: v in s.records ==> SomeAccess(ops, v))
    && forall k :: 0 <= k < |ops| && ops[k].Accessed? ==> LargeEnough(s, ops[k])
  }

  ghost predicate SomeAccess(ops: seq<Op>, v: nat) {
    exists k :: 0 <= k < |ops| && AccessOf(ops[k], v)
  }

  predicate AccessOf(op: Op, v: nat) {
    op.Accessed? && op.v == v
  }

  predicate LargeEnough(s: State, op: Op) {
    op.Accessed? && op.v in s.records && op.size <= s.records[op.v].size
  }

  /** With one root only there is nothing to conflict. */
  lemma OneRootDisjoint(aa: Analysis, s: State)
    requires Valid(s) && s.any.Some? && s.any.value in s.sets
    ensures AlwaysDisjoint(aa, s)
  {
    hide Forest, Listed, Counted, Shape, Sound, Conflict;
  }

  lemma AllStayApart(s: State, t: State, w: World)
    requires Apart(s, w) && (forall x :: IsRoot(s, x) ==> Stays(s, t, x)) && (forall y :: IsRoot(t, y) ==> IsRoot(s, y))
    requires t.records.Keys == s.records.Keys && forall u :: u in s.records ==> t.records[u].size == s.records[u].size
    ensures Apart(t, w)
  {
    hide Conflict;
    forall y, c | IsRoot(t, y) && Has(t, y, c) ensures IsRoot(s, y) && Has(s, y, c) {
      assert Stays(s, t, y);
    }
    forall y, u | IsRoot(t, y) && !t.sets[y].may && u in t.sets[y].pointers ensures Led(t, w, y, u) {
      assert Stays(s, t, y);
      assert Led(s, w, y, u);
    }
  }

  /** An access that is not larger than before keeps sets disjoint. */
  lemma AccessedApart(aa: Analysis, s: State, t: State, v: nat, size: nat, r: nat)
    requires Valid(s) && Valid(t) && AlwaysApart(aa, s) && size > 0 && (v in s.records ==> size <= s.records[v].size)
    requires PutIn(aa, s, t, v, size, r) && t.records.Keys == s.records.Keys + {v} && IsRoot(t, r)
    ensures AlwaysApart(aa, t)
  {
    hide Valid, Sound, Apart, Joins, Newly, Forest, Stays, IsRoot;
    forall w | Sound(aa, w) ensures Apart(t, w) {
      if v in s.records {
        assert t.records.Keys == s.records.Keys;
        AllStayApart(s, t, w);
      } else {
        InsertedApart(aa, w, s, t, v, size, r);
      }
    }
  }

  lemma SizesNeverShrink(aa: Analysis, s: State, t: State, v: nat, size: nat, r: nat)
    requires Forest(s) && Forest(t) && PutIn(aa, s, t, v, size, r)
    ensures v in t.records && size <= t.records[v].size
    ensures forall u :: u in s.records ==> u in t.records && s.records[u].size <= t.records[u].size
  {
    hide Joins, Forest, AllOf, MayOfAll, Hits, NotMust, FirstKept, Grown, Stays;
  }

  lemma WithAccessApart(aa: Analysis, u: State, r: nat, access: Access)
    requires AlwaysApart(aa, u) && r in u.sets
    ensures AlwaysApart(aa, WithAccess(u, r, access))
  {
    hide Sound, Conflict;
    var t := WithAccess(u, r, access);
    forall w | Sound(aa, w) ensures Apart(t, w) {
      forall y, c ensures (IsRoot(t, y) <==> IsRoot(u, y)) && (Has(t, y, c) <==> Has(u, y, c)) {
      }
      forall y, v | IsRoot(t, y) && !t.sets[y].may && v in t.sets[y].pointers ensures Led(t, w, y, v) {
        assert Led(u, w, y, v);
      }
    }
  }

  lemma UnknownAlwaysApart(aa: Analysis, s: State, t: State, inst: nat)
    requires Valid(s) && Valid(t) && AlwaysApart(aa, s)
    requires aa.mayAccess(inst) && !aa.ignored(inst) ==>
               exists x :: IsRoot(t, x) && JoinsInst(aa, s, t, inst, x) && NewlyInst(aa, s, t, inst, x)
    requires !aa.mayAccess(inst) || aa.ignored(inst) ==> t == s
    ensures AlwaysApart(aa, t) && t.records == s.records
  {
    hide Sound, Apart, JoinsInst, IsRoot, AllOf, InstHits, Listed, Counted, Shape, Alive, Saturated;
    if aa.mayAccess(inst) && !aa.ignored(inst) {
      var x :| IsRoot(t, x) && JoinsInst(aa, s, t, inst, x) && NewlyInst(aa, s, t, inst, x);
      hide Forest, Valid;
      forall w | Sound(aa, w) ensures Apart(t, w) {
        UnknownApart(aa, w, s, t, inst, x);
      }
    }
  }

  /** A saturated tracker puts the instruction in its one set. */
  lemma UnknownSaturated(aa: Analysis, s: State, t: State, inst: nat)
    requires Valid(s) && Forest(t) && t.any == s.any && s.any.Some? && s.any.value in s.sets
    requires aa.mayAccess(inst) && !aa.ignored(inst) ==> exists x :: IsRoot(t, x) && NewlyInst(aa, s, t, inst, x)
    requires !aa.mayAccess(inst) || aa.ignored(inst) ==> t == s
    ensures t.any.value in t.sets
  {
    hide Forest, Listed, Counted, Shape, AllOf;
    if aa.mayAccess(inst) && !aa.ignored(inst) {
      var x :| IsRoot(t, x) && NewlyInst(aa, s, t, inst, x);
      assert s.any.value in InstHits(aa, s, inst);
    }
  }

  lemma KnownNext(s: State, t: State, ops: seq<Op>, k: nat)
    requires k < |ops| && Known(s, ops[..k]) && (forall u :: u in s.records ==> u in t.records && s.records[u].size <= t.records[u].size)
    requires t.records.Keys <= s.records.Keys + if ops[k].Accessed? then {ops[k].v} else {}
    requires ops[k].Accessed? ==> LargeEnough(t, ops[k])
    ensures Known(t, ops[..k + 1])
  {
    assert ops[..k + 1][k] == ops[k];
    forall v | v in t.records ensures SomeAccess(ops[..k + 1], v) {
      if v in s.records {
        assert SomeAccess(ops[..k], v);
        var j :| 0 <= j < k && AccessOf(ops[..k][j], v);
        assert AccessOf(ops[..k + 1][j], v);
      } else {
        assert AccessOf(ops[..k + 1][k], v);
      }
    }
    forall j | 0 <= j < k + 1 && ops[j].Accessed? ensures LargeEnough(t, ops[..k + 1][j]) {
      if j < k {
        assert LargeEnough(s, ops[..k][j]);
      }
    }
  }

  lemma NotLarger(s: State, ops: seq<Op>, k: nat)
    requires k < |ops| && NeverLarger(ops) && Known(s, ops[..k]) && ops[k].Accessed?
    ensures ops[k].v in s.records ==> ops[k].size <= s.records[ops[k].v].size
  {
    if ops[k].v in s.records {
      assert SomeAccess(ops[..k], ops[k].v);
      var j :| 0 <= j < k && AccessOf(ops[..k][j], ops[k].v);
      assert LargeEnough(s, ops[..k][j]);
    }
  }

  /** After every run in which no pointer is accessed with a larger size than before, no two sets have
      to do with the same memory, in any world the analysis is right about. */
  method Run(aa: Analysis, ops: seq<Op>) returns (tracker: AliasSetTracker)
    requires NeverLarger(ops)
    ensures fresh(tracker) && tracker.aa == aa && Valid(tracker.S()) && AlwaysDisjoint(aa, tracker.S())
  {
    hide Valid, AlwaysApart, AlwaysDisjoint, Known, NeverLarger, SameInsts, Coarser, PutIn, IsRoot, EndsIn, JoinsInst, NewlyInst, Forest;
    tracker := new AliasSetTracker(aa);
    NothingIsApart(aa, tracker.S());
    for k := 0 to |ops|
      invariant fresh(tracker) && tracker.aa == aa && Valid(tracker.S())
      invariant tracker.any.None? ==> AlwaysApart(aa, tracker.S()) && Known(tracker.S(), ops[..k])
      invariant tracker.any.Some? ==> tracker.any.value in tracker.sets
    {
      Perform(tracker, ops, k);
    }
    assert ops[..|ops|] == ops;
    if tracker.any.None? {
      ApartIsDisjoint(aa, tracker.S());
    } else {
      OneRootDisjoint(aa, tracker.S());
    }
  }

  lemma AccessNoted(aa: Analysis, s: State, t: State, v: nat, size: nat, r: nat, access: Access)
    requires Valid(s) && AlwaysApart(aa, s) && size > 0 && (v in s.records ==> size <= s.records[v].size)
    requires exists u :: && Valid(u) && PutIn(aa, s, u, v, size, r) && u.records.Keys == s.records.Keys + {v}
                         && IsRoot(u, r) && t == WithAccess(u, r, access)
    ensures AlwaysApart(aa, t) && t.records.Keys == s.records.Keys + {v} && LargeEnough(t, Accessed(v, size, access, false))
    ensures forall u :: u in s.records ==> u in t.records && s.records[u].size <= t.records[u].size
  {
    hide PutIn, AlwaysApart, Listed, Counted, Shape, Alive, Saturated;
    var u :| && Valid(u) && PutIn(aa, s, u, v, size, r) && u.records.Keys == s.records.Keys + {v}
             && IsRoot(u, r) && t == WithAccess(u, r, access);
    AccessedApart(aa, s, u, v, size, r);
    SizesNeverShrink(aa, s, u, v, size, r);
    WithAccessApart(aa, u, r, access);
  }

  method Perform(tracker: AliasSetTracker, ops: seq<Op>, k: nat)
    requires Valid(tracker.S()) && k < |ops| && NeverLarger(ops)
    requires tracker.any.None? ==> AlwaysApart(tracker.aa, tracker.S()) && Known(tracker.S(), ops[..k])
    requires tracker.any.Some? ==> tracker.any.value in tracker.sets
    modifies tracker
    ensures Valid(tracker.S()) && (tracker.any.Some? ==> tracker.any.value in tracker.sets)
    ensures tracker.any.None? ==> AlwaysApart(tracker.aa, tracker.S()) && Known(tracker.S(), ops[..k + 1])
  {
    hide Valid, AlwaysApart, Known, SameInsts, Coarser, PutIn, IsRoot, EndsIn, JoinsInst, NewlyInst, Forest, HasInst;
    ghost var aa, s := tracker.aa, tracker.S();
    ValidIsForest(s);
    match ops[k] {
      case Accessed(v, size, access, tooMany) =>
        if tracker.any.None? { NotLarger(s, ops, k); }
        hide NeverLarger;
        var r := tracker.AddPointer(v, size, access, tooMany);
        if tracker.any.None? {
          AccessNoted(aa, s, tracker.S(), v, size, r, access);
          KnownNext(s, tracker.S(), ops, k);
        }
      case Unknown(inst) =>
        tracker.AddUnknown(inst);
        ValidIsForest(tracker.S());
        if tracker.any.None? {
          UnknownAlwaysApart(aa, s, tracker.S(), inst);
          KnownNext(s, tracker.S(), ops, k);
        } else {
          UnknownSaturated(aa, s, tracker.S(), inst);
        }
    }
  }

  lemma NothingIsApart(aa: Analysis, s: State)
    requires s.sets == map[] && s.records == map[]
    ensures AlwaysApart(aa, s) && Known(s, [])
  {
  }

  lemma ApartIsDisjoint(aa: Analysis, s: State)
    requires AlwaysApart(aa, s)
    ensures AlwaysDisjoint(aa, s)
  {
    hide Sound, Conflict;
  }

  // ---- A run that leaves two sets with the same memory ----

  predicate Overlap(w: World, k: Location, l: Location) {
    && k.size > 0 && l.size > 0
    && w.addr(k.ptr) < w.addr(l.ptr) + l.size && w.addr(l.ptr) < w.addr(k.ptr) + k.size
  }

  lemma OverlapIsConflict(w: World, k: Location, l: Location)
    ensures Overlap(w, k, l) <==> Conflict(w, Mem(k), Mem(l))
  {
    if Overlap(w, k, l) {
      var b := if w.addr(k.ptr) < w.addr(l.ptr) then w.addr(l.ptr) else w.addr(k.ptr);
      assert Uses(w, Mem(k), b) && Uses(w, Mem(l), b);
    }
  }

  /** An analysis that knows where pointers point to. */
  function Knowing(w: World): Analysis {
    Analysis((k: Location, l: Location) =>
               if !Overlap(w, k, l) then NoAlias else if w.addr(k.ptr) == w.addr(l.ptr) then MustAlias else MayAlias,
             (i: nat, l: Location) => true, (i: nat, j: nat) => true, (i: nat) => true, (i: nat) => true, (i: nat) => false)
  }

  lemma KnowingIsSound(w: World)
    ensures Sound(Knowing(w), w)
  {
    hide Conflict;
    forall k, l ensures Overlap(w, k, l) <==> Conflict(w, Mem(k), Mem(l)) {
      OverlapIsConflict(w, k, l);
    }
  }

  /** Pointers 1 and 2 point to the same place, pointer 3 fifty bytes behind it. */
  function FiftyBehind(): World {
    World((v: nat) => if v == 3 then 50 else 0, (i: nat, b: int) => false, (i: nat, b: int) => false)
  }

  /** The only set has pointers that must alias, 1 being the first of them. */
  ghost predicate OnlyMust(s: State) {
    && (forall y :: IsRoot(s, y) ==> y == 0) && IsRoot(s, 0)
    && !s.sets[0].may && !s.sets[0].any && s.sets[0].pointers != [] && s.sets[0].pointers[0] == 1
    && 1 in s.records && s.records[1].size == 4
  }

  /** The set has pointer 2 too, of that size. */
  ghost predicate AndSecond(s: State, size: nat) {
    OnlyMust(s) && 2 in s.sets[0].pointers && 2 in s.records && s.records[2].size == size
  }

  /** Accesses of four bytes through 1 and 2 that must alias, of a hundred bytes through 2, and of four
      bytes through 3: byte 50 is then in two sets. */
  method GrownCounterexample() returns (tracker: AliasSetTracker)
    ensures fresh(tracker) && Valid(tracker.S()) && Sound(tracker.aa, FiftyBehind()) && !Disjoint(tracker.S(), FiftyBehind())
  {
    hide Valid, PutIn, Sound, Disjoint, OnlyMust, AndSecond, Coarser, SameInsts, EndsIn, Forest, IsRoot, Knowing, Everything,
         HasInst, Resolve, Invariant, Alive, Saturated;
    KnowingIsSound(FiftyBehind());
    tracker := FirstTwo();
    ghost var s2 := tracker.S();
    var r := TouchNothing(tracker, 2, 100);
    ghost var s3 := tracker.S();
    SecondGrows(s2, s3, r);
    r := TouchNothing(tracker, 3, 4);
    ThirdIsAlone(s3, tracker.S(), r);
  }

  method FirstTwo() returns (tracker: AliasSetTracker)
    ensures fresh(tracker) && tracker.aa == Knowing(FiftyBehind()) && Valid(tracker.S()) && tracker.any.None?
    ensures AndSecond(tracker.S(), 4) && tracker.records.Keys == {1, 2}
  {
    hide Valid, PutIn, OnlyMust, AndSecond, Forest, IsRoot, Knowing;
    tracker := new AliasSetTracker(Knowing(FiftyBehind()));
    ghost var s0 := tracker.S();
    var r := TouchNothing(tracker, 1, 4);
    ghost var s1 := tracker.S();
    FirstOfAll(s0, s1, r);
    r := TouchNothing(tracker, 2, 4);
    SecondJoins(s1, tracker.S(), r);
  }

  /** An access that is only noted by its location. */
  method TouchNothing(tracker: AliasSetTracker, v: nat, size: nat) returns (r: nat)
    requires Valid(tracker.S()) && tracker.any.None?
    modifies tracker
    ensures Valid(tracker.S()) && tracker.any.None? && IsRoot(tracker.S(), r)
    ensures PutIn(tracker.aa, old(tracker.S()), tracker.S(), v, size, r)
    ensures tracker.records.Keys == old(tracker.records.Keys) + {v}
  {
    ghost var s := tracker.S();
    r := tracker.AddPointer(v, size, Access(false, false), false);
    NothingNoted(tracker.aa, s, tracker.S(), v, size, r);
  }

  lemma NothingNoted(aa: Analysis, s: State, t: State, v: nat, size: nat, r: nat)
    requires Valid(s)
    requires exists u :: && Valid(u) && PutIn(aa, s, u, v, size, r) && u.records.Keys == s.records.Keys + {v}
                         && IsRoot(u, r) && t == WithAccess(u, r, Access(false, false))
    ensures Valid(t) && PutIn(aa, s, t, v, size, r) && IsRoot(t, r) && t.records.Keys == s.records.Keys + {v}
  {
    hide PutIn, Listed, Counted, Shape, Alive, Saturated;
    var u :| && Valid(u) && PutIn(aa, s, u, v, size, r) && u.records.Keys == s.records.Keys + {v}
             && IsRoot(u, r) && t == WithAccess(u, r, Access(false, false));
    assert u.sets[r := u.sets[r]] == u.sets;
  }

  /** A set of pointers that must alias does not alias everything. */
  lemma MustNotAny(s: State, x: nat)
    requires Valid(s) && IsRoot(s, x) && !s.sets[x].may
    ensures !s.sets[x].any && s.sets[x].pointers != []
  {
    hide Homes, Forwarders, Resolve, Counted, Shape, Saturated, Alive;
    MustBeListed(s, x);
    assert SetLists(s, x);
  }

  /** Whether a new pointer leaves the set it is put in one of pointers that must alias. */
  lemma NewlyFacts(aa: Analysis, s: State, t: State, v: nat, size: nat, r: nat)
    requires Newly(aa, s, t, v, size, r)
    ensures r in t.sets && v in t.sets[r].pointers && v in t.records && t.records[v].size == size
    ensures var near := Hits(aa, s, Location(v, size));
            && (near == {} ==> r == s.next && t.sets[r].pointers == [v] && (t.sets[r].may <==> NotMust(aa, s, v, v, size)))
            && (near == {r} ==> r in s.sets && s.sets[r].pointers <= t.sets[r].pointers
                                && (t.sets[r].may <==> s.sets[r].may || NotMust(aa, s, t.sets[r].pointers[0], v, size)))
    ensures forall x :: Hits(aa, s, Location(v, size)) == {x} ==> r == x
    ensures forall w | w in s.records ::
              && w in t.records
              && (t.records[w].size == s.records[w].size
                  || (t.records[w].size == size > s.records[w].size && w == t.sets[r].pointers[0]))
  {
    hide AllOf, Hits, NotMust, FirstsDiffer;
    var near, ps := Hits(aa, s, Location(v, size)), t.sets[r].pointers;
    assert ps == ps[..|ps| - 1] + [v];
    var may :| MayOfAll(aa, s, near, r, may) && (t.sets[r].may <==> may || NotMust(aa, s, ps[0], v, size));
    hide MayOfAll;
    if near == {} {
      NoneIsEmpty(s, t.sets[r].(pointers := ps[..|ps| - 1]));
      MayOfNone(aa, s, r, may);
    } else if near == {r} {
      MayOfSame(aa, s, r, may);
    }
  }

  lemma MayOfNone(aa: Analysis, s: State, r: nat, may: bool)
    requires MayOfAll(aa, s, {}, r, may)
    ensures !may
  {
  }

  lemma MayOfSame(aa: Analysis, s: State, r: nat, may: bool)
    requires MayOfAll(aa, s, {r}, r, may) && r in s.sets
    ensures may == s.sets[r].may
  {
    assert r in {r};
  }

  lemma OnlyHit(s: State, loc: Location)
    requires OnlyMust(s)
    ensures FiftyBehind().addr(loc.ptr) == 0 && loc.size > 0 ==> Hits(Knowing(FiftyBehind()), s, loc) == {0}
    ensures FiftyBehind().addr(loc.ptr) == 50 ==> Hits(Knowing(FiftyBehind()), s, loc) == {}
  {
    assert Aliases(Knowing(FiftyBehind()), s, 0, loc) <==> Overlap(FiftyBehind(), Location(1, 4), loc);
  }

  lemma JoinsRoots(aa: Analysis, s: State, t: State, loc: Location, f: nat)
    requires Forest(t) && Joins(aa, s, t, loc, f)
    ensures forall y :: IsRoot(t, y) && y != f ==> IsRoot(s, y)
    ensures f in Hits(aa, s, loc) ==> IsRoot(t, f)
    ensures forall x :: IsRoot(s, x) && x !in Hits(aa, s, loc) ==> Stays(s, t, x)
  {
    hide Forest, Aliases, Stays;
    JoinsIsJoined(aa, s, t, loc, f);
    HitIsRoot(aa, s, t, loc, f);
  }

  lemma FirstOfAll(s: State, t: State, r: nat)
    requires Valid(s) && Valid(t) && s.sets == map[] && s.records == map[] && s.next == 0 && IsRoot(t, r)
    requires PutIn(Knowing(FiftyBehind()), s, t, 1, 4, r)
    ensures OnlyMust(t)
  {
    hide Valid, Forest, Joins, Newly, Overlap, Stays, Aliases;
    var aa := Knowing(FiftyBehind());
    assert Hits(aa, s, Location(1, 4)) == {};
    ValidIsForest(t);
    NewlyFacts(aa, s, t, 1, 4, r);
    JoinsRoots(aa, s, t, Location(1, 4), r);
    MustNotAny(t, r);
  }

  lemma SecondJoins(s: State, t: State, r: nat)
    requires Valid(s) && Valid(t) && OnlyMust(s) && 2 !in s.records && IsRoot(t, r)
    requires PutIn(Knowing(FiftyBehind()), s, t, 2, 4, r)
    ensures AndSecond(t, 4)
  {
    hide Valid, Forest, Joins, Newly, Stays, Aliases, Hits, Knowing, NotMust, OnlyMust, AndSecond;
    var aa := Knowing(FiftyBehind());
    ValidIsForest(t);
    assert Newly(aa, s, t, 2, 4, r) && Joins(aa, s, t, Location(2, 4), r);
    hide PutIn;
    OnlyHit(s, Location(2, 4));
    NewlyFacts(aa, s, t, 2, 4, r);
    JoinsRoots(aa, s, t, Location(2, 4), r);
    OnlyMustIsSet(s);
    hide IsRoot;
    FirstAndSecond(s, t);
  }

  lemma FirstAndSecond(s: State, t: State)
    requires Valid(t) && OnlyMust(s) && IsRoot(t, 0) && forall y :: IsRoot(t, y) && y != 0 ==> IsRoot(s, y)
    requires 0 in s.sets && 0 in t.sets && s.sets[0].pointers <= t.sets[0].pointers && t.sets[0].pointers != [] && 2 in t.sets[0].pointers
    requires t.sets[0].may <==> s.sets[0].may || NotMust(Knowing(FiftyBehind()), s, t.sets[0].pointers[0], 2, 4)
    requires 1 in s.records && 1 in t.records && (t.records[1].size == s.records[1].size || t.records[1].size == 4 > s.records[1].size)
    requires 2 in t.records && t.records[2].size == 4
    ensures AndSecond(t, 4)
  {
    hide Valid, NotMust, Knowing;
    InPrefix(s.sets[0].pointers, t.sets[0].pointers);
    FirstMustAliasSecond(s);
    MustNotAny(t, 0);
    forall y | IsRoot(t, y) ensures y == 0 {
      assert y != 0 ==> IsRoot(s, y);
    }
  }

  lemma FirstMustAliasSecond(s: State)
    requires 1 in s.records && s.records[1].size == 4
    ensures !NotMust(Knowing(FiftyBehind()), s, 1, 2, 4)
  {
  }

  lemma SecondGrows(s: State, t: State, r: nat)
    requires Valid(s) && Valid(t) && AndSecond(s, 4) && PutIn(Knowing(FiftyBehind()), s, t, 2, 100, r)
    ensures AndSecond(t, 100)
  {
    hide Valid, Forest, Joins, Grown, Stays, Aliases, Hits, Knowing, OnlyMust;
    var aa, s0 := Knowing(FiftyBehind()), Resized(s, 2, 100);
    ValidIsForest(t);
    ResizedOnly(s, 100);
    OnlyHit(s0, Location(2, 100));
    assert exists f :: Joins(aa, s0, t, Location(2, 100), f) && Grown(aa, s0, t, Location(2, 100), f);
    hide PutIn, AndSecond;
    var f :| Joins(aa, s0, t, Location(2, 100), f) && Grown(aa, s0, t, Location(2, 100), f);
    JoinsRoots(aa, s0, t, Location(2, 100), f);
    GrownFacts(aa, s0, t, Location(2, 100), f, 0);
    hide IsRoot, Resized;
    SecondAfter(s, s0, t);
  }

  lemma ResizedOnly(s: State, size: nat)
    requires AndSecond(s, 4)
    ensures OnlyMust(Resized(s, 2, size))
  {
    forall y | IsRoot(Resized(s, 2, size), y) ensures y == 0 {
      assert IsRoot(s, y);
    }
  }

  lemma SecondAfter(s: State, s0: State, t: State)
    requires Valid(t) && AndSecond(s, 4) && s0 == Resized(s, 2, 100) && IsRoot(t, 0) && forall y :: IsRoot(t, y) && y != 0 ==> IsRoot(s0, y)
    requires 0 in s0.sets && 0 in t.sets && s0.sets[0].pointers <= t.sets[0].pointers && t.sets[0].may == s0.sets[0].may
    requires 1 in t.records && t.records[1].size == 4 && 2 in t.records && t.records[2].size == 100
    ensures AndSecond(t, 100)
  {
    hide Valid;
    MustNotAny(t, 0);
    InPrefix(s.sets[0].pointers, t.sets[0].pointers);
    forall y | IsRoot(t, y) ensures y == 0 {
      assert y != 0 ==> IsRoot(s, y);
    }
  }

  lemma InPrefix(p: seq<nat>, q: seq<nat>)
    requires p <= q
    ensures (forall v :: v in p ==> v in q) && (p != [] ==> q != [] && q[0] == p[0])
  {
    forall v | v in p ensures v in q {
      var k :| 0 <= k < |p| && p[k] == v;
      assert q[k] == v;
    }
  }

  lemma GrownFacts(aa: Analysis, s: State, t: State, loc: Location, f: nat, x: nat)
    requires Grown(aa, s, t, loc, f) && Hits(aa, s, loc) == {x}
    ensures f == x && x in s.sets && x in t.sets && s.sets[x].pointers <= t.sets[x].pointers && t.sets[x].may == s.sets[x].may
  {
    hide AllOf, Hits, FirstsDiffer;
  }

  lemma ThirdIsAlone(s: State, t: State, r: nat)
    requires Valid(s) && Valid(t) && AndSecond(s, 100) && 3 !in s.records && IsRoot(t, r)
    requires PutIn(Knowing(FiftyBehind()), s, t, 3, 4, r)
    ensures !Disjoint(t, FiftyBehind())
  {
    hide Valid, Forest, Joins, Newly, Aliases, Hits, Knowing, Conflict, NotMust, OnlyMust, Disjoint;
    var aa := Knowing(FiftyBehind());
    ValidIsForest(t);
    assert Newly(aa, s, t, 3, 4, r) && Joins(aa, s, t, Location(3, 4), r);
    hide PutIn;
    OnlyHit(s, Location(3, 4));
    NewlyFacts(aa, s, t, 3, 4, r);
    JoinsRoots(aa, s, t, Location(3, 4), r);
    OnlyMustIsSet(s);
    NextIsNew(s, 0);
    hide IsRoot, AndSecond, Stays;
    InTwoSets(s, t, r);
  }

  lemma OnlyMustIsSet(s: State)
    requires OnlyMust(s)
    ensures IsRoot(s, 0) && 1 in s.records
  {
  }

  lemma InTwoSets(s: State, t: State, r: nat)
    requires AndSecond(s, 100) && 0 in s.sets && Stays(s, t, 0) && IsRoot(t, r) && r != 0
    requires t.sets[r].pointers == [3] && 3 in t.records && t.records[3].size == 4
    requires 2 in s.records && 2 in t.records && (t.records[2].size == s.records[2].size || (t.records[2].size == 4 > s.records[2].size))
    ensures !Disjoint(t, FiftyBehind())
  {
    hide Conflict;
    assert Has(t, 0, Mem(Location(2, 100))) && Has(t, r, Mem(Location(3, 4)));
    OverlapIsConflict(FiftyBehind(), Location(2, 100), Location(3, 4));
  }

  lemma NextIsNew(s: State, x: nat)
    requires Valid(s) && x in s.sets
    ensures x < s.next
  {
    hide Forest, Listed, Counted, Alive, Saturated, Increasing;
  }
}
