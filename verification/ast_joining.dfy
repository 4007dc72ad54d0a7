/** Which sets a pointer or an instruction joins. */
module AliasSetJoining {
  import opened AliasSetForest
  import opened AliasSetSteps
  import opened AliasSetReferences
  import opened AliasSetMerging

  datatype AliasResult = NoAlias | MayAlias | MustAlias

  datatype Location = Location(ptr: nat, size: nat)

  /** What the alias analysis says about locations and instructions. */
  datatype Analysis = Analysis(alias: (Location, Location) -> AliasResult, touches: (nat, Location) -> bool,
                               interact: (nat, nat) -> bool, mayAccess: nat -> bool, mayWrite: nat -> bool,
                               ignored: nat -> bool)

  function LocationOf(s: State, v: nat): Location
    requires v in s.records
  {
    Location(v, s.records[v].size)
  }

  /** The first pointers of the two sets are not known to alias. */
  predicate FirstsDiffer(aa: Analysis, s: State, a: nat, b: nat) {
    && a in s.sets && b in s.sets && s.sets[a].pointers != [] && s.sets[b].pointers != []
    && s.sets[a].pointers[0] in s.records && s.sets[b].pointers[0] in s.records
    && aa.alias(LocationOf(s, s.sets[a].pointers[0]), LocationOf(s, s.sets[b].pointers[0])) != MustAlias
  }

  /** Merged pointers may alias if those of some set may, or if the first pointer of some set need
      not alias that of the set they are merged into. */
  ghost predicate MayOfAll(aa: Analysis, s: State, xs: set<nat>, f: nat, may: bool) {
    may <==> exists x :: x in xs && x in s.sets && (s.sets[x].may || (x != f && FirstsDiffer(aa, s, f, x)))
  }

  lemma MayOfOne(aa: Analysis, s: State, x: nat, may: bool)
    requires x in s.sets && may == s.sets[x].may
    ensures MayOfAll(aa, s, {x}, x, may)
  {
    assert x in {x};
  }

  lemma MayOfNext(aa: Analysis, s: State, t: State, xs: set<nat>, f: nat, x: nat, may: bool)
    requires f in t.sets && x in t.sets && f in s.sets && x in s.sets && SameBut(s.sets[x], t.sets[x]) && x != f
    requires MayOfAll(aa, s, xs, f, t.sets[f].may) && t.records == s.records
    requires !t.sets[f].may ==> s.sets[f].pointers != []
    requires s.sets[f].pointers <= t.sets[f].pointers
    requires may <==> t.sets[f].may || t.sets[x].may || FirstsDiffer(aa, t, f, x)
    ensures MayOfAll(aa, s, xs + {x}, f, may)
  {
    assert x in xs + {x};
    assert !t.sets[f].may ==> (FirstsDiffer(aa, t, f, x) <==> FirstsDiffer(aa, s, f, x));
    hide FirstsDiffer;
    if t.sets[f].may {
      var y :| y in xs && y in s.sets && (s.sets[y].may || (y != f && FirstsDiffer(aa, s, f, y)));
      assert y in xs + {x};
    }
  }

  /** The analysis says that the location may alias something in the set. */
  ghost predicate Aliases(aa: Analysis, s: State, x: nat, loc: Location)
    requires x in s.sets
  {
    var a := s.sets[x];
    || a.any
    || (if !a.may then a.pointers != [] && a.pointers[0] in s.records && aa.alias(LocationOf(s, a.pointers[0]), loc) != NoAlias
        else
          || (exists k :: 0 <= k < |a.pointers| && PointerAliases(aa, s, a.pointers[k], loc))
          || (exists k :: 0 <= k < |a.unknownInsts| && aa.touches(a.unknownInsts[k], loc)))
  }

  predicate PointerAliases(aa: Analysis, s: State, v: nat, loc: Location) {
    v in s.records && aa.alias(loc, LocationOf(s, v)) != NoAlias
  }

  /** The analysis says that the instruction may touch something in the set. */
  ghost predicate AliasesInst(aa: Analysis, s: State, x: nat, inst: nat)
    requires x in s.sets
  {
    var a := s.sets[x];
    || a.any
    || (&& aa.mayAccess(inst)
        && (|| (exists k :: 0 <= k < |a.unknownInsts| && aa.interact(a.unknownInsts[k], inst))
            || (exists k :: 0 <= k < |a.pointers| && PointerTouched(aa, s, a.pointers[k], inst))))
  }

  predicate PointerTouched(aa: Analysis, s: State, v: nat, inst: nat) {
    v in s.records && aa.touches(inst, LocationOf(s, v))
  }

  /** The sets that may alias the location. */
  ghost function Hits(aa: Analysis, s: State, loc: Location): set<nat> {
    set x | x in s.sets && IsRoot(s, x) && Aliases(aa, s, x, loc)
  }

  ghost function InstHits(aa: Analysis, s: State, inst: nat): set<nat> {
    set x | x in s.sets && IsRoot(s, x) && AliasesInst(aa, s, x, inst)
  }

  // ---- Joining ----

  /** All that was in the root `x` is now in `f`. */
  ghost predicate MovedTo(s: State, t: State, x: nat, f: nat)
    requires Forest(t) && x in s.sets
  {
    && IsRoot(t, f) && (x in t.sets ==> Resolve(t, x) == f)
    && (forall v :: v in s.sets[x].pointers ==> EndsIn(t, v, f))
    && forall i :: i in s.sets[x].unknownInsts ==> i in t.sets[f].unknownInsts
  }

  /** The root `x` is still one, and has what it had. */
  predicate Stays(s: State, t: State, x: nat)
    requires x in s.sets
  {
    IsRoot(t, x) && SameBut(s.sets[x], t.sets[x])
  }

  ghost predicate JoinedBy(s: State, t: State, xs: set<nat>, f: nat)
    requires Forest(t)
  {
    && (forall x :: IsRoot(s, x) ==> if x in xs then MovedTo(s, t, x, f) else Stays(s, t, x))
    && forall y :: IsRoot(t, y) && y != f ==> IsRoot(s, y)
  }

  /** Every set that holds something the analysis does not say is no alias of the location has gone
      into `f`: a set that aliases everything, one whose pointers must alias and whose first pointer
      is not told apart, one that has any pointer that is not told apart or an unknown instruction
      that touches the location.  All others are as they were. */
  ghost predicate Joins(aa: Analysis, s: State, t: State, loc: Location, f: nat)
    requires Forest(t)
  {
    && (forall x :: IsRoot(s, x) && s.sets[x].any ==> MovedTo(s, t, x, f))
    && (forall x | IsRoot(s, x) && !s.sets[x].may && s.sets[x].pointers != [] && s.sets[x].pointers[0] in s.records ::
          aa.alias(LocationOf(s, s.sets[x].pointers[0]), loc) != NoAlias ==> MovedTo(s, t, x, f))
    && (forall x, v | IsRoot(s, x) && s.sets[x].may && v in s.sets[x].pointers && v in s.records ::
          aa.alias(loc, LocationOf(s, v)) != NoAlias ==> MovedTo(s, t, x, f))
    && (forall x, i :: IsRoot(s, x) && s.sets[x].may && i in s.sets[x].unknownInsts && aa.touches(i, loc) ==> MovedTo(s, t, x, f))
    && (forall x |
         && IsRoot(s, x) && !s.sets[x].any
         && (!s.sets[x].may && s.sets[x].pointers != [] && s.sets[x].pointers[0] in s.records ==>
               aa.alias(LocationOf(s, s.sets[x].pointers[0]), loc) == NoAlias)
         && (s.sets[x].may ==> forall v :: v in s.sets[x].pointers && v in s.records ==> aa.alias(loc, LocationOf(s, v)) == NoAlias)
         && (s.sets[x].may ==> forall i :: i in s.sets[x].unknownInsts ==> !aa.touches(i, loc)) ::
         Stays(s, t, x))
    && forall y :: IsRoot(t, y) && y != f ==> IsRoot(s, y)
  }

  /** Every set that holds something the instruction may touch, or an instruction it interacts with,
      has gone into `f`; all others are as they were. */
  ghost predicate JoinsInst(aa: Analysis, s: State, t: State, inst: nat, f: nat)
    requires Forest(t)
  {
    && (forall x :: IsRoot(s, x) && s.sets[x].any ==> MovedTo(s, t, x, f))
    && (forall x, i :: IsRoot(s, x) && i in s.sets[x].unknownInsts && aa.interact(i, inst) ==> MovedTo(s, t, x, f))
    && (forall x, v :: IsRoot(s, x) && v in s.sets[x].pointers && v in s.records && aa.touches(inst, LocationOf(s, v)) ==>
          MovedTo(s, t, x, f))
    && (forall x |
         && IsRoot(s, x) && !s.sets[x].any
         && (forall i :: i in s.sets[x].unknownInsts ==> !aa.interact(i, inst))
         && (forall v :: v in s.sets[x].pointers && v in s.records ==> !aa.touches(inst, LocationOf(s, v))) ::
         Stays(s, t, x))
    && forall y :: IsRoot(t, y) && y != f ==> IsRoot(s, y)
  }

  lemma AliasesAnyway(aa: Analysis, s: State, x: nat, loc: Location)
    requires x in s.sets
    ensures s.sets[x].any ==> Aliases(aa, s, x, loc)
    ensures (&& !s.sets[x].may && s.sets[x].pointers != [] && s.sets[x].pointers[0] in s.records
             && aa.alias(LocationOf(s, s.sets[x].pointers[0]), loc) != NoAlias) ==> Aliases(aa, s, x, loc)
    ensures forall v :: s.sets[x].may && v in s.sets[x].pointers && v in s.records && aa.alias(loc, LocationOf(s, v)) != NoAlias ==>
              Aliases(aa, s, x, loc)
    ensures forall i :: s.sets[x].may && i in s.sets[x].unknownInsts && aa.touches(i, loc) ==> Aliases(aa, s, x, loc)
  {
    forall v | s.sets[x].may && v in s.sets[x].pointers && v in s.records && aa.alias(loc, LocationOf(s, v)) != NoAlias
      ensures Aliases(aa, s, x, loc)
    {
      var k :| 0 <= k < |s.sets[x].pointers| && s.sets[x].pointers[k] == v;
      assert PointerAliases(aa, s, s.sets[x].pointers[k], loc);
    }
  }

  lemma JoinedIsJoins(aa: Analysis, s: State, t: State, loc: Location, f: nat)
    requires Forest(t) && JoinedBy(s, t, Hits(aa, s, loc), f)
    ensures Joins(aa, s, t, loc, f)
  {
    hide Forest, Aliases, MovedTo, Stays;
    forall x | IsRoot(s, x) ensures if Aliases(aa, s, x, loc) then MovedTo(s, t, x, f) else Stays(s, t, x) {
      assert x in Hits(aa, s, loc) <==> Aliases(aa, s, x, loc);
    }
    hide Hits;
    forall x | IsRoot(s, x)
      ensures s.sets[x].any ==> MovedTo(s, t, x, f)
      ensures (&& !s.sets[x].may && s.sets[x].pointers != [] && s.sets[x].pointers[0] in s.records
               && aa.alias(LocationOf(s, s.sets[x].pointers[0]), loc) != NoAlias) ==> MovedTo(s, t, x, f)
      ensures forall v :: s.sets[x].may && v in s.sets[x].pointers && v in s.records && aa.alias(loc, LocationOf(s, v)) != NoAlias ==>
                MovedTo(s, t, x, f)
      ensures forall i :: s.sets[x].may && i in s.sets[x].unknownInsts && aa.touches(i, loc) ==> MovedTo(s, t, x, f)
    {
      AliasesAnyway(aa, s, x, loc);
    }
    forall x | IsRoot(s, x) && !s.sets[x].any
      && (!s.sets[x].may && s.sets[x].pointers != [] && s.sets[x].pointers[0] in s.records ==>
            aa.alias(LocationOf(s, s.sets[x].pointers[0]), loc) == NoAlias)
      && (s.sets[x].may ==> forall v :: v in s.sets[x].pointers && v in s.records ==> aa.alias(loc, LocationOf(s, v)) == NoAlias)
      && (s.sets[x].may ==> forall i :: i in s.sets[x].unknownInsts ==> !aa.touches(i, loc))
      ensures Stays(s, t, x)
    {
      ToldApart(aa, s, x, loc);
    }
  }

  lemma ToldApart(aa: Analysis, s: State, x: nat, loc: Location)
    requires x in s.sets && !s.sets[x].any
    requires !s.sets[x].may && s.sets[x].pointers != [] && s.sets[x].pointers[0] in s.records ==>
               aa.alias(LocationOf(s, s.sets[x].pointers[0]), loc) == NoAlias
    requires s.sets[x].may ==> forall v :: v in s.sets[x].pointers && v in s.records ==> aa.alias(loc, LocationOf(s, v)) == NoAlias
    requires s.sets[x].may ==> forall i :: i in s.sets[x].unknownInsts ==> !aa.touches(i, loc)
    ensures !Aliases(aa, s, x, loc)
  {
  }

  lemma JoinedIsJoinsInst(aa: Analysis, s: State, t: State, inst: nat, f: nat)
    requires Forest(t) && JoinedBy(s, t, InstHits(aa, s, inst), f) && aa.mayAccess(inst)
    ensures JoinsInst(aa, s, t, inst, f)
  {
    hide Forest, AliasesInst, MovedTo, Stays;
    forall x | IsRoot(s, x) ensures if AliasesInst(aa, s, x, inst) then MovedTo(s, t, x, f) else Stays(s, t, x) {
      assert x in InstHits(aa, s, inst) <==> AliasesInst(aa, s, x, inst);
    }
    hide InstHits;
    forall x | IsRoot(s, x)
      ensures s.sets[x].any ==> MovedTo(s, t, x, f)
      ensures forall i :: i in s.sets[x].unknownInsts && aa.interact(i, inst) ==> MovedTo(s, t, x, f)
      ensures forall v :: v in s.sets[x].pointers && v in s.records && aa.touches(inst, LocationOf(s, v)) ==> MovedTo(s, t, x, f)
      ensures (&& !s.sets[x].any && (forall i :: i in s.sets[x].unknownInsts ==> !aa.interact(i, inst))
               && (forall v :: v in s.sets[x].pointers && v in s.records ==> !aa.touches(inst, LocationOf(s, v)))) ==> Stays(s, t, x)
    {
      InstAnyway(aa, s, x, inst);
    }
  }

  lemma InstAnyway(aa: Analysis, s: State, x: nat, inst: nat)
    requires x in s.sets && aa.mayAccess(inst)
    ensures s.sets[x].any ==> AliasesInst(aa, s, x, inst)
    ensures forall i :: i in s.sets[x].unknownInsts && aa.interact(i, inst) ==> AliasesInst(aa, s, x, inst)
    ensures forall v :: v in s.sets[x].pointers && v in s.records && aa.touches(inst, LocationOf(s, v)) ==> AliasesInst(aa, s, x, inst)
    ensures (&& !s.sets[x].any && (forall i :: i in s.sets[x].unknownInsts ==> !aa.interact(i, inst))
             && (forall v :: v in s.sets[x].pointers && v in s.records ==> !aa.touches(inst, LocationOf(s, v)))) ==>
              !AliasesInst(aa, s, x, inst)
  {
    forall v | v in s.sets[x].pointers && v in s.records && aa.touches(inst, LocationOf(s, v)) ensures AliasesInst(aa, s, x, inst) {
      var k :| 0 <= k < |s.sets[x].pointers| && s.sets[x].pointers[k] == v;
      assert PointerTouched(aa, s, s.sets[x].pointers[k], inst);
    }
  }

  // ---- From merging to joining ----

  /** Sets that have been merged have been joined. */
  lemma GatheredJoins(s: State, t: State, hits: set<nat>, f: nat)
    requires Forest(s) && Listed(s) && Forest(t) && Listed(t) && Gathered(s, t, hits, Some(f))
    ensures JoinedBy(s, t, hits, f)
  {
    hide Forest, Resolve, SetLists, RecordListed, FirstKept, Listed, Gathered, AllOf;
    forall x | IsRoot(s, x) ensures if x in hits then MovedTo(s, t, x, f) else Stays(s, t, x) {
      GatheredJoinsOne(s, t, hits, f, x);
    }
    GatheredRoots(s, t, hits, Some(f));
  }

  lemma GatheredRoots(s: State, t: State, hits: set<nat>, found: Option<nat>)
    requires Forest(s) && Forest(t) && Gathered(s, t, hits, found)
    ensures forall y :: IsRoot(t, y) ==> IsRoot(s, y)
  {
    hide Forest, Resolve, GatheredChains, AllOf, FirstKept;
  }

  lemma GatheredJoinsOne(s: State, t: State, hits: set<nat>, f: nat, x: nat)
    requires Forest(s) && Listed(s) && Forest(t) && Listed(t) && Gathered(s, t, hits, Some(f)) && IsRoot(s, x)
    ensures if x in hits then MovedTo(s, t, x, f) else Stays(s, t, x)
  {
    hide Forest, Resolve, FirstKept;
    RootResolves(s, x);
    if x in hits {
      assert SetLists(s, x);
      forall v | v in s.sets[x].pointers ensures EndsIn(t, v, f) {
        assert RecordListed(t, v);
      }
      forall i | i in s.sets[x].unknownInsts ensures i in t.sets[f].unknownInsts {
        assert HasUnknown(s, x, i);
      }
    }
  }

  lemma GatheredNoneJoins(s: State, t: State, f: nat)
    requires Forest(s) && Forest(t) && Gathered(s, t, {}, None)
    ensures JoinedBy(s, t, {}, f)
  {
    hide Forest, Resolve, GatheredChains;
    GatheredRoots(s, t, {}, None);
  }

  /** A pointer or an instruction has been put into `f`, records have been moved to the ends of their
      chains, or a set has been made: what was in a root still is. */
  ghost predicate Carries(t: State, u: State, f: nat)
    requires Forest(t) && Forest(u)
  {
    && SameChains(t, u)
    && (forall v :: v in t.records && t.records[v].home in t.sets ==> EndsIn(u, v, Resolve(t, t.records[v].home)))
    && (forall x :: IsRoot(t, x) ==> IsRoot(u, x) && t.sets[x].unknownInsts <= u.sets[x].unknownInsts)
    && (forall y :: y in u.sets && y !in t.sets ==> y >= t.next)
    && (forall x :: IsRoot(t, x) && x != f ==> SameBut(t.sets[x], u.sets[x]))
    && forall y :: IsRoot(u, y) && y != f ==> IsRoot(t, y)
  }

  lemma JoinedCarries(s: State, t: State, u: State, xs: set<nat>, f: nat)
    requires Shape(s) && Forest(t) && Forest(u) && JoinedBy(s, t, xs, f) && Carries(t, u, f) && t.next == s.next
    requires f in xs || f !in s.sets
    ensures JoinedBy(s, u, xs, f)
  {
    hide Forest, Resolve, Carries, JoinedBy, MovedTo, Stays, Shape;
    forall x | IsRoot(s, x) ensures if x in xs then MovedTo(s, u, x, f) else Stays(s, u, x) {
      if x in xs {
        MovedCarries(s, t, u, xs, x, f);
      } else {
        StaysCarries(s, t, u, xs, x, f);
      }
    }
    OnlyRoots(s, t, u, xs, f);
    assert JoinedBy(s, u, xs, f) by { AllJoined(s, u, xs, f); }
  }

  lemma AllJoined(s: State, u: State, xs: set<nat>, f: nat)
    requires Forest(u) && forall x :: IsRoot(s, x) ==> if x in xs then MovedTo(s, u, x, f) else Stays(s, u, x)
    requires forall y :: IsRoot(u, y) && y != f ==> IsRoot(s, y)
    ensures JoinedBy(s, u, xs, f)
  {
    hide Forest, MovedTo, Stays;
  }

  lemma OnlyRoots(s: State, t: State, u: State, xs: set<nat>, f: nat)
    requires Forest(t) && Forest(u) && JoinedBy(s, t, xs, f) && Carries(t, u, f)
    ensures forall y :: IsRoot(u, y) && y != f ==> IsRoot(s, y)
  {
    hide Forest, Resolve, MovedTo, Stays, SameBut;
  }

  lemma MovedCarries(s: State, t: State, u: State, xs: set<nat>, x: nat, f: nat)
    requires Shape(s) && Forest(t) && Forest(u) && JoinedBy(s, t, xs, f) && Carries(t, u, f) && t.next == s.next
    requires IsRoot(s, x) && x in xs
    ensures MovedTo(s, u, x, f)
  {
    hide Forest, Resolve, Increasing, Stays;
    assert MovedTo(s, t, x, f);
  }

  lemma StaysCarries(s: State, t: State, u: State, xs: set<nat>, x: nat, f: nat)
    requires Forest(t) && Forest(u) && JoinedBy(s, t, xs, f) && Carries(t, u, f)
    requires IsRoot(s, x) && x !in xs && (f in xs || f !in s.sets)
    ensures Stays(s, u, x)
  {
    hide Forest, Resolve, MovedTo;
    assert Stays(s, t, x);
    SameButTrans(s.sets[x], t.sets[x], u.sets[x]);
  }

  lemma ExtendedCarries(t: State, u: State, x: nat, v: nat)
    requires Forest(t) && Forest(u) && Listed(t) && Extended(t, u, x, v)
    ensures Carries(t, u, x)
  {
    hide Forest, Resolve, SetLists;
    forall w | w in t.records && t.records[w].home in t.sets ensures EndsIn(u, w, Resolve(t, t.records[w].home)) {
    }
  }

  lemma NotedCarries(t: State, u: State, x: nat, inst: nat)
    requires Forest(t) && Forest(u) && Noted(t, u, x, inst)
    ensures Carries(t, u, x)
  {
    hide Forest, Resolve;
  }

  lemma EquivalentCarries(t: State, u: State, f: nat)
    requires Forest(t) && Forest(u) && Equivalent(t, u)
    ensures Carries(t, u, f)
  {
    hide Forest, Resolve;
    forall w | w in t.records && t.records[w].home in t.sets ensures EndsIn(u, w, Resolve(t, t.records[w].home)) {
      assert SameEnd(t, u, w);
    }
  }

  lemma PushedCarries(t: State, u: State, a: AliasSet, f: nat)
    requires Shape(t) && Forest(t) && Forest(u) && u == Pushed(t, a, t.any) && SameChains(t, u) && f == t.next
    ensures Carries(t, u, f)
  {
    hide Forest, Resolve, Increasing;
  }

  lemma CarriesTrans(t: State, u: State, w: State, f: nat)
    requires Forest(t) && Forest(u) && Forest(w) && Carries(t, u, f) && Carries(u, w, f) && u.next >= t.next
    requires forall y :: y in t.sets && y in w.sets ==> y in u.sets
    ensures Carries(t, w, f)
  {
    hide Forest, Resolve, SameChains;
    SameChainsTrans(t, u, w);
    forall v | v in t.records && t.records[v].home in t.sets ensures EndsIn(w, v, Resolve(t, t.records[v].home)) {
      assert EndsIn(u, v, Resolve(t, t.records[v].home));
    }
    forall x | IsRoot(t, x) && x != f ensures SameBut(t.sets[x], w.sets[x]) {
      SameButTrans(t.sets[x], u.sets[x], w.sets[x]);
    }
  }

  // ---- The set a pointer is put in ----

  /** A new pointer is the last of a set that has all that was in the sets it joined, and nothing
      else; that is the oldest of them, or a new one. */
  ghost predicate Newly(aa: Analysis, s: State, t: State, v: nat, size: nat, r: nat)
  {
    var near := Hits(aa, s, Location(v, size));
    && (if near == {} then r == s.next else r in near && forall x :: x in near ==> r <= x)
    && r in t.sets && (near != {} ==> r in s.sets && FirstKept(s.sets[r], t.sets[r]))
    && t.sets[r].pointers != [] && t.sets[r].pointers[|t.sets[r].pointers| - 1] == v
    && AllOf(s, near, t.sets[r].(pointers := t.sets[r].pointers[..|t.sets[r].pointers| - 1]))
    && (exists may :: MayOfAll(aa, s, near, r, may) && (t.sets[r].may <==> may || NotMust(aa, s, t.sets[r].pointers[0], v, size)))
    && v in t.records && t.records[v].size == size
    && forall w | w in s.records ::
         w in t.records && t.records[w].size == if !t.sets[r].may && w == t.sets[r].pointers[0] && size > s.records[w].size
                                                then size else s.records[w].size
  }

  /** The location of a pointer that is not new need not be that of the new one. */
  predicate NotMust(aa: Analysis, s: State, first: nat, v: nat, size: nat) {
    first in s.records && aa.alias(LocationOf(s, first), Location(v, size)) != MustAlias
  }

  /** Where a pointer is put: if it is new, in a set that all the sets it may alias now are in; if it
      is known and larger than before, all the sets that it now may alias are in one; otherwise all
      sets are as they were. */
  ghost predicate PutIn(aa: Analysis, s: State, t: State, v: nat, size: nat, r: nat)
    requires Forest(s) && Forest(t)
  {
    if v !in s.records then Joins(aa, s, t, Location(v, size), r) && Newly(aa, s, t, v, size, r)
    else
      && v in t.records && t.records[v].size == (if size > s.records[v].size then size else s.records[v].size)
      && (forall w :: w in s.records && w != v ==> w in t.records && t.records[w].size == s.records[w].size)
      && if size > s.records[v].size then
           exists f :: Joins(aa, Resized(s, v, size), t, Location(v, size), f) && Grown(aa, Resized(s, v, size), t, Location(v, size), f)
         else (forall x :: IsRoot(s, x) ==> Stays(s, t, x)) && forall y :: IsRoot(t, y) ==> IsRoot(s, y)
  }

  /** The sets that a known pointer may alias have gone into the oldest of them, which now has all they
      had, and nothing else. */
  ghost predicate Grown(aa: Analysis, s: State, t: State, loc: Location, f: nat) {
    var near := Hits(aa, s, loc);
    if near == {} then f == s.next && f !in t.sets
    else
      && f in near && (forall x :: x in near ==> f <= x) && f in s.sets && f in t.sets
      && AllOf(s, near, t.sets[f]) && MayOfAll(aa, s, near, f, t.sets[f].may) && FirstKept(s.sets[f], t.sets[f])
  }

  /** An instruction is the last of a set that has all that was in the sets it joined, and nothing
      else; that is the oldest of them, or a new one.  The set is read, and written if the instruction
      may write. */
  ghost predicate NewlyInst(aa: Analysis, s: State, t: State, inst: nat, x: nat) {
    var near := InstHits(aa, s, inst);
    && t.records == s.records && t.any == s.any
    && (if near == {} then x == s.next else x in near && forall y :: y in near ==> x <= y)
    && x in t.sets && t.sets[x].unknownInsts != [] && t.sets[x].unknownInsts[|t.sets[x].unknownInsts| - 1] == inst && t.sets[x].may
    && exists access ::
         && AllOf(s, near, t.sets[x].(unknownInsts := t.sets[x].unknownInsts[..|t.sets[x].unknownInsts| - 1], access := access))
         && t.sets[x].access == Access(true, access.mod || aa.mayWrite(inst))
  }

  /** The set notes another access. */
  function WithAccess(s: State, x: nat, access: Access): State
    requires x in s.sets
  {
    SetSet(s, x, s.sets[x].(access := Access(s.sets[x].access.ref || access.ref, s.sets[x].access.mod || access.mod)))
  }

  /** A new pointer has been compared with the first of the set, unless all may alias already or it is
      known to alias: either all may alias now, or the first is now as large as the new one. */
  ghost predicate Compared(aa: Analysis, s: State, t: State, x: nat, v: nat, size: nat, knownMustAlias: bool) {
    && x in s.sets && x in t.sets
    && (t.sets[x].may <==> s.sets[x].may
                           || (!knownMustAlias && s.sets[x].pointers != [] && NotMust(aa, s, s.sets[x].pointers[0], v, size)))
    && forall w | w in s.records ::
         w in t.records
         && t.records[w].size == if && !t.sets[x].may && !knownMustAlias && s.sets[x].pointers != [] && w == s.sets[x].pointers[0]
                                    && size > s.records[w].size
                                 then size else s.records[w].size
  }

  /** Only the list of the root `x` has changed, to these pointers, unless the set has gone. */
  ghost predicate OnlyList(s: State, t: State, x: nat, pointers: seq<nat>) {
    && x in s.sets && (forall y :: IsRoot(s, y) && y != x ==> Stays(s, t, y)) && (forall y :: IsRoot(t, y) ==> IsRoot(s, y))
    && (x in t.sets ==> IsRoot(t, x) && SameBut(s.sets[x].(pointers := pointers), t.sets[x]))
  }

  predicate SizesKept(s: State, t: State, v: nat) {
    forall w | w in s.records && w != v :: w in t.records && t.records[w].size == s.records[w].size
  }

  lemma OnlyListTrans(s: State, s1: State, t: State, x: nat, pointers: seq<nat>)
    requires Forest(s) && Forest(s1) && Equivalent(s, s1) && IsRoot(s, x) && OnlyList(s1, t, x, pointers)
    ensures OnlyList(s, t, x, pointers)
  {
    hide Forest, Resolve, SameChains;
    forall y | IsRoot(s, y) && y != x ensures Stays(s, t, y) {
      assert Stays(s1, t, y);
    }
  }

  lemma ForgottenList(s: State, t: State, v: nat, x: nat)
    requires Forest(s) && v in s.records && s.records[v].home in s.sets && x == Resolve(s, s.records[v].home) && IsRoot(s, x)
    requires Forest(Forgotten(s, v)) && x in Forgotten(s, v).sets && Shrunk(Forgotten(s, v), t, x)
    ensures OnlyList(s, t, x, DropPointer(s.sets[x].pointers, v)) && SizesKept(s, t, v)
  {
    hide Forest, Resolve, DropPointer;
    var u := Forgotten(s, v);
    forall y | IsRoot(s, y) && y != x ensures Stays(s, t, y) {
      assert !Gone(u, x, y);
    }
  }

  lemma ExtendedList(s: State, t: State, x: nat, v: nat)
    requires Forest(s) && Forest(t) && Extended(s, t, x, v) && t.sets[x].may == s.sets[x].may
    ensures OnlyList(s, t, x, s.sets[x].pointers + [v])
  {
    hide Forest, SameChains;
  }

  /** In a saturated tracker a new pointer is put at the end of the one list, and nothing else happens. */
  ghost predicate PutInOnly(s: State, t: State, v: nat) {
    && s.any.Some? && s.any.value in s.sets
    && if v in s.records then (forall x :: IsRoot(s, x) ==> Stays(s, t, x)) && forall y :: IsRoot(t, y) ==> IsRoot(s, y)
       else s.any.value in t.sets && OnlyList(s, t, s.any.value, s.sets[s.any.value].pointers + [v])
  }
}
