/** The alias set tracker. */
module AliasSetTracking {
  import opened AliasSetForest
  import opened AliasSetSteps
  import opened AliasSetReferences
  import opened AliasSetMerging
  import opened AliasSetInstructions
  import opened AliasSetJoining

  /** The set is taken to alias everything and to be read and written. */
  predicate Everything(a: AliasSet) {
    a.any && a.may && a.access == Access(true, true)
  }

  class AliasSetTracker {
    const aa: Analysis
    var sets: map<nat, AliasSet>
    var order: seq<nat>
    var records: map<nat, PointerRec>
    var any: Option<nat>
    var next: nat

    ghost function S(): State
      reads this
    {
      State(sets, order, records, any, next)
    }

    constructor (aa: Analysis)
      ensures Valid(S()) && S() == State(map[], [], map[], None, 0) && this.aa == aa
    {
      this.aa := aa;
      sets, order, records, any, next := map[], [], map[], None, 0;
    }

    // ---- References ----

    method AddRef(x: nat, ghost held: multiset<nat>)
      requires Invariant(S(), held) && x in sets
      modifies this`sets
      ensures S() == WithCount(old(S()), x, old(sets[x].refCount) + 1) && Invariant(S(), Plus(held, x))
    {
      hide Invariant;
      CountUp(S(), held, x);
      sets := sets[x := sets[x].(refCount := sets[x].refCount + 1)];
    }

    /** Gives up a reference; a set that has none left is removed. */
    method DropRef(x: nat, ghost held: multiset<nat>)
      requires Invariant(S(), held) && held[x] > 0 && Alive(S(), {})
      modifies this`sets, this`order
      ensures x in old(sets) && Invariant(S(), Minus(held, x)) && Alive(S(), {}) && Shrunk(old(S()), S(), x)
      decreases |sets|, 1
    {
      hide Shape, Listed, Counted, Resolve, Shrunk, ForwardsBack;
      ghost var s := S();
      CountDown(s, held, x);
      sets := sets[x := sets[x].(refCount := sets[x].refCount - 1)];
      ghost var s1 := S();
      if sets[x].refCount == 0 {
        RemoveAliasSet(x, Minus(held, x));
        ShrunkAfterCount(s, s1, S(), x, 0);
      } else {
        ShrunkByCount(s, x, sets[x].refCount);
      }
    }

    /** Takes a set without references out of the list. */
    method RemoveAliasSet(x: nat, ghost held: multiset<nat>)
      requires x in sets && sets[x].refCount == 0 && Invariant(S(), held) && Alive(S(), {x})
      modifies this`sets, this`order
      ensures Invariant(S(), held) && Alive(S(), {}) && Shrunk(old(S()), S(), x)
      decreases |sets|, 0
    {
      hide Shape, Listed, Counted, Resolve, Shrunk, ForwardsBack, Without;
      ghost var s := S();
      Removed(s, held, x);
      var fwd := sets[x].forward;
      sets, order := sets - {x}, Without(order, x);
      assert S() == Remove(s, x);
      if fwd.Some? {
        PlusMinus(held, fwd.value);
        DropRef(fwd.value, Plus(held, fwd.value));
        ShrunkAfterRemoval(s, S(), x);
      } else {
        ShrunkByRemoval(s, x);
      }
    }

    /** The end of the forwarding chain; on the way back every set is pointed directly to it. */
    method GetForwardedTarget(x: nat, ghost held: multiset<nat>) returns (dest: nat)
      requires Invariant(S(), held) && Alive(S(), {}) && x in sets
      modifies this`sets, this`order
      ensures dest == Resolve(old(S()), x) && Invariant(S(), held) && Alive(S(), {})
      ensures Compacted(old(S()), S(), x) && x in sets
      ensures old(sets[x]).forward.None? ==> S() == old(S())
      decreases Rank(S(), x)
    {
      hide Shape, Listed, Counted, Shrunk, Compacted, Redirected, Alive;
      ghost var s := S();
      if sets[x].forward.None? {
        CompactedItself(s, x);
        return x;
      }
      var forward := sets[x].forward.value;
      NextResolves(s, x);
      BackAt(s, x);
      dest := GetForwardedTarget(forward, held);
      if dest == forward {
        ResolvedAtOnce(s, S(), x, forward);
        return;
      }
      ghost var s1 := S();
      CompactedKeeps(s, s1, x, forward);
      AddRef(dest, held);
      ghost var s2 := S();
      RedirectedStep(s, s1, x, dest, held);
      sets := sets[x := sets[x].(forward := Some(dest))];
      ghost var s3 := S();
      PlusMinus(held, dest);
      PlusMinus(held, forward);
      DropRef(forward, Plus(held, forward));
      CompactedStep(s, s1, s3, S(), x, forward, dest);
    }

    /** The set a record is in; if its home has been merged, the record is moved to the end. */
    method GetAliasSet(v: nat) returns (r: nat)
      requires Invariant(S(), multiset{}) && Alive(S(), {}) && v in records
      modifies this`sets, this`order, this`records
      ensures Invariant(S(), multiset{}) && Alive(S(), {}) && Equivalent(old(S()), S())
      ensures v in records && records[v].home == r && IsRoot(S(), r)
      ensures old(records[v].home) in old(sets) && r == Resolve(old(S()), old(records[v].home))
    {
      hide Shape, Listed, Counted, Shrunk, Compacted, Equivalent, Alive, ForwardsBack, Resolve;
      ghost var s, none := S(), multiset{};
      HomeListed(s, v);
      EquivalentItself(s);
      var oldHome := records[v].home;
      if sets[oldHome].forward.None? {
        RootResolves(s, oldHome);
        return oldHome;
      }
      r := GetForwardedTarget(oldHome, none);
      ghost var s1 := S();
      CompactedIsEquivalent(s, s1, oldHome);
      CompactedRecords(s, s1, oldHome);
      RehomedNow(s1, v);
      AddRef(r, none);
      records := records[v := records[v].(home := r)];
      ghost var s3 := S();
      PlusMinus(none, oldHome);
      DropRef(oldHome, Plus(none, oldHome));
      RehomedStep(s1, s3, S(), v);
      EquivalentTrans(s, s1, S());
      HomeListed(S(), v);
      RootStays(s1, S(), v, r);
    }

    // ---- Merging ----

    /** Merges `b` into `a`. */
    method MergeSetIn(a: nat, b: nat)
      requires Invariant(S(), multiset{}) && Mergeable(S(), a, b) && Alive(S(), if sets[a].may then {a} else {})
      modifies this`sets, this`order
      ensures Invariant(S(), multiset{}) && Alive(S(), {})
      ensures IsRoot(S(), a) && Merged(old(S()), S(), a, b, sets[a].may) && SameInsts(old(S()), S())
      ensures sets[a].may <==> old(sets[a].may) || old(sets[b].may) || FirstsDiffer(aa, old(S()), a, b)
    {
      hide Invariant, Merged, Absorbed, Alive, SameInsts;
      ghost var s := S();
      var may := WillMayAlias(a, b);
      var hadUnknownInsts := sets[b].unknownInsts != [];
      Absorb(a, b, may);
      AbsorbedInvariant(s, a, b, may);
      InvariantIsForest(S(), if hadUnknownInsts then Plus(multiset{}, b) else multiset{});
      InvariantIsForest(s, multiset{});
      AliveAll(s, a);
      AbsorbedAlive(s, a, b, may);
      if hadUnknownInsts {
        PlusMinus(multiset{}, b);
        ghost var s1 := S();
        DropRef(b, Plus(multiset{}, b));
        InvariantIsForest(S(), multiset{});
        MergedAndShrunk(s, S(), a, b, may);
      } else {
        MergedAtOnce(s, a, b, may);
      }
      MergedInsts(s, S(), a, b, may);
      MergedMay(s, S(), a, b, may);
    }

    /** Sets of pointers that must alias are checked again when they are merged. */
    method WillMayAlias(a: nat, b: nat) returns (may: bool)
      requires Invariant(S(), multiset{}) && IsRoot(S(), a) && IsRoot(S(), b) && Alive(S(), if sets[a].may then {a} else {})
      ensures may <==> sets[a].may || sets[b].may || FirstsDiffer(aa, S(), a, b)
      ensures !may ==> !sets[a].may && !sets[b].may
    {
      hide Homes, Forwarders, Resolve, Counted, Shape;
      may := sets[a].may || sets[b].may;
      if !may {
        MustHaveFirst(S(), a);
        MustHaveFirst(S(), b);
        var l, r := sets[a].pointers[0], sets[b].pointers[0];
        if aa.alias(Location(l, records[l].size), Location(r, records[r].size)) != MustAlias {
          may := true;
        }
      }
    }

    method Absorb(a: nat, b: nat, may: bool)
      requires a in sets && b in sets && a != b && sets[a].forward.None? && sets[b].forward.None?
      modifies this`sets
      ensures S() == Absorbed(old(S()), a, b, may)
    {
      hide Absorbed;
      AbsorbedIs(S(), a, b, may);
      var pointers, unknownInsts, refCount := sets[a].pointers, sets[a].unknownInsts, sets[a].refCount;
      if unknownInsts == [] {
        if sets[b].unknownInsts != [] {
          unknownInsts := sets[b].unknownInsts;
          refCount := refCount + 1;
        }
      } else if sets[b].unknownInsts != [] {
        unknownInsts := unknownInsts + sets[b].unknownInsts;
      }
      refCount := refCount + 1;
      if sets[b].pointers != [] {
        pointers := pointers + sets[b].pointers;
      }
      assert pointers == sets[a].pointers + sets[b].pointers;
      assert unknownInsts == sets[a].unknownInsts + sets[b].unknownInsts;
      var access := Access(sets[a].access.ref || sets[b].access.ref, sets[a].access.mod || sets[b].access.mod);
      var absorber := AliasSet(None, refCount, pointers, unknownInsts, may, access, sets[a].volatile || sets[b].volatile, sets[a].any);
      sets := sets[a := absorber][b := sets[b].(pointers := [], unknownInsts := [], forward := Some(a))];
    }

    /** Takes `cur` as the set that was looked for, or merges it into that. */
    method FindOrMerge(found: Option<nat>, cur: nat, ghost s: State, ghost hits: set<nat>) returns (found': Option<nat>)
      requires Valid(s) && Valid(S()) && Gathered(s, S(), hits, found) && IsRoot(s, cur) && cur !in hits
      requires found.Some? ==> found.value < cur && MayOfAll(aa, s, hits, found.value, sets[found.value].may)
      modifies this`sets, this`order
      ensures Valid(S()) && Gathered(s, S(), hits + {cur}, found') && found'.Some? && SameInsts(old(S()), S())
      ensures found'.value in sets && MayOfAll(aa, s, hits + {cur}, found'.value, sets[found'.value].may)
      ensures found' == if found.Some? then found else Some(cur)
    {
      hide Gathered, Invariant, Merged, Alive, Saturated, Mergeable, HasInst, MayOfAll;
      InvariantIsForest(s, multiset{});
      InvariantIsForest(S(), multiset{});
      if found.None? {
        GatheredEmpty(s, S(), hits);
        GatheredFirst(s, S(), cur);
        assert hits + {cur} == {cur};
        AloneMay(aa, s, S(), cur);
        found' := Some(cur);
      } else {
        ghost var t := S();
        GatheredMergeable(s, t, hits, found.value, cur);
        AliveAll(t, found.value);
        MergeableIsRoot(t, found.value, cur);
        MergeSetIn(found.value, cur);
        InvariantIsForest(S(), multiset{});
        GatheredNext(s, t, S(), hits, found.value, cur, sets[found.value].may);
        GatheredMay(aa, s, t, S(), hits, found.value, cur);
        GatheredSaturated(s, S(), hits + {cur}, found);
        found' := found;
      }
    }

    method AliasesPointer(x: nat, loc: Location) returns (r: bool)
      requires Invariant(S(), multiset{}) && Alive(S(), {}) && IsRoot(S(), x)
      ensures r == Aliases(aa, S(), x, loc)
    {
      hide Homes, Forwarders, Resolve, Counted, Shape;
      ListedRecords(S(), x);
      if sets[x].any {
        return true;
      }
      if !sets[x].may {
        MustHaveFirst(S(), x);
        var some := sets[x].pointers[0];
        return aa.alias(Location(some, records[some].size), loc) != NoAlias;
      }
      for k := 0 to |sets[x].pointers|
        invariant forall j :: 0 <= j < k ==> !PointerAliases(aa, S(), sets[x].pointers[j], loc)
      {
        var p := sets[x].pointers[k];
        if aa.alias(loc, Location(p, records[p].size)) != NoAlias {
          assert PointerAliases(aa, S(), sets[x].pointers[k], loc);
          return true;
        }
      }
      for k := 0 to |sets[x].unknownInsts|
        invariant forall j :: 0 <= j < k ==> !aa.touches(sets[x].unknownInsts[j], loc)
      {
        if aa.touches(sets[x].unknownInsts[k], loc) {
          return true;
        }
      }
      return false;
    }

    method AliasesUnknownInst(x: nat, inst: nat) returns (r: bool)
      requires Invariant(S(), multiset{}) && IsRoot(S(), x)
      ensures r == AliasesInst(aa, S(), x, inst)
    {
      hide Homes, Forwarders, Resolve, Counted, Shape;
      ListedRecords(S(), x);
      if sets[x].any {
        return true;
      }
      if !aa.mayAccess(inst) {
        return false;
      }
      for k := 0 to |sets[x].unknownInsts|
        invariant forall j :: 0 <= j < k ==> !aa.interact(sets[x].unknownInsts[j], inst)
      {
        if aa.interact(sets[x].unknownInsts[k], inst) {
          return true;
        }
      }
      for k := 0 to |sets[x].pointers|
        invariant forall j :: 0 <= j < k ==> !PointerTouched(aa, S(), sets[x].pointers[j], inst)
      {
        var p := sets[x].pointers[k];
        if aa.touches(inst, Location(p, records[p].size)) {
          assert PointerTouched(aa, S(), sets[x].pointers[k], inst);
          return true;
        }
      }
      return false;
    }

    /** Merges all the sets that may alias the location.  The list is walked while sets disappear
        from it: only sets already walked past do. */
    method MergeAliasSetsForPointer(loc: Location) returns (found: Option<nat>)
      requires Valid(S())
      modifies this`sets, this`order
      ensures Valid(S()) && Gathered(old(S()), S(), Hits(aa, old(S()), loc), found) && SameInsts(old(S()), S())
      ensures found.Some? ==> found.value in sets && MayOfAll(aa, old(S()), Hits(aa, old(S()), loc), found.value, sets[found.value].may)
    {
      hide Gathered, Aliases, Saturated, Invariant, Alive, HasInst, MayOfAll, Forest, Listed, Shape, Resolve;
      ghost var s := S();
      InvariantIsForest(s, multiset{});
      GatheredNone(s);
      found := None;
      var list := order;
      ghost var hits: set<nat> := {};
      for i := 0 to |list|
        invariant Valid(S()) && Forest(S()) && Gathered(s, S(), hits, found)
        invariant forall y :: y in hits <==> y in list[..i] && y in Hits(aa, s, loc)
        invariant found.Some? ==> found.value in list[..i]
        invariant found.Some? ==> found.value in sets && MayOfAll(aa, s, hits, found.value, sets[found.value].may)
        invariant SameInsts(s, S())
      {
        var cur := list[i];
        InvariantIsForest(S(), multiset{});
        NotYetWalked(s, S(), hits, found, i);
        if sets[cur].forward.None? {
          AliasesSame(aa, s, S(), hits, found, cur, loc);
          var aliases := AliasesPointer(cur, loc);
          if aliases {
            found := FindOrMerge(found, cur, s, hits);
            hits := hits + {cur};
            InvariantIsForest(S(), multiset{});
          }
        }
      }
      AllWalked(s, list, hits, Hits(aa, s, loc));
    }

    method FindAliasSetForUnknownInst(inst: nat) returns (found: Option<nat>)
      requires Valid(S())
      modifies this`sets, this`order
      ensures Valid(S()) && Gathered(old(S()), S(), InstHits(aa, old(S()), inst), found) && SameInsts(old(S()), S())
      ensures found.Some? ==> found.value in sets && MayOfAll(aa, old(S()), InstHits(aa, old(S()), inst), found.value, sets[found.value].may)
    {
      hide Gathered, AliasesInst, Saturated, Invariant, Alive, HasInst, MayOfAll, Forest, Listed, Shape, Resolve;
      ghost var s := S();
      InvariantIsForest(s, multiset{});
      GatheredNone(s);
      found := None;
      var list := order;
      ghost var hits: set<nat> := {};
      for i := 0 to |list|
        invariant Valid(S()) && Forest(S()) && Gathered(s, S(), hits, found)
        invariant forall y :: y in hits <==> y in list[..i] && y in InstHits(aa, s, inst)
        invariant found.Some? ==> found.value in list[..i]
        invariant found.Some? ==> found.value in sets && MayOfAll(aa, s, hits, found.value, sets[found.value].may)
        invariant SameInsts(s, S())
      {
        var cur := list[i];
        InvariantIsForest(S(), multiset{});
        NotYetWalked(s, S(), hits, found, i);
        if sets[cur].forward.None? {
          AliasesInstSame(aa, s, S(), hits, found, cur, inst);
          var aliases := AliasesUnknownInst(cur, inst);
          if aliases {
            found := FindOrMerge(found, cur, s, hits);
            hits := hits + {cur};
            InvariantIsForest(S(), multiset{});
          }
        }
      }
      AllWalked(s, list, hits, InstHits(aa, s, inst));
    }

    // ---- Pointers and instructions ----

    /** Remembers the larger size. */
    method UpdateSize(v: nat, size: nat) returns (sizeChanged: bool)
      requires Invariant(S(), multiset{}) && v in records
      modifies this`records
      ensures sizeChanged <==> size > old(records[v].size)
      ensures S() == Resized(old(S()), v, if sizeChanged then size else old(records[v].size)) && Invariant(S(), multiset{})
      ensures SameChains(old(S()), S()) && sets == old(sets)
    {
      hide Invariant;
      sizeChanged := size > records[v].size;
      ResizedInvariant(S(), multiset{}, v, if sizeChanged then size else records[v].size);
      if sizeChanged {
        records := records[v := records[v].(size := size)];
      } else {
        assert records[v := records[v].(size := records[v].size)] == records;
      }
    }

    /** Puts a new pointer at the end of the list of a set.  If the pointers of the set must alias,
        the new one is compared with the first; it is not known not to alias. */
    method AddPointerTo(x: nat, v: nat, size: nat, knownMustAlias: bool)
      requires Invariant(S(), multiset{}) && Alive(S(), {x}) && IsRoot(S(), x) && v !in records
      requires !knownMustAlias && !sets[x].may && sets[x].pointers != [] ==>
                 sets[x].pointers[0] in records && aa.alias(LocationOf(S(), sets[x].pointers[0]), Location(v, size)) != NoAlias
      modifies this`sets, this`records
      ensures Invariant(S(), multiset{}) && Alive(S(), {}) && Extended(old(S()), S(), x, v)
      ensures records[v] == PointerRec(size, x)
      ensures Compared(aa, old(S()), S(), x, v, size, knownMustAlias)
    {
      hide Invariant, Touched, Extended, Resolve, Alive, Forest, SameChains, Compared, Added, WithCount;
      ghost var s := S();
      InvariantIsForest(s, multiset{});
      CompareWithFirst(x, v, size, knownMustAlias);
      ghost var s1 := S();
      InvariantIsForest(s1, multiset{});
      TouchedLists(s, s1, x);
      TouchedThenAdded(s, s1, x, v, size);
      AddedIs(s1, x, v, size);
      ComparedStill(aa, s, s1, x, v, size, knownMustAlias);
      AppendPointer(x, v, size);
    }

    method AppendPointer(x: nat, v: nat, size: nat)
      requires x in sets && v !in records
      modifies this`sets, this`records
      ensures S() == Added(WithCount(old(S()), x, old(sets[x]).refCount + 1), x, v, size)
    {
      sets := sets[x := sets[x].(refCount := sets[x].refCount + 1)];
      sets := sets[x := sets[x].(pointers := sets[x].pointers + [v])];
      records := records[v := PointerRec(size, x)];
    }

    /** If the new pointer does not must-alias the first, those of the set may alias from now on;
        otherwise the first is remembered with the larger size. */
    method CompareWithFirst(x: nat, v: nat, size: nat, knownMustAlias: bool)
      requires Invariant(S(), multiset{}) && Alive(S(), {x}) && IsRoot(S(), x) && v !in records
      requires !knownMustAlias && !sets[x].may && sets[x].pointers != [] ==>
                 sets[x].pointers[0] in records && aa.alias(LocationOf(S(), sets[x].pointers[0]), Location(v, size)) != NoAlias
      modifies this`sets, this`records
      ensures Invariant(S(), multiset{}) && Alive(S(), {x}) && Forest(old(S())) && Touched(old(S()), S(), x)
      ensures Compared(aa, old(S()), S(), x, v, size, knownMustAlias)
    {
      hide Shape, Listed, Counted, Touched, Resolve, Alive;
      ghost var s := S();
      TouchedItself(s, x);
      if !sets[x].may && !knownMustAlias && sets[x].pointers != [] {
        var p := sets[x].pointers[0];
        var result := aa.alias(Location(p, records[p].size), Location(v, size));
        if result != MustAlias {
          MayKeeps(s, x);
          sets := sets[x := sets[x].(may := true)];
        } else {
          var _ := UpdateSize(p, size);
          SizeKeeps(s, S(), x);
        }
        assert result != NoAlias;
      }
    }

    /** A new set at the end of the list. */
    method PushSet(a: AliasSet) returns (x: nat)
      requires Valid(S()) && a.forward.None? && a.refCount == 0 && a.pointers == [] && a.unknownInsts == [] && (a.any ==> a.may)
      modifies this`sets, this`order, this`next
      ensures x == old(next) && S() == Pushed(old(S()), a, old(any)) && SameChains(old(S()), S())
      ensures Invariant(S(), multiset{}) && Alive(S(), {x}) && IsRoot(S(), x)
    {
      hide Invariant;
      InvariantIsForest(S(), multiset{});
      SetPushed(S(), multiset{}, a, any);
      x := next;
      sets, order, next := sets[next := a], order + [next], next + 1;
    }

    /** Finds the set a pointer is in, or puts it in one: that of all the sets that may alias it, or
        a new one. */
    method GetAliasSetForPointer(v: nat, size: nat) returns (r: nat)
      requires Valid(S()) && (any.Some? ==> any.value in sets)
      modifies this`sets, this`order, this`records, this`next
      ensures Valid(S()) && any == old(any) && Coarser(old(S()), S())
      ensures records.Keys == old(records.Keys) + {v}
      ensures IsRoot(S(), r) && records[v].home in sets && Resolve(S(), records[v].home) == r
      ensures SameInsts(old(S()), S()) && (any.Some? ==> r == any.value)
      ensures any.None? ==> PutIn(aa, old(S()), S(), v, size, r)
      ensures any.Some? ==> PutInOnly(old(S()), S(), v)
    {
      hide Invariant, Alive, Saturated, Resolve, Coarser, Forest, ForwardsBack, SameInsts, Joins, Newly, Stays, Grown, PutInOnly;
      if any.Some? {
        UseSaturated(v, size);
        r := any.value;
      } else if v in records {
        r := LookUp(v, size);
      } else {
        r := Insert(v, size);
      }
    }

    /** A saturated tracker has only one set, and every pointer is in it. */
    method UseSaturated(v: nat, size: nat)
      requires Valid(S()) && any.Some? && any.value in sets
      modifies this`sets, this`order, this`records
      ensures Valid(S()) && any == old(any) && Coarser(old(S()), S()) && records.Keys == old(records.Keys) + {v}
      ensures IsRoot(S(), any.value) && records[v].home in sets && Resolve(S(), records[v].home) == any.value
      ensures SameInsts(old(S()), S()) && PutInOnly(old(S()), S(), v)
    {
      hide Stays, OnlyList, Compared, Invariant, Alive, Saturated, Resolve, Extended, Equivalent, Coarser, Forest, Shape, Listed, SameChains, SetLists, HasInst;
      ghost var s := S();
      InvariantIsForest(s, multiset{});
      AnyMayAlias(s);
      if v in records {
        var _ := UpdateSize(v, size);
        ghost var s1 := S();
        InvariantIsForest(s1, multiset{});
        AfterResized(s, v, s1.records[v].size);
        SaturatedIsOneSet(s1, v);
        var home := GetAliasSet(v);
        assert home == any.value;
        InvariantIsForest(S(), multiset{});
        AfterEquivalent(s1, S());
        EquivalentInsts(s1, S());
        SameSetsSameInsts(s, s1);
        CoarserTrans(s, s1, S());
        RootResolves(S(), home);
        ResizedStays(s, v, s1.records[v].size, S());
      } else {
        AliveAll(s, any.value);
        AddPointerTo(any.value, v, size, false);
        InvariantIsForest(S(), multiset{});
        AfterExtended(s, S(), any.value, v);
        ExtendedInsts(s, S(), any.value, v);
        MayStill(s, S(), any.value, v);
        ExtendedList(s, S(), any.value, v);
      }
    }

    /** A new pointer goes into the set of all the sets that may alias it, or into a new set. */
    method Insert(v: nat, size: nat) returns (r: nat)
      requires Valid(S()) && any.None? && v !in records
      modifies this`sets, this`order, this`records, this`next
      ensures Valid(S()) && any == old(any) && Coarser(old(S()), S()) && records.Keys == old(records.Keys) + {v}
      ensures IsRoot(S(), r) && records[v].home in sets && Resolve(S(), records[v].home) == r
      ensures SameInsts(old(S()), S())
      ensures Joins(aa, old(S()), S(), Location(v, size), r) && Newly(aa, old(S()), S(), v, size, r)
    {
      hide Invariant, Alive, Saturated, Resolve, Extended, Gathered, Coarser, Hits, SameInsts, Joins, Newly, JoinedBy, Carries,
           MayOfAll, SameChains, Forest, Listed, Shape, Compared;
      ghost var s := S();
      InvariantIsForest(s, multiset{});
      var loc := Location(v, size);
      var found := MergeAliasSetsForPointer(loc);
      ghost var s1 := S();
      InvariantIsForest(s1, multiset{});
      AfterGathered(s, s1, Hits(aa, s, loc), found);
      if found.Some? {
        r := found.value;
        FoundAliases(aa, s, s1, r, loc);
        AliveAll(s1, r);
        AddPointerTo(r, v, size, false);
        InvariantIsForest(S(), multiset{});
        AfterExtended(s1, S(), r, v);
        ExtendedInsts(s1, S(), r, v);
        JoinedFound(aa, s, s1, S(), v, size, r);
      } else {
        r := PushSet(EMPTYSET);
        InvariantIsForest(S(), multiset{});
        ghost var s2 := S();
        AddPointerTo(r, v, size, false);
        InvariantIsForest(S(), multiset{});
        AfterPushed(s1, s2, S(), r, v);
        PushedInsts(s1, s2, EMPTYSET);
        ExtendedInsts(s2, S(), r, v);
        SameInstsTrans(s1, s2, S());
        JoinedNew(aa, s, s1, s2, S(), v, size, r);
      }
      CoarserTrans(s, s1, S());
      SameInstsTrans(s, s1, S());
    }

    /** A pointer that is known already.  If it is now accessed with a larger size, sets may have to
        be merged. */
    method LookUp(v: nat, size: nat) returns (r: nat)
      requires Valid(S()) && any.None? && v in records
      modifies this`sets, this`order, this`records
      ensures Valid(S()) && any == old(any) && Coarser(old(S()), S()) && records.Keys == old(records.Keys)
      ensures IsRoot(S(), r) && records[v].home in sets && Resolve(S(), records[v].home) == r
      ensures SameInsts(old(S()), S())
      ensures PutIn(aa, old(S()), S(), v, size, r)
    {
      hide Invariant, Alive, Saturated, Resolve, Gathered, Equivalent, Coarser, Hits, Forest, Shape, Listed, SameChains, SameInsts,
           Joins, Stays, MayOfAll, Grown, HasInst, Compacted, SetLists, Counted, Hits, JoinedBy;
      ghost var s := S();
      InvariantIsForest(s, multiset{});
      var sizeChanged := UpdateSize(v, size);
      ghost var s1, into := S(), next;
      InvariantIsForest(s1, multiset{});
      AfterResized(s, v, s1.records[v].size);
      SameSetsSameInsts(s, s1);
      if sizeChanged {
        var found := MergeAliasSetsForPointer(Location(v, size));
        InvariantIsForest(S(), multiset{});
        AfterGathered(s1, S(), Hits(aa, s1, Location(v, size)), found);
        CoarserTrans(s, s1, S());
        SameInstsTrans(s, s1, S());
        JoinedGrown(aa, s1, S(), Location(v, size), found);
        into := if found.Some? then found.value else next;
      }
      ghost var s2 := S();
      var home := GetAliasSet(v);
      InvariantIsForest(S(), multiset{});
      AfterEquivalent(s2, S());
      CoarserTrans(s, s2, S());
      EquivalentInsts(s2, S());
      SameInstsTrans(s, s2, S());
      RootResolves(S(), home);
      if sizeChanged {
        JoinsStill(aa, s1, s2, S(), Location(v, size), into);
      } else {
        SameSize(s, v);
        EquivalentStays(s, S());
      }
      AllSameSizes(s2, S());
      r := GetForwardedTarget(home, multiset{});
    }

    method AddUnknownInst(x: nat, inst: nat)
      requires Invariant(S(), multiset{}) && Alive(S(), {x}) && IsRoot(S(), x)
      modifies this`sets
      ensures Invariant(S(), multiset{}) && Alive(S(), {}) && Noted(old(S()), S(), x, inst)
      ensures sets[x].access == Access(true, old(sets[x].access.mod) || aa.mayWrite(inst))
    {
      hide Invariant, Alive, Noted, Forest;
      var access := if aa.mayWrite(inst) then Access(true, true) else Access(true, sets[x].access.mod);
      ghost var a := sets[x].(may := true, access := access);
      NotedStep(S(), x, a, inst);
      var refCount := if sets[x].unknownInsts == [] then sets[x].refCount + 1 else sets[x].refCount;
      sets := sets[x := sets[x].(may := true, access := access, refCount := refCount,
                                 unknownInsts := sets[x].unknownInsts + [inst])];
    }

    /** An instruction without a known location goes into the set of all the sets it may touch. */
    method AddUnknown(inst: nat)
      requires Valid(S())
      modifies this`sets, this`order, this`next
      ensures Valid(S()) && any == old(any) && Coarser(old(S()), S())
      ensures forall i :: HasInst(S(), i) <==> HasInst(old(S()), i) || (i == inst && aa.mayAccess(inst) && !aa.ignored(inst))
      ensures aa.mayAccess(inst) && !aa.ignored(inst) ==>
                exists x :: IsRoot(S(), x) && JoinsInst(aa, old(S()), S(), inst, x) && NewlyInst(aa, old(S()), S(), inst, x)
      ensures !aa.mayAccess(inst) || aa.ignored(inst) ==> S() == old(S())
    {
      hide Invariant, Alive, Saturated, Resolve, Gathered, Coarser, InstHits, Forest, Noted, Shape, Listed, SameChains, HasInst,
           JoinsInst, NewlyInst, MayOfAll;
      ghost var s := S();
      InvariantIsForest(s, multiset{});
      CoarserItself(s);
      if aa.ignored(inst) || !aa.mayAccess(inst) {
        return;
      }
      var found := FindAliasSetForUnknownInst(inst);
      ghost var s1 := S();
      InvariantIsForest(s1, multiset{});
      AfterGathered(s, s1, InstHits(aa, s, inst), found);
      if found.Some? {
        var x := found.value;
        AliveAll(s1, x);
        AddUnknownInst(x, inst);
        InvariantIsForest(S(), multiset{});
        NotedKeeps(s1, S(), x, inst);
        NotedInsts(s1, S(), x, inst);
        NotedJoins(aa, s, s1, S(), inst, x);
      } else {
        SaturatedFinds(aa, s, s1, inst);
        var x := PushSet(EMPTYSET);
        ghost var s2 := S();
        InvariantIsForest(s2, multiset{});
        PushedIsCoarser(s1, s2);
        PushedUnsaturated(s1, s2);
        AddUnknownInst(x, inst);
        InvariantIsForest(S(), multiset{});
        NotedKeeps(s2, S(), x, inst);
        PushedInsts(s1, s2, EMPTYSET);
        NotedInsts(s2, S(), x, inst);
        CoarserTrans(s1, s2, S());
        NotedNew(aa, s, s1, s2, S(), inst, x);
      }
      CoarserTrans(s, s1, S());
    }

    /** Forgets a pointer.  Its set is removed just if that leaves it without pointers and without
        unknown instructions. */
    method DeleteValue(v: nat)
      requires Valid(S())
      modifies this`sets, this`order, this`records
      ensures Valid(S()) && any == old(any) && records.Keys == old(records.Keys) - {v} && CoarserBut(old(S()), S(), v)
      ensures SameInsts(old(S()), S())
      ensures v in old(records) ==>
                var s := old(S());
                && s.records[v].home in s.sets
                && var x := Resolve(s, s.records[v].home);
                   (x in sets <==> DropPointer(s.sets[x].pointers, v) != [] || s.sets[x].unknownInsts != [])
                   && OnlyList(s, S(), x, DropPointer(s.sets[x].pointers, v)) && SizesKept(s, S(), v)
      ensures v !in old(records) ==> S() == old(S())
    {
      hide Invariant, Alive, Saturated, Resolve, Equivalent, Forest, Shape, Listed, Counted, SameChains, CoarserBut, Shrunk, DropPointer, SameInsts;
      ghost var s := S();
      InvariantIsForest(s, multiset{});
      if v !in records {
        CoarserButItself(s, v);
        SameSetsSameInsts(s, s);
        return;
      }
      var x := GetAliasSet(v);
      ghost var s1 := S();
      InvariantIsForest(s1, multiset{});
      AfterEquivalent(s, s1);
      EquivalentInsts(s, s1);
      SameRootLists(s, s1, x);
      RootResolves(s1, x);
      RecordForgotten(s1, multiset{}, v);
      AliveForgotten(s1, v);
      sets := sets[x := sets[x].(pointers := DropPointer(sets[x].pointers, v))];
      records := records - {v};
      ghost var s2 := S();
      PlusMinus(multiset{}, x);
      InvariantIsForest(s2, Plus(multiset{}, x));
      DropRef(x, Plus(multiset{}, x));
      InvariantIsForest(S(), multiset{});
      PointersOnly(s1, s2, x);
      ShrunkInsts(s2, S(), x);
      SameInstsTrans(s, s1, s2);
      SameInstsTrans(s, s2, S());
      ForgottenThenShrunk(s1, S(), v);
      ForgottenList(s1, S(), v, x);
      OnlyListTrans(s, s1, S(), x, DropPointer(s1.sets[x].pointers, v));
      AllSameSizes(s, s1);
      CoarserThenBut(s, s1, S(), v);
      if x in sets {
        LiveRootHasMember(S(), x);
      }
    }

    /** A copy of a pointer must alias it, and goes into the same set. */
    method CopyValue(v: nat, copy: nat)
      requires Valid(S())
      modifies this`sets, this`order, this`records
      ensures Valid(S()) && any == old(any) && Coarser(old(S()), S()) && SameInsts(old(S()), S())
      ensures records.Keys == old(records.Keys) + if v in old(records) then {copy} else {}
      ensures v in old(records) && copy !in old(records) ==>
                var s := old(S());
                && Together(S(), v, copy) && records[copy].size == s.records[v].size && SizesKept(s, S(), copy)
                && s.records[v].home in s.sets
                && var x := Resolve(s, s.records[v].home); OnlyList(s, S(), x, s.sets[x].pointers + [copy])
      ensures v !in old(records) || copy in old(records) ==> S() == old(S())
    {
      hide Invariant, Alive, Saturated, Resolve, Equivalent, Forest, Shape, Listed, Counted, SameChains, Coarser, Extended, SameInsts;
      ghost var s := S();
      InvariantIsForest(s, multiset{});
      CoarserItself(s);
      SameSetsSameInsts(s, s);
      if v !in records || copy in records {
        return;
      }
      var x := GetAliasSet(v);
      ghost var s1 := S();
      InvariantIsForest(s1, multiset{});
      AfterEquivalent(s, s1);
      SameSizes(s, s1, v);
      AliveAll(s1, x);
      AddPointerTo(x, copy, records[v].size, true);
      InvariantIsForest(S(), multiset{});
      AfterExtended(s1, S(), x, copy);
      ExtendedTogether(s1, S(), x, v, copy);
      CopiedList(aa, s, s1, S(), x, v, copy);
      EquivalentInsts(s, s1);
      ExtendedInsts(s1, S(), x, copy);
      SameInstsTrans(s, s1, S());
      CoarserTrans(s, s1, S());
    }

    // ---- Saturation ----

    /** Merges all sets into a new one that aliases everything.  The sets are visited in the order
        of the list; none of them has been removed by the time it is visited. */
    method MergeAllAliasSets() returns (r: nat)
      requires Valid(S()) && any.None? && order != []
      modifies this`sets, this`order, this`any, this`next
      ensures Valid(S()) && any == Some(r) && IsRoot(S(), r) && Everything(sets[r]) && Coarser(old(S()), S()) && records == old(records)
      ensures forall y :: y in sets && y != r ==> sets[y].forward == Some(r)
      ensures forall v :: v in records ==> EndsIn(S(), v, r)
      ensures SameInsts(old(S()), S())
    {
      hide Invariant, Alive, Saturated, Resolve, Forest, Shape, Listed, MergedUpTo, SameChains, Coarser, EndsIn, SameInsts;
      ghost var s0 := S();
      var list := order;
      InvariantIsForest(s0, multiset{});
      var a := AliasSet(None, 0, [], [], true, Access(true, true), false, true);
      SetPushed(s0, multiset{}, a, Some(next));
      r := next;
      sets, order, any, next := sets[next := a], order + [next], Some(next), next + 1;
      InvariantIsForest(S(), multiset{});
      NothingMergedYet(s0, S(), a);
      ghost var s := s0.(next := next);
      LaterNext(s0, next);
      PushedAlive(s0, a);
      PushedInsts(s0, S(), a);
      for i := 0 to |list|
        invariant Invariant(S(), multiset{}) && Forest(S()) && MergedUpTo(s, S(), r, i) && Alive(S(), if i == 0 then {r} else {})
        invariant r in sets && Everything(sets[r]) && any == Some(r) && records == s.records && next == s.next
        invariant SameInsts(s0, S())
      {
        ghost var t := S();
        VisitNext(s, i, list[i], r);
        SameInstsTrans(s0, t, S());
        InvariantIsForest(S(), multiset{});
      }
      InvariantIsForest(S(), multiset{});
      AllMerged(s, S(), r);
      RootOfUpTo(s, S(), r, |list|);
      OneSetIsCoarser(s, S(), r);
      SameTogether(s0, s, S());
    }

    /** Notes an access through a pointer.  Whether that makes too many pointers is for the caller to
        say; if so, everything is merged. */
    method AddPointer(v: nat, size: nat, access: Access, tooMany: bool) returns (r: nat)
      requires Valid(S()) && (any.Some? ==> any.value in sets)
      modifies this`sets, this`order, this`records, this`any, this`next
      ensures Valid(S()) && Coarser(old(S()), S()) && records.Keys == old(records.Keys) + {v}
      ensures IsRoot(S(), r) && EndsIn(S(), v, r)
      ensures any == if old(any).None? && tooMany then Some(r) else old(any)
      ensures SameInsts(old(S()), S()) && (any.Some? ==> any.value in sets)
      ensures (access.ref ==> sets[r].access.ref) && (access.mod ==> sets[r].access.mod)
      ensures old(any).Some? ==>
                exists u :: PutInOnly(old(S()), u, v) && IsRoot(u, r) && S() == WithAccess(u, r, access)
      ensures old(any).None? && !tooMany ==>
                exists u :: && Valid(u) && PutIn(aa, old(S()), u, v, size, r) && u.records.Keys == old(records.Keys) + {v}
                            && IsRoot(u, r) && S() == WithAccess(u, r, access)
      ensures old(any).None? && tooMany ==> Everything(sets[r]) && forall w :: w in records ==> EndsIn(S(), w, r)
    {
      hide Valid, Resolve, Forest, Coarser, EndsIn, SameInsts, PutIn, PutInOnly;
      ghost var s := S();
      ValidIsForest(s);
      r := GetAliasSetForPointer(v, size);
      ghost var s1 := S();
      ValidIsForest(s1);
      NoteAccess(r, access);
      ValidIsForest(S());
      StillEndsIn(s1, S(), v, r);
      CoarserTrans(s, s1, S());
      SameInstsTrans(s, s1, S());
      if any.None? && tooMany {
        ghost var s2 := S();
        InList(s2, r);
        r := MergeAllAliasSets();
        ValidIsForest(S());
        CoarserTrans(s, s2, S());
        SameInstsTrans(s, s2, S());
      }
    }

    method NoteAccess(r: nat, access: Access)
      requires Valid(S()) && IsRoot(S(), r)
      modifies this`sets
      ensures Valid(S()) && IsRoot(S(), r) && SameChains(old(S()), S()) && Coarser(old(S()), S())
      ensures S() == old(S()).(sets := sets) && sets.Keys == old(sets.Keys)
      ensures old(r in sets) && S() == WithAccess(old(S()), r, access)
      ensures SameInsts(old(S()), S())
    {
      hide Valid, Resolve, Forest, Coarser, SameInsts;
      ghost var s := S();
      AccessKeeps(S(), r, Access(sets[r].access.ref || access.ref, sets[r].access.mod || access.mod));
      sets := sets[r := sets[r].(access := Access(sets[r].access.ref || access.ref, sets[r].access.mod || access.mod))];
      InstsByParts(s, S());
    }

    /** Merges the next set of the list, or, if it forwards, points it to the new set. */
    method VisitNext(ghost s: State, ghost i: nat, cur: nat, r: nat)
      requires Shape(s) && Forest(s) && s.any.None? && i < |s.order| && Invariant(S(), multiset{}) && MergedUpTo(s, S(), r, i)
      requires Alive(S(), if i == 0 then {r} else {}) && r in sets && Everything(sets[r]) && cur == s.order[i]
      modifies this`sets, this`order
      ensures Invariant(S(), multiset{}) && Alive(S(), {}) && MergedUpTo(s, S(), r, i + 1) && r in sets && Everything(sets[r])
      ensures SameInsts(old(S()), S())
    {
      hide Alive, Resolve, Forest, Shape, Listed, MergedUpTo, SameChains, Merged, Shrunk, Counted, Redirected, Mergeable, SameInsts;
      ghost var t := S();
      InvariantIsForest(t, multiset{});
      NextToMerge(s, t, r, i);
      if sets[cur].forward.Some? {
        RepointTo(s, i, cur, r);
      } else {
        AliveAll(t, r);
        MergeableIsRoot(t, r, cur);
        MergeSetIn(r, cur);
        InvariantIsForest(S(), multiset{});
        MergedNextRoot(s, t, S(), r, i, sets[r].may);
        FlagsOfMerged(t, S(), r, cur, sets[r].may);
      }
    }

    /** A set that forwards is pointed to the new set instead. */
    method RepointTo(ghost s: State, ghost i: nat, cur: nat, r: nat)
      requires Shape(s) && Forest(s) && s.any.None? && i < |s.order| && Invariant(S(), multiset{}) && MergedUpTo(s, S(), r, i)
      requires Alive(S(), if i == 0 then {r} else {}) && r in sets && Everything(sets[r])
      requires cur == s.order[i] && cur in sets && sets[cur].forward.Some?
      modifies this`sets, this`order
      ensures Invariant(S(), multiset{}) && Alive(S(), {}) && MergedUpTo(s, S(), r, i + 1) && r in sets && Everything(sets[r])
      ensures SameInsts(old(S()), S())
    {
      hide Alive, Resolve, Forest, Shape, Listed, MergedUpTo, SameChains, Shrunk, Counted, Redirected, Mergeable, SameInsts;
      ghost var t := S();
      InvariantIsForest(t, multiset{});
      NextToMerge(s, t, r, i);
      var fwdTo := sets[cur].forward.value;
      RedirectedStep(t, t, cur, r, multiset{});
      AddRef(r, multiset{});
      sets := sets[cur := sets[cur].(forward := Some(r))];
      ghost var t1 := S();
      InvariantIsForest(t1, Plus(multiset{}, fwdTo));
      RedirectedFacts(t, t1, cur, fwdTo, r);
      PlusMinus(multiset{}, fwdTo);
      DropRef(fwdTo, Plus(multiset{}, fwdTo));
      InvariantIsForest(S(), multiset{});
      MergedNextForwarder(s, t, t1, S(), r, i, fwdTo);
      FlagsOfRoot(s, t1, S(), r, i + 1, fwdTo);
      RedirectedInsts(t, t1, cur, r);
      ShrunkInsts(t1, S(), fwdTo);
      SameInstsTrans(t, t1, S());
    }
  }

  lemma MergedMay(s: State, t: State, a: nat, b: nat, may: bool)
    requires Forest(s) && Forest(t) && Merged(s, t, a, b, may)
    ensures IsRoot(t, a) && t.sets[a].may == may
  {
    hide Forest;
  }

  lemma AloneMay(aa: Analysis, s: State, t: State, x: nat)
    requires Forest(s) && Forest(t) && Gathered(s, t, {}, None) && IsRoot(s, x)
    ensures x in t.sets && MayOfAll(aa, s, {x}, x, t.sets[x].may)
  {
    hide Forest, GatheredChains;
    MayOfOne(aa, s, x, t.sets[x].may);
  }

  lemma GatheredMay(aa: Analysis, s: State, t: State, u: State, hits: set<nat>, f: nat, x: nat)
    requires Valid(s) && Forest(s) && Forest(t) && Gathered(s, t, hits, Some(f)) && IsRoot(s, x) && x !in hits && f != x
    requires f in t.sets && x in t.sets && f in u.sets && MayOfAll(aa, s, hits, f, t.sets[f].may)
    requires u.sets[f].may <==> t.sets[f].may || t.sets[x].may || FirstsDiffer(aa, t, f, x)
    ensures MayOfAll(aa, s, hits + {x}, f, u.sets[f].may)
  {
    hide Forest, GatheredChains, MayOfAll, FirstsDiffer, AllOf, Listed, Counted, Shape, Saturated;
    if !t.sets[f].may {
      MustHaveFirst(s, f);
    }
    MayOfNext(aa, s, t, hits, f, x, u.sets[f].may);
  }

  lemma JoinedFound(aa: Analysis, s: State, s1: State, t: State, v: nat, size: nat, r: nat)
    requires Shape(s) && Forest(s) && Listed(s) && Forest(s1) && Listed(s1) && Forest(t)
    requires Gathered(s, s1, Hits(aa, s, Location(v, size)), Some(r)) && Extended(s1, t, r, v)
    requires r in s1.sets && MayOfAll(aa, s, Hits(aa, s, Location(v, size)), r, s1.sets[r].may)
    requires v in t.records && t.records[v].size == size && Compared(aa, s1, t, r, v, size, false)
    ensures Joins(aa, s, t, Location(v, size), r) && Newly(aa, s, t, v, size, r)
  {
    hide Forest, Resolve, Shape, Listed, Joins, JoinedBy, Carries, GatheredChains, MayOfAll, AllOf, Hits, NotMust, SameChains;
    var near := Hits(aa, s, Location(v, size));
    GatheredJoins(s, s1, near, r);
    ExtendedCarries(s1, t, r, v);
    JoinedCarries(s, s1, t, near, r);
    JoinedIsJoins(aa, s, t, Location(v, size), r);
    var a, n := t.sets[r], |s1.sets[r].pointers|;
    assert FirstKept(s.sets[r], s1.sets[r]) && s1.sets[r].pointers <= a.pointers;
    assert a.pointers[..n] == s1.sets[r].pointers && a.pointers[n] == v;
    assert AllOf(s, near, a.(pointers := a.pointers[..n])) by { AllOfSame(s, near, s1.sets[r], a.(pointers := a.pointers[..n])); }
    SameNotMust(aa, s, s1, a.pointers[0], v, size);
    assert a.may <==> s1.sets[r].may || NotMust(aa, s, a.pointers[0], v, size) by {
      if n == 0 { NotMustNew(aa, s1, v, size); }
    }
  }

  lemma SameNotMust(aa: Analysis, s: State, s1: State, first: nat, v: nat, size: nat)
    requires s1.records == s.records
    ensures NotMust(aa, s1, first, v, size) == NotMust(aa, s, first, v, size)
  {
  }

  lemma NotMustNew(aa: Analysis, s: State, v: nat, size: nat)
    requires v !in s.records
    ensures !NotMust(aa, s, v, v, size)
  {
  }

  lemma AllOfSame(s: State, xs: set<nat>, a: AliasSet, b: AliasSet)
    requires AllOf(s, xs, a) && b.pointers == a.pointers && b.unknownInsts == a.unknownInsts && b.access == a.access
    requires b.volatile == a.volatile
    ensures AllOf(s, xs, b)
  {
  }

  lemma JoinedNew(aa: Analysis, s: State, s1: State, s2: State, t: State, v: nat, size: nat, r: nat)
    requires Shape(s) && Forest(s) && Forest(s1) && Shape(s1) && Forest(s2) && Listed(s2) && Forest(t)
    requires Gathered(s, s1, Hits(aa, s, Location(v, size)), None) && r == s1.next && v !in s.records
    requires s2 == Pushed(s1, EMPTYSET, s1.any) && SameChains(s1, s2) && Extended(s2, t, r, v)
    requires v in t.records && t.records[v].size == size && Compared(aa, s2, t, r, v, size, false)
    ensures Joins(aa, s, t, Location(v, size), r) && Newly(aa, s, t, v, size, r)
  {
    hide Forest, Resolve, Listed, Joins, JoinedBy, Carries, GatheredChains, MayOfAll, AllOf, Hits, NotMust, SameChains, Increasing, FirstKept;
    var near := Hits(aa, s, Location(v, size));
    assert near == {};
    GatheredNoneJoins(s, s1, r);
    PushedCarries(s1, s2, EMPTYSET, r);
    ExtendedCarries(s2, t, r, v);
    CarriesTrans(s1, s2, t, r);
    JoinedCarries(s, s1, t, {}, r);
    JoinedIsJoins(aa, s, t, Location(v, size), r);
    var a := t.sets[r];
    assert a.pointers == [v] && a.pointers[..0] == [];
    NothingOfNone(aa, s, a.(pointers := []), r);
    NotMustNew(aa, s, v, size);
  }

  lemma NothingOfNone(aa: Analysis, s: State, a: AliasSet, r: nat)
    requires a.pointers == [] && a.unknownInsts == [] && a.access == Access(false, false) && !a.volatile
    ensures AllOf(s, {}, a) && MayOfAll(aa, s, {}, r, false)
  {
  }

  lemma JoinedGrown(aa: Analysis, s: State, t: State, loc: Location, found: Option<nat>)
    requires Shape(s) && Forest(s) && Listed(s) && Forest(t) && Listed(t) && Gathered(s, t, Hits(aa, s, loc), found)
    ensures t.next == s.next
    requires found.Some? ==> found.value in t.sets && MayOfAll(aa, s, Hits(aa, s, loc), found.value, t.sets[found.value].may)
    ensures var f := if found.Some? then found.value else s.next;
            && JoinedBy(s, t, Hits(aa, s, loc), f) && Grown(aa, s, t, loc, f)
            && (f in Hits(aa, s, loc) || f == s.next)
  {
    hide Forest, Resolve, Listed, JoinedBy, GatheredChains, AllOf, Hits, FirstKept, MayOfAll, Increasing;
    if found.Some? {
      GatheredJoins(s, t, Hits(aa, s, loc), found.value);
    } else {
      GatheredNoneJoins(s, t, s.next);
    }
  }

  lemma JoinsStill(aa: Analysis, s: State, t: State, u: State, loc: Location, f: nat)
    requires Shape(s) && Forest(t) && Forest(u) && JoinedBy(s, t, Hits(aa, s, loc), f) && t.next == s.next && Equivalent(t, u)
    requires (f in Hits(aa, s, loc) || f == s.next) && Grown(aa, s, t, loc, f)
    ensures Joins(aa, s, u, loc, f) && Grown(aa, s, u, loc, f)
  {
    hide Forest, Resolve, JoinedBy, Carries, Hits, Equivalent, Joins, Increasing, Grown;
    HitIsRoot(aa, s, t, loc, f);
    GrownStill(aa, s, t, u, loc, f);
    EquivalentCarries(t, u, f);
    JoinedCarries(s, t, u, Hits(aa, s, loc), f);
    JoinedIsJoins(aa, s, u, loc, f);
  }

  lemma HitIsRoot(aa: Analysis, s: State, t: State, loc: Location, f: nat)
    requires Forest(t) && JoinedBy(s, t, Hits(aa, s, loc), f)
    ensures f in Hits(aa, s, loc) ==> IsRoot(t, f)
  {
    hide Forest, Aliases;
    assert f in Hits(aa, s, loc) ==> MovedTo(s, t, f, f);
  }

  lemma GrownStill(aa: Analysis, s: State, t: State, u: State, loc: Location, f: nat)
    requires Forest(t) && Forest(u) && Grown(aa, s, t, loc, f) && Equivalent(t, u)
    requires f in Hits(aa, s, loc) ==> IsRoot(t, f)
    ensures Grown(aa, s, u, loc, f)
  {
    hide Forest, Resolve, Hits, SameChains, AllOf, MayOfAll, FirstKept;
    if Hits(aa, s, loc) != {} {
      AllOfSame(s, Hits(aa, s, loc), t.sets[f], u.sets[f]);
      SameFirst(s.sets[f], t.sets[f], u.sets[f]);
    }
  }

  lemma SameFirst(p: AliasSet, q: AliasSet, r: AliasSet)
    requires FirstKept(p, q) && r.pointers == q.pointers && r.may == q.may && r.any == q.any
    ensures FirstKept(p, r)
  {
  }

  lemma ResizedStays(s: State, v: nat, size: nat, t: State)
    requires Forest(s) && v in s.records && Forest(Resized(s, v, size)) && Forest(t) && Equivalent(Resized(s, v, size), t)
    ensures (forall x :: IsRoot(s, x) ==> Stays(s, t, x)) && forall y :: IsRoot(t, y) ==> IsRoot(s, y)
  {
    hide Forest, Resolve;
    EquivalentStays(Resized(s, v, size), t);
    forall x | IsRoot(s, x) ensures Stays(s, t, x) {
      assert IsRoot(Resized(s, v, size), x);
    }
  }

  lemma MayStill(s: State, t: State, x: nat, v: nat)
    requires Forest(s) && Forest(t) && Extended(s, t, x, v) && x in s.sets && s.sets[x].may
    ensures x in t.sets && t.sets[x].may == s.sets[x].may
  {
    hide Forest, SameChains;
  }

  lemma SameSize(s: State, v: nat)
    requires v in s.records
    ensures Resized(s, v, s.records[v].size) == s
  {
    assert s.records[v := s.records[v].(size := s.records[v].size)] == s.records;
  }

  lemma EquivalentStays(s: State, t: State)
    requires Forest(s) && Forest(t) && Equivalent(s, t)
    ensures (forall x :: IsRoot(s, x) ==> Stays(s, t, x)) && forall y :: IsRoot(t, y) ==> IsRoot(s, y)
  {
    hide Forest, Resolve;
  }

  lemma RedirectedFacts(t: State, t1: State, x: nat, f: nat, r: nat)
    requires Forest(t) && Forest(t1) && Redirected(t, t1, x, r) && f in t.sets && Resolve(t, f) == r && r in t.sets && Everything(t.sets[r])
    ensures f in t1.sets && Resolve(t1, f) == r && Everything(t1.sets[r])
    ensures forall y :: y in t.sets && y != x ==> SameBut(t.sets[y], t1.sets[y])
  {
    hide Forest, Resolve;
  }

  lemma RedirectedInsts(t: State, t1: State, x: nat, r: nat)
    requires Forest(t) && Forest(t1) && Redirected(t, t1, x, r)
    ensures SameInsts(t, t1)
  {
    hide Forest, SameChains;
    InstsByParts(t, t1);
  }

  lemma SameSetsSameInsts(s: State, t: State)
    requires t.sets == s.sets
    ensures SameInsts(s, t)
  {
    InstsByParts(s, t);
  }

  lemma PushedInsts(s: State, t: State, a: AliasSet)
    requires t.sets == s.sets[s.next := a] && s.next !in s.sets && a.unknownInsts == []
    ensures SameInsts(s, t)
  {
    InstsByParts(s, t);
  }

  lemma PointersOnly(s: State, t: State, x: nat)
    requires x in s.sets && x in t.sets && t.sets == s.sets[x := s.sets[x].(pointers := t.sets[x].pointers)]
    ensures SameInsts(s, t)
  {
    InstsByParts(s, t);
  }

  lemma FlagsOfRoot(s: State, t1: State, u: State, r: nat, i: nat, f: nat)
    requires Forest(s) && Forest(t1) && Forest(u) && i <= |s.order| && MergedUpTo(s, u, r, i) && f in t1.sets && Shrunk(t1, u, f)
    requires r in t1.sets && Everything(t1.sets[r])
    ensures r in u.sets && Everything(u.sets[r])
  {
    hide Forest, OnChain;
  }

  lemma FlagsOfMerged(t: State, u: State, r: nat, x: nat, may: bool)
    requires Forest(t) && Forest(u) && Merged(t, u, r, x, may) && r in t.sets && Everything(t.sets[r]) && may
    ensures r in u.sets && Everything(u.sets[r])
  {
    hide Forest;
  }

  lemma LaterNext(s: State, next: nat)
    requires Shape(s) && Forest(s) && next >= s.next
    ensures Shape(s.(next := next)) && Forest(s.(next := next))
  {
    hide Increasing;
    forall x | x in s.sets ensures ForwardsBack(s.(next := next), x) {
      BackAt(s, x);
    }
  }

  lemma PushedAlive(s: State, a: AliasSet)
    requires Alive(s, {})
    ensures Alive(Pushed(s, a, Some(s.next)), {s.next})
  {
  }

  lemma RootOfUpTo(s: State, t: State, r: nat, i: nat)
    requires Forest(s) && Forest(t) && i <= |s.order| && MergedUpTo(s, t, r, i)
    ensures IsRoot(t, r) && t.records == s.records
  {
  }

  lemma SameTogether(s0: State, s: State, t: State)
    requires Forest(s0) && Forest(s) && Forest(t) && s == s0.(next := s.next) && Coarser(s, t)
    ensures Coarser(s0, t)
  {
    hide Resolve, Forest;
    forall u, w | Together(s0, u, w) ensures Together(t, u, w) {
      ResolveSame(s0, s, s0.records[u].home);
      ResolveSame(s0, s, s0.records[w].home);
      assert Together(s, u, w);
    }
  }

  lemma PlusMinus(held: multiset<nat>, x: nat)
    ensures Minus(Plus(held, x), x) == held && Plus(held, x)[x] > 0
  {
  }

  /** The chain ends where the set forwards to. */
  lemma ResolvedAtOnce(s: State, t: State, x: nat, f: nat)
    requires Forest(s) && x in s.sets && s.sets[x].forward == Some(f) && f == Resolve(s, x) && t == s
    ensures Compacted(s, t, x)
  {
    hide Resolve;
    CompactedItself(s, x);
  }

  lemma CompactedKeeps(s: State, t: State, x: nat, f: nat)
    requires Forest(s) && Forest(t) && x in s.sets && s.sets[x].forward == Some(f) && f != Resolve(s, x) && Compacted(s, t, f)
    ensures f in s.sets && f < x && x in t.sets && t.sets[x].forward == Some(f) && f in t.sets && Resolve(t, x) == Resolve(s, x)
  {
    hide Resolve, Forest;
    BackAt(s, x);
    NextResolves(s, x);
    if IsRoot(s, f) {
      RootResolves(s, f);
    }
    assert x in t.sets;
    BackAt(t, x);
  }

  lemma CountRaised(s: State, d: nat)
    requires d in s.sets && Alive(s, {})
    ensures var s2 := WithCount(s, d, s.sets[d].refCount + 1);
            && s2.sets.Keys == s.sets.Keys && Alive(s2, {})
            && forall y :: y in s.sets ==> s2.sets[y].forward == s.sets[y].forward
  {
  }

  lemma RedirectedAtOnce(s: State, x: nat, d: nat)
    requires Forest(s) && d in s.sets && x in s.sets && s.sets[x].forward.Some? && Alive(s, {})
    requires var t := Forwarding(WithCount(s, d, s.sets[d].refCount + 1), x, d);
             Forest(t) && SameChains(s, t)
    ensures var t := Forwarding(WithCount(s, d, s.sets[d].refCount + 1), x, d);
            Redirected(s, t, x, d) && Alive(t, {})
  {
    hide Forest, SameChains, SameSet;
    var t := Forwarding(WithCount(s, d, s.sets[d].refCount + 1), x, d);
    forall y | y in t.sets
      ensures SameSet(s.sets[y], t.sets[y]) && (y != x ==> t.sets[y].forward == s.sets[y].forward) && t.sets[y].refCount > 0
    {
      RedirectedOne(s, x, d, y);
    }
  }

  lemma RedirectedOne(s: State, x: nat, d: nat, y: nat)
    requires d in s.sets && x in s.sets && s.sets[x].forward.Some? && Alive(s, {}) && y in s.sets
    ensures var t := Forwarding(WithCount(s, d, s.sets[d].refCount + 1), x, d);
            && y in t.sets && SameSet(s.sets[y], t.sets[y]) && (y != x ==> t.sets[y].forward == s.sets[y].forward)
            && t.sets[y].refCount > 0
  {
  }

  /** A reference is added to the end of the chain, and the set is pointed there. */
  lemma RedirectedStep(s: State, s1: State, x: nat, d: nat, held: multiset<nat>)
    requires Forest(s) && Invariant(s1, held) && Alive(s1, {}) && x in s1.sets && s1.sets[x].forward.Some? && d == Resolve(s1, x)
    ensures var s2 := WithCount(s1, d, s1.sets[d].refCount + 1);
            && x in s2.sets
            && var s3 := Forwarding(s2, x, d);
               && Invariant(s3, Plus(held, s1.sets[x].forward.value)) && Redirected(s1, s3, x, d) && Alive(s3, {})
  {
    hide Resolve, Listed, Counted, Shape, Redirected, Alive;
    InvariantIsForest(s1, held);
    CountRaised(s1, d);
    var s2 := WithCount(s1, d, s1.sets[d].refCount + 1);
    CountUp(s1, held, d);
    InvariantIsForest(s2, Plus(held, d));
    SameForwards(s1, s2);
    Compressed(s2, Plus(held, d), x);
    PlusMinus(held, d);
    InvariantIsForest(Forwarding(s2, x, d), Plus(held, s1.sets[x].forward.value));
    SameChainsTrans(s1, s2, Forwarding(s2, x, d));
    RedirectedAtOnce(s1, x, d);
  }

  lemma EquivalentItself(s: State)
    requires Forest(s) && Listed(s)
    ensures Equivalent(s, s)
  {
    hide Resolve, Forest, SetLists;
    forall w | w in s.records ensures SameEnd(s, s, w) {
      assert RecordListed(s, w);
    }
  }

  lemma CompactedRecords(s: State, t: State, x: nat)
    requires Forest(s) && Forest(t) && Compacted(s, t, x)
    ensures t.records == s.records && SameChains(s, t)
  {
  }

  /** A reference is added to the end of the chain of a record's home, and the record moved there. */
  lemma RehomedNow(s1: State, v: nat)
    requires Invariant(s1, multiset{}) && Alive(s1, {}) && v in s1.records
    ensures s1.records[v].home in s1.sets
    ensures var d := Resolve(s1, s1.records[v].home);
            var s3 := SetRecord(WithCount(s1, d, s1.sets[d].refCount + 1), v, s1.records[v].(home := d));
            && Invariant(s3, Plus(multiset{}, s1.records[v].home)) && Alive(s3, {}) && SameChains(s1, s3)
            && (forall y :: y in s1.sets ==> SameBut(s1.sets[y], s3.sets[y])) && IsRoot(s1, d)
  {
    hide Resolve, Listed, Counted, Shape;
    HomeListed(s1, v);
    var d := Resolve(s1, s1.records[v].home);
    var s2 := WithCount(s1, d, s1.sets[d].refCount + 1);
    CountUp(s1, multiset{}, d);
    SameForwards(s1, s2);
    Rehomed(s2, Plus(multiset{}, d), v);
    PlusMinus(multiset{}, d);
    SameChainsTrans(s1, s2, SetRecord(s2, v, s1.records[v].(home := d)));
  }

  lemma RootStays(s: State, t: State, v: nat, r: nat)
    requires Forest(s) && Forest(t) && Equivalent(s, t) && IsRoot(s, r)
    ensures IsRoot(t, r)
  {
  }

  lemma AbsorbedIs(s: State, a: nat, b: nat, may: bool)
    requires a in s.sets && b in s.sets && a != b && s.sets[a].forward.None?
    ensures var p, q := s.sets[a], s.sets[b];
            var r := AliasSet(None, p.refCount + 1 + (if p.unknownInsts == [] && q.unknownInsts != [] then 1 else 0),
                              p.pointers + q.pointers, p.unknownInsts + q.unknownInsts, may,
                              Access(p.access.ref || q.access.ref, p.access.mod || q.access.mod), p.volatile || q.volatile, p.any);
            s.(sets := s.sets[a := r][b := q.(pointers := [], unknownInsts := [], forward := Some(a))]) == Absorbed(s, a, b, may)
  {
  }

  lemma InvariantIsForest(s: State, held: multiset<nat>)
    requires Invariant(s, held)
    ensures Forest(s) && Listed(s) && Shape(s)
  {
  }

  lemma AbsorbedAlive(s: State, a: nat, b: nat, may: bool)
    requires a in s.sets && b in s.sets && a != b && Alive(s, {a})
    ensures Alive(Absorbed(s, a, b, may), {})
  {
    hide Absorbed;
    AbsorbedValues(s, a, b, may);
  }

  lemma AliveAll(s: State, x: nat)
    requires Alive(s, {}) || Alive(s, {x})
    ensures Alive(s, {x})
  {
  }

  lemma MergeableIsRoot(s: State, a: nat, b: nat)
    requires Mergeable(s, a, b)
    ensures IsRoot(s, a) && IsRoot(s, b)
  {
  }

  lemma GatheredEmpty(s: State, t: State, hits: set<nat>)
    requires Forest(s) && Forest(t) && Gathered(s, t, hits, None)
    ensures hits == {}
  {
  }

  /** A set of pointers that must alias has a first one. */
  lemma MustHaveFirst(s: State, x: nat)
    requires Invariant(s, multiset{}) && Alive(s, {}) && IsRoot(s, x) && !s.sets[x].may
    ensures s.sets[x].pointers != [] && s.sets[x].pointers[0] in s.records
  {
    hide Homes, Forwarders, Resolve, Counted, Shape;
    assert SetLists(s, x);
    MustAliasNotEmpty(s, multiset{}, x);
    assert s.sets[x].pointers[0] in s.sets[x].pointers;
  }

  lemma ListedRecords(s: State, x: nat)
    requires Invariant(s, multiset{}) && IsRoot(s, x)
    ensures forall k :: 0 <= k < |s.sets[x].pointers| ==> s.sets[x].pointers[k] in s.records
    ensures !s.sets[x].may ==> s.sets[x].unknownInsts == [] && !s.sets[x].any
  {
    hide Homes, Forwarders, Resolve, Counted, Shape;
    assert SetLists(s, x);
    forall k | 0 <= k < |s.sets[x].pointers| ensures s.sets[x].pointers[k] in s.records {
      assert s.sets[x].pointers[k] in s.sets[x].pointers;
    }
  }

  /** The next set of the list is still there, just as it was. */
  lemma NotYetWalked(s: State, t: State, hits: set<nat>, found: Option<nat>, i: nat)
    requires Forest(s) && Forest(t) && Shape(s) && i < |s.order| && Gathered(s, t, hits, found)
    requires forall y :: y in hits ==> y in s.order[..i]
    requires found.Some? ==> found.value in s.order[..i]
    ensures var x := s.order[i];
            && x in s.sets && x !in hits && x in t.sets && SameBut(s.sets[x], t.sets[x]) && x !in s.order[..i]
            && (found.Some? ==> found.value < x)
            && forall y :: y in s.order[..i + 1] <==> y in s.order[..i] || y == x
  {
    hide Shape, Forest;
    NextInList(s, i);
    OthersAsTheyWere(s, t, hits, found, s.order[i]);
  }

  lemma NextInList(s: State, i: nat)
    requires Shape(s) && i < |s.order|
    ensures s.order[i] in s.sets && s.order[i] !in s.order[..i] && forall y :: y in s.order[..i] ==> y < s.order[i]
    ensures forall y :: y in s.order[..i + 1] <==> y in s.order[..i] || y == s.order[i]
  {
    assert s.order[i] in s.order;
    assert s.order[..i + 1] == s.order[..i] + [s.order[i]];
  }

  lemma OthersAsTheyWere(s: State, t: State, hits: set<nat>, found: Option<nat>, x: nat)
    requires Forest(s) && Forest(t) && Gathered(s, t, hits, found) && x in s.sets && x !in hits
    ensures x in t.sets && SameBut(s.sets[x], t.sets[x])
  {
    hide Resolve, Forest, GatheredChains, FirstKept, IsRoot, AllOf, SameBut;
  }

  lemma AliasesSame(aa: Analysis, s: State, t: State, hits: set<nat>, found: Option<nat>, x: nat, loc: Location)
    requires Forest(s) && Forest(t) && Gathered(s, t, hits, found) && x in s.sets && x in t.sets && SameBut(s.sets[x], t.sets[x])
    ensures Aliases(aa, s, x, loc) == Aliases(aa, t, x, loc)
  {
    hide Resolve, Forest, GatheredChains, AllOf;
    assert forall v :: PointerAliases(aa, s, v, loc) == PointerAliases(aa, t, v, loc);
  }

  lemma AliasesInstSame(aa: Analysis, s: State, t: State, hits: set<nat>, found: Option<nat>, x: nat, inst: nat)
    requires Forest(s) && Forest(t) && Gathered(s, t, hits, found) && x in s.sets && x in t.sets && SameBut(s.sets[x], t.sets[x])
    ensures AliasesInst(aa, s, x, inst) == AliasesInst(aa, t, x, inst)
  {
    hide Resolve, Forest, GatheredChains, AllOf;
    assert forall v :: PointerTouched(aa, s, v, inst) == PointerTouched(aa, t, v, inst);
  }

  lemma AllWalked(s: State, list: seq<nat>, hits: set<nat>, all: set<nat>)
    requires Valid(s) && list == s.order && (forall y :: y in hits <==> y in list[..|list|] && y in all)
    requires forall y :: y in all ==> y in s.sets
    ensures hits == all
  {
    hide Listed, Counted, Forest, Saturated, Alive;
    assert list[..|list|] == list;
  }

  lemma TouchedLists(s: State, t: State, x: nat)
    requires Forest(s) && Forest(t) && Touched(s, t, x)
    ensures x in t.sets && x in s.sets && t.sets[x].pointers == s.sets[x].pointers && t.records.Keys == s.records.Keys
  {
    hide Forest, SameChains;
  }

  lemma AddedIs(s: State, x: nat, v: nat, size: nat)
    requires x in s.sets && v !in s.records
    ensures var t := Added(WithCount(s, x, s.sets[x].refCount + 1), x, v, size);
            && x in t.sets && t.sets[x].pointers == s.sets[x].pointers + [v] && t.sets[x].may == s.sets[x].may
            && t.records == s.records[v := PointerRec(size, x)]
  {
  }

  lemma ComparedStill(aa: Analysis, s: State, s1: State, x: nat, v: nat, size: nat, knownMustAlias: bool)
    requires Compared(aa, s, s1, x, v, size, knownMustAlias) && x in s1.sets && v !in s.records
    ensures Compared(aa, s, Added(WithCount(s1, x, s1.sets[x].refCount + 1), x, v, size), x, v, size, knownMustAlias)
  {
    hide NotMust;
  }

  lemma MayKeeps(s: State, x: nat)
    requires Invariant(s, multiset{}) && IsRoot(s, x)
    ensures var t := SetSet(s, x, s.sets[x].(may := true));
            Invariant(t, multiset{}) && Touched(s, t, x) && (Alive(s, {x}) ==> Alive(t, {x}))
  {
    hide Shape, Listed, Counted, Resolve;
    FlaggedInvariant(s, multiset{}, x, s.sets[x].(may := true));
  }

  lemma SizeKeeps(s: State, t: State, x: nat)
    requires Forest(s) && Forest(t) && IsRoot(s, x) && t == s.(records := t.records) && SameChains(s, t)
    requires t.records.Keys == s.records.Keys && forall w :: w in s.records ==> t.records[w].home == s.records[w].home
    ensures Touched(s, t, x) && (Alive(s, {x}) ==> Alive(t, {x}))
  {
    hide Forest, Resolve;
  }

  lemma AnyMayAlias(s: State)
    requires Saturated(s) && s.any.Some? && s.any.value in s.sets
    ensures IsRoot(s, s.any.value) && s.sets[s.any.value].may && s.sets[s.any.value].any
  {
  }

  lemma AfterExtended(s: State, t: State, x: nat, v: nat)
    requires Forest(s) && Forest(t) && Extended(s, t, x, v) && Saturated(s)
    ensures Coarser(s, t) && Saturated(t) && t.records.Keys == s.records.Keys + {v} && IsRoot(t, x) && t.any == s.any
    ensures t.records[v].home == x && Resolve(t, x) == x
  {
    hide Forest, Resolve;
    RootResolves(t, x);
  }

  lemma AfterGathered(s: State, t: State, hits: set<nat>, found: Option<nat>)
    requires Forest(s) && Forest(t) && Listed(t) && Gathered(s, t, hits, found)
    ensures Coarser(s, t) && t.any == s.any && t.records == s.records && (found.Some? ==> IsRoot(t, found.value) && found.value in hits)
  {
    GatheredIsCoarser(s, t, hits, found);
  }

  lemma AfterEquivalent(s: State, t: State)
    requires Forest(s) && Forest(t) && Equivalent(s, t) && Saturated(s)
    ensures Coarser(s, t) && Saturated(t) && t.any == s.any && t.records.Keys == s.records.Keys
  {
  }

  lemma AfterResized(s: State, v: nat, size: nat)
    requires Forest(s) && v in s.records && Forest(Resized(s, v, size)) && SameChains(s, Resized(s, v, size))
    ensures var t := Resized(s, v, size);
            Coarser(s, t) && (Saturated(s) ==> Saturated(t)) && (Alive(s, {}) ==> Alive(t, {}))
  {
    hide Forest, Resolve;
  }

  /** If the pointers of the set that was found still must alias, the first of them was found to
      alias the location. */
  lemma FoundAliases(aa: Analysis, s: State, t: State, f: nat, loc: Location)
    requires Forest(s) && Listed(s) && Forest(t) && Gathered(s, t, Hits(aa, s, loc), Some(f))
    ensures IsRoot(t, f)
    ensures !t.sets[f].may ==>
              t.sets[f].pointers != [] && t.sets[f].pointers[0] in t.records
              && aa.alias(LocationOf(t, t.sets[f].pointers[0]), loc) != NoAlias
  {
    hide Resolve, Forest, GatheredChains, AllOf;
    assert f in Hits(aa, s, loc);
    assert SetLists(s, f);
    assert Aliases(aa, s, f, loc);
  }

  lemma AfterPushed(s: State, s2: State, t: State, x: nat, v: nat)
    requires Forest(s) && Forest(s2) && Forest(t) && Shape(s) && x == s.next && s2 == Pushed(s, EMPTYSET, s.any) && s.any.None?
    requires SameChains(s, s2) && Extended(s2, t, x, v)
    ensures Coarser(s, t) && Saturated(t) && t.records.Keys == s.records.Keys + {v} && IsRoot(t, x) && t.any == s.any
    ensures t.records[v].home == x && Resolve(t, x) == x
  {
    hide Forest, Resolve;
    RootResolves(t, x);
    PushedIsCoarser(s, s2);
    CoarserTrans(s, s2, t);
  }

  lemma PushedIsCoarser(s: State, t: State)
    requires Forest(s) && Forest(t) && SameChains(s, t) && t.records == s.records && forall y :: y in s.sets ==> y in t.sets
    ensures Coarser(s, t)
  {
    hide Forest, Resolve;
  }

  lemma CoarserItself(s: State)
    requires Forest(s)
    ensures Coarser(s, s)
  {
  }

  lemma CoarserButItself(s: State, v: nat)
    requires Forest(s)
    ensures CoarserBut(s, s, v)
  {
  }

  lemma CoarserThenBut(s: State, t: State, u: State, v: nat)
    requires Forest(s) && Forest(t) && Forest(u) && Coarser(s, t) && CoarserBut(t, u, v)
    ensures CoarserBut(s, u, v)
  {
    hide Forest, Together;
  }

  lemma NotedJoins(aa: Analysis, s: State, s1: State, t: State, inst: nat, x: nat)
    requires Shape(s) && Forest(s) && Listed(s) && Forest(s1) && Listed(s1) && Forest(t) && aa.mayAccess(inst)
    requires Gathered(s, s1, InstHits(aa, s, inst), Some(x)) && Noted(s1, t, x, inst)
    requires x in s1.sets && x in t.sets && t.sets[x].access == Access(true, s1.sets[x].access.mod || aa.mayWrite(inst))
    ensures IsRoot(t, x) && JoinsInst(aa, s, t, inst, x) && NewlyInst(aa, s, t, inst, x)
  {
    hide Forest, Resolve, Shape, Listed, JoinsInst, JoinedBy, Carries, GatheredChains, AllOf, InstHits, SameChains;
    var near := InstHits(aa, s, inst);
    GatheredJoins(s, s1, near, x);
    NotedCarries(s1, t, x, inst);
    JoinedCarries(s, s1, t, near, x);
    JoinedIsJoinsInst(aa, s, t, inst, x);
    var a, n := t.sets[x], |s1.sets[x].unknownInsts|;
    assert a.unknownInsts[..n] == s1.sets[x].unknownInsts && a.unknownInsts[n] == inst;
    AllOfSame(s, near, s1.sets[x], a.(unknownInsts := a.unknownInsts[..n], access := s1.sets[x].access));
  }

  lemma NotedNew(aa: Analysis, s: State, s1: State, s2: State, t: State, inst: nat, x: nat)
    requires Shape(s) && Forest(s) && Forest(s1) && Shape(s1) && Forest(s2) && Forest(t) && aa.mayAccess(inst)
    requires Gathered(s, s1, InstHits(aa, s, inst), None) && x == s1.next
    requires s2 == Pushed(s1, EMPTYSET, s1.any) && SameChains(s1, s2) && Noted(s2, t, x, inst)
    requires x in s2.sets && x in t.sets && t.sets[x].access == Access(true, s2.sets[x].access.mod || aa.mayWrite(inst))
    ensures IsRoot(t, x) && JoinsInst(aa, s, t, inst, x) && NewlyInst(aa, s, t, inst, x)
  {
    hide Forest, Resolve, JoinsInst, JoinedBy, Carries, GatheredChains, AllOf, InstHits, SameChains, Increasing;
    assert InstHits(aa, s, inst) == {};
    GatheredNoneJoins(s, s1, x);
    PushedCarries(s1, s2, EMPTYSET, x);
    NotedCarries(s2, t, x, inst);
    CarriesTrans(s1, s2, t, x);
    JoinedCarries(s, s1, t, {}, x);
    JoinedIsJoinsInst(aa, s, t, inst, x);
    var a := t.sets[x];
    assert a.unknownInsts == [inst] && a.unknownInsts[..0] == [];
    NothingOfNone(aa, s, a.(unknownInsts := [], access := Access(false, false)), x);
  }

  /** In a saturated tracker the one set is always found. */
  lemma SaturatedFinds(aa: Analysis, s: State, t: State, inst: nat)
    requires Forest(s) && Forest(t) && Gathered(s, t, InstHits(aa, s, inst), None) && Saturated(s)
    ensures t.any.Some? ==> t.any.value !in t.sets
  {
    hide Forest, GatheredChains;
    if s.any.Some? && s.any.value in s.sets {
      AnyIsHit(aa, s, inst);
    }
  }

  lemma AnyIsHit(aa: Analysis, s: State, inst: nat)
    requires Saturated(s) && s.any.Some? && s.any.value in s.sets
    ensures s.any.value in InstHits(aa, s, inst)
  {
  }

  lemma PushedUnsaturated(s: State, t: State)
    requires Shape(s) && t == Pushed(s, EMPTYSET, s.any) && (s.any.Some? ==> s.any.value !in s.sets)
    ensures Saturated(t)
  {
  }

  lemma SameRootLists(s: State, t: State, x: nat)
    requires Forest(s) && Forest(t) && Equivalent(s, t) && x in t.sets
    ensures x in s.sets && t.sets[x].pointers == s.sets[x].pointers && t.sets[x].unknownInsts == s.sets[x].unknownInsts
  {
  }

  lemma AllSameSizes(s: State, t: State)
    requires Forest(s) && Forest(t) && Equivalent(s, t)
    ensures forall w :: w in s.records ==> w in t.records && t.records[w].size == s.records[w].size
  {
    hide Forest, Resolve;
    forall w | w in s.records ensures w in t.records && t.records[w].size == s.records[w].size {
      assert SameEnd(s, t, w);
    }
  }

  lemma SameSizes(s: State, t: State, v: nat)
    requires Forest(s) && Forest(t) && Equivalent(s, t) && v in s.records
    ensures v in t.records && t.records[v].size == s.records[v].size
  {
    assert SameEnd(s, t, v);
  }

  lemma AliveForgotten(s: State, v: nat)
    requires Forest(s) && Alive(s, {}) && v in s.records && s.records[v].home in s.sets
    ensures Alive(Forgotten(s, v), {})
  {
    hide Forest, Resolve, DropPointer;
  }

  /** A live root lists a pointer or an unknown instruction. */
  lemma LiveRootHasMember(s: State, x: nat)
    requires Invariant(s, multiset{}) && Alive(s, {}) && IsRoot(s, x)
    ensures s.sets[x].pointers != [] || s.sets[x].unknownInsts != []
  {
    hide Homes, Forwarders, Resolve, Counted, Shape, Listed, Forest;
    if s.sets[x].unknownInsts == [] {
      MustAliasNotEmpty(s, multiset{}, x);
    }
  }

  lemma CopiedList(aa: Analysis, s: State, s1: State, t: State, x: nat, v: nat, copy: nat)
    requires Forest(s) && Forest(s1) && Forest(t) && Equivalent(s, s1) && IsRoot(s, x) && Extended(s1, t, x, copy)
    requires v in s.records && Compared(aa, s1, t, x, copy, s.records[v].size, true)
    ensures x in s.sets && OnlyList(s, t, x, s.sets[x].pointers + [copy]) && SizesKept(s, t, copy)
  {
    hide Forest, Resolve, SameChains;
    AllSameSizes(s, s1);
    ExtendedList(s1, t, x, copy);
    OnlyListTrans(s, s1, t, x, s1.sets[x].pointers + [copy]);
  }

  lemma ExtendedTogether(s: State, t: State, x: nat, v: nat, copy: nat)
    requires Forest(s) && Forest(t) && Extended(s, t, x, copy) && v in s.records && s.records[v].home == x && Resolve(t, x) == x
    ensures Together(t, v, copy)
  {
    hide Forest, Resolve;
  }

  lemma ValidIsForest(s: State)
    requires Valid(s)
    ensures Forest(s) && Listed(s) && Shape(s)
  {
    hide Forest, Listed, Shape, Counted;
  }

  lemma AccessKeeps(s: State, x: nat, access: Access)
    requires Valid(s) && IsRoot(s, x)
    ensures var t := SetSet(s, x, s.sets[x].(access := access)); Valid(t) && Forest(s) && Forest(t) && SameChains(s, t) && Coarser(s, t)
  {
    hide Resolve, Homes, Forwarders, Counted, Listed;
    FlaggedInvariant(s, multiset{}, x, s.sets[x].(access := access));
  }

  lemma StillEndsIn(s: State, t: State, v: nat, x: nat)
    requires Forest(s) && Forest(t) && SameChains(s, t) && t.records == s.records && t.sets.Keys == s.sets.Keys
    requires v in s.records && s.records[v].home in s.sets && Resolve(s, s.records[v].home) == x
    ensures EndsIn(t, v, x)
  {
    hide Forest, Resolve;
  }

  lemma InList(s: State, x: nat)
    requires Shape(s) && x in s.sets
    ensures s.order != []
  {
  }

  // ---- After saturation ----

  /** What the one set of a saturated tracker lists is what there is. */
  lemma SaturatedMembers(s: State, v: nat)
    requires Valid(s) && s.any.Some? && s.any.value in s.sets && v in s.records
    ensures DropPointer(s.sets[s.any.value].pointers, v) != [] <==> s.records.Keys != {v}
    ensures s.sets[s.any.value].unknownInsts != [] <==> exists i :: HasInst(s, i)
  {
    hide Resolve, Homes, Forwarders, Counted, Shape, Alive, DropPointer, HasInst, Forest;
    ValidIsForest(s);
    var a := s.any.value;
    var rest := DropPointer(s.sets[a].pointers, v);
    assert SetLists(s, a);
    if rest != [] {
      assert rest[0] in s.records && rest[0] != v;
    }
    if w :| w in s.records && w != v {
      SaturatedIsOneSet(s, w);
      assert RecordListed(s, w);
      assert w in rest;
    }
    if s.sets[a].unknownInsts != [] {
      InstIn(s, a, s.sets[a].unknownInsts[0]);
    }
    if i :| HasInst(s, i) {
      OnlySetHas(s, i);
    }
  }

  lemma OnlySetHas(s: State, i: nat)
    requires Forest(s) && Listed(s) && Saturated(s) && s.any.Some? && s.any.value in s.sets && HasInst(s, i)
    ensures i in s.sets[s.any.value].unknownInsts
  {
    hide Resolve, Forest;
    var x :| x in s.sets && i in s.sets[x].unknownInsts;
    assert SetLists(s, x);
  }

  /** Deleting a pointer of a saturated tracker keeps the one set that new pointers are put into if
      and only if there is another pointer or an unknown instruction; the tracker goes on to point
      to the set in any case. */
  method DeleteFromSaturated(tracker: AliasSetTracker, v: nat)
    requires Valid(tracker.S()) && tracker.any.Some? && tracker.any.value in tracker.sets && v in tracker.records
    modifies tracker`sets, tracker`order, tracker`records
    ensures Valid(tracker.S()) && tracker.any == old(tracker.any) && tracker.records.Keys == old(tracker.records.Keys) - {v}
    ensures SameInsts(old(tracker.S()), tracker.S())
    ensures tracker.any.value in tracker.sets
            <==> tracker.records.Keys != {} || exists i :: HasInst(tracker.S(), i)
  {
    hide Valid, Resolve, DropPointer, CoarserBut, Forest, HasInst;
    ghost var s := tracker.S();
    ValidIsForest(s);
    SaturatedIsOneSet(s, v);
    SaturatedMembers(s, v);
    tracker.DeleteValue(v);
    assert forall i :: HasInst(tracker.S(), i) <==> HasInst(s, i);
    assert tracker.records.Keys != {} <==> s.records.Keys != {v};
  }

  /** For every nonempty list of pointers: a tracker that is saturated when they have been added and
      from which they are deleted again has lost its one set and still points to it. */
  method SaturateAndEmpty(aa: Analysis, vs: seq<nat>, size: nat, access: Access) returns (tracker: AliasSetTracker)
    requires vs != []
    ensures fresh(tracker) && Valid(tracker.S()) && tracker.records.Keys == {}
    ensures tracker.any.Some? && tracker.any.value !in tracker.sets
  {
    hide Valid, HasInst;
    tracker := new AliasSetTracker(aa);
    NothingHasInst(tracker.S());
    AddAll(tracker, vs, size, access);
    DeleteAll(tracker, vs);
  }

  method AddAll(tracker: AliasSetTracker, vs: seq<nat>, size: nat, access: Access)
    requires Valid(tracker.S()) && tracker.records == map[] && tracker.any.None? && vs != []
    requires forall i :: !HasInst(tracker.S(), i)
    modifies tracker
    ensures Valid(tracker.S()) && tracker.any.Some? && tracker.any.value in tracker.sets
    ensures (forall v :: v in tracker.records <==> v in vs) && forall i :: !HasInst(tracker.S(), i)
  {
    hide Valid, HasInst, Coarser, EndsIn, IsRoot;
    for k := 0 to |vs|
      invariant Valid(tracker.S()) && forall i :: !HasInst(tracker.S(), i)
      invariant forall v :: v in tracker.records.Keys <==> v in vs[..k]
      invariant if k == |vs| then tracker.any.Some? && tracker.any.value in tracker.sets else tracker.any.None?
    {
      assert vs[..k + 1] == vs[..k] + [vs[k]];
      var _ := tracker.AddPointer(vs[k], size, access, k == |vs| - 1);
    }
    assert vs[..|vs|] == vs;
  }

  method DeleteAll(tracker: AliasSetTracker, vs: seq<nat>)
    requires Valid(tracker.S()) && tracker.any.Some? && tracker.any.value in tracker.sets && vs != []
    requires (forall v :: v in tracker.records <==> v in vs) && forall i :: !HasInst(tracker.S(), i)
    modifies tracker
    ensures Valid(tracker.S()) && tracker.any == old(tracker.any) && tracker.any.value !in tracker.sets && tracker.records.Keys == {}
  {
    hide Valid, HasInst;
    assert vs[0] in tracker.records.Keys;
    for k := 0 to |vs|
      invariant Valid(tracker.S()) && tracker.any == old(tracker.any) && forall i :: !HasInst(tracker.S(), i)
      invariant forall v :: v in tracker.records.Keys <==> v in vs && v !in vs[..k]
      invariant tracker.any.value in tracker.sets <==> tracker.records.Keys != {}
    {
      assert vs[..k + 1] == vs[..k] + [vs[k]];
      if vs[k] in tracker.records.Keys {
        DeleteFromSaturated(tracker, vs[k]);
      }
    }
    assert forall v :: v !in tracker.records.Keys;
  }

  lemma NothingHasInst(s: State)
    requires s.sets == map[]
    ensures forall i :: !HasInst(s, i)
  {
  }
}
