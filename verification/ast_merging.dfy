/** What merging sets does to the forest. */
module AliasSetMerging {
  import opened AliasSetForest
  import opened AliasSetSteps
  import opened AliasSetReferences

  /** `b` has gone into `a`; if that left `b` without references it is gone. */
  ghost predicate Merged(s: State, t: State, a: nat, b: nat, may: bool)
    requires Forest(s) && Forest(t)
  {
    && a in s.sets && b in s.sets && a != b
    && t.records == s.records && t.any == s.any && t.next == s.next && MergedChains(s, t, a, b)
    && (forall y :: y in t.sets ==> y in s.sets) && (forall y :: y in s.sets && y != b ==> y in t.sets)
    && IsRoot(t, a) && Union(s.sets[a], s.sets[b], may, t.sets[a]) && (b in t.sets ==> t.sets[b].forward == Some(a))
    && forall y :: y in s.sets && y != a && y != b ==> SameBut(s.sets[y], t.sets[y])
  }

  /** All that was in either set is in the one. */
  predicate Union(p: AliasSet, q: AliasSet, may: bool, r: AliasSet) {
    && r.pointers == p.pointers + q.pointers && r.unknownInsts == p.unknownInsts + q.unknownInsts && r.may == may
    && r.access == Access(p.access.ref || q.access.ref, p.access.mod || q.access.mod) && r.volatile == (p.volatile || q.volatile)
    && r.any == p.any
  }

  lemma MergedAtOnce(s: State, a: nat, b: nat, may: bool)
    requires Forest(s) && Mergeable(s, a, b) && Forest(Absorbed(s, a, b, may)) && MergedChains(s, Absorbed(s, a, b, may), a, b)
    ensures Merged(s, Absorbed(s, a, b, may), a, b, may)
  {
    hide Resolve, Forest, Absorbed;
    AbsorbedValues(s, a, b, may);
  }

  lemma MergedAndShrunk(s: State, t: State, a: nat, b: nat, may: bool)
    requires Forest(s) && Mergeable(s, a, b) && Forest(Absorbed(s, a, b, may)) && MergedChains(s, Absorbed(s, a, b, may), a, b)
    requires Forest(t) && b in Absorbed(s, a, b, may).sets && Shrunk(Absorbed(s, a, b, may), t, b) && s.sets[b].unknownInsts != []
    ensures Merged(s, t, a, b, may)
  {
    hide Resolve, Forest, Absorbed, OnChain;
    AbsorbedValues(s, a, b, may);
    var u := Absorbed(s, a, b, may);
    ShrunkChains(u, t, b);
    forall y | y in s.sets && y != b ensures y in t.sets {
      if y !in t.sets {
        assert Gone(u, b, y);
        OnlyTwoOnChain(u, a, b, y);
      }
    }
  }

  lemma OnlyTwoOnChain(u: State, a: nat, b: nat, y: nat)
    requires Forest(u) && b in u.sets && u.sets[b].forward == Some(a) && IsRoot(u, a) && OnChain(u, b, y)
    ensures y == a || y == b
  {
    BackAt(u, b);
  }

  /** The chains that ended in one of the sets now end in `f`. */
  ghost predicate GatheredChains(s: State, t: State, hits: set<nat>, f: nat)
    requires Forest(s) && Forest(t)
  {
    forall z {:trigger Resolve(t, z)} :: z in s.sets && z in t.sets ==>
      Resolve(t, z) == if Resolve(s, z) in hits then f else Resolve(s, z)
  }

  /** The pointers that were there come first; if all must alias, they did before. */
  predicate FirstKept(p: AliasSet, r: AliasSet) {
    (p.any <==> r.any) && (!r.may ==> !p.may) && p.pointers <= r.pointers
  }

  predicate HasPointer(s: State, x: nat, v: nat) {
    x in s.sets && v in s.sets[x].pointers
  }

  predicate HasUnknown(s: State, x: nat, inst: nat) {
    x in s.sets && inst in s.sets[x].unknownInsts
  }

  /** The set has the pointers, unknown instructions, accesses and volatility of all those sets, and no
      others. */
  ghost predicate AllOf(s: State, xs: set<nat>, a: AliasSet) {
    && (forall v :: v in a.pointers <==> exists x :: x in xs && HasPointer(s, x, v))
    && (forall i :: i in a.unknownInsts <==> exists x :: x in xs && HasUnknown(s, x, i))
    && (a.access.ref <==> exists x :: x in xs && x in s.sets && s.sets[x].access.ref)
    && (a.access.mod <==> exists x :: x in xs && x in s.sets && s.sets[x].access.mod)
    && (a.volatile <==> exists x :: x in xs && x in s.sets && s.sets[x].volatile)
  }

  lemma AllOfOne(s: State, x: nat, a: AliasSet)
    requires x in s.sets && SameBut(s.sets[x], a)
    ensures AllOf(s, {x}, a)
  {
    forall v ensures v in a.pointers <==> exists y :: y in {x} && HasPointer(s, y, v) {
      assert HasPointer(s, x, v) <==> v in a.pointers;
    }
    forall i ensures i in a.unknownInsts <==> exists y :: y in {x} && HasUnknown(s, y, i) {
      assert HasUnknown(s, x, i) <==> i in a.unknownInsts;
    }
    assert x in {x};
  }

  lemma AllOfNext(s: State, xs: set<nat>, x: nat, q: AliasSet, p: AliasSet, may: bool, a: AliasSet)
    requires AllOf(s, xs, q) && x in s.sets && SameBut(s.sets[x], p) && Union(q, p, may, a)
    ensures AllOf(s, xs + {x}, a)
  {
    assert x in xs + {x};
    forall v ensures v in a.pointers <==> exists y :: y in xs + {x} && HasPointer(s, y, v) {
      assert v in a.pointers <==> v in q.pointers || HasPointer(s, x, v);
      if v in q.pointers {
        var y :| y in xs && HasPointer(s, y, v);
        assert y in xs + {x};
      }
    }
    forall i ensures i in a.unknownInsts <==> exists y :: y in xs + {x} && HasUnknown(s, y, i) {
      assert i in a.unknownInsts <==> i in q.unknownInsts || HasUnknown(s, x, i);
      if i in q.unknownInsts {
        var y :| y in xs && HasUnknown(s, y, i);
        assert y in xs + {x};
      }
    }
    hide HasPointer, HasUnknown;
    if q.access.ref { var y :| y in xs && y in s.sets && s.sets[y].access.ref; assert y in xs + {x}; }
    if q.access.mod { var y :| y in xs && y in s.sets && s.sets[y].access.mod; assert y in xs + {x}; }
    if q.volatile { var y :| y in xs && y in s.sets && s.sets[y].volatile; assert y in xs + {x}; }
  }

  /** The sets in `hits`, and no others, have been merged into the first of them. */
  ghost predicate Gathered(s: State, t: State, hits: set<nat>, found: Option<nat>)
    requires Forest(s) && Forest(t)
  {
    && t.records == s.records && t.any == s.any && t.next == s.next
    && (found.None? <==> hits == {}) && (forall y :: y in hits ==> IsRoot(s, y))
    && (found.Some? ==> found.value in hits && IsRoot(t, found.value) && FirstKept(s.sets[found.value], t.sets[found.value])
                        && AllOf(s, hits, t.sets[found.value]) && forall y :: y in hits ==> found.value <= y)
    && (forall y :: y in t.sets ==> y in s.sets)
    && (forall y :: y in s.sets && y !in hits ==> y in t.sets && SameBut(s.sets[y], t.sets[y]))
    && (forall y :: y in t.sets && y in hits && Some(y) != found ==> t.sets[y].forward.Some?)
    && GatheredChains(s, t, hits, if found.Some? then found.value else 0)
  }

  lemma GatheredNone(s: State)
    requires Forest(s)
    ensures Gathered(s, s, {}, None)
  {
    hide Forest;
  }

  lemma GatheredFirst(s: State, t: State, x: nat)
    requires Forest(s) && Forest(t) && Gathered(s, t, {}, None) && IsRoot(s, x)
    ensures Gathered(s, t, {x}, Some(x))
  {
    hide Resolve, Forest, AllOf;
    AllOfOne(s, x, t.sets[x]);
  }

  lemma GatheredNext(s: State, t: State, u: State, hits: set<nat>, f: nat, x: nat, may: bool)
    requires Forest(s) && Forest(t) && Forest(u) && Gathered(s, t, hits, Some(f)) && IsRoot(s, x) && x !in hits
    requires Merged(t, u, f, x, may) && (t.sets[f].may ==> may) && f < x
    ensures Gathered(s, u, hits + {x}, Some(f))
  {
    hide Resolve, Forest, MergedChains, GatheredChains, AllOf, FirstKept, Union, SameBut;
    forall y | y in s.sets && y !in hits + {x} ensures y in u.sets && SameBut(s.sets[y], u.sets[y]) {
      SameButTrans(s.sets[y], t.sets[y], u.sets[y]);
    }
    forall y | y in u.sets && y in hits && y != f ensures u.sets[y].forward.Some? {
      SameForward(t.sets[y], u.sets[y]);
    }
    GatheredChainsNext(s, t, u, hits, f, x);
    AllOfNext(s, hits, x, t.sets[f], t.sets[x], may, u.sets[f]);
    FirstKeptNext(s.sets[f], t.sets[f], t.sets[x], may, u.sets[f]);
  }

  lemma SameButTrans(a: AliasSet, b: AliasSet, c: AliasSet)
    requires SameBut(a, b) && SameBut(b, c)
    ensures SameBut(a, c)
  {
  }

  lemma FirstKeptNext(p: AliasSet, q: AliasSet, b: AliasSet, may: bool, r: AliasSet)
    requires FirstKept(p, q) && Union(q, b, may, r) && (q.may ==> may)
    ensures FirstKept(p, r)
  {
  }

  lemma GatheredChainsNext(s: State, t: State, u: State, hits: set<nat>, f: nat, x: nat)
    requires Forest(s) && Forest(t) && Forest(u) && GatheredChains(s, t, hits, f) && MergedChains(t, u, f, x) && x !in hits && x != f
    requires forall y :: y in u.sets ==> y in t.sets
    ensures GatheredChains(s, u, hits + {x}, f)
  {
    hide Resolve, Forest;
  }

  lemma GatheredIsCoarser(s: State, t: State, hits: set<nat>, found: Option<nat>)
    requires Forest(s) && Forest(t) && Listed(t) && Gathered(s, t, hits, found)
    ensures Coarser(s, t)
  {
    hide Resolve, Forest, SetLists, AllOf, FirstKept;
    forall u, w | Together(s, u, w) ensures Together(t, u, w) {
      assert RecordListed(t, u) && RecordListed(t, w);
    }
  }

  /** Before saturation, or with everything in the one set, merging cannot break saturation. */
  lemma GatheredSaturated(s: State, t: State, hits: set<nat>, found: Option<nat>)
    requires Forest(s) && Forest(t) && Saturated(s) && Gathered(s, t, hits, found)
    ensures Saturated(t)
  {
    hide Resolve, Forest, GatheredChains, AllOf;
  }

  /** A later root may be merged into the one found. */
  lemma GatheredMergeable(s: State, t: State, hits: set<nat>, f: nat, x: nat)
    requires Forest(s) && Forest(t) && Saturated(s) && Gathered(s, t, hits, Some(f)) && IsRoot(s, x) && x !in hits && f < x
    ensures Mergeable(t, f, x)
  {
    hide Resolve, Forest, GatheredChains, AllOf;
  }

  // ---- Pointers come ----

  /** A pointer has been put at the end of the list of a root; sizes may have grown. */
  ghost predicate Extended(s: State, t: State, x: nat, v: nat)
    requires Forest(s) && Forest(t)
  {
    && IsRoot(s, x) && t.any == s.any && t.next == s.next && t.order == s.order && t.sets.Keys == s.sets.Keys && SameChains(s, t)
    && v !in s.records && v in t.records && t.records[v].home == x
    && (forall w :: w in s.records ==> w in t.records && t.records[w].home == s.records[w].home)
    && (forall w :: w in t.records ==> w in s.records || w == v)
    && t.sets[x].pointers == s.sets[x].pointers + [v] && t.sets[x].unknownInsts == s.sets[x].unknownInsts && IsRoot(t, x)
    && t.sets[x].any == s.sets[x].any && (s.sets[x].may ==> t.sets[x].may)
    && t.sets[x].access == s.sets[x].access && t.sets[x].volatile == s.sets[x].volatile
    && forall y :: y in s.sets && y != x ==> t.sets[y] == s.sets[y]
  }

  /** Whether the pointers of `x` must alias, and sizes, may have changed. */
  ghost predicate Touched(s: State, t: State, x: nat)
    requires Forest(s) && Forest(t)
  {
    && IsRoot(s, x) && t.any == s.any && t.next == s.next && t.order == s.order && t.sets.Keys == s.sets.Keys && SameChains(s, t)
    && t.records.Keys == s.records.Keys && (forall w :: w in s.records ==> t.records[w].home == s.records[w].home)
    && t.sets[x].pointers == s.sets[x].pointers && IsRoot(t, x) && t.sets[x].unknownInsts == s.sets[x].unknownInsts
    && t.sets[x].any == s.sets[x].any && (s.sets[x].may ==> t.sets[x].may)
    && t.sets[x].access == s.sets[x].access && t.sets[x].volatile == s.sets[x].volatile
    && forall y :: y in s.sets && y != x ==> t.sets[y] == s.sets[y]
  }

  lemma TouchedItself(s: State, x: nat)
    requires Forest(s) && IsRoot(s, x)
    ensures Touched(s, s, x)
  {
  }

  /** A reference and a pointer are added after flags or sizes have changed. */
  lemma TouchedThenAdded(s: State, s1: State, x: nat, v: nat, size: nat)
    requires Forest(s) && Invariant(s1, multiset{}) && Touched(s, s1, x) && v !in s.records && Alive(s1, {x})
    ensures x in s1.sets
    ensures var t := Added(WithCount(s1, x, s1.sets[x].refCount + 1), x, v, size);
            Invariant(t, multiset{}) && Extended(s, t, x, v) && Alive(t, {})
  {
    hide Resolve, Listed, Counted, Forest, Shape, Touched, Extended;
    TouchedRoot(s, s1, x, v);
    var s2 := WithCount(s1, x, s1.sets[x].refCount + 1);
    CountUp(s1, multiset{}, x);
    SameForwards(s1, s2);
    RecordAdded(s2, Plus(multiset{}, x), x, v, size);
    assert Minus(Plus(multiset{}, x), x) == multiset{};
    AddedExtends(s, s1, x, v, size);
  }

  lemma TouchedRoot(s: State, s1: State, x: nat, v: nat)
    requires Forest(s) && Forest(s1) && Touched(s, s1, x) && v !in s.records
    ensures IsRoot(s1, x) && v !in s1.records
  {
  }

  lemma AddedExtends(s: State, s1: State, x: nat, v: nat, size: nat)
    requires Forest(s) && Forest(s1) && Touched(s, s1, x) && v !in s.records && x in s1.sets
    requires var t := Added(WithCount(s1, x, s1.sets[x].refCount + 1), x, v, size); Forest(t) && SameChains(s1, t)
    ensures Extended(s, Added(WithCount(s1, x, s1.sets[x].refCount + 1), x, v, size), x, v)
  {
    hide Resolve, Forest;
  }

  /** An unknown instruction has been added to a root. */
  ghost predicate Noted(s: State, t: State, x: nat, inst: nat)
    requires Forest(s) && Forest(t)
  {
    && IsRoot(s, x) && t == s.(sets := t.sets) && t.sets.Keys == s.sets.Keys && SameChains(s, t)
    && IsRoot(t, x) && t.sets[x].unknownInsts == s.sets[x].unknownInsts + [inst] && t.sets[x].pointers == s.sets[x].pointers
    && t.sets[x].may && t.sets[x].any == s.sets[x].any && t.sets[x].volatile == s.sets[x].volatile
    && forall y :: y in s.sets && y != x ==> t.sets[y] == s.sets[y]
  }

  lemma NotedKeeps(s: State, t: State, x: nat, inst: nat)
    requires Forest(s) && Forest(t) && Noted(s, t, x, inst)
    ensures Coarser(s, t) && (Saturated(s) ==> Saturated(t))
  {
    hide Resolve, Forest;
  }

  lemma WithUnknownIs(s: State, x: nat, inst: nat)
    requires x in s.sets
    ensures WithUnknown(s, x, inst) == SetSet(s, x, s.sets[x].(unknownInsts := s.sets[x].unknownInsts + [inst]))
  {
  }

  /** An instruction is added, with a reference if it is the first. */
  lemma NotedStep(s: State, x: nat, a: AliasSet, inst: nat)
    requires Invariant(s, multiset{}) && Alive(s, {x}) && IsRoot(s, x) && a.may
    requires a == s.sets[x].(may := a.may, access := a.access)
    ensures var n := if a.unknownInsts == [] then a.refCount + 1 else a.refCount;
            var t := SetSet(s, x, a.(refCount := n, unknownInsts := a.unknownInsts + [inst]));
            Invariant(t, multiset{}) && Alive(t, {}) && Noted(s, t, x, inst)
  {
    hide Resolve, Listed, Counted, Forest, Shape, WithUnknown;
    var n := if a.unknownInsts == [] then a.refCount + 1 else a.refCount;
    var t := SetSet(s, x, a.(refCount := n, unknownInsts := a.unknownInsts + [inst]));
    FlaggedInvariant(s, multiset{}, x, a);
    var s1 := SetSet(s, x, a);
    if a.unknownInsts == [] {
      CountUp(s1, multiset{}, x);
      var s2 := WithCount(s1, x, n);
      AddedUnknown(s2, Plus(multiset{}, x), x, inst);
      assert Minus(Plus(multiset{}, x), x) == multiset{};
      WithUnknownIs(s2, x, inst);
      assert WithUnknown(s2, x, inst) == t;
    } else {
      AddedUnknown(s1, multiset{}, x, inst);
      WithUnknownIs(s1, x, inst);
      assert WithUnknown(s1, x, inst) == t;
      UnknownIsReferred(s, x);
    }
    SameForwards(s, t);
  }

  lemma UnknownIsReferred(s: State, x: nat)
    requires Counted(s, multiset{}) && x in s.sets && s.sets[x].unknownInsts != []
    ensures s.sets[x].refCount > 0
  {
    hide Homes, Forwarders;
    assert CountOf(s, multiset{}, x);
  }

  // ---- Pointers go ----

  /** Pointers other than `v` that were in the same set still are. */
  ghost predicate CoarserBut(s: State, t: State, v: nat)
    requires Forest(s) && Forest(t)
  {
    forall u, w {:trigger Together(s, u, w)} :: Together(s, u, w) && u != v && w != v ==> Together(t, u, w)
  }

  /** The pointer has been taken out, and its set has lost a reference. */
  lemma ForgottenThenShrunk(s: State, t: State, v: nat)
    requires Forest(s) && v in s.records && s.records[v].home in s.sets && IsRoot(s, s.records[v].home)
    requires Forest(Forgotten(s, v)) && SameChains(s, Forgotten(s, v)) && Forest(t) && Listed(t)
    requires s.records[v].home in Forgotten(s, v).sets && Shrunk(Forgotten(s, v), t, s.records[v].home)
    ensures t.records == s.records - {v} && t.any == s.any && CoarserBut(s, t, v)
    ensures Saturated(s) ==> Saturated(t)
    ensures var x := s.records[v].home;
            x in t.sets ==> IsRoot(t, x) && t.sets[x].pointers == DropPointer(s.sets[x].pointers, v)
                            && t.sets[x].unknownInsts == s.sets[x].unknownInsts
    ensures var x := s.records[v].home;
            x !in t.sets ==> DropPointer(s.sets[x].pointers, v) == [] && s.sets[x].unknownInsts == []
  {
    hide Resolve, Forest, OnChain, DropPointer, SetLists;
    var s1, x := Forgotten(s, v), s.records[v].home;
    RootResolves(s, x);
    ShrunkChains(s1, t, x);
    SameChainsTrans(s, s1, t);
    forall u, w | Together(s, u, w) && u != v && w != v ensures Together(t, u, w) {
      assert RecordListed(t, u) && RecordListed(t, w);
    }
    if x !in t.sets {
      assert Gone(s1, x, x);
    }
  }

  // ---- Merging everything ----

  /** The sets before the `i`-th of the list forward to `a`, or are gone; the others are as they
      were but for reference counts. */
  ghost predicate MergedUpTo(s: State, t: State, a: nat, i: nat)
    requires Forest(s) && Forest(t) && i <= |s.order|
  {
    && t.records == s.records && t.any == Some(a) && t.next == s.next && IsRoot(t, a) && a !in s.order
    && (forall y :: y in t.sets ==> y in s.order || y == a)
    && (forall j :: 0 <= j < i ==> s.order[j] in t.sets ==> t.sets[s.order[j]].forward == Some(a))
    && (forall j :: i <= j < |s.order| ==> LeftAlone(s, t, s.order[j]))
  }

  predicate LeftAlone(s: State, t: State, y: nat) {
    y in s.sets && y in t.sets && SameBut(s.sets[y], t.sets[y])
  }

  lemma NothingMergedYet(s: State, t: State, a: AliasSet)
    requires Shape(s) && Forest(s) && Forest(t) && s.any.None? && t == Pushed(s, a, Some(s.next)) && a.forward.None?
    ensures MergedUpTo(s.(next := t.next), t, s.next, 0)
  {
    hide Increasing;
    forall j | 0 <= j < |s.order| ensures LeftAlone(s, t, s.order[j]) {
      assert s.order[j] in s.order;
    }
  }

  /** The next set of the list has not gone; if it forwards, then to a set that has been visited. */
  lemma NextToMerge(s: State, t: State, a: nat, i: nat)
    requires Shape(s) && Forest(s) && Forest(t) && s.any.None? && i < |s.order| && MergedUpTo(s, t, a, i)
    ensures var x := s.order[i];
            && x in t.sets && x != a && (t.sets[x].forward.None? ==> Mergeable(t, a, x))
            && (t.sets[x].forward.Some? ==> i > 0 && t.sets[x].forward.value in t.sets && t.sets[x].forward.value < x
                                            && Resolve(t, x) == a && Resolve(t, t.sets[x].forward.value) == a)
  {
    hide Forest;
    var x := s.order[i];
    assert LeftAlone(s, t, x);
    assert x in s.order;
    if t.sets[x].forward.Some? {
      var f := t.sets[x].forward.value;
      BackAt(s, x);
      BackAt(t, x);
      assert f in s.order;
      NextResolves(t, f);
      NextResolves(t, x);
      RootResolves(t, a);
    }
  }

  lemma StillLeftAlone(s: State, t: State, u: State, a: nat, x: nat, may: bool, y: nat)
    requires Forest(t) && Forest(u) && Merged(t, u, a, x, may) && LeftAlone(s, t, y) && y != a && y != x
    ensures LeftAlone(s, u, y)
  {
    hide Forest, MergedChains, Union;
  }

  /** The next set was a root and has been merged. */
  lemma MergedNextRoot(s: State, t: State, u: State, a: nat, i: nat, may: bool)
    requires Shape(s) && Forest(s) && Forest(t) && Forest(u) && i < |s.order| && MergedUpTo(s, t, a, i)
    requires s.order[i] in t.sets && Merged(t, u, a, s.order[i], may)
    ensures MergedUpTo(s, u, a, i + 1)
  {
    hide Forest, MergedChains, Union, LeftAlone;
    var x := s.order[i];
    forall j | i < j < |s.order| ensures LeftAlone(s, u, s.order[j]) {
      assert LeftAlone(s, t, s.order[j]);
      assert s.order[j] in s.order;
      StillLeftAlone(s, t, u, a, x, may, s.order[j]);
    }
    forall j | 0 <= j < i && s.order[j] in u.sets ensures u.sets[s.order[j]].forward == Some(a) {
      assert s.order[j] in s.order && s.order[j] in t.sets;
    }
  }

  /** The next set forwarded, now forwards to `a`, and the set it forwarded to has lost a
      reference; that set has been visited before. */
  lemma MergedNextForwarder(s: State, t: State, t1: State, u: State, a: nat, i: nat, f: nat)
    requires Shape(s) && Forest(s) && Forest(t) && Forest(t1) && Forest(u) && i < |s.order| && MergedUpTo(s, t, a, i)
    requires var x := s.order[i];
             && Redirected(t, t1, x, a) && f in t1.sets && f < x && Resolve(t1, f) == a && Shrunk(t1, u, f)
             && forall y :: y in t.sets && y != x ==> SameBut(t.sets[y], t1.sets[y])
    ensures MergedUpTo(s, u, a, i + 1)
  {
    hide Forest, Resolve, Shrunk, Redirected, MergedUpTo, Shape, SameBut;
    var x := s.order[i];
    UpToFacts(s, t, a, i);
    RedirectedShape(t, t1, x, a);
    EarlierGone(t1, u, x, f, a);
    UpToNext(s, t, t1, u, a, i, f);
  }

  lemma UpToFacts(s: State, t: State, a: nat, i: nat)
    requires Forest(s) && Forest(t) && Shape(s) && i < |s.order| && MergedUpTo(s, t, a, i)
    ensures s.order[i] != a && IsRoot(t, a)
  {
    assert s.order[i] in s.order;
  }

  lemma RedirectedShape(t: State, t1: State, x: nat, a: nat)
    requires Forest(t) && Forest(t1) && Redirected(t, t1, x, a) && IsRoot(t, a) && x != a
    ensures t1.records == t.records && t1.any == t.any && t1.next == t.next && t1.sets.Keys == t.sets.Keys
    ensures x in t1.sets && t1.sets[x].forward == Some(a) && IsRoot(t1, a)
    ensures forall y :: y in t.sets && y != x ==> t1.sets[y].forward == t.sets[y].forward
  {
    hide Forest, SameChains;
  }

  lemma UpToNext(s: State, t: State, t1: State, u: State, a: nat, i: nat, f: nat)
    requires Shape(s) && Forest(s) && Forest(t) && Forest(u) && i < |s.order| && MergedUpTo(s, t, a, i) && f < s.order[i]
    requires t1.records == t.records && t1.any == t.any && t1.next == t.next && t1.sets.Keys == t.sets.Keys
    requires u.records == t1.records && u.any == t1.any && u.next == t1.next && IsRoot(u, a)
    requires s.order[i] in u.sets && t1.sets[s.order[i]].forward == Some(a)
    requires forall y :: y in u.sets ==> y in t1.sets && SameBut(t1.sets[y], u.sets[y])
    requires forall y :: y in t1.sets && y !in u.sets ==> y <= f
    requires forall y :: y in t.sets && y != s.order[i] ==>
               t1.sets[y].forward == t.sets[y].forward && SameBut(t.sets[y], t1.sets[y])
    ensures MergedUpTo(s, u, a, i + 1)
  {
    hide Forest, LeftAlone, SameBut, Increasing;
    forall j | i < j < |s.order| ensures LeftAlone(s, u, s.order[j]) {
      assert LeftAlone(s, t, s.order[j]);
      InListOrder(s, i, j);
      assert s.order[j] in t.sets by { AloneIsThere(s, t, s.order[j]); }
      StillAlone(s, t, t1, u, s.order[j]);
    }
    forall j | 0 <= j < i && s.order[j] in u.sets ensures u.sets[s.order[j]].forward == Some(a) {
      InListOrder(s, j, i);
      SameForward(t1.sets[s.order[j]], u.sets[s.order[j]]);
    }
    SameForward(t1.sets[s.order[i]], u.sets[s.order[i]]);
  }

  lemma InListOrder(s: State, i: nat, j: nat)
    requires Shape(s) && i < j < |s.order|
    ensures s.order[i] < s.order[j] && s.order[i] in s.order && s.order[j] in s.order
  {
  }

  lemma SameForward(a: AliasSet, b: AliasSet)
    requires SameBut(a, b)
    ensures b.forward == a.forward
  {
  }

  lemma AloneIsThere(s: State, t: State, y: nat)
    requires LeftAlone(s, t, y)
    ensures y in t.sets
  {
  }

  lemma StillAlone(s: State, t: State, t1: State, u: State, y: nat)
    requires LeftAlone(s, t, y) && y in t1.sets && SameBut(t.sets[y], t1.sets[y]) && y in u.sets && SameBut(t1.sets[y], u.sets[y])
    ensures LeftAlone(s, u, y)
  {
  }

  /** Of the sets on the chain of `f` only earlier ones can have gone: the end is pointed to by `x`. */
  lemma EarlierGone(t1: State, u: State, x: nat, f: nat, a: nat)
    requires Forest(t1) && Forest(u) && f in t1.sets && x in t1.sets && f < x && x != a && IsRoot(t1, a)
    requires Resolve(t1, f) == a && t1.sets[x].forward == Some(a) && Shrunk(t1, u, f)
    ensures u.records == t1.records && u.any == t1.any && u.next == t1.next && IsRoot(u, a) && x in u.sets
    ensures forall y :: y in u.sets ==> y in t1.sets && SameBut(t1.sets[y], u.sets[y])
    ensures forall y :: y in t1.sets && y !in u.sets ==> y <= f
  {
    hide Forest, Resolve, OnChain;
    forall y | y in t1.sets && y !in u.sets ensures y <= f || y == a {
      GoneIsEarlier(t1, f, y);
    }
    assert x in u.sets;
    BackAt(u, x);
  }

  lemma AllMerged(s: State, t: State, a: nat)
    requires Shape(s) && Forest(s) && Forest(t) && MergedUpTo(s, t, a, |s.order|) && t.sets[a].any && t.sets[a].may
    ensures Saturated(t) && forall y :: y in t.sets && y != a ==> t.sets[y].forward == Some(a)
  {
    forall y | y in t.sets && y != a ensures t.sets[y].forward == Some(a) {
      var j :| 0 <= j < |s.order| && s.order[j] == y;
    }
  }

  /** With everything in one set, no pointers have been separated. */
  lemma OneSetIsCoarser(s: State, t: State, a: nat)
    requires Forest(s) && Forest(t) && Listed(t) && t.records == s.records && IsRoot(t, a)
    requires forall y :: y in t.sets && y != a ==> t.sets[y].forward == Some(a)
    ensures Coarser(s, t) && forall v :: v in t.records ==> EndsIn(t, v, a)
  {
    hide Resolve, Forest, SetLists;
    forall v | v in t.records ensures EndsIn(t, v, a) {
      assert RecordListed(t, v);
    }
    forall u, w | Together(s, u, w) ensures Together(t, u, w) {
      assert EndsIn(t, u, a) && EndsIn(t, w, a);
    }
  }

  /** The chain from the record's home ends in the set. */
  ghost predicate EndsIn(s: State, v: nat, x: nat)
    requires Forest(s)
  {
    v in s.records && s.records[v].home in s.sets && Resolve(s, s.records[v].home) == x
  }
}
