/** The alias sets of a tracker as a forest: merged sets forward to the set they went into, and
    reference counts keep alive what is still pointed to. */
module AliasSetForest {

  datatype Option<T> = None | Some(value: T)

  /** What a set of pointers is known to do to memory. */
  datatype Access = Access(ref: bool, mod: bool)

  /** A set, or, once it has been merged, the way to where its pointers went. */
  datatype AliasSet = AliasSet(forward: Option<nat>, refCount: nat, pointers: seq<nat>, unknownInsts: seq<nat>,
                               may: bool, access: Access, volatile: bool, any: bool)

  /** A pointer with the largest size it was accessed with and the set it was last known to be in. */
  datatype PointerRec = PointerRec(size: nat, home: nat)

  /** The sets by number, in the order of their list; the records; the set that aliases everything
      once the tracker is saturated; and the number of the next set. */
  datatype State = State(sets: map<nat, AliasSet>, order: seq<nat>, records: map<nat, PointerRec>, any: Option<nat>, next: nat)

  predicate Increasing(s: seq<nat>) {
    forall j, k :: 0 <= j < k < |s| ==> s[j] < s[k]
  }

  /** The list holds every set once, the oldest first. */
  ghost predicate Shape(s: State) {
    && Increasing(s.order) && (forall x :: x in s.order <==> x in s.sets)
    && (forall x :: x in s.sets ==> x < s.next) && (s.any.Some? ==> s.any.value < s.next)
    && (s.any.Some? && s.any.value in s.sets ==> IsRoot(s, s.any.value))
  }

  predicate IsRoot(s: State, x: nat) {
    x in s.sets && s.sets[x].forward.None?
  }

  /** A set forwards to an earlier one, or to the one that aliases everything. */
  predicate ForwardsBack(s: State, x: nat)
    requires x in s.sets
  {
    s.sets[x].forward.Some? ==>
      && s.sets[x].forward.value in s.sets
      && (s.sets[x].forward.value < x || (s.any == s.sets[x].forward && IsRoot(s, s.sets[x].forward.value)))
  }

  ghost predicate Forest(s: State) {
    forall x :: x in s.sets ==> ForwardsBack(s, x)
  }

  function Rank(s: State, x: nat): nat {
    if x in s.sets && s.sets[x].forward.Some? then x + 1 else 0
  }

  /** The end of the forwarding chain. */
  ghost function Resolve(s: State, x: nat): (r: nat)
    requires Forest(s) && x in s.sets
    ensures IsRoot(s, r)
    decreases Rank(s, x)
  {
    if s.sets[x].forward.None? then x
    else
      assert ForwardsBack(s, x);
      Resolve(s, s.sets[x].forward.value)
  }

  /** No chain ends elsewhere than before. */
  ghost predicate SameChains(s: State, t: State)
    requires Forest(s) && Forest(t)
  {
    forall z {:trigger Resolve(t, z)} :: z in s.sets && z in t.sets ==> Resolve(t, z) == Resolve(s, z)
  }

  /** The chains that ended in `b` now end in `a`. */
  ghost predicate MergedChains(s: State, t: State, a: nat, b: nat)
    requires Forest(s) && Forest(t)
  {
    forall z {:trigger Resolve(t, z)} :: z in s.sets && z in t.sets ==>
      Resolve(t, z) == if Resolve(s, z) == b then a else Resolve(s, z)
  }

  /** A record is in the list of the set that its home forwards to. */
  ghost predicate RecordListed(s: State, v: nat)
    requires Forest(s) && v in s.records
  {
    s.records[v].home in s.sets && v in s.sets[Resolve(s, s.records[v].home)].pointers
  }

  /** A set lists records, each once, whose homes forward to it; a set that forwards lists nothing;
      a set of pointers that must alias has no unknown instructions. */
  ghost predicate SetLists(s: State, x: nat)
    requires Forest(s) && x in s.sets
  {
    var a := s.sets[x];
    && (forall v :: v in a.pointers ==> v in s.records && s.records[v].home in s.sets && Resolve(s, s.records[v].home) == x)
    && NoneTwice(a.pointers)
    && (a.forward.Some? ==> a.pointers == [] && a.unknownInsts == [])
    && (!a.may ==> a.unknownInsts == [] && !a.any)
  }

  predicate NoneTwice(s: seq<nat>) {
    forall j, k :: 0 <= j < k < |s| ==> s[j] != s[k]
  }

  ghost predicate Listed(s: State)
    requires Forest(s)
  {
    && (forall v :: v in s.records ==> RecordListed(s, v))
    && forall x :: x in s.sets ==> SetLists(s, x)
  }

  ghost function Homes(s: State, x: nat): set<nat> {
    set v | v in s.records && s.records[v].home == x
  }

  ghost function Forwarders(s: State, x: nat): set<nat> {
    set y | y in s.sets && s.sets[y].forward == Some(x)
  }

  /** The reference count is the number of records and sets that point to the set, and one more if
      there are unknown instructions; `held` are references that an operation holds on to. */
  ghost predicate CountOf(s: State, held: multiset<nat>, x: nat)
    requires x in s.sets
  {
    s.sets[x].refCount == |Homes(s, x)| + |Forwarders(s, x)| + (if s.sets[x].unknownInsts != [] then 1 else 0) + held[x]
  }

  ghost predicate Counted(s: State, held: multiset<nat>) {
    (forall x :: x in s.sets ==> CountOf(s, held, x)) && forall x :: x in held ==> x in s.sets
  }

  ghost predicate Invariant(s: State, held: multiset<nat>) {
    Shape(s) && Forest(s) && Listed(s) && Counted(s, held)
  }

  /** Every set but `except` is referred to. */
  ghost predicate Alive(s: State, except: set<nat>) {
    forall x :: x in s.sets && x !in except ==> s.sets[x].refCount > 0
  }

  /** Once saturated, every set forwards but the one that aliases everything. */
  ghost predicate Saturated(s: State) {
    s.any.Some? && s.any.value in s.sets ==>
      IsRoot(s, s.any.value) && s.sets[s.any.value].any && s.sets[s.any.value].may && forall x :: x in s.sets && x != s.any.value ==> s.sets[x].forward.Some?
  }

  ghost predicate Valid(s: State) {
    Invariant(s, multiset{}) && Alive(s, {}) && Saturated(s)
  }

  // ---- What is promised ----

  /** Every record is in the list of exactly one set that does not forward, and following the
      forwarding chain from the record's own set ends there. */
  lemma ExactlyOneSet(s: State, v: nat)
    requires Valid(s) && v in s.records
    ensures s.records[v].home in s.sets
    ensures forall x :: IsRoot(s, x) ==> (v in s.sets[x].pointers <==> x == Resolve(s, s.records[v].home))
    ensures forall x :: x in s.sets && !IsRoot(s, x) ==> v !in s.sets[x].pointers
  {
    hide Resolve, Homes, Forwarders;
    assert RecordListed(s, v);
    forall x | x in s.sets ensures v in s.sets[x].pointers ==> x == Resolve(s, s.records[v].home) {
      assert SetLists(s, x);
    }
  }

  /** In a saturated tracker all pointers are in the set that aliases everything. */
  lemma SaturatedIsOneSet(s: State, v: nat)
    requires Valid(s) && s.any.Some? && s.any.value in s.sets && v in s.records
    ensures s.records[v].home in s.sets && Resolve(s, s.records[v].home) == s.any.value
  {
    hide Resolve, Homes, Forwarders;
    assert RecordListed(s, v);
  }

  /** Whatever set is live has, at the end of its chain, a pointer or an unknown instruction. */
  lemma {:induction false} LiveHasMember(s: State, held: multiset<nat>, x: nat)
    requires Invariant(s, held) && Alive(s, {}) && x in s.sets && s.sets[x].unknownInsts == []
    requires forall y :: y in s.sets ==> held[y] == 0
    ensures exists v :: v in s.records && s.records[v].home in s.sets && Resolve(s, s.records[v].home) == Resolve(s, x)
    decreases if IsRoot(s, x) then s.next + 1 else s.next - x
  {
    assert CountOf(s, held, x);
    if v :| v in Homes(s, x) {
      assert Resolve(s, s.records[v].home) == Resolve(s, x);
    } else {
      assert Homes(s, x) == {};
      assert Forwarders(s, x) != {};
      var y :| y in Forwarders(s, x);
      assert ForwardsBack(s, y) && SetLists(s, y);
      LiveHasMember(s, held, y);
    }
  }

  /** A set of pointers that must alias is never empty. */
  lemma MustAliasNotEmpty(s: State, held: multiset<nat>, x: nat)
    requires Invariant(s, held) && Alive(s, {}) && IsRoot(s, x) && s.sets[x].unknownInsts == []
    requires forall y :: y in s.sets ==> held[y] == 0
    ensures s.sets[x].pointers != []
  {
    hide Homes, Forwarders;
    LiveHasMember(s, held, x);
    var v :| v in s.records && s.records[v].home in s.sets && Resolve(s, s.records[v].home) == Resolve(s, x);
    assert RecordListed(s, v);
  }

  // ---- How chains change ----

  /** The chain does not change if no set on both sides forwards elsewhere than before. */
  lemma {:induction false} ResolveSame(s: State, t: State, x: nat)
    requires Forest(s) && Forest(t) && x in s.sets && x in t.sets
    requires forall y :: y in s.sets && y in t.sets ==> t.sets[y].forward == s.sets[y].forward
    ensures Resolve(t, x) == Resolve(s, x)
    decreases Rank(s, x)
  {
    if s.sets[x].forward.Some? {
      assert ForwardsBack(s, x) && ForwardsBack(t, x);
      ResolveSame(s, t, s.sets[x].forward.value);
    }
  }

  /** A root that now forwards to another root takes its chains along. */
  lemma {:induction false} ResolveMerged(s: State, t: State, a: nat, b: nat, x: nat)
    requires Forest(s) && Forest(t) && x in s.sets && t.sets.Keys == s.sets.Keys && IsRoot(s, b) && IsRoot(t, a) && IsRoot(s, a) && a != b
    requires t.sets[b].forward == Some(a) && forall y :: y in s.sets && y != b ==> t.sets[y].forward == s.sets[y].forward
    ensures Resolve(t, x) == if Resolve(s, x) == b then a else Resolve(s, x)
    decreases Rank(s, x)
  {
    assert ForwardsBack(s, x) && ForwardsBack(t, x);
    if x == b {
      assert Resolve(t, a) == a;
    } else if s.sets[x].forward.Some? {
      ResolveMerged(s, t, a, b, s.sets[x].forward.value);
    }
  }

  /** Pointing a set directly to the end of its chain changes no chain's end. */
  lemma {:induction false} ResolveCompressed(s: State, t: State, c: nat, x: nat)
    requires Forest(s) && Forest(t) && x in s.sets && t.sets.Keys == s.sets.Keys && c in s.sets && s.sets[c].forward.Some?
    requires t.sets[c].forward == Some(Resolve(s, c)) && forall y :: y in s.sets && y != c ==> t.sets[y].forward == s.sets[y].forward
    ensures Resolve(t, x) == Resolve(s, x)
    decreases Rank(s, x)
  {
    assert ForwardsBack(s, x) && ForwardsBack(t, x);
    if s.sets[x].forward.Some? {
      ResolveCompressed(s, t, c, s.sets[x].forward.value);
      if x == c {
        assert Resolve(s, Resolve(s, c)) == Resolve(s, c);
        assert Resolve(t, Resolve(s, c)) == Resolve(s, c);
      }
    }
  }

  lemma RecordListedSame(s: State, t: State, v: nat)
    requires Forest(s) && Forest(t) && t.records == s.records && v in s.records && RecordListed(s, v) && t.sets.Keys == s.sets.Keys
    requires var h := s.records[v].home;
             Resolve(t, h) == Resolve(s, h) && t.sets[Resolve(s, h)].pointers == s.sets[Resolve(s, h)].pointers
    ensures RecordListed(t, v)
  {
    hide Resolve, Forest;
  }

  lemma SetListsSame(s: State, t: State, x: nat)
    requires Forest(s) && Forest(t) && t.records == s.records && x in s.sets && SetLists(s, x) && t.sets.Keys == s.sets.Keys
    requires SameLists(s.sets[x], t.sets[x]) && SameChains(s, t)
    ensures SetLists(t, x)
  {
    hide Resolve, Forest;
  }

  /** Lists stay right if neither lists, records nor the ends of chains change. */
  lemma ListedSame(s: State, t: State)
    requires Forest(s) && Forest(t) && Listed(s) && t.records == s.records && t.sets.Keys == s.sets.Keys
    requires SameChains(s, t) && forall x :: x in s.sets ==> SameLists(s.sets[x], t.sets[x])
    ensures Listed(t)
  {
    hide Resolve, Forest, SetLists;
    forall v | v in t.records ensures RecordListed(t, v) {
      assert RecordListed(s, v);
      assert SameLists(s.sets[Resolve(s, s.records[v].home)], t.sets[Resolve(s, s.records[v].home)]);
      RecordListedSame(s, t, v);
    }
    forall x | x in t.sets ensures SetLists(t, x) {
      assert SetLists(s, x);
      SetListsSame(s, t, x);
    }
  }

  predicate SameLists(a: AliasSet, b: AliasSet) {
    && b.pointers == a.pointers && b.unknownInsts == a.unknownInsts && (a.may ==> b.may) && b.any == a.any
    && (a.forward.Some? <==> b.forward.Some?)
  }

  // ---- Counting ----

  ghost function Plus(held: multiset<nat>, x: nat): multiset<nat> {
    held + multiset{x}
  }

  ghost function Minus(held: multiset<nat>, x: nat): multiset<nat> {
    held - multiset{x}
  }

  function SetSet(s: State, x: nat, a: AliasSet): State {
    s.(sets := s.sets[x := a])
  }

  function WithCount(s: State, x: nat, n: nat): State
    requires x in s.sets
  {
    SetSet(s, x, s.sets[x].(refCount := n))
  }

  lemma CountedUp(s: State, held: multiset<nat>, x: nat)
    requires Counted(s, held) && x in s.sets
    requires var t := WithCount(s, x, s.sets[x].refCount + 1);
             forall y :: Homes(t, y) == Homes(s, y) && Forwarders(t, y) == Forwarders(s, y)
    ensures Counted(WithCount(s, x, s.sets[x].refCount + 1), Plus(held, x))
  {
    hide Homes, Forwarders, CountOf;
    forall y | y in s.sets ensures CountOf(WithCount(s, x, s.sets[x].refCount + 1), Plus(held, x), y) {
      CountRefAt(s, held, x, s.sets[x].refCount + 1, y);
    }
  }

  lemma CountedDown(s: State, held: multiset<nat>, x: nat)
    requires Counted(s, held) && held[x] > 0 && x in s.sets && s.sets[x].refCount > 0
    requires var t := WithCount(s, x, s.sets[x].refCount - 1);
             forall y :: Homes(t, y) == Homes(s, y) && Forwarders(t, y) == Forwarders(s, y)
    ensures Counted(WithCount(s, x, s.sets[x].refCount - 1), Minus(held, x))
  {
    hide Homes, Forwarders, CountOf;
    forall y | y in s.sets ensures CountOf(WithCount(s, x, s.sets[x].refCount - 1), Minus(held, x), y) {
      CountRefAt(s, held, x, s.sets[x].refCount - 1, y);
    }
  }

  /** One more reference, which is then held. */
  lemma CountUp(s: State, held: multiset<nat>, x: nat)
    requires Invariant(s, held) && x in s.sets
    ensures Invariant(WithCount(s, x, s.sets[x].refCount + 1), Plus(held, x))
  {
    hide Resolve, Homes, Forwarders, SetLists, Forest, Listed, Counted, Shape;
    Flagged(s, x, s.sets[x].(refCount := s.sets[x].refCount + 1));
    CountedUp(s, held, x);
  }

  /** A reference that was held is given up. */
  lemma CountDown(s: State, held: multiset<nat>, x: nat)
    requires Invariant(s, held) && held[x] > 0
    ensures x in s.sets && s.sets[x].refCount > 0
    ensures Invariant(WithCount(s, x, s.sets[x].refCount - 1), Minus(held, x))
  {
    hide Resolve, Homes, Forwarders, SetLists, Forest, Listed, Counted, Shape;
    HeldCounts(s, held, x);
    Flagged(s, x, s.sets[x].(refCount := s.sets[x].refCount - 1));
    CountedDown(s, held, x);
  }

  /** Changing neither where a set forwards nor its lists. */
  lemma Flagged(s: State, x: nat, a: AliasSet)
    requires Shape(s) && Forest(s) && Listed(s) && x in s.sets && a.forward == s.sets[x].forward && SameLists(s.sets[x], a)
    ensures var t := SetSet(s, x, a);
            && Shape(t) && Forest(t) && Listed(t) && (forall y :: Homes(t, y) == Homes(s, y) && Forwarders(t, y) == Forwarders(s, y))
            && SameChains(s, t)
  {
    hide Resolve, Homes, Forwarders, SetLists, Forest, Listed;
    var t := SetSet(s, x, a);
    FlagsKeepForest(s, t);
    CountsKept(s, t);
  }

  /** The same, with the reference count unchanged too. */
  lemma FlaggedInvariant(s: State, held: multiset<nat>, x: nat, a: AliasSet)
    requires Invariant(s, held) && x in s.sets && a.forward == s.sets[x].forward && SameLists(s.sets[x], a)
    requires a.refCount == s.sets[x].refCount
    ensures Invariant(SetSet(s, x, a), held)
    ensures SameChains(s, SetSet(s, x, a))
  {
    hide Resolve, Homes, Forwarders, SetLists, Forest, Listed, Counted, Shape;
    Flagged(s, x, a);
    CountedSame(s, SetSet(s, x, a), held);
  }

  lemma CountedSame(s: State, t: State, held: multiset<nat>)
    requires Counted(s, held) && t.sets.Keys == s.sets.Keys
    requires forall y :: Homes(t, y) == Homes(s, y) && Forwarders(t, y) == Forwarders(s, y)
    requires forall y :: y in s.sets ==>
               t.sets[y].refCount == s.sets[y].refCount && (t.sets[y].unknownInsts == [] <==> s.sets[y].unknownInsts == [])
    ensures Counted(t, held)
  {
    hide Homes, Forwarders, CountOf;
    forall y | y in t.sets ensures CountOf(t, held, y) {
      CountSame(s, t, held, y);
    }
  }

  lemma CountSame(s: State, t: State, held: multiset<nat>, y: nat)
    requires y in s.sets && y in t.sets && CountOf(s, held, y) && Homes(t, y) == Homes(s, y) && Forwarders(t, y) == Forwarders(s, y)
    requires t.sets[y].refCount == s.sets[y].refCount && (t.sets[y].unknownInsts == [] <==> s.sets[y].unknownInsts == [])
    ensures CountOf(t, held, y)
  {
    hide Homes, Forwarders;
  }

  lemma HeldCounts(s: State, held: multiset<nat>, x: nat)
    requires Counted(s, held) && held[x] > 0
    ensures x in s.sets && s.sets[x].refCount > 0
  {
    hide Homes, Forwarders;
    assert CountOf(s, held, x);
  }

  lemma CountRefAt(s: State, held: multiset<nat>, x: nat, n: nat, y: nat)
    requires x in s.sets && y in s.sets && CountOf(s, held, y)
    requires var t := SetSet(s, x, s.sets[x].(refCount := n)); Homes(t, y) == Homes(s, y) && Forwarders(t, y) == Forwarders(s, y)
    ensures n == s.sets[x].refCount + 1 ==> CountOf(SetSet(s, x, s.sets[x].(refCount := n)), Plus(held, x), y)
    ensures n + 1 == s.sets[x].refCount && held[x] > 0 ==> CountOf(SetSet(s, x, s.sets[x].(refCount := n)), Minus(held, x), y)
  {
    hide Homes, Forwarders;
  }

  /** Changing anything but forwarding, lists and homes. */
  lemma FlagsKeepForest(s: State, t: State)
    requires Forest(s) && Listed(s) && t == s.(sets := t.sets) && t.sets.Keys == s.sets.Keys
    requires forall x :: x in s.sets ==> t.sets[x].forward == s.sets[x].forward && SameLists(s.sets[x], t.sets[x])
    ensures Forest(t) && Listed(t) && SameChains(s, t)
  {
    hide Listed;
    forall x | x in s.sets ensures ForwardsBack(t, x) {
      assert ForwardsBack(s, x);
      assert s.sets[x].forward.Some? ==> SameLists(s.sets[s.sets[x].forward.value], t.sets[s.sets[x].forward.value]);
    }
    forall x {:trigger Resolve(t, x)} | x in s.sets ensures Resolve(t, x) == Resolve(s, x) {
      ResolveSame(s, t, x);
    }
    ListedSame(s, t);
  }

  lemma CountsKept(s: State, t: State)
    requires t == s.(sets := t.sets) && t.sets.Keys == s.sets.Keys && forall x :: x in s.sets ==> t.sets[x].forward == s.sets[x].forward
    ensures forall x :: Homes(t, x) == Homes(s, x) && Forwarders(t, x) == Forwarders(s, x)
  {
  }

  /** A set forwards somewhere else: the reference it uses was held, the one it gives up is. */
  lemma CountForward(s: State, held: multiset<nat>, x: nat, d: nat)
    requires Counted(s, held) && x in s.sets && d in s.sets && held[d] > 0 && ForwardsBack(s, x)
    ensures Counted(SetSet(s, x, s.sets[x].(forward := Some(d))), HeldAfter(s, held, x, d))
  {
    hide Homes, Forwarders;
    var t := SetSet(s, x, s.sets[x].(forward := Some(d)));
    forall y | y in t.sets ensures CountOf(t, HeldAfter(s, held, x, d), y) {
      assert CountOf(s, held, y);
      HomesKept(s, t, y);
      ForwardersMoved(s, x, d, y);
    }
  }

  /** What is held after `x` has been made to forward to `d`. */
  ghost function HeldAfter(s: State, held: multiset<nat>, x: nat, d: nat): multiset<nat>
    requires x in s.sets
  {
    if s.sets[x].forward.Some? then Plus(Minus(held, d), s.sets[x].forward.value) else Minus(held, d)
  }

  lemma HomesKept(s: State, t: State, y: nat)
    requires t.records == s.records
    ensures Homes(t, y) == Homes(s, y)
  {
  }

  lemma ForwardersKept(s: State, t: State, y: nat)
    requires t.sets == s.sets
    ensures Forwarders(t, y) == Forwarders(s, y)
  {
  }

  lemma WithAndWithout(f: set<nat>, x: nat)
    ensures |f + {x}| == |f| + (if x in f then 0 else 1) && |f - {x}| == |f| - (if x in f then 1 else 0)
  {
    if x in f {
      assert f + {x} == f;
    } else {
      assert f - {x} == f;
    }
  }

  lemma ForwarderMoved(s: State, x: nat, d: nat, y: nat, z: nat)
    requires x in s.sets
    ensures var t := SetSet(s, x, s.sets[x].(forward := Some(d)));
            z in Forwarders(t, y) <==> if z == x then y == d else z in Forwarders(s, y)
    ensures x in Forwarders(s, y) <==> s.sets[x].forward == Some(y)
  {
  }

  lemma ForwardersMoved(s: State, x: nat, d: nat, y: nat)
    requires x in s.sets
    ensures var t := SetSet(s, x, s.sets[x].(forward := Some(d)));
            |Forwarders(t, y)| == |Forwarders(s, y)| + (if y == d then 1 else 0) - (if s.sets[x].forward == Some(y) then 1 else 0)
  {
    hide Forwarders, SetSet;
    var t := SetSet(s, x, s.sets[x].(forward := Some(d)));
    var f, g := Forwarders(s, y), Forwarders(t, y);
    forall z ensures z in g <==> if z == x then y == d else z in f {
      ForwarderMoved(s, x, d, y, z);
    }
    ForwarderMoved(s, x, d, y, x);
    MemberMoved(f, g, x, y == d);
  }

  lemma MemberMoved(f: set<nat>, g: set<nat>, x: nat, there: bool)
    requires forall z :: z in g <==> if z == x then there else z in f
    ensures |g| == |f| + (if there then 1 else 0) - (if x in f then 1 else 0)
  {
    assert g == if there then f + {x} else f - {x};
    WithAndWithout(f, x);
  }

  function SetRecord(s: State, v: nat, r: PointerRec): State {
    s.(records := s.records[v := r])
  }

  lemma HomesMoved(s: State, v: nat, r: PointerRec, y: nat)
    ensures |Homes(SetRecord(s, v, r), y)|
            == |Homes(s, y)| + (if y == r.home then 1 else 0) - (if v in s.records && s.records[v].home == y then 1 else 0)
  {
    var t := SetRecord(s, v, r);
    var h := Homes(s, y);
    assert v in h <==> v in s.records && s.records[v].home == y;
    assert Homes(t, y) == if y == r.home then h + {v} else h - {v};
    WithAndWithout(h, v);
  }

  /** A record, new or not, is given a home. */
  lemma CountHome(s: State, held: multiset<nat>, v: nat, r: PointerRec)
    requires Counted(s, held) && held[r.home] > 0 && (v in s.records ==> s.records[v].home in s.sets)
    ensures Counted(SetRecord(s, v, r), if v in s.records then Plus(Minus(held, r.home), s.records[v].home) else Minus(held, r.home))
  {
    hide Homes, Forwarders;
    var t := SetRecord(s, v, r);
    var held' := if v in s.records then Plus(Minus(held, r.home), s.records[v].home) else Minus(held, r.home);
    forall y | y in t.sets ensures CountOf(t, held', y) {
      assert CountOf(s, held, y);
      ForwardersKept(s, t, y);
      HomesMoved(s, v, r, y);
    }
  }

  /** A record is forgotten. */
  lemma CountForgotten(s: State, held: multiset<nat>, v: nat)
    requires Counted(s, held) && v in s.records && s.records[v].home in s.sets
    ensures Counted(s.(records := s.records - {v}), Plus(held, s.records[v].home))
  {
    hide Forwarders, Homes;
    var t := s.(records := s.records - {v});
    forall y | y in t.sets ensures CountOf(t, Plus(held, s.records[v].home), y) {
      assert CountOf(s, held, y);
      ForwardersKept(s, t, y);
      HomesForgotten(s, v, y);
    }
  }

  lemma HomesForgotten(s: State, v: nat, y: nat)
    requires v in s.records
    ensures |Homes(s.(records := s.records - {v}), y)| == |Homes(s, y)| - if y == s.records[v].home then 1 else 0
  {
    assert Homes(s.(records := s.records - {v}), y) == Homes(s, y) - if y == s.records[v].home then {v} else {};
  }

  function Remove(s: State, x: nat): State {
    s.(sets := s.sets - {x}, order := Without(s.order, x))
  }

  /** What is held after `x` is gone. */
  ghost function HeldBeyond(s: State, held: multiset<nat>, x: nat): multiset<nat>
    requires x in s.sets
  {
    if s.sets[x].forward.Some? then Plus(held, s.sets[x].forward.value) else held
  }

  lemma Unreferred(s: State, held: multiset<nat>, x: nat)
    requires x in s.sets && CountOf(s, held, x) && s.sets[x].refCount == 0
    ensures Homes(s, x) == {} && Forwarders(s, x) == {} && s.sets[x].unknownInsts == [] && held[x] == 0
  {
    hide Homes, Forwarders;
  }

  lemma ForwardersRemoved(s: State, x: nat, y: nat)
    requires x in s.sets
    ensures |Forwarders(Remove(s, x), y)| == |Forwarders(s, y)| - (if s.sets[x].forward == Some(y) then 1 else 0)
  {
    hide Without;
    var t := Remove(s, x);
    assert Forwarders(t, y) == Forwarders(s, y) - if s.sets[x].forward == Some(y) then {x} else {};
  }

  /** A set without references goes; the reference it forwarded with is then held. */
  lemma CountRemoved(s: State, held: multiset<nat>, x: nat)
    requires Counted(s, held) && x in s.sets && s.sets[x].refCount == 0 && ForwardsBack(s, x) && s.sets[x].forward != Some(x)
    ensures Counted(Remove(s, x), HeldBeyond(s, held, x))
  {
    hide Without, Homes, Forwarders;
    var t := Remove(s, x);
    assert CountOf(s, held, x);
    Unreferred(s, held, x);
    forall y | y in t.sets ensures CountOf(t, HeldBeyond(s, held, x), y) {
      assert CountOf(s, held, y);
      HomesKept(s, t, y);
      ForwardersRemoved(s, x, y);
    }
  }

  function Without(order: seq<nat>, x: nat): (r: seq<nat>)
    ensures forall y :: y in r <==> y in order && y != x
  {
    if order == [] then []
    else
      assert order == [order[0]] + order[1..];
      if order[0] == x then Without(order[1..], x) else [order[0]] + Without(order[1..], x)
  }

  lemma {:induction false} WithoutIncreasing(order: seq<nat>, x: nat)
    requires Increasing(order)
    ensures Increasing(Without(order, x))
  {
    if order != [] {
      WithoutIncreasing(order[1..], x);
      var r := Without(order[1..], x);
      forall k | 0 <= k < |r| ensures order[0] < r[k] {
        assert r[k] in order[1..];
      }
    }
  }

  /** A set that nothing refers to lists nothing. */
  lemma UnreferredIsEmpty(s: State, x: nat)
    requires Forest(s) && x in s.sets && SetLists(s, x) && Homes(s, x) == {} && Forwarders(s, x) == {}
    ensures s.sets[x].pointers == []
  {
    hide Resolve, Forwarders;
    var ps := s.sets[x].pointers;
    if |ps| > 0 {
      assert ps[0] in ps;
      assert ps[0] !in Homes(s, x);
      OnlyByReference(s, s.records[ps[0]].home, x);
    }
  }

  lemma {:induction false} OnlyByReference(s: State, y: nat, x: nat)
    requires Forest(s) && y in s.sets && Forwarders(s, x) == {} && Resolve(s, y) == x
    ensures y == x
    decreases Rank(s, y)
  {
    if s.sets[y].forward.Some? {
      assert ForwardsBack(s, y);
      assert y !in Forwarders(s, x);
      OnlyByReference(s, s.sets[y].forward.value, x);
    }
  }

  /** Removing a set without references. */
  lemma Removed(s: State, held: multiset<nat>, x: nat)
    requires Invariant(s, held) && x in s.sets && s.sets[x].refCount == 0
    ensures s.sets[x].pointers == [] && s.sets[x].unknownInsts == []
    ensures s.sets[x].forward.Some? ==> s.sets[x].forward.value in s.sets && s.sets[x].forward.value != x
    ensures Invariant(Remove(s, x), HeldBeyond(s, held, x))
  {
    hide Without, Homes, Forwarders, Resolve, SetLists, RecordListed, Increasing, Counted, CountOf;
    ForwardsElsewhere(s, x);
    CountRemoved(s, held, x);
    UnreferredInvariant(s, held, x);
    UnreferredIsEmpty(s, x);
    RemovedForest(s, x);
    RemovedListed(s, x);
    WithoutIncreasing(s.order, x);
  }

  lemma UnreferredInvariant(s: State, held: multiset<nat>, x: nat)
    requires Invariant(s, held) && x in s.sets && s.sets[x].refCount == 0
    ensures Homes(s, x) == {} && Forwarders(s, x) == {} && s.sets[x].unknownInsts == [] && held[x] == 0 && SetLists(s, x)
  {
    hide Homes, Forwarders, Forest, Shape, Resolve;
    assert CountOf(s, held, x);
    Unreferred(s, held, x);
  }

  lemma ForwardsElsewhere(s: State, x: nat)
    requires Forest(s) && x in s.sets
    ensures ForwardsBack(s, x) && s.sets[x].forward != Some(x)
  {
  }

  lemma RemovedForest(s: State, x: nat)
    requires Forest(s) && x in s.sets && Forwarders(s, x) == {}
    ensures Forest(Remove(s, x))
  {
    hide Without;
    var t := Remove(s, x);
    forall y | y in t.sets ensures ForwardsBack(t, y) {
      assert ForwardsBack(s, y);
      assert y !in Forwarders(s, x);
    }
  }

  lemma RemovedListed(s: State, x: nat)
    requires Forest(s) && Listed(s) && x in s.sets && Forest(Remove(s, x))
    requires Homes(s, x) == {} && Forwarders(s, x) == {} && s.sets[x].pointers == []
    ensures Listed(Remove(s, x))
  {
    hide Resolve, Without, Forest, Forwarders, SetLists, RecordListed, Homes;
    var t := Remove(s, x);
    forall y {:trigger Resolve(t, y)} | y in t.sets ensures Resolve(t, y) == Resolve(s, y) {
      ResolveSame(s, t, y);
    }
    forall v | v in t.records ensures RecordListed(t, v) {
      RemovedRecordListed(s, x, v);
    }
    forall y | y in t.sets ensures SetLists(t, y) {
      RemovedSetLists(s, x, y);
    }
  }

  lemma RemovedRecordListed(s: State, x: nat, v: nat)
    requires Forest(s) && x in s.sets && Forest(Remove(s, x)) && Homes(s, x) == {} && s.sets[x].pointers == []
    requires SameChains(s, Remove(s, x))
    requires v in s.records && RecordListed(s, v)
    ensures RecordListed(Remove(s, x), v)
  {
    hide Resolve, Without, Forest;
    assert v !in Homes(s, x);
  }

  lemma RemovedSetLists(s: State, x: nat, y: nat)
    requires Forest(s) && x in s.sets && Forest(Remove(s, x)) && Homes(s, x) == {}
    requires SameChains(s, Remove(s, x))
    requires y in s.sets && y != x && SetLists(s, y)
    ensures SetLists(Remove(s, x), y)
  {
    hide Resolve, Without, Forest;
    forall v | v in s.sets[y].pointers ensures s.records[v].home != x {
      assert v !in Homes(s, x);
    }
  }
}
