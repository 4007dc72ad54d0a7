/** The steps that change a tracker, and what each keeps. */
module AliasSetSteps {
  import opened AliasSetForest

  /** Chains stay as they are if no set forwards elsewhere. */
  lemma SameForwards(s: State, t: State)
    requires Forest(s) && t.sets.Keys == s.sets.Keys && t.any == s.any
    requires forall y :: y in s.sets ==> t.sets[y].forward == s.sets[y].forward
    ensures Forest(t) && SameChains(s, t)
  {
    hide Resolve;
    forall y | y in t.sets ensures ForwardsBack(t, y) {
      assert ForwardsBack(s, y);
    }
    forall y {:trigger Resolve(t, y)} | y in s.sets ensures Resolve(t, y) == Resolve(s, y) {
      ResolveSame(s, t, y);
    }
  }

  lemma AppendOnce(ps: seq<nat>, v: nat)
    requires NoneTwice(ps) && v !in ps
    ensures NoneTwice(ps + [v])
  {
  }

  // ---- Pointing elsewhere ----

  function Forwarding(s: State, x: nat, d: nat): State
    requires x in s.sets
  {
    SetSet(s, x, s.sets[x].(forward := Some(d)))
  }

  /** Pointing a set that forwards directly to the end of its chain. */
  lemma Compressed(s: State, held: multiset<nat>, x: nat)
    requires Invariant(s, held) && x in s.sets && s.sets[x].forward.Some? && held[Resolve(s, x)] > 0
    ensures var t := Forwarding(s, x, Resolve(s, x));
            && Invariant(t, HeldAfter(s, held, x, Resolve(s, x)))
            && SameChains(s, t)
  {
    hide Resolve, Homes, Forwarders, Listed, Counted, Shape, Forest;
    CompressedForest(s, x);
    CompressedListed(s, x);
    ForwardsElsewhere(s, x);
    CountForward(s, held, x, Resolve(s, x));
    CompressedShape(s, x);
  }

  lemma CompressedShape(s: State, x: nat)
    requires Shape(s) && Forest(s) && x in s.sets && s.sets[x].forward.Some?
    ensures Shape(Forwarding(s, x, Resolve(s, x)))
  {
    hide Resolve, Forest, Increasing;
  }

  lemma CompressedListed(s: State, x: nat)
    requires Forest(s) && Listed(s) && x in s.sets && s.sets[x].forward.Some? && Forest(Forwarding(s, x, Resolve(s, x)))
    requires SameChains(s, Forwarding(s, x, Resolve(s, x)))
    ensures Listed(Forwarding(s, x, Resolve(s, x)))
  {
    hide Resolve, Forest, Listed, SameLists;
    var d := Resolve(s, x);
    KeepsLists(s, x, d);
    ListedSame(s, Forwarding(s, x, d));
  }

  lemma KeepsLists(s: State, x: nat, d: nat)
    requires x in s.sets && s.sets[x].forward.Some?
    ensures forall y :: y in s.sets ==> SameLists(s.sets[y], Forwarding(s, x, d).sets[y])
  {
  }

  lemma CompressedForest(s: State, x: nat)
    requires Forest(s) && x in s.sets && s.sets[x].forward.Some?
    ensures var t := Forwarding(s, x, Resolve(s, x)); Forest(t) && SameChains(s, t)
  {
    hide Resolve, ForwardsBack;
    var t := Forwarding(s, x, Resolve(s, x));
    forall y | y in t.sets ensures ForwardsBack(t, y) {
      CompressedGoesBack(s, x, y);
    }
    forall y {:trigger Resolve(t, y)} | y in s.sets ensures Resolve(t, y) == Resolve(s, y) {
      ResolveCompressed(s, t, x, y);
    }
  }

  lemma CompressedGoesBack(s: State, x: nat, y: nat)
    requires Forest(s) && x in s.sets && s.sets[x].forward.Some? && y in s.sets
    ensures ForwardsBack(Forwarding(s, x, Resolve(s, x)), y)
  {
    hide Resolve, Forest;
    ChainGoesBack(s, x);
    BackAt(s, x);
    BackAt(s, y);
  }

  lemma BackAt(s: State, x: nat)
    requires Forest(s) && x in s.sets
    ensures ForwardsBack(s, x)
  {
  }

  lemma {:induction false} ChainGoesBack(s: State, x: nat)
    requires Forest(s) && x in s.sets
    ensures var r := Resolve(s, x); IsRoot(s, r) && (r == x || r < x || s.any == Some(r))
    decreases Rank(s, x)
  {
    if s.sets[x].forward.Some? {
      assert ForwardsBack(s, x);
      ChainGoesBack(s, s.sets[x].forward.value);
    }
  }

  /** Giving a record the end of its home's chain for a home. */
  lemma Rehomed(s: State, held: multiset<nat>, v: nat)
    requires Invariant(s, held) && v in s.records
    ensures s.records[v].home in s.sets
    ensures var d := Resolve(s, s.records[v].home);
            held[d] > 0 ==>
              && Invariant(SetRecord(s, v, s.records[v].(home := d)), Plus(Minus(held, d), s.records[v].home))
              && SameChains(s, SetRecord(s, v, s.records[v].(home := d)))
  {
    hide Resolve, Homes, Forwarders, SetLists, Counted, Increasing, Listed, Forest;
    HomeListed(s, v);
    var d := Resolve(s, s.records[v].home);
    var t := SetRecord(s, v, s.records[v].(home := d));
    if held[d] > 0 {
      CountHome(s, held, v, s.records[v].(home := d));
      SameForwards(s, t);
      RehomedListed(s, v);
    }
  }

  lemma HomeListed(s: State, v: nat)
    requires Forest(s) && Listed(s) && v in s.records
    ensures RecordListed(s, v) && s.records[v].home in s.sets
  {
  }

  lemma RehomedListed(s: State, v: nat)
    requires Forest(s) && Listed(s) && v in s.records && s.records[v].home in s.sets
    requires var t := SetRecord(s, v, s.records[v].(home := Resolve(s, s.records[v].home)));
             Forest(t) && SameChains(s, t)
    ensures Listed(SetRecord(s, v, s.records[v].(home := Resolve(s, s.records[v].home))))
  {
    hide Resolve, Forest, SetLists;
    var t := SetRecord(s, v, s.records[v].(home := Resolve(s, s.records[v].home)));
    RootResolves(s, Resolve(s, s.records[v].home));
    forall w | w in t.records ensures RecordListed(t, w) {
      assert RecordListed(s, w);
    }
    forall y | y in t.sets ensures SetLists(t, y) {
      assert SetLists(s, y);
      RehomedSetLists(s, v, y);
    }
  }

  lemma RootResolves(s: State, d: nat)
    requires Forest(s) && IsRoot(s, d)
    ensures Resolve(s, d) == d
  {
  }

  lemma RehomedSetLists(s: State, v: nat, y: nat)
    requires Forest(s) && v in s.records && s.records[v].home in s.sets && y in s.sets && SetLists(s, y)
    requires var t := SetRecord(s, v, s.records[v].(home := Resolve(s, s.records[v].home)));
             Forest(t) && SameChains(s, t)
    ensures SetLists(SetRecord(s, v, s.records[v].(home := Resolve(s, s.records[v].home))), y)
  {
    hide Resolve, Forest;
    RootResolves(s, Resolve(s, s.records[v].home));
  }

  // ---- Records come and go ----

  /** A new record at the end of the list of a root. */
  function Added(s: State, x: nat, v: nat, size: nat): State
    requires x in s.sets
  {
    SetRecord(SetSet(s, x, s.sets[x].(pointers := s.sets[x].pointers + [v])), v, PointerRec(size, x))
  }

  lemma RecordAdded(s: State, held: multiset<nat>, x: nat, v: nat, size: nat)
    requires Invariant(s, held) && IsRoot(s, x) && v !in s.records && held[x] > 0
    ensures Invariant(Added(s, x, v, size), Minus(held, x))
    ensures SameChains(s, Added(s, x, v, size))
  {
    hide Resolve, Homes, Forwarders, SetLists, Counted, Increasing, Listed, Forest;
    SameForwards(s, Added(s, x, v, size));
    AddedListed(s, x, v, size);
    var s' := SetSet(s, x, s.sets[x].(pointers := s.sets[x].pointers + [v]));
    CountsKept(s, s');
    CountedSame(s, s', held);
    CountHome(s', held, v, PointerRec(size, x));
  }

  lemma AddedListed(s: State, x: nat, v: nat, size: nat)
    requires Forest(s) && Listed(s) && IsRoot(s, x) && v !in s.records
    requires Forest(Added(s, x, v, size)) && SameChains(s, Added(s, x, v, size))
    ensures Listed(Added(s, x, v, size))
  {
    hide Resolve, Forest, SetLists;
    var t := Added(s, x, v, size);
    RootResolves(s, x);
    forall w | w in t.records ensures RecordListed(t, w) {
      assert w != v ==> RecordListed(s, w);
    }
    forall y | y in t.sets ensures SetLists(t, y) {
      assert SetLists(s, y);
      AddedSetLists(s, x, v, size, y);
    }
  }

  lemma AddedSetLists(s: State, x: nat, v: nat, size: nat, y: nat)
    requires Forest(s) && IsRoot(s, x) && v !in s.records && y in s.sets && SetLists(s, y) && Resolve(s, x) == x
    requires Forest(Added(s, x, v, size)) && SameChains(s, Added(s, x, v, size))
    ensures SetLists(Added(s, x, v, size), y)
  {
    hide Resolve, Forest, NoneTwice;
    var t := Added(s, x, v, size);
    if y == x {
      AppendOnce(s.sets[x].pointers, v);
      forall w | w in t.sets[x].pointers ensures w in t.records && t.records[w].home in t.sets && Resolve(t, t.records[w].home) == x {
        assert w == v || w in s.sets[x].pointers;
      }
    } else {
      assert t.sets[y] == s.sets[y];
      forall w | w in s.sets[y].pointers ensures w != v && t.records[w] == s.records[w] {
      }
    }
  }

  function DropPointer(ps: seq<nat>, v: nat): (r: seq<nat>)
    ensures forall w :: w in r <==> w in ps && w != v
  {
    if ps == [] then []
    else
      assert ps == [ps[0]] + ps[1..];
      if ps[0] == v then DropPointer(ps[1..], v) else [ps[0]] + DropPointer(ps[1..], v)
  }

  lemma {:induction false} DropPointerOnce(ps: seq<nat>, v: nat)
    requires NoneTwice(ps)
    ensures NoneTwice(DropPointer(ps, v))
  {
    if ps != [] {
      DropPointerOnce(ps[1..], v);
      assert ps[0] !in ps[1..];
      var r := DropPointer(ps[1..], v);
      assert ps[0] !in r;
    }
  }

  /** The record is taken out of its list and forgotten. */
  ghost function Forgotten(s: State, v: nat): State
    requires Forest(s) && v in s.records && s.records[v].home in s.sets
  {
    var x := Resolve(s, s.records[v].home);
    var a := s.sets[x].(pointers := DropPointer(s.sets[x].pointers, v));
    SetSet(s, x, a).(records := s.records - {v})
  }

  lemma RecordForgotten(s: State, held: multiset<nat>, v: nat)
    requires Invariant(s, held) && v in s.records && s.records[v].home in s.sets
    ensures Invariant(Forgotten(s, v), Plus(held, s.records[v].home))
    ensures SameChains(s, Forgotten(s, v))
  {
    hide Resolve, Homes, Forwarders, SetLists, Counted, Increasing, Listed, Forest, DropPointer;
    SameForwards(s, Forgotten(s, v));
    ForgottenListed(s, v);
    var x := Resolve(s, s.records[v].home);
    var s' := SetSet(s, x, s.sets[x].(pointers := DropPointer(s.sets[x].pointers, v)));
    CountsKept(s, s');
    CountedSame(s, s', held);
    CountForgotten(s', held, v);
  }

  lemma ForgottenListed(s: State, v: nat)
    requires Forest(s) && Listed(s) && v in s.records && s.records[v].home in s.sets
    requires Forest(Forgotten(s, v)) && SameChains(s, Forgotten(s, v))
    ensures Listed(Forgotten(s, v))
  {
    hide Resolve, Forest, SetLists, DropPointer;
    var t := Forgotten(s, v);
    forall w | w in t.records ensures RecordListed(t, w) {
      assert RecordListed(s, w);
    }
    forall y | y in t.sets ensures SetLists(t, y) {
      assert SetLists(s, y);
      ForgottenSetLists(s, v, y);
    }
  }

  lemma ForgottenSetLists(s: State, v: nat, y: nat)
    requires Forest(s) && v in s.records && s.records[v].home in s.sets && y in s.sets && SetLists(s, y)
    requires Forest(Forgotten(s, v)) && SameChains(s, Forgotten(s, v))
    ensures SetLists(Forgotten(s, v), y)
  {
    hide Resolve, Forest, DropPointer;
    DropPointerOnce(s.sets[y].pointers, v);
  }

  // ---- Sets come and merge ----

  const EMPTYSET: AliasSet := AliasSet(None, 0, [], [], false, Access(false, false), false, false)

  /** A new set at the end of the list; it may be the one that aliases everything. */
  function Pushed(s: State, a: AliasSet, any: Option<nat>): State {
    s.(sets := s.sets[s.next := a], order := s.order + [s.next], any := any, next := s.next + 1)
  }

  lemma SetPushed(s: State, held: multiset<nat>, a: AliasSet, any: Option<nat>)
    requires Invariant(s, held) && a.forward.None? && a.refCount == 0 && a.pointers == [] && a.unknownInsts == [] && (a.any ==> a.may)
    requires any == s.any || (s.any.None? && any == Some(s.next))
    ensures Invariant(Pushed(s, a, any), held)
    ensures SameChains(s, Pushed(s, a, any))
  {
    hide Resolve, Homes, Forwarders, SetLists, Counted, Listed, Forest;
    PushedShape(s, a, any);
    PushedForest(s, a, any);
    PushedListed(s, a, any);
    PushedCounted(s, held, a, any);
  }

  lemma PushedShape(s: State, a: AliasSet, any: Option<nat>)
    requires Shape(s) && a.forward.None? && (any == s.any || any == Some(s.next))
    ensures Shape(Pushed(s, a, any)) && s.next !in s.sets
  {
    var t := Pushed(s, a, any);
    forall x ensures x in t.order <==> x in t.sets {
      assert x in t.order <==> x in s.order || x == s.next;
    }
    forall k | 0 <= k < |s.order| ensures s.order[k] < s.next {
      assert s.order[k] in s.order;
    }
  }

  lemma PushedListed(s: State, a: AliasSet, any: Option<nat>)
    requires Forest(s) && Listed(s) && Forest(Pushed(s, a, any)) && s.next !in s.sets
    requires SameChains(s, Pushed(s, a, any))
    requires a.forward.None? && a.pointers == [] && a.unknownInsts == [] && (a.any ==> a.may)
    ensures Listed(Pushed(s, a, any))
  {
    hide Resolve, Forest, SetLists;
    var t := Pushed(s, a, any);
    forall w | w in t.records ensures RecordListed(t, w) {
      assert RecordListed(s, w);
    }
    forall y | y in t.sets ensures SetLists(t, y) {
      PushedSetLists(s, a, any, y);
    }
  }

  lemma PushedForest(s: State, a: AliasSet, any: Option<nat>)
    requires Shape(s) && Forest(s) && a.forward.None? && (any == s.any || (s.any.None? && any == Some(s.next)))
    ensures Forest(Pushed(s, a, any)) && SameChains(s, Pushed(s, a, any))
  {
    var t := Pushed(s, a, any);
    forall y | y in t.sets ensures ForwardsBack(t, y) {
      if y in s.sets { assert ForwardsBack(s, y); }
    }
    forall y {:trigger Resolve(t, y)} | y in s.sets ensures Resolve(t, y) == Resolve(s, y) {
      ResolveSame(s, t, y);
    }
  }

  lemma PushedSetLists(s: State, a: AliasSet, any: Option<nat>, y: nat)
    requires Forest(s) && Forest(Pushed(s, a, any)) && y in Pushed(s, a, any).sets && s.next !in s.sets
    requires SameChains(s, Pushed(s, a, any))
    requires a.forward.None? && a.pointers == [] && a.unknownInsts == [] && (a.any ==> a.may) && (y in s.sets ==> SetLists(s, y))
    ensures SetLists(Pushed(s, a, any), y)
  {
    hide Resolve, Forest;
  }

  lemma PushedCounted(s: State, held: multiset<nat>, a: AliasSet, any: Option<nat>)
    requires Shape(s) && Forest(s) && Listed(s) && Counted(s, held) && a.forward.None? && a.refCount == 0 && a.unknownInsts == []
    ensures Counted(Pushed(s, a, any), held)
  {
    hide Homes, Forwarders, Listed, Forest, Shape, CountOf;
    var t := Pushed(s, a, any);
    NotYet(s);
    NoHomes(s, s.next);
    forall y | y in t.sets ensures CountOf(t, held, y) {
      PushedCountOf(s, held, a, any, y);
    }
  }

  lemma NotYet(s: State)
    requires Shape(s)
    ensures s.next !in s.sets
  {
  }

  lemma PushedCountOf(s: State, held: multiset<nat>, a: AliasSet, any: Option<nat>, y: nat)
    requires s.next !in s.sets && Homes(s, s.next) == {} && Forwarders(s, s.next) == {} && Counted(s, held)
    requires a.forward.None? && a.refCount == 0 && a.unknownInsts == [] && y in Pushed(s, a, any).sets
    ensures CountOf(Pushed(s, a, any), held, y)
  {
    var t := Pushed(s, a, any);
    assert Homes(t, y) == Homes(s, y);
    assert Forwarders(t, y) == Forwarders(s, y);
    if y != s.next {
      assert CountOf(s, held, y);
    }
  }

  lemma NoHomes(s: State, n: nat)
    requires Forest(s) && Listed(s) && n !in s.sets
    ensures Homes(s, n) == {} && Forwarders(s, n) == {}
  {
    hide Resolve, SetLists;
    forall v | v in s.records ensures s.records[v].home != n {
      assert RecordListed(s, v);
    }
    forall y | y in s.sets ensures s.sets[y].forward != Some(n) {
      assert ForwardsBack(s, y);
    }
  }

  /** The unknown instructions of `b` go to `a`. */
  function UnknownMoved(s: State, a: nat, b: nat): State
    requires a in s.sets && b in s.sets
  {
    SetSet(SetSet(s, a, s.sets[a].(unknownInsts := s.sets[a].unknownInsts + s.sets[b].unknownInsts)),
           b, s.sets[b].(unknownInsts := []))
  }

  /** The reference for unknown instructions that `b` had is held; that of `a` was, if it is new. */
  ghost function HeldMoved(s: State, held: multiset<nat>, a: nat, b: nat): multiset<nat>
    requires a in s.sets && b in s.sets
  {
    if s.sets[b].unknownInsts == [] then held
    else if s.sets[a].unknownInsts == [] then Plus(Minus(held, a), b)
    else Plus(held, b)
  }

  lemma MovedUnknown(s: State, held: multiset<nat>, a: nat, b: nat)
    requires Invariant(s, held) && IsRoot(s, a) && IsRoot(s, b) && a != b && (s.sets[b].unknownInsts != [] ==> s.sets[a].may)
    requires s.sets[b].unknownInsts != [] && s.sets[a].unknownInsts == [] ==> held[a] > 0
    ensures Invariant(UnknownMoved(s, a, b), HeldMoved(s, held, a, b))
    ensures SameChains(s, UnknownMoved(s, a, b))
  {
    hide Resolve, Homes, Forwarders, SetLists, Counted, Increasing, Listed, Forest;
    SameForwards(s, UnknownMoved(s, a, b));
    MovedListed(s, a, b);
    MovedCounted(s, held, a, b);
  }

  lemma MovedListed(s: State, a: nat, b: nat)
    requires Forest(s) && Listed(s) && IsRoot(s, a) && IsRoot(s, b) && a != b && (s.sets[b].unknownInsts != [] ==> s.sets[a].may)
    requires Forest(UnknownMoved(s, a, b)) && SameChains(s, UnknownMoved(s, a, b))
    ensures Listed(UnknownMoved(s, a, b))
  {
    hide Resolve, Forest, SetLists;
    var t := UnknownMoved(s, a, b);
    forall w | w in t.records ensures RecordListed(t, w) {
      assert RecordListed(s, w);
    }
    forall y | y in t.sets ensures SetLists(t, y) {
      assert SetLists(s, y);
      MovedSetLists(s, a, b, y);
    }
  }

  lemma MovedSetLists(s: State, a: nat, b: nat, y: nat)
    requires Forest(s) && IsRoot(s, a) && IsRoot(s, b) && a != b && y in s.sets && SetLists(s, y)
    requires s.sets[b].unknownInsts != [] ==> s.sets[a].may
    requires Forest(UnknownMoved(s, a, b)) && SameChains(s, UnknownMoved(s, a, b))
    ensures SetLists(UnknownMoved(s, a, b), y)
  {
    hide Resolve, Forest;
  }

  lemma MovedCounted(s: State, held: multiset<nat>, a: nat, b: nat)
    requires Counted(s, held) && a in s.sets && b in s.sets && a != b
    requires s.sets[b].unknownInsts != [] && s.sets[a].unknownInsts == [] ==> held[a] > 0
    ensures Counted(UnknownMoved(s, a, b), HeldMoved(s, held, a, b))
  {
    hide Homes, Forwarders, CountOf;
    var t := UnknownMoved(s, a, b);
    CountsKept(s, t);
    forall y | y in t.sets ensures CountOf(t, HeldMoved(s, held, a, b), y) {
      MovedCountOf(s, held, a, b, y);
    }
  }

  lemma MovedCountOf(s: State, held: multiset<nat>, a: nat, b: nat, y: nat)
    requires a in s.sets && b in s.sets && a != b && y in s.sets && CountOf(s, held, y)
    requires s.sets[b].unknownInsts != [] && s.sets[a].unknownInsts == [] ==> held[a] > 0
    requires var t := UnknownMoved(s, a, b); Homes(t, y) == Homes(s, y) && Forwarders(t, y) == Forwarders(s, y)
    ensures CountOf(UnknownMoved(s, a, b), HeldMoved(s, held, a, b), y)
  {
    hide Homes, Forwarders;
  }

  /** `b` forwards to `a`, and its pointers go to the end of the list of `a`. */
  function Linked(s: State, a: nat, b: nat): State
    requires a in s.sets && b in s.sets
  {
    SetSet(SetSet(s, a, s.sets[a].(pointers := s.sets[a].pointers + s.sets[b].pointers)),
           b, s.sets[b].(pointers := [], forward := Some(a)))
  }

  /** A set may be merged into an earlier one, or into the one that aliases everything. */
  predicate Mergeable(s: State, a: nat, b: nat) {
    IsRoot(s, a) && IsRoot(s, b) && a != b && s.any != Some(b) && (a < b || s.any == Some(a))
  }

  lemma LinkedInvariant(s: State, held: multiset<nat>, a: nat, b: nat)
    requires Invariant(s, held) && Mergeable(s, a, b) && s.sets[b].unknownInsts == [] && held[a] > 0
    ensures Invariant(Linked(s, a, b), Minus(held, a))
    ensures MergedChains(s, Linked(s, a, b), a, b)
  {
    hide Resolve, Homes, Forwarders, Counted, Shape, Listed, Forest;
    LinkedShape(s, a, b);
    LinkedForest(s, a, b);
    LinkedListed(s, a, b);
    LinkedCounted(s, held, a, b);
  }

  lemma LinkedShape(s: State, a: nat, b: nat)
    requires Shape(s) && a in s.sets && b in s.sets && s.any != Some(b)
    ensures Shape(Linked(s, a, b))
  {
    hide Increasing;
  }

  lemma LinkedRecordListed(s: State, a: nat, b: nat, v: nat)
    requires Forest(s) && Mergeable(s, a, b) && v in s.records && RecordListed(s, v) && Forest(Linked(s, a, b))
    requires MergedChains(s, Linked(s, a, b), a, b)
    ensures RecordListed(Linked(s, a, b), v)
  {
    hide Resolve, Forest;
  }

  lemma LinkedListed(s: State, a: nat, b: nat)
    requires Forest(s) && Listed(s) && Mergeable(s, a, b) && s.sets[b].unknownInsts == [] && Forest(Linked(s, a, b))
    requires MergedChains(s, Linked(s, a, b), a, b)
    ensures Listed(Linked(s, a, b))
  {
    hide Resolve, Forest, SetLists, RecordListed;
    var t := Linked(s, a, b);
    forall w | w in t.records ensures RecordListed(t, w) {
      assert RecordListed(s, w);
      LinkedRecordListed(s, a, b, w);
    }
    assert SetLists(s, a) && SetLists(s, b);
    forall y | y in t.sets ensures SetLists(t, y) {
      assert SetLists(s, y);
      LinkedSetLists(s, a, b, y);
    }
  }

  lemma LinkedForest(s: State, a: nat, b: nat)
    requires Forest(s) && Mergeable(s, a, b)
    ensures Forest(Linked(s, a, b))
    ensures MergedChains(s, Linked(s, a, b), a, b)
  {
    hide Resolve;
    var t := Linked(s, a, b);
    forall y | y in t.sets ensures ForwardsBack(t, y) {
      assert ForwardsBack(s, y);
    }
    forall y {:trigger Resolve(t, y)} | y in s.sets ensures Resolve(t, y) == if Resolve(s, y) == b then a else Resolve(s, y) {
      ResolveMerged(s, t, a, b, y);
    }
  }

  lemma LinkedSetLists(s: State, a: nat, b: nat, y: nat)
    requires Forest(s) && Mergeable(s, a, b) && s.sets[b].unknownInsts == []
    requires y in s.sets && SetLists(s, y) && SetLists(s, a) && SetLists(s, b) && Forest(Linked(s, a, b))
    requires MergedChains(s, Linked(s, a, b), a, b)
    ensures SetLists(Linked(s, a, b), y)
  {
    hide Resolve, Forest, NoneTwice;
    var t := Linked(s, a, b);
    if y == a {
      LinkedTarget(s, a, b);
    } else if y == b {
      NothingTwice();
    } else {
      assert t.sets[y] == s.sets[y];
    }
  }

  lemma LinkedTarget(s: State, a: nat, b: nat)
    requires Forest(s) && Mergeable(s, a, b) && SetLists(s, a) && SetLists(s, b) && Forest(Linked(s, a, b))
    requires MergedChains(s, Linked(s, a, b), a, b)
    ensures SetLists(Linked(s, a, b), a)
  {
    hide Resolve, Forest, NoneTwice;
    var t := Linked(s, a, b);
    var p, q := s.sets[a].pointers, s.sets[b].pointers;
    Spliced(p, q);
    forall v | v in p + q ensures v in t.records && t.records[v].home in t.sets && Resolve(t, t.records[v].home) == a {
      assert v in p || v in q;
    }
  }

  lemma NothingTwice()
    ensures NoneTwice([])
  {
  }

  lemma Spliced(p: seq<nat>, q: seq<nat>)
    requires NoneTwice(p) && NoneTwice(q) && forall v :: v in p ==> v !in q
    ensures NoneTwice(p + q)
  {
    var r := p + q;
    forall j, k | 0 <= j < k < |r| ensures r[j] != r[k] {
      if j < |p| <= k {
        assert r[j] in p && r[k] in q;
      }
    }
  }

  lemma LinkedCounted(s: State, held: multiset<nat>, a: nat, b: nat)
    requires Counted(s, held) && a in s.sets && b in s.sets && a != b && s.sets[b].forward.None? && held[a] > 0
    ensures Counted(Linked(s, a, b), Minus(held, a))
  {
    hide Homes, Forwarders, CountOf;
    var s' := Forwarding(s, b, a);
    CountForward(s, held, b, a);
    CountsKept(s', Linked(s, a, b));
    CountedSame(s', Linked(s, a, b), Minus(held, a));
  }

  /** What is left when `b` has gone into `a`, whose pointers then may alias or not. */
  function Absorbed(s: State, a: nat, b: nat, may: bool): State
    requires a in s.sets && b in s.sets
  {
    var p, q := s.sets[a], s.sets[b];
    var refs := 1 + if p.unknownInsts == [] && q.unknownInsts != [] then 1 else 0;
    SetSet(SetSet(s, a, p.(pointers := p.pointers + q.pointers, unknownInsts := p.unknownInsts + q.unknownInsts, may := may,
                           access := Access(p.access.ref || q.access.ref, p.access.mod || q.access.mod),
                           volatile := p.volatile || q.volatile, refCount := p.refCount + refs)),
           b, q.(pointers := [], unknownInsts := [], forward := Some(a)))
  }

  /** The flags of `a` are joined with those of `b`. */
  function Joined(s: State, a: nat, b: nat, may: bool): (t: State)
    requires a in s.sets && b in s.sets
    ensures t.sets.Keys == s.sets.Keys
  {
    var p, q := s.sets[a], s.sets[b];
    SetSet(s, a, p.(may := may, access := Access(p.access.ref || q.access.ref, p.access.mod || q.access.mod),
                    volatile := p.volatile || q.volatile))
  }

  /** A reference for unknown instructions that are new to `a`. */
  function Referred(s: State, a: nat, b: nat): (t: State)
    requires a in s.sets && b in s.sets
    ensures t.sets.Keys == s.sets.Keys
  {
    if s.sets[a].unknownInsts == [] && s.sets[b].unknownInsts != [] then WithCount(s, a, s.sets[a].refCount + 1) else s
  }

  lemma JoinedStep(s: State, a: nat, b: nat, may: bool)
    requires Invariant(s, multiset{}) && Mergeable(s, a, b) && (s.sets[a].may || s.sets[b].may ==> may)
    ensures var t := Referred(Joined(s, a, b, may), a, b);
            && Invariant(t, if s.sets[a].unknownInsts == [] && s.sets[b].unknownInsts != [] then Plus(multiset{}, a) else multiset{})
            && SameChains(s, t) && Mergeable(t, a, b) && (t.sets[b].unknownInsts != [] ==> t.sets[a].may)
  {
    hide Resolve, Listed, Counted, Shape, Forest;
    var s1 := Joined(s, a, b, may);
    FlaggedInvariant(s, multiset{}, a, s1.sets[a]);
    QuietUnknown(s, b);
    SameForwards(s, s1);
    if s.sets[a].unknownInsts == [] && s.sets[b].unknownInsts != [] {
      CountUp(s1, multiset{}, a);
      SameForwards(s1, Referred(s1, a, b));
    }
  }

  lemma MovedStep(s: State, a: nat, b: nat)
    requires Mergeable(s, a, b) && (s.sets[b].unknownInsts != [] ==> s.sets[a].may)
    requires var isNew := s.sets[a].unknownInsts == [] && s.sets[b].unknownInsts != [];
             Invariant(s, if isNew then Plus(multiset{}, a) else multiset{})
    ensures var t := UnknownMoved(s, a, b);
            && Invariant(t, if s.sets[b].unknownInsts != [] then Plus(multiset{}, b) else multiset{})
            && SameChains(s, t) && Mergeable(t, a, b)
  {
    hide Resolve, Invariant, Forest;
    var held := if s.sets[a].unknownInsts == [] && s.sets[b].unknownInsts != [] then Plus(multiset{}, a) else multiset{};
    MovedUnknown(s, held, a, b);
    assert HeldMoved(s, held, a, b) == if s.sets[b].unknownInsts != [] then Plus(multiset{}, b) else multiset{};
  }

  lemma LinkedStep(s: State, held: multiset<nat>, a: nat, b: nat)
    requires Invariant(s, held) && Mergeable(s, a, b) && s.sets[b].unknownInsts == []
    ensures var t := Linked(WithCount(s, a, s.sets[a].refCount + 1), a, b);
            Invariant(t, held) && MergedChains(s, t, a, b)
  {
    hide Resolve, Listed, Counted, Shape, Forest;
    var s1 := WithCount(s, a, s.sets[a].refCount + 1);
    CountUp(s, held, a);
    SameForwards(s, s1);
    LinkedInvariant(s1, Plus(held, a), a, b);
    assert Minus(Plus(held, a), a) == held;
    MergedChainsVia(s, s1, Linked(s1, a, b), a, b);
  }

  /** Merging keeps the forest right; if `b` had unknown instructions, a reference to it is left. */
  lemma AbsorbedInvariant(s: State, a: nat, b: nat, may: bool)
    requires Invariant(s, multiset{}) && Mergeable(s, a, b) && (s.sets[a].may || s.sets[b].may ==> may)
    ensures var t := Absorbed(s, a, b, may);
            Invariant(t, if s.sets[b].unknownInsts != [] then Plus(multiset{}, b) else multiset{}) && MergedChains(s, t, a, b)
  {
    hide Resolve, Shape, Listed, Counted, Forest, Joined, Referred, UnknownMoved, Linked, WithCount, Absorbed;
    AbsorbedParts(s, a, b, may);
    JoinedStep(s, a, b, may);
    var s2 := Referred(Joined(s, a, b, may), a, b);
    MovedStep(s2, a, b);
    var s3 := UnknownMoved(s2, a, b);
    LinkedStep(s3, if s.sets[b].unknownInsts != [] then Plus(multiset{}, b) else multiset{}, a, b);
    MergedChainsVia(s, s3, Absorbed(s, a, b, may), a, b);
  }

  lemma AbsorbedParts(s: State, a: nat, b: nat, may: bool)
    requires a in s.sets && b in s.sets && a != b
    ensures var s2 := Referred(Joined(s, a, b, may), a, b);
            && s2.sets[a].unknownInsts == s.sets[a].unknownInsts && s2.sets[b].unknownInsts == s.sets[b].unknownInsts
            && var s3 := UnknownMoved(s2, a, b);
               && s3.sets.Keys == s.sets.Keys && s3.sets[b].unknownInsts == []
               && var t := Linked(WithCount(s3, a, s3.sets[a].refCount + 1), a, b);
                  t == Absorbed(s, a, b, may) && t.sets.Keys == s.sets.Keys
  {
    hide Absorbed, Linked;
    var s3 := UnknownMoved(Referred(Joined(s, a, b, may), a, b), a, b);
    AbsorbedSame(s, s3, a, b, may);
  }

  /** With the flags joined and the unknown instructions moved, linking gives the merged sets. */
  lemma AbsorbedSame(s: State, s3: State, a: nat, b: nat, may: bool)
    requires a in s.sets && b in s.sets && a != b && s3 == s.(sets := s3.sets) && s3.sets.Keys == s.sets.Keys
    requires s3.sets[b] == s.sets[b].(unknownInsts := [])
    requires var p, q := s.sets[a], s.sets[b];
             s3.sets[a] == p.(unknownInsts := p.unknownInsts + q.unknownInsts, may := may,
                              access := Access(p.access.ref || q.access.ref, p.access.mod || q.access.mod),
                              volatile := p.volatile || q.volatile,
                              refCount := p.refCount + if p.unknownInsts == [] && q.unknownInsts != [] then 1 else 0)
    requires forall y :: y in s.sets && y != a && y != b ==> s3.sets[y] == s.sets[y]
    ensures var t := Linked(WithCount(s3, a, s3.sets[a].refCount + 1), a, b);
            t == Absorbed(s, a, b, may) && t.sets.Keys == s.sets.Keys
  {
    hide Linked, Absorbed;
    LinkedValues(s3, a, b);
    AbsorbedValues(s, a, b, may);
    var t, u := Linked(WithCount(s3, a, s3.sets[a].refCount + 1), a, b), Absorbed(s, a, b, may);
  }

  lemma LinkedValues(s: State, a: nat, b: nat)
    requires a in s.sets && b in s.sets && a != b
    ensures var t := Linked(WithCount(s, a, s.sets[a].refCount + 1), a, b);
            && t == s.(sets := t.sets) && t.sets.Keys == s.sets.Keys
            && t.sets[a] == s.sets[a].(pointers := s.sets[a].pointers + s.sets[b].pointers, refCount := s.sets[a].refCount + 1)
            && t.sets[b] == s.sets[b].(pointers := [], forward := Some(a))
            && forall y :: y in s.sets && y != a && y != b ==> t.sets[y] == s.sets[y]
  {
  }

  lemma AbsorbedValues(s: State, a: nat, b: nat, may: bool)
    requires a in s.sets && b in s.sets && a != b
    ensures var t, p, q := Absorbed(s, a, b, may), s.sets[a], s.sets[b];
            && t == s.(sets := t.sets) && t.sets.Keys == s.sets.Keys
            && t.sets[a] == p.(pointers := p.pointers + q.pointers, unknownInsts := p.unknownInsts + q.unknownInsts, may := may,
                               access := Access(p.access.ref || q.access.ref, p.access.mod || q.access.mod),
                               volatile := p.volatile || q.volatile,
                               refCount := p.refCount + 1 + if p.unknownInsts == [] && q.unknownInsts != [] then 1 else 0)
            && t.sets[b] == q.(pointers := [], unknownInsts := [], forward := Some(a))
            && forall y :: y in s.sets && y != a && y != b ==> t.sets[y] == s.sets[y]
  {
  }

  lemma QuietUnknown(s: State, b: nat)
    requires Forest(s) && Listed(s) && b in s.sets
    ensures s.sets[b].unknownInsts != [] ==> s.sets[b].may
  {
    hide Resolve;
    assert SetLists(s, b);
  }

  lemma MergedChainsVia(s: State, t: State, u: State, a: nat, b: nat)
    requires Forest(s) && Forest(t) && Forest(u) && SameChains(s, t) && MergedChains(t, u, a, b) && t.sets.Keys == u.sets.Keys
    ensures MergedChains(s, u, a, b)
  {
    hide Resolve, Forest;
  }

  /** An unknown instruction is added to a set that may alias. */
  function WithUnknown(s: State, x: nat, inst: nat): State
    requires x in s.sets
  {
    SetSet(s, x, s.sets[x].(unknownInsts := s.sets[x].unknownInsts + [inst]))
  }

  lemma AddedUnknown(s: State, held: multiset<nat>, x: nat, inst: nat)
    requires Invariant(s, held) && IsRoot(s, x) && s.sets[x].may && (s.sets[x].unknownInsts == [] ==> held[x] > 0)
    ensures Invariant(WithUnknown(s, x, inst), if s.sets[x].unknownInsts == [] then Minus(held, x) else held)
    ensures SameChains(s, WithUnknown(s, x, inst))
  {
    hide Resolve, Homes, Forwarders, SetLists, Counted, Increasing, Listed, Forest;
    SameForwards(s, WithUnknown(s, x, inst));
    UnknownListed(s, x, inst);
    UnknownCounted(s, held, x, inst);
  }

  lemma UnknownListed(s: State, x: nat, inst: nat)
    requires Forest(s) && Listed(s) && IsRoot(s, x) && s.sets[x].may
    requires Forest(WithUnknown(s, x, inst)) && SameChains(s, WithUnknown(s, x, inst))
    ensures Listed(WithUnknown(s, x, inst))
  {
    hide Resolve, Forest, SetLists;
    var t := WithUnknown(s, x, inst);
    forall w | w in t.records ensures RecordListed(t, w) {
      assert RecordListed(s, w);
    }
    forall y | y in t.sets ensures SetLists(t, y) {
      assert SetLists(s, y);
      UnknownSetLists(s, x, inst, y);
    }
  }

  lemma UnknownSetLists(s: State, x: nat, inst: nat, y: nat)
    requires Forest(s) && IsRoot(s, x) && s.sets[x].may && y in s.sets && SetLists(s, y)
    requires Forest(WithUnknown(s, x, inst)) && SameChains(s, WithUnknown(s, x, inst))
    ensures SetLists(WithUnknown(s, x, inst), y)
  {
    hide Resolve, Forest;
  }

  lemma UnknownCounted(s: State, held: multiset<nat>, x: nat, inst: nat)
    requires Counted(s, held) && x in s.sets && (s.sets[x].unknownInsts == [] ==> held[x] > 0)
    ensures Counted(WithUnknown(s, x, inst), if s.sets[x].unknownInsts == [] then Minus(held, x) else held)
  {
    hide Homes, Forwarders;
    var t := WithUnknown(s, x, inst);
    CountsKept(s, t);
    forall y | y in t.sets ensures CountOf(t, if s.sets[x].unknownInsts == [] then Minus(held, x) else held, y) {
      assert CountOf(s, held, y);
    }
  }

  /** A record is given another size. */
  function Resized(s: State, v: nat, size: nat): State
    requires v in s.records
  {
    SetRecord(s, v, s.records[v].(size := size))
  }

  lemma ResizedInvariant(s: State, held: multiset<nat>, v: nat, size: nat)
    requires Invariant(s, held) && v in s.records
    ensures Invariant(Resized(s, v, size), held) && SameChains(s, Resized(s, v, size))
  {
    hide Resolve, Listed, Counted, Forest;
    SameForwards(s, Resized(s, v, size));
    ResizedListed(s, v, size);
    ResizedCounted(s, held, v, size);
  }

  lemma ResizedListed(s: State, v: nat, size: nat)
    requires Forest(s) && Listed(s) && v in s.records && Forest(Resized(s, v, size)) && SameChains(s, Resized(s, v, size))
    ensures Listed(Resized(s, v, size))
  {
    hide Resolve, Forest, SetLists;
    var t := Resized(s, v, size);
    forall w | w in t.records ensures RecordListed(t, w) {
      assert RecordListed(s, w);
    }
    forall y | y in t.sets ensures SetLists(t, y) {
      assert SetLists(s, y);
      ResizedSetLists(s, v, size, y);
    }
  }

  lemma ResizedSetLists(s: State, v: nat, size: nat, y: nat)
    requires Forest(s) && v in s.records && Forest(Resized(s, v, size)) && SameChains(s, Resized(s, v, size))
    requires y in s.sets && SetLists(s, y)
    ensures SetLists(Resized(s, v, size), y)
  {
    hide Resolve, Forest;
  }

  lemma ResizedCounted(s: State, held: multiset<nat>, v: nat, size: nat)
    requires Counted(s, held) && v in s.records
    ensures Counted(Resized(s, v, size), held)
  {
    hide Forwarders, Homes, CountOf;
    var t := Resized(s, v, size);
    forall y ensures Homes(t, y) == Homes(s, y) && Forwarders(t, y) == Forwarders(s, y) {
      ResizedHomes(s, v, size, y);
      ForwardersKept(s, t, y);
    }
    CountedSame(s, t, held);
  }

  lemma ResizedHomes(s: State, v: nat, size: nat, y: nat)
    requires v in s.records
    ensures Homes(Resized(s, v, size), y) == Homes(s, y)
  {
  }
}
