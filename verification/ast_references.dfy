/** What happens to the forest when references are dropped and chains are compressed. */
module AliasSetReferences {
  import opened AliasSetForest
  import opened AliasSetSteps

  /** The one set is as the other but for its reference count. */
  predicate SameBut(a: AliasSet, b: AliasSet) {
    b == a.(refCount := b.refCount)
  }

  /** `y` is on the forwarding chain that begins at `x`. */
  ghost predicate OnChain(s: State, x: nat, y: nat)
    requires Forest(s) && x in s.sets
    decreases Rank(s, x)
  {
    y == x || (s.sets[x].forward.Some? && ForwardsBack(s, x) && OnChain(s, s.sets[x].forward.value, y))
  }

  /** A set that has gone was empty and on the chain of the set whose reference was dropped. */
  ghost predicate Gone(s: State, x: nat, y: nat)
    requires Forest(s) && x in s.sets && y in s.sets
  {
    s.sets[y].pointers == [] && s.sets[y].unknownInsts == [] && OnChain(s, x, y)
  }

  /** Some sets on the chain of `x` may have gone; reference counts may differ. */
  ghost predicate Shrunk(s: State, t: State, x: nat)
    requires Forest(s) && x in s.sets
  {
    && t.records == s.records && t.any == s.any && t.next == s.next
    && (forall y :: y in t.sets ==> y in s.sets && SameBut(s.sets[y], t.sets[y]))
    && (forall y :: y in s.sets && y !in t.sets ==> Gone(s, x, y))
  }

  lemma {:induction false} OnChainSame(s: State, t: State, x: nat, y: nat)
    requires Forest(s) && Forest(t) && x in s.sets && x in t.sets && OnChain(t, x, y)
    requires forall z :: z in t.sets ==> z in s.sets && t.sets[z].forward == s.sets[z].forward
    ensures OnChain(s, x, y)
    decreases Rank(t, x)
  {
    if y != x {
      assert ForwardsBack(s, x) && ForwardsBack(t, x);
      OnChainSame(s, t, s.sets[x].forward.value, y);
    }
  }

  /** What is on a chain is earlier, or is its end. */
  lemma {:induction false} OnChainIsEarlier(s: State, x: nat, y: nat)
    requires Forest(s) && x in s.sets && OnChain(s, x, y)
    ensures y in s.sets && (y <= x || y == Resolve(s, x))
    decreases Rank(s, x)
  {
    if y != x {
      OnChainIsEarlier(s, s.sets[x].forward.value, y);
      if s.sets[x].forward.value > x {
        assert IsRoot(s, s.sets[x].forward.value);
      }
    }
  }

  lemma ShrunkChains(s: State, t: State, x: nat)
    requires Forest(s) && Forest(t) && x in s.sets && Shrunk(s, t, x)
    ensures SameChains(s, t)
  {
    hide Resolve, Gone, Forest;
    forall y {:trigger Resolve(t, y)} | y in t.sets ensures Resolve(t, y) == Resolve(s, y) {
      ResolveSame(s, t, y);
    }
  }

  /** First the count goes down, then more happens. */
  lemma ShrunkAfterCount(s: State, s1: State, t: State, x: nat, n: nat)
    requires Forest(s) && x in s.sets && s1 == WithCount(s, x, n) && Forest(s1) && Shrunk(s1, t, x)
    ensures Shrunk(s, t, x)
  {
    hide Forest, OnChain;
    assert forall z :: z in s1.sets ==> z in s.sets && s1.sets[z].forward == s.sets[z].forward;
    forall y | y in s.sets && y !in t.sets ensures Gone(s, x, y) {
      assert Gone(s1, x, y);
      OnChainSame(s, s1, x, y);
    }
  }

  lemma ShrunkByCount(s: State, x: nat, n: nat)
    requires Forest(s) && x in s.sets
    ensures Shrunk(s, WithCount(s, x, n), x)
  {
  }

  /** First the set goes, then the set it forwarded to loses a reference. */
  lemma ShrunkAfterRemoval(s: State, t: State, x: nat)
    requires Forest(s) && x in s.sets && s.sets[x].pointers == [] && s.sets[x].unknownInsts == []
    requires Forest(Remove(s, x)) && s.sets[x].forward.Some? && s.sets[x].forward.value in Remove(s, x).sets
    requires Shrunk(Remove(s, x), t, s.sets[x].forward.value)
    ensures Shrunk(s, t, x)
  {
    hide Forest, OnChain, Without;
    var s1, f := Remove(s, x), s.sets[x].forward.value;
    assert forall z :: z in s1.sets ==> z in s.sets && s1.sets[z].forward == s.sets[z].forward;
    forall y | y in s.sets && y !in t.sets ensures Gone(s, x, y) {
      if y == x {
        OnItsChain(s, x);
      } else {
        assert Gone(s1, f, y);
        OnChainSame(s, s1, f, y);
        OnChainNext(s, x, y);
      }
    }
  }

  lemma OnItsChain(s: State, x: nat)
    requires Forest(s) && x in s.sets
    ensures OnChain(s, x, x)
  {
  }

  lemma OnChainNext(s: State, x: nat, y: nat)
    requires Forest(s) && x in s.sets && s.sets[x].forward.Some? && s.sets[x].forward.value in s.sets
    requires OnChain(s, s.sets[x].forward.value, y)
    ensures OnChain(s, x, y)
  {
    BackAt(s, x);
  }

  lemma ShrunkByRemoval(s: State, x: nat)
    requires Forest(s) && x in s.sets && s.sets[x].pointers == [] && s.sets[x].unknownInsts == []
    ensures Shrunk(s, Remove(s, x), x)
  {
    hide Forest, Without;
    OnItsChain(s, x);
  }

  /** Chains up from `x` may be shorter and empty sets before `x` may have gone. */
  ghost predicate Compacted(s: State, t: State, x: nat)
    requires Forest(s) && Forest(t)
  {
    && t.records == s.records && t.any == s.any && t.next == s.next && SameChains(s, t)
    && (forall y :: y in t.sets ==> y in s.sets && SameSet(s.sets[y], t.sets[y]))
    && (forall y :: y in t.sets && y > x ==> t.sets[y].forward == s.sets[y].forward)
    && (forall y :: y in s.sets && y !in t.sets ==> y < x && s.sets[y].forward.Some?)
  }

  /** The two are the same but for their reference counts and where they forward to. */
  predicate SameSet(a: AliasSet, b: AliasSet) {
    && b == a.(refCount := b.refCount, forward := b.forward)
    && (b.forward.Some? <==> a.forward.Some?)
  }

  lemma CompactedItself(s: State, x: nat)
    requires Forest(s)
    ensures Compacted(s, s, x)
  {
  }

  lemma SameChainsTrans(s: State, t: State, u: State)
    requires Forest(s) && Forest(t) && Forest(u) && SameChains(s, t) && SameChains(t, u)
    requires forall y :: y in s.sets && y in u.sets ==> y in t.sets
    ensures SameChains(s, u)
  {
    hide Resolve, Forest;
  }

  /** `x` now forwards to `d`, and nothing else has changed but reference counts. */
  ghost predicate Redirected(s: State, t: State, x: nat, d: nat)
    requires Forest(s) && Forest(t)
  {
    && t.records == s.records && t.any == s.any && t.next == s.next && t.sets.Keys == s.sets.Keys && SameChains(s, t)
    && x in s.sets && t.sets[x].forward == Some(d)
    && forall y :: y in t.sets ==> SameSet(s.sets[y], t.sets[y]) && (y != x ==> t.sets[y].forward == s.sets[y].forward)
  }

  lemma RootEndsChain(s: State, x: nat, y: nat)
    requires Forest(s) && x in s.sets && OnChain(s, x, y) && IsRoot(s, y)
    ensures y == Resolve(s, x)
    decreases Rank(s, x)
  {
    if y != x {
      RootEndsChain(s, s.sets[x].forward.value, y);
    }
  }

  /** Compacting from where `x` forwards to, then pointing `x` to the end of its chain and
      dropping the reference to where it pointed before. */
  lemma CompactedStep(s: State, s1: State, s3: State, t: State, x: nat, f: nat, d: nat)
    requires Forest(s) && Forest(s1) && Forest(s3) && Forest(t) && x in s.sets && f in s.sets && f in s1.sets
    requires f < x && d == Resolve(s, x) && s.sets[x].forward == Some(f) && Compacted(s, s1, f)
    requires Redirected(s1, s3, x, d) && Shrunk(s3, t, f)
    ensures Compacted(s, t, x) && x in t.sets
  {
    hide Resolve, Forest, OnChain, SameChains;
    ShrunkChains(s3, t, f);
    SameChainsTrans(s, s1, s3);
    SameChainsTrans(s, s3, t);
    assert Resolve(s3, f) == d by { SameAt(s, s3, f); NextResolves(s, x); }
    forall y | y in s3.sets && y !in t.sets ensures y <= f || y == d {
      GoneIsEarlier(s3, f, y);
    }
    ChainGoesBack(s, x);
    assert x in t.sets;
    BackAt(t, x);
    forall y | y in s.sets && y !in t.sets ensures y < x && s.sets[y].forward.Some? {
      if y in s1.sets {
        GoneIsEarlier(s3, f, y);
      }
    }
    forall y | y in t.sets ensures y in s.sets && SameSet(s.sets[y], t.sets[y]) {
      SameThrice(s.sets[y], s1.sets[y], s3.sets[y], t.sets[y]);
    }
  }

  lemma SameAt(s: State, t: State, x: nat)
    requires Forest(s) && Forest(t) && SameChains(s, t) && x in s.sets && x in t.sets
    ensures Resolve(t, x) == Resolve(s, x)
  {
  }

  lemma SameThrice(a: AliasSet, b: AliasSet, c: AliasSet, d: AliasSet)
    requires SameSet(a, b) && SameSet(b, c) && SameBut(c, d)
    ensures SameSet(a, d)
  {
  }

  lemma NextResolves(s: State, x: nat)
    requires Forest(s) && x in s.sets && s.sets[x].forward.Some?
    ensures s.sets[x].forward.value in s.sets && Resolve(s, s.sets[x].forward.value) == Resolve(s, x)
  {
    BackAt(s, x);
  }

  lemma GoneIsEarlier(s: State, f: nat, y: nat)
    requires Forest(s) && f in s.sets && y in s.sets && Gone(s, f, y)
    ensures y <= f || y == Resolve(s, f)
    ensures IsRoot(s, y) ==> y == Resolve(s, f)
  {
    OnChainIsEarlier(s, f, y);
    if IsRoot(s, y) {
      RootEndsChain(s, f, y);
    }
  }

  // ---- The partition ----

  /** Both pointers are in the same set. */
  ghost predicate Together(s: State, u: nat, w: nat)
    requires Forest(s)
  {
    && u in s.records && w in s.records && s.records[u].home in s.sets && s.records[w].home in s.sets
    && Resolve(s, s.records[u].home) == Resolve(s, s.records[w].home)
  }

  /** Pointers that were in the same set still are. */
  ghost predicate Coarser(s: State, t: State)
    requires Forest(s) && Forest(t)
  {
    forall u, w {:trigger Together(s, u, w)} :: Together(s, u, w) ==> Together(t, u, w)
  }

  lemma CoarserTrans(s: State, t: State, u: State)
    requires Forest(s) && Forest(t) && Forest(u) && Coarser(s, t) && Coarser(t, u)
    ensures Coarser(s, u)
  {
    hide Together, Forest;
  }

  /** The record is as large as it was, and its home is a live set with the same end. */
  ghost predicate SameEnd(s: State, t: State, w: nat)
    requires Forest(s) && Forest(t) && w in s.records
  {
    && w in t.records && t.records[w].size == s.records[w].size && s.records[w].home in s.sets && t.records[w].home in t.sets
    && Resolve(t, t.records[w].home) == Resolve(s, s.records[w].home)
  }

  /** The sets that do not forward, their lists and what is in them are the same. */
  ghost predicate Equivalent(s: State, t: State)
    requires Forest(s) && Forest(t)
  {
    && t.any == s.any && t.next == s.next && t.records.Keys == s.records.Keys && SameChains(s, t)
    && (forall w :: w in s.records ==> SameEnd(s, t, w))
    && (forall y :: y in t.sets ==> y in s.sets && SameSet(s.sets[y], t.sets[y]))
    && (forall y :: y in s.sets && y !in t.sets ==> s.sets[y].forward.Some?)
  }

  lemma EquivalentTrans(s: State, t: State, u: State)
    requires Forest(s) && Forest(t) && Forest(u) && Equivalent(s, t) && Equivalent(t, u)
    ensures Equivalent(s, u)
  {
    hide Resolve, Forest, SameChains;
    SameChainsTrans(s, t, u);
    forall w | w in s.records ensures SameEnd(s, u, w) {
      assert SameEnd(s, t, w) && SameEnd(t, u, w);
    }
  }

  lemma CompactedIsEquivalent(s: State, t: State, x: nat)
    requires Forest(s) && Forest(t) && Listed(s) && Listed(t) && Compacted(s, t, x)
    ensures Equivalent(s, t)
  {
    hide Resolve, Forest, SetLists, SameSet;
    forall w | w in s.records ensures SameEnd(s, t, w) {
      assert RecordListed(s, w) && RecordListed(t, w);
    }
  }

  /** A record is given the end of its home's chain for a home, and its old home loses a
      reference. */
  lemma RehomedStep(s: State, s3: State, t: State, v: nat)
    requires Forest(s) && Forest(s3) && Forest(t) && Listed(s) && Listed(t) && v in s.records && s.records[v].home in s.sets
    requires s3.sets.Keys == s.sets.Keys && s3.any == s.any && s3.next == s.next && SameChains(s, s3)
    requires s3.records == s.records[v := s.records[v].(home := Resolve(s, s.records[v].home))]
    requires forall y :: y in s.sets ==> SameBut(s.sets[y], s3.sets[y])
    requires Shrunk(s3, t, s.records[v].home)
    ensures Equivalent(s, t)
  {
    hide Resolve, Forest, Listed, Shrunk;
    var h := s.records[v].home;
    ShrunkChains(s3, t, h);
    RehomedRoots(s, s3, t, v);
    SameChainsTrans(s, s3, t);
    RehomedEnds(s, s3, t, v);
  }

  lemma RehomedEnds(s: State, s3: State, t: State, v: nat)
    requires Forest(s) && Forest(t) && Listed(s) && Listed(t) && v in s.records && s.records[v].home in s.sets
    requires s3.records == s.records[v := s.records[v].(home := Resolve(s, s.records[v].home))] && t.records == s3.records
    requires SameChains(s, t) && forall y :: y in t.sets ==> y in s.sets
    ensures forall w :: w in s.records ==> SameEnd(s, t, w)
  {
    hide Resolve, Forest, SetLists;
    RootResolves(s, Resolve(s, s.records[v].home));
    forall w | w in s.records ensures SameEnd(s, t, w) {
      assert RecordListed(s, w) && RecordListed(t, w);
    }
  }

  lemma RehomedRoots(s: State, s3: State, t: State, v: nat)
    requires Forest(s) && Forest(s3) && Forest(t) && Listed(t) && v in s.records && s.records[v].home in s.sets
    requires s3.sets.Keys == s.sets.Keys && SameChains(s, s3)
    requires s3.records == s.records[v := s.records[v].(home := Resolve(s, s.records[v].home))]
    requires forall y :: y in s.sets ==> SameBut(s.sets[y], s3.sets[y])
    requires Shrunk(s3, t, s.records[v].home)
    ensures t.records == s3.records && t.any == s3.any && t.next == s3.next
    ensures forall y :: y in t.sets ==> y in s.sets && SameSet(s.sets[y], t.sets[y])
    ensures forall y :: y in s.sets && y !in t.sets ==> s.sets[y].forward.Some?
  {
    hide Resolve, Forest, OnChain, SetLists;
    var h := s.records[v].home;
    assert RecordListed(t, v);
    forall y | y in s.sets && y !in t.sets ensures s.sets[y].forward.Some? {
      assert SameBut(s.sets[y], s3.sets[y]);
      GoneIsEarlier(s3, h, y);
    }
  }
}
