/** Unknown instructions: no operation on the sets loses one or invents one. */
module AliasSetInstructions {
  import opened AliasSetForest
  import opened AliasSetSteps
  import opened AliasSetReferences
  import opened AliasSetMerging

  /** Some set has the unknown instruction. */
  ghost predicate HasInst(s: State, inst: nat) {
    exists x :: x in s.sets && inst in s.sets[x].unknownInsts
  }

  ghost predicate SameInsts(s: State, t: State) {
    forall i :: HasInst(t, i) <==> HasInst(s, i)
  }

  lemma InstIn(s: State, x: nat, inst: nat)
    requires x in s.sets && inst in s.sets[x].unknownInsts
    ensures HasInst(s, inst)
  {
  }

  lemma SameInstsTrans(s: State, t: State, u: State)
    requires SameInsts(s, t) && SameInsts(t, u)
    ensures SameInsts(s, u)
  {
    hide HasInst;
    forall i ensures HasInst(u, i) <==> HasInst(s, i) {
      assert HasInst(t, i) <==> HasInst(s, i);
    }
  }

  /** The sets that both have are the same in this, and those that only one has are empty of it. */
  lemma InstsByParts(s: State, t: State)
    requires forall y :: y in s.sets && y in t.sets ==> t.sets[y].unknownInsts == s.sets[y].unknownInsts
    requires forall y :: y in s.sets && y !in t.sets ==> s.sets[y].unknownInsts == []
    requires forall y :: y in t.sets && y !in s.sets ==> t.sets[y].unknownInsts == []
    ensures SameInsts(s, t)
  {
    forall i ensures HasInst(t, i) <==> HasInst(s, i) {
      if HasInst(s, i) {
        var x :| x in s.sets && i in s.sets[x].unknownInsts;
        InstIn(t, x, i);
      }
      if HasInst(t, i) {
        var x :| x in t.sets && i in t.sets[x].unknownInsts;
        InstIn(s, x, i);
      }
    }
  }

  lemma ShrunkInsts(s: State, t: State, x: nat)
    requires Forest(s) && x in s.sets && Shrunk(s, t, x)
    ensures SameInsts(s, t)
  {
    hide Forest, OnChain;
    forall y | y in s.sets && y !in t.sets ensures s.sets[y].unknownInsts == [] {
      assert Gone(s, x, y);
    }
    InstsByParts(s, t);
  }

  lemma EquivalentInsts(s: State, t: State)
    requires Forest(s) && Forest(t) && Listed(s) && Equivalent(s, t)
    ensures SameInsts(s, t)
  {
    hide Forest, Resolve, SameChains;
    forall y | y in s.sets && y !in t.sets ensures s.sets[y].unknownInsts == [] {
      assert SetLists(s, y);
    }
    InstsByParts(s, t);
  }

  /** Merging moves the instructions of one set to the other. */
  lemma MergedInsts(s: State, t: State, a: nat, b: nat, may: bool)
    requires Forest(s) && Forest(t) && Listed(t) && Merged(s, t, a, b, may)
    ensures SameInsts(s, t)
  {
    hide Forest, Resolve, MergedChains;
    assert b in t.sets ==> SetLists(t, b);
    forall i ensures HasInst(t, i) <==> HasInst(s, i) {
      if HasInst(s, i) {
        var x :| x in s.sets && i in s.sets[x].unknownInsts;
        InstIn(t, if x == b then a else x, i);
      }
      if HasInst(t, i) {
        var x :| x in t.sets && i in t.sets[x].unknownInsts;
        InstIn(s, if x == a && i !in s.sets[a].unknownInsts then b else x, i);
      }
    }
  }

  lemma ExtendedInsts(s: State, t: State, x: nat, v: nat)
    requires Forest(s) && Forest(t) && Extended(s, t, x, v)
    ensures SameInsts(s, t)
  {
    hide Forest, SameChains;
    InstsByParts(s, t);
  }

  lemma NotedInsts(s: State, t: State, x: nat, inst: nat)
    requires Forest(s) && Forest(t) && Noted(s, t, x, inst)
    ensures forall i :: HasInst(t, i) <==> HasInst(s, i) || i == inst
  {
    hide Forest, SameChains;
    forall i ensures HasInst(t, i) <==> HasInst(s, i) || i == inst {
      if HasInst(s, i) {
        var y :| y in s.sets && i in s.sets[y].unknownInsts;
        InstIn(t, y, i);
      }
      if i == inst {
        InstIn(t, x, i);
      }
      if HasInst(t, i) && i != inst {
        var y :| y in t.sets && i in t.sets[y].unknownInsts;
        InstIn(s, y, i);
      }
    }
  }
}
