/** Blocks from which control cannot but run into something that is hardly ever executed. */
module PostDominance {
  import opened ControlFlow
  import opened Backedges

  /** How a block ends. */
  datatype Terminator =
    | Unreachable
    | Deoptimize
    | Return
    | Invoke(normal: nat, unwind: nat)
    | Branch(targets: seq<nat>)

  /** A block: how it ends, and whether it calls a cold function. */
  datatype Block = Block(term: Terminator, callsCold: bool)

  type Function = f: seq<Block> | ValidFunction(f) witness [Block(Return, false)]

  predicate ValidFunction(f: seq<Block>) {
    |f| > 0 && forall b, k :: 0 <= b < |f| && 0 <= k < |Successors(f[b])| ==> Successors(f[b])[k] < |f|
  }

  function Successors(b: Block): seq<nat> {
    match b.term
    case Invoke(normal, unwind) => [normal, unwind]
    case Branch(targets) => targets
    case _ => []
  }

  /** The successors that are reached without unwinding. */
  function NormalSuccessors(b: Block): seq<nat> {
    if b.term.Invoke? then [b.term.normal] else Successors(b)
  }

  // ---- The pass ----

  /** The sets that the pass builds, one block after the other. */
  class BranchProbabilityInfo {
    var postDominatedByUnreachable: set<nat>
    var postDominatedByColdCall: set<nat>

    constructor ()
      ensures postDominatedByUnreachable == {} && postDominatedByColdCall == {}
    {
      postDominatedByUnreachable, postDominatedByColdCall := {}, {};
    }

    method UpdatePostDominatedByUnreachable(f: Function, b: nat)
      requires b < |f|
      modifies this`postDominatedByUnreachable
      ensures postDominatedByUnreachable == Updated(f, old(postDominatedByUnreachable), b, true)
    {
      var block := f[b];
      if Successors(block) == [] {
        if block.term == Unreachable || block.term == Deoptimize {
          postDominatedByUnreachable := postDominatedByUnreachable + {b};
        }
        return;
      }
      if block.term.Invoke? {
        assert NormalSuccessors(block)[0] == block.term.normal;
        if block.term.normal in postDominatedByUnreachable {
          postDominatedByUnreachable := postDominatedByUnreachable + {b};
        }
        return;
      }
      for k := 0 to |Successors(block)|
        invariant forall j :: 0 <= j < k ==> Successors(block)[j] in postDominatedByUnreachable
        invariant postDominatedByUnreachable == old(postDominatedByUnreachable)
      {
        if Successors(block)[k] !in postDominatedByUnreachable {
          NotAllNormal(block, postDominatedByUnreachable);
          return;
        }
      }
      postDominatedByUnreachable := postDominatedByUnreachable + {b};
    }

    method UpdatePostDominatedByColdCall(f: Function, b: nat)
      requires b < |f|
      modifies this`postDominatedByColdCall
      ensures postDominatedByColdCall == Updated(f, old(postDominatedByColdCall), b, false)
    {
      var block := f[b];
      if Successors(block) == [] {
        return;
      }
      if forall k :: 0 <= k < |Successors(block)| ==> Successors(block)[k] in postDominatedByColdCall {
        AllIncludesNormal(block, postDominatedByColdCall);
        postDominatedByColdCall := postDominatedByColdCall + {b};
        return;
      }
      if block.term.Invoke? {
        if block.term.normal in postDominatedByColdCall {
          postDominatedByColdCall := postDominatedByColdCall + {b};
          return;
        }
      }
      NotAllNormal(block, postDominatedByColdCall);
      if block.callsCold {
        postDominatedByColdCall := postDominatedByColdCall + {b};
      }
    }

    /** Walks the blocks in post-order. */
    method Calculate(f: Function, postOrder: seq<nat>)
      requires forall k :: 0 <= k < |postOrder| ==> postOrder[k] < |f|
      modifies this
      ensures postDominatedByUnreachable == Collected(f, postOrder, true)
      ensures postDominatedByColdCall == Collected(f, postOrder, false)
    {
      postDominatedByUnreachable, postDominatedByColdCall := {}, {};
      for k := 0 to |postOrder|
        invariant postDominatedByUnreachable == Collected(f, postOrder[..k], true)
        invariant postDominatedByColdCall == Collected(f, postOrder[..k], false)
      {
        UpdatePostDominatedByUnreachable(f, postOrder[k]);
        UpdatePostDominatedByColdCall(f, postOrder[k]);
        assert postOrder[..k + 1][..k] == postOrder[..k];
      }
      assert postOrder[..|postOrder|] == postOrder;
    }
  }

  lemma AllIncludesNormal(b: Block, s: set<nat>)
    requires forall k :: 0 <= k < |Successors(b)| ==> Successors(b)[k] in s
    ensures NormalIn(b, s)
  {
    if b.term.Invoke? {
      assert Successors(b)[0] == b.term.normal;
    }
  }

  lemma NotAllNormal(b: Block, s: set<nat>)
    requires !forall k :: 0 <= k < |Successors(b)| ==> Successors(b)[k] in s
    requires b.term.Invoke? ==> b.term.normal !in s
    ensures !NormalIn(b, s)
  {
    if b.term.Invoke? {
      assert NormalSuccessors(b)[0] !in s;
    } else {
      var k :| 0 <= k < |Successors(b)| && Successors(b)[k] !in s;
      assert NormalSuccessors(b)[k] !in s;
    }
  }

  // ---- What the pass is for ----

  /** The block itself is hardly ever executed: it ends in unreachable or deoptimizes; or, for the
      other set, it calls a cold function and goes on. */
  predicate Rare(b: Block, unreachable: bool) {
    if unreachable then b.term.Unreachable? || b.term.Deoptimize?
    else b.callsCold && Successors(b) != []
  }

  predicate NormalIn(b: Block, s: set<nat>) {
    forall k :: 0 <= k < |NormalSuccessors(b)| ==> NormalSuccessors(b)[k] in s
  }

  /** One block of the pass. */
  function Updated(f: Function, s: set<nat>, b: nat, unreachable: bool): set<nat>
    requires b < |f|
  {
    if Rare(f[b], unreachable) || (Successors(f[b]) != [] && NormalIn(f[b], s)) then s + {b} else s
  }

  function Collected(f: Function, order: seq<nat>, unreachable: bool): set<nat>
    requires forall k :: 0 <= k < |order| ==> order[k] < |f|
  {
    if order == [] then {}
    else Updated(f, Collected(f, order[..|order| - 1], unreachable), order[|order| - 1], unreachable)
  }

  /** Every walk without unwinding from the block comes to a rare block within `n` steps. */
  predicate Doomed(f: Function, b: nat, n: nat, unreachable: bool)
    requires b < |f|
    decreases n
  {
    || Rare(f[b], unreachable)
    || (n > 0 && Successors(f[b]) != []
        && forall k :: 0 <= k < |NormalSuccessors(f[b])| ==>
             NormalSuccessors(f[b])[k] < |f| && Doomed(f, NormalSuccessors(f[b])[k], n - 1, unreachable))
  }

  lemma {:induction false} DoomedLonger(f: Function, b: nat, n: nat, m: nat, unreachable: bool)
    requires b < |f| && n <= m && Doomed(f, b, n, unreachable)
    ensures Doomed(f, b, m, unreachable)
    decreases n
  {
    if !Rare(f[b], unreachable) {
      forall k | 0 <= k < |NormalSuccessors(f[b])| ensures Doomed(f, NormalSuccessors(f[b])[k], m - 1, unreachable) {
        DoomedLonger(f, NormalSuccessors(f[b])[k], n - 1, m - 1, unreachable);
      }
    }
  }

  lemma NormalIsSuccessor(f: Function, b: nat, k: nat)
    requires b < |f| && k < |NormalSuccessors(f[b])|
    ensures NormalSuccessors(f[b])[k] < |f| && NormalSuccessors(f[b])[k] in Successors(f[b])
  {
    if f[b].term.Invoke? {
      assert Successors(f[b])[0] == f[b].term.normal;
    }
  }

  /** A collected block was collected before, or is the last one. */
  lemma LastCollectedOr(f: Function, order: seq<nat>, unreachable: bool, b: nat)
    requires (forall k :: 0 <= k < |order| ==> order[k] < |f|) && b in Collected(f, order, unreachable)
    ensures order != []
    ensures var s, t := Collected(f, order[..|order| - 1], unreachable), Collected(f, order, unreachable);
            && s <= t && |s| <= |t| && |t| > 0
            && (b in s || (b < |f| && t == s + {b} && |t| == |s| + 1
                           && (Rare(f[b], unreachable) || (Successors(f[b]) != [] && NormalIn(f[b], s)))))
  {
    hide NormalIn, Rare, Successors;
    Smaller(Collected(f, order[..|order| - 1], unreachable), Collected(f, order, unreachable));
  }

  lemma RareIsDoomed(f: Function, b: nat, n: nat, unreachable: bool)
    requires b < |f| && Rare(f[b], unreachable)
    ensures Doomed(f, b, n, unreachable)
  {
  }

  lemma StepIsDoomed(f: Function, b: nat, n: nat, unreachable: bool)
    requires b < |f| && n > 0 && Successors(f[b]) != []
    requires forall k :: 0 <= k < |NormalSuccessors(f[b])| ==>
               NormalSuccessors(f[b])[k] < |f| && Doomed(f, NormalSuccessors(f[b])[k], n - 1, unreachable)
    ensures Doomed(f, b, n, unreachable)
  {
    hide NormalSuccessors, Successors, Rare;
  }

  /** Whatever the order, from every block that is collected all walks without unwinding come to a
      rare block within as many steps as there are other blocks in the set. */
  lemma {:induction false} CollectedIsDoomed(f: Function, order: seq<nat>, unreachable: bool, b: nat)
    requires (forall k :: 0 <= k < |order| ==> order[k] < |f|) && b in Collected(f, order, unreachable)
    ensures b < |f| && Doomed(f, b, |Collected(f, order, unreachable)| - 1, unreachable)
    decreases |order|
  {
    hide Collected, Doomed, Updated, NormalSuccessors, Successors;
    LastCollectedOr(f, order, unreachable, b);
    var front := order[..|order| - 1];
    var s := Collected(f, front, unreachable);
    var t := Collected(f, order, unreachable);
    if b in s {
      CollectedIsDoomed(f, front, unreachable, b);
      DoomedLonger(f, b, |s| - 1, |t| - 1, unreachable);
    } else if Rare(f[b], unreachable) {
      RareIsDoomed(f, b, |t| - 1, unreachable);
    } else {
      forall k | 0 <= k < |NormalSuccessors(f[b])|
        ensures NormalSuccessors(f[b])[k] < |f| && Doomed(f, NormalSuccessors(f[b])[k], |t| - 2, unreachable)
      {
        CollectedIsDoomed(f, front, unreachable, NormalSuccessors(f[b])[k]);
      }
      SomeNormal(f, b, s);
      StepIsDoomed(f, b, |t| - 1, unreachable);
    }
  }

  lemma Smaller(s: set<nat>, t: set<nat>)
    requires s <= t
    ensures |s| <= |t| && (t != {} ==> |t| > 0)
    ensures forall b :: b !in s && t == s + {b} ==> |t| == |s| + 1
  {
    assert |t - s| == |t| - |s|;
  }

  /** A block with successors has one that is reached without unwinding. */
  lemma SomeNormal(f: Function, b: nat, s: set<nat>)
    requires b < |f| && Successors(f[b]) != [] && NormalIn(f[b], s)
    ensures |s| > 0
  {
    assert NormalSuccessors(f[b])[0] in s;
  }

  // ---- No cycles ----

  /** A walk without unwinding. */
  ghost predicate NormalWalk(f: Function, p: seq<nat>) {
    && |p| > 0 && (forall k :: 0 <= k < |p| ==> p[k] < |f|)
    && forall k :: 0 < k < |p| ==> NormalStep(f, p[k - 1], p[k])
  }

  predicate NormalStep(f: Function, u: nat, v: nat) {
    u < |f| && v in NormalSuccessors(f[u])
  }

  /** A walk from a doomed block is short, and ends in a doomed block. */
  lemma {:induction false} WalkFromDoomed(f: Function, p: seq<nat>, n: nat)
    requires NormalWalk(f, p) && Doomed(f, p[0], n, true)
    ensures |p| - 1 <= n && Doomed(f, p[|p| - 1], n + 1 - |p|, true)
    decreases |p|
  {
    hide NormalSuccessors;
    if |p| > 1 {
      assert NormalStep(f, p[1 - 1], p[1]);
      DoomedStep(f, p[0], p[1], n);
      forall k | 0 < k < |p[1..]| ensures NormalStep(f, p[1..][k - 1], p[1..][k]) {
        assert NormalStep(f, p[k], p[k + 1]);
      }
      WalkFromDoomed(f, p[1..], n - 1);
    }
  }

  lemma DoomedStep(f: Function, u: nat, v: nat, n: nat)
    requires u < |f| && NormalStep(f, u, v) && Doomed(f, u, n, true)
    ensures n > 0 && v < |f| && Doomed(f, v, n - 1, true)
  {
    var k :| 0 <= k < |NormalSuccessors(f[u])| && NormalSuccessors(f[u])[k] == v;
  }

  lemma {:induction false} NoCycleThroughDoomed(f: Function, p: seq<nat>, n: nat)
    requires NormalWalk(f, p) && |p| > 1 && p[0] == p[|p| - 1]
    ensures !Doomed(f, p[0], n, true)
    decreases n
  {
    if Doomed(f, p[0], n, true) {
      WalkFromDoomed(f, p, n);
      NoCycleThroughDoomed(f, p, n + 1 - |p|);
    }
  }

  /** No block that is collected as post-dominated by unreachable is on a cycle without unwinding. */
  lemma CollectedIsOnNoCycle(f: Function, order: seq<nat>, p: seq<nat>)
    requires (forall k :: 0 <= k < |order| ==> order[k] < |f|) && NormalWalk(f, p) && |p| > 1 && p[0] == p[|p| - 1]
    ensures p[0] !in Collected(f, order, true)
  {
    if p[0] in Collected(f, order, true) {
      CollectedIsDoomed(f, order, true, p[0]);
      NoCycleThroughDoomed(f, p, |Collected(f, order, true)| - 1);
    }
  }

  // ---- Exactness ----

  /** The successors of every block come before it. */
  predicate SuccessorsFirst(f: Function, order: seq<nat>) {
    forall i :: 0 <= i < |order| ==> order[i] < |f| && SuccessorsBefore(f, order, i)
  }

  predicate SuccessorsBefore(f: Function, order: seq<nat>, i: nat)
    requires i < |order| && order[i] < |f|
  {
    forall k :: 0 <= k < |Successors(f[order[i]])| ==> Successors(f[order[i]])[k] in order[..i]
  }

  lemma SuccessorsFirstBefore(f: Function, order: seq<nat>, m: nat)
    requires SuccessorsFirst(f, order) && m <= |order|
    ensures SuccessorsFirst(f, order[..m])
  {
    var p := order[..m];
    forall i | 0 <= i < |p| ensures p[i] < |f| && SuccessorsBefore(f, p, i) {
      assert SuccessorsBefore(f, order, i) && p[..i] == order[..i];
    }
  }

  lemma {:induction false} DoomedIsCollected(f: Function, order: seq<nat>, unreachable: bool, b: nat, n: nat)
    requires SuccessorsFirst(f, order) && b in order && b < |f| && Doomed(f, b, n, unreachable)
    ensures b in Collected(f, order, unreachable)
    decreases |order|
  {
    hide Collected, SuccessorsFirst;
    var m := |order| - 1;
    SuccessorsFirstBefore(f, order, m);
    LastCollected(f, order, unreachable);
    if b in order[..m] {
      DoomedIsCollected(f, order[..m], unreachable, b, n);
    } else if !Rare(f[b], unreachable) {
      forall k | 0 <= k < |NormalSuccessors(f[b])|
        ensures NormalSuccessors(f[b])[k] in Collected(f, order[..m], unreachable)
      {
        NormalIsSuccessor(f, b, k);
        DoomedIsCollected(f, order[..m], unreachable, NormalSuccessors(f[b])[k], n - 1);
      }
    }
  }

  lemma LastCollected(f: Function, order: seq<nat>, unreachable: bool)
    requires SuccessorsFirst(f, order) && order != []
    ensures forall k :: 0 <= k < |order| ==> order[k] < |f|
    ensures var m := |order| - 1;
            && Collected(f, order, unreachable) == Updated(f, Collected(f, order[..m], unreachable), order[m], unreachable)
            && (forall b :: b in order <==> b in order[..m] || b == order[m])
            && forall v :: v in Successors(f[order[m]]) ==> v in order[..m]
  {
    hide Updated;
    var m := |order| - 1;
    assert order == order[..m] + [order[m]];
    assert SuccessorsBefore(f, order, m);
  }

  ghost predicate EverDoomed(f: Function, b: nat, unreachable: bool)
    requires b < |f|
  {
    exists n :: Doomed(f, b, n, unreachable)
  }

  lemma {:induction false} CollectedInOrder(f: Function, order: seq<nat>, unreachable: bool)
    requires forall k :: 0 <= k < |order| ==> order[k] < |f|
    ensures forall b :: b in Collected(f, order, unreachable) ==> b in order
    decreases |order|
  {
    if order != [] {
      CollectedInOrder(f, order[..|order| - 1], unreachable);
    }
  }

  /** If successors come first, the set is exactly the blocks with the property. */
  lemma ExactWhenSuccessorsFirst(f: Function, order: seq<nat>, unreachable: bool)
    requires SuccessorsFirst(f, order)
    ensures forall b :: b in Collected(f, order, unreachable) <==> b in order && b < |f| && EverDoomed(f, b, unreachable)
  {
    hide Doomed, Collected, EverDoomed;
    InRange(f, order);
    CollectedInOrder(f, order, unreachable);
    forall b ensures b in Collected(f, order, unreachable) <==> b in order && b < |f| && EverDoomed(f, b, unreachable) {
      if b in Collected(f, order, unreachable) {
        CollectedIsDoomed(f, order, unreachable, b);
        DoomedSometime(f, b, |Collected(f, order, unreachable)|, unreachable);
      }
      if b in order && b < |f| && EverDoomed(f, b, unreachable) {
        var n := TimeOfDoom(f, b, unreachable);
        DoomedIsCollected(f, order, unreachable, b, n);
      }
    }
  }

  lemma InRange(f: Function, order: seq<nat>)
    requires SuccessorsFirst(f, order)
    ensures forall k :: 0 <= k < |order| ==> order[k] < |f|
  {
    hide SuccessorsBefore;
  }

  lemma DoomedSometime(f: Function, b: nat, n: nat, unreachable: bool)
    requires b < |f| && n > 0 && Doomed(f, b, n - 1, unreachable)
    ensures EverDoomed(f, b, unreachable)
  {
    hide Doomed;
  }

  lemma TimeOfDoom(f: Function, b: nat, unreachable: bool) returns (n: nat)
    requires b < |f| && EverDoomed(f, b, unreachable)
    ensures Doomed(f, b, n, unreachable)
  {
    hide Doomed;
    n :| Doomed(f, b, n, unreachable);
  }

  // ---- Block by block ----

  lemma {:induction false} DoomedTogether(f: Function, vs: seq<nat>, unreachable: bool) returns (n: nat)
    requires forall k :: 0 <= k < |vs| ==> vs[k] < |f| && EverDoomed(f, vs[k], unreachable)
    ensures forall k :: 0 <= k < |vs| ==> Doomed(f, vs[k], n, unreachable)
    decreases |vs|
  {
    hide Doomed, EverDoomed;
    n := 0;
    if vs != [] {
      var last := |vs| - 1;
      var m := DoomedTogether(f, vs[..last], unreachable);
      var l := TimeOfDoom(f, vs[last], unreachable);
      n := if m > l then m else l;
      forall k | 0 <= k < |vs| ensures Doomed(f, vs[k], n, unreachable) {
        DoomedLonger(f, vs[k], if k < last then m else l, n, unreachable);
      }
    }
  }

  /** A block is doomed if it is rare itself, or if all blocks it goes on to are. */
  lemma {:induction false} DoomedByOneStep(f: Function, b: nat, unreachable: bool)
    requires b < |f|
    ensures EverDoomed(f, b, unreachable)
            <==> Rare(f[b], unreachable)
                 || (Successors(f[b]) != []
                     && forall k :: 0 <= k < |NormalSuccessors(f[b])| ==>
                          NormalSuccessors(f[b])[k] < |f| && EverDoomed(f, NormalSuccessors(f[b])[k], unreachable))
  {
    hide NormalSuccessors, Successors, Rare;
    if EverDoomed(f, b, unreachable) && !Rare(f[b], unreachable) {
      var n := TimeOfDoom(f, b, unreachable);
      forall k | 0 <= k < |NormalSuccessors(f[b])|
        ensures NormalSuccessors(f[b])[k] < |f| && EverDoomed(f, NormalSuccessors(f[b])[k], unreachable)
      {
        DoomedSometime(f, NormalSuccessors(f[b])[k], n, unreachable);
      }
    }
    if Rare(f[b], unreachable) {
      DoomedSometime(f, b, 1, unreachable);
    } else if Successors(f[b]) != []
              && forall k :: 0 <= k < |NormalSuccessors(f[b])| ==>
                   NormalSuccessors(f[b])[k] < |f| && EverDoomed(f, NormalSuccessors(f[b])[k], unreachable) {
      var n := DoomedTogether(f, NormalSuccessors(f[b]), unreachable);
      StepIsDoomed(f, b, n + 1, unreachable);
      DoomedSometime(f, b, n + 2, unreachable);
    }
  }

  lemma SuccessorInOrder(f: Function, order: seq<nat>, b: nat, v: nat)
    requires SuccessorsFirst(f, order) && b in order && b < |f| && v in Successors(f[b])
    ensures v in order && v < |f|
  {
    hide Successors;
    var i :| 0 <= i < |order| && order[i] == b;
    assert SuccessorsBefore(f, order, i);
    var k :| 0 <= k < |Successors(f[b])| && Successors(f[b])[k] == v;
    assert v in order[..i];
  }

  /** If successors come first, the two sets are told for each block by how it ends. */
  lemma CollectedByTerminator(f: Function, order: seq<nat>, b: nat)
    requires SuccessorsFirst(f, order) && b in order && b < |f| && forall k :: 0 <= k < |order| ==> order[k] < |f|
    ensures var u := Collected(f, order, true);
            match f[b].term
            case Unreachable => b in u
            case Deoptimize => b in u
            case Return => b !in u
            case Invoke(normal, unwind) => b in u <==> normal in u
            case Branch(targets) => b in u <==> targets != [] && forall v :: v in targets ==> v in u
    ensures var c := Collected(f, order, false);
            match f[b].term
            case Unreachable => b !in c
            case Deoptimize => b !in c
            case Return => b !in c
            case Invoke(normal, unwind) => b in c <==> normal in c || f[b].callsCold
            case Branch(targets) => b in c <==> targets != [] && (f[b].callsCold || forall v :: v in targets ==> v in c)
  {
    hide Collected, Doomed, EverDoomed, SuccessorsFirst;
    ByOneStep(f, order, b, true);
    ByOneStep(f, order, b, false);
  }

  lemma ByOneStep(f: Function, order: seq<nat>, b: nat, unreachable: bool)
    requires SuccessorsFirst(f, order) && b in order && b < |f| && forall k :: 0 <= k < |order| ==> order[k] < |f|
    ensures var s := Collected(f, order, unreachable);
            b in s <==> Rare(f[b], unreachable)
                        || (Successors(f[b]) != [] && forall v :: v in NormalSuccessors(f[b]) ==> v in s)
  {
    hide Collected, Doomed, EverDoomed, SuccessorsFirst, Rare, NormalSuccessors, Successors;
    ExactWhenSuccessorsFirst(f, order, unreachable);
    DoomedByOneStep(f, b, unreachable);
    forall k | 0 <= k < |NormalSuccessors(f[b])|
      ensures var v := NormalSuccessors(f[b])[k];
              v < |f| && (v in Collected(f, order, unreachable) <==> EverDoomed(f, v, unreachable))
    {
      NormalIsSuccessor(f, b, k);
      SuccessorInOrder(f, order, b, NormalSuccessors(f[b])[k]);
    }
  }

  /** The graph of a function. */
  function GraphOf(f: Function): Graph {
    seq(|f|, b requires 0 <= b < |f| => Successors(f[b]))
  }

  ghost predicate Acyclic(g: Graph) {
    forall p :: !CycleFromEntry(g, p)
  }

  lemma ClosesACycle(g: Graph, e: (nat, nat))
    requires ClosesCycle(g, e)
    ensures exists p :: CycleFromEntry(g, p)
  {
    var p :| PathBetween(g, p, e.1, e.0);
    var q := p + [e.1];
    forall k | 0 < k < |q| ensures Edge(g, q[k - 1], q[k]) {
      if k < |p| { assert Edge(g, p[k - 1], p[k]); }
    }
    ReachesNext(g, 0, e.0, e.1);
    assert CycleFromEntry(g, q);
  }

  /** In a graph without cycles a depth-first search finishes the successors of a block before the
      block, so that the sets the pass collects are exact. */
  lemma ExactOnAcyclicGraphs(f: Function, order: seq<nat>, backedges: seq<(nat, nat)>, unreachable: bool)
    requires Acyclic(GraphOf(f)) && FinishedInOrder(GraphOf(f), order, backedges) && Sound(GraphOf(f), backedges)
    ensures SuccessorsFirst(f, order)
    ensures forall b :: b in Collected(f, order, unreachable) <==> b in order && b < |f| && EverDoomed(f, b, unreachable)
  {
    var g := GraphOf(f);
    if |backedges| > 0 {
      assert ClosesCycle(g, backedges[0]);
      ClosesACycle(g, backedges[0]);
    }
    forall i | 0 <= i < |order| ensures order[i] < |f| && SuccessorsBefore(f, order, i) {
      assert SettledBlock(g, order, i, backedges);
      forall k | 0 <= k < |Successors(f[order[i]])| ensures Successors(f[order[i]])[k] in order[..i] {
        assert Settled((order[i], g[order[i]][k]), backedges, order[..i]);
      }
    }
    ExactWhenSuccessorsFirst(f, order, unreachable);
  }
}
