/** Finding back edges by a depth-first search with an explicit stack. */
module Backedges {
  import opened ControlFlow

  /** A block on the stack and the number of its successor slots that have been looked at. */
  type Visit = (nat, nat)

  ghost predicate OnStack(stack: seq<Visit>, u: nat) {
    exists k :: 0 <= k < |stack| && stack[k].0 == u
  }

  /** The stack is a path from the entry, every block on it entered by the slot last looked at. */
  ghost predicate StackIsPath(g: Graph, stack: seq<Visit>) {
    && (forall k :: 0 <= k < |stack| ==> stack[k].0 < |g| && stack[k].1 <= |g[stack[k].0]|)
    && (stack != [] ==> stack[0].0 == 0)
    && (forall j, k :: 0 <= j < k < |stack| ==> stack[j].0 != stack[k].0)
    && forall k :: 0 < k < |stack| ==> Entered(g, stack[k - 1], stack[k].0)
  }

  predicate Entered(g: Graph, below: Visit, v: nat) {
    below.0 < |g| && 0 < below.1 <= |g[below.0]| && g[below.0][below.1 - 1] == v
  }

  /** The edge is reported, or leads to a block that is finished. */
  predicate Settled(e: (nat, nat), result: seq<(nat, nat)>, finished: seq<nat>) {
    e in result || e.1 in finished
  }

  /** The edges out of finished blocks are reported or lead to blocks finished before. */
  ghost predicate FinishedInOrder(g: Graph, finished: seq<nat>, result: seq<(nat, nat)>) {
    && (forall f :: 0 <= f < |finished| ==> finished[f] < |g| && SettledBlock(g, finished, f, result))
    && forall e, f :: 0 <= e < f < |finished| ==> finished[e] != finished[f]
  }

  predicate SettledBlock(g: Graph, finished: seq<nat>, f: nat, result: seq<(nat, nat)>)
    requires f < |finished| && finished[f] < |g|
  {
    forall j :: 0 <= j < |g[finished[f]]| ==> Settled((finished[f], g[finished[f]][j]), result, finished[..f])
  }

  /** On the stack, all slots looked at are settled but for the one that led to the block above. */
  ghost predicate StackSettled(g: Graph, stack: seq<Visit>, finished: seq<nat>, result: seq<(nat, nat)>)
    requires StackIsPath(g, stack)
  {
    forall k :: 0 <= k < |stack| ==> SettledVisit(g, stack[k].0, SlotsBelow(stack[k], k == |stack| - 1), finished, result)
  }

  /** The slots of a visit that are done with: the slot that led to the block above is not. */
  function SlotsBelow(v: Visit, isTop: bool): int {
    if isTop then v.1 else v.1 - 1
  }

  predicate SettledVisit(g: Graph, u: nat, slots: int, finished: seq<nat>, result: seq<(nat, nat)>)
    requires u < |g| && slots <= |g[u]|
  {
    forall j :: 0 <= j < slots ==> Settled((u, g[u][j]), result, finished)
  }

  /** The edge closes a cycle that can be reached from the entry. */
  ghost predicate ClosesCycle(g: Graph, e: (nat, nat)) {
    Edge(g, e.0, e.1) && Reaches(g, 0, e.0) && Reaches(g, e.1, e.0)
  }

  ghost predicate Sound(g: Graph, result: seq<(nat, nat)>) {
    forall k :: 0 <= k < |result| ==> ClosesCycle(g, result[k])
  }

  /** A slot has been looked at if its block is finished, or on the stack and past it. */
  ghost predicate LookedAt(g: Graph, stack: seq<Visit>, finished: seq<nat>, slot: (nat, nat)) {
    || (slot.0 in finished && slot.0 < |g| && slot.1 < |g[slot.0]|)
    || exists k :: 0 <= k < |stack| && stack[k].0 == slot.0 && slot.1 < stack[k].1
  }

  ghost predicate Slots(g: Graph, stack: seq<Visit>, finished: seq<nat>, slots: seq<(nat, nat)>) {
    && (forall slot :: slot in slots <==> LookedAt(g, stack, finished, slot))
    && forall j, k :: 0 <= j < k < |slots| ==> slots[j] != slots[k]
  }

  /** A cycle that can be reached from the entry. */
  ghost predicate CycleFromEntry(g: Graph, p: seq<nat>) {
    ClosedWalk(g, p) && Reaches(g, 0, p[0])
  }

  /** What the search keeps. */
  ghost predicate Searching(g: Graph, visited: set<nat>, stack: seq<Visit>, finished: seq<nat>, result: seq<(nat, nat)>) {
    && StackIsPath(g, stack) && StackSettled(g, stack, finished, result)
    && FinishedInOrder(g, finished, result) && Sound(g, result)
    && (forall u :: u in visited <==> OnStack(stack, u) || u in finished)
    && (forall k :: 0 <= k < |stack| ==> stack[k].0 !in finished)
    && (forall k :: 0 <= k < |result| ==> result[k].1 in visited)
    && 0 in visited && forall u :: u in visited ==> u < |g| && Reaches(g, 0, u)
  }

  lemma StartSearching(g: Graph)
    ensures Searching(g, {0}, [(0, 0)], [], []) && Slots(g, [(0, 0)], [], [])
  {
    ReachesItself(g, 0);
    assert [(0, 0)][0].0 == 0;
    assert OnStack([(0, 0)], 0);
  }

  lemma {:induction false} StackReaches(g: Graph, stack: seq<Visit>, j: nat, k: nat)
    requires StackIsPath(g, stack) && j <= k < |stack|
    ensures Reaches(g, stack[j].0, stack[k].0)
    decreases k - j
  {
    hide Reaches;
    if j == k {
      ReachesItself(g, stack[j].0);
    } else {
      StackReaches(g, stack, j, k - 1);
      assert Entered(g, stack[k - 1], stack[k].0);
      ReachesNext(g, stack[j].0, stack[k - 1].0, stack[k].0);
    }
  }

  /** The top of the stack has one more slot to look at. */
  ghost predicate TopHasSlot(g: Graph, stack: seq<Visit>)
    requires StackIsPath(g, stack)
  {
    stack != [] && stack[|stack| - 1].1 < |g[stack[|stack| - 1].0]|
  }

  function Past(stack: seq<Visit>): seq<Visit>
    requires stack != []
  {
    var n := |stack| - 1;
    stack[n := (stack[n].0, stack[n].1 + 1)]
  }

  lemma PastIsPath(g: Graph, stack: seq<Visit>)
    requires StackIsPath(g, stack) && TopHasSlot(g, stack)
    ensures StackIsPath(g, Past(stack)) && forall u :: OnStack(Past(stack), u) <==> OnStack(stack, u)
  {
    var n := |stack| - 1;
    forall u ensures OnStack(Past(stack), u) <==> OnStack(stack, u) {
      if OnStack(stack, u) {
        var k :| 0 <= k < |stack| && stack[k].0 == u;
        assert Past(stack)[k].0 == u;
      }
    }
  }

  /** One more slot, which is then in the list once. */
  lemma PastSlots(g: Graph, stack: seq<Visit>, finished: seq<nat>, slots: seq<(nat, nat)>)
    requires StackIsPath(g, stack) && TopHasSlot(g, stack) && Slots(g, stack, finished, slots)
    requires stack[|stack| - 1].0 !in finished
    ensures Slots(g, Past(stack), finished, slots + [stack[|stack| - 1]])
  {
    var n := |stack| - 1;
    var top, s := stack[n], Past(stack);
    forall slot ensures slot in slots + [top] <==> LookedAt(g, s, finished, slot) {
      PastLookedAt(g, stack, finished, slot);
    }
    TopNotLookedAt(g, stack, finished);
  }

  lemma TopNotLookedAt(g: Graph, stack: seq<Visit>, finished: seq<nat>)
    requires StackIsPath(g, stack) && stack != [] && stack[|stack| - 1].0 !in finished
    ensures !LookedAt(g, stack, finished, stack[|stack| - 1])
  {
  }

  lemma PastLookedAt(g: Graph, stack: seq<Visit>, finished: seq<nat>, slot: (nat, nat))
    requires StackIsPath(g, stack) && TopHasSlot(g, stack)
    ensures LookedAt(g, Past(stack), finished, slot) <==> LookedAt(g, stack, finished, slot) || slot == stack[|stack| - 1]
  {
    var n := |stack| - 1;
    var s := Past(stack);
    if LookedAt(g, stack, finished, slot) && slot.0 !in finished {
      var k :| 0 <= k < |stack| && stack[k].0 == slot.0 && slot.1 < stack[k].1;
      assert s[k].0 == slot.0 && slot.1 < s[k].1;
    }
    if slot == stack[n] {
      assert s[n].0 == slot.0 && slot.1 < s[n].1;
    }
    if LookedAt(g, s, finished, slot) && !(slot.0 in finished && slot.0 < |g| && slot.1 < |g[slot.0]|) {
      var k :| 0 <= k < |s| && s[k].0 == slot.0 && slot.1 < s[k].1;
      if k < n || slot.1 < stack[n].1 {
        assert stack[k].0 == slot.0 && slot.1 < stack[k].1;
      }
    }
  }

  /** The slot leads to a block that was visited before; if that is on the stack, the edge is
      reported. */
  lemma LookAtVisited(g: Graph, visited: set<nat>, stack: seq<Visit>, finished: seq<nat>, result: seq<(nat, nat)>, v: nat)
    requires Searching(g, visited, stack, finished, result) && TopHasSlot(g, stack)
    requires v == g[stack[|stack| - 1].0][stack[|stack| - 1].1] && v in visited
    ensures Searching(g, visited, Past(stack), finished, if OnStack(stack, v) then result + [(stack[|stack| - 1].0, v)] else result)
  {
    hide Reaches, FinishedInOrder, Edge;
    var n := |stack| - 1;
    var u := stack[n].0;
    var result' := if OnStack(stack, v) then result + [(u, v)] else result;
    PastIsPath(g, stack);
    MoreResults(g, finished, result, result');
    if OnStack(stack, v) {
      var k :| 0 <= k < |stack| && stack[k].0 == v;
      StackReaches(g, stack, k, n);
      StackReaches(g, stack, 0, n);
      assert Edge(g, u, v) by { SlotIsEdge(g, u, stack[n].1); }
    }
    SettledPast(g, stack, finished, result, result', v);
  }

  lemma SlotIsEdge(g: Graph, u: nat, j: nat)
    requires u < |g| && j < |g[u]|
    ensures Edge(g, u, g[u][j])
  {
  }

  lemma SettledPast(g: Graph, stack: seq<Visit>, finished: seq<nat>, result: seq<(nat, nat)>, result': seq<(nat, nat)>, v: nat)
    requires StackIsPath(g, stack) && StackSettled(g, stack, finished, result) && TopHasSlot(g, stack)
    requires v == g[stack[|stack| - 1].0][stack[|stack| - 1].1]
    requires StackIsPath(g, Past(stack)) && (forall e :: e in result ==> e in result')
    requires Settled((stack[|stack| - 1].0, v), result', finished)
    ensures StackSettled(g, Past(stack), finished, result')
  {
    var n := |stack| - 1;
    forall k | 0 <= k < |stack|
      ensures SettledVisit(g, Past(stack)[k].0, SlotsBelow(Past(stack)[k], k == n), finished, result')
    {
      assert SettledVisit(g, stack[k].0, SlotsBelow(stack[k], k == n), finished, result);
    }
  }

  lemma MoreResults(g: Graph, finished: seq<nat>, result: seq<(nat, nat)>, result': seq<(nat, nat)>)
    requires FinishedInOrder(g, finished, result) && forall e :: e in result ==> e in result'
    ensures FinishedInOrder(g, finished, result')
  {
    forall f | 0 <= f < |finished| ensures SettledBlock(g, finished, f, result') {
      assert SettledBlock(g, finished, f, result);
    }
  }

  /** The slot leads to a new block, which goes on the stack. */
  lemma GoDown(g: Graph, visited: set<nat>, stack: seq<Visit>, finished: seq<nat>, result: seq<(nat, nat)>, v: nat)
    requires Searching(g, visited, stack, finished, result) && TopHasSlot(g, stack)
    requires v == g[stack[|stack| - 1].0][stack[|stack| - 1].1] && v !in visited
    ensures Searching(g, visited + {v}, Past(stack) + [(v, 0)], finished, result)
  {
    hide Reaches, FinishedInOrder, Edge, Sound, Settled, Entered;
    var n := |stack| - 1;
    var u := stack[n].0;
    PastIsPath(g, stack);
    SlotIsEdge(g, u, stack[n].1);
    StackReaches(g, stack, 0, n);
    ReachesNext(g, 0, u, v);
    EdgeInGraph(g, u, v);
    assert !OnStack(stack, v);
    DownIsPath(g, stack, v);
    NewOnTop(stack, v);
    SettledDown(g, stack, finished, result, v);
    hide StackIsPath, OnStack, StackSettled;
  }

  lemma DownIsPath(g: Graph, stack: seq<Visit>, v: nat)
    requires StackIsPath(g, stack) && TopHasSlot(g, stack) && StackIsPath(g, Past(stack))
    requires v == g[stack[|stack| - 1].0][stack[|stack| - 1].1] && v < |g| && !OnStack(stack, v)
    ensures StackIsPath(g, Past(stack) + [(v, 0)])
  {
    hide Entered;
    var n := |stack| - 1;
    var s := Past(stack) + [(v, 0)];
    forall k | 0 < k < |s| ensures Entered(g, s[k - 1], s[k].0) {
      if k <= n {
        assert Entered(g, Past(stack)[k - 1], Past(stack)[k].0);
      } else {
        assert Entered(g, Past(stack)[n], v) by { JustEntered(g, stack); }
      }
    }
    forall k | 0 <= k <= n ensures s[k].0 == stack[k].0 {
    }
  }

  lemma JustEntered(g: Graph, stack: seq<Visit>)
    requires StackIsPath(g, stack) && TopHasSlot(g, stack)
    ensures Entered(g, Past(stack)[|stack| - 1], g[stack[|stack| - 1].0][stack[|stack| - 1].1])
  {
  }

  lemma NewOnTop(stack: seq<Visit>, v: nat)
    requires stack != []
    ensures forall u :: OnStack(Past(stack) + [(v, 0)], u) <==> OnStack(stack, u) || u == v
  {
    var s := Past(stack) + [(v, 0)];
    assert s[|stack|].0 == v;
    forall u ensures OnStack(s, u) <==> OnStack(stack, u) || u == v {
      if OnStack(stack, u) {
        var k :| 0 <= k < |stack| && stack[k].0 == u;
        assert s[k].0 == u;
      }
    }
  }

  lemma SettledDown(g: Graph, stack: seq<Visit>, finished: seq<nat>, result: seq<(nat, nat)>, v: nat)
    requires StackIsPath(g, stack) && StackSettled(g, stack, finished, result) && TopHasSlot(g, stack)
    requires StackIsPath(g, Past(stack) + [(v, 0)])
    ensures StackSettled(g, Past(stack) + [(v, 0)], finished, result)
  {
    var n := |stack| - 1;
    var s := Past(stack) + [(v, 0)];
    forall k | 0 <= k < |s| ensures SettledVisit(g, s[k].0, SlotsBelow(s[k], k == |s| - 1), finished, result) {
      if k <= n {
        assert SettledVisit(g, stack[k].0, SlotsBelow(stack[k], k == n), finished, result);
      }
    }
  }

  lemma SlotsDown(g: Graph, stack: seq<Visit>, finished: seq<nat>, slots: seq<(nat, nat)>, v: nat)
    requires Slots(g, stack, finished, slots)
    ensures Slots(g, stack + [(v, 0)], finished, slots)
  {
    var s := stack + [(v, 0)];
    forall slot ensures LookedAt(g, s, finished, slot) <==> LookedAt(g, stack, finished, slot) {
      if exists k :: 0 <= k < |stack| && stack[k].0 == slot.0 && slot.1 < stack[k].1 {
        var k :| 0 <= k < |stack| && stack[k].0 == slot.0 && slot.1 < stack[k].1;
        assert s[k].0 == slot.0 && slot.1 < s[k].1;
      }
    }
  }

  /** The top of the stack is finished. */
  lemma GoUp(g: Graph, visited: set<nat>, stack: seq<Visit>, finished: seq<nat>, result: seq<(nat, nat)>)
    requires Searching(g, visited, stack, finished, result) && stack != [] && !TopHasSlot(g, stack)
    ensures Searching(g, visited, stack[..|stack| - 1], finished + [stack[|stack| - 1].0], result)
  {
    hide Reaches, Edge, Sound, FinishedInOrder;
    var n := |stack| - 1;
    var u, s, finished' := stack[n].0, stack[..n], finished + [stack[n].0];
    OffTop(stack);
    FinishedNext(g, stack, finished, result);
    SettledUp(g, stack, finished, result);
  }

  lemma OffTop(stack: seq<Visit>)
    requires stack != []
    ensures forall u :: OnStack(stack, u) <==> OnStack(stack[..|stack| - 1], u) || u == stack[|stack| - 1].0
  {
    var n := |stack| - 1;
    forall u ensures OnStack(stack, u) <==> OnStack(stack[..n], u) || u == stack[n].0 {
      if OnStack(stack, u) && u != stack[n].0 {
        var k :| 0 <= k < |stack| && stack[k].0 == u;
        assert stack[..n][k].0 == u;
      }
      if OnStack(stack[..n], u) {
        var k :| 0 <= k < n && stack[..n][k].0 == u;
        assert stack[k].0 == u;
      }
    }
  }

  lemma FinishedNext(g: Graph, stack: seq<Visit>, finished: seq<nat>, result: seq<(nat, nat)>)
    requires StackIsPath(g, stack) && StackSettled(g, stack, finished, result) && stack != [] && !TopHasSlot(g, stack)
    requires FinishedInOrder(g, finished, result) && stack[|stack| - 1].0 !in finished
    ensures FinishedInOrder(g, finished + [stack[|stack| - 1].0], result)
  {
    var n := |stack| - 1;
    var u, finished' := stack[n].0, finished + [stack[n].0];
    assert SettledVisit(g, u, SlotsBelow(stack[n], true), finished, result);
    forall f | 0 <= f < |finished'| ensures SettledBlock(g, finished', f, result) {
      if f < |finished| {
        assert SettledBlock(g, finished, f, result);
        assert finished'[..f] == finished[..f];
      } else {
        assert finished'[..f] == finished;
      }
    }
  }

  lemma SettledUp(g: Graph, stack: seq<Visit>, finished: seq<nat>, result: seq<(nat, nat)>)
    requires StackIsPath(g, stack) && StackSettled(g, stack, finished, result) && stack != []
    ensures StackIsPath(g, stack[..|stack| - 1])
    ensures StackSettled(g, stack[..|stack| - 1], finished + [stack[|stack| - 1].0], result)
  {
    var n := |stack| - 1;
    var s, finished' := stack[..n], finished + [stack[n].0];
    forall k | 0 <= k < n ensures SettledVisit(g, s[k].0, SlotsBelow(s[k], k == n - 1), finished', result) {
      assert SettledVisit(g, stack[k].0, SlotsBelow(stack[k], false), finished, result);
      if k == n - 1 {
        assert Entered(g, stack[k], stack[n].0);
      }
    }
  }

  lemma SlotsUp(g: Graph, stack: seq<Visit>, finished: seq<nat>, slots: seq<(nat, nat)>)
    requires StackIsPath(g, stack) && Slots(g, stack, finished, slots) && stack != [] && !TopHasSlot(g, stack)
    ensures Slots(g, stack[..|stack| - 1], finished + [stack[|stack| - 1].0], slots)
  {
    var n := |stack| - 1;
    var s, finished' := stack[..n], finished + [stack[n].0];
    forall slot ensures LookedAt(g, s, finished', slot) <==> LookedAt(g, stack, finished, slot) {
      UpLookedAt(g, stack, finished, slot);
    }
  }

  lemma UpLookedAt(g: Graph, stack: seq<Visit>, finished: seq<nat>, slot: (nat, nat))
    requires StackIsPath(g, stack) && stack != [] && !TopHasSlot(g, stack)
    ensures LookedAt(g, stack[..|stack| - 1], finished + [stack[|stack| - 1].0], slot) <==> LookedAt(g, stack, finished, slot)
  {
    var n := |stack| - 1;
    var s, finished' := stack[..n], finished + [stack[n].0];
    if exists k :: 0 <= k < |stack| && stack[k].0 == slot.0 && slot.1 < stack[k].1 {
      var k :| 0 <= k < |stack| && stack[k].0 == slot.0 && slot.1 < stack[k].1;
      if k < n { assert s[k].0 == slot.0 && slot.1 < s[k].1; }
    }
    if slot.0 == stack[n].0 && slot.1 < |g[slot.0]| {
      assert stack[n].0 == slot.0 && slot.1 < stack[n].1;
    }
    if exists k :: 0 <= k < |s| && s[k].0 == slot.0 && slot.1 < s[k].1 {
      var k :| 0 <= k < |s| && s[k].0 == slot.0 && slot.1 < s[k].1;
      assert stack[k].0 == slot.0 && slot.1 < stack[k].1;
    }
  }

  // ---- At the end ----

  /** The finished blocks are those that can be reached from the entry. */
  lemma FinishedIsReachable(g: Graph, visited: set<nat>, finished: seq<nat>, result: seq<(nat, nat)>)
    requires Searching(g, visited, [], finished, result)
    ensures forall u :: u in finished <==> Reaches(g, 0, u)
  {
    hide Reaches, Sound;
    assert forall u :: !OnStack([], u);
    forall u, v | u in visited && Edge(g, u, v) ensures v in visited {
      var f :| 0 <= f < |finished| && finished[f] == u;
      assert SettledBlock(g, finished, f, result);
      var j :| 0 <= j < |g[u]| && g[u][j] == v;
      assert Settled((u, v), result, finished[..f]);
    }
    forall u | Reaches(g, 0, u) ensures u in finished {
      ClosedUnderReach(g, visited, 0, u);
    }
  }

  function Place(finished: seq<nat>, u: nat): (f: nat)
    requires u in finished
    ensures f < |finished| && finished[f] == u
  {
    if finished[0] == u then 0 else 1 + Place(finished[1..], u)
  }

  /** Along edges that are not reported, blocks are finished ever earlier. */
  lemma {:induction false} EarlierAlong(g: Graph, finished: seq<nat>, result: seq<(nat, nat)>, p: seq<nat>)
    requires FinishedInOrder(g, finished, result) && Path(g, p) && |p| > 1
    requires forall k :: 0 <= k < |p| ==> p[k] in finished
    requires forall k :: 0 < k < |p| ==> !Reported(result, p[k - 1], p[k])
    ensures Place(finished, p[|p| - 1]) < Place(finished, p[0])
    decreases |p|
  {
    hide Place, FinishedInOrder;
    var n := |p| - 1;
    assert Edge(g, p[n - 1], p[n]) && !Reported(result, p[n - 1], p[n]);
    EarlierByEdge(g, finished, result, p[n - 1], p[n]);
    if n > 1 {
      EarlierAlong(g, finished, result, p[..n]);
    }
  }

  predicate Reported(result: seq<(nat, nat)>, u: nat, v: nat) {
    (u, v) in result
  }

  lemma EarlierByEdge(g: Graph, finished: seq<nat>, result: seq<(nat, nat)>, u: nat, v: nat)
    requires FinishedInOrder(g, finished, result) && u in finished && v in finished && Edge(g, u, v) && (u, v) !in result
    ensures Place(finished, v) < Place(finished, u)
  {
    hide Place;
    var f := Place(finished, u);
    assert SettledBlock(g, finished, f, result);
    var j :| 0 <= j < |g[u]| && g[u][j] == v;
    assert Settled((u, v), result, finished[..f]);
    var e :| 0 <= e < f && finished[..f][e] == v;
    assert finished[e] == v;
  }

  ghost predicate CrossesReported(p: seq<nat>, result: seq<(nat, nat)>) {
    exists k :: 0 < k < |p| && Reported(result, p[k - 1], p[k])
  }

  /** Without the reported edges nothing that can be reached lies on a cycle. */
  lemma CyclesAreCut(g: Graph, visited: set<nat>, finished: seq<nat>, result: seq<(nat, nat)>, p: seq<nat>)
    requires Searching(g, visited, [], finished, result) && CycleFromEntry(g, p)
    ensures CrossesReported(p, result)
  {
    hide FinishedInOrder, Sound, Reaches, StackIsPath, Reported;
    FinishedIsReachable(g, visited, finished, result);
    AlongReachable(g, p);
    if !CrossesReported(p, result) {
      forall k | 0 < k < |p| ensures !Reported(result, p[k - 1], p[k]) {
      }
      EarlierAlong(g, finished, result, p);
    }
  }

  lemma {:induction false} AlongReachable(g: Graph, p: seq<nat>)
    requires Path(g, p) && Reaches(g, 0, p[0])
    ensures forall k :: 0 <= k < |p| ==> Reaches(g, 0, p[k])
  {
    hide Reaches, Edge;
    var n := |p| - 1;
    if n > 0 {
      AlongReachable(g, p[..n]);
      assert Reaches(g, 0, p[..n][n - 1]) && Edge(g, p[n - 1], p[n]);
      ReachesNext(g, 0, p[n - 1], p[n]);
    }
  }

  // ---- The search as a recursion ----

  /** The blocks visited, and the edges that lead to a block on the path to where they start. */
  datatype Found = Found(visited: set<nat>, edges: seq<(nat, nat)>)

  /** A depth-first search of the successors of `u` from slot `j` on, `path` being the blocks on the
      way from the entry to `u`. */
  ghost function Search(g: Graph, visited: set<nat>, path: set<nat>, u: nat, j: nat): (r: Found)
    requires u < |g| && j <= |g[u]| && forall v :: v in visited ==> v < |g|
    ensures visited <= r.visited && forall v :: v in r.visited ==> v < |g|
    decreases |g| - |visited|, |g[u]| - j
  {
    if j == |g[u]| then Found(visited, [])
    else
      var v := g[u][j];
      if v in visited then
        var rest := Search(g, visited, path, u, j + 1);
        rest.(edges := (if v in path then [(u, v)] else []) + rest.edges)
      else
        FewerUnvisited(g, visited, visited + {v});
        var below := Search(g, visited + {v}, path + {v}, v, 0);
        FewerUnvisited(g, visited, below.visited);
        var rest := Search(g, below.visited, path, u, j + 1);
        Found(rest.visited, below.edges + rest.edges)
  }

  /** The back edges of a graph, in the order in which the search finds them. */
  ghost function BackedgesOf(g: Graph): seq<(nat, nat)> {
    Search(g, {0}, {0}, 0, 0).edges
  }

  function Blocks(stack: seq<Visit>): set<nat> {
    if stack == [] then {} else Blocks(stack[..|stack| - 1]) + {stack[|stack| - 1].0}
  }

  lemma {:induction false} BlocksOnStack(stack: seq<Visit>)
    ensures forall u :: u in Blocks(stack) <==> OnStack(stack, u)
  {
    hide OnStack;
    if stack == [] {
      assert forall u :: !OnStack(stack, u) by { NothingOnStack(); }
    } else {
      BlocksOnStack(stack[..|stack| - 1]);
      OffTop(stack);
    }
  }

  lemma NothingOnStack()
    ensures forall u :: !OnStack([], u)
  {
  }

  lemma BlocksPast(stack: seq<Visit>, v: nat)
    requires stack != []
    ensures Past(stack)[..|stack| - 1] == stack[..|stack| - 1]
    ensures Blocks(Past(stack)) == Blocks(stack)
    ensures var s := Past(stack) + [(v, 0)];
            s[..|stack|] == Past(stack) && Blocks(s) == Blocks(stack) + {v}
  {
    var n := |stack| - 1;
    assert Past(stack)[..n] == stack[..n];
    assert (Past(stack) + [(v, 0)])[..n + 1] == Past(stack);
  }

  /** What is found when the visits on the stack are finished, from the top down. */
  ghost function Finish(g: Graph, visited: set<nat>, stack: seq<Visit>, result: seq<(nat, nat)>): seq<(nat, nat)>
    requires StackIsPath(g, stack) && forall v :: v in visited ==> v < |g|
    decreases |stack|
  {
    if stack == [] then result
    else
      var n := |stack| - 1;
      var r := Search(g, visited, Blocks(stack), stack[n].0, stack[n].1);
      PoppedIsPath(g, stack);
      Finish(g, r.visited, stack[..n], result + r.edges)
  }

  lemma PoppedIsPath(g: Graph, stack: seq<Visit>)
    requires StackIsPath(g, stack) && stack != []
    ensures StackIsPath(g, stack[..|stack| - 1])
  {
  }

  /** Looking at a block that was visited changes nothing in what will be found. */
  lemma FinishPast(g: Graph, visited: set<nat>, stack: seq<Visit>, result: seq<(nat, nat)>, v: nat)
    requires StackIsPath(g, stack) && TopHasSlot(g, stack) && (forall u :: u in visited ==> u < |g|)
    requires v == g[stack[|stack| - 1].0][stack[|stack| - 1].1] && v in visited
    ensures StackIsPath(g, Past(stack))
    ensures Finish(g, visited, Past(stack), if OnStack(stack, v) then result + [(stack[|stack| - 1].0, v)] else result)
            == Finish(g, visited, stack, result)
  {
    hide OnStack, Blocks;
    var n := |stack| - 1;
    var u, j := stack[n].0, stack[n].1;
    PastIsPath(g, stack);
    BlocksOnStack(stack);
    BlocksPast(stack, v);
    var rest := Search(g, visited, Blocks(stack), u, j + 1);
    var more := if OnStack(stack, v) then [(u, v)] else [];
    assert result + (more + rest.edges) == (result + more) + rest.edges;
    assert result + more == if OnStack(stack, v) then result + [(u, v)] else result;
    hide Search;
  }

  /** Nor does going down to a new block. */
  lemma FinishDown(g: Graph, visited: set<nat>, stack: seq<Visit>, result: seq<(nat, nat)>, v: nat)
    requires StackIsPath(g, stack) && TopHasSlot(g, stack) && (forall u :: u in visited ==> u < |g|)
    requires v == g[stack[|stack| - 1].0][stack[|stack| - 1].1] && v !in visited && v < |g|
    requires StackIsPath(g, Past(stack) + [(v, 0)])
    ensures Finish(g, visited + {v}, Past(stack) + [(v, 0)], result) == Finish(g, visited, stack, result)
  {
    hide Blocks, OnStack, Finish, Search, StackIsPath, TopHasSlot;
    var n := |stack| - 1;
    TopSlot(g, stack);
    var u, j, s := stack[n].0, stack[n].1, Past(stack) + [(v, 0)];
    PastIsPath(g, stack);
    BlocksPast(stack, v);
    FinishUnfold(g, visited + {v}, s, result);
    var below := Search(g, visited + {v}, Blocks(stack) + {v}, v, 0);
    FinishUnfold(g, below.visited, Past(stack), result + below.edges);
    FinishUnfold(g, visited, stack, result);
    SearchNew(g, visited, Blocks(stack), u, j);
    var rest := Search(g, below.visited, Blocks(stack), u, j + 1);
    assert (result + below.edges) + rest.edges == result + (below.edges + rest.edges);
  }

  lemma TopSlot(g: Graph, stack: seq<Visit>)
    requires StackIsPath(g, stack) && TopHasSlot(g, stack)
    ensures var n := |stack| - 1; stack != [] && stack[n].0 < |g| && stack[n].1 < |g[stack[n].0]|
    ensures Past(stack)[|stack| - 1] == (stack[|stack| - 1].0, stack[|stack| - 1].1 + 1)
  {
  }

  lemma SearchNew(g: Graph, visited: set<nat>, path: set<nat>, u: nat, j: nat)
    requires u < |g| && j < |g[u]| && (forall v :: v in visited ==> v < |g|) && g[u][j] !in visited
    ensures var v := g[u][j];
            var below := Search(g, visited + {v}, path + {v}, v, 0);
            var rest := Search(g, below.visited, path, u, j + 1);
            Search(g, visited, path, u, j) == Found(rest.visited, below.edges + rest.edges)
  {
  }

  lemma FinishUnfold(g: Graph, visited: set<nat>, stack: seq<Visit>, result: seq<(nat, nat)>)
    requires StackIsPath(g, stack) && stack != [] && forall v :: v in visited ==> v < |g|
    ensures StackIsPath(g, stack[..|stack| - 1])
    ensures var n := |stack| - 1;
            var r := Search(g, visited, Blocks(stack), stack[n].0, stack[n].1);
            Finish(g, visited, stack, result) == Finish(g, r.visited, stack[..n], result + r.edges)
  {
    hide Search, Blocks;
    PoppedIsPath(g, stack);
  }

  /** Nor does finishing the top of the stack. */
  lemma FinishUp(g: Graph, visited: set<nat>, stack: seq<Visit>, result: seq<(nat, nat)>)
    requires StackIsPath(g, stack) && stack != [] && !TopHasSlot(g, stack) && (forall u :: u in visited ==> u < |g|)
    ensures StackIsPath(g, stack[..|stack| - 1])
    ensures Finish(g, visited, stack[..|stack| - 1], result) == Finish(g, visited, stack, result)
  {
    PoppedIsPath(g, stack);
    assert result + [] == result;
  }

  // ---- No more edges than needed, and each as often as it is there ----

  /** The block `v` is on the stack, just above `u`. */
  ghost predicate Hangs(stack: seq<Visit>, u: nat, v: nat) {
    exists k :: 0 < k < |stack| && stack[k].0 == v && stack[k - 1].0 == u
  }

  lemma HangsPast(stack: seq<Visit>, v: nat)
    requires stack != []
    ensures forall a, b :: Hangs(Past(stack), a, b) <==> Hangs(stack, a, b)
    ensures forall a, b :: Hangs(Past(stack) + [(v, 0)], a, b) <==> Hangs(stack, a, b) || (a == stack[|stack| - 1].0 && b == v)
  {
    var n := |stack| - 1;
    var s, d := Past(stack), Past(stack) + [(v, 0)];
    assert d[n + 1].0 == v && d[n].0 == stack[n].0;
    forall a, b ensures Hangs(s, a, b) <==> Hangs(stack, a, b) {
      if Hangs(stack, a, b) {
        var k :| 0 < k < |stack| && stack[k].0 == b && stack[k - 1].0 == a;
        assert s[k].0 == b && s[k - 1].0 == a;
      }
    }
    forall a, b ensures Hangs(d, a, b) <==> Hangs(s, a, b) || (a == stack[n].0 && b == v) {
      if Hangs(s, a, b) {
        var k :| 0 < k < |s| && s[k].0 == b && s[k - 1].0 == a;
        assert d[k].0 == b && d[k - 1].0 == a;
      }
      if Hangs(d, a, b) {
        var k :| 0 < k < |d| && d[k].0 == b && d[k - 1].0 == a;
        if k <= n { assert s[k].0 == b && s[k - 1].0 == a; }
      }
    }
  }

  lemma HangsUp(stack: seq<Visit>)
    requires stack != []
    ensures forall a, b :: Hangs(stack, a, b) && b != stack[|stack| - 1].0 ==> Hangs(stack[..|stack| - 1], a, b)
    ensures forall a, b :: Hangs(stack[..|stack| - 1], a, b) ==> Hangs(stack, a, b)
  {
    var n := |stack| - 1;
    var s := stack[..n];
    forall a, b | Hangs(stack, a, b) && b != stack[n].0 ensures Hangs(s, a, b) {
      var k :| 0 < k < |stack| && stack[k].0 == b && stack[k - 1].0 == a;
      assert s[k].0 == b && s[k - 1].0 == a;
    }
    forall a, b | Hangs(s, a, b) ensures Hangs(stack, a, b) {
      var k :| 0 < k < |s| && s[k].0 == b && s[k - 1].0 == a;
      assert stack[k].0 == b && stack[k - 1].0 == a;
    }
  }

  /** What hangs above the top is not on the stack. */
  lemma NothingAboveTop(g: Graph, stack: seq<Visit>, v: nat)
    requires StackIsPath(g, stack) && stack != []
    ensures !Hangs(stack, stack[|stack| - 1].0, v)
  {
  }

  /** The edges by which the search came to new blocks. */
  ghost predicate Treed(g: Graph, visited: set<nat>, stack: seq<Visit>, finished: seq<nat>, result: seq<(nat, nat)>,
                        tree: set<(nat, nat)>)
  {
    && (forall u, v :: Hangs(stack, u, v) ==> InTree(tree, u, v))
    && (forall u, v :: InTree(tree, u, v) ==> v in visited && !Reported(result, u, v))
    && (forall u, v :: InTree(tree, u, v) ==> v in finished || Hangs(stack, u, v))
    && forall e :: e in result ==> TreePath(g, tree, e.1, e.0)
  }

  predicate InTree(tree: set<(nat, nat)>, u: nat, v: nat) {
    (u, v) in tree
  }

  ghost predicate TreePath(g: Graph, tree: set<(nat, nat)>, a: nat, b: nat) {
    exists p :: PathBetween(g, p, a, b) && AlongTree(tree, p)
  }

  ghost predicate AlongTree(tree: set<(nat, nat)>, p: seq<nat>) {
    forall k :: 0 < k < |p| ==> InTree(tree, p[k - 1], p[k])
  }

  lemma MoreTree(g: Graph, tree: set<(nat, nat)>, tree': set<(nat, nat)>, a: nat, b: nat)
    requires TreePath(g, tree, a, b) && tree <= tree'
    ensures TreePath(g, tree', a, b)
  {
    hide PathBetween;
    var p :| PathBetween(g, p, a, b) && AlongTree(tree, p);
    assert AlongTree(tree', p);
  }

  /** Up the stack there is a path of tree edges. */
  lemma StackTreePath(g: Graph, stack: seq<Visit>, tree: set<(nat, nat)>, j: nat)
    requires StackIsPath(g, stack) && j < |stack| && forall u, v :: Hangs(stack, u, v) ==> InTree(tree, u, v)
    ensures TreePath(g, tree, stack[j].0, stack[|stack| - 1].0)
  {
    var p := seq(|stack| - j, k requires 0 <= k < |stack| - j => stack[j + k].0);
    forall k | 0 < k < |p| ensures Edge(g, p[k - 1], p[k]) && InTree(tree, p[k - 1], p[k]) {
      assert Entered(g, stack[j + k - 1], stack[j + k].0);
      SlotIsEdge(g, stack[j + k - 1].0, stack[j + k - 1].1 - 1);
      assert Hangs(stack, p[k - 1], p[k]);
    }
    assert PathBetween(g, p, stack[j].0, stack[|stack| - 1].0) && AlongTree(tree, p);
  }

  lemma StartTreed(g: Graph)
    ensures Treed(g, {0}, [(0, 0)], [], [], {})
  {
  }

  lemma PlaceOnStack(stack: seq<Visit>, v: nat) returns (j: nat)
    requires OnStack(stack, v)
    ensures j < |stack| && stack[j].0 == v
  {
    j :| 0 <= j < |stack| && stack[j].0 == v;
  }

  lemma TreedPast(g: Graph, visited: set<nat>, stack: seq<Visit>, finished: seq<nat>, result: seq<(nat, nat)>,
                  tree: set<(nat, nat)>, v: nat)
    requires StackIsPath(g, stack) && stack != [] && Treed(g, visited, stack, finished, result, tree)
    requires OnStack(stack, v) ==> v !in finished
    ensures Treed(g, visited, Past(stack), finished,
                  if OnStack(stack, v) then result + [(stack[|stack| - 1].0, v)] else result, tree)
  {
    hide TreePath, Hangs, StackIsPath, Past, InTree, OnStack;
    var u := stack[|stack| - 1].0;
    HangsPast(stack, v);
    if OnStack(stack, v) {
      var j := PlaceOnStack(stack, v);
      StackTreePath(g, stack, tree, j);
      NothingAboveTop(g, stack, v);
      assert !InTree(tree, u, v);
    }
  }

  lemma TreedDown(g: Graph, visited: set<nat>, stack: seq<Visit>, finished: seq<nat>, result: seq<(nat, nat)>,
                  tree: set<(nat, nat)>, v: nat)
    requires stack != [] && Treed(g, visited, stack, finished, result, tree)
    requires v !in visited && forall e :: e in result ==> e.1 in visited
    ensures Treed(g, visited + {v}, Past(stack) + [(v, 0)], finished, result, tree + {(stack[|stack| - 1].0, v)})
  {
    hide TreePath, Hangs, Past;
    var u, tree' := stack[|stack| - 1].0, tree + {(stack[|stack| - 1].0, v)};
    HangsPast(stack, v);
    assert forall a, b :: InTree(tree', a, b) <==> InTree(tree, a, b) || (a == u && b == v);
    forall e | e in result ensures TreePath(g, tree', e.1, e.0) {
      MoreTree(g, tree, tree', e.1, e.0);
    }
  }

  lemma TreedUp(g: Graph, visited: set<nat>, stack: seq<Visit>, finished: seq<nat>, result: seq<(nat, nat)>, tree: set<(nat, nat)>)
    requires Treed(g, visited, stack, finished, result, tree) && stack != []
    ensures Treed(g, visited, stack[..|stack| - 1], finished + [stack[|stack| - 1].0], result, tree)
  {
    hide TreePath, Hangs, InTree;
    HangsUp(stack);
  }

  /** How often a pair is reported: once for every slot looked at, if at all. */
  ghost predicate Counted(g: Graph, stack: seq<Visit>, finished: seq<nat>, result: seq<(nat, nat)>)
    requires StackIsPath(g, stack)
  {
    && (forall e :: e in result ==> e.0 in finished || OnStack(stack, e.0))
    && (forall e :: e in result && e.0 in finished ==> AsOften(g, result, e))
    && forall e, k :: e in result && 0 <= k < |stack| && stack[k].0 == e.0 ==>
          ReportedBelow(stack, k, e.1) && AsLookedAt(g, result, e, stack[k].1)
  }

  /** The edge is reported once for every slot there is for it. */
  ghost predicate AsOften(g: Graph, result: seq<(nat, nat)>, e: (nat, nat)) {
    e.0 < |g| && multiset(result)[e] == multiset(g[e.0])[e.1]
  }

  /** The edge is reported once for every slot for it among the first `n`. */
  ghost predicate AsLookedAt(g: Graph, result: seq<(nat, nat)>, e: (nat, nat), n: nat) {
    e.0 < |g| && n <= |g[e.0]| && multiset(result)[e] == multiset(g[e.0][..n])[e.1]
  }

  ghost predicate ReportedBelow(stack: seq<Visit>, k: nat, v: nat) {
    exists j :: 0 <= j <= k && j < |stack| && stack[j].0 == v
  }

  lemma SameBelow(s: seq<Visit>, t: seq<Visit>, k: nat, v: nat)
    requires k < |s| && k < |t| && (forall i :: 0 <= i <= k ==> s[i].0 == t[i].0) && ReportedBelow(s, k, v)
    ensures ReportedBelow(t, k, v)
  {
    var j :| 0 <= j <= k && j < |s| && s[j].0 == v;
    assert t[j].0 == v;
  }

  lemma BelowIsOnStack(stack: seq<Visit>, k: nat, v: nat)
    requires ReportedBelow(stack, k, v)
    ensures OnStack(stack, v)
  {
  }

  lemma OnStackIsBelow(stack: seq<Visit>, v: nat)
    requires OnStack(stack, v) && stack != []
    ensures ReportedBelow(stack, |stack| - 1, v)
  {
  }

  /** Another slot, and if it leads to the end of the edge another report. */
  lemma LookedAtNext(g: Graph, result: seq<(nat, nat)>, e: (nat, nat), n: nat, x: (nat, nat))
    requires AsLookedAt(g, result, e, n) && n < |g[e.0]|
    ensures g[e.0][n] != e.1 ==> AsLookedAt(g, result, e, n + 1)
    ensures x == e && g[e.0][n] == e.1 ==> AsLookedAt(g, result + [x], e, n + 1)
    ensures x != e && g[e.0][n] != e.1 ==> AsLookedAt(g, result + [x], e, n + 1)
    ensures x != e ==> AsLookedAt(g, result + [x], e, n)
  {
    assert g[e.0][..n + 1] == g[e.0][..n] + [g[e.0][n]];
  }

  lemma OthersAsOften(g: Graph, result: seq<(nat, nat)>, e: (nat, nat), x: (nat, nat))
    requires AsOften(g, result, e) && x != e
    ensures AsOften(g, result + [x], e)
  {
  }

  /** The first report, if no slot looked at before led there. */
  lemma FirstReport(g: Graph, result: seq<(nat, nat)>, u: nat, v: nat, n: nat)
    requires u < |g| && n < |g[u]| && g[u][n] == v && (u, v) !in result && forall q :: 0 <= q < n ==> g[u][q] != v
    ensures AsLookedAt(g, result + [(u, v)], (u, v), n + 1)
  {
    assert g[u][..n + 1] == g[u][..n] + [v];
    assert v !in g[u][..n];
    assert multiset(g[u][..n])[v] == 0;
    assert multiset(result)[(u, v)] == 0;
  }

  lemma CountedPast(g: Graph, stack: seq<Visit>, finished: seq<nat>, result: seq<(nat, nat)>, v: nat)
    requires StackIsPath(g, stack) && TopHasSlot(g, stack) && Counted(g, stack, finished, result)
    requires v == g[stack[|stack| - 1].0][stack[|stack| - 1].1] && stack[|stack| - 1].0 !in finished
    requires OnStack(stack, v) ==> ReportedFrom(g, stack[|stack| - 1].0, stack[|stack| - 1].1, v, result)
    ensures StackIsPath(g, Past(stack))
    ensures Counted(g, Past(stack), finished, if OnStack(stack, v) then result + [(stack[|stack| - 1].0, v)] else result)
  {
    hide AsOften, AsLookedAt, ReportedBelow, Edge, OnStack;
    var n := |stack| - 1;
    var u, j, s := stack[n].0, stack[n].1, Past(stack);
    var result' := if OnStack(stack, v) then result + [(u, v)] else result;
    PastIsPath(g, stack);
    forall e, k | e in result' && 0 <= k < |s| && s[k].0 == e.0
      ensures ReportedBelow(s, k, e.1) && AsLookedAt(g, result', e, s[k].1)
    {
      CountedPastAt(g, stack, finished, result, v, e, k);
    }
    forall e | e in result' && e.0 in finished ensures AsOften(g, result', e) {
      if OnStack(stack, v) {
        OthersAsOften(g, result, e, (u, v));
      }
    }
    forall e | e in result' ensures e.0 in finished || OnStack(s, e.0) {
      if e == (u, v) {
        assert OnStack(stack, u) by { TopIsOnStack(stack); }
      }
    }
  }

  lemma TopIsOnStack(stack: seq<Visit>)
    requires stack != []
    ensures OnStack(stack, stack[|stack| - 1].0)
  {
  }

  lemma CountedPastAt(g: Graph, stack: seq<Visit>, finished: seq<nat>, result: seq<(nat, nat)>, v: nat, e: (nat, nat), k: nat)
    requires StackIsPath(g, stack) && TopHasSlot(g, stack) && Counted(g, stack, finished, result)
    requires v == g[stack[|stack| - 1].0][stack[|stack| - 1].1] && k < |stack| && stack[k].0 == e.0
    requires OnStack(stack, v) ==> ReportedFrom(g, stack[|stack| - 1].0, stack[|stack| - 1].1, v, result)
    requires e in if OnStack(stack, v) then result + [(stack[|stack| - 1].0, v)] else result
    ensures ReportedBelow(Past(stack), k, e.1)
    ensures AsLookedAt(g, if OnStack(stack, v) then result + [(stack[|stack| - 1].0, v)] else result, e, Past(stack)[k].1)
  {
    hide AsOften, AsLookedAt, ReportedBelow, Edge, OnStack;
    var n := |stack| - 1;
    var u, j, x := stack[n].0, stack[n].1, (stack[n].0, v);
    if e in result {
      SameBelow(stack, Past(stack), k, e.1);
      assert AsLookedAt(g, result, e, stack[k].1);
      if e == x {
        assert k == n;
        BelowIsOnStack(stack, k, v);
      }
      if k == n {
        LookedAtNext(g, result, e, j, x);
      } else if OnStack(stack, v) {
        SlotsInRange(g, result, e, stack[k].1, x);
      }
    } else {
      assert e == x && k == n;
      OnStackIsBelow(stack, v);
      SameBelow(stack, Past(stack), k, v);
      FirstReport(g, result, u, v, j);
    }
  }

  /** An edge to `v` among the first `n` slots of `u` is reported. */
  ghost predicate ReportedFrom(g: Graph, u: nat, n: nat, v: nat, result: seq<(nat, nat)>) {
    u < |g| && n <= |g[u]| && forall q :: 0 <= q < n && g[u][q] == v ==> (u, v) in result
  }

  lemma SlotsInRange(g: Graph, result: seq<(nat, nat)>, e: (nat, nat), n: nat, x: (nat, nat))
    requires AsLookedAt(g, result, e, n) && x != e
    ensures AsLookedAt(g, result + [x], e, n)
  {
  }

  lemma CountedDown(g: Graph, stack: seq<Visit>, finished: seq<nat>, result: seq<(nat, nat)>, v: nat)
    requires StackIsPath(g, stack) && TopHasSlot(g, stack) && Counted(g, stack, finished, result)
    requires v == g[stack[|stack| - 1].0][stack[|stack| - 1].1] && !OnStack(stack, v)
    requires forall e :: e in result ==> e.1 != v && e.0 != v
    requires StackIsPath(g, Past(stack) + [(v, 0)])
    ensures Counted(g, Past(stack) + [(v, 0)], finished, result)
  {
    hide AsOften, AsLookedAt, ReportedBelow, Edge, OnStack;
    var n := |stack| - 1;
    var j, s := stack[n].1, Past(stack) + [(v, 0)];
    NewOnTop(stack, v);
    forall e, k | e in result && 0 <= k < |s| && s[k].0 == e.0
      ensures ReportedBelow(s, k, e.1) && AsLookedAt(g, result, e, s[k].1)
    {
      assert k <= n;
      assert stack[k].0 == e.0;
      SameBelow(stack, s, k, e.1);
      if k == n {
        LookedAtNext(g, result, e, j, e);
      }
    }
  }

  lemma CountedUp(g: Graph, stack: seq<Visit>, finished: seq<nat>, result: seq<(nat, nat)>)
    requires StackIsPath(g, stack) && stack != [] && !TopHasSlot(g, stack) && Counted(g, stack, finished, result)
    ensures StackIsPath(g, stack[..|stack| - 1])
    ensures Counted(g, stack[..|stack| - 1], finished + [stack[|stack| - 1].0], result)
  {
    hide AsOften, AsLookedAt, ReportedBelow, Edge, OnStack, Entered;
    var n := |stack| - 1;
    var s, finished' := stack[..n], finished + [stack[n].0];
    OffTop(stack);
    forall e, k | e in result && 0 <= k < |s| && s[k].0 == e.0
      ensures ReportedBelow(s, k, e.1) && AsLookedAt(g, result, e, s[k].1)
    {
      assert stack[k].0 == e.0;
      SameBelow(stack, s, k, e.1);
    }
    forall e | e in result && e.0 in finished' ensures AsOften(g, result, e) {
      if e.0 !in finished {
        assert stack[n].0 == e.0;
        AllLookedAt(g, result, e, stack[n].1);
      }
    }
  }

  lemma AllLookedAt(g: Graph, result: seq<(nat, nat)>, e: (nat, nat), n: nat)
    requires AsLookedAt(g, result, e, n) && n == |g[e.0]|
    ensures AsOften(g, result, e)
  {
    assert g[e.0][..n] == g[e.0];
  }

  /** What the search keeps, all together. */
  ghost predicate Walking(g: Graph, visited: set<nat>, stack: seq<Visit>, finished: seq<nat>, result: seq<(nat, nat)>,
                          tree: set<(nat, nat)>)
  {
    && Searching(g, visited, stack, finished, result) && Treed(g, visited, stack, finished, result, tree)
    && Counted(g, stack, finished, result) && (forall v :: v in visited ==> v < |g|)
    && Finish(g, visited, stack, result) == BackedgesOf(g)
  }

  lemma StartWalking(g: Graph)
    ensures Walking(g, {0}, [(0, 0)], [], [], {})
  {
    StartSearching(g);
    StartTreed(g);
    BlocksOnStack([(0, 0)]);
    assert Blocks([(0, 0)]) == {0} by { TopOnly(); }
    var r := Search(g, {0}, {0}, 0, 0);
    assert [(0, 0)][..0] == [] && [] + r.edges == r.edges;
  }

  lemma TopOnly()
    ensures forall u :: OnStack([(0, 0)], u) <==> u == 0
  {
    assert [(0, 0)][0].0 == 0;
  }

  /** The top has looked at no other slot to a block on the stack without reporting it. */
  lemma ReportedBefore(g: Graph, visited: set<nat>, stack: seq<Visit>, finished: seq<nat>, result: seq<(nat, nat)>, v: nat)
    requires Searching(g, visited, stack, finished, result) && stack != []
    ensures OnStack(stack, v) ==> v !in finished && v in visited
    ensures OnStack(stack, v) ==> ReportedFrom(g, stack[|stack| - 1].0, stack[|stack| - 1].1, v, result)
  {
    hide FinishedInOrder, Sound, Reaches, Edge, Entered;
    var n := |stack| - 1;
    assert SettledVisit(g, stack[n].0, SlotsBelow(stack[n], true), finished, result);
    if OnStack(stack, v) {
      var k := PlaceOnStack(stack, v);
      forall q | 0 <= q < stack[n].1 && g[stack[n].0][q] == v ensures (stack[n].0, v) in result {
        assert Settled((stack[n].0, g[stack[n].0][q]), result, finished);
      }
    }
  }

  lemma WalkPast(g: Graph, visited: set<nat>, stack: seq<Visit>, finished: seq<nat>, result: seq<(nat, nat)>,
                 tree: set<(nat, nat)>, v: nat)
    requires Walking(g, visited, stack, finished, result, tree) && StackIsPath(g, stack) && TopHasSlot(g, stack)
    requires v == g[stack[|stack| - 1].0][stack[|stack| - 1].1] && v in visited
    ensures Walking(g, visited, Past(stack), finished,
                    if OnStack(stack, v) then result + [(stack[|stack| - 1].0, v)] else result, tree)
  {
    hide Searching, Treed, Counted, Finish, BackedgesOf, OnStack;
    SearchingFacts(g, visited, stack, finished, result);
    ReportedBefore(g, visited, stack, finished, result, v);
    LookAtVisited(g, visited, stack, finished, result, v);
    TreedPast(g, visited, stack, finished, result, tree, v);
    CountedPast(g, stack, finished, result, v);
    FinishPast(g, visited, stack, result, v);
  }

  /** Edges reported start and end at blocks that were visited. */
  lemma ReportedVisited(g: Graph, visited: set<nat>, stack: seq<Visit>, finished: seq<nat>, result: seq<(nat, nat)>)
    requires Searching(g, visited, stack, finished, result) && Counted(g, stack, finished, result)
    ensures forall e :: e in result ==> e.0 in visited && e.1 in visited
    ensures forall u :: OnStack(stack, u) ==> u in visited
  {
    hide FinishedInOrder, Sound, Reaches, Edge, StackSettled, AsLookedAt, ReportedBelow, AsOften, OnStack, StackIsPath;
  }

  lemma WalkDown(g: Graph, visited: set<nat>, stack: seq<Visit>, finished: seq<nat>, result: seq<(nat, nat)>,
                 tree: set<(nat, nat)>, v: nat)
    requires Walking(g, visited, stack, finished, result, tree) && StackIsPath(g, stack) && TopHasSlot(g, stack)
    requires v == g[stack[|stack| - 1].0][stack[|stack| - 1].1] && v !in visited
    ensures Walking(g, visited + {v}, Past(stack) + [(v, 0)], finished, result, tree + {(stack[|stack| - 1].0, v)})
  {
    hide Searching, Treed, Counted, Finish, BackedgesOf, OnStack;
    SearchingFacts(g, visited, stack, finished, result);
    ReportedVisited(g, visited, stack, finished, result);
    GoDown(g, visited, stack, finished, result, v);
    SearchingFacts(g, visited + {v}, Past(stack) + [(v, 0)], finished, result);
    TreedDown(g, visited, stack, finished, result, tree, v);
    CountedDown(g, stack, finished, result, v);
    assert v in visited + {v};
    FinishDown(g, visited, stack, result, v);
  }

  lemma WalkUp(g: Graph, visited: set<nat>, stack: seq<Visit>, finished: seq<nat>, result: seq<(nat, nat)>, tree: set<(nat, nat)>)
    requires Walking(g, visited, stack, finished, result, tree) && stack != []
    requires StackIsPath(g, stack) && !TopHasSlot(g, stack)
    ensures Walking(g, visited, stack[..|stack| - 1], finished + [stack[|stack| - 1].0], result, tree)
  {
    hide Searching, Treed, Counted, Finish, BackedgesOf, OnStack, TopHasSlot, StackIsPath;
    SearchingFacts(g, visited, stack, finished, result);
    GoUp(g, visited, stack, finished, result);
    TreedUp(g, visited, stack, finished, result, tree);
    CountedUp(g, stack, finished, result);
    FinishUp(g, visited, stack, result);
  }

  /** Putting back any one of the reported edges closes a cycle again: from its end a path leads to
      where it starts that crosses no reported edge. */
  ghost predicate Needed(g: Graph, result: seq<(nat, nat)>, e: (nat, nat)) {
    exists p :: PathBetween(g, p, e.1, e.0) && !CrossesReported(p, result)
  }

  /** The reported edges are no more than are needed, and none is reported more often or less often
      than it is there. */
  lemma WalkEnds(g: Graph, visited: set<nat>, finished: seq<nat>, result: seq<(nat, nat)>, tree: set<(nat, nat)>)
    requires Walking(g, visited, [], finished, result, tree)
    ensures result == BackedgesOf(g)
    ensures forall e :: e in result ==> Needed(g, result, e) && AsOften(g, result, e)
  {
    hide Searching, BackedgesOf, PathBetween;
    assert forall u :: !OnStack([], u);
    forall e | e in result ensures Needed(g, result, e) {
      var k :| 0 <= k < |result| && result[k] == e;
      assert TreePath(g, tree, result[k].1, result[k].0);
      var p :| PathBetween(g, p, e.1, e.0) && AlongTree(tree, p);
      forall i | 0 < i < |p| ensures !Reported(result, p[i - 1], p[i]) {
        assert InTree(tree, p[i - 1], p[i]);
      }
    }
  }

  /** An entry without successors. */
  lemma NothingToVisit(g: Graph)
    requires g[0] == []
    ensures forall u :: Reaches(g, 0, u) ==> u == 0
    ensures forall p :: !CycleFromEntry(g, p)
  {
    hide Reaches;
    forall u | Reaches(g, 0, u) ensures u == 0 {
      ClosedUnderReach(g, {0}, 0, u);
    }
    forall p | ClosedWalk(g, p) ensures !CycleFromEntry(g, p) {
      assert Edge(g, p[1 - 1], p[1]);
    }
  }

  ghost predicate AllSlots(g: Graph, slots: seq<(nat, nat)>) {
    && (forall slot :: slot in slots <==> Reaches(g, 0, slot.0) && slot.0 < |g| && slot.1 < |g[slot.0]|)
    && forall j, k :: 0 <= j < k < |slots| ==> slots[j] != slots[k]
  }

  /** The edges that a depth-first search finds to close cycles: enough of them to cut every cycle that
      can be reached from the entry, and none that is not needed for that.  Looks once at every
      successor of every block that can be reached. */
  method FindFunctionBackedges(g: Graph) returns (result: seq<(nat, nat)>, ghost slots: seq<(nat, nat)>)
    ensures result == BackedgesOf(g)
    ensures Sound(g, result)
    ensures forall p :: CycleFromEntry(g, p) ==> CrossesReported(p, result)
    ensures forall e :: e in result ==> Needed(g, result, e) && AsOften(g, result, e)
    ensures AllSlots(g, slots)
  {
    hide Walking, Slots, CycleFromEntry, CrossesReported, Sound, Needed, BackedgesOf, AsOften, Searching, StackIsPath;
    hide AllSlots, OnStack;
    var bb := 0;
    result, slots := [], [];
    if |g[bb]| == 0 {
      NothingToVisit(g);
      NothingReported(g);
      return;
    }
    var visited: set<nat>, visitStack: seq<Visit>, inStack: set<nat> := {bb}, [(bb, 0)], {bb};
    ghost var finished: seq<nat>, tree: set<(nat, nat)> := [], {};
    StartSearching(g);
    StartWalking(g);
    while visitStack != []
      invariant Walking(g, visited, visitStack, finished, result, tree) && Slots(g, visitStack, finished, slots)
      invariant forall u :: u in inStack <==> OnStack(visitStack, u)
      decreases |g| - |visited|, |visitStack|
    {
      ghost var before := visited;
      var foundNew := false;
      var top := |visitStack| - 1;
      WalkingFacts(g, visited, visitStack, finished, result, tree);
      while !foundNew && visitStack[top].1 < |g[visitStack[top].0]|
        invariant visitStack != [] && top == |visitStack| - 1 && visitStack[top].0 < |g|
        invariant visitStack[top].1 <= |g[visitStack[top].0]|
        invariant !foundNew ==> Walking(g, visited, visitStack, finished, result, tree) && Slots(g, visitStack, finished, slots)
        invariant !foundNew ==> visited == before
        invariant foundNew ==> before < visited && visited == before + {bb} && bb < |g|
        invariant foundNew ==> Walking(g, visited, visitStack + [(bb, 0)], finished, result, tree)
        invariant foundNew ==> Slots(g, visitStack + [(bb, 0)], finished, slots)
        invariant forall u :: u in inStack <==> OnStack(visitStack, u)
        decreases |g[visitStack[top].0]| - visitStack[top].1, !foundNew
      {
        var parent, slot := visitStack[top].0, visitStack[top].1;
        bb := g[parent][slot];
        ghost var was := visitStack;
        WalkingFacts(g, visited, visitStack, finished, result, tree);
        PastSlots(g, visitStack, finished, slots);
        PastIsPath(g, visitStack);
        visitStack := visitStack[top := (parent, slot + 1)];
        slots := slots + [(parent, slot)];
        if bb !in visited {
          WalkDown(g, visited, was, finished, result, tree, bb);
          SlotsDown(g, visitStack, finished, slots, bb);
          visited := visited + {bb};
          tree := tree + {(parent, bb)};
          foundNew := true;
        } else {
          WalkPast(g, visited, was, finished, result, tree, bb);
          if bb in inStack {
            result := result + [(parent, bb)];
          }
        }
      }
      if foundNew {
        ghost var s := visitStack;
        inStack := inStack + {bb};
        visitStack := visitStack + [(bb, 0)];
        AddedOnTop(s, bb);
        WalkingFacts(g, visited, visitStack, finished, result, tree);
        FewerUnvisited(g, before, visited);
      } else {
        WalkingFacts(g, visited, visitStack, finished, result, tree);
        WalkUp(g, visited, visitStack, finished, result, tree);
        SlotsUp(g, visitStack, finished, slots);
        OffTop(visitStack);
        NotTwice(g, visitStack);
        inStack := inStack - {visitStack[top].0};
        finished := finished + [visitStack[top].0];
        visitStack := visitStack[..top];
      }
    }
    WalkEnds(g, visited, finished, result, tree);
    WalkingFacts(g, visited, [], finished, result, tree);
    SearchEnds(g, visited, finished, result, slots);
  }

  lemma WalkingFacts(g: Graph, visited: set<nat>, stack: seq<Visit>, finished: seq<nat>, result: seq<(nat, nat)>,
                     tree: set<(nat, nat)>)
    requires Walking(g, visited, stack, finished, result, tree)
    ensures Searching(g, visited, stack, finished, result)
    ensures StackIsPath(g, stack) && forall u :: u in visited ==> u < |g|
    ensures stack != [] ==> stack[|stack| - 1].0 !in finished
    ensures stack != [] ==> stack[|stack| - 1].0 < |g| && stack[|stack| - 1].1 <= |g[stack[|stack| - 1].0]|
  {
    hide Searching, Treed, Counted, Finish, BackedgesOf;
    SearchingFacts(g, visited, stack, finished, result);
  }

  lemma NothingReported(g: Graph)
    requires g[0] == [] && forall u :: Reaches(g, 0, u) ==> u == 0
    ensures Sound(g, []) && AllSlots(g, []) && BackedgesOf(g) == []
  {
  }

  lemma SearchingFacts(g: Graph, visited: set<nat>, stack: seq<Visit>, finished: seq<nat>, result: seq<(nat, nat)>)
    requires Searching(g, visited, stack, finished, result)
    ensures StackIsPath(g, stack) && forall u :: u in visited ==> u < |g|
    ensures stack != [] ==> stack[|stack| - 1].0 !in finished
    ensures stack != [] ==> stack[|stack| - 1].0 < |g| && stack[|stack| - 1].1 <= |g[stack[|stack| - 1].0]|
  {
  }

  lemma AddedOnTop(s: seq<Visit>, v: nat)
    ensures forall u :: OnStack(s + [(v, 0)], u) <==> OnStack(s, u) || u == v
  {
    OffTop(s + [(v, 0)]);
    assert (s + [(v, 0)])[..|s|] == s;
  }

  lemma NotTwice(g: Graph, stack: seq<Visit>)
    requires StackIsPath(g, stack) && stack != []
    ensures !OnStack(stack[..|stack| - 1], stack[|stack| - 1].0)
  {
  }

  lemma FewerUnvisited(g: Graph, before: set<nat>, after: set<nat>)
    requires before < after && forall u :: u in after ==> u < |g|
    ensures |before| < |after| <= |g|
  {
    SmallSet(after, |g|);
    var d := after - before;
    assert after == before + d && d != {};
    assert |after| == |before| + |d|;
  }

  lemma {:induction false} SmallSet(s: set<nat>, n: nat)
    requires forall u :: u in s ==> u < n
    ensures |s| <= n
  {
    if n == 0 {
      assert s == {};
    } else {
      SmallSet(s - {n - 1}, n - 1);
    }
  }

  lemma SearchEnds(g: Graph, visited: set<nat>, finished: seq<nat>, result: seq<(nat, nat)>, slots: seq<(nat, nat)>)
    requires Searching(g, visited, [], finished, result) && Slots(g, [], finished, slots)
    ensures Sound(g, result)
    ensures forall p :: CycleFromEntry(g, p) ==> CrossesReported(p, result)
    ensures AllSlots(g, slots)
  {
    hide Reaches, CycleFromEntry, CrossesReported, FinishedInOrder, ClosesCycle;
    FinishedIsReachable(g, visited, finished, result);
    forall p | CycleFromEntry(g, p) ensures CrossesReported(p, result) {
      CyclesAreCut(g, visited, finished, result, p);
    }
    assert forall slot: (nat, nat) :: LookedAt(g, [], finished, slot) <==> slot.0 in finished && slot.0 < |g| && slot.1 < |g[slot.0]|;
  }
}
