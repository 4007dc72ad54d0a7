/** Whether one block, or one instruction, may be executed after another. */
module Reachability {
  import opened ControlFlow

  datatype Option<T> = None | Some(value: T)

  // ---- What the walk is told about dominance and loops ----

  /** The blocks that can be reached from the entry, and which block dominates which. */
  datatype DominatorTree = DominatorTree(reachable: set<nat>, dominates: set<(nat, nat)>)

  /** Every path from the entry to `b` goes through `a`. */
  ghost predicate Dominates(g: Graph, a: nat, b: nat) {
    forall p :: PathBetween(g, p, 0, b) ==> a in p
  }

  ghost predicate DominatorsOf(dt: DominatorTree, g: Graph) {
    && (forall b :: b in dt.reachable <==> Reaches(g, 0, b))
    && forall a: nat, b: nat :: b in dt.reachable ==> ((a, b) in dt.dominates <==> Dominates(g, a, b))
  }

  /** The innermost loop of a block, the loop around a loop, and the blocks of a loop.  Loops are
      numbered from the outside in. */
  datatype LoopInfo = LoopInfo(loopFor: map<nat, nat>, parent: map<nat, nat>, blocks: map<nat, seq<nat>>)

  predicate Nested(li: LoopInfo) {
    && (forall l :: l in li.parent ==> li.parent[l] < l)
    && (forall l :: l in li.parent ==> li.parent[l] in li.blocks)
    && forall b :: b in li.loopFor ==> li.loopFor[b] in li.blocks
  }

  /** The one loop is the other, or around it. */
  predicate Around(li: LoopInfo, inner: nat, l: nat)
    requires Nested(li)
    decreases inner
  {
    inner == l || (inner in li.parent && Around(li, li.parent[inner], l))
  }

  /** A walk of at least one step. */
  ghost predicate StepReaches(g: Graph, a: nat, b: nat) {
    exists v :: Edge(g, a, v) && Reaches(g, v, b)
  }

  /** The blocks of a loop are those whose innermost loop is that loop or inside it, and every one
      of them can be reached from every other. */
  ghost predicate LoopsOf(li: LoopInfo, g: Graph) {
    && Nested(li)
    && (forall l, b :: l in li.blocks ==> (b in li.blocks[l] <==> InLoop(li, b, l)))
    && forall l, a, b :: l in li.blocks && a in li.blocks[l] && b in li.blocks[l] ==> StepReaches(g, a, b)
  }

  predicate InLoop(li: LoopInfo, b: nat, l: nat)
    requires Nested(li)
  {
    b in li.loopFor && Around(li, li.loopFor[b], l)
  }

  function OutermostAround(li: LoopInfo, l: nat): (r: nat)
    requires Nested(li) && l in li.blocks
    ensures r in li.blocks && r !in li.parent && Around(li, l, r)
    decreases l
  {
    if l in li.parent then OutermostAround(li, li.parent[l]) else l
  }

  function OutermostLoop(li: LoopInfo, b: nat): Option<nat>
    requires Nested(li)
  {
    if b in li.loopFor then Some(OutermostAround(li, li.loopFor[b])) else None
  }

  lemma {:induction false} OnlyOutermost(li: LoopInfo, inner: nat, l: nat)
    requires Nested(li) && inner in li.blocks && Around(li, inner, l) && l !in li.parent
    ensures OutermostAround(li, inner) == l
    decreases inner
  {
    if inner in li.parent {
      OnlyOutermost(li, li.parent[inner], l);
    }
  }

  /** A block is in a loop that no loop is around just if that is its outermost loop. */
  lemma OutermostContains(li: LoopInfo, g: Graph, b: nat, l: nat)
    requires LoopsOf(li, g) && l in li.blocks && l !in li.parent
    ensures b in li.blocks[l] <==> OutermostLoop(li, b) == Some(l)
  {
    hide StepReaches;
    assert b in li.blocks[l] <==> InLoop(li, b, l);
    if InLoop(li, b, l) {
      OnlyOutermost(li, li.loopFor[b], l);
    }
  }

  method GetOutermostLoop(li: LoopInfo, b: nat) returns (r: Option<nat>)
    requires Nested(li)
    ensures r == OutermostLoop(li, b)
  {
    if b !in li.loopFor {
      return None;
    }
    var l := li.loopFor[b];
    while l in li.parent
      invariant l in li.blocks && OutermostAround(li, l) == OutermostAround(li, li.loopFor[b])
      decreases l
    {
      l := li.parent[l];
    }
    r := Some(l);
  }

  method LoopContainsBoth(li: LoopInfo, a: nat, b: nat) returns (r: bool)
    requires Nested(li)
    ensures r <==> OutermostLoop(li, a) != None && OutermostLoop(li, a) == OutermostLoop(li, b)
  {
    var l1 := GetOutermostLoop(li, a);
    var l2 := GetOutermostLoop(li, b);
    r := l1 != None && l1 == l2;
  }

  /** An edge leaves the loop for the block. */
  ghost predicate Exits(g: Graph, blocks: seq<nat>, v: nat) {
    v !in blocks && exists u :: u in blocks && Edge(g, u, v)
  }

  method GetExitBlocks(g: Graph, blocks: seq<nat>) returns (exits: seq<nat>)
    requires forall k :: 0 <= k < |blocks| ==> blocks[k] < |g|
    ensures forall v :: v in exits <==> Exits(g, blocks, v)
  {
    exits := [];
    for k := 0 to |blocks|
      invariant forall v :: v in exits <==> v !in blocks && exists u :: u in blocks[..k] && Edge(g, u, v)
    {
      ghost var before := exits;
      var u := blocks[k];
      assert blocks[..k + 1] == blocks[..k] + [u];
      for j := 0 to |g[u]|
        invariant forall v :: v in exits <==> v in before || (v !in blocks && v in g[u][..j])
      {
        assert g[u][..j + 1] == g[u][..j] + [g[u][j]];
        if g[u][j] !in blocks {
          exits := exits + [g[u][j]];
        }
      }
      assert g[u][..|g[u]|] == g[u];
      forall v ensures v in exits <==> v !in blocks && exists w :: w in blocks[..k + 1] && Edge(g, w, v) {
        assert v in g[u] <==> Edge(g, u, v);
      }
    }
    assert blocks[..|blocks|] == blocks;
  }

  // ---- The walk ----

  /** Where the walk goes on from a block: to the exits of the outermost loop around it, or to its
      successors. */
  ghost predicate GoesOn(g: Graph, li: Option<LoopInfo>, b: nat, v: nat)
    requires li.Some? ==> Nested(li.value)
  {
    if li.Some? && OutermostLoop(li.value, b).Some? then Exits(g, li.value.blocks[OutermostLoop(li.value, b).value], v)
    else Edge(g, b, v)
  }

  /** Both blocks are in one loop. */
  ghost predicate Together(li: Option<LoopInfo>, a: nat, b: nat)
    requires li.Some? ==> Nested(li.value)
  {
    li.Some? && OutermostLoop(li.value, a).Some? && OutermostLoop(li.value, a) == OutermostLoop(li.value, b)
  }

  /** A visited block is not the one looked for, nor in a loop with it, and the walk goes on from it. */
  ghost predicate Passed(g: Graph, li: Option<LoopInfo>, visited: set<nat>, worklist: seq<nat>, stop: nat)
    requires li.Some? ==> Nested(li.value)
  {
    && stop !in visited
    && (forall b :: b in visited ==> !Together(li, b, stop))
    && forall b, v :: b in visited && GoesOn(g, li, b, v) ==> v in visited || v in worklist
  }

  ghost predicate FromSome(g: Graph, starts: seq<nat>, b: nat) {
    exists k :: 0 <= k < |starts| && Reaches(g, starts[k], b)
  }

  ghost predicate Analyses(dt: Option<DominatorTree>, li: Option<LoopInfo>, g: Graph) {
    (dt.Some? ==> DominatorsOf(dt.value, g)) && (li.Some? ==> LoopsOf(li.value, g))
  }

  /** A path ends in any block on it. */
  lemma DominatorReaches(g: Graph, a: nat, b: nat)
    requires Dominates(g, a, b) && Reaches(g, 0, b)
    ensures Reaches(g, a, b)
  {
    var p :| PathBetween(g, p, 0, b);
    var k :| 0 <= k < |p| && p[k] == a;
    var q := p[k..];
    forall j | 0 < j < |q| ensures Edge(g, q[j - 1], q[j]) {
      assert Edge(g, p[k + j - 1], p[k + j]);
    }
    assert PathBetween(g, q, a, b);
  }

  lemma SteppedReaches(g: Graph, a: nat, b: nat)
    requires StepReaches(g, a, b)
    ensures Reaches(g, a, b)
  {
    hide Reaches, Edge;
    var v :| Edge(g, a, v) && Reaches(g, v, b);
    EdgeInGraph(g, a, v);
    ReachesItself(g, a);
    ReachesNext(g, a, a, v);
    ReachesTrans(g, a, v, b);
  }

  lemma TogetherReaches(g: Graph, li: LoopInfo, a: nat, b: nat)
    requires LoopsOf(li, g) && Together(Some(li), a, b)
    ensures Reaches(g, a, b)
  {
    hide StepReaches, Reaches;
    var l := OutermostLoop(li, a).value;
    OutermostContains(li, g, a, l);
    OutermostContains(li, g, b, l);
    assert StepReaches(g, a, b);
    SteppedReaches(g, a, b);
  }

  /** Where the walk goes on can be reached. */
  lemma GoesOnReaches(g: Graph, li: Option<LoopInfo>, b: nat, v: nat)
    requires (li.Some? ==> LoopsOf(li.value, g)) && b < |g| && GoesOn(g, li, b, v)
    ensures Reaches(g, b, v) && v < |g|
  {
    hide StepReaches, Reaches, Edge;
    ReachesItself(g, b);
    if li.Some? && OutermostLoop(li.value, b).Some? {
      var l := OutermostLoop(li.value, b).value;
      var u :| u in li.value.blocks[l] && Edge(g, u, v);
      OutermostContains(li.value, g, b, l);
      assert StepReaches(g, b, u);
      SteppedReaches(g, b, u);
      ReachesNext(g, b, u, v);
      EdgeInGraph(g, u, v);
    } else {
      ReachesNext(g, b, b, v);
      EdgeInGraph(g, b, v);
    }
  }

  /** Blocks of loops of visited blocks. */
  ghost predicate Covered(li: Option<LoopInfo>, visited: set<nat>, u: nat)
    requires li.Some? ==> Nested(li.value)
  {
    u in visited || exists b :: b in visited && Together(li, b, u)
  }

  lemma SameOutermost(li: LoopInfo, a: nat, b: nat)
    requires Nested(li) && Together(Some(li), a, b)
    ensures OutermostLoop(li, a).Some? && OutermostLoop(li, a) == OutermostLoop(li, b)
  {
  }

  /** With nothing left to visit, every edge from a covered block leads to a covered block. */
  lemma CoveredIsClosed(g: Graph, li: Option<LoopInfo>, visited: set<nat>, stop: nat, u: nat, v: nat)
    requires (li.Some? ==> LoopsOf(li.value, g)) && Passed(g, li, visited, [], stop)
    requires Covered(li, visited, u) && Edge(g, u, v)
    ensures Covered(li, visited, v)
  {
    hide StepReaches, Edge;
    if li.Some? && OutermostLoop(li.value, u).Some? {
      var l := OutermostLoop(li.value, u).value;
      assert Together(li, u, u);
      var b: nat :| b in visited && Together(li, b, u);
      OutermostContains(li.value, g, u, l);
      OutermostContains(li.value, g, v, l);
      SameOutermost(li.value, b, u);
      if v in li.value.blocks[l] {
        assert OutermostLoop(li.value, v) == Some(l);
        assert Together(li, b, v);
      } else {
        assert Exits(g, li.value.blocks[l], v);
        assert GoesOn(g, li, b, v);
      }
    } else {
      assert GoesOn(g, li, u, v);
    }
  }

  /** Then no path leads from a visited block to the one looked for. */
  lemma NoPath(g: Graph, li: Option<LoopInfo>, visited: set<nat>, stop: nat, a: nat)
    requires (li.Some? ==> LoopsOf(li.value, g)) && Passed(g, li, visited, [], stop) && a in visited && a < |g|
    ensures !Reaches(g, a, stop)
  {
    hide Reaches, LoopsOf, GoesOn, Together, Edge;
    if li.Some? { LoopsNested(li.value, g); }
    if Reaches(g, a, stop) {
      var s := set u | 0 <= u < |g| && Covered(li, visited, u);
      forall u, v | u in s && Edge(g, u, v) ensures v in s {
        EdgeInGraph(g, u, v);
        CoveredIsClosed(g, li, visited, stop, u, v);
      }
      ClosedUnderReach(g, s, a, stop);
    }
  }

  const LIMIT: nat := 32

  /** There are 32 blocks that can be reached when the rest of a loop is skipped: so many that the walk
      gives up. */
  ghost predicate TooMany(g: Graph, li: Option<LoopInfo>, starts: seq<nat>)
    requires li.Some? ==> Nested(li.value)
  {
    exists s: set<nat> :: |s| == 32 && AllSkippedTo(g, li, starts, s)
  }

  ghost predicate AllSkippedTo(g: Graph, li: Option<LoopInfo>, starts: seq<nat>, s: set<nat>)
    requires li.Some? ==> Nested(li.value)
  {
    forall b :: b in s ==> SkippedTo(g, li, starts, b)
  }

  /** From one of the starts on, the walk goes on until it comes to the block. */
  ghost predicate SkippedTo(g: Graph, li: Option<LoopInfo>, starts: seq<nat>, b: nat)
    requires li.Some? ==> Nested(li.value)
  {
    exists p: seq<nat> :: p != [] && p[0] in starts && p[|p| - 1] == b && SkippedAlong(g, li, p)
  }

  ghost predicate SkippedAlong(g: Graph, li: Option<LoopInfo>, p: seq<nat>)
    requires li.Some? ==> Nested(li.value)
  {
    forall k :: 0 < k < |p| ==> GoesOn(g, li, p[k - 1], p[k])
  }

  lemma SkippedToStart(g: Graph, li: Option<LoopInfo>, starts: seq<nat>, b: nat)
    requires (li.Some? ==> Nested(li.value)) && b in starts
    ensures SkippedTo(g, li, starts, b)
  {
    assert [b][0] == b && SkippedAlong(g, li, [b]);
  }

  lemma SkippedToNext(g: Graph, li: Option<LoopInfo>, starts: seq<nat>, b: nat, v: nat)
    requires (li.Some? ==> Nested(li.value)) && SkippedTo(g, li, starts, b) && GoesOn(g, li, b, v)
    ensures SkippedTo(g, li, starts, v)
  {
    hide GoesOn;
    var p: seq<nat> :| p != [] && p[0] in starts && p[|p| - 1] == b && SkippedAlong(g, li, p);
    var q := p + [v];
    forall k | 0 < k < |q| ensures GoesOn(g, li, q[k - 1], q[k]) {
      if k < |p| { assert GoesOn(g, li, p[k - 1], p[k]); }
    }
    assert q != [] && q[0] == p[0] && q[|q| - 1] == v && SkippedAlong(g, li, q);
  }

  lemma FromSomeOn(g: Graph, starts: seq<nat>, b: nat, v: nat)
    requires FromSome(g, starts, b) && Reaches(g, b, v)
    ensures FromSome(g, starts, v)
  {
    hide Reaches;
    var k :| 0 <= k < |starts| && Reaches(g, starts[k], b);
    ReachesTrans(g, starts[k], b, v);
  }

  /** The walk has found the block, or a block from which it can be reached. */
  method Finds(g: Graph, bb: nat, stop: nat, dt: Option<DominatorTree>, li: Option<LoopInfo>) returns (found: bool)
    requires bb < |g| && Analyses(dt, li, g) && (dt.Some? ==> stop in dt.value.reachable)
    ensures found ==> Reaches(g, bb, stop)
    ensures !found ==> bb != stop && !Together(li, bb, stop)
  {
    hide Reaches, LoopsOf, Dominates;
    if bb == stop {
      ReachesItself(g, bb);
      return true;
    }
    if dt.Some? && (bb, stop) in dt.value.dominates {
      DominatorReaches(g, bb, stop);
      return true;
    }
    if li.Some? {
      LoopsNested(li.value, g);
      found := LoopContainsBoth(li.value, bb, stop);
      if found {
        TogetherReaches(g, li.value, bb, stop);
      }
      return;
    }
    return false;
  }

  lemma LoopsNested(li: LoopInfo, g: Graph)
    requires LoopsOf(li, g)
    ensures Nested(li)
  {
  }

  lemma LoopBlocksInGraph(li: LoopInfo, g: Graph, l: nat)
    requires LoopsOf(li, g) && l in li.blocks
    ensures forall k :: 0 <= k < |li.blocks[l]| ==> li.blocks[l][k] < |g|
  {
    hide Reaches;
    forall k | 0 <= k < |li.blocks[l]| ensures li.blocks[l][k] < |g| {
      var u := li.blocks[l][k];
      assert StepReaches(g, u, u);
      var v :| Edge(g, u, v) && Reaches(g, v, u);
    }
  }

  method Next(g: Graph, li: Option<LoopInfo>, bb: nat) returns (next: seq<nat>)
    requires bb < |g| && (li.Some? ==> LoopsOf(li.value, g))
    ensures li.Some? ==> Nested(li.value)
    ensures forall v :: v in next <==> GoesOn(g, li, bb, v)
  {
    hide LoopsOf, Reaches;
    if li.Some? {
      LoopsNested(li.value, g);
      var outer := GetOutermostLoop(li.value, bb);
      if outer.Some? {
        LoopBlocksInGraph(li.value, g, outer.value);
        next := GetExitBlocks(g, li.value.blocks[outer.value]);
        return;
      }
    }
    next := g[bb];
  }

  /** True just if a path leads from any of the starts to the block, or at least 32 blocks can be
      reached from the starts when the rest of a loop is skipped. */
  method IsPotentiallyReachableFromMany(g: Graph, starts: seq<nat>, stop: nat, dt0: Option<DominatorTree>, li: Option<LoopInfo>)
    returns (r: bool)
    requires starts != [] && (forall k :: 0 <= k < |starts| ==> starts[k] < |g|) && stop < |g| && Analyses(dt0, li, g)
    ensures (li.Some? ==> Nested(li.value)) && (r <==> FromSome(g, starts, stop) || TooMany(g, li, starts))
  {
    hide Reaches, LoopsOf, DominatorsOf, GoesOn, Together, FromSome, Nested, SkippedTo;
    var dt := dt0;
    if dt.Some? && stop !in dt.value.reachable {
      dt := None;
    }
    var limit := LIMIT;
    var visited: set<nat>, worklist: seq<nat> := {}, starts;
    if li.Some? {
      LoopsNested(li.value, g);
    }
    StartsFromSome(g, starts);
    forall k | 0 <= k < |starts| ensures SkippedTo(g, li, starts, starts[k]) {
      SkippedToStart(g, li, starts, starts[k]);
    }
    while worklist != []
      invariant li.Some? ==> Nested(li.value)
      invariant (dt.Some? ==> stop in dt.value.reachable) && Analyses(dt, li, g)
      invariant 0 < limit && limit + |visited| == LIMIT
      invariant Passed(g, li, visited, worklist, stop) && AllSkippedTo(g, li, starts, visited)
      invariant forall k :: 0 <= k < |worklist| ==> worklist[k] < |g| && FromSome(g, starts, worklist[k])
      invariant forall k :: 0 <= k < |worklist| ==> SkippedTo(g, li, starts, worklist[k])
      invariant forall k :: 0 <= k < |starts| ==> starts[k] in visited || starts[k] in worklist
      decreases limit, |worklist|
    {
      var bb := worklist[|worklist| - 1];
      assert worklist == worklist[..|worklist| - 1] + [bb];
      worklist := worklist[..|worklist| - 1];
      if bb in visited {
        continue;
      }
      visited := visited + {bb};
      var found := Finds(g, bb, stop, dt, li);
      if found {
        FromSomeOn(g, starts, bb, stop);
        return true;
      }
      limit := limit - 1;
      if limit == 0 {
        return true;
      }
      var next := Next(g, li, bb);
      forall k | 0 <= k < |next| ensures next[k] < |g| && FromSome(g, starts, next[k]) && SkippedTo(g, li, starts, next[k]) {
        SkippedToNext(g, li, starts, bb, next[k]);
        GoesOnReaches(g, li, bb, next[k]);
        FromSomeOn(g, starts, bb, next[k]);
      }
      worklist := worklist + next;
    }
    NoneReaches(g, li, visited, stop, starts);
    FewSkippedTo(g, li, starts, visited, stop);
    return false;
  }

  /** With nothing left to visit, everything the walk can come to has been visited. */
  lemma {:induction false} SkippedIsVisited(g: Graph, li: Option<LoopInfo>, visited: set<nat>, stop: nat, p: seq<nat>)
    requires (li.Some? ==> Nested(li.value)) && Passed(g, li, visited, [], stop)
    requires p != [] && p[0] in visited && SkippedAlong(g, li, p)
    ensures p[|p| - 1] in visited
    decreases |p|
  {
    hide GoesOn;
    var n := |p| - 1;
    if n > 0 {
      assert GoesOn(g, li, p[n - 1], p[n]);
      forall k | 0 < k < |p[..n]| ensures GoesOn(g, li, p[..n][k - 1], p[..n][k]) {
        assert GoesOn(g, li, p[k - 1], p[k]);
      }
      SkippedIsVisited(g, li, visited, stop, p[..n]);
    }
  }

  lemma FewSkippedTo(g: Graph, li: Option<LoopInfo>, starts: seq<nat>, visited: set<nat>, stop: nat)
    requires (li.Some? ==> Nested(li.value)) && Passed(g, li, visited, [], stop) && |visited| < 32
    requires forall k :: 0 <= k < |starts| ==> starts[k] in visited
    ensures !TooMany(g, li, starts)
  {
    hide Passed, SkippedAlong;
    forall s: set<nat> | AllSkippedTo(g, li, starts, s) ensures |s| < 32 {
      forall b | b in s ensures b in visited {
        var p: seq<nat> :| p != [] && p[0] in starts && p[|p| - 1] == b && SkippedAlong(g, li, p);
        SkippedIsVisited(g, li, visited, stop, p);
      }
      assert |visited - s| == |visited| - |s|;
    }
  }

  lemma StartsFromSome(g: Graph, starts: seq<nat>)
    requires forall k :: 0 <= k < |starts| ==> starts[k] < |g|
    ensures forall k :: 0 <= k < |starts| ==> FromSome(g, starts, starts[k])
  {
    hide Reaches;
    forall k | 0 <= k < |starts| ensures FromSome(g, starts, starts[k]) {
      ReachesItself(g, starts[k]);
    }
  }

  lemma NoneReaches(g: Graph, li: Option<LoopInfo>, visited: set<nat>, stop: nat, starts: seq<nat>)
    requires (li.Some? ==> LoopsOf(li.value, g)) && Passed(g, li, visited, [], stop)
    requires forall k :: 0 <= k < |starts| ==> starts[k] < |g| && starts[k] in visited
    ensures !FromSome(g, starts, stop)
  {
    hide Reaches, LoopsOf, Passed;
    forall k | 0 <= k < |starts| ensures !Reaches(g, starts[k], stop) {
      NoPath(g, li, visited, stop, starts[k]);
    }
  }

  // ---- Blocks and instructions ----

  method IsBlockPotentiallyReachable(g: Graph, a: nat, b: nat, dt: Option<DominatorTree>, li: Option<LoopInfo>) returns (r: bool)
    requires a < |g| && b < |g| && Analyses(dt, li, g)
    ensures (li.Some? ==> Nested(li.value)) && (r <==> Reaches(g, a, b) || TooMany(g, li, [a]))
  {
    hide Reaches, Analyses, TooMany, Nested;
    r := IsPotentiallyReachableFromMany(g, [a], b, dt, li);
    assert [a][0] == a;
  }

  /** An instruction: its block and its place in the block. */
  datatype Instruction = Instruction(block: nat, at: nat)

  /** The second instruction may be executed after the first, or is the first. */
  ghost predicate MayFollow(g: Graph, a: Instruction, b: Instruction) {
    (a.block == b.block && a.at <= b.at) || StepReaches(g, a.block, b.block)
  }

  lemma StepsFromSome(g: Graph, a: nat, b: nat)
    requires a < |g|
    ensures StepReaches(g, a, b) <==> FromSome(g, g[a], b)
  {
    hide Reaches;
    if StepReaches(g, a, b) {
      var v :| Edge(g, a, v) && Reaches(g, v, b);
      var k :| 0 <= k < |g[a]| && g[a][k] == v;
    }
    if FromSome(g, g[a], b) {
      var k :| 0 <= k < |g[a]| && Reaches(g, g[a][k], b);
      assert Edge(g, a, g[a][k]);
    }
  }

  lemma ReachesByStep(g: Graph, a: nat, b: nat)
    requires a != b
    ensures Reaches(g, a, b) <==> StepReaches(g, a, b)
  {
    if Reaches(g, a, b) {
      var p :| PathBetween(g, p, a, b);
      forall k | 0 < k < |p[1..]| ensures Edge(g, p[1..][k - 1], p[1..][k]) {
        assert Edge(g, p[k], p[k + 1]);
      }
      assert Edge(g, p[1 - 1], p[1]) && PathBetween(g, p[1..], p[1], b);
    }
    if StepReaches(g, a, b) {
      SteppedReaches(g, a, b);
    }
  }

  lemma NothingReachesEntry(g: Graph, a: nat)
    requires forall u :: !Edge(g, u, 0)
    ensures !StepReaches(g, a, 0)
  {
    hide Edge;
    if StepReaches(g, a, 0) {
      var v :| Edge(g, a, v) && Reaches(g, v, 0);
      LastStep(g, v, 0);
    }
  }

  method ComesLater(g: Graph, a: Instruction, b: Instruction, size: nat) returns (r: bool)
    requires a.block == b.block && a.at < size && b.at < size
    ensures r <==> a.at <= b.at
  {
    for i := a.at to size
      invariant b.at < a.at || i <= b.at
    {
      if i == b.at {
        return true;
      }
    }
    return false;
  }

  /** False only if the second instruction cannot be executed after the first.  Outside the entry it is
      true just if it can, or if too many blocks can be reached.  From the entry to another block the
      answer is always true, and right exactly if the block can be reached; within the entry it is
      always right.  The entry block has no predecessors. */
  method IsPotentiallyReachable(g: Graph, sizes: seq<nat>, a: Instruction, b: Instruction,
                                dt: Option<DominatorTree>, li: Option<LoopInfo>)
    returns (r: bool)
    requires |sizes| == |g| && a.block < |g| && b.block < |g| && a.at < sizes[a.block] && b.at < sizes[b.block]
    requires Analyses(dt, li, g) && forall u :: !Edge(g, u, 0)
    ensures MayFollow(g, a, b) ==> r
    ensures (li.Some? ==> Nested(li.value))
            && (a.block != 0 && b.block != 0 ==>
                  (r <==> MayFollow(g, a, b) || TooMany(g, li, if a.block == b.block then g[a.block] else [a.block])))
    ensures a.block != 0 && b.block == 0 ==> !r
    ensures a.block == 0 && b.block != 0 ==> r && ((r <==> MayFollow(g, a, b)) <==> Reaches(g, 0, b.block))
    ensures a.block == 0 && b.block == 0 ==> (r <==> MayFollow(g, a, b))
  {
    hide Reaches, StepReaches, LoopsOf, DominatorsOf, TooMany, FromSome, Nested;
    if li.Some? {
      LoopsNested(li.value, g);
    }
    var worklist: seq<nat>;
    NothingReachesEntry(g, a.block);
    StepsFromSome(g, a.block, b.block);
    if a.block == b.block {
      if li.Some? && a.block in li.value.loopFor {
        InALoop(g, li.value, a.block);
        return true;
      }
      var later := ComesLater(g, a, b, sizes[a.block]);
      if later {
        return true;
      }
      if a.block == 0 {
        return false;
      }
      worklist := g[a.block];
      if worklist == [] {
        NoneFollows(g, b.block);
        FromNothing(g, li);
        return false;
      }
    } else {
      worklist := [a.block];
      ReachesByStep(g, a.block, b.block);
      OneStart(g, a.block, b.block);
    }
    if a.block == 0 {
      return true;
    }
    if b.block == 0 {
      return false;
    }
    r := IsPotentiallyReachableFromMany(g, worklist, b.block, dt, li);
  }

  /** Two blocks and no edge: nothing reaches the second block, and yet the answer is true. */
  method EntryCounterexample() returns (g: Graph, r: bool)
    ensures g == [[], []] && r && !MayFollow(g, Instruction(0, 0), Instruction(1, 0))
  {
    g := [[], []];
    NoEdgesReachNothing(g);
    r := IsPotentiallyReachable(g, [1, 1], Instruction(0, 0), Instruction(1, 0), None, None);
  }

  lemma NoEdgesReachNothing(g: Graph)
    requires g == [[], []]
    ensures (forall u :: !Edge(g, u, 0)) && !StepReaches(g, 0, 1) && !Reaches(g, 0, 1)
  {
    hide Reaches;
    assert forall u, v :: !Edge(g, u, v);
    ReachesByStep(g, 0, 1);
  }

  lemma OneStart(g: Graph, a: nat, b: nat)
    ensures FromSome(g, [a], b) <==> Reaches(g, a, b)
  {
    hide Reaches;
    assert [a][0] == a;
  }

  lemma NoneFollows(g: Graph, b: nat)
    ensures !FromSome(g, [], b)
  {
  }

  lemma FromNothing(g: Graph, li: Option<LoopInfo>)
    requires li.Some? ==> Nested(li.value)
    ensures !TooMany(g, li, [])
  {
    hide SkippedAlong;
    forall s: set<nat> | AllSkippedTo(g, li, [], s) ensures |s| == 0 {
      assert forall b :: b in s ==> SkippedTo(g, li, [], b);
      assert forall b :: b !in s;
      assert s == {};
    }
  }

  lemma InALoop(g: Graph, li: LoopInfo, a: nat)
    requires LoopsOf(li, g) && a in li.loopFor
    ensures StepReaches(g, a, a)
  {
    hide StepReaches;
    var l := li.loopFor[a];
    assert InLoop(li, a, l);
    assert a in li.blocks[l];
  }
}
