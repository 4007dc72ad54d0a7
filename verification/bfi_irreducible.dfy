/** Choosing the headers of an irreducible loop. */
module IrreducibleLoops {
  import opened BranchProbabilities
  import opened WeightCombining
  import opened Distributions
  import opened MassDistribution

  /** The predecessors of every node. */
  type IrreducibleGraph = map<nat, seq<nat>>

  predicate Distinct(s: seq<nat>) {
    forall j, k :: 0 <= j < k < |s| ==> s[j] != s[k]
  }

  predicate Increasing(s: seq<nat>) {
    forall j, k :: 0 <= j < k < |s| ==> s[j] < s[k]
  }

  /** A strongly connected part of the graph. */
  predicate Component(g: IrreducibleGraph, scc: seq<nat>) {
    Distinct(scc) && forall k :: 0 <= k < |scc| ==> scc[k] in g
  }

  /** The component can be entered at the node. */
  ghost predicate Entry(g: IrreducibleGraph, scc: seq<nat>, n: nat)
    requires n in g
  {
    exists k :: 0 <= k < |g[n]| && g[n][k] !in scc
  }

  /** A node that is not an entry, and that an edge reaches from a node that is neither an entry
      nor earlier in reverse post-order. */
  ghost predicate Extra(g: IrreducibleGraph, scc: seq<nat>, n: nat)
    requires n in g && Component(g, scc)
  {
    exists k :: 0 <= k < |g[n]| && ExtraBy(g, scc, n, g[n][k])
  }

  ghost predicate ExtraBy(g: IrreducibleGraph, scc: seq<nat>, n: nat, p: nat)
    requires Component(g, scc)
  {
    p in scc && p >= n && !Entry(g, scc, p)
  }

  ghost predicate Header(g: IrreducibleGraph, scc: seq<nat>, n: nat)
    requires n in g && Component(g, scc)
  {
    Entry(g, scc, n) || Extra(g, scc, n)
  }

  /** An edge from outside leads to the node, or an edge from a member that is not earlier and that no
      edge from outside leads to. */
  ghost predicate NeedsHeader(g: IrreducibleGraph, scc: seq<nat>, n: nat) {
    && n in g
    && ((exists p :: p in g[n] && p !in scc)
        || exists p :: p in g[n] && p in scc && p >= n && p in g && forall q :: q in g[p] ==> q in scc)
  }

  /** All edges to the node come from members that are earlier or that an edge from outside leads to. */
  ghost predicate NeedsNone(g: IrreducibleGraph, scc: seq<nat>, n: nat) {
    n in g && forall p :: p in g[n] ==> p in scc && p in g && (p < n || exists q :: q in g[p] && q !in scc)
  }

  lemma HeaderMeans(g: IrreducibleGraph, scc: seq<nat>, n: nat)
    requires Component(g, scc) && n in scc
    ensures if Header(g, scc, n) then NeedsHeader(g, scc, n) else NeedsNone(g, scc, n)
  {
    if Entry(g, scc, n) {
      var k :| 0 <= k < |g[n]| && g[n][k] !in scc;
      assert g[n][k] in g[n];
    } else if Extra(g, scc, n) {
      var k :| 0 <= k < |g[n]| && ExtraBy(g, scc, n, g[n][k]);
      assert g[n][k] in g[n];
      NotEntered(g, scc, g[n][k]);
    } else {
      forall p | p in g[n] ensures p in scc && p in g && (p < n || exists q :: q in g[p] && q !in scc) {
        var k :| 0 <= k < |g[n]| && g[n][k] == p;
        assert !ExtraBy(g, scc, n, g[n][k]);
      }
    }
  }

  lemma NotEntered(g: IrreducibleGraph, scc: seq<nat>, p: nat)
    requires p in g && !Entry(g, scc, p)
    ensures forall q :: q in g[p] ==> q in scc
  {
  }

  method Sort(s: seq<nat>) returns (r: seq<nat>)
    requires Distinct(s)
    ensures Increasing(r) && |r| == |s| && forall n :: n in r <==> n in s
  {
    r := [];
    for i := 0 to |s|
      invariant Increasing(r) && |r| == i && forall n :: n in r <==> n in s[..i]
    {
      assert s[i] !in s[..i];
      assert s[..i + 1] == s[..i] + [s[i]];
      r := Place(r, s[i]);
    }
    assert s[..|s|] == s;
  }

  lemma Inserted(s: seq<nat>, k: nat, x: nat)
    requires k <= |s| && Increasing(s) && (forall j :: 0 <= j < k ==> s[j] < x) && (k < |s| ==> x < s[k])
    ensures var r := s[..k] + [x] + s[k..];
            Increasing(r) && |r| == |s| + 1 && forall n :: n in r <==> n in s || n == x
  {
    var r := s[..k] + [x] + s[k..];
    forall i | 0 <= i < |r| ensures r[i] == if i < k then s[i] else if i == k then x else s[i - 1] {
    }
    forall n | n in s ensures n in r {
      var i :| 0 <= i < |s| && s[i] == n;
      assert r[if i < k then i else i + 1] == n;
    }
    assert r[k] == x;
  }

  method Place(s: seq<nat>, x: nat) returns (r: seq<nat>)
    requires Increasing(s) && x !in s
    ensures Increasing(r) && |r| == |s| + 1 && forall n :: n in r <==> n in s || n == x
  {
    hide Increasing;
    var k := 0;
    while k < |s| && s[k] < x
      invariant 0 <= k <= |s| && forall j :: 0 <= j < k ==> s[j] < x
    {
      k := k + 1;
    }
    r := s[..k] + [x] + s[k..];
    Inserted(s, k, x);
  }

  /** A predecessor outside the component, if there is one. */
  method HasOutsidePredecessor(g: IrreducibleGraph, scc: seq<nat>, n: nat) returns (entry: bool)
    requires n in g
    ensures entry == Entry(g, scc, n)
  {
    for k := 0 to |g[n]|
      invariant forall j :: 0 <= j < k ==> g[n][j] in scc
    {
      if g[n][k] in scc {
        continue;
      }
      return true;
    }
    return false;
  }

  /** For every node of the component, whether it is an entry. */
  ghost predicate Marks(inSCC: map<nat, bool>, g: IrreducibleGraph, scc: seq<nat>)
    requires Component(g, scc)
  {
    (forall n :: n in inSCC <==> n in scc) && forall n :: n in inSCC ==> (inSCC[n] <==> Entry(g, scc, n))
  }

  method HasLaterPredecessor(g: IrreducibleGraph, scc: seq<nat>, n: nat, inSCC: map<nat, bool>) returns (extra: bool)
    requires Component(g, scc) && n in scc && !Entry(g, scc, n) && Marks(inSCC, g, scc)
    ensures extra == Extra(g, scc, n)
  {
    for k := 0 to |g[n]|
      invariant forall j :: 0 <= j < k ==> !ExtraBy(g, scc, n, g[n][j])
    {
      var p := g[n][k];
      assert p in scc;
      if p < n {
        continue;
      }
      if p in inSCC && inSCC[p] {
        continue;
      }
      assert ExtraBy(g, scc, n, g[n][k]);
      return true;
    }
    return false;
  }

  /** The headers are the entries and the extra headers; everything else is another member.  The
      component has at least two entries, or the control flow would not be irreducible. */
  method FindIrreducibleHeaders(g: IrreducibleGraph, scc: seq<nat>) returns (headers: seq<nat>, others: seq<nat>)
    requires Component(g, scc)
    requires exists j, k :: 0 <= j < k < |scc| && Entry(g, scc, scc[j]) && Entry(g, scc, scc[k])
    ensures Increasing(headers) && Increasing(others)
    ensures forall n :: n in headers <==> n in scc && Header(g, scc, n)
    ensures forall n :: n in others <==> n in scc && !Header(g, scc, n)
    ensures forall n | n in headers :: NeedsHeader(g, scc, n)
    ensures forall n | n in others :: NeedsNone(g, scc, n)
  {
    hide Entry, Extra, Increasing, NeedsHeader, NeedsNone;
    forall n | n in scc ensures if Header(g, scc, n) then NeedsHeader(g, scc, n) else NeedsNone(g, scc, n) {
      HeaderMeans(g, scc, n);
    }
    var inSCC: map<nat, bool>;
    headers, inSCC := FindEntries(g, scc);
    others := [];
    assert |headers| >= 2 by { TwoEntries(g, scc, headers); }
    if |headers| == |scc| {
      AllIn(headers, scc);
      headers := Sort(headers);
      assert Increasing([]) by { NoneIncreasing(); }
      return;
    }
    for i := 0 to |scc|
      invariant Distinct(headers) && Distinct(others) && |headers| > 0
      invariant forall n :: n in headers <==> n in scc && (Entry(g, scc, n) || (n in scc[..i] && Extra(g, scc, n)))
      invariant forall n :: n in others <==> n in scc[..i] && !Header(g, scc, n)
    {
      var n := scc[i];
      NotSeen(scc, i);
      if inSCC[n] {
        continue;
      }
      var extra := HasLaterPredecessor(g, scc, n, inSCC);
      if extra {
        headers := headers + [n];
      }
      if headers[|headers| - 1] == n {
        continue;
      }
      others := others + [n];
    }
    assert scc[..|scc|] == scc;
    headers := Sort(headers);
    others := Sort(others);
  }

  lemma NoneIncreasing()
    ensures Increasing([])
  {
  }

  lemma NotSeen(scc: seq<nat>, i: nat)
    requires Distinct(scc) && i < |scc|
    ensures scc[i] !in scc[..i] && forall n :: n in scc[..i + 1] <==> n in scc[..i] || n == scc[i]
  {
    assert scc[..i + 1] == scc[..i] + [scc[i]];
  }

  /** Collects the entries. */
  method FindEntries(g: IrreducibleGraph, scc: seq<nat>) returns (headers: seq<nat>, inSCC: map<nat, bool>)
    requires Component(g, scc)
    ensures Distinct(headers) && Marks(inSCC, g, scc)
    ensures forall n :: n in headers <==> n in scc && Entry(g, scc, n)
  {
    hide Entry;
    inSCC, headers := map[], [];
    for i := 0 to |scc|
      invariant forall n :: n in inSCC <==> n in scc[..i]
      invariant forall n :: n in inSCC ==> !inSCC[n]
    {
      NotSeen(scc, i);
      inSCC := inSCC[scc[i] := false];
    }
    assert scc[..|scc|] == scc;
    for i := 0 to |scc|
      invariant forall n :: n in inSCC <==> n in scc
      invariant forall n :: n in inSCC ==> (inSCC[n] <==> n in scc[..i] && Entry(g, scc, n))
      invariant Distinct(headers) && forall n :: n in headers <==> n in scc[..i] && Entry(g, scc, n)
    {
      NotSeen(scc, i);
      var entry := HasOutsidePredecessor(g, scc, scc[i]);
      if entry {
        inSCC := inSCC[scc[i] := true];
        headers := headers + [scc[i]];
      }
    }
  }

  lemma TwoEntries(g: IrreducibleGraph, scc: seq<nat>, headers: seq<nat>)
    requires Component(g, scc) && forall n :: n in headers <==> n in scc && Entry(g, scc, n)
    requires exists j, k :: 0 <= j < k < |scc| && Entry(g, scc, scc[j]) && Entry(g, scc, scc[k])
    ensures |headers| >= 2
  {
    hide Entry;
    var j, k :| 0 <= j < k < |scc| && Entry(g, scc, scc[j]) && Entry(g, scc, scc[k]);
    assert scc[j] in headers && scc[k] in headers;
  }

  /** Distinct members that are as many as the whole are the whole. */
  lemma AllIn(s: seq<nat>, whole: seq<nat>)
    requires Distinct(s) && Distinct(whole) && |s| == |whole| && forall n :: n in s ==> n in whole
    ensures forall n :: n in whole ==> n in s
  {
    SetSize(s);
    SetSize(whole);
    SubsetOfSameSize(SetOf(s), SetOf(whole));
    assert forall n :: n in whole ==> n in SetOf(whole);
  }

  ghost function SetOf(s: seq<nat>): set<nat> {
    set n | n in s
  }

  lemma {:induction false} SetSize(s: seq<nat>)
    requires Distinct(s)
    ensures |SetOf(s)| == |s|
  {
    if s == [] {
      assert SetOf(s) == {};
    } else {
      var k := |s| - 1;
      SetSize(s[..k]);
      assert s == s[..k] + [s[k]];
      assert SetOf(s) == SetOf(s[..k]) + {s[k]};
      assert s[k] !in s[..k];
    }
  }

  lemma SubsetOfSameSize(a: set<nat>, b: set<nat>)
    requires a <= b && |a| == |b|
    ensures a == b
  {
    assert |b - a| == |b| - |a|;
  }

  // ---- The headers break every cycle ----

  /** An edge between two other members leads to a later one. */
  lemma EdgeBetweenOthers(g: IrreducibleGraph, scc: seq<nat>, u: nat, v: nat)
    requires Component(g, scc) && u in scc && v in scc && !Header(g, scc, u) && !Header(g, scc, v) && u in g[v]
    ensures u < v
  {
    hide Entry;
    var k :| 0 <= k < |g[v]| && g[v][k] == u;
    assert !ExtraBy(g, scc, v, g[v][k]);
  }

  ghost predicate Walk(g: IrreducibleGraph, scc: seq<nat>, p: seq<nat>) {
    && (forall k :: 0 <= k < |p| ==> p[k] in scc && p[k] in g)
    && forall k :: 0 < k < |p| ==> Edge(g, p[k - 1], p[k])
  }

  ghost predicate Edge(g: IrreducibleGraph, u: nat, v: nat) {
    v in g && u in g[v]
  }

  lemma {:induction false} WalkAmongOthers(g: IrreducibleGraph, scc: seq<nat>, p: seq<nat>)
    requires Component(g, scc) && Walk(g, scc, p) && |p| > 1 && forall k :: 0 <= k < |p| ==> !Header(g, scc, p[k])
    ensures p[0] < p[|p| - 1]
    decreases |p|
  {
    hide Header;
    var n := |p| - 1;
    assert Edge(g, p[n - 1], p[n]);
    EdgeBetweenOthers(g, scc, p[n - 1], p[n]);
    if n > 1 {
      WalkAmongOthers(g, scc, p[..n]);
    }
  }

  /** Every cycle of the component goes through a header. */
  lemma CycleHasHeader(g: IrreducibleGraph, scc: seq<nat>, p: seq<nat>)
    requires Component(g, scc) && Walk(g, scc, p) && |p| > 1 && p[0] == p[|p| - 1]
    ensures exists k :: 0 <= k < |p| && Header(g, scc, p[k])
  {
    hide Header;
    if forall k :: 0 <= k < |p| ==> !Header(g, scc, p[k]) {
      WalkAmongOthers(g, scc, p);
    }
  }

  // ---- Adding an edge to a distribution ----

  /** A loop as its blocks see it: the headers, and the blocks whose containing loop it is. */
  datatype LoopData = LoopData(headers: seq<nat>, members: set<nat>)

  predicate IsHeader(loop: LoopData, n: nat) {
    n in loop.headers
  }

  predicate IsIrreducible(loop: LoopData) {
    |loop.headers| > 1
  }

  /** The kind of an edge depends only on the block it resolves to. */
  function KindOf(loop: LoopData, resolved: nat): EdgeKind {
    if IsHeader(loop, resolved) then Backedge
    else if resolved !in loop.members then Exit
    else Local
  }

  /** An edge that goes back, and not to a header. */
  predicate Irreducible(loop: LoopData, pred: nat, resolved: nat) {
    KindOf(loop, resolved) == Local && resolved < pred && !IsHeader(loop, pred)
  }

  predicate Classified(ws: seq<Weight>, loop: LoopData) {
    forall k :: 0 <= k < |ws| ==> ws[k].kind == KindOf(loop, ws[k].target)
  }

  /** Adds an edge to what `succ` is packaged into; gives up at an irreducible backedge. */
  method AddToDist(dist: Distribution, loop: LoopData, resolve: map<nat, nat>, pred: nat, succ: nat, weight0: nat)
    returns (ok: bool)
    requires dist.Valid() && Classified(dist.weights, loop) && succ in resolve && weight0 <= UINT64_MAX
    requires Sum(dist.weights) + weight0 + 1 < 2 * TWO64
    requires IsIrreducible(loop) ==> !Irreducible(loop, pred, resolve[succ])
    modifies dist
    ensures dist.Valid() && Classified(dist.weights, loop)
    ensures !ok <==> && resolve[succ] in loop.members && resolve[succ] !in loop.headers
                     && resolve[succ] < pred && pred !in loop.headers
    ensures !ok ==> dist.weights == old(dist.weights)
    ensures ok ==> var to, weight := resolve[succ], if weight0 == 0 then 1 else weight0;
                   && (to in loop.headers ==> dist.weights == old(dist.weights) + [Weight(Backedge, to, weight)])
                   && (to !in loop.headers && to in loop.members ==> dist.weights == old(dist.weights) + [Weight(Local, to, weight)])
                   && (to !in loop.headers && to !in loop.members ==> dist.weights == old(dist.weights) + [Weight(Exit, to, weight)])
  {
    hide Represents, Sum;
    var weight := weight0;
    if weight == 0 {
      weight := 1;
    }
    var resolved := resolve[succ];
    if IsHeader(loop, resolved) {
      dist.Add(resolved, weight, Backedge);
      return true;
    }
    if resolved !in loop.members {
      dist.Add(resolved, weight, Exit);
      return true;
    }
    if resolved < pred {
      if !IsHeader(loop, pred) {
        assert !IsIrreducible(loop);
        return false;
      }
    }
    dist.Add(resolved, weight, Local);
    return true;
  }

  /** The loop made from a component. */
  ghost predicate LoopOf(loop: LoopData, g: IrreducibleGraph, scc: seq<nat>, others: seq<nat>)
    requires Component(g, scc)
  {
    && Increasing(loop.headers) && Increasing(others)
    && (forall n :: n in loop.headers <==> n in scc && Header(g, scc, n))
    && (forall n :: n in others <==> n in scc && !Header(g, scc, n))
    && (forall n :: n in loop.members <==> n in scc)
  }

  /** No edge of the new loop is an irreducible backedge. */
  lemma NeverAborts(loop: LoopData, g: IrreducibleGraph, scc: seq<nat>, others: seq<nat>, pred: nat, resolved: nat)
    requires Component(g, scc) && LoopOf(loop, g, scc, others) && pred in scc
    requires resolved in scc ==> pred in g[resolved]
    ensures !Irreducible(loop, pred, resolved)
  {
    hide Header, Increasing;
    if KindOf(loop, resolved) == Local && !IsHeader(loop, pred) {
      EdgeBetweenOthers(g, scc, pred, resolved);
    }
  }

  /** With the headers first, every local edge of the new loop leads to a later block, as the
      conservation of mass asks for. */
  lemma LocalEdgesLeadLater(loop: LoopData, g: IrreducibleGraph, scc: seq<nat>, others: seq<nat>, i: nat, w: Weight)
    requires Component(g, scc) && LoopOf(loop, g, scc, others) && i < |loop.headers + others|
    requires w.kind == KindOf(loop, w.target) && (w.target in scc ==> (loop.headers + others)[i] in g[w.target])
    ensures LeadsLater(w, loop.headers + others, i) && (w.kind == Backedge ==> w.target in loop.headers)
  {
    hide Header;
    var order, u := loop.headers + others, (loop.headers + others)[i];
    if w.kind == Local {
      var q :| 0 <= q < |others| && others[q] == w.target;
      assert order[|loop.headers| + q] == w.target;
      if i >= |loop.headers| {
        EdgeBetweenOthers(g, scc, u, w.target);
        assert others[i - |loop.headers|] < others[q];
        InOrder(others, i - |loop.headers|, q);
      }
    }
  }

  lemma InOrder(s: seq<nat>, a: nat, b: nat)
    requires Increasing(s) && a < |s| && b < |s| && s[a] < s[b]
    ensures a < b
  {
  }

  /** The order visits every block of the loop once. */
  lemma HeadersThenOthers(loop: LoopData, g: IrreducibleGraph, scc: seq<nat>, others: seq<nat>, blocks: nat)
    requires Component(g, scc) && LoopOf(loop, g, scc, others) && forall k :: 0 <= k < |scc| ==> scc[k] < blocks
    ensures Order(loop.headers + others, blocks)
    ensures forall n :: n in loop.headers + others <==> n in scc
  {
    hide Header;
    var order, h := loop.headers + others, |loop.headers|;
    forall j | 0 <= j < |order| ensures order[j] < blocks {
      assert order[j] in scc;
    }
    forall j, k | 0 <= j < k < |order| ensures order[j] != order[k] {
      if k < h {
        assert loop.headers[j] < loop.headers[k];
      } else if j >= h {
        assert others[j - h] < others[k - h];
      } else {
        assert order[j] in loop.headers && order[k] in others;
      }
    }
  }
}
