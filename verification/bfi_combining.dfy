/** Combining the weights of edges that have the same target. */
module WeightCombining {
  import opened BranchProbabilities

  datatype EdgeKind = Local | Exit | Backedge

  /** The weight of an edge to a block, and what kind of edge it is for the loop at hand. */
  datatype Weight = Weight(kind: EdgeKind, target: nat, amount: nat)

  function Sum(ws: seq<Weight>): nat {
    if ws == [] then 0 else Sum(ws[..|ws| - 1]) + ws[|ws| - 1].amount
  }

  /** What the edges to one target weigh together. */
  function TargetSum(ws: seq<Weight>, t: nat): nat {
    if ws == [] then 0
    else TargetSum(ws[..|ws| - 1], t) + if ws[|ws| - 1].target == t then ws[|ws| - 1].amount else 0
  }

  lemma SumWith(a: seq<Weight>, w: Weight)
    ensures Sum(a + [w]) == Sum(a) + w.amount
  {
    assert (a + [w])[..|a|] == a;
  }

  lemma TargetSumWith(a: seq<Weight>, w: Weight, t: nat)
    ensures TargetSum(a + [w], t) == TargetSum(a, t) + if w.target == t then w.amount else 0
  {
    assert (a + [w])[..|a|] == a;
  }

  /** The same, held at the largest 64-bit number. */
  function SaturatedSum(ws: seq<Weight>, t: nat): nat {
    if TargetSum(ws, t) <= UINT64_MAX then TargetSum(ws, t) else UINT64_MAX
  }

  ghost predicate HasTarget(ws: seq<Weight>, t: nat) {
    exists k :: 0 <= k < |ws| && ws[k].target == t
  }

  /** Every weight is a positive 64-bit number. */
  predicate PositiveAmounts(ws: seq<Weight>) {
    forall k :: 0 <= k < |ws| ==> 0 < ws[k].amount <= UINT64_MAX
  }

  /** Edges to the same target are of the same kind. */
  predicate SameKinds(ws: seq<Weight>) {
    forall j, k :: 0 <= j < |ws| && 0 <= k < |ws| && ws[j].target == ws[k].target ==> ws[j].kind == ws[k].kind
  }

  predicate DistinctTargets(ws: seq<Weight>) {
    forall j, k :: 0 <= j < k < |ws| ==> ws[j].target != ws[k].target
  }

  /** The weight stands for all the edges to its target. */
  ghost predicate EntryFor(w: Weight, ws: seq<Weight>) {
    && HasTarget(ws, w.target) && w.amount == SaturatedSum(ws, w.target)
    && forall k :: 0 <= k < |ws| && ws[k].target == w.target ==> ws[k].kind == w.kind
  }

  /** One entry per target, with the sum of what goes there. */
  ghost predicate Combines(r: seq<Weight>, ws: seq<Weight>) {
    && DistinctTargets(r)
    && (forall i :: 0 <= i < |r| ==> EntryFor(r[i], ws))
    && (forall k :: 0 <= k < |ws| ==> HasTarget(r, ws[k].target))
  }

  // ---- Combinations are unique up to order ----

  lemma EntriesAgree(a: Weight, b: Weight, ws: seq<Weight>)
    requires EntryFor(a, ws) && EntryFor(b, ws) && a.target == b.target
    ensures a == b
  {
    hide SaturatedSum;
    var k :| 0 <= k < |ws| && ws[k].target == a.target;
    assert ws[k].kind == a.kind && ws[k].kind == b.kind;
  }

  lemma EntryIsIn(w: Weight, r: seq<Weight>, ws: seq<Weight>)
    requires Combines(r, ws)
    ensures w in r <==> EntryFor(w, ws)
  {
    hide SaturatedSum;
    if EntryFor(w, ws) {
      var k :| 0 <= k < |ws| && ws[k].target == w.target;
      var i :| 0 <= i < |r| && r[i].target == ws[k].target;
      EntriesAgree(r[i], w, ws);
    }
  }

  lemma {:induction false} OnceEach(r: seq<Weight>, w: Weight)
    requires DistinctTargets(r)
    ensures multiset(r)[w] == if w in r then 1 else 0
  {
    if r != [] {
      var n := |r| - 1;
      OnceEach(r[..n], w);
      assert r == r[..n] + [r[n]];
      assert multiset(r) == multiset(r[..n]) + multiset{r[n]};
    }
  }

  /** However the weights are combined, the result is the same up to order. */
  lemma CombinedOnlyOneWay(a: seq<Weight>, b: seq<Weight>, ws: seq<Weight>)
    requires Combines(a, ws) && Combines(b, ws)
    ensures multiset(a) == multiset(b)
  {
    forall w: Weight ensures multiset(a)[w] == multiset(b)[w] {
      OnceEach(a, w);
      OnceEach(b, w);
      EntryIsIn(w, a, ws);
      EntryIsIn(w, b, ws);
    }
  }

  // ---- Order does not matter ----

  lemma {:induction false} TargetSumSplit(a: seq<Weight>, b: seq<Weight>, t: nat)
    ensures TargetSum(a + b, t) == TargetSum(a, t) + TargetSum(b, t)
  {
    if b == [] {
      assert a + b == a;
    } else {
      var n := |b| - 1;
      TargetSumSplit(a, b[..n], t);
      assert (a + b)[..|a + b| - 1] == a + b[..n];
    }
  }

  lemma TargetSumOne(w: Weight, t: nat)
    ensures TargetSum([w], t) == if w.target == t then w.amount else 0
  {
    assert [w][..0] == [];
  }

  lemma SameMembers(a: seq<Weight>, b: seq<Weight>, k: nat)
    requires multiset(a) == multiset(b) && k < |a|
    ensures exists j :: 0 <= j < |b| && b[j] == a[k]
  {
    assert a[k] in multiset(b);
  }

  lemma WithoutOne(b: seq<Weight>, k: nat)
    requires k < |b|
    ensures b == b[..k] + [b[k]] + b[k + 1..]
    ensures multiset(b[..k] + b[k + 1..]) == multiset(b) - multiset{b[k]}
  {
    assert b == b[..k] + [b[k]] + b[k + 1..];
    var p, q := b[..k], b[k + 1..];
    assert multiset(p + [b[k]] + q) == multiset(p) + multiset{b[k]} + multiset(q);
    assert multiset(p + q) == multiset(p) + multiset(q);
  }

  lemma SameWithoutOne(a: seq<Weight>, n: nat, b: seq<Weight>, k: nat)
    requires multiset(a) == multiset(b) && n < |a| && k < |b| && a[n] == b[k]
    ensures multiset(a[..n] + a[n + 1..]) == multiset(b[..k] + b[k + 1..])
  {
    WithoutOne(a, n);
    WithoutOne(b, k);
  }

  lemma TargetSumWithout(b: seq<Weight>, k: nat, t: nat)
    requires k < |b|
    ensures TargetSum(b, t) == TargetSum(b[..k] + b[k + 1..], t) + if b[k].target == t then b[k].amount else 0
  {
    hide TargetSum;
    WithoutOne(b, k);
    TargetSumSplit(b[..k], b[k + 1..], t);
    TargetSumSplit(b[..k] + [b[k]], b[k + 1..], t);
    TargetSumSplit(b[..k], [b[k]], t);
    TargetSumOne(b[k], t);
  }

  lemma {:induction false} TargetSumPermutation(a: seq<Weight>, b: seq<Weight>, t: nat)
    requires multiset(a) == multiset(b)
    ensures TargetSum(a, t) == TargetSum(b, t)
  {
    hide TargetSum;
    if a == [] {
      assert |b| == |multiset(b)| == 0;
    } else {
      var n := |a| - 1;
      SameMembers(a, b, n);
      var k :| 0 <= k < |b| && b[k] == a[n];
      SameWithoutOne(a, n, b, k);
      TargetSumPermutation(a[..n] + a[n + 1..], b[..k] + b[k + 1..], t);
      TargetSumWithout(a, n, t);
      TargetSumWithout(b, k, t);
    }
  }

  /** A combination of a permutation is a combination. */
  lemma CombinesPermuted(r: seq<Weight>, a: seq<Weight>, b: seq<Weight>)
    requires multiset(a) == multiset(b) && Combines(r, a)
    ensures Combines(r, b)
  {
    forall i | 0 <= i < |r| ensures EntryFor(r[i], b) {
      EntryPermuted(r[i], a, b);
    }
    forall k | 0 <= k < |b| ensures HasTarget(r, b[k].target) {
      SameMembers(b, a, k);
    }
  }

  lemma EntryPermuted(w: Weight, a: seq<Weight>, b: seq<Weight>)
    requires multiset(a) == multiset(b) && EntryFor(w, a)
    ensures EntryFor(w, b)
  {
    TargetSumPermutation(a, b, w.target);
    var k :| 0 <= k < |a| && a[k].target == w.target;
    SameMembers(a, b, k);
    forall j | 0 <= j < |b| && b[j].target == w.target ensures b[j].kind == w.kind {
      SameMembers(b, a, j);
    }
  }

  // ---- By sorting ----

  predicate Sorted(ws: seq<Weight>) {
    forall j, k :: 0 <= j < k < |ws| ==> ws[j].target <= ws[k].target
  }

  method Insert(s: seq<Weight>, w: Weight) returns (r: seq<Weight>)
    requires Sorted(s)
    ensures multiset(r) == multiset(s) + multiset{w} && |r| == |s| + 1 && Sorted(r)
  {
    hide Sorted;
    var k := 0;
    while k < |s| && s[k].target < w.target
      invariant 0 <= k <= |s| && forall j :: 0 <= j < k ==> s[j].target < w.target
    {
      k := k + 1;
    }
    r := s[..k] + [w] + s[k..];
    InsertedMultiset(s, k, w);
    InsertedSorted(s, k, w);
  }

  lemma InsertedMultiset(s: seq<Weight>, k: nat, w: Weight)
    requires k <= |s|
    ensures multiset(s[..k] + [w] + s[k..]) == multiset(s) + multiset{w}
  {
    assert s == s[..k] + s[k..];
    var p, q := s[..k], s[k..];
    assert multiset(p + [w] + q) == multiset(p) + multiset{w} + multiset(q);
    assert multiset(p + q) == multiset(p) + multiset(q);
  }

  lemma InsertedSorted(s: seq<Weight>, k: nat, w: Weight)
    requires k <= |s| && Sorted(s) && (forall j :: 0 <= j < k ==> s[j].target < w.target)
    requires k < |s| ==> w.target <= s[k].target
    ensures Sorted(s[..k] + [w] + s[k..])
  {
    var r := s[..k] + [w] + s[k..];
    forall i, j | 0 <= i < j < |r| ensures r[i].target <= r[j].target {
      assert r[i] == if i < k then s[i] else if i == k then w else s[i - 1];
      assert r[j] == if j < k then s[j] else if j == k then w else s[j - 1];
    }
  }

  /** Sorts by target.  The order of edges to the same target is left open. */
  method SortByTarget(ws: seq<Weight>) returns (s: seq<Weight>)
    ensures multiset(s) == multiset(ws) && |s| == |ws| && Sorted(s)
  {
    s := [];
    for n := 0 to |ws|
      invariant multiset(s) == multiset(ws[..n]) && |s| == n && Sorted(s)
    {
      assert ws[..n + 1] == ws[..n] + [ws[n]];
      s := Insert(s, ws[n]);
    }
    assert ws[..|ws|] == ws;
  }

  /** Adds the weight of another edge to the same target. */
  method CombineWeight(w: Weight, other: Weight) returns (r: Weight)
    requires 0 < other.amount <= UINT64_MAX && w.amount <= UINT64_MAX
    requires w.amount == 0 || (w.kind == other.kind && w.target == other.target)
    ensures r.kind == other.kind && r.target == other.target
    ensures r.amount == AddMass(w.amount, other.amount)
  {
    if w.amount == 0 {
      return other;
    }
    if w.amount > (w.amount + other.amount) % TWO64 {
      r := w.(amount := UINT64_MAX);
    } else {
      r := w.(amount := (w.amount + other.amount) % TWO64);
    }
  }

  lemma {:induction false} TargetSumElsewhere(s: seq<Weight>, i: nat, l: nat, t: nat)
    requires i <= l <= |s| && forall k :: i <= k < l ==> s[k].target != t
    ensures TargetSum(s[..l], t) == TargetSum(s[..i], t)
  {
    if i < l {
      TargetSumElsewhere(s, i, l - 1, t);
      assert s[..l][..l - 1] == s[..l - 1];
    }
  }

  lemma TargetSumNext(s: seq<Weight>, l: nat, t: nat)
    requires l < |s|
    ensures TargetSum(s[..l + 1], t) == TargetSum(s[..l], t) + if s[l].target == t then s[l].amount else 0
  {
    assert s[..l + 1][..l] == s[..l];
  }

  /** The edges from `i` to `l` all go to the target of `e`, and no edge before them does. */
  lemma CombinesNext(c: seq<Weight>, s: seq<Weight>, i: nat, l: nat, e: Weight)
    requires i < l <= |s| && Combines(c, s[..i]) && Sorted(s) && SameKinds(s)
    requires forall k :: i <= k < l ==> s[k].target == e.target && s[k].kind == e.kind
    requires i > 0 ==> s[i - 1].target < e.target
    requires e.amount == SaturatedSum(s[..l], e.target)
    ensures Combines(c + [e], s[..l])
  {
    hide SaturatedSum;
    var r := c + [e];
    assert forall k :: 0 <= k < i ==> s[k].target < e.target;
    assert s[..l][i].target == e.target;
    forall j | 0 <= j < |r| ensures EntryFor(r[j], s[..l]) {
      if j < |c| {
        EntryCarries(c[j], s, i, l);
      }
    }
    forall k | 0 <= k < l ensures HasTarget(r, s[k].target) {
      if k < i {
        assert HasTarget(c, s[..i][k].target);
        var j :| 0 <= j < |c| && c[j].target == s[k].target;
        assert r[j].target == s[k].target;
      } else {
        assert r[|c|].target == s[k].target;
      }
    }
    forall j | 0 <= j < |c| ensures c[j].target != e.target {
      assert EntryFor(c[j], s[..i]);
      var k :| 0 <= k < i && s[..i][k].target == c[j].target;
    }
  }

  lemma EntryCarries(w: Weight, s: seq<Weight>, i: nat, l: nat)
    requires i <= l <= |s| && EntryFor(w, s[..i])
    requires forall k, j :: i <= k < l && 0 <= j < i ==> s[j].target != s[k].target
    ensures EntryFor(w, s[..l])
  {
    var j :| 0 <= j < i && s[..i][j].target == w.target;
    assert s[..l][j].target == w.target;
    TargetSumElsewhere(s, i, l, w.target);
    forall k | 0 <= k < l && s[..l][k].target == w.target ensures s[..l][k].kind == w.kind {
      assert k < i;
      assert s[..i][k] == s[k];
    }
  }

  /** Combines the edges from `i` on that go to one target into place `o`. */
  method CombineRun(r0: seq<Weight>, ghost s: seq<Weight>, o: nat, i: nat) returns (r: seq<Weight>, l: nat)
    requires o <= i < |r0| == |s| && r0[i..] == s[i..] && Sorted(s) && SameKinds(s) && PositiveAmounts(s)
    requires i > 0 ==> s[i - 1].target < s[i].target
    ensures |r| == |s| && i < l <= |s| && r[..o] == r0[..o] && r[l..] == s[l..]
    ensures r[o].target == s[i].target && r[o].kind == s[i].kind && r[o].amount == SaturatedSum(s[..l], s[i].target)
    ensures forall k :: i <= k < l ==> s[k].target == s[i].target && s[k].kind == s[i].kind
    ensures l < |s| ==> s[l - 1].target == s[i].target != s[l].target
  {
    hide SaturatedSum, TargetSum, Sorted, SameKinds, PositiveAmounts;
    ghost var c := r0[..o];
    SuffixAt(r0, s, i);
    r := r0[o := r0[i]];
    l := i + 1;
    FirstOfTarget(s, i);
    SuffixShorter(r0, s, i);
    assert r[l..] == s[l..];
    while l != |r| && r[i].target == r[l].target
      invariant i < l <= |r| == |s| && r[..o] == c && r[l..] == s[l..]
      invariant r[i].target == s[i].target == r[o].target && r[o].kind == s[i].kind
      invariant forall k :: i <= k < l ==> s[k].target == s[i].target && s[k].kind == s[i].kind
      invariant r[o].amount == SaturatedSum(s[..l], s[i].target) && 0 < r[o].amount <= UINT64_MAX
      decreases |r| - l
    {
      SuffixAt(r, s, l);
      SuffixShorter(r, s, l);
      SameTargetSameKind(s, i, l);
      var combined := CombineWeight(r[o], r[l]);
      r := r[o := combined];
      SaturatedNext(s, l, s[i].target);
      l := l + 1;
      assert r[l..] == s[l..];
    }
    if l < |s| {
      SuffixAt(r, s, l);
    }
  }

  lemma SuffixAt(r: seq<Weight>, s: seq<Weight>, l: nat)
    requires l < |r| == |s| && r[l..] == s[l..]
    ensures r[l] == s[l]
  {
    assert r[l..][0] == s[l..][0];
  }

  lemma SuffixShorter(r: seq<Weight>, s: seq<Weight>, l: nat)
    requires l < |r| == |s| && r[l..] == s[l..]
    ensures r[l + 1..] == s[l + 1..]
  {
    assert r[l..][1..] == s[l..][1..];
  }

  /** Sorts the edges so that those to the same target are adjacent, and compacts them in place. */
  method CombineWeightsBySorting(weights: seq<Weight>) returns (r: seq<Weight>)
    requires PositiveAmounts(weights) && SameKinds(weights)
    ensures Combines(r, weights)
  {
    hide Combines, SaturatedSum, TargetSum, Sorted, SameKinds, PositiveAmounts;
    r := SortByTarget(weights);
    ghost var s := r;
    SortedStays(weights, s);
    var n := |r|;
    var o, i := 0, 0;
    NothingCombined(s);
    while i != n
      invariant 0 <= o <= i <= n == |r| == |s| && r[i..] == s[i..]
      invariant Combines(r[..o], s[..i])
      invariant 0 < i < n ==> s[i - 1].target < s[i].target
    {
      ghost var c := r[..o];
      var l;
      r, l := CombineRun(r, s, o, i);
      if l < n {
        StrictlyNext(s, i, l);
      }
      CombinesNext(c, s, i, l, r[o]);
      assert r[..o + 1] == c + [r[o]];
      o, i := o + 1, l;
    }
    assert s[..n] == s;
    r := r[..o];
    CombinesPermuted(r, s, weights);
  }

  lemma SortedStays(ws: seq<Weight>, s: seq<Weight>)
    requires multiset(s) == multiset(ws) && PositiveAmounts(ws) && SameKinds(ws)
    ensures PositiveAmounts(s) && SameKinds(s)
  {
    forall k | 0 <= k < |s| ensures 0 < s[k].amount <= UINT64_MAX {
      SameMembers(s, ws, k);
    }
    forall j, k | 0 <= j < |s| && 0 <= k < |s| && s[j].target == s[k].target ensures s[j].kind == s[k].kind {
      SameMembers(s, ws, j);
      SameMembers(s, ws, k);
    }
  }

  lemma NothingCombined(s: seq<Weight>)
    ensures Combines([], s[..0])
  {
  }

  lemma SameTargetSameKind(s: seq<Weight>, i: nat, l: nat)
    requires i < |s| && l < |s| && SameKinds(s) && PositiveAmounts(s)
    ensures s[i].target == s[l].target ==> s[i].kind == s[l].kind
    ensures 0 < s[l].amount <= UINT64_MAX
  {
  }

  lemma StrictlyNext(s: seq<Weight>, i: nat, l: nat)
    requires Sorted(s) && i < l < |s| && s[l - 1].target == s[i].target != s[l].target
    ensures s[l - 1].target < s[l].target
  {
  }

  /** The first edge to its target. */
  lemma FirstOfTarget(s: seq<Weight>, i: nat)
    requires i < |s| && Sorted(s) && (i > 0 ==> s[i - 1].target < s[i].target) && PositiveAmounts(s)
    ensures s[i].amount == SaturatedSum(s[..i + 1], s[i].target) && 0 < s[i].amount <= UINT64_MAX
  {
    TargetSumElsewhere(s, 0, i, s[i].target);
    TargetSumNext(s, i, s[i].target);
    assert s[..0] == [];
  }

  lemma SaturatedNext(s: seq<Weight>, l: nat, t: nat)
    requires l < |s| && s[l].target == t && s[l].amount <= UINT64_MAX
    ensures SaturatedSum(s[..l], t) <= UINT64_MAX
    ensures SaturatedSum(s[..l + 1], t) == AddMass(SaturatedSum(s[..l], t), s[l].amount)
  {
    TargetSumNext(s, l, t);
  }
}
