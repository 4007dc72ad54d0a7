/** Passing the mass of a loop on from its headers to its backedges and exits. */
module MassDistribution {
  import opened BranchProbabilities
  import opened WeightCombining
  import opened Distributions
  import opened Dithering

  /** The masses of the blocks, what has come back to each header, and what has left the loop. */
  datatype Flow = Flow(mass: seq<nat>, backedge: seq<nat>, exits: seq<(nat, nat)>)

  predicate Masses(s: seq<nat>) {
    forall k :: 0 <= k < |s| ==> s[k] <= FULL
  }

  /** The edge leads somewhere its kind allows; only a loop has backedges and exits. */
  predicate Leads(w: Weight, blocks: nat, headers: seq<nat>, inLoop: bool) {
    match w.kind
    case Local => w.target < blocks
    case Backedge => inLoop && w.target in headers
    case Exit => inLoop
  }

  predicate AllLead(ws: seq<Weight>, blocks: nat, headers: seq<nat>, inLoop: bool) {
    forall k :: 0 <= k < |ws| ==> Leads(ws[k], blocks, headers, inLoop)
  }

  predicate ValidFlow(f: Flow, headers: seq<nat>) {
    Masses(f.mass) && Masses(f.backedge) && |f.backedge| == |headers|
  }

  function Position(headers: seq<nat>, node: nat): (i: nat)
    requires node in headers
    ensures i < |headers| && headers[i] == node
  {
    if headers[0] == node then 0 else 1 + Position(headers[1..], node)
  }

  /** Gives one portion to the end of an edge. */
  function Deliver(f: Flow, headers: seq<nat>, inLoop: bool, w: Weight, taken: nat): (g: Flow)
    requires ValidFlow(f, headers) && Leads(w, |f.mass|, headers, inLoop) && taken <= FULL
    ensures ValidFlow(g, headers) && |g.mass| == |f.mass|
  {
    match w.kind
    case Local => f.(mass := f.mass[w.target := AddMass(f.mass[w.target], taken)])
    case Backedge =>
      var i := Position(headers, w.target);
      f.(backedge := f.backedge[i := AddMass(f.backedge[i], taken)])
    case Exit => f.(exits := f.exits + [(w.target, taken)])
  }

  ghost predicate Portionable(mass: nat, total: nat, ws: seq<Weight>) {
    mass <= FULL && total <= UINT32_MAX && PositiveAmounts(ws) && Sum(ws) <= total
  }

  /** The portion of the next weight. */
  ghost function NextPortion(mass: nat, total: nat, ws: seq<Weight>, w: Weight): (r: nat)
    requires Portionable(mass, total, ws) && 0 < w.amount <= total - Sum(ws)
    ensures r <= RemMass(mass, total, ws)
  {
    Portion(RemMass(mass, total, ws), w.amount, total - Sum(ws))
  }

  /** Gives every edge its portion of the mass. */
  ghost function Spread(f: Flow, headers: seq<nat>, inLoop: bool, mass: nat, total: nat, ws: seq<Weight>): (g: Flow)
    requires ValidFlow(f, headers) && AllLead(ws, |f.mass|, headers, inLoop) && Portionable(mass, total, ws)
    ensures ValidFlow(g, headers) && |g.mass| == |f.mass|
    decreases |ws|
  {
    if ws == [] then f
    else
      var n := |ws| - 1;
      Deliver(Spread(f, headers, inLoop, mass, total, ws[..n]), headers, inLoop, ws[n], NextPortion(mass, total, ws[..n], ws[n]))
  }

  // ---- Where the mass goes ----

  /** What the edges of one kind to one block get: for each of them what is left of the mass before
      it, less what is left after it. */
  ghost function Given(mass: nat, total: nat, ws: seq<Weight>, kind: EdgeKind, node: nat): (r: nat)
    requires Portionable(mass, total, ws)
    ensures r + RemMass(mass, total, ws) <= mass
    ensures r > 0 ==> exists k :: 0 <= k < |ws| && ws[k].kind == kind && ws[k].target == node
    decreases |ws|
  {
    if ws == [] then 0
    else
      var n := |ws| - 1;
      var before := Given(mass, total, ws[..n], kind, node);
      assert ws[n].kind != kind || ws[n].target != node ==>
        (before > 0 ==> exists k :: 0 <= k < |ws[..n]| && ws[..n][k].kind == kind && ws[..n][k].target == node);
      before + if ws[n].kind == kind && ws[n].target == node then RemMass(mass, total, ws[..n]) - RemMass(mass, total, ws) else 0
  }

  /** What leaves the loop: a target and a mass for every exit, in order. */
  ghost function Leaving(mass: nat, total: nat, ws: seq<Weight>): seq<(nat, nat)>
    requires Portionable(mass, total, ws)
    decreases |ws|
  {
    if ws == [] then []
    else
      var n := |ws| - 1;
      Leaving(mass, total, ws[..n])
      + if ws[n].kind == Exit then [(ws[n].target, RemMass(mass, total, ws[..n]) - RemMass(mass, total, ws))] else []
  }

  function AtMostFull(x: nat): nat {
    if x < FULL then x else FULL
  }

  /** Every block gets what the local edges to it are given, every header what the backedges to it
      are given, and what the exits are given leaves. */
  ghost predicate Gives(f: Flow, g: Flow, headers: seq<nat>, mass: nat, total: nat, ws: seq<Weight>)
    requires Portionable(mass, total, ws)
  {
    && |g.mass| == |f.mass| && |g.backedge| == |f.backedge| == |headers|
    && (forall t :: 0 <= t < |f.mass| ==> g.mass[t] == AtMostFull(f.mass[t] + Given(mass, total, ws, Local, t)))
    && (forall j :: 0 <= j < |headers| ==>
          g.backedge[j] == AtMostFull(f.backedge[j] + Given(mass, total, ws, Backedge, headers[j])))
    && g.exits == f.exits + Leaving(mass, total, ws)
  }

  predicate Increasing(headers: seq<nat>) {
    forall j, k :: 0 <= j < k < |headers| ==> headers[j] < headers[k]
  }

  lemma {:induction false} SpreadGives(f: Flow, headers: seq<nat>, inLoop: bool, mass: nat, total: nat, ws: seq<Weight>)
    requires ValidFlow(f, headers) && AllLead(ws, |f.mass|, headers, inLoop) && Portionable(mass, total, ws)
    requires Increasing(headers)
    ensures Gives(f, Spread(f, headers, inLoop, mass, total, ws), headers, mass, total, ws)
    decreases |ws|
  {
    hide RemMass, Portion, Deliver, Gives, AddMass;
    if ws == [] {
      NothingGiven(f, headers, mass, total);
    } else {
      var n := |ws| - 1;
      SpreadGives(f, headers, inLoop, mass, total, ws[..n]);
      GivesNext(f, Spread(f, headers, inLoop, mass, total, ws[..n]), headers, inLoop, mass, total, ws);
    }
  }

  lemma NothingGiven(f: Flow, headers: seq<nat>, mass: nat, total: nat)
    requires ValidFlow(f, headers) && mass <= FULL && total <= UINT32_MAX
    ensures Gives(f, f, headers, mass, total, [])
  {
  }

  /** The portion of the last weight goes to its target, in the way of its kind. */
  lemma GivenNext(mass: nat, total: nat, ws: seq<Weight>, kind: EdgeKind, node: nat)
    requires Portionable(mass, total, ws) && ws != [] && Portionable(mass, total, ws[..|ws| - 1])
    ensures var n := |ws| - 1;
            0 < ws[n].amount <= total - Sum(ws[..n])
            && Given(mass, total, ws, kind, node) == Given(mass, total, ws[..n], kind, node)
                 + if ws[n].kind == kind && ws[n].target == node then NextPortion(mass, total, ws[..n], ws[n]) else 0
  {
    hide Portion;
  }

  lemma LeavingNext(mass: nat, total: nat, ws: seq<Weight>)
    requires Portionable(mass, total, ws) && ws != [] && Portionable(mass, total, ws[..|ws| - 1])
    ensures var n := |ws| - 1;
            0 < ws[n].amount <= total - Sum(ws[..n])
            && Leaving(mass, total, ws) == Leaving(mass, total, ws[..n])
                 + if ws[n].kind == Exit then [(ws[n].target, NextPortion(mass, total, ws[..n], ws[n]))] else []
  {
    hide Portion;
  }

  lemma GivesNext(f: Flow, g: Flow, headers: seq<nat>, inLoop: bool, mass: nat, total: nat, ws: seq<Weight>)
    requires ValidFlow(g, headers) && AllLead(ws, |g.mass|, headers, inLoop) && Portionable(mass, total, ws) && ws != []
    requires Increasing(headers) && Portionable(mass, total, ws[..|ws| - 1])
    requires Gives(f, g, headers, mass, total, ws[..|ws| - 1])
    ensures var n := |ws| - 1;
            0 < ws[n].amount <= total - Sum(ws[..n])
            && Gives(f, Deliver(g, headers, inLoop, ws[n], NextPortion(mass, total, ws[..n], ws[n])), headers, mass, total, ws)
  {
    hide Portion, RemMass, NextPortion, Given, Leaving, Sum, AddMass, Leads, Position, PositiveAmounts;
    var n := |ws| - 1;
    var w := ws[n];
    LeavingNext(mass, total, ws);
    assert Leads(w, |g.mass|, headers, inLoop);
    var taken := NextPortion(mass, total, ws[..n], w);
    DeliverGoesTo(g, headers, inLoop, w, taken);
    var h := Deliver(g, headers, inLoop, w, taken);
    hide Deliver;
    forall t | 0 <= t < |f.mass| ensures h.mass[t] == AtMostFull(f.mass[t] + Given(mass, total, ws, Local, t)) {
      GivenNext(mass, total, ws, Local, t);
    }
    forall j | 0 <= j < |headers|
      ensures h.backedge[j] == AtMostFull(f.backedge[j] + Given(mass, total, ws, Backedge, headers[j]))
    {
      GivenNext(mass, total, ws, Backedge, headers[j]);
    }
  }

  lemma DeliverGoesTo(f: Flow, headers: seq<nat>, inLoop: bool, w: Weight, taken: nat)
    requires ValidFlow(f, headers) && Leads(w, |f.mass|, headers, inLoop) && taken <= FULL && Increasing(headers)
    ensures var g := Deliver(f, headers, inLoop, w, taken);
            && |g.mass| == |f.mass| && |g.backedge| == |f.backedge|
            && (forall t :: 0 <= t < |f.mass| ==>
                  g.mass[t] == AtMostFull(f.mass[t] + if w.kind == Local && w.target == t then taken else 0))
            && (forall j :: 0 <= j < |headers| ==>
                  g.backedge[j] == AtMostFull(f.backedge[j] + if w.kind == Backedge && w.target == headers[j] then taken else 0))
            && g.exits == f.exits + if w.kind == Exit then [(w.target, taken)] else []
  {
    hide AddMass;
  }

  // ---- Counting the mass ----

  function SumOf(s: seq<nat>): nat {
    if s == [] then 0 else SumOf(s[..|s| - 1]) + s[|s| - 1]
  }

  function ExitSum(s: seq<(nat, nat)>): nat {
    if s == [] then 0 else ExitSum(s[..|s| - 1]) + s[|s| - 1].1
  }

  /** What has come back to the headers or left the loop. */
  function Collected(f: Flow): nat {
    SumOf(f.backedge) + ExitSum(f.exits)
  }

  /** The order visits no block twice. */
  predicate Order(order: seq<nat>, blocks: nat) {
    && (forall j :: 0 <= j < |order| ==> order[j] < blocks)
    && (forall j, k :: 0 <= j < k < |order| ==> order[j] != order[k])
  }

  /** The mass of the first `n` blocks, without those before `i` that have passed theirs on. */
  function HeldBy(mass: seq<nat>, order: seq<nat>, keeps: seq<bool>, i: nat, n: nat): nat
    requires Order(order, |mass|) && |keeps| == |order| && n <= |order|
  {
    if n == 0 then 0
    else HeldBy(mass, order, keeps, i, n - 1) + if n - 1 >= i || keeps[n - 1] then mass[order[n - 1]] else 0
  }

  /** All the mass there is when the blocks before `i` have passed theirs on, but for those that
      keep it because they have no edges. */
  function Accounted(f: Flow, order: seq<nat>, keeps: seq<bool>, i: nat): nat
    requires Order(order, |f.mass|) && |keeps| == |order|
  {
    HeldBy(f.mass, order, keeps, i, |order|) + Collected(f)
  }

  lemma {:induction false} SumOfUpdated(s: seq<nat>, i: nat, v: nat)
    requires i < |s|
    ensures SumOf(s[i := v]) + s[i] == SumOf(s) + v
  {
    var n := |s| - 1;
    if i < n {
      SumOfUpdated(s[..n], i, v);
      assert s[i := v][..n] == s[..n][i := v];
    } else {
      assert s[i := v][..n] == s[..n];
    }
  }

  lemma ExitSumWith(s: seq<(nat, nat)>, e: (nat, nat))
    ensures ExitSum(s + [e]) == ExitSum(s) + e.1
  {
    assert (s + [e])[..|s|] == s;
  }

  /** Changing the mass of a block that still holds it. */
  lemma {:induction false} HeldUpdated(mass: seq<nat>, order: seq<nat>, keeps: seq<bool>, i: nat, n: nat, p: nat, v: nat)
    requires Order(order, |mass|) && |keeps| == |order| && n <= |order| && i <= p < |order|
    ensures HeldBy(mass[order[p] := v], order, keeps, i, n) + (if p < n then mass[order[p]] else 0)
            == HeldBy(mass, order, keeps, i, n) + if p < n then v else 0
    decreases n
  {
    if n > 0 {
      HeldUpdated(mass, order, keeps, i, n - 1, p, v);
    }
  }

  /** The next block has passed its mass on. */
  lemma {:induction false} HeldNext(mass: seq<nat>, order: seq<nat>, keeps: seq<bool>, i: nat, n: nat)
    requires Order(order, |mass|) && |keeps| == |order| && n <= |order| && i < |order|
    ensures HeldBy(mass, order, keeps, i, n)
            == HeldBy(mass, order, keeps, i + 1, n) + if i < n && !keeps[i] then mass[order[i]] else 0
    decreases n
  {
    if n > 0 {
      HeldNext(mass, order, keeps, i, n - 1);
    }
  }

  lemma {:induction false} HeldAtMost(mass: seq<nat>, order: seq<nat>, keeps: seq<bool>, i: nat, n: nat, p: nat)
    requires Order(order, |mass|) && |keeps| == |order| && n <= |order| && i <= p < n
    ensures mass[order[p]] <= HeldBy(mass, order, keeps, i, n)
    decreases n
  {
    if p < n - 1 {
      HeldAtMost(mass, order, keeps, i, n - 1, p);
    }
  }

  lemma {:induction false} SumOfAtLeast(s: seq<nat>, i: nat)
    requires i < |s|
    ensures s[i] <= SumOf(s)
  {
    if i < |s| - 1 {
      SumOfAtLeast(s[..|s| - 1], i);
    }
  }

  /** A local edge leads to a later block. */
  predicate LeadsLater(w: Weight, order: seq<nat>, i: nat) {
    w.kind.Local? ==> exists p :: i < p < |order| && order[p] == w.target
  }

  predicate AllLeadLater(ws: seq<Weight>, order: seq<nat>, i: nat) {
    forall k :: 0 <= k < |ws| ==> LeadsLater(ws[k], order, i)
  }

  /** A delivery adds just what is delivered: the sum does not reach beyond the full mass. */
  lemma DeliverAdds(f: Flow, headers: seq<nat>, inLoop: bool, w: Weight, taken: nat, order: seq<nat>, keeps: seq<bool>, i: nat)
    requires ValidFlow(f, headers) && Leads(w, |f.mass|, headers, inLoop) && LeadsLater(w, order, i)
    requires Order(order, |f.mass|) && |keeps| == |order| && Accounted(f, order, keeps, i + 1) + taken <= FULL
    ensures Accounted(Deliver(f, headers, inLoop, w, taken), order, keeps, i + 1) == Accounted(f, order, keeps, i + 1) + taken
  {
    hide SumOf, ExitSum, HeldBy, Order;
    match w.kind
    case Local =>
      var p :| i < p < |order| && order[p] == w.target;
      HeldAtMost(f.mass, order, keeps, i + 1, |order|, p);
      HeldUpdated(f.mass, order, keeps, i + 1, |order|, p, AddMass(f.mass[w.target], taken));
    case Backedge =>
      var j := Position(headers, w.target);
      SumOfAtLeast(f.backedge, j);
      SumOfUpdated(f.backedge, j, AddMass(f.backedge[j], taken));
    case Exit =>
      ExitSumWith(f.exits, (w.target, taken));
  }

  /** What the portions add, and what is left, is the mass that was there. */
  lemma {:induction false} SpreadConserves(f: Flow, headers: seq<nat>, inLoop: bool, mass: nat, total: nat, ws: seq<Weight>,
                                           order: seq<nat>, keeps: seq<bool>, i: nat)
    requires ValidFlow(f, headers) && AllLead(ws, |f.mass|, headers, inLoop) && AllLeadLater(ws, order, i)
    requires Portionable(mass, total, ws)
    requires Order(order, |f.mass|) && |keeps| == |order| && Accounted(f, order, keeps, i + 1) + mass <= FULL
    ensures Accounted(Spread(f, headers, inLoop, mass, total, ws), order, keeps, i + 1) + RemMass(mass, total, ws)
            == Accounted(f, order, keeps, i + 1) + mass
    decreases |ws|
  {
    hide Deliver, Accounted, Order, ValidFlow, LeadsLater, Leads, Portion;
    if ws != [] {
      var n := |ws| - 1;
      SpreadConserves(f, headers, inLoop, mass, total, ws[..n], order, keeps, i);
      DeliverAdds(Spread(f, headers, inLoop, mass, total, ws[..n]), headers, inLoop, ws[n],
                  NextPortion(mass, total, ws[..n], ws[n]), order, keeps, i);
    }
  }

  /** The block at position `i` has no edges, or passes its whole mass on. */
  lemma BlockConserves(f: Flow, headers: seq<nat>, inLoop: bool, total: nat, ws: seq<Weight>,
                       order: seq<nat>, keeps: seq<bool>, i: nat)
    requires i < |order| == |keeps| && Order(order, |f.mass|) && ValidFlow(f, headers) && Accounted(f, order, keeps, i) <= FULL
    requires AllLead(ws, |f.mass|, headers, inLoop) && AllLeadLater(ws, order, i)
    requires Portionable(f.mass[order[i]], total, ws) && Sum(ws) == total && (keeps[i] <==> ws == [])
    ensures Accounted(Spread(f, headers, inLoop, f.mass[order[i]], total, ws), order, keeps, i + 1) == Accounted(f, order, keeps, i)
  {
    hide Collected, HeldBy;
    HeldNext(f.mass, order, keeps, i, |order|);
    if ws != [] {
      SpreadConserves(f, headers, inLoop, f.mass[order[i]], total, ws, order, keeps, i);
      NothingRemains(f.mass[order[i]], total, ws);
    }
  }

  /** Edges in the normal form have their targets and kinds from edges that were added. */
  lemma NormalizedFrom(r: seq<Weight>, t: nat, ws: seq<Weight>, total: nat, didOverflow: bool, k: nat)
    requires Normalizes(r, t, ws, total, didOverflow) && k < |r|
    ensures exists j :: 0 <= j < |ws| && ws[j].target == r[k].target && ws[j].kind == r[k].kind
  {
    hide SaturatedSum, Shift, ShiftRightAndRound;
    var c: seq<Weight> :| Combines(c, ws) && r == NormalForm(c, total, didOverflow);
    assert EntryFor(c[k], ws);
    var j :| 0 <= j < |ws| && ws[j].target == c[k].target;
    assert r[k].target == c[k].target && r[k].kind == c[k].kind;
  }

  lemma NormalizedLeads(r: seq<Weight>, t: nat, ws: seq<Weight>, total: nat, didOverflow: bool,
                        blocks: nat, headers: seq<nat>, inLoop: bool)
    requires Normalizes(r, t, ws, total, didOverflow) && AllLead(ws, blocks, headers, inLoop)
    ensures AllLead(r, blocks, headers, inLoop)
    ensures forall order, i :: AllLeadLater(ws, order, i) ==> AllLeadLater(r, order, i)
  {
    hide Normalizes;
    forall k | 0 <= k < |r|
      ensures Leads(r[k], blocks, headers, inLoop)
      ensures forall order, i :: AllLeadLater(ws, order, i) ==> LeadsLater(r[k], order, i)
    {
      NormalizedFrom(r, t, ws, total, didOverflow, k);
      var j :| 0 <= j < |ws| && ws[j].target == r[k].target && ws[j].kind == r[k].kind;
      assert Leads(ws[j], blocks, headers, inLoop);
      forall order, i | AllLeadLater(ws, order, i) ensures LeadsLater(r[k], order, i) {
        assert LeadsLater(ws[j], order, i);
      }
    }
  }

  /** Edges that a block may have: together they do not overflow twice and their total fits. */
  ghost predicate Edges(ws: seq<Weight>) {
    PositiveAmounts(ws) && SameKinds(ws) && |ws| <= UINT32_MAX && Fits(ws) && Sum(ws) < 2 * TWO64
  }

  /** Gives every header its portion of the mass. */
  ghost function Assigned(cells: seq<nat>, mass: nat, total: nat, ws: seq<Weight>): (r: seq<nat>)
    requires Portionable(mass, total, ws) && forall k :: 0 <= k < |ws| ==> ws[k].target < |cells|
    ensures |r| == |cells| && (Masses(cells) ==> Masses(r))
    decreases |ws|
  {
    if ws == [] then cells
    else
      var n := |ws| - 1;
      Assigned(cells, mass, total, ws[..n])[ws[n].target := NextPortion(mass, total, ws[..n], ws[n])]
  }

  lemma {:induction false} AssignedElsewhere(cells: seq<nat>, mass: nat, total: nat, ws: seq<Weight>, t: nat)
    requires Portionable(mass, total, ws) && forall k :: 0 <= k < |ws| ==> ws[k].target < |cells|
    requires t < |cells| && forall k :: 0 <= k < |ws| ==> ws[k].target != t
    ensures Assigned(cells, mass, total, ws)[t] == cells[t]
    decreases |ws|
  {
    if ws != [] {
      AssignedElsewhere(cells, mass, total, ws[..|ws| - 1], t);
    }
  }

  /** Among local edges to different blocks, every target is assigned what it is given. */
  lemma AssignedIsGiven(cells: seq<nat>, mass: nat, total: nat, ws: seq<Weight>)
    requires Portionable(mass, total, ws) && DistinctTargets(ws)
    requires forall k :: 0 <= k < |ws| ==> ws[k].target < |cells| && ws[k].kind == Local
    ensures forall t :: 0 <= t < |cells| ==>
              Assigned(cells, mass, total, ws)[t]
              == if HasTarget(ws, t) then Given(mass, total, ws, Local, t) else cells[t]
  {
    hide Assigned, Given, RemMass, DistinctTargets, HasTarget;
    forall t | 0 <= t < |cells|
      ensures Assigned(cells, mass, total, ws)[t] == if HasTarget(ws, t) then Given(mass, total, ws, Local, t) else cells[t]
    {
      AssignedAt(cells, mass, total, ws, t);
    }
  }

  lemma {:induction false} AssignedAt(cells: seq<nat>, mass: nat, total: nat, ws: seq<Weight>, t: nat)
    requires Portionable(mass, total, ws) && DistinctTargets(ws)
    requires t < |cells| && forall k :: 0 <= k < |ws| ==> ws[k].target < |cells| && ws[k].kind == Local
    ensures Assigned(cells, mass, total, ws)[t] == if HasTarget(ws, t) then Given(mass, total, ws, Local, t) else cells[t]
    decreases |ws|
  {
    hide RemMass, Portion;
    if ws != [] {
      var n := |ws| - 1;
      AssignedAt(cells, mass, total, ws[..n], t);
      GivenNext(mass, total, ws, Local, t);
    }
  }

  /** The blocks hold nothing, except `p` which holds `v`. */
  lemma {:induction false} HeldFromNothing(mass: seq<nat>, order: seq<nat>, keeps: seq<bool>, n: nat)
    requires Order(order, |mass|) && |keeps| == |order| && n <= |order|
    requires forall j :: 0 <= j < |mass| ==> mass[j] == 0
    ensures HeldBy(mass, order, keeps, 0, n) == 0
    decreases n
  {
    if n > 0 {
      HeldFromNothing(mass, order, keeps, n - 1);
    }
  }

  /** What the headers are given, and what is left, is the mass that was there. */
  lemma {:induction false} AssignedHolds(cells: seq<nat>, mass: nat, total: nat, ws: seq<Weight>, order: seq<nat>, keeps: seq<bool>)
    requires Portionable(mass, total, ws) && DistinctTargets(ws) && Order(order, |cells|) && |keeps| == |order|
    requires forall j :: 0 <= j < |cells| ==> cells[j] == 0
    requires forall k :: 0 <= k < |ws| ==> ws[k].target < |cells| && ws[k].target in order
    ensures HeldBy(Assigned(cells, mass, total, ws), order, keeps, 0, |order|) + RemMass(mass, total, ws) == mass
    decreases |ws|
  {
    hide Portion, HeldBy, Order;
    if ws == [] {
      HeldFromNothing(cells, order, keeps, |order|);
    } else {
      var n := |ws| - 1;
      var t := ws[n].target;
      AssignedHolds(cells, mass, total, ws[..n], order, keeps);
      AssignedElsewhere(cells, mass, total, ws[..n], t);
      var p :| 0 <= p < |order| && order[p] == t;
      HeldUpdated(Assigned(cells, mass, total, ws[..n]), order, keeps, 0, |order|, p, NextPortion(mass, total, ws[..n], ws[n]));
    }
  }

  lemma AssignedNext(cells: seq<nat>, m: nat, total: nat, ws: seq<Weight>, k: nat)
    requires k < |ws| && forall j :: 0 <= j < |ws| ==> ws[j].target < |cells|
    requires Portionable(m, total, ws[..k + 1]) && Portionable(m, total, ws[..k]) && 0 < ws[k].amount <= total - Sum(ws[..k])
    ensures RemMass(m, total, ws[..k + 1]) == RemMass(m, total, ws[..k]) - NextPortion(m, total, ws[..k], ws[k])
    ensures Assigned(cells, m, total, ws[..k + 1])
            == Assigned(cells, m, total, ws[..k])[ws[k].target := NextPortion(m, total, ws[..k], ws[k])]
  {
    hide Sum;
    assert ws[..k + 1][..k] == ws[..k];
  }

  /** Nothing has come back or left yet. */
  lemma {:induction false} NothingCollected(s: seq<nat>)
    requires forall k :: 0 <= k < |s| ==> s[k] == 0
    ensures SumOf(s) == 0 && ExitSum([]) == 0
  {
    if s != [] {
      NothingCollected(s[..|s| - 1]);
    }
  }

  /** The blocks without edges keep their mass. */
  function Keeps(edges: seq<seq<Weight>>): seq<bool> {
    seq(|edges|, i requires 0 <= i < |edges| => edges[i] == [])
  }

  /** The edges of the block at position `i` are possible ones and lead to later blocks. */
  ghost predicate EdgesAt(edges: seq<seq<Weight>>, i: nat, order: seq<nat>, blocks: nat, headers: seq<nat>, inLoop: bool)
    requires i < |edges|
  {
    Edges(edges[i]) && AllLead(edges[i], blocks, headers, inLoop) && AllLeadLater(edges[i], order, i)
  }

  // ---- Where the mass of a whole loop goes ----

  /** The weights are a normal form of the edges, by some sum and overflow flag that are theirs. */
  ghost predicate IsNormalForm(r: seq<Weight>, t: nat, ws: seq<Weight>) {
    exists total, didOverflow :: Represents(ws, total, didOverflow) && Normalizes(r, t, ws, total, didOverflow)
  }

  /** How the first `n` blocks share out their masses. */
  ghost predicate Shared(mass: seq<nat>, order: seq<nat>, rs: seq<seq<Weight>>, ts: seq<nat>, n: nat) {
    && Order(order, |mass|) && n <= |order| && n <= |rs| && n <= |ts|
    && forall i :: 0 <= i < n ==> Portionable(mass[order[i]], ts[i], rs[i]) && Sum(rs[i]) == ts[i]
  }

  /** What the edges of one kind out of the first `n` blocks give to one block. */
  ghost function GivenByAll(mass: seq<nat>, order: seq<nat>, rs: seq<seq<Weight>>, ts: seq<nat>, n: nat,
                            kind: EdgeKind, node: nat): nat
    requires Shared(mass, order, rs, ts, n)
    decreases n
  {
    if n == 0 then 0
    else GivenByAll(mass, order, rs, ts, n - 1, kind, node) + Given(mass[order[n - 1]], ts[n - 1], rs[n - 1], kind, node)
  }

  ghost function AllLeaving(mass: seq<nat>, order: seq<nat>, rs: seq<seq<Weight>>, ts: seq<nat>, n: nat): seq<(nat, nat)>
    requires Shared(mass, order, rs, ts, n)
    decreases n
  {
    if n == 0 then []
    else AllLeaving(mass, order, rs, ts, n - 1) + Leaving(mass[order[n - 1]], ts[n - 1], rs[n - 1])
  }

  /** The masses solve the equations of the loop: a block has what it was started with and what the
      local edges to it were given, a header has got back what the backedges to it were given, and
      what the exits were given has left.  What an edge is given is a portion of the mass of the
      block it leaves. */
  ghost predicate Balanced(start: seq<nat>, f: Flow, headers: seq<nat>, order: seq<nat>, edges: seq<seq<Weight>>,
                           rs: seq<seq<Weight>>, ts: seq<nat>, n: nat)
  {
    && |start| == |f.mass| && |f.backedge| == |headers| && n <= |edges| && Shared(f.mass, order, rs, ts, n)
    && (forall i :: 0 <= i < n ==> IsNormalForm(rs[i], ts[i], edges[i]))
    && (forall t :: 0 <= t < |start| ==> f.mass[t] == start[t] + GivenByAll(f.mass, order, rs, ts, n, Local, t))
    && (forall j :: 0 <= j < |headers| ==> f.backedge[j] == GivenByAll(f.mass, order, rs, ts, n, Backedge, headers[j]))
    && f.exits == AllLeaving(f.mass, order, rs, ts, n)
  }

  /** Blocks visited before have been given nothing since. */
  lemma {:induction false} GivenBefore(mass: seq<nat>, mass': seq<nat>, order: seq<nat>, rs: seq<seq<Weight>>, ts: seq<nat>,
                                       r: seq<Weight>, t: nat, n: nat, kind: EdgeKind, node: nat)
    requires Shared(mass, order, rs, ts, n) && |mass'| == |mass| && |rs| == |ts|
    requires forall p :: 0 <= p < n ==> mass'[order[p]] == mass[order[p]]
    ensures Shared(mass', order, rs + [r], ts + [t], n)
    ensures GivenByAll(mass', order, rs + [r], ts + [t], n, kind, node) == GivenByAll(mass, order, rs, ts, n, kind, node)
    ensures AllLeaving(mass', order, rs + [r], ts + [t], n) == AllLeaving(mass, order, rs, ts, n)
    decreases n
  {
    hide Given, Leaving, Portionable, Sum;
    if n > 0 {
      GivenBefore(mass, mass', order, rs, ts, r, t, n - 1, kind, node);
    }
  }

  /** What a block that may still be given something holds, and what the block visited passes on,
      are parts of the one mass there is. */
  lemma RoomFor(f: Flow, order: seq<nat>, keeps: seq<bool>, i: nat)
    requires Order(order, |f.mass|) && i < |order| == |keeps| && !keeps[i] && Accounted(f, order, keeps, i) <= FULL
    ensures forall p :: i < p < |order| ==> f.mass[order[p]] + f.mass[order[i]] <= FULL
    ensures forall j :: 0 <= j < |f.backedge| ==> f.backedge[j] + f.mass[order[i]] <= FULL
  {
    hide HeldBy, SumOf, ExitSum;
    HeldNext(f.mass, order, keeps, i, |order|);
    forall p | i < p < |order| ensures f.mass[order[p]] + f.mass[order[i]] <= FULL {
      HeldAtMost(f.mass, order, keeps, i + 1, |order|, p);
    }
    forall j | 0 <= j < |f.backedge| ensures f.backedge[j] + f.mass[order[i]] <= FULL {
      SumOfAtLeast(f.backedge, j);
    }
  }

  /** One block passes its mass on: nothing is cut off, and blocks visited before get nothing. */
  lemma GivesExactly(f: Flow, g: Flow, headers: seq<nat>, order: seq<nat>, keeps: seq<bool>, i: nat, total: nat, ws: seq<Weight>)
    requires i < |order| == |keeps| && Order(order, |f.mass|) && ValidFlow(f, headers) && Accounted(f, order, keeps, i) <= FULL
    requires AllLeadLater(ws, order, i) && Portionable(f.mass[order[i]], total, ws) && (keeps[i] <==> ws == [])
    requires Gives(f, g, headers, f.mass[order[i]], total, ws)
    ensures forall t :: 0 <= t < |f.mass| ==> g.mass[t] == f.mass[t] + Given(f.mass[order[i]], total, ws, Local, t)
    ensures forall j :: 0 <= j < |headers| ==> g.backedge[j] == f.backedge[j] + Given(f.mass[order[i]], total, ws, Backedge, headers[j])
    ensures forall p :: 0 <= p <= i ==> g.mass[order[p]] == f.mass[order[p]]
  {
    hide Accounted, Given, Leaving, Portionable, LeadsLater;
    if !keeps[i] { RoomFor(f, order, keeps, i); }
    forall t | 0 <= t < |f.mass|
      ensures g.mass[t] == f.mass[t] + Given(f.mass[order[i]], total, ws, Local, t)
      ensures Given(f.mass[order[i]], total, ws, Local, t) > 0 ==> exists p :: i < p < |order| && order[p] == t
    {
      if Given(f.mass[order[i]], total, ws, Local, t) > 0 {
        GivenLater(f.mass[order[i]], total, ws, order, i, t);
      }
    }
  }

  lemma GivenLater(mass: nat, total: nat, ws: seq<Weight>, order: seq<nat>, i: nat, t: nat)
    requires Portionable(mass, total, ws) && AllLeadLater(ws, order, i) && Given(mass, total, ws, Local, t) > 0
    ensures exists p :: i < p < |order| && order[p] == t
  {
    hide Given;
    var k :| 0 <= k < |ws| && ws[k].kind == Local && ws[k].target == t;
    assert LeadsLater(ws[k], order, i);
  }

  /** The equations with one more block visited. */
  lemma BalancedNext(start: seq<nat>, f: Flow, g: Flow, headers: seq<nat>, order: seq<nat>, edges: seq<seq<Weight>>,
                     rs: seq<seq<Weight>>, ts: seq<nat>, i: nat, r: seq<Weight>, t: nat)
    requires Balanced(start, f, headers, order, edges, rs, ts, i) && ValidFlow(f, headers) && |rs| == |ts| == i < |order| == |edges|
    requires Accounted(f, order, Keeps(edges), i) <= FULL && IsNormalForm(r, t, edges[i]) && (edges[i] == [] <==> r == [])
    requires AllLeadLater(r, order, i) && Portionable(f.mass[order[i]], t, r) && Sum(r) == t
    requires Gives(f, g, headers, f.mass[order[i]], t, r)
    ensures Balanced(start, g, headers, order, edges, rs + [r], ts + [t], i + 1)
  {
    hide Accounted, Given, Leaving, IsNormalForm, Sum, AllLeadLater, GivenByAll, AllLeaving, ValidFlow, Portionable;
    GivesExactly(f, g, headers, order, Keeps(edges), i, t, r);
    var rs', ts' := rs + [r], ts + [t];
    assert Shared(g.mass, order, rs', ts', i + 1);
    forall kind, node
      ensures GivenByAll(g.mass, order, rs', ts', i + 1, kind, node)
              == GivenByAll(f.mass, order, rs, ts, i, kind, node) + Given(f.mass[order[i]], t, r, kind, node)
      ensures AllLeaving(g.mass, order, rs', ts', i + 1)
              == AllLeaving(f.mass, order, rs, ts, i) + Leaving(f.mass[order[i]], t, r)
    {
      GivenWithNext(f.mass, g.mass, order, rs, ts, r, t, i, kind, node);
    }
    assert AllLeaving(g.mass, order, rs', ts', i + 1) == AllLeaving(f.mass, order, rs, ts, i) + Leaving(f.mass[order[i]], t, r) by {
      GivenWithNext(f.mass, g.mass, order, rs, ts, r, t, i, Local, 0);
    }
  }

  lemma GivenWithNext(mass: seq<nat>, mass': seq<nat>, order: seq<nat>, rs: seq<seq<Weight>>, ts: seq<nat>,
                      r: seq<Weight>, t: nat, n: nat, kind: EdgeKind, node: nat)
    requires Shared(mass, order, rs, ts, n) && |mass'| == |mass| && |rs| == |ts| == n < |order|
    requires forall p :: 0 <= p <= n ==> mass'[order[p]] == mass[order[p]]
    requires Portionable(mass[order[n]], t, r) && Sum(r) == t
    ensures Shared(mass', order, rs + [r], ts + [t], n + 1)
    ensures GivenByAll(mass', order, rs + [r], ts + [t], n + 1, kind, node)
            == GivenByAll(mass, order, rs, ts, n, kind, node) + Given(mass[order[n]], t, r, kind, node)
    ensures AllLeaving(mass', order, rs + [r], ts + [t], n + 1)
            == AllLeaving(mass, order, rs, ts, n) + Leaving(mass[order[n]], t, r)
  {
    hide Given, Leaving, Portionable, Sum;
    GivenBefore(mass, mass', order, rs, ts, r, t, n, kind, node);
  }

  class LoopMasses {
    const headers: seq<nat>
    const inLoop: bool
    var mass: seq<nat>
    var backedgeMass: seq<nat>
    var exits: seq<(nat, nat)>

    predicate Valid()
      reads this
    {
      ValidFlow(Flow(mass, backedgeMass, exits), headers) && Increasing(headers)
    }

    /** Nothing has any mass yet. */
    constructor (blocks: nat, headers: seq<nat>, inLoop: bool)
      requires Increasing(headers)
      ensures Valid() && this.headers == headers && this.inLoop == inLoop
      ensures mass == seq(blocks, _ => 0) && backedgeMass == seq(|headers|, _ => 0) && exits == []
    {
      this.headers, this.inLoop := headers, inLoop;
      mass, backedgeMass, exits := seq(blocks, _ => 0), seq(|headers|, _ => 0), [];
    }

    /** Searches the sorted headers. */
    method GetHeaderIndex(node: nat) returns (i: nat)
      requires Valid() && node in headers
      ensures i == Position(headers, node)
    {
      var lo, hi := 0, |headers|;
      while lo < hi
        invariant 0 <= lo <= hi <= |headers|
        invariant forall k :: 0 <= k < lo ==> headers[k] < node
        invariant forall k :: hi <= k < |headers| ==> headers[k] >= node
      {
        var mid := (lo + hi) / 2;
        if headers[mid] < node {
          lo := mid + 1;
        } else {
          hi := mid;
        }
      }
      i := lo;
      ghost var p := Position(headers, node);
      assert lo <= p < hi || headers[p] == node;
      assert i <= p && headers[i] == node;
    }

    /** Distributes the mass of a block over its edges. */
    method DistributeMass(source: nat, dist: Distribution)
      requires Valid() && source < |mass| && dist.Valid() && Edges(dist.weights)
      requires AllLead(dist.weights, |mass|, headers, inLoop)
      modifies this, dist`weights, dist`total
      ensures Normalizes(dist.weights, dist.total, old(dist.weights), old(dist.total), dist.didOverflow)
      ensures old(dist.weights) == [] <==> dist.weights == []
      ensures Valid() && AllLead(dist.weights, old(|mass|), headers, inLoop)
      ensures Portionable(old(mass[source]), dist.total, dist.weights) && Sum(dist.weights) == dist.total
      ensures Flow(mass, backedgeMass, exits)
              == Spread(old(Flow(mass, backedgeMass, exits)), headers, inLoop, old(mass[source]), dist.total, dist.weights)
      ensures Gives(old(Flow(mass, backedgeMass, exits)), Flow(mass, backedgeMass, exits), headers,
                    old(mass[source]), dist.total, dist.weights)
    {
      hide Normalizes, NormalForm, Fits, RemMass, Portion, AddMass, Represents, Sum, AllLeadLater, Gives, Spread;
      ghost var ws, total := dist.weights, dist.total;
      var d := new DitheringDistributer(dist, mass[source]);
      RepresentsWeights(dist.weights, ws, dist.total, total, dist.didOverflow);
      NormalizedLeads(dist.weights, dist.total, ws, total, dist.didOverflow, |mass|, headers, inLoop);
      SpreadGives(Flow(mass, backedgeMass, exits), headers, inLoop, d.remMass, d.remWeight, dist.weights);
      SpreadMass(d, dist.weights);
    }

    /** One portion after the other. */
    method SpreadMass(d: DitheringDistributer, weights: seq<Weight>)
      requires Valid() && AllLead(weights, |mass|, headers, inLoop)
      requires Portionable(d.remMass, d.remWeight, weights)
      modifies this, d
      ensures Valid() && Flow(mass, backedgeMass, exits)
                         == Spread(old(Flow(mass, backedgeMass, exits)), headers, inLoop, old(d.remMass), old(d.remWeight), weights)
    {
      hide RemMass, Portion, AddMass, Sum;
      ghost var blocks, f0, m, total := |mass|, Flow(mass, backedgeMass, exits), d.remMass, d.remWeight;
      SumOfNone(m, total);
      for k := 0 to |weights|
        invariant Valid() && |mass| == blocks && Portionable(m, total, weights[..k])
        invariant Sum(weights[..k]) <= total == d.remWeight + Sum(weights[..k])
        invariant d.remMass == RemMass(m, total, weights[..k])
        invariant Flow(mass, backedgeMass, exits) == Spread(f0, headers, inLoop, m, total, weights[..k])
      {
        PrefixSum(weights, k);
        SpreadNext(f0, headers, inLoop, m, total, weights, k);
        var taken := d.TakeMass(weights[k].amount);
        DeliverTo(weights[k], taken);
      }
      assert weights[..|weights|] == weights;
    }

    /** One portion, to the end of one edge. */
    method DeliverTo(w: Weight, taken: nat)
      requires Valid() && Leads(w, |mass|, headers, inLoop) && taken <= FULL
      modifies this
      ensures Valid() && Flow(mass, backedgeMass, exits)
                         == Deliver(old(Flow(mass, backedgeMass, exits)), headers, inLoop, w, taken)
    {
      hide AddMass;
      if w.kind == Local {
        mass := mass[w.target := AddMass(mass[w.target], taken)];
        return;
      }
      assert inLoop;
      if w.kind == Backedge {
        var i := GetHeaderIndex(w.target);
        backedgeMass := backedgeMass[i := AddMass(backedgeMass[i], taken)];
        return;
      }
      exits := exits + [(w.target, taken)];
    }

    /** Splits the full mass among the headers of an irreducible loop; headers without weight get
        nothing, even if none has a weight. */
    method DistributeIrrLoopHeaderMass(dist: Distribution)
      requires Valid() && dist.Valid() && Edges(dist.weights)
      requires forall k :: 0 <= k < |dist.weights| ==> dist.weights[k].kind == Local && dist.weights[k].target < |mass|
      modifies this`mass, dist`weights, dist`total
      ensures Normalizes(dist.weights, dist.total, old(dist.weights), old(dist.total), dist.didOverflow)
      ensures Portionable(FULL, dist.total, dist.weights) && Sum(dist.weights) == dist.total
      ensures (dist.weights == [] <==> old(dist.weights) == []) && DistinctTargets(dist.weights)
      ensures AllLead(dist.weights, old(|mass|), headers, inLoop)
      ensures forall k :: 0 <= k < |dist.weights| ==> dist.weights[k].kind == Local
      ensures Valid() && mass == Assigned(old(mass), FULL, dist.total, dist.weights)
      ensures forall t :: 0 <= t < |mass| ==>
                mass[t] == if HasTarget(dist.weights, t) then Given(FULL, dist.total, dist.weights, Local, t) else old(mass)[t]
    {
      hide Normalizes, NormalForm, Fits, RemMass, Portion, Sum, Given;
      ghost var ws, total := dist.weights, dist.total;
      assert AllLead(ws, |mass|, headers, false);
      var d := new DitheringDistributer(dist, FULL);
      RepresentsWeights(dist.weights, ws, dist.total, total, dist.didOverflow);
      NormalizedFits(dist.weights, dist.total, ws, total, dist.didOverflow);
      NormalizedLeads(dist.weights, dist.total, ws, total, dist.didOverflow, |mass|, headers, false);
      forall k | 0 <= k < |dist.weights| ensures dist.weights[k].kind == Local && dist.weights[k].target < |mass| {
        assert Leads(dist.weights[k], |mass|, headers, false);
      }
      ghost var cells := mass;
      AssignMass(d, dist.weights);
      AssignedIsGiven(cells, FULL, dist.total, dist.weights);
    }

    method AssignMass(d: DitheringDistributer, weights: seq<Weight>)
      requires Valid() && forall k :: 0 <= k < |weights| ==> weights[k].target < |mass|
      requires Portionable(d.remMass, d.remWeight, weights)
      modifies this`mass, d
      ensures Valid() && mass == Assigned(old(mass), old(d.remMass), old(d.remWeight), weights)
    {
      hide RemMass, Portion, Sum;
      ghost var cells, m, total := mass, d.remMass, d.remWeight;
      SumOfNone(m, total);
      for k := 0 to |weights|
        invariant Valid() && |mass| == |cells| && Portionable(m, total, weights[..k])
        invariant Sum(weights[..k]) <= total == d.remWeight + Sum(weights[..k])
        invariant d.remMass == RemMass(m, total, weights[..k])
        invariant mass == Assigned(cells, m, total, weights[..k])
      {
        PrefixSum(weights, k);
        AssignedNext(cells, m, total, weights, k);
        var taken := d.TakeMass(weights[k].amount);
        mass := mass[weights[k].target := taken];
      }
      assert weights[..|weights|] == weights;
    }

    /** Distributes the mass of a block over its edges, which are `ws`. */
    method PropagateMassToSuccessors(node: nat, ws: seq<Weight>)
      requires Valid() && node < |mass| && Edges(ws) && AllLead(ws, |mass|, headers, inLoop)
      modifies this
      ensures exists r, t, total, didOverflow ::
                && Represents(ws, total, didOverflow) && Normalizes(r, t, ws, total, didOverflow)
                && Passes(old(Flow(mass, backedgeMass, exits)), headers, inLoop, old(mass)[node], t, r, Flow(mass, backedgeMass, exits))
      ensures Valid() && |mass| == old(|mass|)
    {
      hide Normalizes, Fits, Sum, Spread, RemMass, Portion;
      var dist := new Distribution();
      var k := 0;
      while k < |ws|
        invariant 0 <= k <= |ws| && fresh(dist) && dist.Valid() && dist.weights == ws[..k]
        modifies dist
      {
        PrefixSum(ws, k);
        dist.Add(ws[k].target, ws[k].amount, ws[k].kind);
        k := k + 1;
      }
      assert ws[..|ws|] == ws;
      DistributeMass(node, dist);
    }

    /** Gives the headers the full mass and visits the blocks in order.  In the end the mass that
        has come back to the headers, the mass that has left the loop and the mass at blocks
        without edges add up to exactly the full mass again, or to nothing if there are several
        headers and none of them has a weight. */
    method ComputeMassInLoop(order: seq<nat>, edges: seq<seq<Weight>>, headerWeights: Distribution)
      requires Valid() && Order(order, |mass|) && |edges| == |order| > 0 && exits == []
      requires (forall j :: 0 <= j < |mass| ==> mass[j] == 0) && forall j :: 0 <= j < |backedgeMass| ==> backedgeMass[j] == 0
      requires forall i :: 0 <= i < |order| ==> EdgesAt(edges, i, order, |mass|, headers, inLoop)
      requires |headers| > 1 ==> headerWeights.Valid() && Edges(headerWeights.weights)
      requires forall k :: 0 <= k < |headerWeights.weights| ==>
                 headerWeights.weights[k].kind == Local && headerWeights.weights[k].target in order
      modifies this, headerWeights`weights, headerWeights`total
      ensures Valid() && Order(order, |mass|)
      ensures Accounted(Flow(mass, backedgeMass, exits), order, Keeps(edges), |order|)
              == if |headers| > 1 && old(headerWeights.weights) == [] then 0 else FULL
      ensures |headers| > 1 ==>
                && Normalizes(headerWeights.weights, headerWeights.total,
                              old(headerWeights.weights), old(headerWeights.total), headerWeights.didOverflow)
                && Portionable(FULL, headerWeights.total, headerWeights.weights)
                && Sum(headerWeights.weights) == headerWeights.total
      ensures exists start, rs, ts ::
                && Balanced(start, Flow(mass, backedgeMass, exits), headers, order, edges, rs, ts, |order|)
                && if |headers| > 1 then StartsShared(start, headerWeights.total, headerWeights.weights)
                   else StartsAt(start, order[0])
    {
      hide Accounted, HeldBy, EdgesAt, Normalizes, Represents, Assigned, Edges, Fits, Sum, Balanced, StartsShared, StartsAt;
      if |headers| > 1 {
        ShareAmongHeaders(order, edges, headerWeights);
      } else {
        ghost var cells := mass;
        mass := mass[order[0] := FULL];
        StartsFull(Flow(mass, backedgeMass, exits), order, Keeps(edges), cells);
        OneStart(cells, order[0]);
      }
      ghost var start := mass;
      ghost var rs, ts := VisitBlocks(order, edges);
      assert Balanced(start, Flow(mass, backedgeMass, exits), headers, order, edges, rs, ts, |order|);
    }

    /** Visits the blocks in order; no mass is lost. */
    method VisitBlocks(order: seq<nat>, edges: seq<seq<Weight>>) returns (ghost rs: seq<seq<Weight>>, ghost ts: seq<nat>)
      requires Valid() && Order(order, |mass|) && |edges| == |order| && exits == []
      requires forall j :: 0 <= j < |backedgeMass| ==> backedgeMass[j] == 0
      requires Accounted(Flow(mass, backedgeMass, exits), order, Keeps(edges), 0) <= FULL
      requires forall i :: 0 <= i < |order| ==> EdgesAt(edges, i, order, |mass|, headers, inLoop)
      modifies this
      ensures Valid() && |mass| == old(|mass|)
      ensures Accounted(Flow(mass, backedgeMass, exits), order, Keeps(edges), |order|)
              == old(Accounted(Flow(mass, backedgeMass, exits), order, Keeps(edges), 0))
      ensures Balanced(old(mass), Flow(mass, backedgeMass, exits), headers, order, edges, rs, ts, |order|)
    {
      hide Accounted, HeldBy, EdgesAt, Normalizes, Passes, Represents, Edges, Fits, Sum, Balanced;
      ghost var start, blocks, given := mass, |mass|, Accounted(Flow(mass, backedgeMass, exits), order, Keeps(edges), 0);
      rs, ts := [], [];
      NothingPassed(Flow(mass, backedgeMass, exits), headers, order, edges);
      for i := 0 to |order|
        invariant Valid() && |mass| == blocks && |rs| == |ts| == i
        invariant Balanced(start, Flow(mass, backedgeMass, exits), headers, order, edges, rs, ts, i)
        invariant Accounted(Flow(mass, backedgeMass, exits), order, Keeps(edges), i) == given
      {
        ghost var f := Flow(mass, backedgeMass, exits);
        assert EdgesAt(edges, i, order, blocks, headers, inLoop);
        PossibleEdges(edges, i, order, blocks, headers, inLoop);
        PropagateMassToSuccessors(order[i], edges[i]);
        ghost var r, t, total, didOverflow :|
          && Represents(edges[i], total, didOverflow) && Normalizes(r, t, edges[i], total, didOverflow)
          && Passes(f, headers, inLoop, f.mass[order[i]], t, r, Flow(mass, backedgeMass, exits));
        PassConserves(f, headers, inLoop, edges, order, i, Flow(mass, backedgeMass, exits), r, t, total, didOverflow);
        PassBalances(start, f, headers, inLoop, edges, order, rs, ts, i, Flow(mass, backedgeMass, exits), r, t, total, didOverflow);
        rs, ts := rs + [r], ts + [t];
      }
    }

    method ShareAmongHeaders(order: seq<nat>, ghost edges: seq<seq<Weight>>, headerWeights: Distribution)
      requires Valid() && Order(order, |mass|) && |edges| == |order| > 0 && exits == []
      requires (forall j :: 0 <= j < |mass| ==> mass[j] == 0) && forall j :: 0 <= j < |backedgeMass| ==> backedgeMass[j] == 0
      requires headerWeights.Valid() && Edges(headerWeights.weights)
      requires forall k :: 0 <= k < |headerWeights.weights| ==>
                 headerWeights.weights[k].kind == Local && headerWeights.weights[k].target in order
      modifies this`mass, headerWeights`weights, headerWeights`total
      ensures Valid() && |mass| == old(|mass|)
      ensures Accounted(Flow(mass, backedgeMass, exits), order, Keeps(edges), 0)
              == if old(headerWeights.weights) == [] then 0 else FULL
      ensures Normalizes(headerWeights.weights, headerWeights.total,
                         old(headerWeights.weights), old(headerWeights.total), headerWeights.didOverflow)
      ensures Portionable(FULL, headerWeights.total, headerWeights.weights)
      ensures Sum(headerWeights.weights) == headerWeights.total
      ensures StartsShared(mass, headerWeights.total, headerWeights.weights)
    {
      hide Accounted, HeldBy, Normalizes, Represents, Assigned, Sum, Fits, Given;
      ghost var cells, ws, total := mass, headerWeights.weights, headerWeights.total;
      DistributeIrrLoopHeaderMass(headerWeights);
      TargetsInOrder(headerWeights.weights, headerWeights.total, ws, total, headerWeights.didOverflow, order);
      HeadersShareAll(cells, headerWeights.total, headerWeights.weights, order, Keeps(edges));
      StartsFull(Flow(mass, backedgeMass, exits), order, Keeps(edges), cells);
    }
  }

  lemma PossibleEdges(edges: seq<seq<Weight>>, i: nat, order: seq<nat>, blocks: nat, headers: seq<nat>, inLoop: bool)
    requires i < |edges| && EdgesAt(edges, i, order, blocks, headers, inLoop)
    ensures Edges(edges[i]) && AllLead(edges[i], blocks, headers, inLoop)
  {
  }

  lemma HeadersShareAll(cells: seq<nat>, total: nat, ws: seq<Weight>, order: seq<nat>, keeps: seq<bool>)
    requires Portionable(FULL, total, ws) && DistinctTargets(ws) && Order(order, |cells|) && |keeps| == |order|
    requires Sum(ws) == total && forall j :: 0 <= j < |cells| ==> cells[j] == 0
    requires forall k :: 0 <= k < |ws| ==> ws[k].target < |cells| && ws[k].target in order
    ensures HeldBy(Assigned(cells, FULL, total, ws), order, keeps, 0, |order|) == if ws == [] then 0 else FULL
  {
    hide HeldBy, Order, Assigned, RemMass;
    AssignedHolds(cells, FULL, total, ws, order, keeps);
    if ws == [] {
      SumOfNone(FULL, total);
    } else {
      NothingRemains(FULL, total, ws);
    }
  }

  lemma TargetsInOrder(r: seq<Weight>, t: nat, ws: seq<Weight>, total: nat, didOverflow: bool, order: seq<nat>)
    requires Normalizes(r, t, ws, total, didOverflow) && forall k :: 0 <= k < |ws| ==> ws[k].target in order
    ensures forall k :: 0 <= k < |r| ==> r[k].target in order
  {
    hide Normalizes;
    forall k | 0 <= k < |r| ensures r[k].target in order {
      NormalizedFrom(r, t, ws, total, didOverflow, k);
    }
  }

  lemma PassConserves(f: Flow, headers: seq<nat>, inLoop: bool, edges: seq<seq<Weight>>, order: seq<nat>, i: nat, g: Flow,
                      r: seq<Weight>, t: nat, total: nat, didOverflow: bool)
    requires i < |order| == |edges| && Order(order, |f.mass|) && ValidFlow(f, headers)
    requires Accounted(f, order, Keeps(edges), i) <= FULL && EdgesAt(edges, i, order, |f.mass|, headers, inLoop)
    requires Represents(edges[i], total, didOverflow) && Normalizes(r, t, edges[i], total, didOverflow)
    requires Passes(f, headers, inLoop, f.mass[order[i]], t, r, g)
    ensures Order(order, |g.mass|) && Accounted(g, order, Keeps(edges), i + 1) == Accounted(f, order, Keeps(edges), i)
  {
    hide Normalizes, Accounted, Spread, Fits, AllLeadLater;
    RepresentsWeights(r, edges[i], t, total, didOverflow);
    NormalizedLeads(r, t, edges[i], total, didOverflow, |f.mass|, headers, inLoop);
    BlockConserves(f, headers, inLoop, t, r, order, Keeps(edges), i);
  }

  /** The first block starts with all the mass. */
  ghost predicate StartsAt(start: seq<nat>, first: nat) {
    forall t :: 0 <= t < |start| ==> start[t] == if t == first then FULL else 0
  }

  /** Every block starts with what the header weights give to it. */
  ghost predicate StartsShared(start: seq<nat>, total: nat, ws: seq<Weight>) {
    && Portionable(FULL, total, ws) && Sum(ws) == total
    && forall t :: 0 <= t < |start| ==> start[t] == Given(FULL, total, ws, Local, t)
  }

  lemma OneStart(cells: seq<nat>, first: nat)
    requires first < |cells| && forall j :: 0 <= j < |cells| ==> cells[j] == 0
    ensures StartsAt(cells[first := FULL], first)
  {
  }

  lemma NothingPassed(f: Flow, headers: seq<nat>, order: seq<nat>, edges: seq<seq<Weight>>)
    requires Order(order, |f.mass|) && |f.backedge| == |headers| && f.exits == []
    requires forall j :: 0 <= j < |f.backedge| ==> f.backedge[j] == 0
    ensures Balanced(f.mass, f, headers, order, edges, [], [], 0)
  {
  }

  lemma PassBalances(start: seq<nat>, f: Flow, headers: seq<nat>, inLoop: bool, edges: seq<seq<Weight>>, order: seq<nat>,
                     rs: seq<seq<Weight>>, ts: seq<nat>, i: nat, g: Flow, r: seq<Weight>, t: nat, total: nat, didOverflow: bool)
    requires i < |order| == |edges| && Order(order, |f.mass|) && ValidFlow(f, headers) && Increasing(headers)
    requires Accounted(f, order, Keeps(edges), i) <= FULL && EdgesAt(edges, i, order, |f.mass|, headers, inLoop)
    requires Represents(edges[i], total, didOverflow) && Normalizes(r, t, edges[i], total, didOverflow)
    requires Passes(f, headers, inLoop, f.mass[order[i]], t, r, g)
    requires |rs| == |ts| == i && Balanced(start, f, headers, order, edges, rs, ts, i)
    ensures Balanced(start, g, headers, order, edges, rs + [r], ts + [t], i + 1)
  {
    hide Normalizes, Accounted, Spread, Fits, AllLeadLater, Balanced, Gives, Represents, Sum;
    RepresentsWeights(r, edges[i], t, total, didOverflow);
    NormalizedLeads(r, t, edges[i], total, didOverflow, |f.mass|, headers, inLoop);
    SpreadGives(f, headers, inLoop, f.mass[order[i]], t, r);
    BalancedNext(start, f, g, headers, order, edges, rs, ts, i, r, t);
  }

  lemma StartsFull(f: Flow, order: seq<nat>, keeps: seq<bool>, cells: seq<nat>)
    requires Order(order, |f.mass|) && |keeps| == |order| > 0 && |f.mass| == |cells| && f.exits == []
    requires (forall j :: 0 <= j < |cells| ==> cells[j] == 0) && forall j :: 0 <= j < |f.backedge| ==> f.backedge[j] == 0
    ensures f.mass == cells[order[0] := FULL] ==> Accounted(f, order, keeps, 0) == FULL
    ensures Accounted(f, order, keeps, 0) == HeldBy(f.mass, order, keeps, 0, |order|)
  {
    hide HeldBy;
    NothingCollected(f.backedge);
    HeldFromNothing(cells, order, keeps, |order|);
    HeldUpdated(cells, order, keeps, 0, |order|, 0, FULL);
  }

  ghost predicate Passes(f: Flow, headers: seq<nat>, inLoop: bool, mass: nat, t: nat, r: seq<Weight>, g: Flow) {
    && ValidFlow(f, headers) && AllLead(r, |f.mass|, headers, inLoop)
    && Portionable(mass, t, r) && Sum(r) == t && g == Spread(f, headers, inLoop, mass, t, r)
  }

  lemma RepresentsWeights(r: seq<Weight>, ws: seq<Weight>, t: nat, total: nat, didOverflow: bool)
    requires Represents(ws, total, didOverflow) && Normalizes(r, t, ws, total, didOverflow)
    ensures PositiveAmounts(r) && Sum(r) == t && (ws != [] ==> r != []) && (ws == [] ==> r == [])
  {
    NormalizedFits(r, t, ws, total, didOverflow);
    if ws == [] {
      var c: seq<Weight> :| Combines(c, ws) && r == NormalForm(c, total, didOverflow);
      CombinedSum(c, ws);
    }
  }

  lemma SumOfNone(m: nat, total: nat)
    requires m <= FULL && total <= UINT32_MAX
    ensures Sum([]) == 0 && RemMass(m, total, []) == m
  {
  }

  lemma PrefixSum(ws: seq<Weight>, k: nat)
    requires k < |ws| && PositiveAmounts(ws)
    ensures Sum(ws[..k + 1]) == Sum(ws[..k]) + ws[k].amount && Sum(ws[..k + 1]) <= Sum(ws)
    ensures PositiveAmounts(ws[..k + 1]) && 0 < ws[k].amount
  {
    assert ws[..k + 1][..k] == ws[..k];
    SumOfPrefix(ws, k + 1);
  }

  lemma {:induction false} SumOfPrefix(ws: seq<Weight>, k: nat)
    requires k <= |ws|
    ensures Sum(ws[..k]) <= Sum(ws)
    decreases |ws|
  {
    if k < |ws| {
      SumOfPrefix(ws[..|ws| - 1], k);
      assert ws[..|ws| - 1][..k] == ws[..k];
    } else {
      assert ws[..k] == ws;
    }
  }

  lemma SpreadNext(f: Flow, headers: seq<nat>, inLoop: bool, m: nat, total: nat, ws: seq<Weight>, k: nat)
    requires k < |ws| && ValidFlow(f, headers) && AllLead(ws, |f.mass|, headers, inLoop)
    requires Portionable(m, total, ws[..k + 1]) && Portionable(m, total, ws[..k]) && 0 < ws[k].amount <= total - Sum(ws[..k])
    ensures RemMass(m, total, ws[..k + 1]) == RemMass(m, total, ws[..k]) - NextPortion(m, total, ws[..k], ws[k])
    ensures Spread(f, headers, inLoop, m, total, ws[..k + 1])
            == Deliver(Spread(f, headers, inLoop, m, total, ws[..k]), headers, inLoop, ws[k], NextPortion(m, total, ws[..k], ws[k]))
  {
    hide Deliver, Sum;
    assert ws[..k + 1][..k] == ws[..k];
  }
}
