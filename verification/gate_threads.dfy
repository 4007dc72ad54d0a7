/** A gate that holds worker threads until enough of them have come. */
module ThreadGate {

  /** The counters of the gate, and the threads that wait at it: workers, and releasers with the
      number of workers each waits for. */
  datatype World = World(n: nat, waitFor: nat, workers: set<nat>, releasers: map<nat, nat>)

  /** One critical section: a worker comes to the gate, or a releaser asks for workers. */
  datatype Event = Enter(thread: nat) | Release(thread: nat, num: nat)

  const OPEN: World := World(0, 0, {}, map[])

  /** A thread that waits does nothing else. */
  predicate Possible(w: World, e: Event) {
    e.thread !in w.workers && e.thread !in w.releasers
  }

  predicate Opens(w: World, e: Event) {
    match e
    case Enter(_) => w.waitFor > 0 && w.n + 1 == w.waitFor
    case Release(_, num) => w.n >= num
  }

  function Step(w: World, e: Event): World {
    if Opens(w, e) then OPEN
    else match e
      case Enter(t) => World(w.n + 1, w.waitFor, w.workers + {t}, w.releasers)
      case Release(t, num) => World(w.n, num, w.workers, w.releasers[t := num])
  }

  /** The workers that get through when the event opens the gate. */
  function FreedWorkers(w: World, e: Event): set<nat> {
    w.workers + if e.Enter? then {e.thread} else {}
  }

  /** The releasers that get through, with the numbers of workers they asked for. */
  function FreedReleasers(w: World, e: Event): map<nat, nat> {
    w.releasers + if e.Release? then map[e.thread := e.num] else map[]
  }

  // ---- The gate ----

  class WaitForThreads {
    var n: nat
    var waitFor: nat
    /** The threads that wait for the condition. */
    ghost var workers: set<nat>
    ghost var releasers: map<nat, nat>

    ghost function W(): World
      reads this
    {
      World(n, waitFor, workers, releasers)
    }

    constructor ()
      ensures W() == OPEN
    {
      n, waitFor := 0, 0;
      workers, releasers := {}, map[];
    }

    /** A worker comes; tells whether it gets through at once. */
    method Block(ghost thread: nat) returns (through: bool)
      requires Sane(W()) && Possible(W(), Enter(thread))
      modifies this
      ensures Sane(W()) && W() == Step(old(W()), Enter(thread)) && through == Opens(old(W()), Enter(thread))
    {
      CountedOnce(W(), thread);
      n := n + 1;
      assert waitFor == 0 || n <= waitFor;
      if waitFor > 0 && n == waitFor {
        UnblockThreads();
        through := true;
      } else {
        workers := workers + {thread};
        through := false;
      }
    }

    /** A releaser asks for a number of workers; tells whether it gets through at once. */
    method ReleaseThreads(ghost thread: nat, num: nat) returns (through: bool)
      requires Sane(W()) && Possible(W(), Release(thread, num))
      modifies this
      ensures Sane(W()) && W() == Step(old(W()), Release(thread, num)) && through == Opens(old(W()), Release(thread, num))
    {
      if n >= num {
        UnblockThreads();
        through := true;
      } else {
        waitFor := num;
        releasers := releasers[thread := num];
        assert releasers[thread] == waitFor;
        through := false;
      }
    }

    method UnblockThreads()
      modifies this
      ensures W() == OPEN
    {
      n := 0;
      waitFor := 0;
      workers, releasers := {}, map[];
    }
  }

  /** The counter is the number of workers that wait, and it has not reached what a releaser waits
      for. */
  predicate Sane(w: World) {
    && w.n == |w.workers| && (w.waitFor == 0 || w.n < w.waitFor) && (w.waitFor == 0 <==> w.releasers == map[])
    && (w.waitFor > 0 ==> exists r :: r in w.releasers && w.releasers[r] == w.waitFor)
  }

  lemma CountedOnce(w: World, t: nat)
    requires Sane(w) && t !in w.workers
    ensures |w.workers + {t}| == w.n + 1 && (w.waitFor == 0 || w.n + 1 <= w.waitFor)
  {
  }

  // ---- Runs ----

  /** The world after a run from an open gate. */
  function After(es: seq<Event>): World {
    if es == [] then OPEN else Step(After(es[..|es| - 1]), es[|es| - 1])
  }

  /** Every event of the run is possible when it happens. */
  predicate Legal(es: seq<Event>) {
    es != [] ==> Legal(es[..|es| - 1]) && Possible(After(es[..|es| - 1]), es[|es| - 1])
  }

  /** No releaser asks while another waits. */
  predicate OneReleaser(es: seq<Event>) {
    es != [] ==> OneReleaser(es[..|es| - 1]) && (es[|es| - 1].Release? ==> After(es[..|es| - 1]).releasers == map[])
  }

  lemma StepSane(w: World, e: Event)
    requires Sane(w) && Possible(w, e)
    ensures Sane(Step(w, e))
  {
    if !Opens(w, e) {
      match e
      case Enter(t) => CountedOnce(w, t);
      case Release(t, num) => assert Step(w, e).releasers[t] == num;
    }
  }

  /** On every run with any number of workers and releasers: the counter counts the workers that
      wait, and nobody waits for workers that are there already. */
  lemma {:induction false} AlwaysSane(es: seq<Event>)
    requires Legal(es)
    ensures Sane(After(es))
  {
    if es != [] {
      AlwaysSane(es[..|es| - 1]);
      StepSane(After(es[..|es| - 1]), es[|es| - 1]);
    }
  }

  /** Where the current round begins: after the last event that opened the gate. */
  function RoundStart(es: seq<Event>): (i: nat)
    ensures i <= |es|
  {
    if es == [] then 0
    else if Opens(After(es[..|es| - 1]), es[|es| - 1]) then |es|
    else RoundStart(es[..|es| - 1])
  }

  /** The workers that have come from the `i`-th event on. */
  ghost function Entered(es: seq<Event>, i: nat): set<nat> {
    set k | i <= k < |es| && es[k].Enter? :: es[k].thread
  }

  lemma EnteredNext(es: seq<Event>, i: nat, e: Event)
    requires i <= |es|
    ensures Entered(es + [e], i) == Entered(es, i) + if e.Enter? then {e.thread} else {}
  {
    var fs := es + [e];
    forall t | t in Entered(fs, i) ensures t in Entered(es, i) + if e.Enter? then {e.thread} else {} {
      var k :| i <= k < |fs| && fs[k].Enter? && fs[k].thread == t;
      if k < |es| { assert es[k].thread == t; }
    }
    forall t | t in Entered(es, i) ensures t in Entered(fs, i) {
      var k :| i <= k < |es| && es[k].Enter? && es[k].thread == t;
      assert fs[k].thread == t;
    }
    if e.Enter? {
      assert fs[|es|].thread == e.thread;
    }
  }

  /** The workers that wait are those that have come since the gate was last open. */
  lemma {:induction false} WaitingSinceOpened(es: seq<Event>)
    ensures After(es).workers == Entered(es, RoundStart(es))
  {
    if es != [] {
      var p, e := es[..|es| - 1], es[|es| - 1];
      assert es == p + [e];
      WaitingSinceOpened(p);
      EnteredNext(p, RoundStart(p), e);
    }
  }

  /** Opening the gate frees exactly the workers that have come since it was last open. */
  lemma OpeningFreesTheRound(es: seq<Event>, e: Event)
    requires Legal(es + [e]) && Opens(After(es), e)
    ensures FreedWorkers(After(es), e) == Entered(es + [e], RoundStart(es))
    ensures After(es + [e]) == OPEN
  {
    assert (es + [e])[..|es|] == es;
    WaitingSinceOpened(es);
    EnteredNext(es, RoundStart(es), e);
  }

  lemma {:induction false} AtMostOne(es: seq<Event>)
    requires Legal(es) && OneReleaser(es)
    ensures forall r :: r in After(es).releasers ==> After(es).releasers == map[r := After(es).waitFor]
  {
    if es != [] {
      AtMostOne(es[..|es| - 1]);
    }
  }

  /** With one releaser at a time nobody gets through, on any run, before as many workers of the
      round have come as the releaser of the round asked for; and there is such a releaser. */
  lemma NobodyPassesEarly(es: seq<Event>, e: Event)
    requires Legal(es + [e]) && OneReleaser(es + [e]) && Opens(After(es), e)
    ensures FreedReleasers(After(es), e) != map[]
    ensures forall r :: r in FreedReleasers(After(es), e) ==>
              FreedReleasers(After(es), e)[r] <= |Entered(es + [e], RoundStart(es))|
  {
    assert (es + [e])[..|es|] == es;
    var w := After(es);
    AlwaysSane(es);
    AtMostOne(es);
    OpeningFreesTheRound(es, e);
    match e {
      case Enter(t) =>
        CountedOnce(w, t);
        assert FreedReleasers(w, e) == w.releasers;
      case Release(t, num) =>
        assert FreedReleasers(w, e)[t] == num;
        assert FreedWorkers(w, e) == w.workers;
    }
  }

  /** Nobody is left waiting although enough workers are there. */
  lemma NoLostWakeup(es: seq<Event>, r: nat)
    requires Legal(es) && OneReleaser(es) && r in After(es).releasers
    ensures |After(es).workers| < After(es).releasers[r]
  {
    AlwaysSane(es);
    AtMostOne(es);
  }

  /** Nothing but workers come. */
  predicate OnlyWorkers(es: seq<Event>) {
    forall k :: 0 <= k < |es| ==> es[k].Enter?
  }

  /** A releaser that waits gets through just when the last worker that is missing comes. */
  lemma {:induction false} GateOpensInTime(es: seq<Event>, more: seq<Event>)
    requires Legal(es) && After(es).waitFor > 0 && OnlyWorkers(more) && Legal(es + more)
    requires |more| <= After(es).waitFor - After(es).n
    ensures |more| < After(es).waitFor - After(es).n ==>
              After(es + more).n == After(es).n + |more| && After(es + more).waitFor == After(es).waitFor
    ensures more != [] && |more| == After(es).waitFor - After(es).n ==> Opens(After(es + more[..|more| - 1]), more[|more| - 1])
    decreases |more|
  {
    AlwaysSane(es);
    if more == [] {
      assert es + more == es;
    } else {
      var k := |more| - 1;
      assert (es + more)[..|es + more| - 1] == es + more[..k];
      GateOpensInTime(es, more[..k]);
    }
  }

  // ---- Any number of releasers ----

  /** What the releaser that asked last has asked for. */
  function LastRequest(es: seq<Event>): nat {
    if es == [] then 0 else if es[|es| - 1].Release? then es[|es| - 1].num else LastRequest(es[..|es| - 1])
  }

  /** The gate goes by the last request only. */
  lemma {:induction false} WaitsForLastRequest(es: seq<Event>)
    ensures After(es).waitFor > 0 ==> After(es).waitFor == LastRequest(es)
  {
    if es != [] {
      WaitsForLastRequest(es[..|es| - 1]);
    }
  }

  /** On every run, with any number of releasers waiting: the event that opens the gate frees enough
      workers for all of them if and only if the last request is as large as any of theirs. */
  lemma EnoughForAllIff(es: seq<Event>, e: Event)
    requires Legal(es + [e]) && Opens(After(es), e)
    ensures (forall r :: r in After(es).releasers ==> After(es).releasers[r] <= |FreedWorkers(After(es), e)|)
            <==> (forall r :: r in After(es).releasers ==> After(es).releasers[r] <= LastRequest(es + [e]))
  {
    assert (es + [e])[..|es|] == es;
    var w := After(es);
    AlwaysSane(es);
    WaitsForLastRequest(es);
    match e {
      case Enter(t) => CountedOnce(w, t);
      case Release(_, num) =>
        assert FreedWorkers(w, e) == w.workers;
        if w.releasers != map[] {
          SomeoneAskedForMore(w);
        }
    }
  }

  /** While anybody waits, somebody waits for more workers than there are. */
  lemma SomeoneAskedForMore(w: World)
    requires Sane(w) && w.releasers != map[]
    ensures exists r :: r in w.releasers && w.releasers[r] > |w.workers|
  {
    var r :| r in w.releasers && w.releasers[r] == w.waitFor;
  }

  // ---- Two releasers ----

  /** The worker that is the last one missing frees itself and all that wait. */
  lemma LastWorkerOpens(fs: seq<Event>, more: seq<Event>)
    requires Legal(fs) && After(fs).releasers.Keys != {} && Sane(After(fs)) && OnlyWorkers(more) && Legal(fs + more)
    requires |more| == After(fs).waitFor - After(fs).n > 0
    ensures |FreedWorkers(After(fs + more[..|more| - 1]), more[|more| - 1])| == After(fs).waitFor
  {
    hide After;
    GateOpensInTime(fs, more);
    var k := |more| - 1;
    assert (fs + more)[..|fs + more| - 1] == fs + more[..k];
    GateOpensInTime(fs, more[..k]);
    AlwaysSane(fs + more[..k]);
    CountedOnce(After(fs + more[..k]), more[k].thread);
  }

  /** When a second releaser asks while a first one waits, the gate next opens with enough workers
      for the first if and only if the second asks for at least as many. */
  lemma SecondReleaserIff(es: seq<Event>, first: nat, second: nat, num: nat, more: seq<Event>)
    requires Legal(es) && OneReleaser(es) && first in After(es).releasers && Possible(After(es), Release(second, num))
    requires var fs := es + [Release(second, num)];
             if Opens(After(es), Release(second, num)) then more == []
             else OnlyWorkers(more) && Legal(fs + more) && |more| == After(fs).waitFor - After(fs).n
    ensures var freed := if more == [] then |After(es).workers| else |FreedWorkers(After(es + [Release(second, num)] + more[..|more| - 1]), more[|more| - 1])|;
            After(es).releasers[first] <= freed <==> After(es).releasers[first] <= num
  {
    var w, e := After(es), Release(second, num);
    var fs := es + [e];
    assert fs[..|es|] == es;
    AlwaysSane(es);
    AtMostOne(es);
    if !Opens(w, e) {
      AlwaysSane(fs);
      LastWorkerOpens(fs, more);
    }
  }

  /** A releaser that asked for three workers gets through when there is only one. */
  lemma SecondReleaserCounterexample()
    ensures var es := [Release(0, 3), Enter(1), Release(2, 1)];
            && Legal(es) && Opens(After(es[..2]), es[2])
            && FreedReleasers(After(es[..2]), es[2])[0] == 3 && FreedWorkers(After(es[..2]), es[2]) == {1}
  {
    var es := [Release(0, 3), Enter(1), Release(2, 1)];
    assert es[..2][..1] == [Release(0, 3)] && es[..2][..1][..0] == [];
    assert After(es[..2][..1]) == World(0, 3, {}, map[0 := 3]);
    assert After(es[..2]) == World(1, 3, {1}, map[0 := 3]);
    assert Legal(es[..2][..1]) && Legal(es[..2]);
  }
}
