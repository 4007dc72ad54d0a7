/** The compiled program means what the text means, with and without bounds checks. */
module BrainFTheorems {
  import opened BrainFLanguage
  import opened BrainFTokens
  import opened BrainFIR
  import opened BrainFCodegen
  import opened BrainFSimulation

  /** The graph, booted on this input, returns in the world and with the head of machine `r`. */
  ghost predicate Returns(f: Graph, head: Reg, bounds: Bounds, boot: Config, r: Machine) {
    exists k: nat :: ReturnsAfter(f, head, bounds, boot, r, k)
  }

  predicate ReturnsAfter(f: Graph, head: Reg, bounds: Bounds, boot: Config, r: Machine, k: nat) {
    var d := Run(f, bounds, k, boot);
    d.Returned? && d.w == WorldOf(r) && head in d.env && d.env[head] == r.head
  }

  /** The machine after the error block has spoken. */
  function WithError(m: Machine): Machine {
    m.(output := m.output + [Puts(ABERRORMSG)])
  }

  /** The graph returns after passing through the error block, from machine `m`. */
  ghost predicate ReturnsError(f: Graph, bounds: Bounds, boot: Config, m: Machine) {
    exists k: nat :: ErrorAfter(f, bounds, boot, m, k)
  }

  predicate ErrorAfter(f: Graph, bounds: Bounds, boot: Config, m: Machine, k: nat) {
    var d := Run(f, bounds, k, boot);
    d.Returned? && d.w == WorldOf(WithError(m))
  }

  // ---- Beginning and end ----

  lemma {:induction false} FillZeros(tape: map<int, int>, n: nat)
    ensures forall a :: 0 <= a < n ==> a in Fill(tape, 0, 0, n) && Fill(tape, 0, 0, n)[a] == 0
    ensures forall a :: !(0 <= a < n) ==> (a in Fill(tape, 0, 0, n) <==> a in tape)
    ensures forall a :: !(0 <= a < n) && a in tape ==> Fill(tape, 0, 0, n)[a] == tape[a]
    ensures forall a :: 0 <= a < n <==> a in ZeroTape(n)
    ensures forall a :: a in ZeroTape(n) ==> ZeroTape(n)[a] == 0
  {
    if n > 0 {
      FillZeros(tape, n - 1);
    }
  }

  /** Whatever the allocated memory held, the tape the program begins with is zero. */
  lemma CleanTape(garbage: map<int, int>, memory: nat)
    requires forall a :: a in garbage ==> 0 <= a < memory
    ensures Fill(garbage, 0, 0, memory) == ZeroTape(memory)
  {
    FillZeros(garbage, memory);
    var filled, zero := Fill(garbage, 0, 0, memory), ZeroTape(memory);
    assert forall a :: a in filled <==> a in zero;
    assert forall a :: a in zero ==> filled[a] == zero[a];
  }

  /** The entry block sets up the tape. */
  lemma {:induction false} Boots(f: Graph, memory: nat, checked: bool, garbage: map<int, int>, input: seq<int>)
    returns (k: nat)
    requires |f| > 0 && Header(memory, checked).graph[0].instrs <= f[0].instrs
    requires forall a :: a in garbage ==> 0 <= a < memory
    ensures InCode(Header(memory, checked), memory, checked, Start(memory, input),
                   Run(f, BoundsOf(memory, checked), k, Boot(garbage, input)))
  {
    hide Run, Step, HasCode, Fill, ZeroTape;
    var bounds, c := BoundsOf(memory, checked), Boot(garbage, input);
    var code := Header(memory, checked).graph[0].instrs;
    assert HasCode(f, c, code) by { EntryCode(f, c, code); }
    CleanTape(garbage, memory);
    RunThree(f, bounds, c);
    StepOver(f, bounds, c, code);
    var c1 := Step(f, bounds, c);
    StepOver(f, bounds, c1, code[1..]);
    var c2 := Step(f, bounds, c1);
    StepOver(f, bounds, c2, code[1..][1..]);
    k := 3;
    if checked {
      var c3 := Step(f, bounds, c2);
      StepOver(f, bounds, c3, code[1..][1..][1..]);
      RunOne(f, bounds, c3);
      RunAdds(f, bounds, 3, 1, c);
      k := 4;
    }
  }

  lemma EntryCode(f: Graph, c: Config, code: seq<Instr>)
    requires c.Running? && c.block == c.index == 0 && |f| > 0 && code <= f[0].instrs
    ensures HasCode(f, c, code)
  {
  }

  /** From the end of the code: branch, free, return. */
  lemma {:induction false} Ends(f: Graph, bounds: Bounds, c: Config)
    requires HasCode(f, c, [Br(ENDBB)]) && c.Running? && ARR in c.env
    requires |f| > 1 && f[ENDBB] == Block([], [CallFree(ARR), Ret])
    ensures Run(f, bounds, 3, c) == Returned(c.env, c.w)
  {
    hide Run, Step, HasCode, Jump;
    RunThree(f, bounds, c);
    StepOver(f, bounds, c, [Br(ENDBB)]);
    JumpNoPhi(f, c, ENDBB);
    var c1 := Step(f, bounds, c);
    assert HasCode(f, c1, [CallFree(ARR), Ret]) by { WholeBlock(f, c1, [CallFree(ARR), Ret]); }
    StepOver(f, bounds, c1, [CallFree(ARR), Ret]);
    var c2 := Step(f, bounds, c1);
    StepOver(f, bounds, c2, [CallFree(ARR), Ret][1..]);
  }

  lemma {:induction false} ErrorEnds(f: Graph, bounds: Bounds, m: Machine, c: Config)
    requires |f| > 2 && f[ENDBB] == Block([], [CallFree(ARR), Ret])
    requires f[ABERRORBB] == Block([], [CallPuts(ABERRORMSG), Br(ENDBB)]) && InError(m, c)
    ensures Run(f, bounds, 4, c) == Returned(c.env, WorldOf(WithError(m)))
  {
    hide Run, Step, HasCode, Jump;
    var code := [CallPuts(ABERRORMSG), Br(ENDBB)];
    RunOne(f, bounds, c);
    RunAdds(f, bounds, 1, 3, c);
    assert HasCode(f, c, code) by { WholeBlock(f, c, code); }
    StepOver(f, bounds, c, code);
    assert code[1..] == [Br(ENDBB)];
    Ends(f, bounds, Step(f, bounds, c));
  }

  /** When the tokens are used up, the graph returns. */
  lemma {:induction false} HaltReturns(ts: seq<Token>, memory: nat, checked: bool, f: Graph, s: TokPoint, c: Config)
    returns (k: nat)
    requires Built(ts, memory, checked, f) && s.pc <= |ts| && Halted(ts, s) && Tracks(ts, memory, checked, s, c)
    requires s.lost ==> checked
    ensures if s.lost then ErrorAfter(f, BoundsOf(memory, checked), c, s.m, k)
            else ReturnsAfter(f, GenAt(ts, memory, checked, |ts|).head, BoundsOf(memory, checked), c, s.m, k)
  {
    hide Shape, GrowsTo, Emit, Nesting, Run;
    var bounds := BoundsOf(memory, checked);
    FixedBlocks(ts, memory, checked, f);
    if s.lost {
      ErrorEnds(f, bounds, s.m, c);
      k := 4;
    } else {
      var g := GenAt(ts, memory, checked, |ts|);
      BuiltGrows(ts, memory, checked, f, |ts|);
      FinishGrows(g, checked);
      Ends(f, bounds, c);
      k := 3;
    }
  }

  /** Nothing but a checked move loses the tape. */
  lemma LosesOnlyChecked(ts: seq<Token>, memory: nat, checked: bool, n: nat, m: Machine)
    ensures !checked ==> !TokRun(ts, BoundsOf(memory, checked), n, TokPoint(0, m, false)).lost
  {
    if !checked {
      NeverLost(ts, n, m);
    }
  }

  // ---- Keeping pace ----

  lemma {:induction false} GraphKeepsPace(ts: seq<Token>, memory: nat, checked: bool, f: Graph,
                                          garbage: map<int, int>, input: seq<int>, n: nat)
    returns (k: nat)
    requires Built(ts, memory, checked, f) && (checked ==> memory > 0)
    requires forall a :: a in garbage ==> 0 <= a < memory
    ensures var bounds := BoundsOf(memory, checked);
            var s := TokRun(ts, bounds, n, TokPoint(0, Start(memory, input), false));
            Tracks(ts, memory, checked, s, Run(f, bounds, k, Boot(garbage, input))) && (Halted(ts, s) || k >= n)
    decreases n
  {
    hide Built, Run, TokStep, Tracks, Header, Halted;
    var bounds := BoundsOf(memory, checked);
    var start, boot := TokPoint(0, Start(memory, input), false), Boot(garbage, input);
    if n == 0 {
      FixedBlocks(ts, memory, checked, f);
      BuiltGrows(ts, memory, checked, f, 0);
      k := Boots(f, memory, checked, garbage, input);
      TracksStart(ts, memory, checked, input, Run(f, bounds, k, boot));
    } else {
      var k0 := GraphKeepsPace(ts, memory, checked, f, garbage, input, n - 1);
      var s := TokRun(ts, bounds, n - 1, start);
      if Halted(ts, s) {
        HaltedStays(ts, bounds, s);
        k := k0;
      } else {
        NotHalted(ts, s);
        var k1 := TokenIsSteps(ts, memory, checked, f, s, Run(f, bounds, k0, boot));
        RunAdds(f, bounds, k0, k1, boot);
        k := k0 + k1;
      }
    }
  }

  lemma TracksStart(ts: seq<Token>, memory: nat, checked: bool, input: seq<int>, c: Config)
    requires InCode(Header(memory, checked), memory, checked, Start(memory, input), c)
    requires checked ==> memory > 0
    ensures Tracks(ts, memory, checked, TokPoint(0, Start(memory, input), false), c)
  {
    hide Header;
  }

  lemma HaltedStays(ts: seq<Token>, bounds: Bounds, s: TokPoint)
    requires s.pc <= |ts| && Halted(ts, s)
    ensures TokStep(ts, bounds, s) == s
  {
  }

  lemma NotHalted(ts: seq<Token>, s: TokPoint)
    requires s.pc <= |ts| && !Halted(ts, s)
    ensures s.pc < |ts| && !s.lost
  {
  }

  lemma TracksRuns(ts: seq<Token>, memory: nat, checked: bool, s: TokPoint, c: Config)
    requires s.pc <= |ts| && Tracks(ts, memory, checked, s, c)
    ensures c.Running?
  {
  }

  lemma {:induction false} TokensEndGraphEnds(ts: seq<Token>, memory: nat, checked: bool, f: Graph,
                                              garbage: map<int, int>, input: seq<int>, n: nat)
    returns (k: nat)
    requires Built(ts, memory, checked, f) && (checked ==> memory > 0)
    requires forall a :: a in garbage ==> 0 <= a < memory
    requires Halted(ts, TokRun(ts, BoundsOf(memory, checked), n, TokPoint(0, Start(memory, input), false)))
    ensures var bounds := BoundsOf(memory, checked);
            var s := TokRun(ts, bounds, n, TokPoint(0, Start(memory, input), false));
            if s.lost then ErrorAfter(f, bounds, Boot(garbage, input), s.m, k)
            else ReturnsAfter(f, GenAt(ts, memory, checked, |ts|).head, bounds, Boot(garbage, input), s.m, k)
    ensures Run(f, BoundsOf(memory, checked), k, Boot(garbage, input)).Returned?
  {
    hide Built, Run, TokRun, Tracks;
    var bounds, boot := BoundsOf(memory, checked), Boot(garbage, input);
    var s := TokRun(ts, bounds, n, TokPoint(0, Start(memory, input), false));
    var k0 := GraphKeepsPace(ts, memory, checked, f, garbage, input, n);
    LosesOnlyChecked(ts, memory, checked, n, Start(memory, input));
    var k1 := HaltReturns(ts, memory, checked, f, s, Run(f, bounds, k0, boot));
    RunAdds(f, bounds, k0, k1, boot);
    k := k0 + k1;
  }

  /** If the graph has returned after `k` steps, the tokens have halted within `k` steps. */
  lemma {:induction false} GraphEndsTokensEnd(ts: seq<Token>, memory: nat, checked: bool, f: Graph,
                                              garbage: map<int, int>, input: seq<int>, k: nat)
    requires Built(ts, memory, checked, f) && (checked ==> memory > 0)
    requires forall a :: a in garbage ==> 0 <= a < memory
    requires !Run(f, BoundsOf(memory, checked), k, Boot(garbage, input)).Running?
    ensures Halted(ts, TokRun(ts, BoundsOf(memory, checked), k, TokPoint(0, Start(memory, input), false)))
  {
    hide Built, Run, TokRun, Tracks;
    var bounds, boot := BoundsOf(memory, checked), Boot(garbage, input);
    var s := TokRun(ts, bounds, k, TokPoint(0, Start(memory, input), false));
    var k0 := GraphKeepsPace(ts, memory, checked, f, garbage, input, k);
    if !Halted(ts, s) {
      TracksRuns(ts, memory, checked, s, Run(f, bounds, k0, boot));
      RunAdds(f, bounds, k, k0 - k, boot);
      RunStays(f, bounds, k0 - k, Run(f, bounds, k, boot));
    }
  }

  lemma {:induction false} SameReturn(f: Graph, bounds: Bounds, c: Config, a: nat, b: nat)
    requires !Run(f, bounds, a, c).Running? && !Run(f, bounds, b, c).Running?
    ensures Run(f, bounds, a, c) == Run(f, bounds, b, c)
  {
    if a <= b {
      RunAdds(f, bounds, a, b - a, c);
      RunStays(f, bounds, b - a, Run(f, bounds, a, c));
    } else {
      SameReturn(f, bounds, c, b, a);
    }
  }

  // ---- The theorems ----

  /** Compiler correctness.  For every text the compiler accepts, every input and whatever the
      allocated memory held: interpreting the text one character at a time ends in machine `r`
      (tape, head, rest of the input, output) exactly when the compiled graph returns with it.
      In particular one terminates exactly when the other does. */
  lemma {:induction false} CompilerCorrect(text: string, memory: nat, garbage: map<int, int>, input: seq<int>, r: Machine)
    requires forall a :: a in garbage ==> 0 <= a < memory
    requires CompileText(text, memory, false).Compiled?
    ensures var p := CompileText(text, memory, false);
            Interprets(text, Start(memory, input), r)
            <==> Returns(p.graph, p.head, NoBounds, Boot(garbage, input), r)
  {
    hide Interprets, TokRun, Run, CompileText, Lex, GenAt, Finish, Shape;
    var p, ts := CompileText(text, memory, false), Lex(text, 0);
    var f := p.graph;
    var start, boot := TokPoint(0, Start(memory, input), false), Boot(garbage, input);
    AcceptedIsBuilt(text, memory, false);
    FusionPreservesMeaning(text, Start(memory, input), r);
    if TokInterprets(ts, Start(memory, input), r) {
      var n: nat :| TokRun(ts, NoBounds, n, start) == TokPoint(|ts|, r, false);
      var k := TokensEndGraphEnds(ts, memory, false, f, garbage, input, n);
      assert ReturnsAfter(f, p.head, NoBounds, boot, r, k);
    }
    if Returns(f, p.head, NoBounds, boot, r) {
      var k: nat :| ReturnsAfter(f, p.head, NoBounds, boot, r, k);
      GraphEndsTokensEnd(ts, memory, false, f, garbage, input, k);
      NeverLost(ts, k, Start(memory, input));
      var k' := TokensEndGraphEnds(ts, memory, false, f, garbage, input, k);
      SameReturn(f, NoBounds, boot, k, k');
      assert TokRun(ts, NoBounds, k, start) == TokPoint(|ts|, r, false);
    }
  }

  lemma AcceptedIsBuilt(text: string, memory: nat, checked: bool)
    requires CompileText(text, memory, checked).Compiled?
    ensures var p, ts := CompileText(text, memory, checked), Lex(text, 0);
            Built(ts, memory, checked, p.graph) && p.head == GenAt(ts, memory, checked, |ts|).head
  {
    hide CompileText, Lex, GenAt, Finish, Shape;
    AbortsIffUnbalanced(text, memory, checked);
    LexEnd(text);
    NestingAgrees(text, |text|);
  }

  /** Safety of every run, checked or not: no register is read before it is written and control
      never leaves the graph; with bounds checks and a tape that has a cell, no load or store
      touches an address outside the tape. */
  lemma {:induction false} RunsSafely(text: string, memory: nat, checked: bool, garbage: map<int, int>, input: seq<int>, k: nat)
    requires forall a :: a in garbage ==> 0 <= a < memory
    requires CompileText(text, memory, checked).Compiled? && (checked ==> memory > 0)
    ensures var d := Run(CompileText(text, memory, checked).graph, BoundsOf(memory, checked), k, Boot(garbage, input));
            d.Running? || d.Returned?
  {
    hide TokRun, Run, CompileText, Lex, GenAt, Finish, Shape;
    var f, ts := CompileText(text, memory, checked).graph, Lex(text, 0);
    var bounds, boot := BoundsOf(memory, checked), Boot(garbage, input);
    AcceptedIsBuilt(text, memory, checked);
    if !Run(f, bounds, k, boot).Running? {
      GraphEndsTokensEnd(ts, memory, checked, f, garbage, input, k);
      var k' := TokensEndGraphEnds(ts, memory, checked, f, garbage, input, k);
      SameReturn(f, bounds, boot, k, k');
    }
  }

  /** Step `n + 1` of the unbounded run is a fused move that ends outside the tape. */
  predicate LeavesTape(ts: seq<Token>, memory: nat, m: Machine, n: nat) {
    var s := TokRun(ts, NoBounds, n, TokPoint(0, m, false));
    s.pc < |ts| && ts[s.pc].Move? && OffTape(Cells(memory), s.m.head + ts[s.pc].count)
  }

  predicate LeavesBefore(ts: seq<Token>, memory: nat, m: Machine, n: nat) {
    exists k :: 0 <= k < n && LeavesTape(ts, memory, m, k)
  }

  lemma LeavesNext(ts: seq<Token>, memory: nat, m: Machine, n: nat)
    ensures LeavesBefore(ts, memory, m, n + 1) <==> LeavesBefore(ts, memory, m, n) || LeavesTape(ts, memory, m, n)
  {
    hide LeavesTape;
  }

  /** The checked run is the unbounded run up to the first move that leaves the tape. */
  lemma {:induction false} CheckedAgrees(ts: seq<Token>, memory: nat, m: Machine, n: nat)
    ensures var s := TokRun(ts, Cells(memory), n, TokPoint(0, m, false));
            && (s.lost <==> LeavesBefore(ts, memory, m, n))
            && (!s.lost ==> s == TokRun(ts, NoBounds, n, TokPoint(0, m, false)))
    decreases n
  {
    if n > 0 {
      hide TokRun, LeavesTape, LeavesBefore;
      CheckedAgrees(ts, memory, m, n - 1);
      NextChecked(ts, memory, m, n - 1);
      LeavesNext(ts, memory, m, n - 1);
    }
  }

  lemma NextChecked(ts: seq<Token>, memory: nat, m: Machine, n: nat)
    requires var s := TokRun(ts, Cells(memory), n, TokPoint(0, m, false));
             s.lost || s == TokRun(ts, NoBounds, n, TokPoint(0, m, false))
    ensures var s, c := TokRun(ts, Cells(memory), n, TokPoint(0, m, false)), TokRun(ts, Cells(memory), n + 1, TokPoint(0, m, false));
            && (c.lost <==> s.lost || LeavesTape(ts, memory, m, n))
            && (!c.lost ==> c == TokRun(ts, NoBounds, n + 1, TokPoint(0, m, false)))
  {
    hide TokStep, OffTape;
    var s := TokRun(ts, Cells(memory), n, TokPoint(0, m, false));
    NeverLost(ts, n, m);
    if s.lost {
      LostStays(ts, Cells(memory), s);
    } else {
      CheckedStep(ts, memory, s);
    }
  }

  lemma LostStays(ts: seq<Token>, bounds: Bounds, s: TokPoint)
    requires s.pc <= |ts| && s.lost
    ensures TokStep(ts, bounds, s) == s
  {
  }

  lemma CheckedStep(ts: seq<Token>, memory: nat, s: TokPoint)
    requires s.pc <= |ts| && !s.lost
    ensures var c, u := TokStep(ts, Cells(memory), s), TokStep(ts, NoBounds, s);
            && (c.lost <==> s.pc < |ts| && ts[s.pc].Move? && OffTape(Cells(memory), s.m.head + ts[s.pc].count))
            && (!c.lost ==> c == u)
  {
    hide SkipForward, ScanBack;
  }

  /** With bounds checks, the graph goes through the error block exactly when some fused move of
      the unbounded run ends outside the tape. */
  lemma {:induction false} ErrorIffMoveLeavesTape(text: string, memory: nat, garbage: map<int, int>, input: seq<int>)
    requires forall a :: a in garbage ==> 0 <= a < memory
    requires CompileText(text, memory, true).Compiled? && memory > 0
    ensures (exists m :: ReturnsError(CompileText(text, memory, true).graph, Cells(memory), Boot(garbage, input), m))
            <==> exists n: nat :: LeavesTape(Lex(text, 0), memory, Start(memory, input), n)
  {
    hide TokRun, Run, CompileText, Lex, GenAt, Finish, Shape;
    var f, ts := CompileText(text, memory, true).graph, Lex(text, 0);
    var m0, boot := Start(memory, input), Boot(garbage, input);
    AcceptedIsBuilt(text, memory, true);
    if exists n: nat :: LeavesTape(ts, memory, m0, n) {
      var n: nat :| LeavesTape(ts, memory, m0, n);
      CheckedAgrees(ts, memory, m0, n + 1);
      var s := TokRun(ts, Cells(memory), n + 1, TokPoint(0, m0, false));
      var k := TokensEndGraphEnds(ts, memory, true, f, garbage, input, n + 1);
      assert ErrorAfter(f, Cells(memory), boot, s.m, k);
      assert ReturnsError(f, Cells(memory), boot, s.m);
    }
    if exists m :: ReturnsError(f, Cells(memory), boot, m) {
      var m :| ReturnsError(f, Cells(memory), boot, m);
      var k: nat :| ErrorAfter(f, Cells(memory), boot, m, k);
      GraphEndsTokensEnd(ts, memory, true, f, garbage, input, k);
      CheckedAgrees(ts, memory, m0, k);
      var s := TokRun(ts, Cells(memory), k, TokPoint(0, m0, false));
      var k' := TokensEndGraphEnds(ts, memory, true, f, garbage, input, k);
      SameReturn(f, Cells(memory), boot, k, k');
      OutputHasNoPuts(ts, k, m0);
      ErrorSpeaks(m, TokRun(ts, NoBounds, k, TokPoint(0, m0, false)).m.output);
    }
  }

  predicate OnlyPutChars(output: seq<Event>) {
    forall i :: 0 <= i < |output| ==> output[i].PutChar?
  }

  lemma ErrorSpeaks(m: Machine, output: seq<Event>)
    requires OnlyPutChars(output)
    ensures WithError(m).output != output
  {
    assert WithError(m).output[|m.output|] == Puts(ABERRORMSG);
  }

  lemma {:induction false} OutputHasNoPuts(ts: seq<Token>, n: nat, m: Machine)
    requires OnlyPutChars(m.output)
    ensures OnlyPutChars(TokRun(ts, NoBounds, n, TokPoint(0, m, false)).m.output)
    decreases n
  {
    if n > 0 {
      hide SkipForward, ScanBack;
      OutputHasNoPuts(ts, n - 1, m);
    }
  }

  /** With bounds checks, the graph returns normally with machine `r` exactly when the text's
      interpretation ends in `r` and no fused move on the way ended outside the tape. */
  lemma {:induction false} CheckedCompilerCorrect(text: string, memory: nat, garbage: map<int, int>, input: seq<int>, r: Machine)
    requires forall a :: a in garbage ==> 0 <= a < memory
    requires CompileText(text, memory, true).Compiled? && memory > 0 && OnlyPutChars(r.output)
    ensures var p := CompileText(text, memory, true);
            Returns(p.graph, p.head, Cells(memory), Boot(garbage, input), r)
            <==> Interprets(text, Start(memory, input), r)
                 && forall n: nat :: !LeavesTape(Lex(text, 0), memory, Start(memory, input), n)
  {
    hide Interprets, TokRun, Run, CompileText, Lex, GenAt, Finish, Shape, LeavesTape;
    var p, ts := CompileText(text, memory, true), Lex(text, 0);
    var f, m0 := p.graph, Start(memory, input);
    var start, boot := TokPoint(0, m0, false), Boot(garbage, input);
    AcceptedIsBuilt(text, memory, true);
    FusionPreservesMeaning(text, m0, r);
    if TokInterprets(ts, m0, r) && forall n: nat :: !LeavesTape(ts, memory, m0, n) {
      var n: nat :| TokRun(ts, NoBounds, n, start) == TokPoint(|ts|, r, false);
      CheckedAgrees(ts, memory, m0, n);
      var k := TokensEndGraphEnds(ts, memory, true, f, garbage, input, n);
      assert ReturnsAfter(f, p.head, Cells(memory), boot, r, k);
    }
    if Returns(f, p.head, Cells(memory), boot, r) {
      var k: nat :| ReturnsAfter(f, p.head, Cells(memory), boot, r, k);
      GraphEndsTokensEnd(ts, memory, true, f, garbage, input, k);
      var s := TokRun(ts, Cells(memory), k, start);
      var k' := TokensEndGraphEnds(ts, memory, true, f, garbage, input, k);
      SameReturn(f, Cells(memory), boot, k, k');
      ErrorSpeaks(s.m, r.output);
      CheckedAgrees(ts, memory, m0, k);
      assert TokRun(ts, NoBounds, k, start) == TokPoint(|ts|, r, false);
      forall n: nat ensures !LeavesTape(ts, memory, m0, n) {
        NeverLeavesAfterEnd(ts, memory, m0, k, n);
      }
    }
  }

  lemma {:induction false} NeverLeavesAfterEnd(ts: seq<Token>, memory: nat, m: Machine, k: nat, n: nat)
    requires !TokRun(ts, Cells(memory), k, TokPoint(0, m, false)).lost
    requires TokRun(ts, Cells(memory), k, TokPoint(0, m, false)).pc == |ts|
    ensures !LeavesTape(ts, memory, m, n)
  {
    CheckedAgrees(ts, memory, m, k);
    if n >= k {
      TokRunStays(ts, NoBounds, k, n, TokPoint(0, m, false));
    }
  }
}
