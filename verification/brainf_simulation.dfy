/** Running the generated graph and running the tokens go hand in hand. */
module BrainFSimulation {
  import opened BrainFLanguage
  import opened BrainFTokens
  import opened BrainFIR
  import opened BrainFCodegen

  function BoundsOf(memory: nat, checked: bool): Bounds {
    if checked then Cells(memory) else NoBounds
  }

  function WorldOf(m: Machine): World {
    World(m.tape, m.input, m.output)
  }

  /** The tape pointers and the head are where the generated code expects them. */
  predicate Regs(env: Env, head: Reg, value: int, memory: nat, checked: bool) {
    && ARR in env && env[ARR] == 0
    && (checked ==> ARRMAX in env && env[ARRMAX] == memory)
    && head in env && env[head] == value
  }

  /** Execution has reached the place where the next token's code begins. */
  predicate InCode(g: Gen, memory: nat, checked: bool, m: Machine, c: Config) {
    && c.Running? && c.block == g.bb && g.bb < |g.graph| && c.index == |g.graph[g.bb].instrs|
    && c.w == WorldOf(m) && Regs(c.env, g.head, m.head, memory, checked)
  }

  /** Execution has reached, from the end of the body, the test of the loop that `[` begins. */
  predicate InTest(g: Gen, memory: nat, checked: bool, m: Machine, c: Config) {
    && c.Running? && c.block == |g.graph| && c.index == 0
    && c.w == WorldOf(m) && Regs(c.env, g.next, m.head, memory, checked)
  }

  /** The code at the configuration's place. */
  predicate HasCode(f: Graph, c: Config, code: seq<Instr>) {
    && c.Running? && c.block < |f| && c.index + |code| <= |f[c.block].instrs|
    && f[c.block].instrs[c.index..c.index + |code|] == code
  }

  lemma PrefixHasCode(f: Graph, g: Gen, t: Token, memory: nat, checked: bool, m: Machine, c: Config)
    requires InCode(g, memory, checked, m, c) && g.bb < |f|
    requires g.graph[g.bb].instrs + Code(g, t, checked) <= f[g.bb].instrs
    ensures HasCode(f, c, Code(g, t, checked))
  {
    hide Code;
    var code := Code(g, t, checked);
    var all := g.graph[g.bb].instrs + code;
    assert f[g.bb].instrs[..|all|] == all;
    assert f[g.bb].instrs[c.index..c.index + |code|] == all[c.index..];
  }

  /** The first instruction of the code at hand is the one executed, and the rest of the code
      is next. */
  lemma StepOver(f: Graph, bounds: Bounds, c: Config, code: seq<Instr>)
    requires HasCode(f, c, code) && |code| > 0 && Uses(code[0]) <= c.env.Keys
    ensures Step(f, bounds, c) == Execute(f, bounds, code[0], c)
    ensures var d := Execute(f, bounds, code[0], c);
            d.Running? && d.block == c.block && d.index == c.index + 1 ==> HasCode(f, d, code[1..])
  {
    hide Execute, Uses;
    var all := f[c.block].instrs;
    assert all[c.index] == all[c.index..c.index + |code|][0] == code[0];
    assert all[c.index + 1..c.index + |code|] == all[c.index..c.index + |code|][1..];
  }

  lemma RunOne(f: Graph, bounds: Bounds, c: Config)
    ensures Run(f, bounds, 1, c) == Step(f, bounds, c)
  {
    hide Step;
    assert Run(f, bounds, 0, Step(f, bounds, c)) == Step(f, bounds, c);
  }

  lemma RunThree(f: Graph, bounds: Bounds, c: Config)
    ensures Run(f, bounds, 2, c) == Step(f, bounds, Step(f, bounds, c))
    ensures Run(f, bounds, 3, c) == Step(f, bounds, Step(f, bounds, Step(f, bounds, c)))
  {
    hide Step;
    RunOne(f, bounds, Step(f, bounds, c));
    RunOne(f, bounds, Step(f, bounds, Step(f, bounds, c)));
  }

  /** Only registers from `r` on may differ. */
  predicate Keeps(before: Env, after: Env, r: Reg) {
    forall k :: k in before && k < r ==> k in after && after[k] == before[k]
  }

  /** Execution went straight on over `n` instructions to machine `m`. */
  predicate WentOn(c: Config, d: Config, n: nat, m: Machine, r: Reg)
    requires c.Running?
  {
    d.Running? && d.block == c.block && d.index == c.index + n && d.w == WorldOf(m) && Keeps(c.env, d.env, r)
  }

  /** The head of `m` is in register `head`, on the tape; `r` is free. */
  predicate Ready(bounds: Bounds, c: Config, head: Reg, r: Reg, m: Machine) {
    && c.Running? && c.w == WorldOf(m) && head in c.env && c.env[head] == m.head && head < r
    && !OffTape(bounds, m.head)
  }

  // ---- Tokens without a jump ----

  lemma RunRead(f: Graph, bounds: Bounds, c: Config, r: Reg, head: Reg, m: Machine)
    requires HasCode(f, c, [CallGetchar(r), Trunc(r + 1, r), Store(r + 1, head)])
    requires Ready(bounds, c, head, r, m)
    ensures WentOn(c, Run(f, bounds, 3, c), 3, ReadByte(m), r)
  {
    hide Run, Step, HasCode;
    RunThree(f, bounds, c);
    var code := [CallGetchar(r), Trunc(r + 1, r), Store(r + 1, head)];
    StepOver(f, bounds, c, code);
    var c1 := Step(f, bounds, c);
    StepOver(f, bounds, c1, code[1..]);
    var c2 := Step(f, bounds, c1);
    StepOver(f, bounds, c2, code[1..][1..]);
  }

  lemma RunWrite(f: Graph, bounds: Bounds, c: Config, r: Reg, head: Reg, m: Machine)
    requires HasCode(f, c, [Load(r, head), SExt(r + 1, r), CallPutchar(r + 1)])
    requires Ready(bounds, c, head, r, m)
    ensures WentOn(c, Run(f, bounds, 3, c), 3, WriteByte(m), r)
  {
    hide Run, Step, HasCode;
    RunThree(f, bounds, c);
    var code := [Load(r, head), SExt(r + 1, r), CallPutchar(r + 1)];
    StepOver(f, bounds, c, code);
    var c1 := Step(f, bounds, c);
    StepOver(f, bounds, c1, code[1..]);
    var c2 := Step(f, bounds, c1);
    StepOver(f, bounds, c2, code[1..][1..]);
  }

  lemma RunChange(f: Graph, bounds: Bounds, c: Config, r: Reg, head: Reg, n: int, m: Machine)
    requires HasCode(f, c, [Load(r, head), Add(r + 1, r, n), Store(r + 1, head)])
    requires Ready(bounds, c, head, r, m)
    ensures WentOn(c, Run(f, bounds, 3, c), 3, m.SetCell((m.Cell() + n) % 256), r)
  {
    hide Run, Step, HasCode;
    RunThree(f, bounds, c);
    var code := [Load(r, head), Add(r + 1, r, n), Store(r + 1, head)];
    StepOver(f, bounds, c, code);
    var c1 := Step(f, bounds, c);
    StepOver(f, bounds, c1, code[1..]);
    var c2 := Step(f, bounds, c1);
    StepOver(f, bounds, c2, code[1..][1..]);
  }

  lemma EmitSimple(g: Gen, t: Token, checked: bool)
    requires g.bb < |g.graph| && (t.Read? || t.Write? || t.Change? || (t.Move? && !checked))
    ensures var h := Emit(g, t, checked);
            && h.bb == g.bb && |h.graph| == |g.graph| && h.next > g.next
            && |h.graph[h.bb].instrs| == |g.graph[g.bb].instrs| + |Code(g, t, checked)|
            && h.head == if t.Move? then g.next else g.head
  {
  }

  lemma ShapeRegs(g: Gen, checked: bool)
    requires Shape(g, checked)
    ensures g.head < g.next && ARR < g.next && (checked ==> ARRMAX < g.next) && g.bb < |g.graph|
  {
  }

  /** Code that leaves the head's register alone leads to the next token's code. */
  lemma ArriveInCode(g: Gen, t: Token, memory: nat, checked: bool, m: Machine, m': Machine, c: Config, d: Config)
    requires Shape(g, checked) && InCode(g, memory, checked, m, c)
    requires t.Read? || t.Write? || t.Change?
    requires WentOn(c, d, |Code(g, t, checked)|, m', g.next) && m'.head == m.head
    ensures InCode(Emit(g, t, checked), memory, checked, m', d)
  {
    hide Shape, Emit, Code;
    EmitSimple(g, t, checked);
    ShapeRegs(g, checked);
  }

  /** One token that is no move and no bracket. */
  lemma {:induction false} SimpleToken(f: Graph, g: Gen, t: Token, memory: nat, checked: bool, m: Machine, c: Config)
    requires Shape(g, checked) && InCode(g, memory, checked, m, c)
    requires g.bb < |f| && g.graph[g.bb].instrs + Code(g, t, checked) <= f[g.bb].instrs
    requires (t.Read? || t.Write? || t.Change?) && !OffTape(BoundsOf(memory, checked), m.head)
    ensures InCode(Emit(g, t, checked), memory, checked, Apply(t, m), Run(f, BoundsOf(memory, checked), 3, c))
  {
    hide Shape, Emit, Run, HasCode, ReadByte, WriteByte, Machine.Cell;
    var bounds := BoundsOf(memory, checked);
    var d := Run(f, bounds, 3, c);
    PrefixHasCode(f, g, t, memory, checked, m, c);
    ShapeRegs(g, checked);
    ReadKeepsHead(m);
    match t {
      case Read => RunRead(f, bounds, c, g.next, g.head, m);
      case Write => RunWrite(f, bounds, c, g.next, g.head, m);
      case Change(n) => RunChange(f, bounds, c, g.next, g.head, n, m);
    }
    assert WentOn(c, d, |Code(g, t, checked)|, Apply(t, m), g.next);
    ArriveInCode(g, t, memory, checked, m, Apply(t, m), c, d);
  }

  lemma ReadKeepsHead(m: Machine)
    ensures ReadByte(m).head == m.head && WriteByte(m).head == m.head
  {
  }

  // ---- Moves ----

  lemma {:induction false} FreeMove(f: Graph, g: Gen, n: int, memory: nat, m: Machine, c: Config)
    requires Shape(g, false) && InCode(g, memory, false, m, c)
    requires g.bb < |f| && g.graph[g.bb].instrs + Code(g, Move(n), false) <= f[g.bb].instrs
    ensures InCode(Emit(g, Move(n), false), memory, false, Apply(Move(n), m), Run(f, NoBounds, 1, c))
  {
    hide Shape, Emit, Run, HasCode, Step;
    PrefixHasCode(f, g, Move(n), memory, false, m, c);
    ShapeRegs(g, false);
    StepOver(f, NoBounds, c, Code(g, Move(n), false));
    RunOne(f, NoBounds, c);
    EmitSimple(g, Move(n), false);
  }

  lemma JumpNoPhi(f: Graph, c: Config, target: nat)
    requires c.Running? && target < |f| && f[target].phis == []
    ensures Jump(f, c, target) == Running(target, 0, c.env, c.w)
  {
  }

  lemma JumpOnePhi(f: Graph, c: Config, target: nat, phi: Phi)
    requires c.Running? && target < |f| && f[target].phis == [phi]
    requires Source(phi.incoming, c.block) in c.env
    ensures Jump(f, c, target) ==
            Running(target, 0, c.env[phi.dst := c.env[Source(phi.incoming, c.block)]], c.w)
  {
    assert f[target].phis[1..] == [];
    assert EnterPhis(f[target].phis[1..], c.block, c.env) == c.env;
    assert PhisReady(f[target].phis[1..], c.block, c.env);
  }

  /** What the instructions of the comparison do. */
  lemma ExecuteTest(f: Graph, bounds: Bounds, c: Config, d: Reg, a: Reg, b: Reg, n: int)
    requires c.Running? && a in c.env && b in c.env
    ensures Uses(Gep(d, a, n)) == {a} && Uses(IcmpUGE(d, a, b)) == {a, b} && Uses(IcmpULT(d, a, b)) == {a, b}
    ensures Execute(f, bounds, Gep(d, a, n), c) == Define(c, d, c.env[a] + n)
    ensures Execute(f, bounds, IcmpUGE(d, a, b), c) == Define(c, d, FlagOf(c.env[a] >= c.env[b]))
    ensures Execute(f, bounds, IcmpULT(d, a, b), c) == Define(c, d, FlagOf(c.env[a] < c.env[b]))
  {
  }

  /** The comparison of a checked move: the three tests. */
  lemma RunBoundsTest(f: Graph, bounds: Bounds, c: Config, r: Reg, head: Reg, n: int, last: Instr, memory: nat, m: Machine)
    requires HasCode(f, c, [Gep(r, head, n), IcmpUGE(r + 1, r, ARRMAX), IcmpULT(r + 2, r, ARR),
                            Or(r + 3, r + 1, r + 2), last])
    requires c.Running? && c.w == WorldOf(m) && Regs(c.env, head, m.head, memory, true) && r > ARRMAX && r > head
    ensures var d := Run(f, bounds, 3, c);
            && d.Running? && d.w == WorldOf(m) && d.block == c.block && HasCode(f, d, [Or(r + 3, r + 1, r + 2), last])
            && Regs(d.env, r, m.head + n, memory, true)
            && r + 1 in d.env && d.env[r + 1] == FlagOf(m.head + n >= memory)
            && r + 2 in d.env && d.env[r + 2] == FlagOf(m.head + n < 0)
  {
    hide Run, Step, HasCode, Execute, Uses;
    var code := [Gep(r, head, n), IcmpUGE(r + 1, r, ARRMAX), IcmpULT(r + 2, r, ARR),
                 Or(r + 3, r + 1, r + 2), last];
    RunThree(f, bounds, c);
    ExecuteTest(f, bounds, c, r, head, head, n);
    StepOver(f, bounds, c, code);
    var c1 := Step(f, bounds, c);
    ExecuteTest(f, bounds, c1, r + 1, r, ARRMAX, n);
    StepOver(f, bounds, c1, code[1..]);
    var c2 := Step(f, bounds, c1);
    ExecuteTest(f, bounds, c2, r + 2, r, ARR, n);
    StepOver(f, bounds, c2, code[1..][1..]);
    assert code[1..][1..][1..] == [Or(r + 3, r + 1, r + 2), last];
  }

  /** The comparison of a checked move: on to the next block, or to the error block. */
  lemma RunCheckedMove(f: Graph, bounds: Bounds, c: Config, r: Reg, head: Reg, n: int, next: nat, memory: nat, m: Machine)
    requires HasCode(f, c, [Gep(r, head, n), IcmpUGE(r + 1, r, ARRMAX), IcmpULT(r + 2, r, ARR),
                            Or(r + 3, r + 1, r + 2), CondBr(r + 3, ABERRORBB, next)])
    requires c.Running? && c.w == WorldOf(m) && Regs(c.env, head, m.head, memory, true) && r > ARRMAX && r > head
    requires ABERRORBB < |f| && f[ABERRORBB].phis == [] && next < |f| && f[next].phis == []
    ensures var d := Run(f, bounds, 5, c);
            && d.Running? && d.index == 0 && d.w == WorldOf(m)
            && d.block == (if OffTape(Cells(memory), m.head + n) then ABERRORBB else next)
            && Regs(d.env, r, m.head + n, memory, true)
  {
    hide Run, Step, HasCode, Jump;
    var last := CondBr(r + 3, ABERRORBB, next);
    RunBoundsTest(f, bounds, c, r, head, n, last, memory, m);
    RunAdds(f, bounds, 3, 2, c);
    var c3 := Run(f, bounds, 3, c);
    RunThree(f, bounds, c3);
    StepOver(f, bounds, c3, [Or(r + 3, r + 1, r + 2), last]);
    var c4 := Step(f, bounds, c3);
    StepOver(f, bounds, c4, [Or(r + 3, r + 1, r + 2), last][1..]);
    JumpNoPhi(f, c4, ABERRORBB);
    JumpNoPhi(f, c4, next);
  }

  // ---- Loops ----

  /** `[`, reached from above: one branch to the test. */
  lemma {:induction false} EnterLoop(f: Graph, g: Gen, h: Gen, bounds: Bounds, memory: nat, checked: bool, m: Machine, c: Config)
    requires Shape(g, checked) && InCode(g, memory, checked, m, c)
    requires g.bb < |f| && g.graph[g.bb].instrs + Code(g, Loop, checked) <= f[g.bb].instrs
    requires |g.graph| < |f| && f[|g.graph|] == TestBlock(g, h)
    ensures InTest(g, memory, checked, m, Run(f, bounds, 1, c))
  {
    hide Shape, Emit, Run, HasCode, Step, Jump;
    PrefixHasCode(f, g, Loop, memory, checked, m, c);
    ShapeRegs(g, checked);
    StepOver(f, bounds, c, Code(g, Loop, checked));
    RunOne(f, bounds, c);
    JumpOnePhi(f, c, |g.graph|, f[|g.graph|].phis[0]);
  }

  /** `]`: one branch back to the test. */
  lemma {:induction false} RepeatLoop(f: Graph, g: Gen, h: Gen, bounds: Bounds, memory: nat, checked: bool, m: Machine, c: Config)
    requires Shape(g, checked) && Shape(h, checked) && InCode(h, memory, checked, m, c)
    requires h.bb < |f| && h.graph[h.bb].instrs + Code(h, EndLoop, checked) <= f[h.bb].instrs
    requires h.opens != [] && h.opens[|h.opens| - 1] == OpenOf(g) && g.bb != h.bb
    requires |g.graph| < |f| && f[|g.graph|] == TestBlock(g, h)
    ensures InTest(g, memory, checked, m, Run(f, bounds, 1, c))
  {
    hide Shape, Emit, Run, HasCode, Step, Jump;
    PrefixHasCode(f, h, EndLoop, memory, checked, m, c);
    ShapeRegs(g, checked);
    StepOver(f, bounds, c, Code(h, EndLoop, checked));
    RunOne(f, bounds, c);
    var inc := f[|g.graph|].phis[0].incoming;
    assert inc[1..][0] == Incoming(h.bb, h.head);
    assert Source(inc, h.bb) == Source(inc[1..], h.bb) == h.head;
    JumpOnePhi(f, c, |g.graph|, f[|g.graph|].phis[0]);
  }

  /** The test itself: on into the body, or to the block behind the loop. */
  lemma {:induction false} TestLoop(f: Graph, g: Gen, h: Gen, bounds: Bounds, memory: nat, checked: bool, m: Machine, c: Config)
    requires Shape(g, checked) && Shape(h, checked) && InTest(g, memory, checked, m, c)
    requires |g.graph| + 1 < |f| && |h.graph| < |f| && f[|g.graph|] == TestBlock(g, h)
    requires f[|g.graph| + 1].phis == [] && f[|h.graph|].phis == [Phi(h.next + 2, [Incoming(|g.graph|, g.next)])]
    requires h.next > g.next && !OffTape(bounds, m.head)
    ensures var d := Run(f, bounds, 3, c);
            && d.Running? && d.index == 0 && d.w == WorldOf(m)
            && if m.Cell() == 0 then d.block == |h.graph| && Regs(d.env, h.next + 2, m.head, memory, checked)
               else d.block == |g.graph| + 1 && Regs(d.env, g.next, m.head, memory, checked)
  {
    hide Shape, Emit, Run, HasCode, Step, Jump;
    ShapeRegs(g, checked);
    ShapeRegs(h, checked);
    RunThree(f, bounds, c);
    var code := TestBlock(g, h).instrs;
    assert HasCode(f, c, code) by { WholeBlock(f, c, code); }
    StepOver(f, bounds, c, code);
    var c1 := Step(f, bounds, c);
    StepOver(f, bounds, c1, code[1..]);
    var c2 := Step(f, bounds, c1);
    StepOver(f, bounds, c2, code[1..][1..]);
    if m.Cell() == 0 {
      JumpOnePhi(f, c2, |h.graph|, f[|h.graph|].phis[0]);
    } else {
      JumpNoPhi(f, c2, |g.graph| + 1);
    }
  }

  lemma WholeBlock(f: Graph, c: Config, code: seq<Instr>)
    requires c.Running? && c.index == 0 && c.block < |f| && f[c.block].instrs == code
    ensures HasCode(f, c, code)
  {
  }

  // ---- Whole programs ----

  /** `f` is the finished graph of the balanced tokens `ts`. */
  ghost predicate Built(ts: seq<Token>, memory: nat, checked: bool, f: Graph) {
    Nesting(TokenBrackets(ts), |ts|) == 0 && f == Finish(GenAt(ts, memory, checked, |ts|))
  }

  lemma BuiltGrows(ts: seq<Token>, memory: nat, checked: bool, f: Graph, i: nat)
    requires Built(ts, memory, checked, f) && i <= |ts|
    ensures GrowsTo(GenAt(ts, memory, checked, |ts|), f)
    ensures var g := GenAt(ts, memory, checked, i);
            && Shape(g, checked) && GrowsTo(g, f) && g.bb < |g.graph| <= |f|
            && (i < |ts| ==> g.graph[g.bb].instrs + Code(g, ts[i], checked) <= f[g.bb].instrs)
  {
    hide Shape, GrowsTo, Code, Emit;
    GenAtShape(ts, memory, checked, |ts|);
    FinishGrows(GenAt(ts, memory, checked, |ts|), checked);
    AllGrow(ts, memory, checked, i, f);
    GrowsBounds(GenAt(ts, memory, checked, i), f);
  }

  /** The fixed blocks behind the entry block. */
  lemma FixedBlocks(ts: seq<Token>, memory: nat, checked: bool, f: Graph)
    requires Built(ts, memory, checked, f)
    ensures |f| > 2 || !checked
    ensures |f| > 1 && f[ENDBB] == Block([], [CallFree(ARR), Ret])
    ensures checked ==> f[ABERRORBB] == Block([], [CallPuts(ABERRORMSG), Br(ENDBB)])
    ensures |f[0].instrs| >= |Header(memory, checked).graph[0].instrs|
    ensures Header(memory, checked).graph[0].instrs <= f[0].instrs
  {
    hide Shape, Emit, Nesting, Finish;
    BuiltGrows(ts, memory, checked, f, 0);
  }

  /** Execution is where token `i` begins, or at the test of the loop it begins. */
  ghost predicate Related(ts: seq<Token>, memory: nat, checked: bool, i: nat, m: Machine, c: Config)
    requires i <= |ts|
  {
    var g := GenAt(ts, memory, checked, i);
    InCode(g, memory, checked, m, c) || (i < |ts| && ts[i].Loop? && InTest(g, memory, checked, m, c))
  }

  /** Control is in the error block. */
  predicate InError(m: Machine, c: Config) {
    c.Running? && c.block == ABERRORBB && c.index == 0 && c.w == WorldOf(m) && ARR in c.env
  }

  /** What execution is in when the token machine is in `s`. */
  ghost predicate Tracks(ts: seq<Token>, memory: nat, checked: bool, s: TokPoint, c: Config)
    requires s.pc <= |ts|
  {
    if s.lost then InError(s.m, c)
    else Related(ts, memory, checked, s.pc, s.m, c) && !OffTape(BoundsOf(memory, checked), s.m.head)
  }

  lemma {:induction false} StepPlain(ts: seq<Token>, memory: nat, checked: bool, f: Graph, s: TokPoint, c: Config)
    returns (k: nat)
    requires Built(ts, memory, checked, f) && s.pc < |ts| && !s.lost && Tracks(ts, memory, checked, s, c)
    requires ts[s.pc].Read? || ts[s.pc].Write? || ts[s.pc].Change?
    ensures k > 0
    ensures var bounds := BoundsOf(memory, checked);
            Tracks(ts, memory, checked, TokStep(ts, bounds, s), Run(f, bounds, k, c))
  {
    hide Shape, GrowsTo, Code, Emit, Run, InCode, Built;
    BuiltGrows(ts, memory, checked, f, s.pc);
    var g := GenAt(ts, memory, checked, s.pc);
    SimpleToken(f, g, ts[s.pc], memory, checked, s.m, c);
    ReadKeepsHead(s.m);
    k := 3;
  }

  lemma {:induction false} StepMove(ts: seq<Token>, memory: nat, checked: bool, f: Graph, s: TokPoint, c: Config)
    returns (k: nat)
    requires Built(ts, memory, checked, f) && s.pc < |ts| && !s.lost && Tracks(ts, memory, checked, s, c)
    requires ts[s.pc].Move?
    ensures k > 0
    ensures var bounds := BoundsOf(memory, checked);
            Tracks(ts, memory, checked, TokStep(ts, bounds, s), Run(f, bounds, k, c))
  {
    hide Shape, GrowsTo, Emit, Run, Built;
    BuiltGrows(ts, memory, checked, f, s.pc);
    var g, n := GenAt(ts, memory, checked, s.pc), ts[s.pc].count;
    if checked {
      k := 5;
      FixedBlocks(ts, memory, checked, f);
      BuiltGrows(ts, memory, checked, f, s.pc + 1);
      var h := GenAt(ts, memory, checked, s.pc + 1);
      EmitMoves(g, n);
      GrownBlock(h, f);
      PrefixHasCode(f, g, Move(n), memory, checked, s.m, c);
      ShapeMoves(g);
      RunCheckedMove(f, Cells(memory), c, g.next, g.head, n, |g.graph|, memory, s.m);
    } else {
      k := 1;
      FreeMove(f, g, n, memory, s.m, c);
    }
  }

  lemma ShapeMoves(g: Gen)
    requires Shape(g, true)
    ensures g.next > ARRMAX && g.next > g.head
  {
  }

  lemma EmitMoves(g: Gen, n: int)
    ensures var h := Emit(g, Move(n), true);
            |h.graph| == |g.graph| + 1 && h.bb == |g.graph| && h.graph[h.bb] == Block([], []) && h.head == g.next
  {
  }

  lemma {:induction false} StepLoop(ts: seq<Token>, memory: nat, checked: bool, f: Graph, s: TokPoint, c: Config)
    returns (k: nat)
    requires Built(ts, memory, checked, f) && s.pc < |ts| && !s.lost && Tracks(ts, memory, checked, s, c)
    requires ts[s.pc].Loop?
    ensures k > 0
    ensures var bounds := BoundsOf(memory, checked);
            Tracks(ts, memory, checked, TokStep(ts, bounds, s), Run(f, bounds, k, c))
  {
    hide Shape, GrowsTo, Emit, Run, Built, Code, SkipForward, ScanBack, Nesting;
    var bounds := BoundsOf(memory, checked);
    var i, b := s.pc, TokenBrackets(ts);
    BuiltGrows(ts, memory, checked, f, i);
    LoopEnds(ts, memory, checked, f, i);
    var j := SkipForward(b, i + 1, 0) - 1;
    BuiltMatches(ts, memory, checked, f);
    LoopInGraph(ts, memory, checked, j, f);
    BuiltGrows(ts, memory, checked, f, j);
    var g, h := GenAt(ts, memory, checked, i), GenAt(ts, memory, checked, j);
    var c0 := c;
    k := 3;
    if InCode(g, memory, checked, s.m, c) {
      EnterLoop(f, g, h, bounds, memory, checked, s.m, c);
      RunAdds(f, bounds, 1, 3, c);
      c0 := Run(f, bounds, 1, c);
      k := 4;
    }
    TestLoop(f, g, h, bounds, memory, checked, s.m, c0);
    EmitOpens(g, checked);
    LoopExits(ts, memory, checked, j);
  }

  /** The place of the bracket that ends the loop of token `i`. */
  lemma LoopEnds(ts: seq<Token>, memory: nat, checked: bool, f: Graph, i: nat)
    requires Built(ts, memory, checked, f) && i < |ts| && ts[i].Loop?
    ensures var b, q := TokenBrackets(ts), SkipForward(TokenBrackets(ts), i + 1, 0);
            q > i + 1 && ts[q - 1].EndLoop? && ScanBack(b, q - 1, 0) == i
  {
    hide Shape, GrowsTo, Emit, Code, Finish;
    var b := TokenBrackets(ts);
    BuiltGrows(ts, memory, checked, f, i);
    AllGrow(ts, memory, checked, i, f);
    FindClose(b, i + 1, 0);
    assert b[i] == Opening;
    assert ScanBack(b, i + 1, 0) == i;
  }

  lemma LoopExits(ts: seq<Token>, memory: nat, checked: bool, j: nat)
    requires j < |ts| && ts[j].EndLoop? && GenAt(ts, memory, checked, j).opens != []
    ensures var h, e := GenAt(ts, memory, checked, j), GenAt(ts, memory, checked, j + 1);
            e.bb == |h.graph| && e.head == h.next + 2 && |e.graph| == |h.graph| + 1 && e.graph[e.bb].instrs == []
  {
    hide Code;
  }

  lemma {:induction false} StepEndLoop(ts: seq<Token>, memory: nat, checked: bool, f: Graph, s: TokPoint, c: Config)
    returns (k: nat)
    requires Built(ts, memory, checked, f) && s.pc < |ts| && !s.lost && Tracks(ts, memory, checked, s, c)
    requires ts[s.pc].EndLoop?
    ensures k > 0
    ensures var bounds := BoundsOf(memory, checked);
            Tracks(ts, memory, checked, TokStep(ts, bounds, s), Run(f, bounds, k, c))
  {
    hide Shape, GrowsTo, Emit, Run, Built, Code, ScanBack, Nesting;
    var i := ScanBack(TokenBrackets(ts), s.pc, 0);
    BuiltGrows(ts, memory, checked, f, s.pc);
    BuiltMatches(ts, memory, checked, f);
    LoopInGraph(ts, memory, checked, s.pc, f);
    BuiltGrows(ts, memory, checked, f, i);
    RepeatLoop(f, GenAt(ts, memory, checked, i), GenAt(ts, memory, checked, s.pc), BoundsOf(memory, checked),
               memory, checked, s.m, c);
    k := 1;
  }

  lemma BuiltMatches(ts: seq<Token>, memory: nat, checked: bool, f: Graph)
    requires Built(ts, memory, checked, f)
    ensures Nesting(TokenBrackets(ts), |ts|) == 0
  {
  }

  /** One step of the token machine is one or more steps of the graph. */
  lemma {:induction false} TokenIsSteps(ts: seq<Token>, memory: nat, checked: bool, f: Graph, s: TokPoint, c: Config)
    returns (k: nat)
    requires Built(ts, memory, checked, f) && s.pc < |ts| && !s.lost && Tracks(ts, memory, checked, s, c)
    ensures k > 0
    ensures var bounds := BoundsOf(memory, checked);
            Tracks(ts, memory, checked, TokStep(ts, bounds, s), Run(f, bounds, k, c))
  {
    hide Built, Tracks, TokStep, Run;
    match ts[s.pc]
    case Loop => k := StepLoop(ts, memory, checked, f, s, c);
    case EndLoop => k := StepEndLoop(ts, memory, checked, f, s, c);
    case Move(_) => k := StepMove(ts, memory, checked, f, s, c);
    case _ => k := StepPlain(ts, memory, checked, f, s, c);
  }
}
