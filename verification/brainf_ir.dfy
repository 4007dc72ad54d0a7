/** The part of the intermediate representation the compiler emits: blocks of instructions in
    SSA form, what executing them does, and what makes such a graph well formed.  An address is
    its distance from the beginning of the allocated tape. */
module BrainFIR {
  import opened BrainFLanguage

  type Reg = nat

  datatype Instr =
    | Malloc(dst: Reg, size: nat)
    | Memset(ptr: Reg, value: int, size: nat)
    | Gep(dst: Reg, base: Reg, offset: int)
    | CallGetchar(dst: Reg)
    | Trunc(dst: Reg, src: Reg)
    | SExt(dst: Reg, src: Reg)
    | CallPutchar(src: Reg)
    | Load(dst: Reg, ptr: Reg)
    | Store(src: Reg, ptr: Reg)
    | Add(dst: Reg, src: Reg, amount: int)
    | IcmpUGE(dst: Reg, left: Reg, right: Reg)
    | IcmpULT(dst: Reg, left: Reg, right: Reg)
    | Or(dst: Reg, left: Reg, right: Reg)
    | IcmpEqZero(dst: Reg, src: Reg)
    | CallFree(ptr: Reg)
    | CallPuts(line: string)
    | Br(target: nat)
    | CondBr(cond: Reg, yes: nat, no: nat)
    | Ret

  datatype Incoming = Incoming(block: nat, reg: Reg)
  datatype Phi = Phi(dst: Reg, incoming: seq<Incoming>)
  datatype Block = Block(phis: seq<Phi>, instrs: seq<Instr>)
  type Graph = seq<Block>

  predicate IsTerminator(i: Instr) {
    i.Br? || i.CondBr? || i.Ret?
  }

  function Targets(i: Instr): seq<nat> {
    match i
    case Br(t) => [t]
    case CondBr(_, y, n) => [y, n]
    case _ => []
  }

  function Uses(i: Instr): set<Reg> {
    match i
    case Memset(p, _, _) => {p}
    case Gep(_, b, _) => {b}
    case Trunc(_, s) => {s}
    case SExt(_, s) => {s}
    case CallPutchar(s) => {s}
    case Load(_, p) => {p}
    case Store(s, p) => {s, p}
    case Add(_, s, _) => {s}
    case IcmpUGE(_, l, r) => {l, r}
    case IcmpULT(_, l, r) => {l, r}
    case Or(_, l, r) => {l, r}
    case IcmpEqZero(_, s) => {s}
    case CallFree(p) => {p}
    case CondBr(c, _, _) => {c}
    case _ => {}
  }

  function Defines(i: Instr): set<Reg> {
    match i
    case Malloc(d, _) => {d}
    case Gep(d, _, _) => {d}
    case CallGetchar(d) => {d}
    case Trunc(d, _) => {d}
    case SExt(d, _) => {d}
    case Load(d, _) => {d}
    case Add(d, _, _) => {d}
    case IcmpUGE(d, _, _) => {d}
    case IcmpULT(d, _, _) => {d}
    case Or(d, _, _) => {d}
    case IcmpEqZero(d, _) => {d}
    case _ => {}
  }

  // ---- Execution ----

  type Env = map<Reg, int>

  /** Memory and the two ends of the program's input and output. */
  datatype World = World(tape: map<int, int>, input: seq<int>, output: seq<Event>)

  /** `Faulted`: an access outside the allocated tape.  `Undefined`: a register was read before
      it was written, or control left the graph. */
  datatype Config =
    | Running(block: nat, index: nat, env: Env, w: World)
    | Returned(env: Env, w: World)
    | Faulted
    | Undefined

  /** What memset leaves behind. */
  function Fill(tape: map<int, int>, address: int, value: int, size: nat): map<int, int> {
    if size == 0 then tape
    else Fill(tape, address, value, size - 1)[address + size - 1 := value]
  }

  /** A byte read as a signed number. */
  function Signed(byte: int): int {
    if byte % 256 < 128 then byte % 256 else byte % 256 - 256
  }

  function FlagOf(b: bool): int {
    if b then 1 else 0
  }

  /** The register a phi takes its value from when control comes from block `from`. */
  function Source(incoming: seq<Incoming>, from: nat): (r: int)
    ensures r >= -1
  {
    if incoming == [] then -1
    else if incoming[0].block == from then incoming[0].reg
    else Source(incoming[1..], from)
  }

  /** All phis of a block read the registers as they were when control left `from`. */
  function EnterPhis(phis: seq<Phi>, from: nat, env: Env): (r: Env) {
    if phis == [] then env
    else
      var s := Source(phis[0].incoming, from);
      var rest := EnterPhis(phis[1..], from, env);
      if s in env then rest[phis[0].dst := env[s]] else rest
  }

  function PhisReady(phis: seq<Phi>, from: nat, env: Env): bool {
    phis == [] || (Source(phis[0].incoming, from) in env && PhisReady(phis[1..], from, env))
  }

  function Jump(g: Graph, c: Config, target: nat): Config
    requires c.Running?
  {
    if target < |g| && PhisReady(g[target].phis, c.block, c.env)
    then Running(target, 0, EnterPhis(g[target].phis, c.block, c.env), c.w)
    else Undefined
  }

  /** The next instruction is up, with one more register written. */
  function Define(c: Config, dst: Reg, value: int): Config
    requires c.Running?
  {
    Running(c.block, c.index + 1, c.env[dst := value], c.w)
  }

  /** The next instruction is up, in a changed world. */
  function Affect(c: Config, w: World): Config
    requires c.Running?
  {
    Running(c.block, c.index + 1, c.env, w)
  }

  function Execute(g: Graph, bounds: Bounds, i: Instr, c: Config): Config
    requires c.Running? && Uses(i) <= c.env.Keys
  {
    match i
    case Malloc(d, _) => Define(c, d, 0)
    case Memset(p, v, n) => Affect(c, c.w.(tape := Fill(c.w.tape, c.env[p], v, n)))
    case Gep(d, b, off) => Define(c, d, c.env[b] + off)
    case CallGetchar(d) =>
      if c.w.input == [] then Define(c, d, -1)
      else Running(c.block, c.index + 1, c.env[d := c.w.input[0] % 256], c.w.(input := c.w.input[1..]))
    case Trunc(d, s) => Define(c, d, c.env[s] % 256)
    case SExt(d, s) => Define(c, d, Signed(c.env[s]))
    case CallPutchar(s) => Affect(c, c.w.(output := c.w.output + [PutChar(c.env[s] % 256)]))
    case Load(d, p) => if OffTape(bounds, c.env[p]) then Faulted else Define(c, d, CellAt(c.w.tape, c.env[p]))
    case Store(s, p) =>
      if OffTape(bounds, c.env[p]) then Faulted
      else Affect(c, c.w.(tape := c.w.tape[c.env[p] := c.env[s]]))
    case Add(d, s, n) => Define(c, d, (c.env[s] + n) % 256)
    case IcmpUGE(d, l, r) => Define(c, d, FlagOf(c.env[l] >= c.env[r]))
    case IcmpULT(d, l, r) => Define(c, d, FlagOf(c.env[l] < c.env[r]))
    case Or(d, l, r) => Define(c, d, FlagOf(c.env[l] != 0 || c.env[r] != 0))
    case IcmpEqZero(d, s) => Define(c, d, FlagOf(c.env[s] == 0))
    case CallFree(_) => Affect(c, c.w)
    case CallPuts(line) => Affect(c, c.w.(output := c.w.output + [Puts(line)]))
    case Br(t) => Jump(g, c, t)
    case CondBr(b, y, n) => Jump(g, c, if c.env[b] != 0 then y else n)
    case Ret => Returned(c.env, c.w)
  }

  function Step(g: Graph, bounds: Bounds, c: Config): Config {
    if !c.Running? then c
    else if c.block < |g| && c.index < |g[c.block].instrs| && Uses(g[c.block].instrs[c.index]) <= c.env.Keys
    then Execute(g, bounds, g[c.block].instrs[c.index], c)
    else Undefined
  }

  function Run(g: Graph, bounds: Bounds, n: nat, c: Config): Config {
    if n == 0 then c else Run(g, bounds, n - 1, Step(g, bounds, c))
  }

  lemma {:induction false} RunAdds(g: Graph, bounds: Bounds, a: nat, b: nat, c: Config)
    ensures Run(g, bounds, a + b, c) == Run(g, bounds, b, Run(g, bounds, a, c))
    decreases a
  {
    hide Step;
    if a > 0 {
      RunAdds(g, bounds, a - 1, b, Step(g, bounds, c));
    }
  }

  lemma {:induction false} RunStays(g: Graph, bounds: Bounds, n: nat, c: Config)
    requires !c.Running?
    ensures Run(g, bounds, n, c) == c
    decreases n
  {
    if n > 0 {
      RunStays(g, bounds, n - 1, c);
    }
  }

  /** Execution starts in block 0 with no register written and whatever the allocated memory
      happens to hold. */
  function Boot(garbage: map<int, int>, input: seq<int>): Config {
    Running(0, 0, map[], World(garbage, input, []))
  }

  // ---- Well-formed graphs ----

  /** One terminator, at the end. */
  predicate OneTerminator(b: Block) {
    && b.instrs != []
    && forall k :: 0 <= k < |b.instrs| ==> (IsTerminator(b.instrs[k]) <==> k == |b.instrs| - 1)
  }

  predicate Edge(g: Graph, from: nat, to: nat) {
    from < |g| && exists k :: 0 <= k < |g[from].instrs| && to in Targets(g[from].instrs[k])
  }

  /** Exactly one entry per predecessor. */
  ghost predicate PhiMatches(g: Graph, b: nat, phi: Phi) {
    && (forall i, j :: 0 <= i < j < |phi.incoming| ==> phi.incoming[i].block != phi.incoming[j].block)
    && (forall p: nat :: Edge(g, p, b) <==> exists i :: 0 <= i < |phi.incoming| && phi.incoming[i].block == p)
  }

  function PhiDefs(b: Block): set<Reg> {
    set k | 0 <= k < |b.phis| :: b.phis[k].dst
  }

  /** What the first `n` instructions of a block define, phis included. */
  function DefsBefore(b: Block, n: nat): set<Reg>
    requires n <= |b.instrs|
  {
    if n == 0 then PhiDefs(b) else DefsBefore(b, n - 1) + Defines(b.instrs[n - 1])
  }

  function Defs(b: Block): set<Reg> {
    DefsBefore(b, |b.instrs|)
  }

  /** A walk along edges, from the entry block. */
  ghost predicate Path(g: Graph, path: seq<nat>) {
    && path != [] && path[0] == 0
    && (forall i :: 0 <= i < |path| ==> path[i] < |g|)
    && forall i :: 0 <= i < |path| - 1 ==> Edge(g, path[i], path[i + 1])
  }

  /** Everything defined in the blocks of a walk. */
  function PathDefs(g: Graph, path: seq<nat>): set<Reg>
    requires forall i :: 0 <= i < |path| ==> path[i] < |g|
  {
    if path == [] then {} else PathDefs(g, path[..|path| - 1]) + Defs(g[path[|path| - 1]])
  }

  /** On every walk that reaches the instruction, what it uses has been defined before. */
  ghost predicate UsesDominated(g: Graph, b: nat, k: nat)
    requires b < |g| && k < |g[b].instrs|
  {
    forall path :: Path(g, path) && path[|path| - 1] == b ==>
      Uses(g[b].instrs[k]) <= PathDefs(g, path[..|path| - 1]) + DefsBefore(g[b], k)
  }

  /** On every walk to the end of the incoming block, the incoming register has been defined. */
  ghost predicate IncomingDominated(g: Graph, i: Incoming) {
    forall path :: Path(g, path) && path[|path| - 1] == i.block ==> i.reg in PathDefs(g, path)
  }

  /** Register `r` is defined at place `k` of block `b`; places below zero are the phis. */
  predicate DefinedAt(g: Graph, r: Reg, b: nat, k: int) {
    && b < |g|
    && if k >= 0 then k < |g[b].instrs| && r in Defines(g[b].instrs[k])
       else -1 - k < |g[b].phis| && r == g[b].phis[-1 - k].dst
  }

  ghost predicate WellFormed(g: Graph) {
    && (forall b :: 0 <= b < |g| ==> OneTerminator(g[b]))
    && (forall b, k :: 0 <= b < |g| && 0 <= k < |g[b].phis| ==> PhiMatches(g, b, g[b].phis[k]))
    && (forall r: Reg, b: nat, k, b': nat, k' :: DefinedAt(g, r, b, k) && DefinedAt(g, r, b', k') ==> b == b' && k == k')
    && (forall b, k :: 0 <= b < |g| && 0 <= k < |g[b].instrs| ==> UsesDominated(g, b, k))
    && (forall b, k, i :: 0 <= b < |g| && 0 <= k < |g[b].phis| && 0 <= i < |g[b].phis[k].incoming| ==>
          IncomingDominated(g, g[b].phis[k].incoming[i]))
  }
}
