/** What the compiler builds, as functions on values: the blocks one token adds, and the fold of
    that over all tokens.  The class in brainf_compiler.dfy is proved to compute exactly this;
    the theorems about the generated code are proved here and in the modules that follow. */
module BrainFCodegen {
  import opened BrainFLanguage
  import opened BrainFTokens
  import opened BrainFIR

  /** A loop whose `]` has not been read: the block that tests, the block that begins the body,
      and the phi that is waiting for its second entry. */
  datatype Open = Open(test: nat, body: nat, phi: Reg)

  /** The graph so far, the insertion block, the register that holds the head, the next free
      register and the loops being compiled, innermost last. */
  datatype Gen = Gen(graph: Graph, bb: nat, head: Reg, next: Reg, opens: seq<Open>)

  const ARR: Reg := 0
  const ARRMAX: Reg := 1
  const ENDBB: nat := 1
  const ABERRORBB: nat := 2
  const ABERRORMSG: string := "Error: The head has left the tape."

  function Header(memory: nat, checked: bool): Gen {
    var enter := [Malloc(ARR, memory), Memset(ARR, 0, memory)];
    var end := Block([], [CallFree(ARR), Ret]);
    if checked then
      Gen([Block([], enter + [Gep(ARRMAX, ARR, memory), Gep(2, ARR, memory / 2)]), end,
           Block([], [CallPuts(ABERRORMSG), Br(ENDBB)])], 0, 2, 3, [])
    else
      Gen([Block([], enter + [Gep(1, ARR, memory / 2)]), end], 0, 1, 2, [])
  }

  function Extend(g: Graph, b: nat, code: seq<Instr>): Graph {
    if b < |g| then g[b := Block(g[b].phis, g[b].instrs + code)] else g
  }

  /** The second entry of a loop's phi, and the loop test behind it. */
  function CloseTest(b: Block, o: Open, back: Incoming, r: Reg, exit: nat): Block {
    Block(if b.phis == [] then [] else [Phi(b.phis[0].dst, b.phis[0].incoming + [back])] + b.phis[1..],
          b.instrs + [Load(r, o.phi), IcmpEqZero(r + 1, r), CondBr(r + 1, exit, o.body)])
  }

  /** The instructions a token puts at the end of the insertion block. */
  function Code(g: Gen, t: Token, checked: bool): seq<Instr> {
    var r := g.next;
    match t
    case Read => [CallGetchar(r), Trunc(r + 1, r), Store(r + 1, g.head)]
    case Write => [Load(r, g.head), SExt(r + 1, r), CallPutchar(r + 1)]
    case Change(n) => [Load(r, g.head), Add(r + 1, r, n), Store(r + 1, g.head)]
    case Move(n) =>
      if checked then [Gep(r, g.head, n), IcmpUGE(r + 1, r, ARRMAX), IcmpULT(r + 2, r, ARR),
                       Or(r + 3, r + 1, r + 2), CondBr(r + 3, ABERRORBB, |g.graph|)]
      else [Gep(r, g.head, n)]
    case Loop => [Br(|g.graph|)]
    case EndLoop => if g.opens == [] then [] else [Br(g.opens[|g.opens| - 1].test)]
  }

  function Emit(g: Gen, t: Token, checked: bool): Gen {
    var r := g.next;
    var n := |g.graph|;
    var graph := Extend(g.graph, g.bb, Code(g, t, checked));
    match t
    case Read => Gen(graph, g.bb, g.head, r + 2, g.opens)
    case Write => Gen(graph, g.bb, g.head, r + 2, g.opens)
    case Change(_) => Gen(graph, g.bb, g.head, r + 2, g.opens)
    case Move(_) =>
      if checked then Gen(graph + [Block([], [])], n, r, r + 4, g.opens)
      else Gen(graph, g.bb, r, r + 1, g.opens)
    case Loop =>
      Gen(graph + [Block([Phi(r, [Incoming(g.bb, g.head)])], []), Block([], [])],
          n + 1, r, r + 1, g.opens + [Open(n, n + 1, r)])
    case EndLoop =>
      if g.opens == [] then g
      else
        var o := g.opens[|g.opens| - 1];
        var tested := if o.test < n then graph[o.test := CloseTest(graph[o.test], o, Incoming(g.bb, g.head), r, n)]
                      else graph;
        Gen(tested + [Block([Phi(r + 2, [Incoming(o.test, o.phi)])], [])], n, r + 2, r + 3, g.opens[..|g.opens| - 1])
  }

  /** At the end of the text: go to the return block. */
  function Finish(g: Gen): Graph {
    Extend(g.graph, g.bb, [Br(ENDBB)])
  }

  /** The compiled graph with the register that holds the head at the end, or the abort. */
  datatype Outcome = Compiled(graph: Graph, head: Reg) | Aborted

  function Compile(g: Gen, ts: seq<Token>, checked: bool): Outcome
    decreases |ts|
  {
    if ts == [] then
      if g.opens == [] then Compiled(Finish(g), g.head) else Aborted
    else if ts[0].EndLoop? && g.opens == [] then Aborted
    else Compile(Emit(g, ts[0], checked), ts[1..], checked)
  }

  function CompileText(text: string, memory: nat, checked: bool): Outcome {
    Compile(Header(memory, checked), Lex(text, 0), checked)
  }

  /** The compiler's state after the first `i` tokens. */
  function GenAt(ts: seq<Token>, memory: nat, checked: bool, i: nat): Gen
    requires i <= |ts|
  {
    if i == 0 then Header(memory, checked) else Emit(GenAt(ts, memory, checked, i - 1), ts[i - 1], checked)
  }

  // ---- What the state looks like between tokens ----

  predicate NoTerminator(b: Block) {
    forall k :: 0 <= k < |b.instrs| ==> !IsTerminator(b.instrs[k])
  }

  predicate IsOpenTest(g: Gen, b: nat) {
    exists d :: 0 <= d < |g.opens| && g.opens[d].test == b
  }

  /** A loop test still waits for its second entry and has no instructions. */
  predicate Waiting(g: Gen, o: Open) {
    && o.test < |g.graph| && o.test != g.bb && o.body < |g.graph| && o.phi < g.next
    && |g.graph[o.test].phis| == 1 && g.graph[o.test].phis[0].dst == o.phi
    && |g.graph[o.test].phis[0].incoming| == 1
    && g.graph[o.test].instrs == []
  }

  predicate Shape(g: Gen, checked: bool) {
    && |g.graph| >= 2 && (checked ==> |g.graph| >= 3)
    && g.bb < |g.graph| && g.bb != ENDBB && (checked ==> g.bb != ABERRORBB)
    && NoTerminator(g.graph[g.bb])
    && g.head < g.next && ARR < g.next && (checked ==> ARRMAX < g.next && g.head > ARRMAX) && g.head > ARR
    && (forall d :: 0 <= d < |g.opens| ==> Waiting(g, g.opens[d]))
    && (forall d, e :: 0 <= d < e < |g.opens| ==> g.opens[d].test < g.opens[e].test)
    && (forall b :: 0 <= b < |g.graph| && b != g.bb && !IsOpenTest(g, b) ==> OneTerminator(g.graph[b]))
  }

  /** `f` is what `g` can become: finished blocks stay, the insertion block only gets longer. */
  predicate GrowsTo(g: Gen, f: Graph) {
    && |g.graph| <= |f| && g.bb < |g.graph|
    && (forall b :: 0 <= b < |g.graph| && OneTerminator(g.graph[b]) ==> f[b] == g.graph[b])
    && f[g.bb].phis == g.graph[g.bb].phis && g.graph[g.bb].instrs <= f[g.bb].instrs
  }

  lemma HeaderShape(memory: nat, checked: bool)
    ensures Shape(Header(memory, checked), checked)
  {
  }

  /** Code is straight except for a terminator at its very end. */
  lemma CodeShape(g: Gen, t: Token, checked: bool)
    requires t.EndLoop? ==> g.opens != []
    ensures var code := Code(g, t, checked);
            && |code| > 0 && (forall k :: 0 <= k < |code| - 1 ==> !IsTerminator(code[k]))
            && (IsTerminator(code[|code| - 1]) <==> t.Loop? || t.EndLoop? || (t.Move? && checked))
  {
  }

  lemma ExtendShape(g: Graph, b: nat, code: seq<Instr>)
    requires b < |g| && NoTerminator(g[b]) && |code| > 0
    requires forall k :: 0 <= k < |code| - 1 ==> !IsTerminator(code[k])
    ensures |Extend(g, b, code)| == |g|
    ensures forall c :: 0 <= c < |g| && c != b ==> Extend(g, b, code)[c] == g[c]
    ensures Extend(g, b, code)[b].phis == g[b].phis && Extend(g, b, code)[b].instrs == g[b].instrs + code
    ensures if IsTerminator(code[|code| - 1]) then OneTerminator(Extend(g, b, code)[b])
            else NoTerminator(Extend(g, b, code)[b])
  {
  }

  lemma {:induction false} EmitShapeSimple(g: Gen, t: Token, checked: bool)
    requires Shape(g, checked) && (t.Read? || t.Write? || t.Change? || (t.Move? && !checked))
    ensures Shape(Emit(g, t, checked), checked)
  {
    hide OneTerminator, NoTerminator;
    var h := Emit(g, t, checked);
    CodeShape(g, t, checked);
    ExtendShape(g.graph, g.bb, Code(g, t, checked));
    forall b | 0 <= b < |h.graph| && b != h.bb && !IsOpenTest(h, b) ensures OneTerminator(h.graph[b]) {
      assert !IsOpenTest(g, b);
    }
  }

  lemma {:induction false} EmitShapeMove(g: Gen, t: Token)
    requires Shape(g, true) && t.Move?
    ensures Shape(Emit(g, t, true), true)
  {
    hide OneTerminator;
    var h := Emit(g, t, true);
    CodeShape(g, t, true);
    ExtendShape(g.graph, g.bb, Code(g, t, true));
    assert NoTerminator(Block([], []));
    forall b | 0 <= b < |h.graph| && b != h.bb && !IsOpenTest(h, b) ensures OneTerminator(h.graph[b]) {
      assert !IsOpenTest(g, b);
    }
  }

  lemma {:induction false} EmitShapeLoop(g: Gen, checked: bool)
    requires Shape(g, checked)
    ensures Shape(Emit(g, Loop, checked), checked)
  {
    hide OneTerminator;
    var h := Emit(g, Loop, checked);
    CodeShape(g, Loop, checked);
    ExtendShape(g.graph, g.bb, Code(g, Loop, checked));
    assert NoTerminator(Block([], []));
    forall b | 0 <= b < |h.graph| && b != h.bb && !IsOpenTest(h, b) ensures OneTerminator(h.graph[b]) {
      assert h.opens[|g.opens|].test == |g.graph|;
      assert forall d :: 0 <= d < |g.opens| ==> h.opens[d] == g.opens[d];
    }
  }

  lemma {:induction false} EmitShapeEnd(g: Gen, checked: bool)
    requires Shape(g, checked) && g.opens != []
    ensures Shape(Emit(g, EndLoop, checked), checked)
  {
    hide OneTerminator, NoTerminator, CloseTest;
    NoInstructions();
    var h := Emit(g, EndLoop, checked);
    var last := |g.opens| - 1;
    var o := g.opens[last];
    CodeShape(g, EndLoop, checked);
    ExtendShape(g.graph, g.bb, Code(g, EndLoop, checked));
    ClosedTest(g, o);
    forall d | 0 <= d < |h.opens| ensures Waiting(h, h.opens[d]) {
      assert Waiting(g, g.opens[d]);
    }
    forall b | 0 <= b < |h.graph| && b != h.bb && !IsOpenTest(h, b) ensures OneTerminator(h.graph[b]) {
      assert forall d :: 0 <= d < last ==> h.opens[d] == g.opens[d];
    }
  }

  lemma NoInstructions()
    ensures forall phis: seq<Phi> :: NoTerminator(Block(phis, []))
  {
  }

  lemma ClosedTest(g: Gen, o: Open)
    requires Waiting(g, o)
    ensures forall back: Incoming, r: Reg, exit: nat :: OneTerminator(CloseTest(g.graph[o.test], o, back, r, exit))
  {
  }

  lemma EmitShape(g: Gen, t: Token, checked: bool)
    requires Shape(g, checked) && (t.EndLoop? ==> g.opens != [])
    ensures Shape(Emit(g, t, checked), checked)
  {
    hide Shape, Emit;
    match t
    case Loop => EmitShapeLoop(g, checked);
    case EndLoop => EmitShapeEnd(g, checked);
    case Move(_) => if checked { EmitShapeMove(g, t); } else { EmitShapeSimple(g, t, checked); }
    case _ => EmitShapeSimple(g, t, checked);
  }

  /** Whatever the state becomes, the insertion block keeps the code just emitted. */
  lemma {:induction false} EmitGrows(g: Gen, t: Token, checked: bool, f: Graph)
    requires Shape(g, checked) && (t.EndLoop? ==> g.opens != [])
    requires GrowsTo(Emit(g, t, checked), f)
    ensures GrowsTo(g, f)
    ensures g.graph[g.bb].instrs + Code(g, t, checked) <= f[g.bb].instrs
  {
    hide OneTerminator, NoTerminator, Code;
    var h := Emit(g, t, checked);
    CodeShape(g, t, checked);
    ExtendShape(g.graph, g.bb, Code(g, t, checked));
    if t.EndLoop? {
      assert Waiting(g, g.opens[|g.opens| - 1]);
      OpenIsNotFinished(g, g.opens[|g.opens| - 1]);
    }
    InsertionIsNotFinished(g);
  }

  lemma OpenIsNotFinished(g: Gen, o: Open)
    requires Waiting(g, o)
    ensures !OneTerminator(g.graph[o.test])
  {
  }

  lemma InsertionIsNotFinished(g: Gen)
    requires g.bb < |g.graph| && NoTerminator(g.graph[g.bb])
    ensures !OneTerminator(g.graph[g.bb])
  {
    var b := g.graph[g.bb];
    if b.instrs != [] {
      assert !IsTerminator(b.instrs[|b.instrs| - 1]);
    }
  }

  // ---- The fold ----

  /** The nesting of the tokens is the number of loops being compiled, and nothing else can
      make the compiler give up. */
  lemma {:induction false} GenAtShape(ts: seq<Token>, memory: nat, checked: bool, i: nat)
    requires i <= |ts| && Nesting(TokenBrackets(ts), i) >= 0
    ensures Shape(GenAt(ts, memory, checked, i), checked)
    ensures |GenAt(ts, memory, checked, i).opens| == Nesting(TokenBrackets(ts), i)
    ensures i > 0 ==> Nesting(TokenBrackets(ts), i - 1) >= 0
    ensures i > 0 && ts[i - 1].EndLoop? ==> GenAt(ts, memory, checked, i - 1).opens != []
    decreases i
  {
    hide Shape, Header, Emit, GenAt, Nesting, TokenBrackets;
    if i == 0 {
      NothingYet(ts, memory, checked);
      HeaderShape(memory, checked);
      HeaderOpens(memory, checked);
    } else {
      OneToken(ts, memory, checked, i);
      GenAtShape(ts, memory, checked, i - 1);
      EmitShape(GenAt(ts, memory, checked, i - 1), ts[i - 1], checked);
      OpensAfter(GenAt(ts, memory, checked, i - 1), ts[i - 1], checked);
    }
  }

  lemma NothingYet(ts: seq<Token>, memory: nat, checked: bool)
    ensures GenAt(ts, memory, checked, 0) == Header(memory, checked) && Nesting(TokenBrackets(ts), 0) == 0
  {
    hide Header, TokenBrackets;
  }

  /** The definitions, for one token. */
  lemma OneToken(ts: seq<Token>, memory: nat, checked: bool, i: nat)
    requires 0 < i <= |ts| && Nesting(TokenBrackets(ts), i) >= 0
    ensures GenAt(ts, memory, checked, i) == Emit(GenAt(ts, memory, checked, i - 1), ts[i - 1], checked)
    ensures var d := Nesting(TokenBrackets(ts), i - 1);
            d >= 0 && (ts[i - 1].EndLoop? ==> d > 0)
            && Nesting(TokenBrackets(ts), i) == if ts[i - 1].Loop? then d + 1 else if ts[i - 1].EndLoop? then d - 1 else d
  {
    hide Emit, Header;
  }

  lemma OpensAfter(g: Gen, t: Token, checked: bool)
    requires t.EndLoop? ==> g.opens != []
    ensures |Emit(g, t, checked).opens|
            == if t.Loop? then |g.opens| + 1 else if t.EndLoop? then |g.opens| - 1 else |g.opens|
  {
    hide Code, Extend, CloseTest;
  }

  lemma HeaderOpens(memory: nat, checked: bool)
    ensures Header(memory, checked).opens == []
  {
  }

  lemma {:induction false} NestingStaysNegative(b: seq<Bracket>, i: nat, j: nat)
    requires i <= j <= |b| && Nesting(b, i) < 0
    ensures Nesting(b, j) < 0
    decreases j
  {
    if i < j {
      NestingStaysNegative(b, i, j - 1);
    }
  }

  /** Compiling the rest of the tokens ends in the finished graph if the tokens are balanced
      and in the abort if they are not. */
  lemma {:induction false} CompileRest(ts: seq<Token>, memory: nat, checked: bool, i: nat)
    requires i <= |ts| && Nesting(TokenBrackets(ts), i) >= 0
    ensures var g := GenAt(ts, memory, checked, |ts|);
            Compile(GenAt(ts, memory, checked, i), ts[i..], checked)
            == if Nesting(TokenBrackets(ts), |ts|) == 0 then Compiled(Finish(g), g.head) else Aborted
    decreases |ts| - i
  {
    hide Shape, Emit, Finish;
    GenAtShape(ts, memory, checked, i);
    if i < |ts| {
      assert ts[i..][1..] == ts[i + 1..];
      if Nesting(TokenBrackets(ts), i + 1) >= 0 {
        GenAtShape(ts, memory, checked, i + 1);
        CompileRest(ts, memory, checked, i + 1);
      } else {
        NestingStaysNegative(TokenBrackets(ts), i + 1, |ts|);
      }
    }
  }

  /** The compiler aborts on exactly the texts whose brackets are not balanced. */
  lemma {:induction false} AbortsIffUnbalanced(text: string, memory: nat, checked: bool)
    ensures CompileText(text, memory, checked).Compiled? <==> Balanced(text)
    ensures Balanced(text) ==>
              var g := GenAt(Lex(text, 0), memory, checked, |Lex(text, 0)|);
              Shape(g, checked) && g.opens == [] && CompileText(text, memory, checked) == Compiled(Finish(g), g.head)
  {
    hide Shape, Lex, Compile;
    var ts := Lex(text, 0);
    LexEnd(text);
    NestingAgrees(text, |text|);
    assert ts[0..] == ts;
    CompileRest(ts, memory, checked, 0);
    if Balanced(text) {
      GenAtShape(ts, memory, checked, |ts|);
    }
  }

  // ---- Matching brackets and the loops being compiled ----

  /** The loop that `[` opens when the compiler is in state `g`. */
  function OpenOf(g: Gen): Open {
    Open(|g.graph|, |g.graph| + 1, g.next)
  }

  lemma {:induction false} EmitKeepsOpen(g: Gen, t: Token, checked: bool, d: nat)
    requires Shape(g, checked) && d < |g.opens| && (t.EndLoop? ==> d < |g.opens| - 1)
    ensures var h := Emit(g, t, checked);
            d < |h.opens| && h.opens[d] == g.opens[d] && g.opens[d].test < |g.graph| <= |h.graph|
            && h.graph[g.opens[d].test] == g.graph[g.opens[d].test]
  {
    hide OneTerminator, NoTerminator, Code;
    assert Waiting(g, g.opens[d]);
    if t.EndLoop? {
      assert Waiting(g, g.opens[|g.opens| - 1]);
    }
  }

  /** Scanning back `d` loops deep finds the `[` that opened the loop `d` places below the
      innermost one, and its test still waits with the entry made then. */
  lemma {:induction false} OpensTrack(ts: seq<Token>, memory: nat, checked: bool, k: nat, d: nat)
    requires k <= |ts| && Nesting(TokenBrackets(ts), k) > d
    ensures var i := ScanBack(TokenBrackets(ts), k, d);
            var g, h := GenAt(ts, memory, checked, i), GenAt(ts, memory, checked, k);
            && i < k && ts[i].Loop? && Nesting(TokenBrackets(ts), i) >= 0
            && |h.opens| == Nesting(TokenBrackets(ts), k) && |h.graph| > |g.graph|
            && h.opens[|h.opens| - 1 - d] == OpenOf(g)
            && h.graph[|g.graph|] == Block([Phi(g.next, [Incoming(g.bb, g.head)])], [])
    decreases k
  {
    hide Shape, Emit, OneTerminator, ScanBack, Nesting, GenAt, TokenBrackets;
    var b := TokenBrackets(ts);
    OneBack(ts, memory, checked, k, d);
    GenAtShape(ts, memory, checked, k);
    GenAtShape(ts, memory, checked, k - 1);
    var h := GenAt(ts, memory, checked, k - 1);
    match b[k - 1]
    case Neither =>
      OpensTrack(ts, memory, checked, k - 1, d);
      EmitKeepsOpen(h, ts[k - 1], checked, |h.opens| - 1 - d);
    case Closing =>
      OpensTrack(ts, memory, checked, k - 1, d + 1);
      EmitKeepsOpen(h, ts[k - 1], checked, |h.opens| - 2 - d);
    case Opening =>
      if d == 0 {
        EmitOpens(h, checked);
      } else {
        OpensTrack(ts, memory, checked, k - 1, d - 1);
        EmitKeepsOpen(h, ts[k - 1], checked, |h.opens| - d);
      }
  }

  /** The definitions, one token back. */
  lemma OneBack(ts: seq<Token>, memory: nat, checked: bool, k: nat, d: nat)
    requires k <= |ts| && Nesting(TokenBrackets(ts), k) > d
    ensures k > 0 && GenAt(ts, memory, checked, k) == Emit(GenAt(ts, memory, checked, k - 1), ts[k - 1], checked)
    ensures TokenBrackets(ts)[k - 1] == TokenBracket(ts[k - 1])
    ensures var b := TokenBrackets(ts);
            match b[k - 1]
            case Neither => ScanBack(b, k, d) == ScanBack(b, k - 1, d) && Nesting(b, k - 1) == Nesting(b, k)
            case Closing => ScanBack(b, k, d) == ScanBack(b, k - 1, d + 1) && Nesting(b, k - 1) == Nesting(b, k) + 1
            case Opening => Nesting(b, k - 1) == Nesting(b, k) - 1 && ts[k - 1] == Loop
                            && ScanBack(b, k, d) == if d == 0 then k - 1 else ScanBack(b, k - 1, d - 1)
  {
    hide Emit;
  }

  lemma EmitOpens(g: Gen, checked: bool)
    ensures var h := Emit(g, Loop, checked);
            && h.opens == g.opens + [OpenOf(g)] && |h.graph| == |g.graph| + 2
            && h.graph[|g.graph|] == Block([Phi(g.next, [Incoming(g.bb, g.head)])], [])
            && h.bb == |g.graph| + 1 && h.graph[h.bb] == Block([], []) && h.head == g.next
  {
  }

  /** The bracket that closes a loop, found by scanning forward, leads back to its beginning. */
  lemma {:induction false} FindClose(b: seq<Bracket>, k: nat, d: nat)
    requires k <= |b| && Nesting(b, k) > d && Nesting(b, |b|) == 0
    ensures var q := SkipForward(b, k, d);
            q > k && b[q - 1] == Closing && ScanBack(b, q - 1, 0) == ScanBack(b, k, d)
            && Nesting(b, q - 1) > 0
    decreases |b| - k
  {
    hide ScanBack, SkipForward, Nesting;
    OneOn(b, k, d);
    match b[k]
    case Neither => FindClose(b, k + 1, d);
    case Opening => FindClose(b, k + 1, d + 1);
    case Closing =>
      if d > 0 {
        FindClose(b, k + 1, d - 1);
      }
  }

  /** The definitions, one bracket on. */
  lemma OneOn(b: seq<Bracket>, k: nat, d: nat)
    requires k <= |b| && Nesting(b, k) > d && Nesting(b, |b|) == 0
    ensures k < |b|
    ensures match b[k]
            case Neither => SkipForward(b, k, d) == SkipForward(b, k + 1, d) && Nesting(b, k + 1) == Nesting(b, k)
                            && ScanBack(b, k + 1, d) == ScanBack(b, k, d)
            case Opening => SkipForward(b, k, d) == SkipForward(b, k + 1, d + 1) && Nesting(b, k + 1) == Nesting(b, k) + 1
                            && ScanBack(b, k + 1, d + 1) == ScanBack(b, k, d)
            case Closing => Nesting(b, k + 1) == Nesting(b, k) - 1
                            && SkipForward(b, k, d) == (if d == 0 then k + 1 else SkipForward(b, k + 1, d - 1))
                            && (d > 0 ==> ScanBack(b, k + 1, d - 1) == ScanBack(b, k, d))
  {
  }

  // ---- From every intermediate state to the finished graph ----

  lemma FinishGrows(g: Gen, checked: bool)
    requires Shape(g, checked)
    ensures GrowsTo(g, Finish(g)) && |Finish(g)| == |g.graph|
    ensures Finish(g)[g.bb].instrs == g.graph[g.bb].instrs + [Br(ENDBB)]
  {
    hide OneTerminator, NoTerminator;
    InsertionIsNotFinished(g);
  }

  lemma {:induction false} AllGrow(ts: seq<Token>, memory: nat, checked: bool, i: nat, f: Graph)
    requires i <= |ts| && Nesting(TokenBrackets(ts), |ts|) == 0
    requires GrowsTo(GenAt(ts, memory, checked, |ts|), f)
    ensures var g := GenAt(ts, memory, checked, i);
            && Shape(g, checked) && GrowsTo(g, f) && Nesting(TokenBrackets(ts), i) >= 0
            && |g.opens| == Nesting(TokenBrackets(ts), i)
            && (i < |ts| ==> (ts[i].EndLoop? ==> g.opens != [])
                             && g.graph[g.bb].instrs + Code(g, ts[i], checked) <= f[g.bb].instrs)
    decreases |ts| - i
  {
    hide Shape, Emit, GrowsTo, Code;
    if i < |ts| {
      AllGrow(ts, memory, checked, i + 1, f);
      GenAtShape(ts, memory, checked, i + 1);
      GenAtShape(ts, memory, checked, i);
      EmitGrows(GenAt(ts, memory, checked, i), ts[i], checked, f);
    } else {
      GenAtShape(ts, memory, checked, i);
    }
    assert GenAt(ts, memory, checked, i).bb < |f| by { GrowsBounds(GenAt(ts, memory, checked, i), f); }
  }

  lemma GrowsBounds(g: Gen, f: Graph)
    requires GrowsTo(g, f)
    ensures g.bb < |g.graph| <= |f|
  {
  }

  /** The insertion block never moves back. */
  lemma {:induction false} InsertionAdvances(ts: seq<Token>, memory: nat, checked: bool, i: nat, k: nat)
    requires i <= k <= |ts| && Nesting(TokenBrackets(ts), k) >= 0
    ensures GenAt(ts, memory, checked, i).bb <= GenAt(ts, memory, checked, k).bb
    ensures i < k && ts[i].Loop? ==> GenAt(ts, memory, checked, i).bb < GenAt(ts, memory, checked, k).bb
    decreases k
  {
    hide Shape, Emit;
    if i < k {
      GenAtShape(ts, memory, checked, k);
      GenAtShape(ts, memory, checked, k - 1);
      InsertionAdvances(ts, memory, checked, i, k - 1);
      EmitAdvances(GenAt(ts, memory, checked, k - 1), ts[k - 1], checked);
    }
  }

  lemma EmitAdvances(g: Gen, t: Token, checked: bool)
    requires Shape(g, checked)
    ensures Emit(g, t, checked).bb >= g.bb
    ensures t.Loop? ==> Emit(g, t, checked).bb > g.bb
  {
    hide OneTerminator, NoTerminator, Code;
  }

  /** The finished test block of the loop that tokens `i` and `j` delimit. */
  function TestBlock(g: Gen, h: Gen): Block {
    Block([Phi(g.next, [Incoming(g.bb, g.head), Incoming(h.bb, h.head)])],
          [Load(h.next, g.next), IcmpEqZero(h.next + 1, h.next), CondBr(h.next + 1, |h.graph|, |g.graph| + 1)])
  }

  /** A loop in the finished graph: its test block, the block it exits to and the bodies' first
      block. */
  lemma {:induction false} LoopInGraph(ts: seq<Token>, memory: nat, checked: bool, j: nat, f: Graph)
    requires j < |ts| && ts[j].EndLoop? && Nesting(TokenBrackets(ts), |ts|) == 0
    requires GrowsTo(GenAt(ts, memory, checked, |ts|), f)
    ensures var i := ScanBack(TokenBrackets(ts), j, 0);
            i < j && ts[i].Loop? && Nesting(TokenBrackets(ts), j) > 0
    ensures var i := ScanBack(TokenBrackets(ts), j, 0);
            var g, h := GenAt(ts, memory, checked, i), GenAt(ts, memory, checked, j);
            && |g.graph| + 1 < |f| && |h.graph| < |f| && g.bb != h.bb && g.next < h.next
            && h.opens != [] && h.opens[|h.opens| - 1] == OpenOf(g)
            && f[|g.graph|] == TestBlock(g, h)
            && f[|g.graph| + 1].phis == []
            && f[|h.graph|].phis == [Phi(h.next + 2, [Incoming(|g.graph|, g.next)])]
  {
    hide Shape, Emit, GrowsTo, Code, OneTerminator;
    AllGrow(ts, memory, checked, j, f);
    AllGrow(ts, memory, checked, j + 1, f);
    OpensTrack(ts, memory, checked, j, 0);
    var i := ScanBack(TokenBrackets(ts), j, 0);
    var g, h := GenAt(ts, memory, checked, i), GenAt(ts, memory, checked, j);
    AllGrow(ts, memory, checked, i + 1, f);
    InsertionAdvances(ts, memory, checked, i, j);
    EmitOpens(g, checked);
    WaitingElsewhere(h, checked);
    GrownBlock(Emit(g, Loop, checked), f);
    EmitCloses(g, h, checked);
    GrownBlock(Emit(h, EndLoop, checked), f);
    assert f[|g.graph|] == Emit(h, EndLoop, checked).graph[|g.graph|] by {
      GrownFinished(Emit(h, EndLoop, checked), f, |g.graph|);
    }
  }

  lemma GrownBlock(g: Gen, f: Graph)
    requires GrowsTo(g, f)
    ensures g.bb < |g.graph| <= |f| && f[g.bb].phis == g.graph[g.bb].phis
    ensures g.graph[g.bb].instrs <= f[g.bb].instrs
  {
  }

  lemma GrownFinished(g: Gen, f: Graph, b: nat)
    requires GrowsTo(g, f) && b < |g.graph| && OneTerminator(g.graph[b])
    ensures b < |f| && f[b] == g.graph[b]
  {
  }

  lemma WaitingElsewhere(g: Gen, checked: bool)
    requires Shape(g, checked) && g.opens != []
    ensures g.opens[|g.opens| - 1].test != g.bb && g.opens[|g.opens| - 1].phi < g.next
  {
    hide OneTerminator, NoTerminator;
    assert Waiting(g, g.opens[|g.opens| - 1]);
  }

  /** What `]` does to the test block of its loop. */
  lemma EmitCloses(g: Gen, h: Gen, checked: bool)
    requires h.opens != [] && h.opens[|h.opens| - 1] == OpenOf(g)
    requires |g.graph| < |h.graph| && h.bb != |g.graph|
    requires h.graph[|g.graph|] == Block([Phi(g.next, [Incoming(g.bb, g.head)])], [])
    ensures var e := Emit(h, EndLoop, checked);
            && |e.graph| == |h.graph| + 1 && e.bb == |h.graph| && e.head == h.next + 2
            && e.graph[|g.graph|] == TestBlock(g, h) && OneTerminator(TestBlock(g, h))
            && e.graph[e.bb] == Block([Phi(h.next + 2, [Incoming(|g.graph|, g.next)])], [])
  {
    var o, e, back := OpenOf(g), Emit(h, EndLoop, checked), Incoming(h.bb, h.head);
    var waiting := h.graph[|g.graph|];
    assert CloseTest(waiting, o, back, h.next, |h.graph|) == TestBlock(g, h) by {
      assert [Incoming(g.bb, g.head)] + [back] == [Incoming(g.bb, g.head), back];
      assert waiting.phis[1..] == [];
    }
    assert Extend(h.graph, h.bb, Code(h, EndLoop, checked))[|g.graph|] == waiting;
  }
}
