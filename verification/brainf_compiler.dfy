/** The compiler as the source has it: one pass over the characters with one symbol of
    lookahead, a recursion for each loop, and blocks that are extended in place. */
module BrainFCompiler {
  import opened BrainFLanguage
  import opened BrainFTokens
  import opened BrainFIR
  import opened BrainFCodegen
  import opened BrainFTheorems
  import opened BrainFSSA

  datatype Symbol = SymNone | SymRead | SymWrite | SymMove | SymChange | SymLoop | SymEndLoop | SymEof

  datatype MaybePhi = NullPhi | ThePhi(reg: Reg)

  // ---- What the lookahead stands for ----

  /** A symbol that has been read, in front of the tokens still to come. */
  ghost function InFront(sym: Symbol, value: int, ts: seq<Token>): seq<Token> {
    match sym
    case SymNone => ts
    case SymEof => ts
    case SymRead => Fuse(Read, ts)
    case SymWrite => Fuse(Write, ts)
    case SymMove => Fuse(Move(value), ts)
    case SymChange => Fuse(Change(value), ts)
    case SymLoop => Fuse(Loop, ts)
    case SymEndLoop => Fuse(EndLoop, ts)
  }

  ghost function Pending(cur: Symbol, curValue: int, next: Symbol, nextValue: int, rest: seq<Token>): seq<Token> {
    InFront(cur, curValue, InFront(next, nextValue, rest))
  }

  predicate IsRun(s: Symbol) {
    s.SymMove? || s.SymChange?
  }

  /** No lookahead is pending unless a run was just ended by a different symbol. */
  predicate Settled(cur: Symbol, next: Symbol) {
    if IsRun(cur) then next != SymNone && next != cur else next == SymNone
  }

  /** Symbols read but not yet written out. */
  function Weight(s: Symbol): nat {
    if s.SymNone? || s.SymEof? then 0 else 1
  }

  lemma LexNext(text: string, pos: nat)
    requires pos < |text|
    ensures Lex(text, pos) == if TokenOf(text[pos]) == [] then Lex(text, pos + 1)
                              else Fuse(TokenOf(text[pos])[0], Lex(text, pos + 1))
  {
    LexUnfold(text, pos);
  }

  lemma NothingInFront(sym: Symbol, value: int, ts: seq<Token>)
    ensures sym == SymNone || sym == SymEof ==> InFront(sym, value, ts) == ts
  {
  }

  /** One more character of a run. */
  lemma RunGrows(sym: Symbol, value: int, direction: int, ts: seq<Token>)
    requires IsRun(sym)
    ensures var t := if sym.SymMove? then Move(direction) else Change(direction);
            InFront(sym, value, Fuse(t, ts)) == InFront(sym, value + direction, ts)
  {
    var a := if sym.SymMove? then Move(value) else Change(value);
    var t := if sym.SymMove? then Move(direction) else Change(direction);
    assert Fuse(t, ts)[0] == if |ts| > 0 && ts[0].Move? && sym.SymMove? then Move(direction + ts[0].count)
                             else if |ts| > 0 && ts[0].Change? && sym.SymChange? then Change(direction + ts[0].count)
                             else t;
  }

  /** A settled symbol is the next token, by itself. */
  lemma SettledFront(cur: Symbol, curValue: int, next: Symbol, nextValue: int, rest: seq<Token>)
    requires Settled(cur, next) && cur != SymNone && cur != SymEof
    requires next == SymEof ==> rest == []
    ensures var t := match cur case SymRead => Read case SymWrite => Write case SymMove => Move(curValue)
                               case SymChange => Change(curValue) case SymLoop => Loop case _ => EndLoop;
            Pending(cur, curValue, next, nextValue, rest) == [t] + InFront(next, nextValue, rest)
  {
  }

  class BrainF {
    const text: string
    const memtotal: nat
    const checked: bool

    var pos: nat
    var graph: Graph
    var bb: nat
    var curhead: Reg
    var next: Reg
    ghost var opens: seq<Open>

    constructor (text: string, memtotal: nat, checked: bool)
      ensures this.text == text && this.memtotal == memtotal && this.checked == checked && pos == 0
    {
      this.text, this.memtotal, this.checked := text, memtotal, checked;
      pos, graph, bb, curhead, next, opens := 0, [], 0, 0, 0, [];
    }

    ghost function State(): Gen
      reads this
    {
      Gen(graph, bb, curhead, next, opens)
    }

    // ---- The builder ----

    method Insert(i: Instr)
      requires bb < |graph|
      modifies this`graph
      ensures graph == Extend(old(graph), bb, [i])
    {
      graph := graph[bb := Block(graph[bb].phis, graph[bb].instrs + [i])];
    }

    method NewReg() returns (r: Reg)
      modifies this`next
      ensures r == old(next) && next == r + 1
    {
      r := next;
      next := next + 1;
    }

    method CreateBlock() returns (b: nat)
      modifies this`graph
      ensures b == |old(graph)| && graph == old(graph) + [Block([], [])]
    {
      b := |graph|;
      graph := graph + [Block([], [])];
    }

    // ---- The fixed pieces of code ----

    method WriteHeader()
      modifies this
      ensures State() == Header(memtotal, checked) && pos == old(pos)
    {
      graph, next, opens := [], 0, [];
      var arr := WriteEntry();
      graph := graph + [Block([], [CallFree(arr), Ret])];
      if checked {
        graph := graph + [Block([], [CallPuts(ABERRORMSG), Br(ENDBB)])];
      }
    }

    /** The entry block: the tape, its end if that is needed, and the head. */
    method WriteEntry() returns (arr: Reg)
      requires graph == [] && next == 0
      modifies this
      ensures graph == [Header(memtotal, checked).graph[0]] && bb == 0 && arr == ARR
      ensures curhead == Header(memtotal, checked).head && next == curhead + 1 && opens == old(opens) && pos == old(pos)
    {
      bb := CreateBlock();
      arr := NewReg();
      Insert(Malloc(arr, memtotal));
      Insert(Memset(arr, 0, memtotal));
      if checked {
        var arrmax := NewReg();
        Insert(Gep(arrmax, arr, memtotal));
      }
      ghost var so_far := graph;
      curhead := NewReg();
      Insert(Gep(curhead, arr, memtotal / 2));
      EntryInstrs(so_far, memtotal, checked);
    }

    // ---- Code for one symbol ----

    method WriteRead()
      requires bb < |graph|
      modifies this
      ensures State() == Emit(old(State()), Read, checked) && pos == old(pos)
    {
      var tape0 := NewReg();
      Insert(CallGetchar(tape0));
      var tape1 := NewReg();
      Insert(Trunc(tape1, tape0));
      Insert(Store(tape1, curhead));
      ExtendThrice(old(graph), bb, CallGetchar(tape0), Trunc(tape1, tape0), Store(tape1, curhead));
    }

    method WriteWrite()
      requires bb < |graph|
      modifies this
      ensures State() == Emit(old(State()), Write, checked) && pos == old(pos)
    {
      var tape0 := NewReg();
      Insert(Load(tape0, curhead));
      var tape1 := NewReg();
      Insert(SExt(tape1, tape0));
      Insert(CallPutchar(tape1));
      ExtendThrice(old(graph), bb, Load(tape0, curhead), SExt(tape1, tape0), CallPutchar(tape1));
    }

    method WriteChange(curvalue: int)
      requires bb < |graph|
      modifies this
      ensures State() == Emit(old(State()), Change(curvalue), checked) && pos == old(pos)
    {
      var tape0 := NewReg();
      Insert(Load(tape0, curhead));
      var tape1 := NewReg();
      Insert(Add(tape1, tape0, curvalue));
      Insert(Store(tape1, curhead));
      ExtendThrice(old(graph), bb, Load(tape0, curhead), Add(tape1, tape0, curvalue), Store(tape1, curhead));
    }

    method WriteMove(curvalue: int)
      requires bb < |graph|
      modifies this
      ensures State() == Emit(old(State()), Move(curvalue), checked) && pos == old(pos)
    {
      var head := NewReg();
      Insert(Gep(head, curhead, curvalue));
      curhead := head;
      if checked {
        var test0 := NewReg();
        Insert(IcmpUGE(test0, curhead, ARRMAX));
        var test1 := NewReg();
        Insert(IcmpULT(test1, curhead, ARR));
        ExtendThrice(old(graph), bb, Gep(head, old(curhead), curvalue), IcmpUGE(test0, curhead, ARRMAX),
                     IcmpULT(test1, curhead, ARR));
        var test2 := NewReg();
        Insert(Or(test2, test0, test1));
        var nextbb := CreateBlock();
        Insert(CondBr(test2, ABERRORBB, nextbb));
        CheckedMoveGraph(old(graph), bb, old(State()), curvalue);
        bb := nextbb;
      }
    }

    /** The test block gets its phi and its first entry now; the rest waits for the `]`. */
    method BeginLoop() returns (phi: Reg, oldbb: nat, testbb: nat)
      requires bb < |graph|
      modifies this
      ensures State() == Emit(old(State()), Loop, checked) && pos == old(pos)
      ensures Open(testbb, oldbb, phi) == opens[|opens| - 1]
    {
      testbb := CreateBlock();
      Insert(Br(testbb));
      var bb0 := bb;
      var bb1 := CreateBlock();
      bb := bb1;
      phi := NewReg();
      graph := graph[testbb := Block([Phi(phi, [Incoming(bb0, curhead)])], graph[testbb].instrs)];
      curhead := phi;
      oldbb := bb1;
      opens := opens + [Open(testbb, oldbb, phi)];
      assert graph == Emit(old(State()), Loop, checked).graph;
    }

    method EndTheLoop(phi: Reg, oldbb: nat, testbb: nat)
      requires bb < |graph| && testbb < |graph| && testbb != bb && opens != []
      requires opens[|opens| - 1] == Open(testbb, oldbb, phi) && |graph[testbb].phis| == 1
      modifies this
      ensures State() == Emit(old(State()), EndLoop, checked) && pos == old(pos)
    {
      hide Emit, Extend;
      EndLoopFacts(State(), checked);
      ExtendKeeps(graph, bb, [Br(testbb)]);
      Insert(Br(testbb));
      var p := graph[testbb].phis[0];
      graph := graph[testbb := Block([Phi(p.dst, p.incoming + [Incoming(bb, curhead)])], graph[testbb].instrs)];
      var head0 := phi;
      var tape0 := NewReg();
      ExtendKeeps(graph, testbb, [Load(tape0, head0)]);
      graph := Extend(graph, testbb, [Load(tape0, head0)]);
      var test0 := NewReg();
      ExtendKeeps(graph, testbb, [IcmpEqZero(test0, tape0)]);
      graph := Extend(graph, testbb, [IcmpEqZero(test0, tape0)]);
      var bb0 := |graph|;
      graph := Extend(graph, testbb, [CondBr(test0, bb0, oldbb)]);
      var phi1 := NewReg();
      graph := graph + [Block([Phi(phi1, [Incoming(testbb, head0)])], [])];
      assert graph == Emit(old(State()), EndLoop, checked).graph by {
        EndLoopGraph(old(State()), Open(testbb, oldbb, phi));
      }
      bb := bb0;
      curhead := phi1;
      opens := opens[..|opens| - 1];
    }

    // ---- The main loop ----

    /** Reads and compiles up to the `]` that ends the loop of `phi`, or up to the end of the
        text.  `ok` is false where the source aborts.  What the text from here on compiles to
        does not change. */
    method ReadLoop(phi: MaybePhi, oldbb: nat, testbb: nat) returns (ok: bool)
      requires Shape(State(), checked) && pos <= |text|
      requires phi.NullPhi? <==> opens == []
      requires phi.ThePhi? ==> opens[|opens| - 1] == Open(testbb, oldbb, phi.reg)
      modifies this
      ensures old(pos) <= pos <= |text|
      ensures !ok ==> old(Compile(State(), Lex(text, pos), checked)) == Aborted
      ensures ok && phi.NullPhi? ==> old(Compile(State(), Lex(text, pos), checked)) == Compiled(graph, curhead)
      ensures ok && phi.ThePhi? ==>
                && Shape(State(), checked) && pos > old(pos) && opens == old(opens[..|opens| - 1])
                && Compile(State(), Lex(text, pos), checked) == old(Compile(State(), Lex(text, pos), checked))
      decreases |text| - pos, 2
    {
      hide Shape, Lex, Emit, Compile, TokenOf;
      var cursym, curvalue, nextsym, nextvalue := SymNone, 0, SymNone, 0;
      ghost var outcome := Compile(State(), Lex(text, pos), checked);
      while cursym != SymEof && cursym != SymEndLoop
        invariant pos <= |text| && old(pos) <= pos && (cursym != SymNone && cursym != SymEof ==> old(pos) < pos)
        invariant Shape(State(), checked) && opens == old(opens)
        invariant Settled(cursym, nextsym) && (cursym == SymEof || nextsym == SymEof ==> pos == |text|)
        invariant Compile(State(), Pending(cursym, curvalue, nextsym, nextvalue, Lex(text, pos)), checked) == outcome
        decreases Weight(cursym) + Weight(nextsym) + |text| - pos, if cursym == SymNone then 1 else 0
      {
        LexEnd(text);
        ok := WriteOut(cursym, curvalue, nextsym, nextvalue);
        if !ok {
          return;
        }
        cursym, curvalue := nextsym, nextvalue;
        cursym, curvalue, nextsym, nextvalue := ReadSymbols(cursym, curvalue);
      }
      if cursym == SymEndLoop {
        if phi.NullPhi? {
          assert outcome == Aborted by { ExtraBracket(State(), Lex(text, pos), checked); }
          return false;
        }
        OpenIsWaiting(State(), checked);
        ghost var g := State();
        EndTheLoop(phi.reg, oldbb, testbb);
        EndLoopDone(g, Lex(text, pos), checked);
        return true;
      }
      LexEnd(text);
      InsertionBlock(State(), checked);
      ghost var g := State();
      Insert(Br(ENDBB));
      TextEnds(g, checked);
      if phi.ThePhi? {
        return false;
      }
      return true;
    }

    /** Reads characters until the current symbol is complete; a run is complete only when
        something else has been read behind it. */
    method ReadSymbols(cursym0: Symbol, curvalue0: int)
      returns (cursym: Symbol, curvalue: int, nextsym: Symbol, nextvalue: int)
      requires pos <= |text| && (cursym0 == SymEof ==> pos == |text|)
      modifies this`pos
      ensures old(pos) <= pos <= |text|
      ensures cursym != SymNone && Settled(cursym, nextsym)
      ensures cursym == SymEof || nextsym == SymEof ==> pos == |text|
      ensures cursym0 == SymNone && cursym != SymEof ==> pos > old(pos)
      ensures Pending(cursym, curvalue, nextsym, nextvalue, Lex(text, pos))
              == InFront(cursym0, curvalue0, Lex(text, old(pos)))
      ensures Weight(cursym) + Weight(nextsym) + |text| - pos <= Weight(cursym0) + |text| - old(pos)
    {
      hide Lex, TokenOf, InFront;
      cursym, curvalue, nextsym, nextvalue := cursym0, curvalue0, SymNone, 0;
      var loop := cursym == SymNone || cursym == SymMove || cursym == SymChange;
      NothingInFront(SymNone, 0, Lex(text, pos));
      while loop
        invariant old(pos) <= pos <= |text|
        invariant Weight(cursym) + Weight(nextsym) + |text| - pos <= Weight(cursym0) + |text| - old(pos)
        invariant loop ==> nextsym == SymNone && (cursym == SymNone || IsRun(cursym))
        invariant !loop ==> cursym != SymNone && Settled(cursym, nextsym)
        invariant cursym == SymEof || nextsym == SymEof ==> pos == |text|
        invariant cursym0 == SymNone && cursym != SymNone && cursym != SymEof ==> pos > old(pos)
        invariant Pending(cursym, curvalue, nextsym, nextvalue, Lex(text, pos))
                  == InFront(cursym0, curvalue0, Lex(text, old(pos)))
        decreases |text| - pos, loop
      {
        NothingInFront(nextsym, nextvalue, Lex(text, pos));
        if pos == |text| {
          LexEnd(text);
          if cursym == SymNone {
            cursym := SymEof;
            NothingInFront(SymNone, curvalue, []);
          } else {
            nextsym := SymEof;
          }
          NothingInFront(SymEof, curvalue, []);
          NothingInFront(SymEof, nextvalue, []);
          loop := false;
        } else {
          LexNext(text, pos);
          var c := text[pos];
          pos := pos + 1;
          cursym, curvalue, nextsym, nextvalue, loop :=
            TakeChar(c, cursym, curvalue, nextvalue, Lex(text, pos));
        }
      }
    }

    /** What one character does to the symbols being read. */
    method TakeChar(c: char, cursym0: Symbol, curvalue0: int, nextvalue0: int, ghost rest: seq<Token>)
      returns (cursym: Symbol, curvalue: int, nextsym: Symbol, nextvalue: int, loop: bool)
      requires cursym0 == SymNone || IsRun(cursym0)
      ensures Pending(cursym, curvalue, nextsym, nextvalue, rest) ==
              InFront(cursym0, curvalue0, if TokenOf(c) == [] then rest else Fuse(TokenOf(c)[0], rest))
      ensures loop ==> nextsym == SymNone && (cursym == SymNone || IsRun(cursym))
      ensures !loop ==> cursym != SymNone && Settled(cursym, nextsym)
      ensures cursym != SymEof && nextsym != SymEof
      ensures Weight(cursym) + Weight(nextsym) <= Weight(cursym0) + 1
    {
      cursym, curvalue, nextsym, nextvalue, loop := cursym0, curvalue0, SymNone, nextvalue0, true;
      if c == '-' || c == '+' {
        var direction := if c == '-' then -1 else 1;
        if cursym == SymChange {
          RunGrows(cursym, curvalue, direction, rest);
          curvalue := curvalue + direction;
        } else if cursym == SymNone {
          cursym, curvalue := SymChange, direction;
        } else {
          nextsym, nextvalue, loop := SymChange, direction, false;
        }
      } else if c == '<' || c == '>' {
        var direction := if c == '<' then -1 else 1;
        if cursym == SymMove {
          RunGrows(cursym, curvalue, direction, rest);
          curvalue := curvalue + direction;
        } else if cursym == SymNone {
          cursym, curvalue := SymMove, direction;
        } else {
          nextsym, nextvalue, loop := SymMove, direction, false;
        }
      } else if c == ',' || c == '.' || c == '[' || c == ']' {
        var sym := if c == ',' then SymRead else if c == '.' then SymWrite
                   else if c == '[' then SymLoop else SymEndLoop;
        if cursym == SymNone {
          cursym := sym;
        } else {
          nextsym := sym;
        }
        loop := false;
      }
    }

    /** Writes out the code of one symbol; a loop is compiled up to its end. */
    method WriteOut(cursym: Symbol, curvalue: int, ghost nextsym: Symbol, ghost nextvalue: int) returns (ok: bool)
      requires Shape(State(), checked) && pos <= |text|
      requires Settled(cursym, nextsym) && cursym != SymEof && cursym != SymEndLoop
      requires nextsym == SymEof ==> Lex(text, pos) == []
      modifies this
      ensures pos <= |text| && pos >= old(pos)
      ensures cursym != SymLoop ==> pos == old(pos)
      ensures !ok ==> old(Compile(State(), Pending(cursym, curvalue, nextsym, nextvalue, Lex(text, pos)), checked)) == Aborted
      ensures ok ==> Shape(State(), checked) && opens == old(opens)
      ensures ok ==> Compile(State(), InFront(nextsym, nextvalue, Lex(text, pos)), checked)
                     == old(Compile(State(), Pending(cursym, curvalue, nextsym, nextvalue, Lex(text, pos)), checked))
      decreases |text| - pos, if cursym == SymLoop then 3 else 1
    {
      hide Shape, Lex, Emit, Compile;
      ghost var g, rest := State(), InFront(nextsym, nextvalue, Lex(text, pos));
      InsertionBlock(g, checked);
      ok := true;
      if cursym != SymNone {
        SettledFront(cursym, curvalue, nextsym, nextvalue, Lex(text, pos));
      }
      match cursym {
        case SymRead =>
          WriteRead();
          TokenDone(g, Read, rest, checked);
        case SymWrite =>
          WriteWrite();
          TokenDone(g, Write, rest, checked);
        case SymMove =>
          WriteMove(curvalue);
          TokenDone(g, Move(curvalue), rest, checked);
        case SymChange =>
          WriteChange(curvalue);
          TokenDone(g, Change(curvalue), rest, checked);
        case SymLoop =>
          var phi, oldbb, testbb := BeginLoop();
          TokenDone(g, Loop, rest, checked);
          EmitOpens(g, checked);
          ok := ReadLoop(ThePhi(phi), oldbb, testbb);
        case _ =>
      }
    }

    /** Compiles a text.  The outcome is that of the fold over the text's tokens; so the compiled
        graph is well formed and means what the text means, and only texts whose brackets are
        not balanced abort. */
    method Parse() returns (outcome: Outcome)
      requires pos == 0
      modifies this
      ensures outcome == CompileText(text, memtotal, checked)
      ensures outcome.Compiled? <==> Balanced(text)
      ensures outcome.Compiled? ==> WellFormed(outcome.graph)
      ensures outcome.Compiled? && !checked ==>
                forall garbage: map<int, int>, input: seq<int>, r: Machine ::
                  (forall a :: a in garbage ==> 0 <= a < memtotal) ==>
                    (Interprets(text, Start(memtotal, input), r)
                     <==> Returns(outcome.graph, outcome.head, NoBounds, Boot(garbage, input), r))
    {
      hide Compile, Lex, Header, WellFormed;
      WriteHeader();
      HeaderShape(memtotal, checked);
      HeaderOpens(memtotal, checked);
      var ok := ReadLoop(NullPhi, 0, 0);
      outcome := if ok then Compiled(graph, curhead) else Aborted;
      AbortsIffUnbalanced(text, memtotal, checked);
      if ok {
        GeneratedCodeIsWellFormed(text, memtotal, checked);
        if !checked {
          forall garbage: map<int, int>, input: seq<int>, r: Machine | forall a :: a in garbage ==> 0 <= a < memtotal
            ensures Interprets(text, Start(memtotal, input), r)
                    <==> Returns(outcome.graph, outcome.head, NoBounds, Boot(garbage, input), r)
          {
            CompilerCorrect(text, memtotal, garbage, input, r);
          }
        }
      }
    }
  }

  // ---- The builder's single steps make up the code of a token ----

  lemma ExtendThrice(g: Graph, b: nat, x: Instr, y: Instr, z: Instr)
    ensures Extend(Extend(Extend(g, b, [x]), b, [y]), b, [z]) == Extend(g, b, [x, y, z])
  {
    ExtendTwice(g, b, [x], [y]);
    ExtendTwice(g, b, [x] + [y], [z]);
    assert [x] + [y] + [z] == [x, y, z];
  }

  lemma CheckedMoveGraph(g: Graph, b: nat, s: Gen, n: int)
    requires b < |g| && s.graph == g && s.bb == b
    ensures var r := s.next;
            var g3 := Extend(g, b, [Gep(r, s.head, n), IcmpUGE(r + 1, r, ARRMAX), IcmpULT(r + 2, r, ARR)]);
            Extend(Extend(g3, b, [Or(r + 3, r + 1, r + 2)]) + [Block([], [])], b, [CondBr(r + 3, ABERRORBB, |g|)])
            == Emit(s, Move(n), true).graph
  {
    var r := s.next;
    var x := [Gep(r, s.head, n), IcmpUGE(r + 1, r, ARRMAX), IcmpULT(r + 2, r, ARR)];
    var y, z := [Or(r + 3, r + 1, r + 2)], [CondBr(r + 3, ABERRORBB, |g|)];
    ExtendTwice(g, b, x, y);
    ExtendNew(Extend(g, b, x + y), b, z, Block([], []));
    ExtendTwice(g, b, x + y, z);
    assert x + y + z == Code(s, Move(n), true);
  }

  lemma ExtendKeeps(g: Graph, b: nat, code: seq<Instr>)
    ensures |Extend(g, b, code)| == |g| && forall c :: 0 <= c < |g| ==> Extend(g, b, code)[c].phis == g[c].phis
  {
  }

  /** The second entry and then the test are what closing the test block adds. */
  lemma ClosedAtOnce(g: Graph, o: Open, inc: Incoming, r: Reg, exit: nat)
    requires o.test < |g| && |g[o.test].phis| == 1
    ensures var p := g[o.test].phis[0];
            Extend(g[o.test := Block([Phi(p.dst, p.incoming + [inc])], g[o.test].instrs)], o.test,
                   [Load(r, o.phi), IcmpEqZero(r + 1, r), CondBr(r + 1, exit, o.body)])
            == g[o.test := CloseTest(g[o.test], o, inc, r, exit)]
  {
    var b := g[o.test];
    assert b.phis[1..] == [];
    var phis := [Phi(b.phis[0].dst, b.phis[0].incoming + [inc])];
    assert CloseTest(b, o, inc, r, exit)
        == Block(phis, b.instrs + [Load(r, o.phi), IcmpEqZero(r + 1, r), CondBr(r + 1, exit, o.body)]);
  }

  lemma EndLoopGraph(s: Gen, o: Open)
    requires s.opens != [] && o == s.opens[|s.opens| - 1] && s.bb < |s.graph| && o.test < |s.graph| && o.test != s.bb
    requires |s.graph[o.test].phis| == 1
    ensures var g1 := Extend(s.graph, s.bb, [Br(o.test)]);
            var p := g1[o.test].phis[0];
            var g2 := g1[o.test := Block([Phi(p.dst, p.incoming + [Incoming(s.bb, s.head)])], g1[o.test].instrs)];
            var r := s.next;
            var g3 := Extend(Extend(Extend(g2, o.test, [Load(r, o.phi)]), o.test, [IcmpEqZero(r + 1, r)]),
                             o.test, [CondBr(r + 1, |s.graph|, o.body)]);
            forall checked :: g3 + [Block([Phi(r + 2, [Incoming(o.test, o.phi)])], [])] == Emit(s, EndLoop, checked).graph
  {
    var g1 := Extend(s.graph, s.bb, [Br(o.test)]);
    var p := g1[o.test].phis[0];
    var g2 := g1[o.test := Block([Phi(p.dst, p.incoming + [Incoming(s.bb, s.head)])], g1[o.test].instrs)];
    var r := s.next;
    ExtendThrice(g2, o.test, Load(r, o.phi), IcmpEqZero(r + 1, r), CondBr(r + 1, |s.graph|, o.body));
    ClosedAtOnce(g1, o, Incoming(s.bb, s.head), r, |s.graph|);
  }

  /** The entry block, instruction by instruction. */
  lemma EntryInstrs(g: Graph, memory: nat, checked: bool)
    requires var tape := Extend(Extend([Block([], [])], 0, [Malloc(ARR, memory)]), 0, [Memset(ARR, 0, memory)]);
             g == if checked then Extend(tape, 0, [Gep(ARRMAX, ARR, memory)]) else tape
    ensures var head := if checked then 2 else 1;
            Extend(g, 0, [Gep(head, ARR, memory / 2)]) == [Header(memory, checked).graph[0]]
  {
    var x, y := Malloc(ARR, memory), Memset(ARR, 0, memory);
    assert [] + [x] + [y] == [x, y];
    if checked {
      var u, v := Gep(ARRMAX, ARR, memory), Gep(2, ARR, memory / 2);
      assert [x, y] + [u] + [v] == [x, y] + [u, v];
      assert g[0].instrs == [x, y] + [u];
    } else {
      assert g[0].instrs == [x, y];
    }
  }

  // ---- One step of the fold ----

  lemma InsertionBlock(g: Gen, checked: bool)
    requires Shape(g, checked)
    ensures g.bb < |g.graph|
  {
  }

  lemma OpenIsWaiting(g: Gen, checked: bool)
    requires Shape(g, checked) && g.opens != []
    ensures g.bb < |g.graph| && Waiting(g, g.opens[|g.opens| - 1])
  {
  }

  lemma TokenDone(g: Gen, t: Token, rest: seq<Token>, checked: bool)
    requires Shape(g, checked) && !t.EndLoop?
    ensures Compile(g, [t] + rest, checked) == Compile(Emit(g, t, checked), rest, checked)
    ensures Shape(Emit(g, t, checked), checked)
    ensures !t.Loop? ==> Emit(g, t, checked).opens == g.opens
  {
    hide Shape;
    EmitShape(g, t, checked);
    assert ([t] + rest)[1..] == rest;
  }

  lemma EndLoopDone(g: Gen, rest: seq<Token>, checked: bool)
    requires Shape(g, checked) && g.opens != []
    ensures Compile(g, [EndLoop] + rest, checked) == Compile(Emit(g, EndLoop, checked), rest, checked)
    ensures Shape(Emit(g, EndLoop, checked), checked)
    ensures Emit(g, EndLoop, checked).opens == g.opens[..|g.opens| - 1]
  {
    hide Shape;
    EmitShape(g, EndLoop, checked);
    assert ([EndLoop] + rest)[1..] == rest;
  }

  lemma ExtraBracket(g: Gen, rest: seq<Token>, checked: bool)
    requires g.opens == []
    ensures Compile(g, [EndLoop] + rest, checked) == Aborted
  {
  }

  lemma TextEnds(g: Gen, checked: bool)
    requires g.bb < |g.graph|
    ensures Compile(g, [], checked) ==
            if g.opens == [] then Compiled(Extend(g.graph, g.bb, [Br(ENDBB)]), g.head) else Aborted
  {
  }
}
