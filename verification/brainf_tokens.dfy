/** The symbols the compiler works on: runs of `+ -` and of `< >` are fused into one symbol
    each.  Proves that fusing preserves the meaning of every text. */
module BrainFTokens {
  import opened BrainFLanguage

  datatype Token = Read | Write | Move(count: int) | Change(count: int) | Loop | EndLoop

  // ---- Fusing ----

  function TokenOf(c: char): seq<Token> {
    match c
    case '-' => [Change(-1)]
    case '+' => [Change(1)]
    case '<' => [Move(-1)]
    case '>' => [Move(1)]
    case ',' => [Read]
    case '.' => [Write]
    case '[' => [Loop]
    case ']' => [EndLoop]
    case _ => []
  }

  /** Puts one more token in front, fusing it with a neighbour of the same kind. */
  function Fuse(t: Token, ts: seq<Token>): seq<Token> {
    if |ts| > 0 && t.Move? && ts[0].Move? then [Move(t.count + ts[0].count)] + ts[1..]
    else if |ts| > 0 && t.Change? && ts[0].Change? then [Change(t.count + ts[0].count)] + ts[1..]
    else [t] + ts
  }

  /** The fused tokens of the text from position `p` on; other characters are comments, even
      inside a run. */
  function Lex(text: string, p: nat): seq<Token>
    requires p <= |text|
    decreases |text| - p
  {
    if p == |text| then []
    else if TokenOf(text[p]) == [] then Lex(text, p + 1)
    else Fuse(TokenOf(text[p])[0], Lex(text, p + 1))
  }

  function TokenBracket(t: Token): Bracket {
    match t
    case Loop => Opening
    case EndLoop => Closing
    case _ => Neither
  }

  function TokenBrackets(ts: seq<Token>): (b: seq<Bracket>)
    ensures |b| == |ts|
  {
    seq(|ts|, i requires 0 <= i < |ts| => TokenBracket(ts[i]))
  }

  // ---- The token machine ----

  /** The effect of a token that is not a bracket. */
  function Apply(t: Token, m: Machine): Machine
    requires !t.Loop? && !t.EndLoop?
  {
    match t
    case Read => ReadByte(m)
    case Write => WriteByte(m)
    case Move(n) => m.(head := m.head + n)
    case Change(n) => m.SetCell((m.Cell() + n) % 256)
  }

  /** `lost` is set by a fused move that ends outside a tape that has bounds. */
  datatype TokPoint = TokPoint(pc: nat, m: Machine, lost: bool)

  function TokStep(ts: seq<Token>, bounds: Bounds, s: TokPoint): (r: TokPoint)
    requires s.pc <= |ts|
    ensures r.pc <= |ts|
  {
    var TokPoint(pc, m, lost) := s;
    if pc == |ts| || lost then s
    else match ts[pc]
      case Loop => if m.Cell() != 0 then TokPoint(pc + 1, m, false)
                   else TokPoint(SkipForward(TokenBrackets(ts), pc + 1, 0), m, false)
      case EndLoop => TokPoint(ScanBack(TokenBrackets(ts), pc, 0), m, false)
      case Move(_) => var m' := Apply(ts[pc], m); TokPoint(pc + 1, m', OffTape(bounds, m'.head))
      case _ => TokPoint(pc + 1, Apply(ts[pc], m), false)
  }

  function TokRun(ts: seq<Token>, bounds: Bounds, n: nat, s: TokPoint): (r: TokPoint)
    requires s.pc <= |ts|
    ensures r.pc <= |ts|
    decreases n
  {
    if n == 0 then s else TokStep(ts, bounds, TokRun(ts, bounds, n - 1, s))
  }

  predicate Halted(ts: seq<Token>, s: TokPoint) {
    s.pc == |ts| || s.lost
  }

  /** The tokens, started on `m`, run to their end and leave machine `r`. */
  ghost predicate TokInterprets(ts: seq<Token>, m: Machine, r: Machine) {
    exists n: nat :: TokRun(ts, NoBounds, n, TokPoint(0, m, false)) == TokPoint(|ts|, r, false)
  }

  lemma {:induction false} TokRunStays(ts: seq<Token>, bounds: Bounds, a: nat, b: nat, s: TokPoint)
    requires s.pc <= |ts| && a <= b
    requires Halted(ts, TokRun(ts, bounds, a, s))
    ensures TokRun(ts, bounds, b, s) == TokRun(ts, bounds, a, s)
    decreases b
  {
    if a < b {
      TokRunStays(ts, bounds, a, b - 1, s);
    }
  }

  lemma {:induction false} NeverLost(ts: seq<Token>, n: nat, m: Machine)
    ensures !TokRun(ts, NoBounds, n, TokPoint(0, m, false)).lost
    decreases n
  {
    if n > 0 {
      NeverLost(ts, n - 1, m);
    }
  }

  // ---- Positions of the text and positions of its tokens ----

  /** The index of the token that position `p` of the text belongs to. */
  function TokenIndex(text: string, p: nat): (i: int)
    requires p <= |text|
  {
    |Lex(text, 0)| - |Lex(text, p)|
  }

  /** One character is a comment, joins the run behind it, or is a token of its own. */
  lemma {:induction false} LexCases(text: string, p: nat)
    requires p < |text|
    ensures var ts, rest := Lex(text, p), Lex(text, p + 1);
            || (ts == rest && TokenOf(text[p]) == [] && BracketOf(text[p]) == Neither)
            || (|ts| == |rest| > 0 && ts[1..] == rest[1..] && BracketOf(text[p]) == Neither
                && TokenBracket(ts[0]) == TokenBracket(rest[0]) == Neither)
            || (|ts| == |rest| + 1 && ts[1..] == rest && TokenBracket(ts[0]) == BracketOf(text[p]))
  {
  }

  lemma LexUnfold(text: string, p: nat)
    requires p < |text|
    ensures Lex(text, p) == if TokenOf(text[p]) == [] then Lex(text, p + 1)
                            else Fuse(TokenOf(text[p])[0], Lex(text, p + 1))
  {
  }

  /** What comes behind a run of changes is no change, and behind a run of moves no move. */
  predicate RunsEnd(ts: seq<Token>) {
    forall k :: 0 <= k < |ts| ==> RunEnds(ts, k)
  }

  predicate RunEnds(ts: seq<Token>, k: nat)
    requires k < |ts|
  {
    k + 1 < |ts| ==> !(ts[k].Change? && ts[k + 1].Change?) && !(ts[k].Move? && ts[k + 1].Move?)
  }

  /** Runs are as long as they can be. */
  lemma {:induction false} RunsAreMaximal(text: string, p: nat)
    requires p <= |text|
    ensures RunsEnd(Lex(text, p))
    decreases |text| - p
  {
    hide TokenOf, RunsEnd;
    if p < |text| {
      RunsAreMaximal(text, p + 1);
      if TokenOf(text[p]) != [] {
        FusedIsMaximal(TokenOf(text[p])[0], Lex(text, p + 1));
      }
    } else {
      assert RunsEnd([]) by { NoRuns(); }
    }
  }

  lemma NoRuns()
    ensures RunsEnd([])
  {
  }

  lemma FusedIsMaximal(t: Token, ts: seq<Token>)
    requires RunsEnd(ts)
    ensures RunsEnd(Fuse(t, ts))
  {
    var r := Fuse(t, ts);
    var shift := |r| - |ts|;
    forall k | 0 <= k < |r| ensures RunEnds(r, k) {
      if k >= shift {
        assert RunEnds(ts, k - shift);
      }
    }
  }

  /** Fusing changes only the token a run begins with, and never its bracket. */
  lemma {:induction false} LexSuffix(text: string, p: nat)
    requires p <= |text|
    ensures var all, ts, i := Lex(text, 0), Lex(text, p), TokenIndex(text, p);
            0 <= i && (|ts| > 0 ==> TokenBracket(all[i]) == TokenBracket(ts[0]) && all[i + 1..] == ts[1..])
    decreases p
  {
    hide Lex, TokenOf;
    if p > 0 {
      LexSuffix(text, p - 1);
      LexCases(text, p - 1);
    }
  }

  /** One position further in the text is the same token, or the next one. */
  lemma {:induction false} IndexStep(text: string, p: nat)
    requires p < |text|
    ensures 0 <= TokenIndex(text, p) <= TokenIndex(text, p + 1) <= |Lex(text, 0)|
    ensures var b, i := TokenBrackets(Lex(text, 0)), TokenIndex(text, p);
            if TokenIndex(text, p + 1) == i then BracketOf(text[p]) == Neither
            else TokenIndex(text, p + 1) == i + 1 && b[i] == BracketOf(text[p])
  {
    hide Lex;
    LexSuffix(text, p);
    LexCases(text, p);
  }

  lemma {:induction false} SkipAgrees(text: string, p: nat, depth: nat)
    requires p <= |text|
    ensures 0 <= TokenIndex(text, p) <= |Lex(text, 0)|
    ensures SkipForward(TokenBrackets(Lex(text, 0)), TokenIndex(text, p), depth)
            == TokenIndex(text, SkipForward(Brackets(text), p, depth))
    decreases |text| - p
  {
    hide Lex;
    LexSuffix(text, p);
    if p == |text| {
      LexEnd(text);
    } else {
      IndexStep(text, p);
      match BracketOf(text[p])
      case Neither => SkipAgrees(text, p + 1, depth);
      case Opening => SkipAgrees(text, p + 1, depth + 1);
      case Closing => if depth > 0 { SkipAgrees(text, p + 1, depth - 1); }
    }
  }

  lemma {:induction false} BackAgrees(text: string, p: nat, depth: nat)
    requires p <= |text|
    ensures 0 <= TokenIndex(text, p) <= |Lex(text, 0)|
    ensures ScanBack(TokenBrackets(Lex(text, 0)), TokenIndex(text, p), depth)
            == TokenIndex(text, ScanBack(Brackets(text), p, depth))
    decreases p
  {
    hide Lex;
    LexSuffix(text, p);
    if p > 0 {
      IndexStep(text, p - 1);
      match BracketOf(text[p - 1])
      case Neither => BackAgrees(text, p - 1, depth);
      case Closing => BackAgrees(text, p - 1, depth + 1);
      case Opening => if depth > 0 { BackAgrees(text, p - 1, depth - 1); }
    }
  }

  /** The text is balanced exactly when its tokens are. */
  lemma {:induction false} NestingAgrees(text: string, p: nat)
    requires p <= |text|
    ensures 0 <= TokenIndex(text, p) <= |Lex(text, 0)|
    ensures Nesting(TokenBrackets(Lex(text, 0)), TokenIndex(text, p)) == Nesting(Brackets(text), p)
    decreases p
  {
    hide Lex;
    LexSuffix(text, p);
    if p > 0 {
      IndexStep(text, p - 1);
      NestingAgrees(text, p - 1);
    }
  }

  /** A run can be entered only at its beginning. */
  predicate Boundary(text: string, p: nat)
    requires p <= |text|
  {
    p == 0 || p == |text| || BracketOf(text[p]) != Neither || BracketOf(text[p - 1]) != Neither
  }

  /** At a boundary the tokens still to come are a suffix of all the tokens. */
  lemma {:induction false} BoundarySuffix(text: string, p: nat, q: nat)
    requires p <= q <= |text| && Boundary(text, q) && q > 0
    ensures |Lex(text, p)| >= |Lex(text, q)|
    ensures Lex(text, p)[|Lex(text, p)| - |Lex(text, q)|..] == Lex(text, q)
    ensures p < q && BracketOf(text[q - 1]) != Neither ==> |Lex(text, p)| > |Lex(text, q)|
    decreases q - p
  {
    hide Lex, TokenOf, BracketOf, TokenBracket;
    if p < q {
      BoundarySuffix(text, p + 1, q);
      LexCases(text, p);
      if q < |text| {
        LexCases(text, q);
      } else {
        LexEnd(text);
      }
    }
  }

  // ---- Fusing preserves meaning ----

  lemma BytesAdd(x: int, a: int, b: int)
    ensures ((x + a) % 256 + b) % 256 == (x + (a + b)) % 256
  {
  }

  lemma {:induction false} FusedPair(a: Token, b: Token, m: Machine)
    requires (a.Move? && b.Move?) || (a.Change? && b.Change?)
    ensures Fuse(a, [b]) == [if a.Move? then Move(a.count + b.count) else Change(a.count + b.count)]
    ensures Apply(Fuse(a, [b])[0], m) == Apply(b, Apply(a, m))
  {
    if a.Change? {
      var x := m.Cell();
      BytesAdd(x, a.count, b.count);
      assert m.tape[m.head := (x + a.count) % 256][m.head := (x + (a.count + b.count)) % 256]
          == m.tape[m.head := (x + (a.count + b.count)) % 256];
    }
  }

  /** A character has the effect of its token; a comment has none. */
  lemma CharacterIsToken(text: string, p: nat, m: Machine)
    requires p < |text| && BracketOf(text[p]) == Neither
    ensures CharStep(text, Point(p, m)) ==
            Point(p + 1, if TokenOf(text[p]) == [] then m else Apply(TokenOf(text[p])[0], m))
  {
  }

  lemma {:induction false} OneCharacter(text: string, p: nat, m: Machine, n: nat)
    requires p < |text|
    ensures CharRun(text, n + 1, Point(p, m)) == CharRun(text, n, CharStep(text, Point(p, m)))
    ensures CharRun(text, 1, Point(p, m)) == CharStep(text, Point(p, m))
  {
    hide CharStep;
    assert CharRun(text, 0, CharStep(text, Point(p, m))) == CharStep(text, Point(p, m));
  }

  /** Executing characters until the first token ahead is used up has that token's effect. */
  lemma {:induction false} CatchUp(text: string, p: nat, m: Machine) returns (c: nat, q: nat)
    requires p <= |text| && |Lex(text, p)| > 0
    requires !Lex(text, p)[0].Loop? && !Lex(text, p)[0].EndLoop?
    ensures c > 0 && q <= |text|
    ensures CharRun(text, c, Point(p, m)) == Point(q, Apply(Lex(text, p)[0], m))
    ensures Lex(text, q) == Lex(text, p)[1..]
    decreases |text| - p
  {
    hide Lex, TokenOf, CharStep, CharRun, Apply;
    LexEnd(text);
    var ts, rest := Lex(text, p), Lex(text, p + 1);
    LexCases(text, p);
    LexUnfold(text, p);
    CharacterIsToken(text, p, m);
    if TokenOf(text[p]) == [] {
      c, q := CatchUp(text, p + 1, m);
      OneCharacter(text, p, m, c);
      c := c + 1;
    } else {
      var t := TokenOf(text[p])[0];
      if |ts| == |rest| + 1 {
        OneCharacter(text, p, m, 0);
        c, q := 1, p + 1;
      } else {
        FusedPair(t, rest[0], m);
        c, q := CatchUp(text, p + 1, Apply(t, m));
        OneCharacter(text, p, m, c);
        c := c + 1;
      }
    }
  }

  /** Executing comments changes nothing. */
  lemma {:induction false} SkipComments(text: string, p: nat, m: Machine) returns (c: nat, q: nat)
    requires p <= |text|
    requires |Lex(text, p)| == 0 || Lex(text, p)[0].Loop? || Lex(text, p)[0].EndLoop?
    ensures q <= |text| && CharRun(text, c, Point(p, m)) == Point(q, m)
    ensures Lex(text, q) == Lex(text, p)
    ensures q < |text| ==> TokenOf(text[q]) != []
    ensures Lex(text, p) == [] ==> q == |text|
    decreases |text| - p
  {
    hide Lex, TokenOf, CharStep;
    if p == |text| {
      LexEnd(text);
    } else {
      LexUnfold(text, p);
    }
    if p < |text| && TokenOf(text[p]) == [] {
      LexCases(text, p);
      CharacterIsToken(text, p, m);
      c, q := SkipComments(text, p + 1, m);
      c := c + 1;
    } else {
      c, q := 0, p;
    }
  }

  /** The text at `p` is where the tokens are at `i`. */
  ghost predicate Aligned(text: string, c: Point, s: TokPoint) {
    && c.pc <= |text| && s.pc <= |Lex(text, 0)|
    && Lex(text, c.pc) == Lex(text, 0)[s.pc..]
    && c.m == s.m && !s.lost
  }

  lemma {:induction false} AlignedAtBoundary(text: string, p: nat, m: Machine)
    requires p <= |text| && Boundary(text, p)
    ensures 0 <= TokenIndex(text, p)
    ensures Aligned(text, Point(p, m), TokPoint(TokenIndex(text, p), m, false))
  {
    if p > 0 {
      BoundarySuffix(text, 0, p);
    }
  }

  /** Where the scans stop is a boundary. */
  lemma {:induction false} ScansFindBoundaries(text: string, p: nat, depth: nat)
    requires p <= |text|
    ensures Boundary(text, SkipForward(Brackets(text), p, depth))
    ensures Boundary(text, ScanBack(Brackets(text), p, depth))
  {
    ForwardFindsBoundary(text, p, depth);
    BackFindsBoundary(text, p, depth);
  }

  lemma {:induction false} ForwardFindsBoundary(text: string, p: nat, depth: nat)
    requires p <= |text|
    ensures Boundary(text, SkipForward(Brackets(text), p, depth))
    decreases |text| - p
  {
    hide Lex;
    if p < |text| {
      match BracketOf(text[p])
      case Neither => ForwardFindsBoundary(text, p + 1, depth);
      case Opening => ForwardFindsBoundary(text, p + 1, depth + 1);
      case Closing => if depth > 0 { ForwardFindsBoundary(text, p + 1, depth - 1); }
    }
  }

  lemma {:induction false} BackFindsBoundary(text: string, p: nat, depth: nat)
    requires p <= |text|
    ensures Boundary(text, ScanBack(Brackets(text), p, depth))
    decreases p
  {
    hide Lex;
    if p > 0 {
      match BracketOf(text[p - 1])
      case Neither => BackFindsBoundary(text, p - 1, depth);
      case Closing => BackFindsBoundary(text, p - 1, depth + 1);
      case Opening => if depth > 0 { BackFindsBoundary(text, p - 1, depth - 1); }
    }
  }

  /** One token step is one or more character steps. */
  lemma {:induction false} TokenIsCharacters(text: string, s: TokPoint, p: nat) returns (c: nat)
    requires Aligned(text, Point(p, s.m), s) && s.pc < |Lex(text, 0)|
    ensures c > 0
    ensures Aligned(text, CharRun(text, c, Point(p, s.m)), TokStep(Lex(text, 0), NoBounds, s))
  {
    hide Lex, TokenOf, CharStep, CharRun, Apply;
    var ts := Lex(text, 0);
    assert Lex(text, p)[0] == ts[s.pc];
    if ts[s.pc].Loop? || ts[s.pc].EndLoop? {
      var c0, q := SkipComments(text, p, s.m);
      CharRunAdds(text, c0, 1, Point(p, s.m));
      c := c0 + 1;
      LexEnd(text);
      OneCharacter(text, q, s.m, 0);
      BracketIsCharacter(text, s, q);
    } else {
      var q;
      c, q := CatchUp(text, p, s.m);
      assert Lex(text, p)[1..] == ts[s.pc + 1..];
      SimpleTokStep(ts, s);
    }
  }

  lemma SimpleTokStep(ts: seq<Token>, s: TokPoint)
    requires s.pc < |ts| && !s.lost && !ts[s.pc].Loop? && !ts[s.pc].EndLoop?
    ensures TokStep(ts, NoBounds, s) == TokPoint(s.pc + 1, Apply(ts[s.pc], s.m), false)
  {
  }

  /** The bracket at hand is the token at hand. */
  lemma BracketAtHand(text: string, s: TokPoint, q: nat)
    requires Aligned(text, Point(q, s.m), s) && q < |text| && s.pc < |Lex(text, 0)|
    requires TokenOf(text[q]) != []
    requires Lex(text, 0)[s.pc].Loop? || Lex(text, 0)[s.pc].EndLoop?
    ensures s.pc == TokenIndex(text, q) && TokenIndex(text, q + 1) == s.pc + 1
    ensures TokenBracket(Lex(text, 0)[s.pc]) == BracketOf(text[q]) != Neither
  {
    hide Lex;
    LexCases(text, q);
    LexSuffix(text, q);
    IndexStep(text, q);
    assert TokenBracket(Lex(text, q)[0]) == TokenBracket(Lex(text, 0)[s.pc]);
  }

  /** A bracket jumps to corresponding places of the text and of its tokens. */
  lemma {:induction false} BracketIsCharacter(text: string, s: TokPoint, q: nat)
    requires Aligned(text, Point(q, s.m), s) && q < |text| && s.pc < |Lex(text, 0)|
    requires TokenOf(text[q]) != []
    requires Lex(text, 0)[s.pc].Loop? || Lex(text, 0)[s.pc].EndLoop?
    ensures Aligned(text, CharStep(text, Point(q, s.m)), TokStep(Lex(text, 0), NoBounds, s))
  {
    hide Lex, TokenIndex, Aligned, SkipForward, ScanBack, TokenBrackets;
    BracketAtHand(text, s, q);
    NotLost(text, Point(q, s.m), s);
    var after := CharStep(text, Point(q, s.m));
    if text[q] == ']' {
      BackAgrees(text, q, 0);
      ScansFindBoundaries(text, q, 0);
    } else if s.m.Cell() == 0 {
      SkipAgrees(text, q + 1, 0);
      ScansFindBoundaries(text, q + 1, 0);
    }
    AlignedAtBoundary(text, after.pc, s.m);
  }

  lemma NotLost(text: string, c: Point, s: TokPoint)
    requires Aligned(text, c, s)
    ensures !s.lost && s.pc <= |Lex(text, 0)| && c.m == s.m
  {
    hide Lex;
  }


  /** The characters keep pace with any run of the tokens. */
  lemma {:induction false} CharactersKeepPace(text: string, n: nat, m: Machine) returns (c: nat)
    ensures Aligned(text, CharRun(text, c, Point(0, m)), TokRun(Lex(text, 0), NoBounds, n, TokPoint(0, m, false)))
    ensures TokRun(Lex(text, 0), NoBounds, n, TokPoint(0, m, false)).pc == |Lex(text, 0)| || c >= n
    decreases n
  {
    hide Lex, CharStep;
    if n == 0 {
      c := 0;
    } else {
      var c0 := CharactersKeepPace(text, n - 1, m);
      var s := TokRun(Lex(text, 0), NoBounds, n - 1, TokPoint(0, m, false));
      if s.pc == |Lex(text, 0)| {
        c := c0;
      } else {
        var at := CharRun(text, c0, Point(0, m));
        var c1 := TokenIsCharacters(text, s, at.pc);
        CharRunAdds(text, c0, c1, Point(0, m));
        c := c0 + c1;
      }
    }
  }

  /** Fusing is exact: the characters run to the end with machine `r` if and only if the
      tokens do.  So one terminates exactly when the other does. */
  lemma {:induction false} FusionPreservesMeaning(text: string, m: Machine, r: Machine)
    ensures Interprets(text, m, r) <==> TokInterprets(Lex(text, 0), m, r)
  {
    hide Lex;
    if TokInterprets(Lex(text, 0), m, r) {
      var n: nat :| TokRun(Lex(text, 0), NoBounds, n, TokPoint(0, m, false)) == TokPoint(|Lex(text, 0)|, r, false);
      TokensEndCharactersEnd(text, n, m, r);
    }
    if Interprets(text, m, r) {
      var k: nat :| CharRun(text, k, Point(0, m)) == Point(|text|, r);
      CharactersEndTokensEnd(text, k, m, r);
    }
  }

  lemma {:induction false} TokensEndCharactersEnd(text: string, n: nat, m: Machine, r: Machine)
    requires TokRun(Lex(text, 0), NoBounds, n, TokPoint(0, m, false)) == TokPoint(|Lex(text, 0)|, r, false)
    ensures Interprets(text, m, r)
  {
    hide Lex;
    var c := CharactersKeepPace(text, n, m);
    var at := CharRun(text, c, Point(0, m));
    var c1, q := SkipComments(text, at.pc, at.m);
    CharRunAdds(text, c, c1, Point(0, m));
    assert CharRun(text, c + c1, Point(0, m)) == Point(|text|, r);
  }

  lemma {:induction false} CharactersEndTokensEnd(text: string, k: nat, m: Machine, r: Machine)
    requires CharRun(text, k, Point(0, m)) == Point(|text|, r)
    ensures TokInterprets(Lex(text, 0), m, r)
  {
    hide Lex;
    var s := TokRun(Lex(text, 0), NoBounds, k, TokPoint(0, m, false));
    NeverLost(Lex(text, 0), k, m);
    var c := CharactersKeepPace(text, k, m);
    if s.pc == |Lex(text, 0)| {
      TokensEndCharactersEnd(text, k, m, s.m);
      var k': nat :| CharRun(text, k', Point(0, m)) == Point(|text|, s.m);
      SameEnd(text, k, k', m);
      assert TokRun(Lex(text, 0), NoBounds, k, TokPoint(0, m, false)) == TokPoint(|Lex(text, 0)|, r, false);
    } else {
      CharRunAdds(text, k, c - k, Point(0, m));
      CharRunStays(text, c - k, Point(|text|, r));
      LexEnd(text);
    }
  }

  lemma LexEnd(text: string)
    ensures Lex(text, |text|) == []
  {
  }

  lemma {:induction false} SameEnd(text: string, a: nat, b: nat, m: Machine)
    requires CharRun(text, a, Point(0, m)).pc == |text| == CharRun(text, b, Point(0, m)).pc
    ensures CharRun(text, a, Point(0, m)) == CharRun(text, b, Point(0, m))
  {
    if a <= b {
      CharRunAdds(text, a, b - a, Point(0, m));
      CharRunStays(text, b - a, CharRun(text, a, Point(0, m)));
    } else {
      SameEnd(text, b, a, m);
    }
  }
}
