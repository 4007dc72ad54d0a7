/** The BrainF language itself: the machine its eight commands act on, and an interpreter
    that executes the source text one character at a time.  Nothing here knows about the
    compiler; this is the meaning the generated code is measured against. */
module BrainFLanguage {

  /** What a program does that can be seen from outside. */
  datatype Event = PutChar(byte: int) | Puts(line: string)

  /** The tape is unbounded and zero wherever nothing was ever stored. */
  datatype Machine = Machine(head: int, tape: map<int, int>, input: seq<int>, output: seq<Event>) {
    function Cell(): int {
      CellAt(tape, head)
    }

    function SetCell(value: int): Machine {
      this.(tape := tape[head := value])
    }
  }

  function CellAt(tape: map<int, int>, address: int): int {
    if address in tape then tape[address] else 0
  }

  /** The fresh tape of a program that was given `memory` cells: zeros, head in the middle. */
  function ZeroTape(memory: nat): map<int, int> {
    if memory == 0 then map[] else ZeroTape(memory - 1)[memory - 1 := 0]
  }

  function Start(memory: nat, input: seq<int>): Machine {
    Machine(memory / 2, ZeroTape(memory), input, [])
  }

  /** `,` stores the next byte of the input, or 255 at its end. */
  function ReadByte(m: Machine): Machine {
    if m.input == [] then m.SetCell(255)
    else m.SetCell(m.input[0] % 256).(input := m.input[1..])
  }

  function WriteByte(m: Machine): Machine {
    m.(output := m.output + [PutChar(m.Cell() % 256)])
  }

  /** The tape of the language has no ends; the memory of a compiled program may have. */
  datatype Bounds = NoBounds | Cells(size: nat)

  predicate OffTape(bounds: Bounds, address: int) {
    bounds.Cells? && !(0 <= address < bounds.size)
  }

  // ---- Brackets ----

  datatype Bracket = Opening | Closing | Neither

  function BracketOf(c: char): Bracket {
    if c == '[' then Opening else if c == ']' then Closing else Neither
  }

  function Brackets(text: string): (b: seq<Bracket>)
    ensures |b| == |text| && forall i :: 0 <= i < |b| ==> b[i] == BracketOf(text[i])
  {
    seq(|text|, i requires 0 <= i < |text| => BracketOf(text[i]))
  }

  /** Scans forward from `p`, `depth` loops deep, to the place just behind the bracket that
      closes the surrounding loop (the end when there is none). */
  function SkipForward(b: seq<Bracket>, p: nat, depth: nat): (q: nat)
    requires p <= |b|
    ensures p <= q <= |b|
    decreases |b| - p
  {
    if p == |b| then p
    else match b[p]
      case Neither => SkipForward(b, p + 1, depth)
      case Opening => SkipForward(b, p + 1, depth + 1)
      case Closing => if depth == 0 then p + 1 else SkipForward(b, p + 1, depth - 1)
  }

  /** Scans backward from `p` to the bracket that opens the surrounding loop (the beginning
      when there is none). */
  function ScanBack(b: seq<Bracket>, p: nat, depth: nat): (q: nat)
    requires p <= |b|
    ensures q <= p
    decreases p
  {
    if p == 0 then 0
    else match b[p - 1]
      case Neither => ScanBack(b, p - 1, depth)
      case Closing => ScanBack(b, p - 1, depth + 1)
      case Opening => if depth == 0 then p - 1 else ScanBack(b, p - 1, depth - 1)
  }

  /** How many loops are open behind the first `p` brackets; none when some bracket closed a
      loop that was never opened. */
  function Nesting(b: seq<Bracket>, p: nat): (d: int)
    requires p <= |b|
    ensures -1 <= d <= p
  {
    if p == 0 then 0
    else
      var d := Nesting(b, p - 1);
      if d < 0 then -1
      else match b[p - 1]
        case Neither => d
        case Opening => d + 1
        case Closing => d - 1
  }

  /** How many more loops begin than end between two places. */
  function Balance(b: seq<Bracket>, p: nat, q: nat): int
    requires p <= q <= |b|
    decreases q
  {
    if p == q then 0
    else Balance(b, p, q - 1) + match b[q - 1] case Opening => 1 case Closing => -1 case Neither => 0
  }

  lemma {:induction false} BalanceAdds(b: seq<Bracket>, p: nat, m: nat, q: nat)
    requires p <= m <= q <= |b|
    ensures Balance(b, p, q) == Balance(b, p, m) + Balance(b, m, q)
    decreases q
  {
    if m < q {
      BalanceAdds(b, p, m, q - 1);
    }
  }

  /** Skipping forward ends just behind the first bracket that closes one loop more than were opened
      since, `depth` loops further out, or at the end if there is none. */
  lemma {:induction false} SkipForwardMatches(b: seq<Bracket>, p: nat, depth: nat)
    requires p <= |b|
    ensures var q := SkipForward(b, p, depth);
            && (forall k :: p <= k < q ==> Balance(b, p, k) >= 0 - depth as int)
            && if Balance(b, p, q) < 0 - depth as int then p < q && b[q - 1] == Closing && Balance(b, p, q) == -1 - depth as int
               else q == |b|
    decreases |b| - p
  {
    if p < |b| {
      var q := SkipForward(b, p, depth);
      var inner: int := match b[p] case Neither => depth case Opening => depth + 1 case Closing => depth - 1;
      if inner >= 0 {
        SkipForwardMatches(b, p + 1, inner);
        forall k | p < k <= q ensures Balance(b, p, k) == depth - inner + Balance(b, p + 1, k) - 2 * (depth - inner) {
          BalanceAdds(b, p, p + 1, k);
        }
      }
    }
  }

  /** Scanning back ends at the nearest bracket that opens one loop more than were closed since,
      `depth` loops further out, or at the beginning if there is none. */
  lemma {:induction false} ScanBackMatches(b: seq<Bracket>, p: nat, depth: nat)
    requires p <= |b|
    ensures var q := ScanBack(b, p, depth);
            && (forall k :: q < k <= p ==> Balance(b, k, p) <= depth)
            && if Balance(b, q, p) > depth then q < p && b[q] == Opening && Balance(b, q, p) == depth + 1 else q == 0
    decreases p
  {
    if p > 0 {
      var q := ScanBack(b, p, depth);
      var inner: int := match b[p - 1] case Neither => depth case Closing => depth + 1 case Opening => depth - 1;
      if inner >= 0 {
        ScanBackMatches(b, p - 1, inner);
        forall k | q <= k < p ensures Balance(b, k, p) == Balance(b, k, p - 1) + depth - inner {
          BalanceAdds(b, k, p - 1, p);
        }
      }
    }
  }

  /** The depth is the balance, unless some bracket before closed a loop that was never opened; then
      it is negative, and stays so. */
  lemma {:induction false} NestingIsBalance(b: seq<Bracket>, p: nat)
    requires p <= |b|
    ensures Nesting(b, p) >= 0 <==> forall k :: 0 <= k <= p ==> Balance(b, 0, k) >= 0
    ensures Nesting(b, p) >= 0 ==> Nesting(b, p) == Balance(b, 0, p)
    decreases p
  {
    if p > 0 {
      NestingIsBalance(b, p - 1);
      assert Balance(b, 0, p) == Balance(b, 0, p - 1) + match b[p - 1] case Opening => 1 case Closing => -1 case Neither => 0;
      if forall k :: 0 <= k <= p - 1 ==> Balance(b, 0, k) >= 0 {
        assert Nesting(b, p) == Balance(b, 0, p);
        assert (forall k :: 0 <= k <= p ==> Balance(b, 0, k) >= 0) <==> Balance(b, 0, p) >= 0;
      }
    }
  }

  /** Every loop is closed, and nothing is closed that is not open. */
  predicate Balanced(text: string) {
    Nesting(Brackets(text), |text|) == 0
  }

  // ---- The interpreter ----

  /** The machine together with the position of the next character. */
  datatype Point = Point(pc: nat, m: Machine)

  function CharStep(text: string, s: Point): (r: Point)
    requires s.pc <= |text|
    ensures r.pc <= |text|
  {
    var Point(pc, m) := s;
    if pc == |text| then s
    else match text[pc]
      case ',' => Point(pc + 1, ReadByte(m))
      case '.' => Point(pc + 1, WriteByte(m))
      case '-' => Point(pc + 1, m.SetCell((m.Cell() - 1) % 256))
      case '+' => Point(pc + 1, m.SetCell((m.Cell() + 1) % 256))
      case '<' => Point(pc + 1, m.(head := m.head - 1))
      case '>' => Point(pc + 1, m.(head := m.head + 1))
      case '[' => if m.Cell() != 0 then Point(pc + 1, m)
                  else Point(SkipForward(Brackets(text), pc + 1, 0), m)
      case ']' => Point(ScanBack(Brackets(text), pc, 0), m)
      case _ => Point(pc + 1, m)
  }

  function CharRun(text: string, n: nat, s: Point): (r: Point)
    requires s.pc <= |text|
    ensures r.pc <= |text|
    decreases n
  {
    if n == 0 then s else CharRun(text, n - 1, CharStep(text, s))
  }

  /** The text, started on machine `m`, runs to its end and leaves machine `r`. */
  ghost predicate Interprets(text: string, m: Machine, r: Machine) {
    exists n: nat :: CharRun(text, n, Point(0, m)) == Point(|text|, r)
  }

  lemma {:induction false} CharRunAdds(text: string, a: nat, b: nat, s: Point)
    requires s.pc <= |text|
    ensures CharRun(text, a + b, s) == CharRun(text, b, CharRun(text, a, s))
    decreases a
  {
    if a > 0 {
      CharRunAdds(text, a - 1, b, CharStep(text, s));
    }
  }

  lemma {:induction false} CharRunStays(text: string, n: nat, s: Point)
    requires s.pc == |text|
    ensures CharRun(text, n, s) == s
    decreases n
  {
    if n > 0 {
      CharRunStays(text, n - 1, s);
    }
  }
}
