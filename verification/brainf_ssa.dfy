/** The generated graph is in SSA form: one terminator a block, one phi entry a predecessor, one
    definition a register, and every use dominated by its definition. */
module BrainFSSA {
  import opened BrainFLanguage
  import opened BrainFTokens
  import opened BrainFIR
  import opened BrainFCodegen

  // ---- An invariant that certifies dominance ----

  /** `entry[b]` is defined on every way into block `b`; registers from `next` on are free. */
  ghost predicate Certified(g: Graph, entry: seq<set<Reg>>, next: Reg) {
    && |entry| == |g| > 0 && entry[0] == {}
    && EdgesCertified(g, entry)
    && (forall b :: 0 <= b < |g| ==> UsesCertified(g[b], entry[b]))
    && (forall b :: 0 <= b < |g| ==> PhisMatch(g, b))
    && (forall b :: 0 <= b < |g| ==> PhisSupplied(g, entry, b))
    && SingleDefs(g, next)
  }

  predicate UsesCertified(b: Block, entry: set<Reg>) {
    forall k :: 0 <= k < |b.instrs| ==> Uses(b.instrs[k]) <= entry + DefsBefore(b, k)
  }

  ghost predicate PhisMatch(g: Graph, b: nat)
    requires b < |g|
  {
    forall k :: 0 <= k < |g[b].phis| ==> PhiMatches(g, b, g[b].phis[k])
  }

  predicate PhisSupplied(g: Graph, entry: seq<set<Reg>>, b: nat)
    requires b < |g| == |entry|
  {
    forall k, i :: 0 <= k < |g[b].phis| && 0 <= i < |g[b].phis[k].incoming| ==>
      Supplied(g, entry, g[b].phis[k].incoming[i])
  }

  ghost predicate EdgesCertified(g: Graph, entry: seq<set<Reg>>)
    requires |entry| == |g|
  {
    forall a: nat, b: nat :: a < |g| && Edge(g, a, b) ==> b < |g| && entry[b] <= Available(g, entry, a)
  }

  function Available(g: Graph, entry: seq<set<Reg>>, b: nat): set<Reg>
    requires b < |g| == |entry|
  {
    entry[b] + Defs(g[b])
  }

  predicate Supplied(g: Graph, entry: seq<set<Reg>>, i: Incoming)
    requires |entry| == |g|
  {
    i.block < |g| && i.reg in Available(g, entry, i.block)
  }

  ghost predicate SingleDefs(g: Graph, next: Reg) {
    && (forall r: Reg, b: nat, k :: DefinedAt(g, r, b, k) ==> r < next)
    && (forall r: Reg, b: nat, k, b': nat, k' :: DefinedAt(g, r, b, k) && DefinedAt(g, r, b', k') ==> b == b' && k == k')
  }

  // ---- The certificate is enough ----

  lemma {:induction false} EntryIsDefined(g: Graph, entry: seq<set<Reg>>, next: Reg, path: seq<nat>)
    requires Certified(g, entry, next) && Path(g, path)
    ensures entry[path[|path| - 1]] <= PathDefs(g, path[..|path| - 1])
    ensures Available(g, entry, path[|path| - 1]) <= PathDefs(g, path)
    decreases |path|
  {
    var last := |path| - 1;
    if last > 0 {
      var front := path[..last];
      assert Path(g, front);
      EntryIsDefined(g, entry, next, front);
      assert Edge(g, path[last - 1], path[last]);
    }
  }

  lemma {:induction false} CertifiedIsWellFormed(g: Graph, entry: seq<set<Reg>>, next: Reg)
    requires Certified(g, entry, next)
    requires forall b :: 0 <= b < |g| ==> OneTerminator(g[b])
    ensures WellFormed(g)
  {
    hide DefsBefore, Defs, PathDefs, OneTerminator, PhiMatches, DefinedAt;
    forall b, k | 0 <= b < |g| && 0 <= k < |g[b].instrs| ensures UsesDominated(g, b, k) {
      forall path | Path(g, path) && path[|path| - 1] == b
        ensures Uses(g[b].instrs[k]) <= PathDefs(g, path[..|path| - 1]) + DefsBefore(g[b], k)
      {
        EntryIsDefined(g, entry, next, path);
        assert UsesCertified(g[b], entry[b]);
      }
    }
    forall b, k | 0 <= b < |g| && 0 <= k < |g[b].phis| ensures PhiMatches(g, b, g[b].phis[k]) {
      assert PhisMatch(g, b);
    }
    forall b, k, i | 0 <= b < |g| && 0 <= k < |g[b].phis| && 0 <= i < |g[b].phis[k].incoming|
      ensures IncomingDominated(g, g[b].phis[k].incoming[i])
    {
      var inc := g[b].phis[k].incoming[i];
      assert PhisSupplied(g, entry, b);
      assert Supplied(g, entry, inc);
      forall path | Path(g, path) && path[|path| - 1] == inc.block ensures inc.reg in PathDefs(g, path) {
        EntryIsDefined(g, entry, next, path);
      }
    }
  }

  // ---- One more instruction ----

  lemma {:induction false} DefsOfPrefix(b: Block, code: seq<Instr>, n: nat)
    requires n <= |b.instrs|
    ensures DefsBefore(Block(b.phis, b.instrs + code), n) == DefsBefore(b, n)
    decreases n
  {
    if n == 0 {
      assert PhiDefs(Block(b.phis, b.instrs + code)) == PhiDefs(b);
    } else {
      DefsOfPrefix(b, code, n - 1);
    }
  }

  lemma ExtendedDefs(b: Block, i: Instr)
    ensures Defs(Block(b.phis, b.instrs + [i])) == Defs(b) + Defines(i)
  {
    hide Defines;
    DefsOfPrefix(b, [i], |b.instrs|);
  }

  lemma ExtendedUses(b: Block, entry: set<Reg>, i: Instr)
    requires UsesCertified(b, entry) && Uses(i) <= entry + Defs(b)
    ensures UsesCertified(Block(b.phis, b.instrs + [i]), entry)
  {
    hide Uses, DefsBefore;
    var b' := Block(b.phis, b.instrs + [i]);
    forall k | 0 <= k < |b'.instrs| ensures Uses(b'.instrs[k]) <= entry + DefsBefore(b', k) {
      DefsOfPrefix(b, [i], k);
    }
  }

  lemma ExtendedDefinedAt(g: Graph, b: nat, i: Instr)
    requires b < |g|
    ensures forall r: Reg, c: nat, k :: DefinedAt(Extend(g, b, [i]), r, c, k) <==>
              DefinedAt(g, r, c, k) || (c == b && k == |g[b].instrs| && r in Defines(i))
  {
    hide Defines;
  }

  lemma ExtendedSingleDefs(g: Graph, b: nat, i: Instr, next: Reg, next': Reg)
    requires b < |g| && SingleDefs(g, next) && Defines(i) <= {next} && next <= next'
    requires Defines(i) != {} ==> next < next'
    ensures SingleDefs(Extend(g, b, [i]), next')
  {
    hide Defines, DefinedAt, Extend;
    ExtendedDefinedAt(g, b, i);
    BeyondTheEnd(g, b);
  }

  lemma BeyondTheEnd(g: Graph, b: nat)
    requires b < |g|
    ensures forall r: Reg :: !DefinedAt(g, r, b, |g[b].instrs|)
  {
  }

  lemma ExtendedEdges(g: Graph, b: nat, i: Instr)
    requires b < |g|
    ensures forall a: nat, c: nat :: Edge(Extend(g, b, [i]), a, c) <==> Edge(g, a, c) || (a == b && c in Targets(i))
  {
    hide Targets;
    var h := Extend(g, b, [i]);
    forall a: nat, c: nat ensures Edge(h, a, c) <==> Edge(g, a, c) || (a == b && c in Targets(i)) {
      if a == b {
        assert h[b].instrs[|g[b].instrs|] == i;
        assert forall k :: 0 <= k < |g[b].instrs| ==> h[b].instrs[k] == g[b].instrs[k];
      }
    }
  }

  /** What is available does not shrink, and grows by what the instruction defines. */
  lemma ExtendedAvailable(g: Graph, entry: seq<set<Reg>>, b: nat, i: Instr)
    requires b < |g| == |entry|
    ensures forall c :: 0 <= c < |g| ==>
              Available(Extend(g, b, [i]), entry, c) == Available(g, entry, c) + if c == b then Defines(i) else {}
  {
    hide Defines, Defs;
    ExtendedDefs(g[b], i);
  }

  /** Appending an instruction that is no terminator. */
  lemma {:induction false} Append(g: Graph, entry: seq<set<Reg>>, next: Reg, b: nat, i: Instr, next': Reg)
    requires Certified(g, entry, next) && b < |g| && !IsTerminator(i)
    requires Uses(i) <= Available(g, entry, b) && Defines(i) <= {next} && next <= next'
    requires Defines(i) != {} ==> next < next'
    ensures Certified(Extend(g, b, [i]), entry, next')
  {
    hide Defs, Edge, UsesCertified, PhiMatches, SingleDefs, Defines, Uses;
    var h := Extend(g, b, [i]);
    ExtendedEdges(g, b, i);
    assert Targets(i) == [];
    ExtendedAvailable(g, entry, b, i);
    ExtendedUses(g[b], entry[b], i);
    ExtendedSingleDefs(g, b, i, next, next');
    forall c | 0 <= c < |h| ensures PhisMatch(h, c) {
      assert PhisMatch(g, c);
      SameMatches(g, h, c);
    }
    forall c | 0 <= c < |h| ensures PhisSupplied(h, entry, c) {
      assert PhisSupplied(g, entry, c);
    }
  }

  lemma SameMatches(g: Graph, h: Graph, c: nat)
    requires c < |g| && c < |h| && h[c].phis == g[c].phis && PhisMatch(g, c)
    requires forall p: nat :: Edge(g, p, c) <==> Edge(h, p, c)
    ensures PhisMatch(h, c)
  {
    hide Edge;
    forall k | 0 <= k < |h[c].phis| ensures PhiMatches(h, c, h[c].phis[k]) {
      assert PhiMatches(g, c, g[c].phis[k]);
    }
  }

  // ---- One more block ----

  /** A new block nothing leads to yet, with at most a phi that has no entries yet. */
  lemma {:induction false} NewBlock(g: Graph, entry: seq<set<Reg>>, next: Reg, phis: seq<Phi>, e: set<Reg>, next': Reg)
    requires Certified(g, entry, next) && next <= next'
    requires phis == [] || (phis == [Phi(next, [])] && next < next')
    ensures Certified(g + [Block(phis, [])], entry + [e], next')
  {
    hide Defs, UsesCertified, PhiMatches, SingleDefs, Edge;
    var h, entry' := g + [Block(phis, [])], entry + [e];
    assert forall c :: 0 <= c < |g| ==> h[c] == g[c];
    NewBlockEdges(g, phis);
    assert UsesCertified(h[|g|], entry'[|g|]) by { NoUses(phis, e); }
    forall c | 0 <= c < |h| ensures PhisMatch(h, c) {
      if c < |g| {
        assert PhisMatch(g, c);
        SameMatches(g, h, c);
      } else {
        NothingLeadsOut(g, entry, c);
        NoEdgesMatch(h, c, next);
      }
    }
    forall c | 0 <= c < |h| ensures PhisSupplied(h, entry', c) {
      if c < |g| {
        assert PhisSupplied(g, entry, c);
        forall k, i | 0 <= k < |h[c].phis| && 0 <= i < |h[c].phis[k].incoming|
          ensures Supplied(h, entry', h[c].phis[k].incoming[i])
        {
          assert Supplied(g, entry, g[c].phis[k].incoming[i]);
        }
      }
    }
    NewBlockDefs(g, phis, next, next');
    forall c | 0 <= c < |h| ensures UsesCertified(h[c], entry'[c]) {
      if c < |g| {
        assert UsesCertified(g[c], entry[c]);
      }
    }
    forall a: nat, b: nat | a < |h| && Edge(h, a, b) ensures b < |h| && entry'[b] <= Available(h, entry', a) {
      assert Edge(g, a, b);
      EdgeFrom(g, a, b);
    }
  }

  lemma NothingLeadsOut(g: Graph, entry: seq<set<Reg>>, c: nat)
    requires |entry| == |g| && EdgesCertified(g, entry) && c >= |g|
    ensures forall a: nat :: !Edge(g, a, c)
  {
    hide Defs;
  }

  lemma EdgeFrom(g: Graph, a: nat, b: nat)
    requires Edge(g, a, b)
    ensures a < |g|
  {
  }

  lemma NoUses(phis: seq<Phi>, e: set<Reg>)
    ensures UsesCertified(Block(phis, []), e)
  {
  }

  lemma NewBlockEdges(g: Graph, phis: seq<Phi>)
    ensures forall a: nat, c: nat :: Edge(g + [Block(phis, [])], a, c) <==> Edge(g, a, c)
  {
    hide Targets;
  }

  lemma NoEdgesMatch(h: Graph, c: nat, next: Reg)
    requires c < |h| && (h[c].phis == [] || h[c].phis == [Phi(next, [])])
    requires forall a: nat :: !Edge(h, a, c)
    ensures PhisMatch(h, c)
  {
    hide Edge;
  }

  lemma NewBlockDefs(g: Graph, phis: seq<Phi>, next: Reg, next': Reg)
    requires SingleDefs(g, next) && next <= next'
    requires phis == [] || (phis == [Phi(next, [])] && next < next')
    ensures SingleDefs(g + [Block(phis, [])], next')
  {
    var h := g + [Block(phis, [])];
    hide Defines;
    assert forall r: Reg, b: nat, k :: b < |g| ==> (DefinedAt(h, r, b, k) <==> DefinedAt(g, r, b, k));
    assert forall r: Reg, k :: DefinedAt(h, r, |g|, k) ==> k == -1 && r == next;
  }

  // ---- A terminator ----

  /** A block that gets one more entry in its only phi. */
  function WithIncoming(b: Block, i: Incoming): Block {
    if b.phis == [] then b else Block([Phi(b.phis[0].dst, b.phis[0].incoming + [i])] + b.phis[1..], b.instrs)
  }

  /** Block `b` is ended by `i`; its target `t`, the one with a phi, learns that. */
  function Terminate(g: Graph, b: nat, i: Instr, t: nat, r: Reg): Graph {
    var h := Extend(g, b, [i]);
    if t < |h| then h[t := WithIncoming(h[t], Incoming(b, r))] else h
  }

  /** When `i` may end block `b` and send `r` to the phi of block `t`. */
  ghost predicate MayTerminate(g: Graph, entry: seq<set<Reg>>, b: nat, i: Instr, t: nat, r: Reg)
    requires |entry| == |g|
  {
    && b < |g| && t < |g| && b != t && NoTerminator(g[b]) && IsTerminator(i)
    && Uses(i) <= Available(g, entry, b) && r in Available(g, entry, b)
    && (forall x :: x in Targets(i) ==> x < |g| && entry[x] <= Available(g, entry, b))
    && (forall x :: x in Targets(i) && x != t ==> g[x].phis == [])
    && |g[t].phis| <= 1 && (g[t].phis != [] ==> t in Targets(i))
  }

  lemma NoEdgesYet(g: Graph, b: nat)
    requires b < |g| && NoTerminator(g[b])
    ensures forall c: nat :: !Edge(g, b, c)
  {
  }

  lemma IncomingChangesOnlyPhis(h: Graph, t: nat, i: Incoming)
    requires t < |h|
    ensures var f := h[t := WithIncoming(h[t], i)];
            && (forall c :: 0 <= c < |h| ==> f[c].instrs == h[c].instrs && |f[c].phis| == |h[c].phis|)
            && (forall r: Reg, c: nat, k :: DefinedAt(f, r, c, k) <==> DefinedAt(h, r, c, k))
            && (forall a: nat, c: nat :: Edge(f, a, c) <==> Edge(h, a, c))
  {
    hide Defines, Targets;
  }

  lemma {:induction false} IncomingDefs(b: Block, i: Incoming, n: nat)
    requires n <= |b.instrs|
    ensures DefsBefore(WithIncoming(b, i), n) == DefsBefore(b, n)
    decreases n
  {
    var c := WithIncoming(b, i);
    if n == 0 {
      assert forall k :: 0 <= k < |b.phis| ==> c.phis[k].dst == b.phis[k].dst;
      assert PhiDefs(c) == PhiDefs(b);
    } else {
      IncomingDefs(b, i, n - 1);
    }
  }

  lemma IncomingUses(b: Block, i: Incoming, entry: set<Reg>)
    requires UsesCertified(b, entry)
    ensures UsesCertified(WithIncoming(b, i), entry)
  {
    hide Uses, DefsBefore;
    var c := WithIncoming(b, i);
    forall k | 0 <= k < |c.instrs| ensures Uses(c.instrs[k]) <= entry + DefsBefore(c, k) {
      IncomingDefs(b, i, k);
    }
  }

  /** The phi of the target has exactly the new entry more, as it has exactly the new edge
      more. */
  lemma TargetMatches(g: Graph, f: Graph, b: nat, t: nat, r: Reg)
    requires t < |g| && t < |f| && |g[t].phis| <= 1 && PhisMatch(g, t)
    requires f[t].phis == WithIncoming(g[t], Incoming(b, r)).phis
    requires !Edge(g, b, t) && forall a: nat :: g[t].phis != [] ==> (Edge(f, a, t) <==> Edge(g, a, t) || a == b)
    ensures PhisMatch(f, t)
  {
    hide Edge;
    if g[t].phis != [] {
      var p, q := g[t].phis[0], f[t].phis[0];
      assert PhiMatches(g, t, p);
      assert q.incoming == p.incoming + [Incoming(b, r)];
      forall a: nat ensures Edge(f, a, t) <==> exists i :: 0 <= i < |q.incoming| && q.incoming[i].block == a {
        if a == b {
          assert q.incoming[|p.incoming|].block == a;
        } else if Edge(g, a, t) {
          var i :| 0 <= i < |p.incoming| && p.incoming[i].block == a;
          assert q.incoming[i].block == a;
        }
      }
      assert PhiMatches(f, t, q);
    }
  }

  lemma {:induction false} TargetSupplied(f: Graph, entry: seq<set<Reg>>, g: Graph, b: nat, t: nat, r: Reg)
    requires |f| == |g| == |entry| && t < |g| && b < |g| && |g[t].phis| <= 1 && PhisSupplied(g, entry, t)
    requires f[t].phis == WithIncoming(g[t], Incoming(b, r)).phis && r in Available(f, entry, b)
    requires forall c :: 0 <= c < |g| ==> Available(g, entry, c) <= Available(f, entry, c)
    ensures PhisSupplied(f, entry, t)
  {
    hide Defs;
    forall k, i | 0 <= k < |f[t].phis| && 0 <= i < |f[t].phis[k].incoming|
      ensures Supplied(f, entry, f[t].phis[k].incoming[i])
    {
      if i < |g[t].phis[k].incoming| {
        assert Supplied(g, entry, g[t].phis[k].incoming[i]);
      }
    }
  }

  lemma {:induction false} TerminateAvailable(g: Graph, entry: seq<set<Reg>>, b: nat, i: Instr, t: nat, r: Reg)
    requires b < |g| == |entry| && t < |g| && b != t && IsTerminator(i)
    ensures var f := Terminate(g, b, i, t, r);
            && |f| == |g| && (forall c :: 0 <= c < |g| ==> Available(f, entry, c) == Available(g, entry, c))
            && (forall c :: 0 <= c < |g| && c != t ==> f[c].phis == g[c].phis)
            && f[t].phis == WithIncoming(g[t], Incoming(b, r)).phis
            && (forall a: nat, c: nat :: Edge(f, a, c) <==> Edge(g, a, c) || (a == b && c in Targets(i)))
  {
    hide Defs, Edge, Targets, DefsBefore;
    ExtendedAvailable(g, entry, b, i);
    ExtendedEdges(g, b, i);
    var h := Extend(g, b, [i]);
    IncomingChangesOnlyPhis(h, t, Incoming(b, r));
    IncomingKeepsDefs(h[t], Incoming(b, r));
  }

  lemma IncomingKeepsDefs(b: Block, i: Incoming)
    ensures Defs(WithIncoming(b, i)) == Defs(b)
  {
    IncomingDefs(b, i, |b.instrs|);
  }

  lemma {:induction false} TerminateDefs(g: Graph, b: nat, i: Instr, t: nat, r: Reg, next: Reg)
    requires SingleDefs(g, next) && b < |g| && t < |g| && IsTerminator(i)
    ensures SingleDefs(Terminate(g, b, i, t, r), next)
  {
    hide DefinedAt, Extend;
    assert Defines(i) == {};
    ExtendedSingleDefs(g, b, i, next, next);
    ExtendKeepsLength(g, b, [i]);
    IncomingChangesOnlyPhis(Extend(g, b, [i]), t, Incoming(b, r));
  }

  lemma ExtendKeepsLength(g: Graph, b: nat, code: seq<Instr>)
    ensures |Extend(g, b, code)| == |g|
  {
  }

  lemma {:induction false} TerminateUses(g: Graph, entry: seq<set<Reg>>, b: nat, i: Instr, t: nat, r: Reg)
    requires b < |g| == |entry| && t < |g| && b != t && Uses(i) <= Available(g, entry, b)
    requires forall c :: 0 <= c < |g| ==> UsesCertified(g[c], entry[c])
    ensures var f := Terminate(g, b, i, t, r);
            |f| == |g| && forall c :: 0 <= c < |g| ==> UsesCertified(f[c], entry[c])
  {
    hide UsesCertified, Uses, Defs;
    ExtendedUses(g[b], entry[b], i);
    IncomingUses(g[t], Incoming(b, r), entry[t]);
  }

  lemma {:induction false} TerminateCertified(g: Graph, entry: seq<set<Reg>>, next: Reg, b: nat, i: Instr, t: nat, r: Reg)
    requires Certified(g, entry, next) && MayTerminate(g, entry, b, i, t, r)
    ensures Certified(Terminate(g, b, i, t, r), entry, next)
  {
    hide Defs, Edge, UsesCertified, PhiMatches, SingleDefs, Uses, Terminate, NoTerminator, WithIncoming, Targets, Available;
    var f := Terminate(g, b, i, t, r);
    TerminateAvailable(g, entry, b, i, t, r);
    TerminateDefs(g, b, i, t, r, next);
    TerminateUses(g, entry, b, i, t, r);
    NoEdgesYet(g, b);
    forall c | 0 <= c < |f| ensures PhisMatch(f, c) {
      assert PhisMatch(g, c);
      if c == t {
        TargetMatches(g, f, b, t, r);
      } else if c in Targets(i) {
        assert f[c].phis == [];
      } else {
        SameMatches(g, f, c);
      }
    }
    forall c | 0 <= c < |f| ensures PhisSupplied(f, entry, c) {
      assert PhisSupplied(g, entry, c);
      if c == t {
        TargetSupplied(f, entry, g, b, t, r);
      } else {
        SameSupplied(f, entry, g, c);
      }
    }
  }

  lemma SameSupplied(f: Graph, entry: seq<set<Reg>>, g: Graph, c: nat)
    requires |f| == |g| == |entry| && c < |g| && f[c].phis == g[c].phis && PhisSupplied(g, entry, c)
    requires forall c :: 0 <= c < |g| ==> Available(g, entry, c) <= Available(f, entry, c)
    ensures PhisSupplied(f, entry, c)
  {
    hide Available;
    forall k, i | 0 <= k < |f[c].phis| && 0 <= i < |f[c].phis[k].incoming|
      ensures Supplied(f, entry, f[c].phis[k].incoming[i])
    {
      assert Supplied(g, entry, g[c].phis[k].incoming[i]);
    }
  }

  // ---- The compiler keeps the certificate ----

  /** The tape pointers, defined in the entry block. */
  function Pointers(checked: bool): set<Reg> {
    if checked then {ARR, ARRMAX} else {ARR}
  }

  function HeaderEntry(checked: bool): seq<set<Reg>> {
    if checked then [{}, {ARR}, {ARR}] else [{}, {ARR}]
  }

  /** The certificate of the blocks a token adds. */
  function EntryAfter(g: Gen, t: Token, checked: bool, entry: seq<set<Reg>>): seq<set<Reg>> {
    match t
    case Move(_) => if checked then entry + [Pointers(checked) + {g.next}] else entry
    case Loop => entry + [Pointers(checked), Pointers(checked) + {g.next}]
    case EndLoop => if g.opens == [] then entry else entry + [Pointers(checked)]
    case _ => entry
  }

  ghost predicate OpenCertified(g: Gen, checked: bool, entry: seq<set<Reg>>, o: Open)
    requires |entry| == |g.graph|
  {
    && o.test < |g.graph| && entry[o.test] == Pointers(checked)
    && o.body < |g.graph| && entry[o.body] == Pointers(checked) + {o.phi} && g.graph[o.body].phis == []
  }

  ghost predicate GenCertified(g: Gen, checked: bool, entry: seq<set<Reg>>) {
    && Certified(g.graph, entry, g.next)
    && |g.graph| >= 2 && entry[ENDBB] == {ARR} && g.graph[ENDBB].phis == []
    && (checked ==> |g.graph| >= 3 && entry[ABERRORBB] == {ARR} && g.graph[ABERRORBB].phis == [])
    && g.bb < |g.graph| && Pointers(checked) + {g.head} <= Available(g.graph, entry, g.bb)
    && forall d :: 0 <= d < |g.opens| ==> OpenCertified(g, checked, entry, g.opens[d])
  }

  lemma ExtendTwice(g: Graph, b: nat, x: seq<Instr>, y: seq<Instr>)
    ensures Extend(Extend(g, b, x), b, y) == Extend(g, b, x + y)
  {
    if b < |g| {
      assert g[b].instrs + x + y == g[b].instrs + (x + y);
    }
  }

  /** Three instructions in a row, the first two of which define the next two registers. */
  lemma {:induction false} AppendThree(g: Graph, entry: seq<set<Reg>>, next: Reg, b: nat, x: Instr, y: Instr, z: Instr, next': Reg)
    requires Certified(g, entry, next) && b < |g|
    requires !IsTerminator(x) && !IsTerminator(y) && !IsTerminator(z)
    requires Defines(x) == {next} && Defines(y) == {next + 1}
    requires (Defines(z) == {} && next' == next + 2) || (Defines(z) == {next + 2} && next' == next + 3)
    requires Uses(x) <= Available(g, entry, b) && Uses(y) <= Available(g, entry, b) + {next}
    requires Uses(z) <= Available(g, entry, b) + {next, next + 1}
    ensures var h := Extend(g, b, [x, y, z]);
            && Certified(h, entry, next') && |h| == |g|
            && Available(h, entry, b) == Available(g, entry, b) + {next, next + 1} + Defines(z)
            && (forall c :: 0 <= c < |g| ==> h[c].phis == g[c].phis)
  {
    hide Certified, Available, Extend, Uses, Defines;
    ExtendFacts(g, b, [x, y, z]);
    CertifiedLength(g, entry, next);
    ExtendedAvailable(g, entry, b, x);
    Append(g, entry, next, b, x, next + 1);
    var g1 := Extend(g, b, [x]);
    ExtendFacts(g, b, [x]);
    ExtendedAvailable(g1, entry, b, y);
    Append(g1, entry, next + 1, b, y, next + 2);
    var g2 := Extend(g1, b, [y]);
    ExtendFacts(g1, b, [y]);
    ExtendedAvailable(g2, entry, b, z);
    Append(g2, entry, next + 2, b, z, next');
    ExtendTwice(g, b, [x], [y]);
    ExtendTwice(g, b, [x] + [y], [z]);
    assert [x] + [y] + [z] == [x, y, z];
  }

  lemma CertifiedLength(g: Graph, entry: seq<set<Reg>>, next: Reg)
    requires Certified(g, entry, next)
    ensures |entry| == |g|
  {
  }

  lemma ExtendFacts(g: Graph, b: nat, code: seq<Instr>)
    ensures var h := Extend(g, b, code);
            && |h| == |g| && (forall c :: 0 <= c < |g| ==> h[c].phis == g[c].phis)
            && (forall c :: 0 <= c < |g| && c != b ==> h[c] == g[c])
            && (b < |g| ==> h[b].instrs == g[b].instrs + code)
  {
  }

  lemma {:induction false} PlainCertified(g: Gen, t: Token, checked: bool, entry: seq<set<Reg>>)
    requires GenCertified(g, checked, entry) && (t.Read? || t.Write? || t.Change?)
    ensures GenCertified(Emit(g, t, checked), checked, entry)
  {
    hide Certified, Available, Extend;
    CertifiedLength(g.graph, entry, g.next);
    var code := Code(g, t, checked);
    AppendThree(g.graph, entry, g.next, g.bb, code[0], code[1], code[2], g.next + 2);
    assert code == [code[0], code[1], code[2]];
    var h := Emit(g, t, checked);
    forall d | 0 <= d < |h.opens| ensures OpenCertified(h, checked, entry, h.opens[d]) {
      assert OpenCertified(g, checked, entry, g.opens[d]);
    }
  }

  lemma {:induction false} FreeMoveCertified(g: Gen, n: int, entry: seq<set<Reg>>)
    requires GenCertified(g, false, entry)
    ensures GenCertified(Emit(g, Move(n), false), false, entry)
  {
    hide Certified, Available, Extend;
    CertifiedLength(g.graph, entry, g.next);
    var i := Gep(g.next, g.head, n);
    Append(g.graph, entry, g.next, g.bb, i, g.next + 1);
    ExtendedAvailable(g.graph, entry, g.bb, i);
    ExtendFacts(g.graph, g.bb, [i]);
    var h := Emit(g, Move(n), false);
    forall d | 0 <= d < |h.opens| ensures OpenCertified(h, false, entry, h.opens[d]) {
      assert OpenCertified(g, false, entry, g.opens[d]);
    }
  }

  /** A terminator whose targets have no phis. */
  lemma {:induction false} PlainTerminator(g: Graph, entry: seq<set<Reg>>, next: Reg, b: nat, i: Instr)
    requires Certified(g, entry, next) && b < |g| && |g| > 1 && NoTerminator(g[b]) && IsTerminator(i)
    requires |entry| == |g| && Uses(i) <= Available(g, entry, b) && Available(g, entry, b) != {}
    requires forall x :: x in Targets(i) ==> x < |g| && entry[x] <= Available(g, entry, b) && g[x].phis == []
    requires exists t :: 0 <= t < |g| && t != b && g[t].phis == []
    ensures Certified(Extend(g, b, [i]), entry, next)
  {
    hide Certified, Available, Uses, Targets, NoTerminator;
    var t :| 0 <= t < |g| && t != b && g[t].phis == [];
    var r :| r in Available(g, entry, b);
    TerminateCertified(g, entry, next, b, i, t, r);
    assert Terminate(g, b, i, t, r) == Extend(g, b, [i]);
  }

  lemma {:induction false} CheckedMoveCertified(g: Gen, n: int, entry: seq<set<Reg>>)
    requires GenCertified(g, true, entry) && Shape(g, true)
    ensures GenCertified(Emit(g, Move(n), true), true, EntryAfter(g, Move(n), true, entry))
  {
    hide Certified, Available, Extend, NoTerminator, OneTerminator, Waiting;
    CertifiedLength(g.graph, entry, g.next);
    CheckedMoveCode(g, n, entry);
    var r, b := g.next, g.bb;
    var code := MoveTest(g, n);
    var g4 := Extend(g.graph, b, code);
    ExtendFacts(g.graph, b, code);
    var e := Pointers(true) + {r};
    NewBlock(g4, entry, r + 4, [], e, r + 4);
    var g5, entry' := g4 + [Block([], [])], entry + [e];
    NewBlockAvailable(g4, entry, [], e);
    var last := CondBr(r + 3, ABERRORBB, |g.graph|);
    assert g5[b] == Block(g.graph[b].phis, g.graph[b].instrs + code);
    StraightCode(g.graph[b], code);
    assert g5[ENDBB].phis == [];
    PlainTerminator(g5, entry', r + 4, b, last);
    ExtendNew(g4, b, [last], Block([], []));
    ExtendTwice(g.graph, b, code, [last]);
    assert code + [last] == Code(g, Move(n), true);
    var h := Emit(g, Move(n), true);
    assert h.graph == Extend(g5, b, [last]);
    ExtendFacts(g5, b, [last]);
    EntryOfNew(h.graph, entry', |g.graph|);
    OpensRemain(g, h, true, entry, entry');
  }

  /** The code of a checked move, but for the branch. */
  function MoveTest(g: Gen, n: int): seq<Instr> {
    var r := g.next;
    [Gep(r, g.head, n), IcmpUGE(r + 1, r, ARRMAX), IcmpULT(r + 2, r, ARR), Or(r + 3, r + 1, r + 2)]
  }

  lemma {:induction false} CheckedMoveCode(g: Gen, n: int, entry: seq<set<Reg>>)
    requires GenCertified(g, true, entry) && Shape(g, true)
    ensures var f, b := Extend(g.graph, g.bb, MoveTest(g, n)), g.bb;
            && |entry| == |g.graph| == |f| && Certified(f, entry, g.next + 4)
            && Available(f, entry, b) >= Pointers(true) + {g.next, g.next + 3}
  {
    hide Certified, Available, Extend, NoTerminator, OneTerminator, Waiting;
    CertifiedLength(g.graph, entry, g.next);
    var r, b := g.next, g.bb;
    var x, y, z, w := Gep(r, g.head, n), IcmpUGE(r + 1, r, ARRMAX), IcmpULT(r + 2, r, ARR), Or(r + 3, r + 1, r + 2);
    AppendThree(g.graph, entry, r, b, x, y, z, r + 3);
    var g3 := Extend(g.graph, b, [x, y, z]);
    ExtendFacts(g.graph, b, [x, y, z]);
    Append(g3, entry, r + 3, b, w, r + 4);
    ExtendedAvailable(g3, entry, b, w);
    ExtendFacts(g3, b, [w]);
    ExtendTwice(g.graph, b, [x, y, z], [w]);
    assert [x, y, z] + [w] == MoveTest(g, n);
  }

  lemma StraightCode(b: Block, code: seq<Instr>)
    requires NoTerminator(b) && forall k :: 0 <= k < |code| ==> !IsTerminator(code[k])
    ensures NoTerminator(Block(b.phis, b.instrs + code))
  {
  }

  lemma ExtendNew(g: Graph, b: nat, code: seq<Instr>, block: Block)
    requires b < |g|
    ensures Extend(g + [block], b, code) == Extend(g, b, code) + [block]
  {
  }

  lemma NewBlockAvailable(g: Graph, entry: seq<set<Reg>>, phis: seq<Phi>, e: set<Reg>)
    requires |entry| == |g|
    ensures forall c :: 0 <= c < |g| ==> Available(g + [Block(phis, [])], entry + [e], c) == Available(g, entry, c)
  {
    hide Defs;
  }

  lemma EntryOfNew(g: Graph, entry: seq<set<Reg>>, b: nat)
    requires b < |g| == |entry|
    ensures entry[b] <= Available(g, entry, b)
  {
  }

  /** A waiting test block and the first block of the body, before the branch to the test. */
  lemma {:induction false} TwoBlocksCertified(g: Gen, checked: bool, entry: seq<set<Reg>>)
    requires GenCertified(g, checked, entry) && Shape(g, checked)
    ensures |entry| == |g.graph|
    ensures var g2 := g.graph + [Block([Phi(g.next, [])], [])] + [Block([], [])];
            var entry2 := EntryAfter(g, Loop, checked, entry);
            && Certified(g2, entry2, g.next + 1) && |entry2| == |g2|
            && forall c :: 0 <= c < |g.graph| ==> Available(g2, entry2, c) == Available(g.graph, entry, c)
  {
    hide Certified, Available, Extend, Shape, Defs;
    CertifiedLength(g.graph, entry, g.next);
    var r, e := g.next, Pointers(checked);
    NewBlock(g.graph, entry, r, [Phi(r, [])], e, r + 1);
    NewBlockAvailable(g.graph, entry, [Phi(r, [])], e);
    var g1, entry1 := g.graph + [Block([Phi(r, [])], [])], entry + [e];
    NewBlock(g1, entry1, r + 1, [], e + {r}, r + 1);
    NewBlockAvailable(g1, entry1, [], e + {r});
    assert entry1 + [e + {r}] == EntryAfter(g, Loop, checked, entry);
  }

  lemma {:induction false} LoopCertified(g: Gen, checked: bool, entry: seq<set<Reg>>)
    requires GenCertified(g, checked, entry) && Shape(g, checked)
    ensures GenCertified(Emit(g, Loop, checked), checked, EntryAfter(g, Loop, checked, entry))
  {
    hide Certified, Available, Extend, Shape, Pointers;
    var n, h := |g.graph|, Emit(g, Loop, checked);
    var entry2 := EntryAfter(g, Loop, checked, entry);
    TwoBlocksCertified(g, checked, entry);
    LoopBranch(g, checked, entry);
    ExtendFacts(g.graph, g.bb, [Br(n)]);
    EntryOfNew(h.graph, entry2, n + 1);
    OpensRemain(g, h, checked, entry, entry2);
    forall d | 0 <= d < |h.opens| ensures OpenCertified(h, checked, entry2, h.opens[d]) {
      if d < |g.opens| {
        assert h.opens[d] == g.opens[d];
      }
    }
  }

  lemma LoopBranch(g: Gen, checked: bool, entry: seq<set<Reg>>)
    requires GenCertified(g, checked, entry) && Shape(g, checked)
    ensures Certified(Emit(g, Loop, checked).graph, EntryAfter(g, Loop, checked, entry), g.next + 1)
  {
    hide Certified, Available, Extend, NoTerminator, OneTerminator, Waiting, Defs, Terminate;
    var r, n := g.next, |g.graph|;
    TwoBlocksCertified(g, checked, entry);
    var g2 := g.graph + [Block([Phi(r, [])], [])] + [Block([], [])];
    TerminateCertified(g2, EntryAfter(g, Loop, checked, entry), r + 1, g.bb, Br(n), n, g.head);
    LoopGraph(g);
  }

  /** Appending blocks and filling others leaves the loops being compiled certified. */
  lemma OpensRemain(g: Gen, h: Gen, checked: bool, entry: seq<set<Reg>>, entry2: seq<set<Reg>>)
    requires |entry| == |g.graph| <= |h.graph| == |entry2| && entry <= entry2
    requires forall b :: 0 <= b < |g.graph| ==> h.graph[b].phis == g.graph[b].phis
    requires forall d :: 0 <= d < |g.opens| ==> OpenCertified(g, checked, entry, g.opens[d])
    ensures forall d :: 0 <= d < |g.opens| ==> OpenCertified(h, checked, entry2, g.opens[d])
  {
    forall d | 0 <= d < |g.opens| ensures OpenCertified(h, checked, entry2, g.opens[d]) {
      assert OpenCertified(g, checked, entry, g.opens[d]);
    }
  }

  lemma LoopGraph(g: Gen)
    requires g.bb < |g.graph|
    ensures Terminate(g.graph + [Block([Phi(g.next, [])], [])] + [Block([], [])], g.bb, Br(|g.graph|), |g.graph|, g.head)
            == Extend(g.graph, g.bb, [Br(|g.graph|)])
               + [Block([Phi(g.next, [Incoming(g.bb, g.head)])], []), Block([], [])]
  {
    var n, b, inc := |g.graph|, g.bb, Incoming(g.bb, g.head);
    var waiting := Block([Phi(g.next, [])], []);
    JoinIncoming(waiting, inc);
    ExtendNew(g.graph, b, [Br(n)], waiting);
    ExtendNew(g.graph + [waiting], b, [Br(n)], Block([], []));
  }

  /** The loop test: two instructions behind the phi that already has both entries. */
  lemma {:induction false} TestCertified(g: Graph, entry: seq<set<Reg>>, o: Open, r: Reg, e: set<Reg>)
    requires Certified(g, entry, r) && |entry| == |g| && o.test < |g| && NoTerminator(g[o.test])
    requires entry[o.test] == e && o.phi in Available(g, entry, o.test)
    requires o.body < |g| && entry[o.body] == e + {o.phi} && g[o.body].phis == []
    ensures var code := [Load(r, o.phi), IcmpEqZero(r + 1, r), CondBr(r + 1, |g|, o.body)];
            var h := Extend(g, o.test, code) + [Block([Phi(r + 2, [Incoming(o.test, o.phi)])], [])];
            && Certified(h, entry + [e], r + 3) && r + 2 in Available(h, entry + [e], |g|)
            && (forall c :: 0 <= c < |g| ==> h[c].phis == g[c].phis)
  {
    hide Certified, Available, Extend, NoTerminator, Defs;
    var b, n := o.test, |g|;
    var x, y, z := Load(r, o.phi), IcmpEqZero(r + 1, r), CondBr(r + 1, n, o.body);
    EntryOfNew(g, entry, b);
    Append(g, entry, r, b, x, r + 1);
    ExtendedAvailable(g, entry, b, x);
    var g1 := Extend(g, b, [x]);
    ExtendFacts(g, b, [x]);
    Append(g1, entry, r + 1, b, y, r + 2);
    ExtendedAvailable(g1, entry, b, y);
    var g2 := Extend(g1, b, [y]);
    ExtendFacts(g1, b, [y]);
    var phis := [Phi(r + 2, [])];
    NewBlock(g2, entry, r + 2, phis, e, r + 3);
    NewBlockAvailable(g2, entry, phis, e);
    var g3, entry' := g2 + [Block(phis, [])], entry + [e];
    ExtendTwice(g, b, [x], [y]);
    ExtendFacts(g, b, [x] + [y]);
    StraightCode(g[b], [x] + [y]);
    assert g3[b] == Block(g[b].phis, g[b].instrs + ([x] + [y]));
    TerminateCertified(g3, entry', r + 3, b, z, n, o.phi);
    TerminateAvailable(g3, entry', b, z, n, o.phi);
    ExtendTwice(g, b, [x] + [y], [z]);
    assert [x] + [y] + [z] == [x, y, z];
    ExitGraph(g2, b, z, phis[0], o.phi);
    PhiAvailable(g3, entry', n, r + 2);
    ExtendFacts(g, b, [x, y, z]);
  }

  lemma ExitGraph(g: Graph, b: nat, z: Instr, phi: Phi, r: Reg)
    requires b < |g| && phi.incoming == []
    ensures Terminate(g + [Block([phi], [])], b, z, |g|, r)
            == Extend(g, b, [z]) + [Block([Phi(phi.dst, [Incoming(b, r)])], [])]
  {
    JoinIncoming(Block([phi], []), Incoming(b, r));
    ExtendNew(g, b, [z], Block([phi], []));
  }

  lemma JoinIncoming(b: Block, i: Incoming)
    requires |b.phis| == 1 && b.phis[0].incoming == []
    ensures WithIncoming(b, i) == Block([Phi(b.phis[0].dst, [i])], b.instrs)
  {
    assert b.phis[0].incoming + [i] == [i];
    assert b.phis[1..] == [];
  }

  lemma {:induction false} PhiAvailable(g: Graph, entry: seq<set<Reg>>, b: nat, r: Reg)
    requires b < |g| == |entry| && |g[b].phis| > 0 && g[b].phis[0].dst == r
    ensures r in Available(g, entry, b)
  {
    DefsKeepPhis(g[b], |g[b].instrs|);
  }

  lemma {:induction false} DefsKeepPhis(b: Block, n: nat)
    requires n <= |b.instrs|
    ensures PhiDefs(b) <= DefsBefore(b, n)
    decreases n
  {
    if n > 0 {
      DefsKeepPhis(b, n - 1);
    }
  }

  /** The end of the body branches to the test, whose phi learns it. */
  lemma {:induction false} BodyCertified(g: Gen, checked: bool, entry: seq<set<Reg>>, o: Open)
    requires GenCertified(g, checked, entry) && Shape(g, checked)
    requires g.opens != [] && o == g.opens[|g.opens| - 1]
    ensures |entry| == |g.graph| && Waiting(g, o)
    ensures var g1 := Terminate(g.graph, g.bb, Br(o.test), o.test, g.head);
            && |g1| == |g.graph| && Certified(g1, entry, g.next) && NoTerminator(g1[o.test])
            && o.phi in Available(g1, entry, o.test) && entry[o.test] == Pointers(checked)
            && o.body < |g1| && entry[o.body] == Pointers(checked) + {o.phi} && g1[o.body].phis == []
  {
    hide Certified, Available, Extend, NoTerminator, OneTerminator, Defs, Terminate, WithIncoming;
    CertifiedLength(g.graph, entry, g.next);
    assert Waiting(g, o) && OpenCertified(g, checked, entry, o);
    TerminateCertified(g.graph, entry, g.next, g.bb, Br(o.test), o.test, g.head);
    TerminateAvailable(g.graph, entry, g.bb, Br(o.test), o.test, g.head);
    PhiAvailable(g.graph, entry, o.test, o.phi);
    ClosedGraph(g, o);
    NothingIsStraight(Terminate(g.graph, g.bb, Br(o.test), o.test, g.head)[o.test]);
  }

  lemma {:induction false} EndLoopCertified(g: Gen, checked: bool, entry: seq<set<Reg>>)
    requires GenCertified(g, checked, entry) && Shape(g, checked) && g.opens != []
    ensures GenCertified(Emit(g, EndLoop, checked), checked, EntryAfter(g, EndLoop, checked, entry))
  {
    hide Certified, Available, Extend, NoTerminator, Shape, Defs, Emit, Terminate, WithIncoming;
    EndLoopFacts(g, checked);
    var last := |g.opens| - 1;
    var o, n, e := g.opens[last], |g.graph|, Pointers(checked);
    BodyCertified(g, checked, entry, o);
    ClosedGraph(g, o);
    TestCertified(Terminate(g.graph, g.bb, Br(o.test), o.test, g.head), entry, o, g.next, e);
    var h := Emit(g, EndLoop, checked);
    EmitKeepsPhis(g, checked);
    forall d | 0 <= d < |h.opens| ensures OpenCertified(h, checked, entry + [e], h.opens[d]) {
      assert OpenCertified(g, checked, entry, g.opens[d]);
    }
    EntryOfNew(h.graph, entry + [e], n);
  }

  lemma EndLoopFacts(g: Gen, checked: bool)
    requires g.opens != []
    ensures var h := Emit(g, EndLoop, checked);
            h.opens == g.opens[..|g.opens| - 1] && h.bb == |g.graph| && h.head == g.next + 2 && h.next == g.next + 3
  {
  }

  lemma NothingIsStraight(b: Block)
    requires b.instrs == []
    ensures NoTerminator(b)
  {
  }

  /** Ending the body and then writing the test is what `]` does. */
  lemma ClosedGraph(g: Gen, o: Open)
    requires g.opens != [] && o == g.opens[|g.opens| - 1] && Waiting(g, o) && g.bb < |g.graph|
    ensures var g1 := Terminate(g.graph, g.bb, Br(o.test), o.test, g.head);
            var code := [Load(g.next, o.phi), IcmpEqZero(g.next + 1, g.next), CondBr(g.next + 1, |g.graph|, o.body)];
            && |g1| == |g.graph| && g1[o.test].instrs == []
            && forall checked :: Emit(g, EndLoop, checked).graph
                 == Extend(g1, o.test, code) + [Block([Phi(g.next + 2, [Incoming(o.test, o.phi)])], [])]
  {
    var g1 := Terminate(g.graph, g.bb, Br(o.test), o.test, g.head);
    var code := [Load(g.next, o.phi), IcmpEqZero(g.next + 1, g.next), CondBr(g.next + 1, |g.graph|, o.body)];
    assert [] + code == code;
  }

  /** Only the phi of the loop that is closed changes. */
  lemma EmitKeepsPhis(g: Gen, checked: bool)
    requires g.opens != [] && Waiting(g, g.opens[|g.opens| - 1])
    ensures var h := Emit(g, EndLoop, checked);
            |h.graph| == |g.graph| + 1
            && forall c :: 0 <= c < |g.graph| && g.graph[c].phis == [] ==> h.graph[c].phis == []
  {
  }

  /** A graph of one empty block. */
  lemma EmptyCertified()
    ensures Certified([Block([], [])], [{}], 0) && Available([Block([], [])], [{}], 0) == {}
  {
    var g, entry: seq<set<Reg>> := [Block([], [])], [{}];
    assert forall a: nat, b: nat :: !Edge(g, a, b);
    assert forall r: Reg, b: nat, k :: !DefinedAt(g, r, b, k);
  }

  /** The return block, behind an entry block that has set up the tape. */
  lemma {:induction false} EndBlockCertified(g: Graph, next: Reg)
    requires |g| == 1 && g[0].phis == [] && Certified(g, [{}], next)
    ensures Certified(g + [Block([], [CallFree(ARR), Ret])], [{}, {ARR}], next)
  {
    hide Certified, Defs;
    NewBlock(g, [{}], next, [], {ARR}, next);
    var g1, entry := g + [Block([], [])], [{}] + [{ARR}];
    assert entry == [{}, {ARR}];
    Append(g1, entry, next, 1, CallFree(ARR), next);
    var g2 := Extend(g1, 1, [CallFree(ARR)]);
    assert g2[1] == Block([], [CallFree(ARR)]) && g2[0].phis == [];
    PlainTerminator(g2, entry, next, 1, Ret);
    assert [CallFree(ARR)] + [Ret] == [CallFree(ARR), Ret];
    assert Extend(g2, 1, [Ret])[1] == Block([], [CallFree(ARR), Ret]);
    assert Extend(g2, 1, [Ret]) == g + [Block([], [CallFree(ARR), Ret])];
  }

  /** The entry block: the tape, the end of the tape if wanted, the head in the middle. */
  lemma {:induction false} EntryBlockCertified(memory: nat, checked: bool)
    ensures var g, next := [Header(memory, checked).graph[0]], Header(memory, checked).next;
            && Certified(g, [{}], next)
            && Available(g, [{}], 0) == Pointers(checked) + {Header(memory, checked).head}
  {
    hide Certified, Defs;
    var x, y := Malloc(ARR, memory), Memset(ARR, 0, memory);
    var g, entry: seq<set<Reg>> := [Block([], [])], [{}];
    TapeCertified(memory);
    var g2 := Extend(g, 0, [x, y]);
    if checked {
      var u, v := Gep(ARRMAX, ARR, memory), Gep(2, ARR, memory / 2);
      Append(g2, entry, 1, 0, u, 2);
      ExtendedAvailable(g2, entry, 0, u);
      var g3 := Extend(g2, 0, [u]);
      Append(g3, entry, 2, 0, v, 3);
      ExtendedAvailable(g3, entry, 0, v);
      assert [] + [x, y] + [u] + [v] == [x, y] + [u, v];
      assert Extend(g3, 0, [v])[0] == Header(memory, checked).graph[0];
      assert Extend(g3, 0, [v]) == [Header(memory, checked).graph[0]];
    } else {
      var z := Gep(1, ARR, memory / 2);
      Append(g2, entry, 1, 0, z, 2);
      ExtendedAvailable(g2, entry, 0, z);
      assert [] + [x, y] + [z] == [x, y] + [z];
      assert Extend(g2, 0, [z])[0] == Header(memory, checked).graph[0];
      assert Extend(g2, 0, [z]) == [Header(memory, checked).graph[0]];
    }
  }

  lemma {:induction false} TapeCertified(memory: nat)
    ensures var g := Extend([Block([], [])], 0, [Malloc(ARR, memory), Memset(ARR, 0, memory)]);
            Certified(g, [{}], 1) && Available(g, [{}], 0) == {ARR}
  {
    hide Certified;
    var x, y := Malloc(ARR, memory), Memset(ARR, 0, memory);
    var g, entry: seq<set<Reg>> := [Block([], [])], [{}];
    EmptyCertified();
    Append(g, entry, 0, 0, x, 1);
    ExtendedAvailable(g, entry, 0, x);
    var g1 := Extend(g, 0, [x]);
    assert Available(g, entry, 0) == {};
    Append(g1, entry, 1, 0, y, 1);
    ExtendedAvailable(g1, entry, 0, y);
    ExtendTwice(g, 0, [x], [y]);
    assert [x] + [y] == [x, y];
  }

  lemma {:induction false} HeaderCertified(memory: nat, checked: bool)
    ensures GenCertified(Header(memory, checked), checked, HeaderEntry(checked))
  {
    hide Certified, Defs;
    var h := Header(memory, checked);
    var g, end := [h.graph[0]], Block([], [CallFree(ARR), Ret]);
    EntryBlockCertified(memory, checked);
    EndBlockCertified(g, h.next);
    assert g + [end] == [h.graph[0], end];
    if checked {
      ErrorBlockCertified(h.graph[0], h.next);
      assert g + [end] + [Block([], [CallPuts(ABERRORMSG), Br(ENDBB)])] == h.graph;
    } else {
      assert g + [end] == h.graph;
    }
    assert Available(h.graph, HeaderEntry(checked), 0) == Available(g, [{}], 0);
  }

  lemma {:induction false} ErrorBlockCertified(first: Block, next: Reg)
    requires first.phis == [] && Certified([first, Block([], [CallFree(ARR), Ret])], [{}, {ARR}], next)
    ensures Certified([first, Block([], [CallFree(ARR), Ret]), Block([], [CallPuts(ABERRORMSG), Br(ENDBB)])],
                      [{}, {ARR}, {ARR}], next)
  {
    hide Certified, Defs;
    var g, entry: seq<set<Reg>> := [first, Block([], [CallFree(ARR), Ret])], [{}, {ARR}];
    NewBlock(g, entry, next, [], {ARR}, next);
    var g1 := g + [Block([], [])];
    assert entry + [{ARR}] == [{}, {ARR}, {ARR}];
    Append(g1, entry + [{ARR}], next, 2, CallPuts(ABERRORMSG), next);
    var g2 := Extend(g1, 2, [CallPuts(ABERRORMSG)]);
    assert g2[2] == Block([], [CallPuts(ABERRORMSG)]) && g2[0].phis == [];
    EntryOfNew(g2, entry + [{ARR}], 2);
    PlainTerminator(g2, entry + [{ARR}], next, 2, Br(ENDBB));
    var e := Block([], [CallPuts(ABERRORMSG), Br(ENDBB)]);
    assert [CallPuts(ABERRORMSG)] + [Br(ENDBB)] == [CallPuts(ABERRORMSG), Br(ENDBB)];
    assert Extend(g2, 2, [Br(ENDBB)])[2] == e;
    assert Extend(g2, 2, [Br(ENDBB)]) == [first, Block([], [CallFree(ARR), Ret]), e];
  }

  // ---- The theorem ----

  function EntryAt(ts: seq<Token>, memory: nat, checked: bool, i: nat): seq<set<Reg>>
    requires i <= |ts|
  {
    if i == 0 then HeaderEntry(checked)
    else EntryAfter(GenAt(ts, memory, checked, i - 1), ts[i - 1], checked, EntryAt(ts, memory, checked, i - 1))
  }

  lemma EmitCertified(g: Gen, t: Token, checked: bool, entry: seq<set<Reg>>)
    requires GenCertified(g, checked, entry) && Shape(g, checked) && (t.EndLoop? ==> g.opens != [])
    ensures GenCertified(Emit(g, t, checked), checked, EntryAfter(g, t, checked, entry))
  {
    hide GenCertified, Shape, Emit;
    match t
    case Loop => LoopCertified(g, checked, entry);
    case EndLoop => EndLoopCertified(g, checked, entry);
    case Move(n) => if checked { CheckedMoveCertified(g, n, entry); } else { FreeMoveCertified(g, n, entry); }
    case _ => PlainCertified(g, t, checked, entry);
  }

  lemma {:induction false} GenAtCertified(ts: seq<Token>, memory: nat, checked: bool, i: nat)
    requires i <= |ts| && Nesting(TokenBrackets(ts), i) >= 0
    ensures GenCertified(GenAt(ts, memory, checked, i), checked, EntryAt(ts, memory, checked, i))
    decreases i
  {
    hide GenCertified, Shape, Emit, Header, EntryAfter;
    if i == 0 {
      HeaderCertified(memory, checked);
    } else {
      GenAtShape(ts, memory, checked, i);
      GenAtShape(ts, memory, checked, i - 1);
      GenAtCertified(ts, memory, checked, i - 1);
      EmitCertified(GenAt(ts, memory, checked, i - 1), ts[i - 1], checked, EntryAt(ts, memory, checked, i - 1));
    }
  }

  lemma {:induction false} FinishCertified(g: Gen, checked: bool, entry: seq<set<Reg>>)
    requires GenCertified(g, checked, entry) && Shape(g, checked) && g.opens == []
    ensures Certified(Finish(g), entry, g.next)
    ensures forall b :: 0 <= b < |Finish(g)| ==> OneTerminator(Finish(g)[b])
  {
    hide Certified, OneTerminator, NoTerminator, Available, Extend;
    CertifiedLength(g.graph, entry, g.next);
    PlainTerminator(g.graph, entry, g.next, g.bb, Br(ENDBB));
    ExtendShape(g.graph, g.bb, [Br(ENDBB)]);
    forall b | 0 <= b < |g.graph| && b != g.bb ensures OneTerminator(g.graph[b]) {
      assert !IsOpenTest(g, b);
    }
  }

  /** For every text the compiler accepts, with and without bounds checks, the generated graph
      is well formed. */
  lemma {:induction false} GeneratedCodeIsWellFormed(text: string, memory: nat, checked: bool)
    requires CompileText(text, memory, checked).Compiled?
    ensures WellFormed(CompileText(text, memory, checked).graph)
  {
    hide Shape, Lex, GenCertified, GenAt, Finish, WellFormed, CompileText;
    var ts := Lex(text, 0);
    AbortsIffUnbalanced(text, memory, checked);
    LexEnd(text);
    NestingAgrees(text, |text|);
    GenAtCertified(ts, memory, checked, |ts|);
    var g, entry := GenAt(ts, memory, checked, |ts|), EntryAt(ts, memory, checked, |ts|);
    FinishCertified(g, checked, entry);
    CertifiedIsWellFormed(Finish(g), entry, g.next);
  }
}
