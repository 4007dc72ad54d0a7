/** Control-flow graphs and the walks through them. */
module ControlFlow {

  /** The successors of every block; block 0 is the entry. */
  type Graph = g: seq<seq<nat>> | ValidGraph(g) witness [[]]

  predicate ValidGraph(g: seq<seq<nat>>) {
    |g| > 0 && forall u, j :: 0 <= u < |g| && 0 <= j < |g[u]| ==> g[u][j] < |g|
  }

  predicate Edge(g: Graph, u: nat, v: nat) {
    u < |g| && v in g[u]
  }

  ghost predicate Path(g: Graph, p: seq<nat>) {
    && |p| > 0 && (forall k :: 0 <= k < |p| ==> p[k] < |g|)
    && forall k :: 0 < k < |p| ==> Edge(g, p[k - 1], p[k])
  }

  ghost predicate PathBetween(g: Graph, p: seq<nat>, a: nat, b: nat) {
    Path(g, p) && p[0] == a && p[|p| - 1] == b
  }

  /** Control can get from the one block to the other, in no step or several. */
  ghost predicate Reaches(g: Graph, a: nat, b: nat) {
    exists p :: PathBetween(g, p, a, b)
  }

  lemma ReachesItself(g: Graph, a: nat)
    requires a < |g|
    ensures Reaches(g, a, a)
  {
    assert PathBetween(g, [a], a, a);
  }

  lemma ReachesNext(g: Graph, a: nat, u: nat, v: nat)
    requires Reaches(g, a, u) && Edge(g, u, v)
    ensures Reaches(g, a, v)
  {
    hide Edge;
    var p :| PathBetween(g, p, a, u);
    EdgeInGraph(g, u, v);
    assert PathBetween(g, p + [v], a, v);
  }

  lemma EdgeInGraph(g: Graph, u: nat, v: nat)
    requires Edge(g, u, v)
    ensures u < |g| && v < |g|
  {
  }

  lemma ReachesTrans(g: Graph, a: nat, b: nat, c: nat)
    requires Reaches(g, a, b) && Reaches(g, b, c)
    ensures Reaches(g, a, c)
  {
    hide Edge;
    var p :| PathBetween(g, p, a, b);
    var q :| PathBetween(g, q, b, c);
    var r := p + q[1..];
    forall k | 0 < k < |r| ensures Edge(g, r[k - 1], r[k]) {
      if k < |p| {
        assert Edge(g, p[k - 1], p[k]);
      } else {
        assert Edge(g, q[k - |p|], q[k - |p| + 1]);
        assert r[k - 1] == q[k - |p|];
      }
    }
    assert PathBetween(g, r, a, c);
  }

  /** A set that every edge stays in contains all that can be reached from it. */
  lemma ClosedUnderReach(g: Graph, s: set<nat>, a: nat, b: nat)
    requires a in s && Reaches(g, a, b) && forall u, v :: u in s && Edge(g, u, v) ==> v in s
    ensures b in s
  {
    var p :| PathBetween(g, p, a, b);
    ClosedAlong(g, s, p);
  }

  lemma {:induction false} ClosedAlong(g: Graph, s: set<nat>, p: seq<nat>)
    requires Path(g, p) && p[0] in s && forall u, v :: u in s && Edge(g, u, v) ==> v in s
    ensures forall k :: 0 <= k < |p| ==> p[k] in s
  {
    hide Edge;
    var n := |p| - 1;
    if n > 0 {
      ClosedAlong(g, s, p[..n]);
      assert p[..n][n - 1] in s && Edge(g, p[n - 1], p[n]);
    }
  }

  /** Some edge leads to whatever is reached from elsewhere. */
  lemma LastStep(g: Graph, a: nat, b: nat)
    requires Reaches(g, a, b)
    ensures a == b || exists u :: Edge(g, u, b)
  {
    hide Edge;
    var p :| PathBetween(g, p, a, b);
    var n := |p| - 1;
    assert n == 0 || Edge(g, p[n - 1], p[n]);
  }

  /** A walk that comes back to where it began. */
  ghost predicate ClosedWalk(g: Graph, p: seq<nat>) {
    Path(g, p) && |p| > 1 && p[0] == p[|p| - 1]
  }
}
