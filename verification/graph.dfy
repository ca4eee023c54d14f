/** Directed graphs over positions as adjacency maps, and reachability
    along paths. Both traversals of the sheet are specified here: the cycle
    search follows references, cache invalidation follows dependents. */
module Graph {
  import opened Common

  /** Each key maps to its successors; a position that is not a key has none. */
  type Graph = map<Position, set<Position>>

  function Succ(g: Graph, p: Position): set<Position> {
    if p in g then g[p] else {}
  }

  /** Every position that occurs in g, as a key or as a successor. */
  function Nodes(g: Graph): set<Position> {
    g.Keys + (set p, q | p in g && q in g[p] :: q)
  }

  lemma SuccInNodes(g: Graph, p: Position)
    ensures Succ(g, p) <= Nodes(g)
  {
  }

  /** The step from path[i] to path[i + 1] follows an edge. */
  ghost predicate StepAt(g: Graph, path: seq<Position>, i: int)
    requires 0 <= i < |path| - 1
  {
    path[i + 1] in Succ(g, path[i])
  }

  /** A non-empty walk in which each position is a successor of the one before. */
  ghost predicate IsPath(g: Graph, path: seq<Position>) {
    |path| > 0 && forall i :: 0 <= i < |path| - 1 ==> StepAt(g, path, i)
  }

  /** b can be reached from a in zero or more steps. */
  ghost predicate Reaches(g: Graph, a: Position, b: Position) {
    exists path :: IsPath(g, path) && path[0] == a && path[|path| - 1] == b
  }

  ghost predicate ReachableFrom(g: Graph, starts: set<Position>, b: Position) {
    exists a :: a in starts && Reaches(g, a, b)
  }

  /** S has no edge leaving it. */
  ghost predicate ClosedUnder(g: Graph, S: set<Position>) {
    forall p :: p in S ==> Succ(g, p) <= S
  }

  lemma ReachesSelf(g: Graph, a: Position)
    ensures Reaches(g, a, a)
  {
    assert IsPath(g, [a]);
  }

  lemma ReachesStep(g: Graph, a: Position, b: Position, c: Position)
    requires Reaches(g, a, b) && c in Succ(g, b)
    ensures Reaches(g, a, c)
  {
    var path :| IsPath(g, path) && path[0] == a && path[|path| - 1] == b;
    var longer := path + [c];
    assert IsPath(g, longer) by {
      forall i | 0 <= i < |longer| - 1
        ensures StepAt(g, longer, i)
      {
        if i < |path| - 1 {
          assert StepAt(g, path, i);
          assert longer[i] == path[i] && longer[i + 1] == path[i + 1];
        }
      }
    }
    assert longer[0] == a && longer[|longer| - 1] == c;
  }

  /** Every position on a path that starts inside a closed set stays inside it. */
  lemma {:induction false} PathStaysIn(g: Graph, S: set<Position>, path: seq<Position>, k: nat)
    requires ClosedUnder(g, S) && IsPath(g, path) && path[0] in S
    requires k < |path|
    ensures path[k] in S
  {
    if k > 0 {
      PathStaysIn(g, S, path, k - 1);
      assert StepAt(g, path, k - 1);
    }
  }

  /** A closed set holds everything reachable from its members. */
  lemma ClosedSetHoldsReachable(g: Graph, S: set<Position>, a: Position, b: Position)
    requires ClosedUnder(g, S) && a in S && Reaches(g, a, b)
    ensures b in S
  {
    var path :| IsPath(g, path) && path[0] == a && path[|path| - 1] == b;
    PathStaysIn(g, S, path, |path| - 1);
  }
}
