/** The sheet's two depth-first traversals, each a stack plus a visited set
    ("closure"): the cycle search over references and the cache-invalidation
    sweep over dependents. */
module Traversal {
  import opened Common
  import opened Cells
  import opened Graph

  /** The valid positions the cell at p references; none when p holds no
      cell. An empty cell references nothing. */
  function ValidRefs(cells: CellMap, p: Position): set<Position> {
    if p in cells then set q | q in cells[p].refs && q.IsValid() else {}
  }

  /** The edges the cycle search follows: from a stored cell to each valid
      position its text references. */
  function RefGraph(cells: CellMap): (g: Graph)
    ensures forall p :: Succ(g, p) == ValidRefs(cells, p)
  {
    map p | p in cells :: ValidRefs(cells, p)
  }

  /** The dependents recorded at p; none when p holds no cell. */
  function DependentsAt(cells: CellMap, p: Position): set<Position> {
    if p in cells then cells[p].dependents else {}
  }

  /** The edges the invalidation sweep follows: from a stored cell to each
      of its dependents. */
  function DepGraph(cells: CellMap): (g: Graph)
    ensures forall p :: Succ(g, p) == DependentsAt(cells, p)
  {
    map p | p in cells :: cells[p].dependents
  }

  /** The cell at init lies on a cycle: init is reachable from one of the
      positions it references. */
  ghost predicate CycleThrough(cells: CellMap, init: Position) {
    var g := RefGraph(cells);
    ReachableFrom(g, Succ(g, init), init)
  }

  /** Every cell reachable from start through dependents, start included,
      with its cache dropped; all other cells as they were. */
  ghost function ClearedFrom(cells: CellMap, start: Position): CellMap {
    map p | p in cells :: if Reaches(DepGraph(cells), start, p) then ClearCache(cells[p]) else cells[p]
  }

  /** The sweep changes caches only. */
  lemma ClearedFromKeepsGraph(cells: CellMap, start: Position)
    ensures var r := ClearedFrom(cells, start);
            && r.Keys == cells.Keys
            && (forall p :: p in cells ==> r[p] == cells[p].(cache := r[p].cache))
            && DepGraph(r) == DepGraph(cells)
  {
    var r := ClearedFrom(cells, start);
    assert forall p :: p in cells ==> r[p] == cells[p].(cache := r[p].cache);
    assert DepGraph(r) == DepGraph(cells) by {
      assert forall p :: p in cells ==> r[p].dependents == cells[p].dependents;
    }
  }

  /** After the sweep, reachability through dependents is the same whether
      measured before or after it: reachable cells have no cache, the others
      keep theirs. */
  lemma ClearedFromCaches(cells: CellMap, start: Position)
    ensures var r := ClearedFrom(cells, start);
            && (forall p :: p in r && Reaches(DepGraph(r), start, p) ==> r[p].cache == None)
            && (forall p :: p in r && !Reaches(DepGraph(r), start, p) ==> r[p].cache == cells[p].cache)
  {
    ClearedFromKeepsGraph(cells, start);
  }

  /** The references the cycle search pushes for one cell, in order: the
      valid ones not yet visited. */
  function Unvisited(refs: seq<Position>, closure: set<Position>): (r: seq<Position>)
    ensures forall x :: x in r <==> x in refs && x.IsValid() && x !in closure
  {
    if refs == [] then []
    else (if refs[0].IsValid() && refs[0] !in closure then [refs[0]] else []) + Unvisited(refs[1..], closure)
  }

  /** Number of stack entries that lie in S. */
  function CountIn(stack: seq<Position>, S: set<Position>): nat {
    if stack == [] then 0
    else CountIn(stack[..|stack| - 1], S) + (if stack[|stack| - 1] in S then 1 else 0)
  }

  lemma {:induction false} CountInPushUnvisited(stack: seq<Position>, pushed: seq<Position>, S: set<Position>)
    requires forall x :: x in pushed ==> x !in S
    ensures CountIn(stack + pushed, S) == CountIn(stack, S)
    decreases |pushed|
  {
    if pushed == [] {
      assert stack + pushed == stack;
    } else {
      var all := stack + pushed;
      assert all[..|all| - 1] == stack + pushed[..|pushed| - 1];
      assert all[|all| - 1] == pushed[|pushed| - 1];
      CountInPushUnvisited(stack, pushed[..|pushed| - 1], S);
    }
  }

  /** x was found by a traversal of g from starts: it lies in the universe
      of the traversal and is reachable from one of the starts. */
  ghost predicate Found(g: Graph, universe: set<Position>, starts: set<Position>, x: Position) {
    x in universe && ReachableFrom(g, starts, x)
  }

  /** Every edge out of a visited position ends in a visited position or on
      the stack. */
  ghost predicate Frontier(g: Graph, closure: set<Position>, stack: seq<Position>) {
    forall v, x :: v in closure && x in Succ(g, v) ==> x in closure || x in stack
  }

  /** What both traversals keep true between pops: everything visited or on
      the stack has been found, every start is visited or pending, and every
      edge out of the visited set ends on the stack if not inside it. */
  ghost predicate ExploreInvariant(g: Graph, universe: set<Position>, starts: set<Position>,
                                   closure: set<Position>, stack: seq<Position>)
  {
    && (forall x :: x in stack ==> Found(g, universe, starts, x))
    && (forall x :: x in closure ==> Found(g, universe, starts, x))
    && (forall x :: x in starts ==> x in closure || x in stack)
    && Frontier(g, closure, stack)
  }

  /** A universe that every edge stays inside. */
  ghost predicate EdgesInside(g: Graph, universe: set<Position>) {
    forall p :: Succ(g, p) <= universe
  }

  lemma NodesHoldEdges(g: Graph, extra: set<Position>)
    ensures EdgesInside(g, Nodes(g) + extra)
  {
    forall p
      ensures Succ(g, p) <= Nodes(g) + extra
    {
      SuccInNodes(g, p);
    }
  }

  /** Pushing the starts themselves establishes the invariant. */
  lemma ExploreStart(g: Graph, universe: set<Position>, starts: set<Position>, stack: seq<Position>)
    requires starts <= universe
    requires forall x :: x in stack <==> x in starts
    ensures ExploreInvariant(g, universe, starts, {}, stack)
  {
    forall x | x in starts
      ensures Found(g, universe, starts, x)
    {
      ReachesSelf(g, x);
    }
  }

  /** Every entry of the stack other than its top survives a pop followed by pushes. */
  lemma PopKeeps(stack: seq<Position>, pushed: seq<Position>)
    requires stack != []
    ensures forall x :: x in stack ==> x == stack[|stack| - 1] || x in stack[..|stack| - 1] + pushed
  {
    forall x | x in stack
      ensures x == stack[|stack| - 1] || x in stack[..|stack| - 1] + pushed
    {
      var i :| 0 <= i < |stack| && stack[i] == x;
      if i < |stack| - 1 {
        assert (stack[..|stack| - 1] + pushed)[i] == x;
      }
    }
  }

  /** Popping the top c of the stack and pushing its unvisited successors
      keeps the frontier on the stack. */
  lemma FrontierStep(g: Graph, closure: set<Position>, stack: seq<Position>, pushed: seq<Position>)
    requires stack != [] && Frontier(g, closure, stack)
    requires forall x :: x in Succ(g, stack[|stack| - 1]) && x !in closure + {stack[|stack| - 1]} ==> x in pushed
    ensures Frontier(g, closure + {stack[|stack| - 1]}, stack[..|stack| - 1] + pushed)
  {
    var c := stack[|stack| - 1];
    PopKeeps(stack, pushed);
    forall v, x | v in closure + {c} && x in Succ(g, v)
      ensures x in closure + {c} || x in stack[..|stack| - 1] + pushed
    {
    }
  }

  /** Popping and pushing only found positions keeps everything found. */
  lemma FoundStep(g: Graph, universe: set<Position>, starts: set<Position>,
                  closure: set<Position>, stack: seq<Position>, pushed: seq<Position>)
    requires stack != [] && EdgesInside(g, universe)
    requires forall x :: x in stack ==> Found(g, universe, starts, x)
    requires forall x :: x in closure ==> Found(g, universe, starts, x)
    requires forall x :: x in pushed ==> x in Succ(g, stack[|stack| - 1])
    ensures forall x :: x in stack[..|stack| - 1] + pushed ==> Found(g, universe, starts, x)
    ensures forall x :: x in closure + {stack[|stack| - 1]} ==> Found(g, universe, starts, x)
  {
    var c := stack[|stack| - 1];
    assert Found(g, universe, starts, c);
    forall x | x in pushed
      ensures Found(g, universe, starts, x)
    {
      var a :| a in starts && Reaches(g, a, c);
      ReachesStep(g, a, c, x);
    }
    forall x | x in stack[..|stack| - 1]
      ensures x in stack
    {
      var i :| 0 <= i < |stack| - 1 && stack[..|stack| - 1][i] == x;
      assert stack[i] == x;
    }
  }

  /** Popping c and pushing only positions outside the new closure makes the
      measure (unvisited positions, visited stack entries) drop. */
  lemma MeasureStep(universe: set<Position>, closure: set<Position>, stack: seq<Position>, pushed: seq<Position>)
    requires stack != [] && stack[|stack| - 1] in universe
    requires forall x :: x in pushed ==> x !in closure + {stack[|stack| - 1]}
    ensures var closure' := closure + {stack[|stack| - 1]};
            || |universe - closure'| < |universe - closure|
            || (closure' == closure && CountIn(stack[..|stack| - 1] + pushed, closure') < CountIn(stack, closure))
  {
    var c := stack[|stack| - 1];
    if c !in closure {
      assert c in universe - closure;
      assert universe - (closure + {c}) == (universe - closure) - {c};
    } else {
      assert closure + {c} == closure;
      CountInPushUnvisited(stack[..|stack| - 1], pushed, closure);
    }
  }

  /** One pop of either traversal keeps the invariant, and the measure drops. */
  lemma ExploreStep(g: Graph, universe: set<Position>, starts: set<Position>,
                    closure: set<Position>, stack: seq<Position>, pushed: seq<Position>)
    requires stack != [] && EdgesInside(g, universe)
    requires ExploreInvariant(g, universe, starts, closure, stack)
    requires forall x :: x in pushed <==> x in Succ(g, stack[|stack| - 1]) && x !in closure + {stack[|stack| - 1]}
    ensures ExploreInvariant(g, universe, starts, closure + {stack[|stack| - 1]}, stack[..|stack| - 1] + pushed)
    ensures || |universe - (closure + {stack[|stack| - 1]})| < |universe - closure|
            || (closure + {stack[|stack| - 1]} == closure
                && CountIn(stack[..|stack| - 1] + pushed, closure) < CountIn(stack, closure))
  {
    var c := stack[|stack| - 1];
    assert c in stack;
    assert Found(g, universe, starts, c);
    FrontierStep(g, closure, stack, pushed);
    FoundStep(g, universe, starts, closure, stack, pushed);
    MeasureStep(universe, closure, stack, pushed);
    PopKeeps(stack, pushed);
  }

  /** With the stack empty the visited set is closed under edges, so it
      holds everything reachable from the starts. */
  lemma ExploreEnd(g: Graph, universe: set<Position>, starts: set<Position>, closure: set<Position>, x: Position)
    requires ExploreInvariant(g, universe, starts, closure, [])
    ensures x in closure <==> ReachableFrom(g, starts, x)
  {
    assert ClosedUnder(g, closure);
    if ReachableFrom(g, starts, x) {
      var a :| a in starts && Reaches(g, a, x);
      ClosedSetHoldsReachable(g, closure, a, x);
    }
  }

  lemma SingleStart(g: Graph, start: Position, x: Position)
    ensures ReachableFrom(g, {start}, x) <==> Reaches(g, start, x)
  {
  }

  /** What the search pushes for c is exactly c's unvisited successors. */
  lemma PushedAreSuccessors(cells: CellMap, c: Position, closure: set<Position>)
    ensures var refs := if c in cells then cells[c].refs else [];
            forall x :: x in Unvisited(refs, closure) <==> x in Succ(RefGraph(cells), c) && x !in closure
  {
    assert Succ(RefGraph(cells), c) == ValidRefs(cells, c);
  }

  /** The cycle search. Starting from the positions the cell at init
      references, pop a position, mark it visited, stop with a cycle if it is
      init, and push its valid unvisited references. A position popped again
      after being visited is expanded again, as CheckCycledCells in sheet.cpp
      does. */
  method CheckCycledCells(cells: CellMap, init: Position) returns (cycle: bool)
    ensures cycle <==> CycleThrough(cells, init)
  {
    ghost var g := RefGraph(cells);
    ghost var starts := Succ(g, init);
    ghost var universe := Nodes(g);
    NodesHoldEdges(g, {});
    assert Nodes(g) + {} == universe;
    var closure: set<Position> := {};
    var initRefs := if init in cells then cells[init].refs else [];
    var stack := Unvisited(initRefs, closure);
    PushedAreSuccessors(cells, init, closure);
    ExploreStart(g, universe, starts, stack);
    while stack != []
      invariant ExploreInvariant(g, universe, starts, closure, stack)
      invariant init !in closure
      decreases |universe - closure|, CountIn(stack, closure)
    {
      var c := stack[|stack| - 1];
      if c == init {
        assert Found(g, universe, starts, stack[|stack| - 1]);
        return true;
      }
      var refs := if c in cells then cells[c].refs else [];
      var pushed := Unvisited(refs, closure + {c});
      PushedAreSuccessors(cells, c, closure + {c});
      ExploreStep(g, universe, starts, closure, stack, pushed);
      closure := closure + {c};
      stack := stack[..|stack| - 1] + pushed;
    }
    ExploreEnd(g, universe, starts, closure, init);
    return false;
  }

  /** The members of deps that are not in closure, in whatever order the
      set yields them: what the sweep pushes for one cell. */
  method UnvisitedDependents(deps: set<Position>, closure: set<Position>) returns (pushed: seq<Position>)
    ensures forall x :: x in pushed <==> x in deps && x !in closure
  {
    pushed := [];
    var rest := deps;
    while rest != {}
      invariant rest <= deps
      invariant forall x :: x in pushed ==> x in deps && x !in closure
      invariant forall x :: x in deps && x !in closure ==> x in pushed || x in rest
      decreases rest
    {
      var x :| x in rest;
      if x !in closure {
        pushed := pushed + [x];
      }
      rest := rest - {x};
    }
  }

  /** Dropping the cache of c extends the set of cleared cells by c. */
  lemma ClearStep(cells: CellMap, r: CellMap, closure: set<Position>, c: Position)
    requires r.Keys == cells.Keys
    requires forall p :: p in cells ==> r[p] == if p in closure then ClearCache(cells[p]) else cells[p]
    ensures var r' := if c in r then r[c := ClearCache(r[c])] else r;
            && r'.Keys == cells.Keys
            && (forall p :: p in cells ==> r'[p] == if p in closure + {c} then ClearCache(cells[p]) else cells[p])
            && (c in r ==> r'[c].dependents == DependentsAt(cells, c))
  {
  }

  /** Once the sweep's stack is empty, the cells whose cache it dropped are
      exactly those reachable from start through dependents. */
  lemma SweepEnd(cells: CellMap, start: Position, universe: set<Position>, closure: set<Position>, r: CellMap)
    requires ExploreInvariant(DepGraph(cells), universe, {start}, closure, [])
    requires r.Keys == cells.Keys
    requires forall p :: p in cells ==> r[p] == if p in closure then ClearCache(cells[p]) else cells[p]
    ensures forall p :: p in cells && Reaches(DepGraph(cells), start, p) ==> r[p] == ClearCache(cells[p])
    ensures forall p :: p in cells && !Reaches(DepGraph(cells), start, p) ==> r[p] == cells[p]
    ensures r == ClearedFrom(cells, start)
  {
    var g := DepGraph(cells);
    forall p | p in cells
      ensures p in closure <==> Reaches(g, start, p)
    {
      ExploreEnd(g, universe, {start}, closure, p);
      SingleStart(g, start, p);
    }
    var want := ClearedFrom(cells, start);
    assert r.Keys == want.Keys;
    forall p | p in r
      ensures r[p] == want[p]
    {
    }
  }

  /** The invalidation sweep. Starting from start, pop a position, mark it
      visited, drop its cache, and push its unvisited dependents. */
  method PrepareClearCache(cells: CellMap, start: Position) returns (r: CellMap)
    ensures r.Keys == cells.Keys
    ensures forall p :: p in cells && Reaches(DepGraph(cells), start, p) ==> r[p] == ClearCache(cells[p])
    ensures forall p :: p in cells && !Reaches(DepGraph(cells), start, p) ==> r[p] == cells[p]
    ensures r == ClearedFrom(cells, start)
  {
    ghost var g := DepGraph(cells);
    ghost var universe := Nodes(g) + {start};
    NodesHoldEdges(g, {start});
    r := cells;
    var closure: set<Position> := {};
    var stack := [start];
    ExploreStart(g, universe, {start}, stack);
    while stack != []
      invariant ExploreInvariant(g, universe, {start}, closure, stack)
      invariant r.Keys == cells.Keys
      invariant forall p :: p in cells ==> r[p] == if p in closure then ClearCache(cells[p]) else cells[p]
      decreases |universe - closure|, CountIn(stack, closure)
    {
      var c := stack[|stack| - 1];
      var deps: set<Position> := {};
      ClearStep(cells, r, closure, c);
      if c in r {
        r := r[c := ClearCache(r[c])];
        deps := r[c].dependents;
      }
      assert deps == Succ(g, c);
      var pushed := UnvisitedDependents(deps, closure + {c});
      ExploreStep(g, universe, {start}, closure, stack, pushed);
      closure := closure + {c};
      stack := stack[..|stack| - 1] + pushed;
    }
    SweepEnd(cells, start, universe, closure, r);
  }
}
