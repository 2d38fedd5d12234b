/**
  Pathfinder.solve: a best-first search ordered by accumulated cost (a
  uniform-cost search) over states made of a maze cell and the set of key
  states collected so far. It returns a cheapest sequence of moves from the
  initial state that visits every key state, or None when there is none.
*/
module Pathfinder {
  import opened MazeModel
  import opened SearchTree
  import opened Search

  predicate Sorted(s: seq<nat>)
  {
    forall i, j :: 0 <= i < j < |s| ==> s[i] <= s[j]
  }

  function Last(s: seq<nat>): nat
    requires s != []
  {
    s[|s| - 1]
  }

  predicate Distinct<T(==)>(s: seq<T>)
  {
    forall i, j :: 0 <= i < j < |s| ==> s[i] != s[j]
  }

  /** frontier.poll(): removes a node of least cost; which one among equal costs is left open. */
  method Poll(arena: seq<Node>, frontier: set<nat>) returns (k: nat, rest: set<nat>)
    requires frontier != {} && Bounded(arena, frontier)
    ensures k in frontier && rest == frontier - {k}
    ensures k < |arena| && forall j :: j in frontier ==> arena[k].cost <= arena[j].cost
  {
    MinExists(arena, frontier);
    k :| k in frontier && IsMin(arena, frontier, k);
    rest := frontier - {k};
  }

  /**
    Polls a cheapest node and, if its state carries a key piece, adds that
    state to the node's keys.
  */
  method PollAndCollect(m: Maze, arena: seq<Node>, frontier: set<nat>) returns (k: nat, arena': seq<Node>, frontier': set<nat>)
    requires frontier != {} && Bounded(arena, frontier) && ValidArena(m, arena)
    ensures k in frontier && frontier' == frontier - {k}
    ensures k < |arena| && forall j :: j in frontier ==> arena[k].cost <= arena[j].cost
    ensures arena' == arena[k := Finalize(m, arena[k])] && ValidArena(m, arena')
    ensures HashKey(arena'[k]) == Id(m, arena[k]) && arena'[k].keysCollected <= m.keys
  {
    k, frontier' := Poll(arena, frontier);
    FinalizeStep(m, arena, k);
    arena' := arena;
    if IsKey(m, arena[k].state) {
      arena' := arena[k := arena[k].(keysCollected := arena[k].keysCollected + {arena[k].state})];
    } else {
      assert arena[k := Finalize(m, arena[k])] == arena;
    }
  }

  /** Walks the parent links from `goal` up to the root, putting each node's action in front. */
  method Reconstruct(arena: seq<Node>, goal: nat) returns (result: seq<Action>)
    requires goal < |arena| && Linked(arena)
    ensures result == Actions(arena, goal)
  {
    result := [];
    var curr: nat := goal;
    while arena[curr].parent.Some?
      invariant curr < |arena|
      invariant Actions(arena, goal) == Actions(arena, curr) + result
      decreases curr
    {
      result := [arena[curr].action.value] + result;
      curr := arena[curr].parent.value;
    }
  }

  /**
    The first node polled that passes the goal test gives a solution, and no
    solution is cheaper; its path is empty exactly when the root is a goal.
  */
  lemma GoalPath(m: Maze, arena: seq<Node>, frontier: set<nat>, dist: map<Config, nat>, k: nat, path: seq<Action>)
    requires SearchInv(m, arena, frontier, dist)
    requires k in frontier && k < |arena| && forall j :: j in frontier ==> arena[k].cost <= arena[j].cost
    requires IsGoal(m, Id(m, arena[k]))
    requires m.keys <= {m.initial} ==> frontier == {0}
    requires path == Actions(arena[k := Finalize(m, arena[k])], k)
    ensures Solves(m, path) && PathCost(m, path) == arena[k].cost
    ensures forall w :: Solves(m, w) ==> PathCost(m, path) <= PathCost(m, w)
    ensures path == [] <==> m.keys <= {m.initial}
  {
    var arena' := arena[k := Finalize(m, arena[k])];
    FinalizeStep(m, arena, k);
    Replay(m, arena', k);
    RootOnlyEmptyPath(m, arena', k);
    assert NodeOk(m, arena, 0);
    forall w | Solves(m, w)
      ensures PathCost(m, path) <= PathCost(m, w)
    {
      SolutionBound(m, arena, frontier, dist, w);
    }
  }

  /** One turn of the loop over the transitions: the child for one move still to be pushed. */
  method PushOne(m: Maze, arena: seq<Node>, frontier: set<nat>, ghost dist: map<Config, nat>, k: nat, ghost x: Config,
                 arena1: seq<Node>, frontier1: set<nat>, todo: set<Action>)
    returns (arena2: seq<Node>, frontier2: set<nat>, todo': set<Action>)
    requires Valid(m) && k < |arena|
    requires arena[k] == Finalize(m, arena[k]) && x == Id(m, arena[k]) && x in dist && dist[x] == arena[k].cost
    requires forall c :: c in dist ==> dist[c] <= arena[k].cost
    requires todo != {} && todo <= m.transitions(arena[k].state).Keys
    requires ExpandInv(m, arena1, frontier1, dist, x, todo)
    requires Children(m, arena, k, arena1, m.transitions(arena[k].state).Keys - todo)
    requires Grown(frontier, frontier1, |arena|, |arena1|)
    ensures |arena2| == |arena1| + 1 && arena2[..|arena1|] == arena1 && frontier2 == frontier1 + {|arena1|}
    ensures exists a :: a in todo && todo' == todo - {a} && arena2[|arena1|].action == Some(a)
    ensures todo' < todo
    ensures ExpandInv(m, arena2, frontier2, dist, x, todo')
    ensures Children(m, arena, k, arena2, m.transitions(arena[k].state).Keys - todo')
    ensures Grown(frontier, frontier2, |arena|, |arena2|)
  {
    assert arena1[k] == arena1[..|arena|][k];
    var curr := arena1[k];
    var a :| a in todo;
    var q := m.transitions(curr.state)[a];
    var child := NewNode(arena1, q, Some(a), Some(k), curr.cost + m.cost(q));
    frontier2 := frontier1 + {|arena1|};
    arena2 := arena1 + [child];
    todo' := todo - {a};
    ChildrenSnoc(m, arena, k, arena1, m.transitions(arena[k].state).Keys - todo, a, arena2);
    PushChild(m, arena1, frontier1, dist, x, todo, k, a, arena2, frontier2, todo');
    GrownSnoc(frontier, frontier1, |arena|, |arena1|);
    assert (m.transitions(arena[k].state).Keys - todo) + {a} == m.transitions(arena[k].state).Keys - todo';
  }

  /**
    Expanding node `k`: one child per legal move out of its state, each with
    the parent's cost plus the cost of the cell it enters, pushed on the frontier.
  */
  method Expand(m: Maze, arena: seq<Node>, frontier: set<nat>, ghost dist: map<Config, nat>, k: nat, ghost x: Config)
    returns (arena': seq<Node>, frontier': set<nat>)
    requires Valid(m) && k < |arena|
    requires arena[k] == Finalize(m, arena[k]) && x == Id(m, arena[k]) && x in dist && dist[x] == arena[k].cost
    requires forall c :: c in dist ==> dist[c] <= arena[k].cost
    requires ExpandInv(m, arena, frontier, dist, x, m.transitions(arena[k].state).Keys)
    ensures SearchInv(m, arena', frontier', dist)
    ensures Children(m, arena, k, arena', m.transitions(arena[k].state).Keys)
    ensures Grown(frontier, frontier', |arena|, |arena'|)
  {
    arena', frontier' := arena, frontier;
    var curr := arena[k];
    var transitions := m.transitions(curr.state);
    var todo := transitions.Keys;
    assert transitions.Keys - todo == {};
    while todo != {}
      invariant todo <= transitions.Keys
      invariant ExpandInv(m, arena', frontier', dist, x, todo)
      invariant Children(m, arena, k, arena', transitions.Keys - todo)
      invariant Grown(frontier, frontier', |arena|, |arena'|)
      decreases todo
    {
      arena', frontier', todo := PushOne(m, arena, frontier, dist, k, x, arena', frontier', todo);
    }
    assert transitions.Keys - todo == transitions.Keys;
    EndExpand(m, arena', frontier', dist, x);
  }

  /** The graveyard holds exactly the expanded identities, and none was expanded twice. */
  ghost predicate Ledger(graveyard: set<Config>, dist: map<Config, nat>, expanded: seq<Config>)
  {
    && graveyard == dist.Keys
    && Distinct(expanded)
    && (forall c :: c in expanded <==> c in dist)
  }

  lemma LedgerAdd(graveyard: set<Config>, dist: map<Config, nat>, expanded: seq<Config>, x: Config, v: nat,
                  graveyard': set<Config>, dist': map<Config, nat>, expanded': seq<Config>)
    requires Ledger(graveyard, dist, expanded) && x !in graveyard
    requires graveyard' == graveyard + {x} && dist' == dist[x := v] && expanded' == expanded + [x]
    ensures Ledger(graveyard', dist', expanded')
  {
  }

  /** Polls so far came out in non-decreasing cost order, and nothing left on the frontier is cheaper. */
  ghost predicate PollOrder(arena: seq<Node>, frontier: set<nat>, pops: seq<nat>)
    requires Bounded(arena, frontier)
  {
    && Sorted(pops)
    && (pops != [] ==> forall j :: j in frontier ==> Last(pops) <= arena[j].cost)
  }

  lemma PollOrderPoll(m: Maze, arena: seq<Node>, frontier: set<nat>, pops: seq<nat>, k: nat,
                      arena': seq<Node>, frontier': set<nat>, pops': seq<nat>)
    requires Bounded(arena, frontier) && PollOrder(arena, frontier, pops)
    requires k in frontier && k < |arena| && forall j :: j in frontier ==> arena[k].cost <= arena[j].cost
    requires arena' == arena[k := Finalize(m, arena[k])] && frontier' == frontier - {k}
    requires pops' == pops + [arena[k].cost]
    ensures Bounded(arena', frontier') && PollOrder(arena', frontier', pops')
  {
  }

  lemma PollOrderGrow(arena: seq<Node>, frontier: set<nat>, pops: seq<nat>, arena': seq<Node>, frontier': set<nat>)
    requires Bounded(arena, frontier) && PollOrder(arena, frontier, pops) && pops != []
    requires |arena| <= |arena'| && arena'[..|arena|] == arena
    requires Grown(frontier, frontier', |arena|, |arena'|)
    requires forall j :: |arena| <= j < |arena'| ==> Last(pops) <= arena'[j].cost
    ensures Bounded(arena', frontier') && PollOrder(arena', frontier', pops)
  {
  }

  /**
    What holds between two iterations of the frontier loop: the search
    invariant, the ledger of expanded identities, the poll order, and a root
    that is already a goal has not been polled yet.
  */
  ghost predicate LoopInv(m: Maze, arena: seq<Node>, frontier: set<nat>, graveyard: set<Config>,
                          dist: map<Config, nat>, pops: seq<nat>, expanded: seq<Config>)
  {
    && SearchInv(m, arena, frontier, dist)
    && Ledger(graveyard, dist, expanded)
    && PollOrder(arena, frontier, pops)
    && |expanded| <= |pops|
    && (m.keys <= {m.initial} ==> frontier == {0} && dist == map[])
  }

  /** When the root is itself a goal it is the only node, so a polled node that is not a goal rules that out. */
  lemma RootNotGoal(m: Maze, arena: seq<Node>, frontier: set<nat>, dist: map<Config, nat>, k: nat)
    requires SearchInv(m, arena, frontier, dist) && k in frontier
    requires m.keys <= {m.initial} ==> frontier == {0}
    requires !IsGoal(m, Id(m, arena[k]))
    ensures !(m.keys <= {m.initial})
  {
  }

  /** The goal branch: the polled node's path, rebuilt from the parent links, is an optimal solution. */
  method Goal(m: Maze, arena: seq<Node>, frontier: set<nat>, ghost dist: map<Config, nat>, k: nat, arena': seq<Node>)
    returns (path: seq<Action>)
    requires SearchInv(m, arena, frontier, dist)
    requires k in frontier && k < |arena| && forall j :: j in frontier ==> arena[k].cost <= arena[j].cost
    requires IsGoal(m, Id(m, arena[k]))
    requires m.keys <= {m.initial} ==> frontier == {0}
    requires arena' == arena[k := Finalize(m, arena[k])] && ValidArena(m, arena')
    ensures Solves(m, path) && PathCost(m, path) == arena[k].cost
    ensures forall w :: Solves(m, w) ==> PathCost(m, path) <= PathCost(m, w)
    ensures path == [] <==> m.keys <= {m.initial}
  {
    ValidArenaLinked(m, arena');
    path := Reconstruct(arena', k);
    GoalPath(m, arena, frontier, dist, k, path);
  }

  /**
    The branch for an identity not yet in the graveyard: it is added to the
    graveyard and the node is expanded.
  */
  method ExpandNew(m: Maze, arena: seq<Node>, frontier: set<nat>, graveyard: set<Config>,
                   ghost dist: map<Config, nat>, ghost pops: seq<nat>, ghost expanded: seq<Config>,
                   k: nat, arena1: seq<Node>, frontier1: set<nat>)
    returns (arena': seq<Node>, frontier': set<nat>, graveyard': set<Config>,
             ghost dist': map<Config, nat>, ghost expanded': seq<Config>)
    requires Valid(m) && SearchInv(m, arena, frontier, dist) && Ledger(graveyard, dist, expanded)
    requires k in frontier && k < |arena| && forall j :: j in frontier ==> arena[k].cost <= arena[j].cost
    requires arena1 == arena[k := Finalize(m, arena[k])] && frontier1 == frontier - {k}
    requires HashKey(arena1[k]) == Id(m, arena[k]) && !IsGoal(m, Id(m, arena[k]))
    requires Id(m, arena[k]) !in graveyard
    requires PollOrder(arena1, frontier1, pops) && pops != [] && Last(pops) == arena[k].cost
    ensures graveyard' == graveyard + {Id(m, arena[k])} && dist' == dist[Id(m, arena[k]) := arena[k].cost]
    ensures expanded' == expanded + [Id(m, arena[k])]
    ensures Children(m, arena1, k, arena', m.transitions(arena1[k].state).Keys)
    ensures Grown(frontier1, frontier', |arena1|, |arena'|)
    ensures SearchInv(m, arena', frontier', dist') && Ledger(graveyard', dist', expanded')
    ensures PollOrder(arena', frontier', pops)
    ensures Unexpanded(m, dist') < Unexpanded(m, dist)
  {
    ghost var x := Id(m, arena[k]);
    graveyard' := graveyard + {HashKey(arena1[k])};
    dist' := dist[x := arena[k].cost];
    expanded' := expanded + [x];
    LedgerAdd(graveyard, dist, expanded, x, arena[k].cost, graveyard', dist', expanded');
    BeginExpand(m, arena, frontier, dist, k, arena1, frontier1, dist', x, m.transitions(arena1[k].state).Keys);
    FinalizeIdempotent(m, arena[k]);
    Progress(m, dist, x, arena[k].cost);
    arena', frontier' := Expand(m, arena1, frontier1, dist', k, x);
    PollOrderGrow(arena1, frontier1, pops, arena', frontier');
  }

  /**
    After a poll that fails the goal test: a new identity joins the graveyard
    and is expanded; a repeated one is dropped with no children pushed.
  */
  method Settle(m: Maze, arena: seq<Node>, frontier: set<nat>, graveyard: set<Config>,
                ghost dist: map<Config, nat>, ghost pops: seq<nat>, ghost expanded: seq<Config>,
                k: nat, arena1: seq<Node>, frontier1: set<nat>)
    returns (arena': seq<Node>, frontier': set<nat>, graveyard': set<Config>,
             ghost dist': map<Config, nat>, ghost expanded': seq<Config>)
    requires Valid(m) && SearchInv(m, arena, frontier, dist) && Ledger(graveyard, dist, expanded)
    requires k in frontier && k < |arena| && forall j :: j in frontier ==> arena[k].cost <= arena[j].cost
    requires arena1 == arena[k := Finalize(m, arena[k])] && frontier1 == frontier - {k}
    requires HashKey(arena1[k]) == Id(m, arena[k]) && !IsGoal(m, Id(m, arena[k]))
    requires PollOrder(arena1, frontier1, pops) && pops != [] && Last(pops) == arena[k].cost
    requires |expanded| < |pops| && !(m.keys <= {m.initial})
    ensures Id(m, arena[k]) in graveyard ==>
      && arena' == arena1 && frontier' == frontier1
      && graveyard' == graveyard && dist' == dist && expanded' == expanded
    ensures Id(m, arena[k]) !in graveyard ==>
      && graveyard' == graveyard + {Id(m, arena[k])} && dist' == dist[Id(m, arena[k]) := arena[k].cost]
      && expanded' == expanded + [Id(m, arena[k])]
      && Children(m, arena1, k, arena', m.transitions(arena[k].state).Keys)
      && Grown(frontier1, frontier', |arena|, |arena'|)
    ensures LoopInv(m, arena', frontier', graveyard', dist', pops, expanded')
    ensures || Unexpanded(m, dist') < Unexpanded(m, dist)
            || (dist' == dist && |frontier'| < |frontier|)
  {
    if HashKey(arena1[k]) !in graveyard {
      arena', frontier', graveyard', dist', expanded' :=
        ExpandNew(m, arena, frontier, graveyard, dist, pops, expanded, k, arena1, frontier1);
    } else {
      arena', frontier', graveyard', dist', expanded' := arena1, frontier1, graveyard, dist, expanded;
      Discard(m, arena, frontier, dist, k, arena1, frontier1);
    }
  }

  /**
    One iteration of the frontier loop: poll a cheapest node, collect its key,
    and either return its path (goal test), or expand it (new identity), or
    drop it (identity already in the graveyard).
  */
  method Step(m: Maze, arena: seq<Node>, frontier: set<nat>, graveyard: set<Config>,
              ghost dist: map<Config, nat>, ghost pops: seq<nat>, ghost expanded: seq<Config>)
    returns (found: Option<seq<Action>>, k: nat, arena': seq<Node>, frontier': set<nat>, graveyard': set<Config>,
             ghost dist': map<Config, nat>, ghost pops': seq<nat>, ghost expanded': seq<Config>)
    requires Valid(m) && frontier != {}
    requires LoopInv(m, arena, frontier, graveyard, dist, pops, expanded)
    // the poll
    ensures k in frontier && k < |arena| && forall j :: j in frontier ==> arena[k].cost <= arena[j].cost
    ensures pops' == pops + [arena[k].cost]
    // the goal test
    ensures found.Some? <==> IsGoal(m, Id(m, arena[k]))
    ensures found.Some? ==> Solves(m, found.value) && PathCost(m, found.value) == arena[k].cost
    ensures found.Some? ==> Last(pops') == PathCost(m, found.value)
    ensures found.Some? ==> forall w :: Solves(m, w) ==> PathCost(m, found.value) <= PathCost(m, w)
    ensures found.Some? ==> (found.value == [] <==> m.keys <= {m.initial})
    ensures found.Some? ==> graveyard' == graveyard && dist' == dist && expanded' == expanded
    // a repeated identity is dropped: no children, nothing recorded
    ensures found.None? && Id(m, arena[k]) in graveyard ==>
      && arena' == arena[k := Finalize(m, arena[k])] && frontier' == frontier - {k}
      && graveyard' == graveyard && dist' == dist && expanded' == expanded
    // a new identity joins the graveyard and gets one child per move
    ensures found.None? && Id(m, arena[k]) !in graveyard ==>
      && graveyard' == graveyard + {Id(m, arena[k])} && dist' == dist[Id(m, arena[k]) := arena[k].cost]
      && expanded' == expanded + [Id(m, arena[k])]
      && Children(m, arena[k := Finalize(m, arena[k])], k, arena', m.transitions(arena[k].state).Keys)
      && Grown(frontier - {k}, frontier', |arena|, |arena'|)
    ensures Sorted(pops') && Distinct(expanded') && |expanded'| <= |pops'|
    ensures found.None? ==> LoopInv(m, arena', frontier', graveyard', dist', pops', expanded')
    ensures found.None? ==>
      || Unexpanded(m, dist') < Unexpanded(m, dist)
      || (dist' == dist && |frontier'| < |frontier|)
  {
    k, arena', frontier' := PollAndCollect(m, arena, frontier);
    pops' := pops + [arena'[k].cost];
    PollOrderPoll(m, arena, frontier, pops, k, arena', frontier', pops');
    graveyard', dist', expanded' := graveyard, dist, expanded;
    var curr := arena'[k];

    // Goal test: as many keys collected as there are key states.
    SizeTestIsGoal(m, curr.keysCollected);
    if |curr.keysCollected| == |m.keys| {
      var path := Goal(m, arena, frontier, dist, k, arena');
      found := Some(path);
      return;
    }
    found := None;
    RootNotGoal(m, arena, frontier, dist, k);
    arena', frontier', graveyard', dist', expanded' :=
      Settle(m, arena, frontier, graveyard, dist, pops', expanded, k, arena', frontier');
  }

  /**
    The frontier ran dry: every identity reachable from the start was expanded,
    no solution exists, and so the initial cell does not hold every key.
  */
  lemma Finished(m: Maze, arena: seq<Node>, graveyard: set<Config>, dist: map<Config, nat>,
                 pops: seq<nat>, expanded: seq<Config>)
    requires LoopInv(m, arena, {}, graveyard, dist, pops, expanded)
    ensures forall w :: Trace(m, w).Some? ==> Reached(m, Trace(m, w).value) in expanded
    ensures forall w :: !Solves(m, w)
    ensures !(m.keys <= {m.initial})
  {
    Exhausted(m, arena, dist);
  }

  /**
    The search. `pops` are the costs of the polled nodes in order and
    `expanded` the identities expanded, in order; both exist for the proof.
  */
  method Solve(m: Maze) returns (result: Option<seq<Action>>, ghost pops: seq<nat>, ghost expanded: seq<Config>)
    requires Valid(m)
    ensures result.Some? ==> Solves(m, result.value)
    ensures result.Some? ==> forall w :: Solves(m, w) ==> PathCost(m, result.value) <= PathCost(m, w)
    ensures result.None? <==> forall w :: !Solves(m, w)
    ensures result == Some([]) <==> m.keys <= {m.initial}
    ensures result.Some? ==> pops != [] && Last(pops) == PathCost(m, result.value)
    ensures result.None? ==> forall w :: Trace(m, w).Some? ==> Reached(m, Trace(m, w).value) in expanded
    ensures Sorted(pops) && Distinct(expanded) && |expanded| <= |pops|
  {
    var root := NewNode([], m.initial, None, None, 0);
    root := root.(keysCollected := {});
    var arena := [root];
    var frontier: set<nat> := {0};
    var graveyard: set<Config> := {};
    ghost var dist: map<Config, nat> := map[];
    pops, expanded := [], [];
    Initial(m, root);

    while frontier != {}
      invariant LoopInv(m, arena, frontier, graveyard, dist, pops, expanded)
      decreases Unexpanded(m, dist), |frontier|
    {
      var found, k;
      found, k, arena, frontier, graveyard, dist, pops, expanded := Step(m, arena, frontier, graveyard, dist, pops, expanded);
      if found.Some? {
        result := found;
        return;
      }
    }
    Finished(m, arena, graveyard, dist, pops, expanded);
    result := None;
  }
}
