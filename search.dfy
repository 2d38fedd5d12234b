/**
  The search tree as an arena of nodes, and the invariant the frontier loop
  of Pathfinder.solve keeps. `dist` records, for every identity in the
  graveyard, the cost of the node at which it was expanded.
*/
module Search {
  import opened MazeModel
  import opened SearchTree

  // ---------------------------------------------------------------------
  // The arena of nodes
  // ---------------------------------------------------------------------

  /** A node's key set is what it inherited, before its own poll or after it. */
  ghost predicate Inherits(m: Maze, n: Node, inherited: set<Pos>)
  {
    n.keysCollected == inherited || n.keysCollected == Collect(m, n.state, inherited)
  }

  /**
    Node `i` is the root (index 0: initial state, no action, no parent, cost 0,
    no keys inherited) or a child built from an earlier node by one legal move,
    with the cost of the cell it enters added and its parent's key set copied.
  */
  ghost predicate NodeOk(m: Maze, arena: seq<Node>, i: nat)
    requires i < |arena|
  {
    var n := arena[i];
    && n.state in m.cells
    && n.keysCollected <= m.keys
    && if i == 0 then
         && n.state == m.initial && n.action == None && n.parent == None && n.cost == 0
         && Inherits(m, n, {})
       else
         && n.parent.Some? && n.parent.value < i && n.action.Some?
         && var p := arena[n.parent.value];
         && n.action.value in m.transitions(p.state)
         && n.state == m.transitions(p.state)[n.action.value]
         && n.cost == p.cost + m.cost(n.state)
         && Inherits(m, n, Collect(m, p.state, p.keysCollected))
  }

  ghost predicate ValidArena(m: Maze, arena: seq<Node>)
  {
    |arena| > 0 && forall i :: 0 <= i < |arena| ==> NodeOk(m, arena, i)
  }

  /** Parent links point to earlier nodes, and every node with a parent has an action. */
  ghost predicate Linked(arena: seq<Node>)
  {
    forall i :: 0 <= i < |arena| && arena[i].parent.Some? ==>
      arena[i].parent.value < i && arena[i].action.Some?
  }

  lemma ValidArenaLinked(m: Maze, arena: seq<Node>)
    requires ValidArena(m, arena)
    ensures Linked(arena)
  {
    forall i | 0 <= i < |arena| && arena[i].parent.Some?
      ensures arena[i].parent.value < i && arena[i].action.Some?
    {
      assert NodeOk(m, arena, i);
    }
  }

  /** The moves from the root to node `i`, read off the parent links. */
  function Actions(arena: seq<Node>, i: nat): seq<Action>
    requires i < |arena|
    decreases i
  {
    match arena[i].parent
    case Some(p) => if p < i && arena[i].action.Some? then Actions(arena, p) + [arena[i].action.value] else []
    case None => []
  }

  /** The number of parent links from node `i` up to the root. */
  ghost function Depth(arena: seq<Node>, i: nat): nat
    requires i < |arena|
    decreases i
  {
    match arena[i].parent
    case Some(p) => if p < i then Depth(arena, p) + 1 else 0
    case None => 0
  }

  /**
    Replaying the moves that lead to a node from the initial state follows legal
    transitions, takes as many moves as the node is deep, ends at the node's
    state, collects exactly the node's keys and costs exactly the node's cost.
  */
  lemma {:induction false} Replay(m: Maze, arena: seq<Node>, i: nat)
    requires ValidArena(m, arena) && i < |arena|
    ensures Trace(m, Actions(arena, i)).Some?
    ensures var t := Trace(m, Actions(arena, i)).value;
      && |Actions(arena, i)| == Depth(arena, i)
      && t[|t| - 1] == arena[i].state
      && KeysOn(m, t) == Id(m, arena[i]).keys
      && TraceCost(m, t) == arena[i].cost
    decreases i
  {
    assert NodeOk(m, arena, i);
    if i == 0 {
      assert KeysOn(m, [m.initial]) == Collect(m, m.initial, {});
    } else {
      var p := arena[i].parent.value;
      Replay(m, arena, p);
      TraceSnoc(m, Actions(arena, p), arena[i].action.value);
    }
  }

  /** Only the root has an empty path. */
  lemma RootOnlyEmptyPath(m: Maze, arena: seq<Node>, i: nat)
    requires ValidArena(m, arena) && i < |arena|
    ensures Actions(arena, i) == [] <==> i == 0
  {
    assert NodeOk(m, arena, i);
  }

  /** `j` is `i` or one of its ancestors. */
  ghost predicate Ancestor(arena: seq<Node>, j: nat, i: nat)
    requires i < |arena|
    decreases i
  {
    i == j || match arena[i].parent
              case Some(p) => p < i && Ancestor(arena, j, p)
              case None => false
  }

  /** Costs never decrease along a parent chain. */
  lemma {:induction false} CostMonotone(m: Maze, arena: seq<Node>, j: nat, i: nat)
    requires ValidArena(m, arena) && i < |arena| && Ancestor(arena, j, i)
    ensures j < |arena| && arena[j].cost <= arena[i].cost
    decreases i
  {
    assert NodeOk(m, arena, i);
    if i != j {
      CostMonotone(m, arena, j, arena[i].parent.value);
    }
  }

  /** Polling node `k` keeps the arena well formed and changes no identity, cost or path. */
  lemma FinalizeStep(m: Maze, arena: seq<Node>, k: nat)
    requires ValidArena(m, arena) && k < |arena|
    ensures var arena' := arena[k := Finalize(m, arena[k])];
      && ValidArena(m, arena')
      && (forall j :: 0 <= j < |arena| ==>
            Id(m, arena'[j]) == Id(m, arena[j]) && arena'[j].cost == arena[j].cost)
      && arena'[k].keysCollected == Id(m, arena[k]).keys
      && arena'[k].keysCollected <= m.keys
  {
    assert NodeOk(m, arena, k);
    var arena' := arena[k := Finalize(m, arena[k])];
    forall i | 0 <= i < |arena'|
      ensures NodeOk(m, arena', i)
    {
      assert NodeOk(m, arena, i);
    }
  }

  /** A child of node `k` appended to the arena keeps it well formed. */
  lemma AppendChild(m: Maze, arena: seq<Node>, k: nat, a: Action)
    requires Valid(m) && ValidArena(m, arena) && k < |arena|
    requires arena[k] == Finalize(m, arena[k])
    requires a in m.transitions(arena[k].state)
    ensures var q := m.transitions(arena[k].state)[a];
      var child := NewNode(arena, q, Some(a), Some(k), arena[k].cost + m.cost(q));
      && ValidArena(m, arena + [child])
      && Id(m, child) == Succ(m, Id(m, arena[k]), a)
  {
    var q := m.transitions(arena[k].state)[a];
    var child := NewNode(arena, q, Some(a), Some(k), arena[k].cost + m.cost(q));
    var arena' := arena + [child];
    assert NodeOk(m, arena, k);
    assert q in m.transitions(arena[k].state).Values;
    forall i | 0 <= i < |arena'|
      ensures NodeOk(m, arena', i)
    {
      if i < |arena| {
        assert NodeOk(m, arena, i);
      }
    }
  }

  /**
    `n` is a child of the polled node `p` (at index `k`): one legal move out of
    `p`'s state, the cost of the entered cell added, `p`'s key set copied.
  */
  ghost predicate ChildOf(m: Maze, p: Node, k: nat, n: Node)
  {
    && n.parent == Some(k) && n.action.Some?
    && n.action.value in m.transitions(p.state)
    && n.state == m.transitions(p.state)[n.action.value]
    && n.cost == p.cost + m.cost(n.state)
    && n.keysCollected == p.keysCollected
  }

  /**
    `arena'` is `arena` followed by one child of node `k` for each move in
    `acts` and for nothing else, each move appearing exactly once.
  */
  ghost predicate Children(m: Maze, arena: seq<Node>, k: nat, arena': seq<Node>, acts: set<Action>)
    requires k < |arena|
  {
    && |arena| <= |arena'| && arena'[..|arena|] == arena
    && |arena'| == |arena| + |acts|
    && (forall j :: |arena| <= j < |arena'| ==> ChildOf(m, arena[k], k, arena'[j]) && arena'[j].action.value in acts)
    && (forall i, j :: |arena| <= i < j < |arena'| ==> arena'[i].action != arena'[j].action)
    && Pushed(arena', |arena|, acts)
  }

  /** Every move in `acts` is the action of some node of `arena` from index `lo` on. */
  ghost predicate Pushed(arena: seq<Node>, lo: nat, acts: set<Action>)
  {
    forall a :: a in acts ==> exists j :: lo <= j < |arena| && arena[j].action == Some(a)
  }

  lemma PushedSnoc(arena: seq<Node>, lo: nat, acts: set<Action>, n: Node, a: Action)
    requires Pushed(arena, lo, acts) && lo <= |arena| && n.action == Some(a)
    ensures Pushed(arena + [n], lo, acts + {a})
  {
    forall b | b in acts + {a}
      ensures exists j :: lo <= j < |arena + [n]| && (arena + [n])[j].action == Some(b)
    {
      if b != a {
        var j :| lo <= j < |arena| && arena[j].action == Some(b);
        assert (arena + [n])[j] == arena[j];
      } else {
        assert (arena + [n])[|arena|] == n;
      }
    }
  }

  /** Pushing the child for one more move extends the children by that move. */
  lemma ChildrenSnoc(m: Maze, arena: seq<Node>, k: nat, arena1: seq<Node>, acts: set<Action>, a: Action, arena2: seq<Node>)
    requires k < |arena| && Children(m, arena, k, arena1, acts)
    requires a !in acts && a in m.transitions(arena[k].state)
    requires var q := m.transitions(arena1[k].state)[a];
      arena2 == arena1 + [NewNode(arena1, q, Some(a), Some(k), arena1[k].cost + m.cost(q))]
    ensures Children(m, arena, k, arena2, acts + {a})
  {
    assert arena1[k] == arena1[..|arena|][k];
    var q := m.transitions(arena[k].state)[a];
    var n := NewNode(arena1, q, Some(a), Some(k), arena[k].cost + m.cost(q));
    assert ChildOf(m, arena[k], k, n);
    assert arena2[..|arena|] == arena1[..|arena|];
    assert forall j :: 0 <= j < |arena1| ==> arena2[j] == arena1[j];
    assert arena2[|arena1|] == n;
    assert |acts + {a}| == |acts| + 1;
    assert forall j :: |arena| <= j < |arena2| ==> ChildOf(m, arena[k], k, arena2[j]) && arena2[j].action.value in acts + {a};
    forall i, j | |arena| <= i < j < |arena2|
      ensures arena2[i].action != arena2[j].action
    {
      assert arena2[i] == arena1[i];
      if j < |arena1| {
        assert arena2[j] == arena1[j];
      }
    }
    PushedSnoc(arena1, |arena|, acts, n, a);
  }

  /** `frontier'` is `frontier` plus the arena indices from `lo` up to but not including `hi`. */
  ghost predicate Grown(frontier: set<nat>, frontier': set<nat>, lo: nat, hi: nat)
  {
    forall j :: j in frontier' <==> j in frontier || lo <= j < hi
  }

  lemma GrownSnoc(frontier: set<nat>, frontier': set<nat>, lo: nat, hi: nat)
    requires Grown(frontier, frontier', lo, hi) && lo <= hi
    ensures Grown(frontier, frontier' + {hi}, lo, hi + 1)
  {
  }

  // ---------------------------------------------------------------------
  // The augmented state space: position x keys collected
  // ---------------------------------------------------------------------

  /** Every identity a node of a valid arena can have. */
  ghost function Universe(m: Maze): set<Config>
  {
    set p, K | p in m.cells && K <= m.keys :: Config(p, K)
  }

  /** Expanding an identity not yet expanded brings the search closer to exhausting the universe. */
  ghost function Unexpanded(m: Maze, dist: map<Config, nat>): nat
  {
    |Universe(m) - dist.Keys|
  }

  lemma Progress(m: Maze, dist: map<Config, nat>, x: Config, v: nat)
    requires x in Universe(m) && x !in dist
    ensures Unexpanded(m, dist[x := v]) < Unexpanded(m, dist)
  {
    assert Universe(m) - dist.Keys == (Universe(m) - dist[x := v].Keys) + {x};
  }

  /** The identity of the root once polled. */
  function RootConfig(m: Maze): Config
  {
    Config(m.initial, Collect(m, m.initial, {}))
  }

  /** The identity reached from `c` by move `a`. */
  function Succ(m: Maze, c: Config, a: Action): Config
    requires a in m.transitions(c.pos)
  {
    var q := m.transitions(c.pos)[a];
    Config(q, Collect(m, q, c.keys))
  }

  /** The goal test: all key states collected. */
  predicate IsGoal(m: Maze, c: Config)
  {
    c.keys == m.keys
  }

  // ---------------------------------------------------------------------
  // The frontier invariant
  // ---------------------------------------------------------------------

  ghost predicate Bounded(arena: seq<Node>, frontier: set<nat>)
  {
    forall k :: k in frontier ==> k < |arena|
  }

  /**
    Identity `u` can be reached for at most `bound`: it was expanded for at most
    `bound`, or a frontier node of that identity costs at most `bound`.
  */
  ghost predicate Covered(m: Maze, arena: seq<Node>, frontier: set<nat>, dist: map<Config, nat>, u: Config, bound: nat)
  {
    || (u in dist && dist[u] <= bound)
    || exists k :: k in frontier && k < |arena| && Id(m, arena[k]) == u && arena[k].cost <= bound
  }

  /** The successors of the expanded identity `c` by the moves in `acts` are covered. */
  ghost predicate SuccsCovered(m: Maze, arena: seq<Node>, frontier: set<nat>, dist: map<Config, nat>, c: Config, acts: set<Action>)
    requires c in dist
  {
    forall a :: a in acts && a in m.transitions(c.pos) ==>
      Covered(m, arena, frontier, dist, Succ(m, c, a), dist[c] + m.cost(m.transitions(c.pos)[a]))
  }

  /** The part of the invariant that holds at every point of the loop. */
  ghost predicate Common(m: Maze, arena: seq<Node>, frontier: set<nat>, dist: map<Config, nat>)
  {
    && ValidArena(m, arena)
    && Bounded(arena, frontier)
    && dist.Keys <= Universe(m)
    && (forall c :: c in dist ==> !IsGoal(m, c))
    && (forall c, k :: c in dist && k in frontier && k < |arena| ==> dist[c] <= arena[k].cost)
    && Covered(m, arena, frontier, dist, RootConfig(m), 0)
  }

  /** Between iterations: every successor of every expanded identity is covered. */
  ghost predicate SearchInv(m: Maze, arena: seq<Node>, frontier: set<nat>, dist: map<Config, nat>)
  {
    && Common(m, arena, frontier, dist)
    && forall c :: c in dist ==> SuccsCovered(m, arena, frontier, dist, c, m.transitions(c.pos).Keys)
  }

  /** While `x` is being expanded: its successors by the moves in `todo` are still to be pushed. */
  ghost predicate ExpandInv(m: Maze, arena: seq<Node>, frontier: set<nat>, dist: map<Config, nat>, x: Config, todo: set<Action>)
  {
    && Common(m, arena, frontier, dist)
    && x in dist
    && SuccsCovered(m, arena, frontier, dist, x, m.transitions(x.pos).Keys - todo)
    && forall c :: c in dist && c != x ==> SuccsCovered(m, arena, frontier, dist, c, m.transitions(c.pos).Keys)
  }

  /** Node `k` has the least cost in the frontier. */
  predicate IsMin(arena: seq<Node>, frontier: set<nat>, k: nat)
  {
    k < |arena| && forall j :: j in frontier && j < |arena| ==> CompareTo(arena[k], arena[j]) <= 0
  }

  /** A nonempty frontier has a least-cost node. */
  lemma {:induction false} MinExists(arena: seq<Node>, frontier: set<nat>)
    requires frontier != {} && Bounded(arena, frontier)
    ensures exists k :: k in frontier && IsMin(arena, frontier, k)
    decreases frontier
  {
    var e :| e in frontier;
    if frontier != {e} {
      var rest := frontier - {e};
      MinExists(arena, rest);
      var k :| k in rest && IsMin(arena, rest, k);
      if arena[e].cost < arena[k].cost {
        assert IsMin(arena, frontier, e);
      } else {
        assert IsMin(arena, frontier, k);
      }
    } else {
      assert IsMin(arena, frontier, e);
    }
  }

  // ---------------------------------------------------------------------
  // Steps of the loop
  // ---------------------------------------------------------------------

  /** The state before the first iteration: the root alone in the frontier, nothing expanded. */
  lemma Initial(m: Maze, root: Node)
    requires Valid(m) && root == NewNode([], m.initial, None, None, 0)
    ensures SearchInv(m, [root], {0}, map[])
  {
  }

  lemma CoveredAfterPoll(m: Maze, arena: seq<Node>, frontier: set<nat>, dist: map<Config, nat>,
                         arena': seq<Node>, dist': map<Config, nat>, k: nat, u: Config, b: nat)
    requires Covered(m, arena, frontier, dist, u, b)
    requires k in frontier && k < |arena| == |arena'|
    requires forall j :: 0 <= j < |arena| ==> Id(m, arena'[j]) == Id(m, arena[j]) && arena'[j].cost == arena[j].cost
    requires forall c :: c in dist ==> c in dist' && dist'[c] == dist[c]
    requires Id(m, arena[k]) in dist' && dist'[Id(m, arena[k])] <= arena[k].cost
    ensures Covered(m, arena', frontier - {k}, dist', u, b)
  {
  }

  lemma CoveredAfterPush(m: Maze, arena: seq<Node>, frontier: set<nat>, dist: map<Config, nat>,
                         child: Node, u: Config, b: nat)
    requires Covered(m, arena, frontier, dist, u, b)
    ensures Covered(m, arena + [child], frontier + {|arena|}, dist, u, b)
  {
  }

  /** A repeated identity polled from the frontier is dropped: the invariant holds without it. */
  lemma Discard(m: Maze, arena: seq<Node>, frontier: set<nat>, dist: map<Config, nat>, k: nat,
                arena': seq<Node>, frontier': set<nat>)
    requires SearchInv(m, arena, frontier, dist)
    requires k in frontier && Id(m, arena[k]) in dist
    requires arena' == arena[k := Finalize(m, arena[k])] && frontier' == frontier - {k}
    ensures SearchInv(m, arena', frontier', dist)
  {
    FinalizeStep(m, arena, k);
    CoveredAfterPoll(m, arena, frontier, dist, arena', dist, k, RootConfig(m), 0);
    forall c | c in dist
      ensures SuccsCovered(m, arena', frontier - {k}, dist, c, m.transitions(c.pos).Keys)
    {
      forall a | a in m.transitions(c.pos)
        ensures Covered(m, arena', frontier - {k}, dist, Succ(m, c, a), dist[c] + m.cost(m.transitions(c.pos)[a]))
      {
        assert SuccsCovered(m, arena, frontier, dist, c, m.transitions(c.pos).Keys);
        CoveredAfterPoll(m, arena, frontier, dist, arena', dist, k, Succ(m, c, a), dist[c] + m.cost(m.transitions(c.pos)[a]));
      }
    }
  }

  /** A new identity that is not a goal is polled: it joins the graveyard and its expansion begins. */
  lemma BeginExpand(m: Maze, arena: seq<Node>, frontier: set<nat>, dist: map<Config, nat>, k: nat,
                    arena': seq<Node>, frontier': set<nat>, dist': map<Config, nat>, x: Config, todo: set<Action>)
    requires SearchInv(m, arena, frontier, dist)
    requires k in frontier && IsMin(arena, frontier, k)
    requires x == Id(m, arena[k]) && x !in dist && !IsGoal(m, x)
    requires arena' == arena[k := Finalize(m, arena[k])] && frontier' == frontier - {k}
    requires dist' == dist[x := arena[k].cost] && todo == m.transitions(arena[k].state).Keys
    ensures x in Universe(m)
    ensures ExpandInv(m, arena', frontier', dist', x, todo)
  {
    FinalizeStep(m, arena, k);
    assert NodeOk(m, arena, k);
    assert x in Universe(m);
    CoveredAfterPoll(m, arena, frontier, dist, arena', dist', k, RootConfig(m), 0);
    forall c, j | c in dist' && j in frontier' && j < |arena'|
      ensures dist'[c] <= arena'[j].cost
    {
      assert CompareTo(arena[k], arena[j]) <= 0;
    }
    forall c | c in dist' && c != x
      ensures SuccsCovered(m, arena', frontier', dist', c, m.transitions(c.pos).Keys)
    {
      forall a | a in m.transitions(c.pos)
        ensures Covered(m, arena', frontier', dist', Succ(m, c, a), dist'[c] + m.cost(m.transitions(c.pos)[a]))
      {
        assert SuccsCovered(m, arena, frontier, dist, c, m.transitions(c.pos).Keys);
        CoveredAfterPoll(m, arena, frontier, dist, arena', dist', k, Succ(m, c, a), dist[c] + m.cost(m.transitions(c.pos)[a]));
      }
    }
  }

  /** Pushing the child of the expanded node `k` for move `a` covers that successor. */
  lemma PushChild(m: Maze, arena: seq<Node>, frontier: set<nat>, dist: map<Config, nat>,
                  x: Config, todo: set<Action>, k: nat, a: Action,
                  arena': seq<Node>, frontier': set<nat>, todo': set<Action>)
    requires Valid(m) && ExpandInv(m, arena, frontier, dist, x, todo)
    requires k < |arena| && arena[k] == Finalize(m, arena[k]) && Id(m, arena[k]) == x
    requires dist[x] == arena[k].cost && forall c :: c in dist ==> dist[c] <= arena[k].cost
    requires a in todo && todo <= m.transitions(x.pos).Keys
    requires var q := m.transitions(arena[k].state)[a];
      arena' == arena + [NewNode(arena, q, Some(a), Some(k), arena[k].cost + m.cost(q))]
    requires frontier' == frontier + {|arena|} && todo' == todo - {a}
    ensures ExpandInv(m, arena', frontier', dist, x, todo')
  {
    var q := m.transitions(arena[k].state)[a];
    var child := NewNode(arena, q, Some(a), Some(k), arena[k].cost + m.cost(q));
    AppendChild(m, arena, k, a);
    assert arena'[|arena|] == child;
    CoveredAfterPush(m, arena, frontier, dist, child, RootConfig(m), 0);
    forall c, j | c in dist && j in frontier' && j < |arena'|
      ensures dist[c] <= arena'[j].cost
    {
      if j < |arena| {
        assert arena'[j] == arena[j];
      }
    }
    forall c | c in dist
      ensures SuccsCovered(m, arena', frontier', dist, c,
                           m.transitions(c.pos).Keys - (if c == x then todo - {a} else {}))
    {
      forall b | b in m.transitions(c.pos) && b !in (if c == x then todo - {a} else {})
        ensures Covered(m, arena', frontier', dist, Succ(m, c, b), dist[c] + m.cost(m.transitions(c.pos)[b]))
      {
        if c == x && b == a {
          assert |arena| in frontier' && Id(m, arena'[|arena|]) == Succ(m, c, b);
        } else {
          assert SuccsCovered(m, arena, frontier, dist, c,
                              m.transitions(c.pos).Keys - (if c == x then todo else {}));
          CoveredAfterPush(m, arena, frontier, dist, child, Succ(m, c, b), dist[c] + m.cost(m.transitions(c.pos)[b]));
        }
      }
    }
  }

  /** Once every move of `x` has been pushed, the loop invariant holds again. */
  lemma EndExpand(m: Maze, arena: seq<Node>, frontier: set<nat>, dist: map<Config, nat>, x: Config)
    requires ExpandInv(m, arena, frontier, dist, x, {})
    ensures SearchInv(m, arena, frontier, dist)
  {
  }

  // ---------------------------------------------------------------------
  // What the invariant gives
  // ---------------------------------------------------------------------

  /**
    Every legal sequence of moves from the start either ends at an identity
    already expanded for no more than its cost, or some frontier node costs no
    more than it.
  */
  lemma {:induction false} Cover(m: Maze, arena: seq<Node>, frontier: set<nat>, dist: map<Config, nat>, w: seq<Action>)
    requires SearchInv(m, arena, frontier, dist)
    requires Trace(m, w).Some?
    ensures var t := Trace(m, w).value;
      || (Config(t[|t| - 1], KeysOn(m, t)) in dist && dist[Config(t[|t| - 1], KeysOn(m, t))] <= TraceCost(m, t))
      || exists j :: j in frontier && j < |arena| && arena[j].cost <= TraceCost(m, t)
    decreases |w|
  {
    var t := Trace(m, w).value;
    if w == [] {
      assert t == [m.initial];
      assert KeysOn(m, t) == Collect(m, m.initial, {});
    } else {
      var w', a := w[..|w| - 1], w[|w| - 1];
      assert w == w' + [a];
      Cover(m, arena, frontier, dist, w');
      var t' := Trace(m, w').value;
      TraceSnoc(m, w', a);
      var c := Config(t'[|t'| - 1], KeysOn(m, t'));
      if c in dist && dist[c] <= TraceCost(m, t') {
        assert SuccsCovered(m, arena, frontier, dist, c, m.transitions(c.pos).Keys);
        assert Succ(m, c, a) == Config(t[|t| - 1], KeysOn(m, t));
      }
    }
  }

  /** With the invariant, a frontier node costs no more than any solution. */
  lemma SolutionBound(m: Maze, arena: seq<Node>, frontier: set<nat>, dist: map<Config, nat>, w: seq<Action>)
    requires SearchInv(m, arena, frontier, dist) && Solves(m, w)
    ensures exists j :: j in frontier && j < |arena| && arena[j].cost <= PathCost(m, w)
  {
    Cover(m, arena, frontier, dist, w);
    var t := Trace(m, w).value;
    assert KeysOn(m, t) == m.keys;
  }

  /** The identity reached at the end of a trace: its last cell and the key states seen on it. */
  function Reached(m: Maze, t: seq<Pos>): Config
    requires t != []
  {
    Config(t[|t| - 1], KeysOn(m, t))
  }

  /**
    With the invariant and an empty frontier, every identity reachable from the
    start has been expanded, and the maze has no solution.
  */
  lemma Exhausted(m: Maze, arena: seq<Node>, dist: map<Config, nat>)
    requires SearchInv(m, arena, {}, dist)
    ensures forall w :: Trace(m, w).Some? ==> Reached(m, Trace(m, w).value) in dist
    ensures forall w :: !Solves(m, w)
  {
    forall w | Trace(m, w).Some?
      ensures Reached(m, Trace(m, w).value) in dist && !Solves(m, w)
    {
      Cover(m, arena, {}, dist, w);
      var t := Trace(m, w).value;
      assert forall k :: k in m.keys && k in t ==> k in KeysOn(m, t);
    }
  }

  /** The goal test compares sizes; for a key set of a valid arena that is set equality. */
  lemma {:induction false} SizeTestIsGoal(m: Maze, keys: set<Pos>)
    requires keys <= m.keys
    ensures |keys| == |m.keys| <==> keys == m.keys
  {
    if keys != m.keys {
      assert keys < m.keys;
      var e :| e in m.keys && e !in keys;
      SubsetSize(keys, m.keys - {e});
    }
  }

  lemma {:induction false} SubsetSize<T>(a: set<T>, b: set<T>)
    requires a <= b
    ensures |a| <= |b|
    decreases b
  {
    if a != {} {
      var e :| e in a;
      SubsetSize(a - {e}, b - {e});
    }
  }
}
