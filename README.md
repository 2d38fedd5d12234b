# Pathfinder: a verified model of the key-collecting maze search

`Pathfinder.solve` searches a maze for a cheapest sequence of moves
(`"U"`, `"D"`, `"L"`, `"R"`) from the initial cell that passes over every
key-piece cell. It is a best-first search ordered by accumulated terrain
cost, i.e. a uniform-cost search. It runs over search-tree nodes whose
identity is the pair (cell, set of key cells collected so far). The search
keeps a priority queue (the frontier) and a set of identities already
expanded (the graveyard). It returns the moves of the first polled node
that holds every key, or `null` when the frontier runs dry.

This project models that search in Dafny and proves it correct against an
independent definition of what a solution is.

- `maze.dfy` (module `MazeModel`) models the maze the search consumes:
  - the initial cell, the key cells, the legal moves out of a cell and the
    cost of entering a cell;
  - `Trace` replays a sequence of moves; `PathCost` totals its cost;
  - `Solves` says the moves are legal and visit every key cell.
- `search_tree.dfy` (module `SearchTree`) models `SearchTreeNode`:
  - its fields, the constructor, `compareTo`, `equals` and `hashCode`;
  - the key collection that happens when a node is polled.
- `search.dfy` (module `Search`) holds the nodes in an arena (a sequence
  indexed by the node's position; a parent is referred to by its index):
  - path reconstruction and its replay;
  - the frontier invariant of the loop, and the lemmas that keep it across
    a poll, an expansion and a discarded repeat;
  - the invariant's consequences: no solution is cheaper than a frontier
    node, and an empty frontier means there is no solution.
- `pathfinder.dfy` (module `Pathfinder`) is the imperative search:
  - `Solve` is the frontier loop;
  - `Step` is one iteration of it: poll, collect the key, run the goal
    test, then expand or discard;
  - `Reconstruct` is the parent-walking loop;
  - `Expand` is the loop over the transitions that pushes the children.

The main theorem is the contract of `Pathfinder.Solve`, for every valid maze:
- a returned path is a solution, and no solution costs less;
- `None` is returned exactly when no solution exists;
- the empty path is returned exactly when the initial cell already holds
  every key piece;
- the costs of the polled nodes (`pops`) are non-decreasing, and the last
  of them is the cost of the returned path;
- the identities expanded (`expanded`) are distinct, there are no more of
  them than polls, and when `None` is returned they include every identity
  reachable from the start.

`pops` and `expanded` are ghost histories. The contract of `Step` ties
them to the run: each iteration appends the polled node's cost to `pops`.
An iteration that fails the goal test appends the polled identity to
`expanded` exactly when it was not yet in the graveyard. The goal
iteration leaves the graveyard and `expanded` as they were.

A node's own key cell is added to its key set only when the node is
polled (`Pathfinder.java:56-59`); the constructor just copies the parent's
set (`Pathfinder.java:116-120`). So a child starts with its parent's keys,
which already include the parent's own cell, because the parent was polled
before it was expanded.

## Model

| member | source | states |
|---|---|---|
| Pathfinder.Solve | Pathfinder.java:28-89 | On a valid maze: a returned path solves the maze and no solution is cheaper. None is returned exactly when no solution exists. The empty path is returned exactly when the initial cell holds every key. The polled costs are non-decreasing, and the last one is the returned path's cost. The expanded identities are distinct and no more numerous than the polls. On None they include every identity reachable from the start. |
| Pathfinder.Step | Pathfinder.java:50-86 | One loop iteration. It polls a least-cost node `k` and appends its cost to the poll history. It finds a path exactly when `k` passes the goal test; the path is then an optimal solution costing `k`'s cost, empty exactly when the root is a goal, and the graveyard, `dist` and the expanded list are left unchanged. A repeated identity is dropped: the arena changes only by `k`'s key collection, the frontier loses only `k`, and graveyard, `dist` and the expanded list are unchanged. A new identity joins the graveyard and the expanded list and gets exactly one child per move. Otherwise the loop invariant holds again, and either one more identity is expanded or the frontier shrinks. |
| Pathfinder.Settle | Pathfinder.java:75-85 | After a failed goal test: a repeated identity is dropped with nothing pushed and nothing recorded; a new one joins the graveyard and gets exactly one child per move, with the frontier grown by exactly the new nodes. The loop invariant holds afterwards and the termination measure decreases. |
| Pathfinder.Poll | Pathfinder.java:53 | Removes one frontier node whose cost is no greater than that of any other frontier node; the rest of the frontier is unchanged. |
| Pathfinder.PollAndCollect | Pathfinder.java:53-59 | Polls a cheapest node and adds its own cell to its keys exactly when that cell is a key cell. The arena stays well formed, the node's key set becomes its identity's keys and stays within the maze's key cells. |
| Pathfinder.Goal | Pathfinder.java:61-72 | When the polled node holds every key, its rebuilt path solves the maze, is no costlier than any solution, and is empty exactly when the root is a goal. |
| Pathfinder.GoalPath | Pathfinder.java:61-72 | The same facts as a lemma on the arena after the poll: solution, optimality, empty path iff the initial cell holds every key. |
| Pathfinder.RootNotGoal | Pathfinder.java:41-44 | If the initial cell holds every key, the root is the only frontier node and it is a goal; so a polled node that is not a goal shows the initial cell does not hold every key. |
| Pathfinder.Reconstruct | Pathfinder.java:65-70 | The loop that walks parent links and inserts each action at the front returns exactly the moves from the root to the node (`Search.Actions`). |
| Pathfinder.ExpandNew | Pathfinder.java:76-85 | An identity not in the graveyard is added to it, recorded at its cost and appended to the expanded list. The node gets exactly one child per move and the frontier grows by exactly the new nodes. The search invariant, the graveyard ledger and the poll order are kept, and the number of unexpanded identities drops. |
| Pathfinder.Expand | Pathfinder.java:80-84 | The arena grows by exactly as many nodes as the node has moves. Each new node is a child for one move (parent link, action, entered cell, cost plus the cell's cost, parent's key set), each move appears exactly once, and the old nodes are unchanged. The frontier grows by exactly the new indices. Afterwards every successor of every expanded identity is covered. |
| Pathfinder.PushOne | Pathfinder.java:80-83 | One turn of the loop over the transitions: exactly one node, the child for one move still to do, is appended, with its index added to the frontier and its move removed from the to-do set. The earlier nodes are unchanged. The children pushed so far are exactly one per move handled, and the expansion invariant is kept. |
| Pathfinder.LedgerAdd | Pathfinder.java:76-78 | Adding an identity that is not yet in the graveyard keeps the graveyard equal to the expanded identities, with no identity expanded twice. |
| Pathfinder.PollOrderPoll | Pathfinder.java:53 | Polling a cheapest node extends the sequence of polled costs in sorted order. Nothing left on the frontier is cheaper than the last poll. |
| Pathfinder.PollOrderGrow | Pathfinder.java:81-83 | Children cost at least their parent, so after an expansion no frontier node is cheaper than the last poll. |
| SearchTree.CompareTo | Pathfinder.java:124-127 | Negative, zero or positive exactly when the first node's cost is less than, equal to or greater than the second's. |
| SearchTree.Equals | Pathfinder.java:129-140 | Two nodes are equal exactly when their state and key set, the pair `hashCode` is computed from, agree. |
| SearchTree.EqualsEquivalence | Pathfinder.java:129-140 | `equals` is reflexive (the `o == this` shortcut), symmetric and transitive. |
| SearchTree.EqualsIgnoresPath | Pathfinder.java:129-140 | Changing a node's action, parent or cost does not change whether it equals another node. |
| SearchTree.ContainsIsEquals | Pathfinder.java:142-145 | The set of `HashKey` values of a set of nodes contains a node's `HashKey` exactly when some member `equals` the node. So the graveyard can be kept as a set of `HashKey` values. |
| SearchTree.Finalize | Pathfinder.java:55-59 | The poll-time update adds the node's own cell to its keys when it is a key cell, and leaves the keys as they were otherwise. It keeps every other field. It keeps the keys within the key cells. |
| SearchTree.FinalizeIdempotent | Pathfinder.java:55-59 | Applying the poll-time update twice adds nothing. |
| Search.Initial | Pathfinder.java:41-47 | The root built by the constructor without a parent (initial cell, no action, no parent, cost 0, empty key set) is well formed and, alone on the frontier with nothing expanded, satisfies the search invariant. |
| Search.ChildrenSnoc | Pathfinder.java:112-122 | The constructor builds a child whose parent link, action and cost are the ones given and whose key set is a copy of the parent's. Appending it for a move not yet handled extends the children by exactly that move. |
| Search.PushedSnoc | Pathfinder.java:83 | After a node for a move is appended, every move handled so far still has a node. |
| Search.GrownSnoc | Pathfinder.java:83 | Adding the next arena index to the frontier extends the range of new frontier entries by one. |
| Search.AppendChild | Pathfinder.java:112-122 | A child built from a polled node by a legal move keeps the arena well formed. Its identity is the successor identity: the entered cell, and the parent's keys plus that cell if it holds a key. |
| Search.FinalizeStep | Pathfinder.java:56-59 | The poll-time update keeps the arena well formed. It changes no node's identity or cost. |
| Search.ValidArenaLinked | Pathfinder.java:112-122 | In a well-formed arena every parent link points to an earlier node, and every non-root node has an action. |
| Search.Replay | Pathfinder.java:65-72 | Replaying a node's path from the initial cell uses only legal moves. The number of moves equals the node's depth. The replay ends at the node's cell, visits exactly the node's keys and costs exactly the node's cost. |
| Search.RootOnlyEmptyPath | Pathfinder.java:65-70 | A node's rebuilt path is empty exactly when the node is the root. |
| Search.CostMonotone | Pathfinder.java:81-82 | Costs never decrease from an ancestor to a descendant. |
| Search.Progress | Pathfinder.java:76-78 | Adding a new identity to the graveyard lowers the number of unexpanded identities. This is the termination measure. |
| Search.MinExists | Pathfinder.java:124-127 | A nonempty frontier has a node with `compareTo` no greater than zero against every other. |
| Search.Discard | Pathfinder.java:76 | Dropping a polled node whose identity is already in the graveyard keeps the search invariant. |
| Search.BeginExpand | Pathfinder.java:76-78 | Putting a polled, non-goal, new identity into the graveyard at its cost keeps the invariant for every other expanded identity. Its own successors remain to be pushed. |
| Search.PushChild | Pathfinder.java:81-83 | Pushing the child for one transition covers that successor within the parent's cost plus the cell's cost. |
| Search.EndExpand | Pathfinder.java:80-85 | Once every transition has been pushed, the search invariant holds again. |
| Search.CoveredAfterPoll | Pathfinder.java:53-78 | A coverage fact survives removing a polled node whose identity is then recorded as expanded. |
| Search.CoveredAfterPush | Pathfinder.java:83 | A coverage fact survives pushing another node. |
| Search.Cover | Pathfinder.java:50-86 | For every legal sequence of moves, its final identity was expanded for no more than its cost, or some frontier node costs no more than it. |
| Search.SolutionBound | Pathfinder.java:50-63 | Some frontier node costs no more than any solution, so the first goal polled is optimal. |
| Search.Exhausted | Pathfinder.java:87-88 | With the invariant and an empty frontier, every identity reached by a legal sequence of moves has been expanded, and no sequence of moves solves the maze. |
| Pathfinder.Finished | Pathfinder.java:87-88 | When the loop ends with an empty frontier, every reachable identity is in the expanded list, the maze has no solution, and the initial cell does not hold every key. |
| Search.SizeTestIsGoal | Pathfinder.java:61-63 | For a collected key set within the key cells, equal size with the set of key cells holds exactly when every key has been collected. |
| MazeModel.Trace | PathfinderGradingTests.java:112-119 | The reference replay of a move list over the maze's transitions and costs, which the tests use to judge a returned solution. A replay of n legal moves visits n + 1 cells, starting at the initial cell. |
| MazeModel.TraceSnoc | PathfinderGradingTests.java:112-119 | On the reference replay: appending one legal move appends its destination to the replay. The cost grows by that cell's cost, and the keys seen grow by that cell when it holds a key. |

## Left out

- MazeProblem and MazeState are not part of this model. The maze is a value
  with an initial cell, its key cells, a transition map per cell and a cost
  per cell. The model calls these where the code calls `getInitial`,
  `getKeyStates`, `getTransitions` and `getCost`. `keyPiece() != null` is
  modelled as membership in the key cells. Parsing and terrain classification
  are not modelled.
- The maze also carries the finite set of open cells, and is assumed valid:
  the initial cell is open, and no transition leaves the open cells. The
  code relies on the finite grid for termination in the same way.
- Terrain costs are natural numbers, as the maze guarantees.
- SearchTree.CompareTo: does not model 32-bit `int` wrap-around of the cost
  difference or of accumulated costs. Costs are unbounded naturals, because
  any maze the grid can describe keeps costs far below that range.
- The priority queue and hash set are modelled by what they guarantee.
  - The frontier is a set of arena indices, and a poll takes any node of
    least cost. Which one wins a tie is left open, as the queue leaves it
    open.
  - The graveyard holds identities (cell, key set), which is what `equals`
    and `hashCode` compare. A node is never changed after it enters the
    graveyard.
  - The order in which a node's transitions are visited is left open.
- Object references become arena indices, and the constructor's copy of the
  parent's key set (`new HashSet<>(parent.keysCollected)`) becomes a value
  copy. So the model does not capture aliasing between nodes, of which the
  code has none.
- The class check in `equals` is not modelled, because only nodes are
  compared. The `o == this` shortcut agrees with comparing state and key
  set (`SearchTree.EqualsEquivalence`).
- `hashCode` is modelled by `HashKey`, the (state, key set) pair it hashes,
  not by a 32-bit hash. Two different nodes may share a Java hash, but a
  hash set then decides membership by `equals`, which is what
  `SearchTree.ContainsIsEquals` states of the `HashKey` set.
- The test harness is not part of this model: the JUnit tests, the maze
  fixtures including the large generated maze, and `testSolution`.
  `MazeModel.Solves` and `MazeModel.PathCost` state what `testSolution`
  checks and counts.
