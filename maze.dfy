/**
  The maze collaborator that the search consumes (MazeProblem / MazeState),
  reduced to the narrow query interface the search uses: an initial state,
  the set of key states, the legal moves out of a state and the terrain cost
  of entering a state. The grid itself, its parsing and its terrain
  classification are not modelled; `cells` stands for the finite set of open
  cells of the grid.
*/
module MazeModel {

  datatype Option<T> = None | Some(value: T)

  /** A maze cell (MazeState's column and row). */
  datatype Pos = Pos(col: int, row: int)

  /** A move label, such as "U", "D", "L" or "R". */
  type Action = string

  datatype Maze = Maze(
    initial: Pos,                         // getInitial()
    cells: set<Pos>,                      // the open cells of the grid
    keys: set<Pos>,                       // getKeyStates()
    transitions: Pos -> map<Action, Pos>, // getTransitions(state)
    cost: Pos -> nat                      // getCost(state): cost of entering a cell
  )

  /** A state carries a key piece exactly when it is one of the key states. */
  predicate IsKey(m: Maze, p: Pos)
  {
    p in m.keys
  }

  /** What the grid guarantees: the start is an open cell and no move leaves the grid. */
  ghost predicate Valid(m: Maze)
  {
    && m.initial in m.cells
    && forall p :: p in m.cells ==> m.transitions(p).Values <= m.cells
  }

  /**
    The cells visited when the moves `w` are replayed from the initial state,
    the initial state included; None when some move is not a legal transition.
  */
  function Trace(m: Maze, w: seq<Action>): (r: Option<seq<Pos>>)
    ensures r.Some? ==> |r.value| == |w| + 1 && r.value[0] == m.initial
    decreases |w|
  {
    if w == [] then Some([m.initial])
    else
      match Trace(m, w[..|w| - 1])
      case None => None
      case Some(t) =>
        var here, a := t[|t| - 1], w[|w| - 1];
        if a in m.transitions(here) then Some(t + [m.transitions(here)[a]]) else None
  }

  /** Sum of the costs of the cells entered along a trace (the start cell is not entered). */
  function TraceCost(m: Maze, t: seq<Pos>): nat
  {
    if |t| <= 1 then 0 else TraceCost(m, t[..|t| - 1]) + m.cost(t[|t| - 1])
  }

  /** The cost the maze charges for a sequence of moves (testSolution's second result). */
  function PathCost(m: Maze, w: seq<Action>): nat
  {
    match Trace(m, w)
    case None => 0
    case Some(t) => TraceCost(m, t)
  }

  /** The key states visited along a trace. */
  function KeysOn(m: Maze, t: seq<Pos>): set<Pos>
  {
    set k | k in m.keys && k in t
  }

  /** `w` is a solution: every move is legal and every key state is visited. */
  predicate Solves(m: Maze, w: seq<Action>)
  {
    Trace(m, w).Some? && forall k :: k in m.keys ==> k in Trace(m, w).value
  }

  /** Extending a legal sequence of moves by one legal move extends its trace and its cost by that cell. */
  lemma TraceSnoc(m: Maze, w: seq<Action>, a: Action)
    requires Trace(m, w).Some?
    requires a in m.transitions(Trace(m, w).value[|w|])
    ensures var t := Trace(m, w).value; var q := m.transitions(t[|w|])[a];
      && Trace(m, w + [a]) == Some(t + [q])
      && TraceCost(m, t + [q]) == TraceCost(m, t) + m.cost(q)
      && KeysOn(m, t + [q]) == KeysOn(m, t) + (if IsKey(m, q) then {q} else {})
  {
  }
}
