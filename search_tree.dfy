/**
  SearchTreeNode: one path prefix of the search tree. Nodes are kept in an
  arena (a sequence) and refer to their parent by its index in the arena.
*/
module SearchTree {
  import opened MazeModel

  datatype Node = Node(
    state: Pos,
    action: Option<Action>,   // the move that led to this node; None for the root
    parent: Option<nat>,      // arena index of the parent; None for the root
    keysCollected: set<Pos>,
    cost: nat)

  /** The identity a node has for the visited set: its state and its collected keys. */
  datatype Config = Config(pos: Pos, keys: set<Pos>)

  /**
    The constructor: the key set is a copy of the parent's set as it is at
    construction time, or empty for the root; the node's own state is not added.
  */
  function NewNode(arena: seq<Node>, state: Pos, action: Option<Action>, parent: Option<nat>, cost: nat): Node
    requires parent.Some? ==> parent.value < |arena|
  {
    Node(state, action, parent, if parent.Some? then arena[parent.value].keysCollected else {}, cost)
  }

  /** compareTo: the order of the frontier, by cost alone. */
  function CompareTo(a: Node, b: Node): (r: int)
    ensures r < 0 <==> a.cost < b.cost
    ensures r == 0 <==> a.cost == b.cost
    ensures r > 0 <==> a.cost > b.cost
  {
    a.cost - b.cost
  }

  /** hashCode: the value the visited set is keyed on. */
  function HashKey(n: Node): Config
  {
    Config(n.state, n.keysCollected)
  }

  /** equals: same state and equal key sets; cost, action and parent play no part. */
  predicate Equals(a: Node, b: Node): (r: bool)
    ensures r <==> HashKey(a) == HashKey(b)
  {
    a.state == b.state && a.keysCollected == b.keysCollected
  }

  /** equals is an equivalence; reflexivity is also the `o == this` shortcut. */
  lemma EqualsEquivalence(a: Node, b: Node, c: Node)
    ensures Equals(a, a)
    ensures Equals(a, b) ==> Equals(b, a)
    ensures Equals(a, b) && Equals(b, c) ==> Equals(a, c)
  {
  }

  /** equals ignores how a node was reached: its action, parent and cost. */
  lemma EqualsIgnoresPath(a: Node, b: Node, action: Option<Action>, parent: Option<nat>, cost: nat)
    ensures Equals(a.(action := action, parent := parent, cost := cost), b) == Equals(a, b)
  {
  }

  /** The hashCode values of a set of nodes, which is what a hash set keyed on them looks up. */
  function HashKeys(g: set<Node>): set<Config>
  {
    set e | e in g :: HashKey(e)
  }

  /**
    A hash set of nodes contains `n` exactly when one of its members equals
    `n`; so the graveyard can be kept as the set of the nodes' HashKey values.
  */
  lemma ContainsIsEquals(g: set<Node>, n: Node)
    ensures HashKey(n) in HashKeys(g) <==> exists e :: e in g && Equals(e, n)
  {
  }

  /** The key set after visiting `p` with keys `keys`: `p` is added when it carries a key piece. */
  function Collect(m: Maze, p: Pos, keys: set<Pos>): set<Pos>
  {
    if IsKey(m, p) then keys + {p} else keys
  }

  /** What happens to a node when it is polled: its own state joins its keys if it is a key state. */
  function Finalize(m: Maze, n: Node): (r: Node)
    ensures IsKey(m, n.state) ==> n.state in r.keysCollected
    ensures !IsKey(m, n.state) ==> r.keysCollected == n.keysCollected
    ensures n.keysCollected <= r.keysCollected <= n.keysCollected + {n.state}
    ensures r.keysCollected <= m.keys <== n.keysCollected <= m.keys
    ensures r == n.(keysCollected := r.keysCollected)
  {
    n.(keysCollected := Collect(m, n.state, n.keysCollected))
  }

  /** Polling a node a second time changes nothing. */
  lemma FinalizeIdempotent(m: Maze, n: Node)
    ensures Finalize(m, Finalize(m, n)) == Finalize(m, n)
  {
  }

  /** The identity a node has once it has been polled. */
  function Id(m: Maze, n: Node): Config
  {
    HashKey(Finalize(m, n))
  }
}
