/** The binary search tree of student records, as a value: what each operation makes of it.
    A tree keeps the node objects themselves, so equal trees hold the same nodes. */
module StudentTree {
  import opened Options

  datatype Stu = Stu(id: int, name: string, math: int)

  class TreeNode {
    const data: Stu
    var l: TreeNode?
    var r: TreeNode?

    constructor (data: Stu)
      ensures this.data == data && l == null && r == null
    {
      this.data := data;
      l, r := null, null;
    }
  }

  datatype Tree = Nil | Fork(l: Tree, node: TreeNode, r: Tree)

  function Size(t: Tree): nat {
    match t
    case Nil => 0
    case Fork(l, _, r) => 1 + Size(l) + Size(r)
  }

  function InOrder(t: Tree): seq<TreeNode> {
    match t
    case Nil => []
    case Fork(l, n, r) => InOrder(l) + [n] + InOrder(r)
  }

  function Nodes(t: Tree): set<TreeNode> {
    match t
    case Nil => {}
    case Fork(l, n, r) => Nodes(l) + {n} + Nodes(r)
  }

  /** `s` hung to the left of the minimum of `t`. */
  function HangAtMin(t: Tree, s: Tree): Tree {
    match t
    case Nil => s
    case Fork(l, n, r) => Fork(HangAtMin(l, s), n, r)
  }

  /** `s` hung to the right of the maximum of `t`. */
  function HangAtMax(t: Tree, s: Tree): Tree {
    match t
    case Nil => s
    case Fork(l, n, r) => Fork(l, n, HangAtMax(r, s))
  }

  // ---------- searching ----------

  function Inserted(t: Tree, n: TreeNode): Tree {
    match t
    case Nil => Fork(Nil, n, Nil)
    case Fork(l, m, r) =>
      if m.data.id < n.data.id then Fork(l, m, Inserted(r, n)) else Fork(Inserted(l, n), m, r)
  }

  function Found(t: Tree, id: int): Option<TreeNode> {
    match t
    case Nil => None
    case Fork(l, n, r) =>
      if n.data.id == id then Some(n) else if n.data.id > id then Found(l, id) else Found(r, id)
  }

  /** None when the id is not found; otherwise the left subtree takes the place of the node
      and the right subtree goes under the left one's maximum. */
  function Deleted(t: Tree, id: int): Option<Tree> {
    match t
    case Nil => None
    case Fork(l, n, r) =>
      if n.data.id == id then Some(HangAtMax(l, r))
      else if n.data.id < id then
        match Deleted(r, id)
        case None => None
        case Some(r') => Some(Fork(l, n, r'))
      else
        match Deleted(l, id)
        case None => None
        case Some(l') => Some(Fork(l', n, r))
  }

  // ---------- balancing ----------

  /** How many more nodes are on the left of the root than on its right. */
  function Lean(t: Tree): int {
    if t.Nil? then 0 else Size(t.l) - Size(t.r)
  }

  predicate Level(t: Tree) {
    -1 <= Lean(t) <= 1
  }

  function TurnLeft(t: Tree): Tree
    requires t.Fork?
  {
    HangAtMin(t.r, Fork(t.l, t.node, Nil))
  }

  function TurnRight(t: Tree): Tree
    requires t.Fork?
  {
    HangAtMax(t.l, Fork(Nil, t.node, t.r))
  }

  /** One turn of the loop at an uneven root. */
  function Turn(t: Tree): Tree
    requires !Level(t)
  {
    if Lean(t) < -1 then TurnLeft(t) else TurnRight(t)
  }

  /** The root after at most `n` turns. */
  function Turned(t: Tree, n: nat): Tree
    decreases n
  {
    if n == 0 || Level(t) then t else Turned(Turn(t), n - 1)
  }

  /** Where the loop ends: it never needs more turns than there are nodes. */
  function Settled(t: Tree): Tree {
    Turned(t, Size(t))
  }
}
