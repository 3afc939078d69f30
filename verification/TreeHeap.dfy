/** The tree as it lies in memory: each routine relinks the nodes in place, and what it leaves is
    exactly the tree the value-level function describes. The pointer to a root pointer that the
    routines take becomes a root that goes in and a root that comes out. */
module TreeHeap {
  import opened Options
  import opened StudentTree
  import opened TreeBalance
  import opened TreeSearch

  /** The structure reachable from `root` is the tree `t`. */
  ghost predicate Hangs(root: TreeNode?, t: Tree)
    reads Nodes(t)
    decreases t
    ensures Hangs(root, t) ==> root == if t.Nil? then null else t.node
  {
    match t
    case Nil => root == null
    case Fork(l, n, r) =>
      && root == n
      && n !in Nodes(l) && n !in Nodes(r) && Nodes(l) !! Nodes(r)
      && Hangs(n.l, l) && Hangs(n.r, r)
  }

  lemma HangsBelow(root: TreeNode?, t: Tree)
    requires Hangs(root, t) && t.Fork?
    ensures t.node !in Nodes(t.l) && t.node !in Nodes(t.r) && Nodes(t.l) !! Nodes(t.r)
    ensures Hangs(t.node.l, t.l) && Hangs(t.node.r, t.r)
  {
  }

  // ---------- which nodes a tree has ----------

  lemma {:induction false} NodesAreInOrder(t: Tree)
    ensures Nodes(t) == set n | n in InOrder(t)
  {
    if t.Fork? {
      NodesAreInOrder(t.l);
      NodesAreInOrder(t.r);
    }
  }

  lemma SameOrderSameNodes(t: Tree, u: Tree)
    requires InOrder(t) == InOrder(u)
    ensures Nodes(t) == Nodes(u)
  {
    NodesAreInOrder(t);
    NodesAreInOrder(u);
  }

  /** A node created later is none of these. */
  lemma NodesAllocated(t: Tree)
    ensures forall n <- Nodes(t) :: allocated(n)
  {
  }

  lemma NodesInserted(t: Tree, n: TreeNode)
    ensures Nodes(Inserted(t, n)) == Nodes(t) + {n}
  {
  }

  lemma NodesHung(t: Tree, s: Tree)
    ensures Nodes(HangAtMin(t, s)) == Nodes(t) + Nodes(s)
    ensures Nodes(HangAtMax(t, s)) == Nodes(t) + Nodes(s)
  {
  }

  // ---------- read-only routines ----------

  function FindNode(root: TreeNode?, id: int, ghost t: Tree): (found: TreeNode?)
    requires Hangs(root, t)
    reads Nodes(t)
    decreases t
    ensures found == match Found(t, id) case None => null case Some(n) => n
  {
    if root == null then null
    else if root.data.id == id then root
    else if root.data.id > id then FindNode(root.l, id, t.l)
    else FindNode(root.r, id, t.r)
  }

  ghost function MaxNode(t: Tree): TreeNode
    requires t.Fork?
    ensures MaxNode(t) in Nodes(t)
  {
    if t.r.Nil? then t.node else MaxNode(t.r)
  }

  ghost function MinNode(t: Tree): TreeNode
    requires t.Fork?
    ensures MinNode(t) in Nodes(t)
  {
    if t.l.Nil? then t.node else MinNode(t.l)
  }

  function FindMax(root: TreeNode?, ghost t: Tree): (m: TreeNode?)
    requires Hangs(root, t)
    reads Nodes(t)
    decreases t
    ensures m == if t.Nil? then null else MaxNode(t)
    ensures m != null ==> m.r == null
  {
    if root == null then null
    else if root.r == null then root
    else FindMax(root.r, t.r)
  }

  function FindMin(root: TreeNode?, ghost t: Tree): (m: TreeNode?)
    requires Hangs(root, t)
    reads Nodes(t)
    decreases t
    ensures m == if t.Nil? then null else MinNode(t)
    ensures m != null ==> m.l == null
  {
    if root == null then null
    else if root.l == null then root
    else FindMin(root.l, t.l)
  }

  function GetNum(root: TreeNode?, ghost t: Tree): (num: int)
    requires Hangs(root, t)
    reads Nodes(t)
    decreases t
    ensures num == Size(t)
  {
    if root == null then 0 else 1 + GetNum(root.l, t.l) + GetNum(root.r, t.r)
  }

  // ---------- hanging a subtree under the extreme node ----------

  /** The structure is `t` but for the free link of its greatest node, which may hold anything. */
  ghost predicate OpenAtMax(root: TreeNode?, t: Tree)
    requires t.Fork?
    reads Nodes(t) - {MaxNode(t)}, MaxNode(t)`l
    decreases t
  {
    && root == t.node
    && t.node !in Nodes(t.l) && t.node !in Nodes(t.r) && Nodes(t.l) !! Nodes(t.r)
    && Hangs(t.node.l, t.l)
    && (t.r.Fork? ==> OpenAtMax(t.node.r, t.r))
  }

  lemma {:induction false} OpensAtMax(root: TreeNode?, t: Tree)
    requires t.Fork? && Hangs(root, t)
    ensures OpenAtMax(root, t)
    decreases t
  {
    if t.r.Fork? {
      OpensAtMax(t.node.r, t.r);
    }
  }

  lemma {:induction false} ClosesAtMax(root: TreeNode?, t: Tree, s: Tree)
    requires t.Fork? && OpenAtMax(root, t)
    requires Hangs(MaxNode(t).r, s) && Nodes(s) !! Nodes(t)
    ensures Hangs(root, HangAtMax(t, s))
    decreases t
  {
    NodesHung(t.r, s);
    if t.r.Fork? {
      ClosesAtMax(t.node.r, t.r, s);
    }
  }

  /** The structure is `t` but for the free link of its least node, which may hold anything. */
  ghost predicate OpenAtMin(root: TreeNode?, t: Tree)
    requires t.Fork?
    reads Nodes(t) - {MinNode(t)}, MinNode(t)`r
    decreases t
  {
    && root == t.node
    && t.node !in Nodes(t.l) && t.node !in Nodes(t.r) && Nodes(t.l) !! Nodes(t.r)
    && Hangs(t.node.r, t.r)
    && (t.l.Fork? ==> OpenAtMin(t.node.l, t.l))
  }

  lemma {:induction false} OpensAtMin(root: TreeNode?, t: Tree)
    requires t.Fork? && Hangs(root, t)
    ensures OpenAtMin(root, t)
    decreases t
  {
    if t.l.Fork? {
      OpensAtMin(t.node.l, t.l);
    }
  }

  lemma {:induction false} ClosesAtMin(root: TreeNode?, t: Tree, s: Tree)
    requires t.Fork? && OpenAtMin(root, t)
    requires Hangs(MinNode(t).l, s) && Nodes(s) !! Nodes(t)
    ensures Hangs(root, HangAtMin(t, s))
    decreases t
  {
    NodesHung(t.l, s);
    if t.l.Fork? {
      ClosesAtMin(t.node.l, t.l, s);
    }
  }

  // ---------- insert ----------

  method InsertNode(root: TreeNode?, data: Stu, ghost t: Tree) returns (root': TreeNode, ghost n: TreeNode)
    requires Hangs(root, t)
    modifies Nodes(t)
    decreases t
    ensures fresh(n) && n.data == data
    ensures Hangs(root', Inserted(t, n))
    ensures root != null ==> root' == root
  {
    if root == null {
      root' := new TreeNode(data);
      n := root';
      return;
    }
    root' := root;
    NodesAllocated(t);
    if root.data.id < data.id {
      var r;
      r, n := InsertNode(root.r, data, t.r);
      NodesInserted(t.r, n);
      assert Hangs(root.l, t.l);
      root.r := r;
    } else {
      var l;
      l, n := InsertNode(root.l, data, t.l);
      NodesInserted(t.l, n);
      assert Hangs(root.r, t.r);
      root.l := l;
    }
  }

  // ---------- turns and balance ----------

  method TurnRootLeft(root: TreeNode, ghost t: Tree) returns (root': TreeNode)
    requires Hangs(root, t) && t.r.Fork?
    modifies Nodes(t)
    ensures Hangs(root', TurnLeft(t))
  {
    var node := root;
    root' := node.r;
    node.r := null;
    ghost var s := Fork(t.l, node, Nil);
    assert Hangs(node, s) && Hangs(root', t.r);
    var m := FindMin(root', t.r);
    OpensAtMin(root', t.r);
    m.l := node;
    ClosesAtMin(root', t.r, s);
  }

  method TurnRootRight(root: TreeNode, ghost t: Tree) returns (root': TreeNode)
    requires Hangs(root, t) && t.l.Fork?
    modifies Nodes(t)
    ensures Hangs(root', TurnRight(t))
  {
    var node := root;
    root' := node.l;
    node.l := null;
    ghost var s := Fork(Nil, node, t.r);
    assert Hangs(node, s) && Hangs(root', t.l);
    var m := FindMax(root', t.l);
    OpensAtMax(root', t.l);
    m.r := node;
    ClosesAtMax(root', t.l, s);
  }

  lemma TurnedStep(t: Tree, n: nat)
    requires Level(Turned(t, n)) && !Level(t)
    ensures n > 0 && Turned(t, n) == Turned(Turn(t), n - 1)
    ensures Size(Turn(t)) == Size(t) && Nodes(Turn(t)) == Nodes(t)
  {
    TurnKeepsOrder(t);
    SameOrderSameNodes(Turn(t), t);
  }

  method TurnRoot(root: TreeNode, num: int, ghost t: Tree) returns (root': TreeNode)
    requires Hangs(root, t) && !Level(t) && num == Lean(t)
    modifies Nodes(t)
    ensures Hangs(root', Turn(t))
  {
    if num < -1 {
      root' := TurnRootLeft(root, t);
    } else {
      root' := TurnRootRight(root, t);
    }
  }

  /** The while(1) loop of tree_balance. */
  method SettleRoot(root: TreeNode, ghost t: Tree) returns (root': TreeNode)
    requires Hangs(root, t)
    modifies Nodes(t)
    ensures Hangs(root', Settled(t)) && Nodes(Settled(t)) == Nodes(t)
  {
    hide Turned, Turn, InOrder;
    root' := root;
    ghost var now, left := t, Size(t);
    LoopEnds(t);
    while true
      invariant Hangs(root', now) && Nodes(now) == Nodes(t)
      invariant Turned(now, left) == Settled(t) && Level(Turned(now, left))
      decreases left
    {
      var num := GetNum(root'.l, now.l) - GetNum(root'.r, now.r);
      if num >= -1 && num <= 1 {
        break;
      }
      TurnedStep(now, left);
      root' := TurnRoot(root', num, now);
      now, left := Turn(now), left - 1;
    }
    LevelStays(now, left);
  }

  lemma LevelStays(t: Tree, n: nat)
    requires Level(t)
    ensures Turned(t, n) == t
  {
  }

  lemma NodesBalanced(t: Tree)
    ensures Nodes(Balanced(t)) == Nodes(t) && Size(Balanced(t)) == Size(t)
  {
    BalanceKeepsOrder(t);
    SameOrderSameNodes(Balanced(t), t);
  }

  lemma BalancedStep(t: Tree)
    requires t.Fork?
    ensures Settled(t).Fork? && Size(Settled(t)) == Size(t)
    ensures Balanced(t) == Fork(Balanced(Settled(t).l), Settled(t).node, Balanced(Settled(t).r))
  {
    TurnedKeepsOrder(t, Size(t));
  }

  method BalanceNodes(root: TreeNode?, ghost t: Tree) returns (root': TreeNode?)
    requires Hangs(root, t)
    modifies Nodes(t)
    ensures Hangs(root', Balanced(t))
    decreases Size(t), 1
  {
    if root == null {
      return null;
    }
    BalancedStep(t);
    hide Balanced, Settled, InOrder, Hangs;
    ghost var s := Settled(t);
    var top := SettleRoot(root, t);
    NodesBalanced(s.l);
    BalanceLeft(top, s);
    BalanceRight(top, Fork(Balanced(s.l), s.node, s.r));
    return top;
  }

  method BalanceLeft(top: TreeNode, ghost s: Tree)
    requires Hangs(top, s)
    modifies Nodes(s)
    ensures Hangs(top, Fork(Balanced(s.l), s.node, s.r))
    decreases Size(s), 0
  {
    hide Balanced;
    NodesAllocated(s);
    NodesBalanced(s.l);
    var l := BalanceNodes(top.l, s.l);
    top.l := l;
  }

  method BalanceRight(top: TreeNode, ghost s: Tree)
    requires Hangs(top, s)
    modifies Nodes(s)
    ensures Hangs(top, Fork(s.l, s.node, Balanced(s.r)))
    decreases Size(s), 0
  {
    hide Balanced;
    NodesAllocated(s);
    NodesBalanced(s.r);
    var r := BalanceNodes(top.r, s.r);
    top.r := r;
  }

  // ---------- delete ----------

  /** The way from the root down to one link: everything in the tree except what that link leads to. */
  datatype Path =
    | Top
    | LeftOf(up: Path, node: TreeNode, r: Tree)
    | RightOf(up: Path, l: Tree, node: TreeNode)

  ghost function Plugged(p: Path, s: Tree): Tree {
    match p
    case Top => s
    case LeftOf(up, n, r) => Plugged(up, Fork(s, n, r))
    case RightOf(up, l, n) => Plugged(up, Fork(l, n, s))
  }

  ghost function PathNodes(p: Path): set<TreeNode> {
    match p
    case Top => {}
    case LeftOf(up, n, r) => PathNodes(up) + {n} + Nodes(r)
    case RightOf(up, l, n) => PathNodes(up) + {n} + Nodes(l)
  }

  /** In memory the path starts at `root` and its last link holds `x`. */
  ghost predicate Leads(root: TreeNode?, p: Path, x: TreeNode?)
    reads PathNodes(p)
    decreases p
  {
    match p
    case Top => root == x
    case LeftOf(up, n, r) =>
      && n.l == x && Hangs(n.r, r) && Leads(root, up, n)
      && n !in Nodes(r) && n !in PathNodes(up) && Nodes(r) !! PathNodes(up)
    case RightOf(up, l, n) =>
      && n.r == x && Hangs(n.l, l) && Leads(root, up, n)
      && n !in Nodes(l) && n !in PathNodes(up) && Nodes(l) !! PathNodes(up)
  }

  lemma {:induction false} PluggedHangs(root: TreeNode?, p: Path, x: TreeNode?, s: Tree)
    requires Leads(root, p, x) && Hangs(x, s) && Nodes(s) !! PathNodes(p)
    ensures Hangs(root, Plugged(p, s))
    ensures Nodes(Plugged(p, s)) == PathNodes(p) + Nodes(s)
    decreases p
  {
    match p
    case Top =>
    case LeftOf(up, n, r) => PluggedHangs(root, up, n, Fork(s, n, r));
    case RightOf(up, l, n) => PluggedHangs(root, up, n, Fork(l, n, s));
  }

  /** Deleting in the whole tree is deleting in what the path leads to. */
  ghost predicate DeletesVia(t: Tree, p: Path, s: Tree, id: int) {
    Deleted(t, id) == match Deleted(s, id) case None => None case Some(s') => Some(Plugged(p, s'))
  }

  /** What the last step of the path tells about the link being followed: null is the root link. */
  ghost predicate LinkOf(p: Path, parent: TreeNode?, goneRight: bool) {
    match p
    case Top => parent == null
    case LeftOf(_, n, _) => parent == n && !goneRight
    case RightOf(_, _, n) => parent == n && goneRight
  }

  /** The search loop of tree_delete. */
  method FindLink(root: TreeNode?, id: int, ghost t: Tree)
    returns (parent: TreeNode?, goneRight: bool, node: TreeNode?, ghost p: Path, ghost s: Tree)
    requires Hangs(root, t)
    ensures Leads(root, p, node) && Hangs(node, s) && Nodes(s) !! PathNodes(p) && LinkOf(p, parent, goneRight)
    ensures DeletesVia(t, p, s, id) && PathNodes(p) + Nodes(s) == Nodes(t)
    ensures node == null || node.data.id == id
  {
    parent, goneRight, node, p, s := null, false, root, Top, t;
    while node != null && node.data.id != id
      invariant Leads(root, p, node) && Hangs(node, s) && Nodes(s) !! PathNodes(p) && LinkOf(p, parent, goneRight)
      invariant DeletesVia(t, p, s, id) && PathNodes(p) + Nodes(s) == Nodes(t)
      decreases s
    {
      parent := node;
      if node.data.id < id {
        goneRight := true;
        p, s := RightOf(p, s.l, s.node), s.r;
        node := node.r;
      } else {
        goneRight := false;
        p, s := LeftOf(p, s.node, s.r), s.l;
        node := node.l;
      }
    }
  }

  method DeleteNode(root: TreeNode?, id: int, ghost t: Tree) returns (ret: int, root': TreeNode?)
    requires Hangs(root, t)
    modifies Nodes(t)
    ensures match Deleted(t, id)
            case None => ret == -1 && root' == root && Hangs(root', t)
            case Some(t') => ret == 0 && Hangs(root', t')
  {
    NodesAllocated(t);
    var parent, goneRight, cur, p, s := FindLink(root, id, t);
    root' := root;
    if cur == null {
      return -1, root;
    }
    NodesAllocated(s);
    root' := Unlink(root, parent, goneRight, cur, p, s);
    ret := 0;
  }

  method Unlink(root: TreeNode?, parent: TreeNode?, goneRight: bool, cur: TreeNode, ghost p: Path, ghost s: Tree)
    returns (root': TreeNode?)
    requires Leads(root, p, cur) && LinkOf(p, parent, goneRight)
    requires Hangs(cur, s) && Nodes(s) !! PathNodes(p) && forall n <- Nodes(s) :: allocated(n)
    modifies PathNodes(p), Nodes(s)
    ensures Hangs(root', Plugged(p, HangAtMax(s.l, s.r)))
  {
    hide Hangs, Leads, Plugged;
    HangsBelow(cur, s);
    var replacement := if cur.l == null then cur.r else cur.l;
    root' := SetLink(root, parent, goneRight, replacement, p, cur);
    if cur.l != null {
      var m := FindMax(cur.l, s.l);
      OpensAtMax(cur.l, s.l);
      m.r := cur.r;
      ClosesAtMax(cur.l, s.l, s.r);
    }
    NodesHung(s.l, s.r);
    PluggedHangs(root', p, replacement, HangAtMax(s.l, s.r));
  }

  /** Store through the pointer to the link. */
  method SetLink(root: TreeNode?, parent: TreeNode?, goneRight: bool, x: TreeNode?, ghost p: Path, ghost was: TreeNode?)
    returns (root': TreeNode?)
    requires Leads(root, p, was) && LinkOf(p, parent, goneRight)
    modifies if parent == null then {} else {parent}
    ensures Leads(root', p, x)
  {
    root' := root;
    if parent == null {
      root' := x;
    } else if goneRight {
      parent.r := x;
    } else {
      parent.l := x;
    }
  }

  // ---------- the tree of the program ----------

  lemma DeleteSucceeds(history: seq<Command>, id: int)
    ensures Deleted(Run(history), id).Some? <==> id in IdsAfter(history)
  {
    hide Run, IdsAfter, Ids, Found;
    RunIsCorrect(history, id);
    FindInOrder(Run(history), id);
    DeleteFindsIds(Run(history), id);
  }

  /** The global root and the calls made on it so far. */
  class StudentStore {
    var root: TreeNode?
    ghost var history: seq<Command>

    ghost predicate Valid()
      reads this, Nodes(Run(history))
    {
      Hangs(root, Run(history))
    }

    constructor ()
      ensures Valid() && history == []
    {
      root, history := null, [];
    }

    method Insert(data: Stu)
      requires Valid()
      modifies this, Nodes(Run(history))
      ensures Valid()
      ensures |history| == |old(history)| + 1 && history[..|old(history)|] == old(history)
      ensures var c := history[|old(history)|]; c.Insert? && fresh(c.node) && c.node.data == data
    {
      ghost var t := Run(history);
      ghost var n;
      root, n := InsertNode(root, data, t);
      history := history + [Command.Insert(n)];
      assert history[..|history| - 1] == old(history);
    }

    method Delete(id: int) returns (ret: int)
      requires Valid()
      modifies this, Nodes(Run(history))
      ensures Valid()
      ensures history == old(history) + [Command.Delete(id)]
      ensures ret == if id in IdsAfter(old(history)) then 0 else -1
    {
      ghost var t := Run(history);
      DeleteSucceeds(history, id);
      ret, root := DeleteNode(root, id, t);
      history := history + [Command.Delete(id)];
      assert history[..|history| - 1] == old(history);
    }

    method Find(id: int) returns (found: TreeNode?)
      requires Valid()
      ensures found != null <==> id in IdsAfter(history)
      ensures found != null ==> found in Nodes(Run(history)) && found.data.id == id
    {
      ghost var t := Run(history);
      RunIsCorrect(history, id);
      FindInOrder(t, id);
      NodesAreInOrder(t);
      found := FindNode(root, id, t);
    }

    method Rebalance()
      requires Valid()
      modifies this, Nodes(Run(history))
      ensures Valid()
      ensures history == old(history) + [Command.Balance]
      ensures LevelEverywhere(Run(history))
    {
      ghost var t := Run(history);
      BalanceLevels(t);
      root := BalanceNodes(root, t);
      history := history + [Command.Balance];
      assert history[..|history| - 1] == old(history);
    }
  }
}
