/** Searching in the tree: what insert, delete and find mean for the in-order sequence, and
    over every sequence of calls. Ids may repeat, so the order kept is the weak one. */
module TreeSearch {
  import opened Options
  import opened StudentTree
  import opened TreeBalance

  ghost predicate Sorted(s: seq<TreeNode>) {
    forall i, j | 0 <= i < j < |s| :: s[i].data.id <= s[j].data.id
  }

  ghost predicate SearchTree(t: Tree) {
    Sorted(InOrder(t))
  }

  lemma ForkIsSorted(t: Tree)
    requires t.Fork? && SearchTree(t)
    ensures SearchTree(t.l) && SearchTree(t.r)
    ensures forall m <- InOrder(t.l) :: m.data.id <= t.node.data.id
    ensures forall m <- InOrder(t.r) :: t.node.data.id <= m.data.id
  {
    var a, s := InOrder(t.l), InOrder(t);
    assert forall i | 0 <= i < |a| :: s[i] == a[i];
    assert s[|a|] == t.node;
    assert forall i | 0 <= i < |InOrder(t.r)| :: s[|a| + 1 + i] == InOrder(t.r)[i];
  }

  // ---------- splicing sequences ----------

  function With<T>(s: seq<T>, k: nat, x: T): seq<T>
    requires k <= |s|
  {
    s[..k] + [x] + s[k..]
  }

  function Without<T>(s: seq<T>, k: nat): seq<T>
    requires k < |s|
  {
    s[..k] + s[k + 1..]
  }

  lemma WithLeft<T>(a: seq<T>, m: T, b: seq<T>, k: nat, x: T)
    requires k <= |a|
    ensures With(a, k, x) + [m] + b == With(a + [m] + b, k, x)
  {
  }

  lemma WithRight<T>(a: seq<T>, m: T, b: seq<T>, k: nat, x: T)
    requires k <= |b|
    ensures a + [m] + With(b, k, x) == With(a + [m] + b, |a| + 1 + k, x)
  {
  }

  lemma WithoutLeft<T>(a: seq<T>, m: T, b: seq<T>, k: nat)
    requires k < |a|
    ensures Without(a, k) + [m] + b == Without(a + [m] + b, k)
    ensures (a + [m] + b)[k] == a[k]
  {
  }

  lemma WithoutRight<T>(a: seq<T>, m: T, b: seq<T>, k: nat)
    requires k < |b|
    ensures a + [m] + Without(b, k) == Without(a + [m] + b, |a| + 1 + k)
    ensures (a + [m] + b)[|a| + 1 + k] == b[k]
  {
  }

  lemma WithoutMiddle<T>(a: seq<T>, m: T, b: seq<T>)
    ensures Without(a + [m] + b, |a|) == a + b && (a + [m] + b)[|a|] == m
  {
  }

  lemma WithAfterWithout<T>(s: seq<T>, k: nat)
    requires k < |s|
    ensures With(Without(s, k), k, s[k]) == s
  {
  }

  // ---------- one operation ----------

  /** Where insert puts a node in the in-order sequence. */
  function InsertPosition(t: Tree, n: TreeNode): (k: nat)
    ensures k <= |InOrder(t)|
  {
    match t
    case Nil => 0
    case Fork(l, m, r) =>
      if m.data.id < n.data.id then |InOrder(l)| + 1 + InsertPosition(r, n) else InsertPosition(l, n)
  }

  lemma {:induction false} InsertSplices(t: Tree, n: TreeNode)
    ensures InOrder(Inserted(t, n)) == With(InOrder(t), InsertPosition(t, n), n)
  {
    if t.Fork? {
      var a, b := InOrder(t.l), InOrder(t.r);
      if t.node.data.id < n.data.id {
        InsertSplices(t.r, n);
        WithRight(a, t.node, b, InsertPosition(t.r, n), n);
      } else {
        InsertSplices(t.l, n);
        WithLeft(a, t.node, b, InsertPosition(t.l, n), n);
      }
    }
  }

  /** In a sorted tree that is just before the first id that is not smaller. */
  lemma {:induction false} InsertPositionIsSorted(t: Tree, n: TreeNode)
    requires SearchTree(t)
    ensures forall i | 0 <= i < InsertPosition(t, n) :: InOrder(t)[i].data.id < n.data.id
    ensures forall i | InsertPosition(t, n) <= i < |InOrder(t)| :: n.data.id <= InOrder(t)[i].data.id
  {
    if t.Fork? {
      ForkIsSorted(t);
      if t.node.data.id < n.data.id {
        InsertPositionIsSorted(t.r, n);
      } else {
        InsertPositionIsSorted(t.l, n);
      }
    }
  }

  lemma InsertKeepsSorted(t: Tree, n: TreeNode)
    requires SearchTree(t)
    ensures SearchTree(Inserted(t, n))
  {
    InsertSplices(t, n);
    InsertPositionIsSorted(t, n);
  }

  /** Where delete takes a node from; meaningful when it finds one. */
  function DeletePosition(t: Tree, id: int): nat {
    match t
    case Nil => 0
    case Fork(l, n, r) =>
      if n.data.id == id then |InOrder(l)|
      else if n.data.id < id then |InOrder(l)| + 1 + DeletePosition(r, id)
      else DeletePosition(l, id)
  }

  /** A successful delete takes one node with that id out of the in-order sequence and moves
      nothing else. */
  lemma {:induction false} DeleteSplices(t: Tree, id: int)
    requires Deleted(t, id).Some?
    ensures DeletePosition(t, id) < |InOrder(t)| && InOrder(t)[DeletePosition(t, id)].data.id == id
    ensures InOrder(Deleted(t, id).value) == Without(InOrder(t), DeletePosition(t, id))
  {
    var a, b := InOrder(t.l), InOrder(t.r);
    if t.node.data.id == id {
      HangAtMaxInOrder(t.l, t.r);
      WithoutMiddle(a, t.node, b);
    } else if t.node.data.id < id {
      DeleteSplices(t.r, id);
      WithoutRight(a, t.node, b, DeletePosition(t.r, id));
    } else {
      DeleteSplices(t.l, id);
      WithoutLeft(a, t.node, b, DeletePosition(t.l, id));
    }
  }

  /** Delete fails exactly when the id is not there. */
  lemma {:induction false} DeleteFindsIds(t: Tree, id: int)
    requires SearchTree(t)
    ensures Deleted(t, id).Some? <==> exists m <- InOrder(t) :: m.data.id == id
  {
    if t.Fork? {
      ForkIsSorted(t);
      assert t.node in InOrder(t);
      DeleteFindsIds(t.l, id);
      DeleteFindsIds(t.r, id);
    }
  }

  lemma DeleteKeepsSorted(t: Tree, id: int)
    requires SearchTree(t) && Deleted(t, id).Some?
    ensures SearchTree(Deleted(t, id).value)
  {
    DeleteSplices(t, id);
  }

  /** Find succeeds exactly on the ids that are there. */
  lemma {:induction false} FindInOrder(t: Tree, id: int)
    requires SearchTree(t)
    ensures Found(t, id).Some? <==> exists m <- InOrder(t) :: m.data.id == id
    ensures Found(t, id).Some? ==> Found(t, id).value in InOrder(t) && Found(t, id).value.data.id == id
  {
    if t.Fork? {
      ForkIsSorted(t);
      assert t.node in InOrder(t);
      FindInOrder(t.l, id);
      FindInOrder(t.r, id);
    }
  }

  // ---------- runs ----------

  datatype Command = Insert(node: TreeNode) | Delete(id: int) | Balance

  function Executed(t: Tree, c: Command): Tree {
    match c
    case Insert(n) => Inserted(t, n)
    case Delete(id) => Deleted(t, id).GetOr(t)
    case Balance => Balanced(t)
  }

  /** The tree after the commands, oldest first. */
  function Run(commands: seq<Command>): Tree {
    if commands == [] then Nil else Executed(Run(commands[..|commands| - 1]), commands[|commands| - 1])
  }

  /** The ids that should be there: each one inserted, less one for every delete that finds it. */
  function IdsAfter(commands: seq<Command>): multiset<int> {
    if commands == [] then multiset{}
    else
      var before := IdsAfter(commands[..|commands| - 1]);
      match commands[|commands| - 1]
      case Insert(n) => before + multiset{n.data.id}
      case Delete(id) => before - multiset{id}
      case Balance => before
  }

  function Ids(s: seq<TreeNode>): seq<int> {
    if s == [] then [] else [s[0].data.id] + Ids(s[1..])
  }

  lemma {:induction false} IdsOfConcat(a: seq<TreeNode>, b: seq<TreeNode>)
    ensures Ids(a + b) == Ids(a) + Ids(b)
  {
    if a == [] {
      assert a + b == b;
    } else {
      assert (a + b)[1..] == a[1..] + b;
      IdsOfConcat(a[1..], b);
    }
  }

  lemma {:induction false} IdInIds(s: seq<TreeNode>, id: int)
    ensures id in Ids(s) <==> exists m <- s :: m.data.id == id
  {
    if s != [] {
      IdInIds(s[1..], id);
      assert s == [s[0]] + s[1..];
    }
  }

  /** The ids of the tree, with repetitions. */
  function IdBag(t: Tree): multiset<int> {
    multiset(Ids(InOrder(t)))
  }

  lemma IdsWith(s: seq<TreeNode>, k: nat, n: TreeNode)
    requires k <= |s|
    ensures multiset(Ids(With(s, k, n))) == multiset(Ids(s)) + multiset{n.data.id}
  {
    assert s == s[..k] + s[k..];
    IdsOfConcat(s[..k], s[k..]);
    IdsOfConcat(s[..k] + [n], s[k..]);
    IdsOfConcat(s[..k], [n]);
  }

  lemma IdsWithout(s: seq<TreeNode>, k: nat)
    requires k < |s|
    ensures multiset(Ids(Without(s, k))) == multiset(Ids(s)) - multiset{s[k].data.id}
  {
    hide Ids;
    WithAfterWithout(s, k);
    IdsWith(Without(s, k), k, s[k]);
  }

  lemma StepKeepsBag(t: Tree, c: Command)
    requires SearchTree(t)
    ensures SearchTree(Executed(t, c))
    ensures match c
            case Insert(n) => IdBag(Executed(t, c)) == IdBag(t) + multiset{n.data.id}
            case Delete(id) => IdBag(Executed(t, c)) == IdBag(t) - multiset{id}
            case Balance => IdBag(Executed(t, c)) == IdBag(t)
  {
    match c
    case Insert(n) =>
      InsertKeepsSorted(t, n);
      InsertSplices(t, n);
      IdsWith(InOrder(t), InsertPosition(t, n), n);
    case Delete(id) =>
      DeleteFindsIds(t, id);
      IdInIds(InOrder(t), id);
      if Deleted(t, id).Some? {
        DeleteKeepsSorted(t, id);
        DeleteSplices(t, id);
        IdsWithout(InOrder(t), DeletePosition(t, id));
      }
    case Balance => BalanceKeepsOrder(t);
  }

  /** Over every run the in-order stays sorted, the ids are exactly those inserted less those
      deleted, and find succeeds exactly on them. */
  lemma {:induction false} RunIsCorrect(commands: seq<Command>, id: int)
    ensures SearchTree(Run(commands))
    ensures IdBag(Run(commands)) == IdsAfter(commands)
    ensures Found(Run(commands), id).Some? <==> id in IdsAfter(commands)
  {
    if commands != [] {
      RunIsCorrect(commands[..|commands| - 1], id);
      StepKeepsBag(Run(commands[..|commands| - 1]), commands[|commands| - 1]);
    }
    FindInOrder(Run(commands), id);
    IdInIds(InOrder(Run(commands)), id);
  }
}
