/** Singly linked lists that may run into a cycle: the shape of such a list, and when the node
    at one position is the node at another. */
module CycleTheory {

  class ListNode {
    var val: int
    var next: ListNode?
  }

  /** The links of the nodes in `nodes`, as they are now. */
  ghost function Links(nodes: set<ListNode>): map<ListNode, ListNode?>
    reads nodes
  {
    map n | n in nodes :: n.next
  }

  /** The list from `head` stays inside `m`. */
  ghost predicate Closed(m: map<ListNode, ListNode?>, head: ListNode?) {
    (head != null ==> head in m) && forall n <- m :: m[n] != null ==> m[n] in m
  }

  /** The node `k` links after `head`; null from the end of the list on. */
  ghost function Walk(m: map<ListNode, ListNode?>, head: ListNode?, k: nat): (n: ListNode?)
    requires Closed(m, head)
    ensures n != null ==> n in m
  {
    if k == 0 then head
    else
      var p := Walk(m, head, k - 1);
      if p == null then null else m[p]
  }

  ghost predicate OnCycle(m: map<ListNode, ListNode?>, n: ListNode?)
    requires Closed(m, n)
  {
    n != null && exists l: nat :: l > 0 && Walk(m, n, l) == n
  }

  /** Some node reachable from the head leads back to itself. */
  ghost predicate HasCycle(m: map<ListNode, ListNode?>, head: ListNode?)
    requires Closed(m, head)
  {
    exists k: nat :: OnCycle(m, Walk(m, head, k))
  }

  /** `e` is the first node from the head that lies on a cycle. */
  ghost predicate IsEntry(m: map<ListNode, ListNode?>, head: ListNode?, e: ListNode)
    requires Closed(m, head)
  {
    exists k: nat :: Walk(m, head, k) == e && OnCycle(m, e) && forall j: nat | j < k :: !OnCycle(m, Walk(m, head, j))
  }

  /** `tail` nodes before the cycle and `cycle` nodes on it, all different; `cycle` is 0 when the
      list ends after `tail` nodes. */
  ghost predicate IsShape(m: map<ListNode, ListNode?>, head: ListNode?, tail: nat, cycle: nat)
    requires Closed(m, head)
  {
    && (forall i: nat | i < tail + cycle :: Walk(m, head, i) != null)
    && (forall i: nat, j: nat | i < j < tail + cycle :: Walk(m, head, i) != Walk(m, head, j))
    && Walk(m, head, tail + cycle) == if cycle == 0 then null else Walk(m, head, tail)
  }

  // ---------- walking ----------

  lemma {:induction false} WalkOn(m: map<ListNode, ListNode?>, head: ListNode?, i: nat, j: nat)
    requires Closed(m, head)
    ensures Walk(m, Walk(m, head, i), j) == Walk(m, head, i + j)
  {
    if j > 0 {
      WalkOn(m, head, i, j - 1);
    }
  }

  lemma {:induction false} EndStays(m: map<ListNode, ListNode?>, head: ListNode?, i: nat, j: nat)
    requires Closed(m, head) && i <= j && Walk(m, head, i) == null
    ensures Walk(m, head, j) == null
  {
    if i < j {
      EndStays(m, head, i, j - 1);
    }
  }

  lemma {:induction false} SameNodeSameRest(m: map<ListNode, ListNode?>, head: ListNode?, i: nat, j: nat, t: nat)
    requires Closed(m, head) && Walk(m, head, i) == Walk(m, head, j)
    ensures Walk(m, head, i + t) == Walk(m, head, j + t)
  {
    if t > 0 {
      SameNodeSameRest(m, head, i, j, t - 1);
    }
  }

  // ---------- every list has a shape ----------

  ghost predicate DistinctUpTo(m: map<ListNode, ListNode?>, head: ListNode?, n: nat)
    requires Closed(m, head)
  {
    && (forall i: nat | i < n :: Walk(m, head, i) != null)
    && (forall i: nat, j: nat | i < j < n :: Walk(m, head, i) != Walk(m, head, j))
  }

  /** The first `n` nodes. */
  ghost function Visited(m: map<ListNode, ListNode?>, head: ListNode?, n: nat): set<ListNode>
    requires Closed(m, head) && DistinctUpTo(m, head, n)
  {
    if n == 0 then {} else Visited(m, head, n - 1) + {Walk(m, head, n - 1)}
  }

  lemma {:induction false} LaterIsNotVisited(m: map<ListNode, ListNode?>, head: ListNode?, n: nat, k: nat)
    requires Closed(m, head) && n <= k && DistinctUpTo(m, head, k + 1)
    ensures Walk(m, head, k) !in Visited(m, head, n)
  {
    if n > 0 {
      LaterIsNotVisited(m, head, n - 1, k);
    }
  }

  /** As many different nodes as positions, so no more positions than nodes. */
  lemma {:induction false} VisitedSize(m: map<ListNode, ListNode?>, head: ListNode?, n: nat)
    requires Closed(m, head) && DistinctUpTo(m, head, n)
    ensures Visited(m, head, n) <= m.Keys && |Visited(m, head, n)| == n
  {
    if n > 0 {
      VisitedSize(m, head, n - 1);
      LaterIsNotVisited(m, head, n - 1, n - 1);
    }
  }

  lemma DistinctIsBounded(m: map<ListNode, ListNode?>, head: ListNode?, n: nat)
    requires Closed(m, head) && DistinctUpTo(m, head, n)
    ensures n <= |m|
  {
    VisitedSize(m, head, n);
    SubsetSize(Visited(m, head, n), m.Keys);
  }

  lemma {:induction false} SubsetSize<T>(a: set<T>, b: set<T>)
    requires a <= b
    ensures |a| <= |b|
  {
    if x :| x in a {
      SubsetSize(a - {x}, b - {x});
    }
  }

  lemma ShapeExists(m: map<ListNode, ListNode?>, head: ListNode?) returns (tail: nat, cycle: nat)
    requires Closed(m, head)
    ensures IsShape(m, head, tail, cycle)
  {
    tail, cycle := ShapeFrom(m, head, 0);
  }

  lemma {:induction false} ShapeFrom(m: map<ListNode, ListNode?>, head: ListNode?, n: nat) returns (tail: nat, cycle: nat)
    requires Closed(m, head) && DistinctUpTo(m, head, n)
    ensures IsShape(m, head, tail, cycle)
    decreases |m| - n
  {
    var here := Walk(m, head, n);
    if here == null {
      tail, cycle := n, 0;
    } else if i: nat :| i < n && Walk(m, head, i) == here {
      tail, cycle := i, n - i;
    } else {
      DistinctIsBounded(m, head, n + 1);
      tail, cycle := ShapeFrom(m, head, n + 1);
    }
  }

  // ---------- when two positions hold the same node ----------

  /** The first position with the node of position `i`, once around the cycle being enough. */
  ghost function Folded(tail: nat, cycle: nat, i: nat): (f: nat)
    requires cycle > 0
    ensures f < tail + cycle
    ensures i < tail ==> f == i
    ensures i >= tail ==> f >= tail
  {
    if i < tail + cycle then i else Folded(tail, cycle, i - cycle)
  }

  lemma {:induction false} WalkFolded(m: map<ListNode, ListNode?>, head: ListNode?, tail: nat, cycle: nat, i: nat)
    requires Closed(m, head) && IsShape(m, head, tail, cycle) && cycle > 0
    ensures Walk(m, head, i) == Walk(m, head, Folded(tail, cycle, i))
  {
    if i >= tail + cycle {
      SameNodeSameRest(m, head, tail + cycle, tail, i - tail - cycle);
      WalkFolded(m, head, tail, cycle, i - cycle);
    }
  }

  lemma SameNodeSameFold(m: map<ListNode, ListNode?>, head: ListNode?, tail: nat, cycle: nat, i: nat, j: nat)
    requires Closed(m, head) && IsShape(m, head, tail, cycle) && cycle > 0
    ensures Walk(m, head, i) == Walk(m, head, j) <==> Folded(tail, cycle, i) == Folded(tail, cycle, j)
    ensures Walk(m, head, i) != null
  {
    WalkFolded(m, head, tail, cycle, i);
    WalkFolded(m, head, tail, cycle, j);
  }

  /** `d` is a number of whole turns. */
  ghost predicate WholeTurns(cycle: nat, d: nat)
    requires cycle > 0
  {
    d == 0 || (d >= cycle && WholeTurns(cycle, d - cycle))
  }

  lemma {:induction false} FoldTurns(tail: nat, cycle: nat, i: nat, d: nat)
    requires cycle > 0 && i >= tail && WholeTurns(cycle, d)
    ensures Folded(tail, cycle, i + d) == Folded(tail, cycle, i)
    decreases d
  {
    if d > 0 {
      FoldTurns(tail, cycle, i, d - cycle);
    }
  }

  /** Positions that fold together are whole turns apart. */
  lemma {:induction false} FoldApart(tail: nat, cycle: nat, i: nat, d: nat)
    requires cycle > 0 && i >= tail && Folded(tail, cycle, i + d) == Folded(tail, cycle, i)
    ensures WholeTurns(cycle, d)
    decreases i + d
  {
    if i >= tail + cycle {
      FoldApart(tail, cycle, i - cycle, d);
    } else if d >= cycle {
      FoldApart(tail, cycle, i, d - cycle);
    }
  }

  /** The first whole number of turns, at least one, that leads past the tail. */
  ghost function MeetingPoint(tail: nat, cycle: nat): (k: nat)
    requires cycle > 0
    ensures 0 < k <= tail + cycle && k >= tail && WholeTurns(cycle, k)
  {
    if tail <= cycle then cycle else cycle + MeetingPoint(tail - cycle, cycle)
  }

  /** Slow and fast pointer, k and 2k links from the head, are at one node exactly when the slow
      one is past the tail after whole turns. */
  lemma MeetExactly(m: map<ListNode, ListNode?>, head: ListNode?, tail: nat, cycle: nat, k: nat)
    requires Closed(m, head) && IsShape(m, head, tail, cycle) && cycle > 0 && k > 0
    ensures Walk(m, head, k) == Walk(m, head, 2 * k) <==> k >= tail && WholeTurns(cycle, k)
  {
    SameNodeSameFold(m, head, tail, cycle, k, 2 * k);
    if k >= tail {
      if WholeTurns(cycle, k) {
        FoldTurns(tail, cycle, k, k);
      } else if Folded(tail, cycle, k + k) == Folded(tail, cycle, k) {
        FoldApart(tail, cycle, k, k);
      }
    }
  }

  // ---------- cycles and entries, from the shape ----------

  lemma OnCycleExactly(m: map<ListNode, ListNode?>, head: ListNode?, tail: nat, cycle: nat, i: nat)
    requires Closed(m, head) && IsShape(m, head, tail, cycle)
    ensures OnCycle(m, Walk(m, head, i)) <==> cycle > 0 && i >= tail
  {
    var n := Walk(m, head, i);
    if cycle > 0 {
      SameNodeSameFold(m, head, tail, cycle, i, i);
      if i >= tail {
        FoldTurns(tail, cycle, i, cycle);
        SameNodeSameFold(m, head, tail, cycle, i, i + cycle);
        WalkOn(m, head, i, cycle);
      } else {
        forall l: nat | l > 0
          ensures Walk(m, n, l) != n
        {
          WalkOn(m, head, i, l);
          SameNodeSameFold(m, head, tail, cycle, i, i + l);
        }
      }
    } else if n != null {
      forall l: nat | l > 0
        ensures Walk(m, n, l) != n
      {
        WalkOn(m, head, i, l);
        NoRepeatWithoutCycle(m, head, tail, i, l);
      }
    }
  }

  lemma NoRepeatWithoutCycle(m: map<ListNode, ListNode?>, head: ListNode?, tail: nat, i: nat, l: nat)
    requires Closed(m, head) && IsShape(m, head, tail, 0) && l > 0 && Walk(m, head, i) != null
    ensures Walk(m, head, i) != Walk(m, head, i + l)
  {
    if i >= tail {
      EndStays(m, head, tail, i);
    }
    if i + l >= tail {
      EndStays(m, head, tail, i + l);
    }
  }

  lemma CycleFromShape(m: map<ListNode, ListNode?>, head: ListNode?, tail: nat, cycle: nat)
    requires Closed(m, head) && IsShape(m, head, tail, cycle)
    ensures HasCycle(m, head) <==> cycle > 0
    ensures cycle > 0 ==> Walk(m, head, tail) != null && IsEntry(m, head, Walk(m, head, tail))
  {
    forall i: nat
      ensures OnCycle(m, Walk(m, head, i)) <==> cycle > 0 && i >= tail
    {
      OnCycleExactly(m, head, tail, cycle, i);
    }
  }
}
