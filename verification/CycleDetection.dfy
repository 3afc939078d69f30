/** Slow and fast pointers on a list: is there a cycle, and where is it entered. */
module CycleDetection {
  import opened CycleTheory

  /** After `k` moves the pointers have not met, so the first meeting is still to come. */
  ghost predicate NotMetYet(m: map<ListNode, ListNode?>, head: ListNode?, tail: nat, cycle: nat, k: nat)
    requires Closed(m, head)
  {
    IsShape(m, head, tail, cycle) && if cycle == 0 then k <= tail else k < MeetingPoint(tail, cycle)
  }

  /** One more move: either the pointers meet, on a cycle, or they have still not met. */
  lemma Advance(m: map<ListNode, ListNode?>, head: ListNode?, tail: nat, cycle: nat, k: nat)
    requires Closed(m, head) && NotMetYet(m, head, tail, cycle, k)
    requires Walk(m, head, 2 * k) != null && Walk(m, head, 2 * k + 1) != null
    ensures Walk(m, head, k) != null && Walk(m, head, k + 1) != null
    ensures k < tail + cycle
    ensures if Walk(m, head, k + 1) == Walk(m, head, 2 * k + 2) then cycle > 0 && k + 1 >= tail && WholeTurns(cycle, k + 1)
            else NotMetYet(m, head, tail, cycle, k + 1)
  {
    if Walk(m, head, k + 1) == null {
      EndStays(m, head, k + 1, 2 * k + 1);
    }
    if cycle > 0 {
      MeetExactly(m, head, tail, cycle, k + 1);
    } else {
      if 2 * k + 1 >= tail {
        EndStays(m, head, tail, 2 * k + 1);
      }
      NoRepeatWithoutCycle(m, head, tail, k + 1, k + 1);
    }
  }

  /** The fast pointer only falls off a list that ends. */
  lemma FallsOffTheEnd(m: map<ListNode, ListNode?>, head: ListNode?, tail: nat, cycle: nat, k: nat)
    requires Closed(m, head) && IsShape(m, head, tail, cycle) && Walk(m, head, k) == null
    ensures cycle == 0
  {
    if cycle > 0 {
      SameNodeSameFold(m, head, tail, cycle, k, k);
    }
  }

  /** 1 when the list runs into a cycle and 0 when it ends. `moves` counts the moves of the slow
      pointer. */
  method DetectCycle(handler: ListNode?, ghost nodes: set<ListNode>) returns (ret: int, ghost moves: nat)
    requires Closed(Links(nodes), handler)
    ensures ret == if HasCycle(Links(nodes), handler) then 1 else 0
    ensures forall tail: nat, cycle: nat | IsShape(Links(nodes), handler, tail, cycle) :: moves <= tail + cycle
  {
    ghost var m := Links(nodes);
    ghost var tail, cycle := ShapeExists(m, handler);
    CycleFromShape(m, handler, tail, cycle);
    ShapeIsUnique(m, handler, tail, cycle);
    var f, s := handler, handler;
    moves := 0;
    while f != null && f.next != null
      invariant s == Walk(m, handler, moves) && f == Walk(m, handler, 2 * moves)
      invariant NotMetYet(m, handler, tail, cycle, moves)
      decreases tail + cycle - moves
    {
      assert f.next == Walk(m, handler, 2 * moves + 1);
      Advance(m, handler, tail, cycle, moves);
      f := f.next.next;
      s := s.next;
      moves := moves + 1;
      if f == s {
        return 1, moves;
      }
    }
    FallsOffTheEnd(m, handler, tail, cycle, if f == null then 2 * moves else 2 * moves + 1);
    return 0, moves;
  }

  /** A list has only one shape. */
  lemma ShapeIsUnique(m: map<ListNode, ListNode?>, head: ListNode?, tail: nat, cycle: nat)
    requires Closed(m, head) && IsShape(m, head, tail, cycle)
    ensures forall tail': nat, cycle': nat | IsShape(m, head, tail', cycle') :: tail' == tail && cycle' == cycle
  {
    forall tail': nat, cycle': nat | IsShape(m, head, tail', cycle')
      ensures tail' == tail && cycle' == cycle
    {
      SameShape(m, head, tail, cycle, tail', cycle');
    }
  }

  lemma SameShape(m: map<ListNode, ListNode?>, head: ListNode?, t1: nat, c1: nat, t2: nat, c2: nat)
    requires Closed(m, head) && IsShape(m, head, t1, c1) && IsShape(m, head, t2, c2)
    ensures t1 == t2 && c1 == c2
  {
    NotLonger(m, head, t1, c1, t2, c2);
    NotLonger(m, head, t2, c2, t1, c1);
    if c1 > 0 && c2 > 0 {
      SameNodeSameFold(m, head, t1, c1, t1, t2);
    }
  }

  lemma NotLonger(m: map<ListNode, ListNode?>, head: ListNode?, t1: nat, c1: nat, t2: nat, c2: nat)
    requires Closed(m, head) && IsShape(m, head, t1, c1) && IsShape(m, head, t2, c2)
    ensures t1 + c1 <= t2 + c2
    ensures c1 > 0 ==> c2 > 0
  {
    if c2 > 0 {
      assert Walk(m, head, t2) == Walk(m, head, t2 + c2);
    }
    if c1 > 0 {
      SameNodeSameFold(m, head, t1, c1, t2 + c2, t2 + c2);
    }
  }

  /** The node where the cycle is entered, and null when the list ends. `moves` counts the moves of
      the slow pointer until it meets the fast one, `further` those from there to the entry. */
  method FindEntry(handler: ListNode?, ghost nodes: set<ListNode>)
    returns (entry: ListNode?, ghost moves: nat, ghost further: nat)
    requires Closed(Links(nodes), handler)
    ensures entry == null <==> !HasCycle(Links(nodes), handler)
    ensures entry != null ==> IsEntry(Links(nodes), handler, entry)
    ensures forall tail: nat, cycle: nat | IsShape(Links(nodes), handler, tail, cycle) ::
              moves <= tail + cycle && further <= tail
  {
    ghost var m := Links(nodes);
    ghost var tail, cycle := ShapeExists(m, handler);
    CycleFromShape(m, handler, tail, cycle);
    ShapeIsUnique(m, handler, tail, cycle);
    var f, s := handler, handler;
    var h := handler;
    moves, further := 0, 0;
    while f != null && f.next != null
      invariant s == Walk(m, handler, moves) && f == Walk(m, handler, 2 * moves)
      invariant NotMetYet(m, handler, tail, cycle, moves)
      decreases tail + cycle - moves
    {
      assert f.next == Walk(m, handler, 2 * moves + 1);
      Advance(m, handler, tail, cycle, moves);
      f := f.next.next;
      s := s.next;
      moves := moves + 1;
      if s == f {
        while s != h
          invariant cycle > 0 && moves >= tail && WholeTurns(cycle, moves)
          invariant further <= tail
          invariant s == Walk(m, handler, moves + further) && h == Walk(m, handler, further)
          decreases tail - further
        {
          MeetAgain(m, handler, tail, cycle, moves, further);
          s := s.next;
          h := h.next;
          further := further + 1;
        }
        MeetAgain(m, handler, tail, cycle, moves, further);
        return s, moves, further;
      }
    }
    FallsOffTheEnd(m, handler, tail, cycle, if f == null then 2 * moves else 2 * moves + 1);
    return null, moves, further;
  }

  /** From a meeting `k` links in, a pointer from there and one from the head are first together at
      the entry. */
  lemma MeetAgain(m: map<ListNode, ListNode?>, head: ListNode?, tail: nat, cycle: nat, k: nat, t: nat)
    requires Closed(m, head) && IsShape(m, head, tail, cycle) && cycle > 0
    requires k > 0 && k >= tail && WholeTurns(cycle, k) && t <= tail
    ensures Walk(m, head, k + t) == Walk(m, head, t) <==> t == tail
    ensures Walk(m, head, k + t) != null && Walk(m, head, t) != null
  {
    SameNodeSameFold(m, head, tail, cycle, k + t, t);
    if t == tail {
      FoldTurns(tail, cycle, t, k);
    }
  }
}
