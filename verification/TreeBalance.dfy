/** The balancing loop ends, keeps the in-order sequence and evens out every node. */
module TreeBalance {
  import opened StudentTree

  // ---------- the order of the nodes ----------

  lemma {:induction false} HangAtMinInOrder(t: Tree, s: Tree)
    ensures InOrder(HangAtMin(t, s)) == InOrder(s) + InOrder(t)
    ensures Size(HangAtMin(t, s)) == Size(s) + Size(t)
  {
    if t.Fork? {
      HangAtMinInOrder(t.l, s);
      assert InOrder(s) + InOrder(t.l) + [t.node] + InOrder(t.r) == InOrder(s) + (InOrder(t.l) + [t.node] + InOrder(t.r));
    }
  }

  lemma {:induction false} HangAtMaxInOrder(t: Tree, s: Tree)
    ensures InOrder(HangAtMax(t, s)) == InOrder(t) + InOrder(s)
    ensures Size(HangAtMax(t, s)) == Size(t) + Size(s)
  {
    if t.Fork? {
      HangAtMaxInOrder(t.r, s);
      assert InOrder(t.l) + [t.node] + (InOrder(t.r) + InOrder(s)) == InOrder(t.l) + [t.node] + InOrder(t.r) + InOrder(s);
    }
  }

  lemma TurnKeepsOrder(t: Tree)
    requires !Level(t)
    ensures InOrder(Turn(t)) == InOrder(t) && Size(Turn(t)) == Size(t)
  {
    if Lean(t) < -1 {
      HangAtMinInOrder(t.r, Fork(t.l, t.node, Nil));
    } else {
      HangAtMaxInOrder(t.l, Fork(Nil, t.node, t.r));
      assert [] + [t.node] + InOrder(t.r) == [t.node] + InOrder(t.r);
      assert InOrder(t.l) + ([t.node] + InOrder(t.r)) == InOrder(t);
    }
  }

  // ---------- the loop ends ----------

  /** The root of `lo` was found too far left, in a tree of `total` nodes, and everything else in
      `lo` comes before it. Nil when no root has been. */
  predicate TooFarLeft(lo: Tree, total: nat) {
    lo.Fork? ==> lo.r.Nil? && Size(lo.l) - (total - Size(lo)) < -1
  }

  /** The root of `hi` was found too far right, and everything else in `hi` comes after it. */
  predicate TooFarRight(hi: Tree, total: nat) {
    hi.Fork? ==> hi.l.Nil? && (total - Size(hi)) - Size(hi.r) > 1
  }

  /** The shape of the tree during the loop. The current root is the root of `inner`, the part
      strictly between the nearest root found too far left and the nearest found too far right;
      those two hang, with all that lies beyond them, at the ends of `inner`. */
  function Bracketed(lo: Tree, inner: Tree, hi: Tree): Tree
    requires inner.Fork?
  {
    Fork(HangAtMin(inner.l, lo), inner.node, HangAtMax(inner.r, hi))
  }

  /** A turn moves the root to the root of a strictly smaller inner part, even when it jumps over
      the median. */
  lemma TurnNarrows(lo: Tree, inner: Tree, hi: Tree) returns (lo': Tree, inner': Tree, hi': Tree)
    requires inner.Fork? && !Level(Bracketed(lo, inner, hi))
    requires var total := Size(lo) + Size(inner) + Size(hi); TooFarLeft(lo, total) && TooFarRight(hi, total)
    ensures inner'.Fork? && Size(inner') < Size(inner)
    ensures Turn(Bracketed(lo, inner, hi)) == Bracketed(lo', inner', hi')
    ensures Size(lo') + Size(inner') + Size(hi') == Size(lo) + Size(inner) + Size(hi)
    ensures var total := Size(lo) + Size(inner) + Size(hi); TooFarLeft(lo', total) && TooFarRight(hi', total)
  {
    HangAtMinInOrder(inner.l, lo);
    HangAtMaxInOrder(inner.r, hi);
    if Lean(Bracketed(lo, inner, hi)) < -1 {
      lo', inner', hi' := Fork(HangAtMin(inner.l, lo), inner.node, Nil), inner.r, hi;
    } else {
      lo', inner', hi' := lo, inner.l, Fork(Nil, inner.node, HangAtMax(inner.r, hi));
    }
  }

  lemma {:induction false} BracketSettles(lo: Tree, inner: Tree, hi: Tree, n: nat)
    requires inner.Fork? && Size(inner) <= n
    requires var total := Size(lo) + Size(inner) + Size(hi); TooFarLeft(lo, total) && TooFarRight(hi, total)
    ensures Level(Turned(Bracketed(lo, inner, hi), n))
    decreases n
  {
    if !Level(Bracketed(lo, inner, hi)) {
      var lo', inner', hi' := TurnNarrows(lo, inner, hi);
      BracketSettles(lo', inner', hi', n - 1);
    }
  }

  /** The loop of tree_balance ends on every tree, after at most as many turns as it has nodes. */
  lemma LoopEnds(t: Tree)
    ensures Level(Settled(t))
  {
    if t.Fork? {
      assert Bracketed(Nil, t, Nil) == t by {
        HangNothing(t.l);
        HangNothing(t.r);
      }
      BracketSettles(Nil, t, Nil, Size(t));
    }
  }

  lemma HangNothing(t: Tree)
    ensures HangAtMin(t, Nil) == t && HangAtMax(t, Nil) == t
  {
  }

  lemma {:induction false} TurnedKeepsOrder(t: Tree, n: nat)
    ensures InOrder(Turned(t, n)) == InOrder(t) && Size(Turned(t, n)) == Size(t)
    decreases n
  {
    if n > 0 && !Level(t) {
      TurnKeepsOrder(t);
      TurnedKeepsOrder(Turn(t), n - 1);
    }
  }

  // ---------- the whole function ----------

  function Balanced(t: Tree): Tree
    decreases Size(t)
  {
    if t.Nil? then Nil
    else
      var s := Settled(t);
      TurnedKeepsOrder(t, Size(t));
      if s.Nil? then Nil else Fork(Balanced(s.l), s.node, Balanced(s.r))
  }

  /** At every node the two subtrees differ by at most one node. */
  predicate LevelEverywhere(t: Tree) {
    t.Fork? ==> Level(t) && LevelEverywhere(t.l) && LevelEverywhere(t.r)
  }

  lemma {:induction false} BalanceKeepsOrder(t: Tree)
    ensures InOrder(Balanced(t)) == InOrder(t) && Size(Balanced(t)) == Size(t)
    decreases Size(t)
  {
    if t.Fork? {
      var s := Settled(t);
      TurnedKeepsOrder(t, Size(t));
      BalanceKeepsOrder(s.l);
      BalanceKeepsOrder(s.r);
    }
  }

  lemma {:induction false} BalanceLevels(t: Tree)
    ensures LevelEverywhere(Balanced(t))
    decreases Size(t)
  {
    if t.Fork? {
      var s := Settled(t);
      TurnedKeepsOrder(t, Size(t));
      LoopEnds(t);
      BalanceLevels(s.l);
      BalanceLevels(s.r);
      BalanceKeepsOrder(s.l);
      BalanceKeepsOrder(s.r);
    }
  }

  // ---------- the height ----------

  function Height(t: Tree): nat {
    match t
    case Nil => 0
    case Fork(l, _, r) => 1 + if Height(l) < Height(r) then Height(r) else Height(l)
  }

  function Pow2(n: nat): nat {
    if n == 0 then 1 else 2 * Pow2(n - 1)
  }

  /** A level tree is as low as its size allows. */
  lemma {:induction false} LevelTreesAreLow(t: Tree)
    requires t.Fork? && LevelEverywhere(t)
    ensures Pow2(Height(t) - 1) <= Size(t)
  {
    if t.l.Fork? {
      LevelTreesAreLow(t.l);
    }
    if t.r.Fork? {
      LevelTreesAreLow(t.r);
    }
  }

  lemma BalancedHeight(t: Tree)
    requires t.Fork?
    ensures Balanced(t).Fork? && Pow2(Height(Balanced(t)) - 1) <= Size(t)
  {
    hide Height, Pow2, LevelEverywhere, Balanced, InOrder;
    BalanceKeepsOrder(t);
    BalanceLevels(t);
    LevelTreesAreLow(Balanced(t));
  }

  /** A tree that is already level everywhere is left alone. */
  lemma {:induction false} BalanceIsIdempotent(t: Tree)
    requires LevelEverywhere(t)
    ensures Balanced(t) == t
    decreases Size(t)
  {
    if t.Fork? {
      BalanceIsIdempotent(t.l);
      BalanceIsIdempotent(t.r);
    }
  }
}
