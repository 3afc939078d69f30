/** The circle as a ring of linked nodes, from which each round unlinks one. */
module JosephusRing {
  import opened JosephusTheory

  class RingNode {
    const id: int
    var next: RingNode

    constructor (id: int)
      ensures this.id == id && next == this
    {
      this.id := id;
      next := this;
    }
  }

  ghost predicate Distinct(s: seq<RingNode>) {
    forall i, j | 0 <= i < j < |s| :: s[i] != s[j]
  }

  /** The nodes of `s` form a single cycle in that order. */
  ghost predicate Ring(s: seq<RingNode>)
    reads s
    ensures Ring(s) ==> s != []
  {
    && s != [] && Distinct(s)
    && (forall i | 0 <= i < |s| - 1 :: s[i].next == s[i + 1])
    && s[|s| - 1].next == s[0]
  }

  function Ids(s: seq<RingNode>): (ids: seq<int>)
    ensures |ids| == |s| && forall i | 0 <= i < |s| :: ids[i] == s[i].id
  {
    seq(|s|, i requires 0 <= i < |s| => s[i].id)
  }

  /** 1 .. n */
  function Numbers(n: nat): (s: seq<int>)
    ensures |s| == n && forall i | 0 <= i < n :: s[i] == i + 1
  {
    seq(n, i => i + 1)
  }

  /** Below 1 there is still the first node. */
  function People(n: int): nat {
    if n < 1 then 1 else n
  }

  /** A new node behind the last one. */
  method Append(p: RingNode, id: int, ghost ring: seq<RingNode>) returns (newnode: RingNode)
    requires Ring(ring) && ring[|ring| - 1] == p
    modifies p
    ensures fresh(newnode) && newnode.id == id && Ring(ring + [newnode])
  {
    newnode := new RingNode(id);
    newnode.next := p.next;
    p.next := newnode;
  }

  method JosephInsert(n: int) returns (j: RingNode, ghost ring: seq<RingNode>)
    ensures Ring(ring) && ring[0] == j && forall i | 0 <= i < |ring| :: fresh(ring[i])
    ensures Ids(ring) == Numbers(People(n))
  {
    j := new RingNode(1);
    ring := [j];
    assert Ring(ring);
    hide Ring;
    var p := j;
    for i := 2 to People(n) + 1
      invariant |ring| == i - 1
      invariant Ring(ring) && ring[0] == j && ring[|ring| - 1] == p && forall x | 0 <= x < |ring| :: fresh(ring[x])
      invariant Ids(ring) == Numbers(i - 1)
    {
      p := Append(p, i, ring);
      ring := ring + [p];
    }
  }

  /** The node before `j`. */
  method LastOf(j: RingNode, ghost ring: seq<RingNode>) returns (back: RingNode)
    requires Ring(ring) && ring[0] == j
    ensures back == ring[|ring| - 1]
  {
    back := j;
    ghost var i := 0;
    assert forall x | 0 < x < |ring| :: ring[x] != ring[0];
    while back.next != j
      invariant 0 <= i < |ring| && back == ring[i]
      invariant i < |ring| - 1 ==> back.next == ring[i + 1]
      decreases |ring| - i
    {
      i := i + 1;
      back := back.next;
    }
  }

  lemma RotateRing(ring: seq<RingNode>)
    requires Ring(ring)
    ensures Ring(ring[1..] + [ring[0]])
    ensures Ids(ring[1..] + [ring[0]]) == Ids(ring)[1..] + [Ids(ring)[0]]
  {
  }

  /** Count on from `back`. */
  method SkipOn(back0: RingNode, k: int, ghost ring: seq<RingNode>) returns (back: RingNode, ghost r: seq<RingNode>)
    requires Ring(ring) && ring[|ring| - 1] == back0
    ensures Ring(r) && |r| == |ring| && r[|r| - 1] == back && forall i | 0 <= i < |r| :: r[i] in ring
    ensures Ids(r) == Rotated(Ids(ring), Skips(k))
  {
    hide Rotated;
    back, r := back0, ring;
    for i := 0 to Skips(k)
      invariant Ring(r) && |r| == |ring| && r[|r| - 1] == back && forall i | 0 <= i < |r| :: r[i] in ring
      invariant Rotated(Ids(r), Skips(k) - i) == Rotated(Ids(ring), Skips(k))
    {
      RotateRing(r);
      RotatedStep(Ids(r), Skips(k) - i);
      r := r[1..] + [r[0]];
      back := back.next;
    }
    RotatedStep(Ids(r), 0);
  }

  lemma RotatedStep(s: seq<int>, m: nat)
    requires s != []
    ensures Rotated(s, m) == if m == 0 then s else Rotated(s[1..] + [s[0]], m - 1)
  {
  }

  /** Take out the node behind `back`. */
  method Unlink(back: RingNode, ghost r: seq<RingNode>) returns (killed: int)
    requires Ring(r) && |r| > 1 && r[|r| - 1] == back
    modifies back
    ensures killed == r[0].id
    ensures Ring(r[1..])
  {
    var cur := back.next;
    back.next := cur.next;
    killed := cur.id;
  }

  /** One round: count on from `back`, unlink the node reached. */
  method KillNext(back0: RingNode, k: int, ghost ring: seq<RingNode>)
    returns (back: RingNode, killed: int, ghost ring': seq<RingNode>)
    requires Ring(ring) && |ring| > 1 && ring[|ring| - 1] == back0
    modifies ring
    ensures Ring(ring') && ring'[|ring'| - 1] == back && forall i | 0 <= i < |ring'| :: ring'[i] in ring
    ensures killed == Rotated(Ids(ring), Skips(k))[0]
    ensures Ids(ring') == Round(Ids(ring), k)
  {
    hide Rotated, Ring;
    ghost var r;
    back, r := SkipOn(back0, k, ring);
    killed := Unlink(back, r);
    ring' := r[1..];
    assert Ids(ring') == Ids(r)[1..];
  }

  method JosephPlay(j: RingNode, n: int, k: int, ghost ring: seq<RingNode>) returns (alive: int, killed: seq<int>)
    requires Ring(ring) && ring[0] == j && |ring| == n
    modifies ring
    ensures alive == Survivor(Ids(ring), k)
    ensures killed == Killed(Ids(ring), k)
  {
    hide Ring, Killed, Survivor, Round, Rotated;
    var back := LastOf(j, ring);
    killed := [];
    ghost var r := ring;
    var left := n - 1;
    while left != 0
      invariant left == |r| - 1 >= 0
      invariant Ring(r) && r[|r| - 1] == back && forall i | 0 <= i < |r| :: r[i] in ring
      invariant killed + Killed(Ids(r), k) == Killed(Ids(ring), k)
      invariant Survivor(Ids(r), k) == Survivor(Ids(ring), k)
      decreases left
    {
      var id: int;
      PlayStep(Ids(r), killed, k);
      back, id, r := KillNext(back, k, r);
      killed := killed + [id];
      left := left - 1;
    }
    PlayEnd(Ids(r), killed, k);
    alive := back.id;
  }

  lemma PlayStep(s: seq<int>, killed: seq<int>, k: int)
    requires |s| > 1
    ensures killed + Killed(s, k) == killed + [Rotated(s, Skips(k))[0]] + Killed(Round(s, k), k)
    ensures Survivor(s, k) == Survivor(Round(s, k), k)
  {
    hide Rotated;
  }

  lemma PlayEnd(s: seq<int>, killed: seq<int>, k: int)
    requires |s| == 1
    ensures killed + Killed(s, k) == killed && Survivor(s, k) == s[0]
  {
  }

  /** The program: n people numbered from 1, every k-th goes. */
  method Josephus(n: int, k: int) returns (alive: int, killed: seq<int>)
    requires n >= 1
    ensures k >= 1 ==> alive == 1 + J(n, k)
    ensures k < 1 ==> alive == 1 + J(n, 1)
    ensures multiset(killed) + multiset{alive} == multiset(Numbers(n))
    ensures |killed| == n - 1
    ensures forall i | 0 <= i < n - 1 :: killed[i] == 1 + Place(n, if k >= 1 then k else 1, i)
  {
    var j, ring := JosephInsert(n);
    alive, killed := JosephPlay(j, n, k, ring);
    InOrder(n, k);
  }

  /** What the theory says of the circle 1 .. n. */
  lemma InOrder(n: nat, k: int)
    requires n >= 1
    ensures var step, s := if k >= 1 then k else 1, Numbers(n);
            && Survivor(s, k) == 1 + J(n, step) && |Killed(s, k)| == n - 1
            && forall i | 0 <= i < n - 1 :: Killed(s, k)[i] == 1 + Place(n, step, i)
    ensures multiset(Killed(Numbers(n), k)) + multiset{Survivor(Numbers(n), k)} == multiset(Numbers(n))
  {
    var step, s := if k >= 1 then k else 1, Numbers(n);
    hide Killed, Survivor, Place, J;
    KilledAndSurvivor(s, k);
    if k < 1 {
      CountsLikeOne(s, k);
    }
    SurvivorPosition(s, step);
    KilledCount(s, k);
    forall i | 0 <= i < n - 1
      ensures Killed(s, k)[i] == 1 + Place(n, step, i)
    {
      KilledPosition(s, step, i);
    }
  }

  lemma {:induction false} CountsLikeOne(s: seq<int>, k: int)
    requires s != [] && k < 1
    ensures Survivor(s, k) == Survivor(s, 1) && Killed(s, k) == Killed(s, 1)
    decreases |s|
  {
    if |s| > 1 {
      CountsLikeOne(Round(s, k), k);
    }
  }
}
