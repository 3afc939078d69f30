/** Counting out a circle: who goes and who stays, on the ids in ring order, and the recurrence
    for the position of the one who stays. */
module JosephusTheory {
  import opened Arithmetic

  /** The circle as seen from `m` places on. */
  function Rotated<T>(s: seq<T>, m: nat): (r: seq<T>)
    requires s != []
    ensures |r| == |s|
    decreases m
  {
    if m == 0 then s else Rotated(s[1..] + [s[0]], m - 1)
  }

  /** How many places the counting moves before somebody goes; below 1 it counts like 1. */
  function Skips(k: int): nat {
    if k < 1 then 0 else k - 1
  }

  /** The circle after one round, seen from the place behind the one who went. */
  function Round<T>(s: seq<T>, k: int): (r: seq<T>)
    requires |s| > 1
    ensures |r| == |s| - 1
  {
    Rotated(s, Skips(k))[1..]
  }

  /** Those who go, in order. */
  function Killed<T>(s: seq<T>, k: int): seq<T>
    requires s != []
    decreases |s|
  {
    if |s| == 1 then [] else [Rotated(s, Skips(k))[0]] + Killed(Round(s, k), k)
  }

  /** The one who stays. */
  function Survivor<T>(s: seq<T>, k: int): T
    requires s != []
    decreases |s|
  {
    if |s| == 1 then s[0] else Survivor(Round(s, k), k)
  }

  /** The recurrence: position of the survivor among `n`, from 0. */
  function J(n: nat, k: nat): (p: nat)
    requires n > 0
    ensures p < n
  {
    if n == 1 then 0 else (J(n - 1, k) + k) % n
  }

  lemma {:induction false} RotatedAt<T>(s: seq<T>, m: nat, x: nat)
    requires x < |s|
    ensures Rotated(s, m)[x] == s[(x + m) % |s|]
    decreases m
  {
    if m == 0 {
      ModUnique(x, |s|, 0, x);
    } else {
      RotatedAt(s[1..] + [s[0]], m - 1, x);
      ModStep(x + m - 1, |s|);
      var y := (x + m - 1) % |s|;
      if y + 1 < |s| {
        ModUnique(y + 1, |s|, 0, y + 1);
      } else {
        ModUnique(y + 1, |s|, 1, 0);
      }
    }
  }

  /** The survivor sits where the recurrence says. */
  lemma {:induction false} SurvivorPosition<T>(s: seq<T>, k: nat)
    requires s != [] && k >= 1
    ensures Survivor(s, k) == s[J(|s|, k)]
    decreases |s|
  {
    if |s| > 1 {
      SurvivorPosition(Round(s, k), k);
      RotatedAt(s, k - 1, J(|s| - 1, k) + 1);
    }
  }

  /** Where in the first circle the one sits who goes in round `i`, from 0; with the last of the `n` it
      is the one who stays. */
  function Place(n: nat, k: nat, i: nat): (p: nat)
    requires i < n && k >= 1
    ensures p < n
    ensures i == n - 1 ==> p == J(n, k)
  {
    if i == 0 then (k - 1) % n else (Place(n - 1, k, i - 1) + k) % n
  }

  /** The order of removal: in round `i` the one at that place goes. */
  lemma {:induction false} KilledPosition<T>(s: seq<T>, k: nat, i: nat)
    requires k >= 1 && i + 1 < |s|
    ensures |Killed(s, k)| == |s| - 1 && Killed(s, k)[i] == s[Place(|s|, k, i)]
    decreases |s|
  {
    KilledCount(s, k);
    if i == 0 {
      RotatedAt(s, k - 1, 0);
    } else {
      KilledPosition(Round(s, k), k, i - 1);
      RotatedAt(s, k - 1, Place(|s| - 1, k, i - 1) + 1);
    }
  }

  lemma {:induction false} KilledCount<T>(s: seq<T>, k: int)
    requires s != []
    ensures |Killed(s, k)| == |s| - 1
    decreases |s|
  {
    if |s| > 1 {
      KilledCount(Round(s, k), k);
    }
  }

  /** Five people and every second goes: 2, 4, 1, 5, and 3 stays. */
  lemma FiveByTwo()
    ensures Place(5, 2, 0) == 1 && Place(5, 2, 1) == 3 && Place(5, 2, 2) == 0 && Place(5, 2, 3) == 4 && J(5, 2) == 2
  {
    assert Place(4, 2, 0) == 1 && Place(4, 2, 1) == 3 && Place(4, 2, 2) == 2 && J(4, 2) == 0;
  }

  lemma {:induction false} RotatedBag<T>(s: seq<T>, m: nat)
    requires s != []
    ensures multiset(Rotated(s, m)) == multiset(s)
    decreases m
  {
    if m > 0 {
      assert s == [s[0]] + s[1..];
      RotatedBag(s[1..] + [s[0]], m - 1);
    }
  }

  /** Everybody either goes, once, or is the survivor. */
  lemma {:induction false} KilledAndSurvivor<T>(s: seq<T>, k: int)
    requires s != []
    ensures multiset(Killed(s, k)) + multiset{Survivor(s, k)} == multiset(s)
    decreases |s|
  {
    if |s| > 1 {
      var r := Rotated(s, Skips(k));
      RotatedBag(s, Skips(k));
      KilledAndSurvivor(Round(s, k), k);
      assert r == [r[0]] + r[1..];
    } else {
      assert s == [s[0]];
    }
  }
}
