/** The bounded array stack both calculators use: a push on a full stack and a pop
    on an empty one return -1 and change nothing. */
module BoundedStack {

  /** The two builds of the stack differ only in their capacity. */
  const STACKSIZE_05TEST: nat := 32
  const STACKSIZE_04REPOLISH: nat := 6

  /** What a push leaves when its return code is ignored. */
  function Pushed<T>(s: seq<T>, x: T, cap: nat): seq<T> {
    if |s| < cap then s + [x] else s
  }

  class Stack<T(0)> {
    const arr: array<T>
    var ind: nat

    ghost predicate Valid()
      reads this
    {
      ind <= arr.Length
    }

    ghost function Contents(): seq<T>
      requires Valid()
      reads this, arr
    {
      arr[..ind]
    }

    constructor (capacity: nat)
      ensures Valid() && fresh(arr) && arr.Length == capacity
      ensures Contents() == []
    {
      arr := new T[capacity];
      ind := 0;
    }

    predicate IsFull()
      reads this
    {
      ind == arr.Length
    }

    predicate IsEmpty()
      reads this
    {
      ind == 0
    }

    method Push(data: T) returns (code: int)
      requires Valid()
      modifies this`ind, arr
      ensures Valid()
      ensures code == (if |old(Contents())| < arr.Length then 0 else -1)
      ensures Contents() == Pushed(old(Contents()), data, arr.Length)
    {
      if IsFull() {
        return -1;
      }
      arr[ind] := data;
      ind := ind + 1;
      return 0;
    }

    /** `save` is the caller's variable before the call, `saved` after it. */
    method Pop(save: T) returns (code: int, saved: T)
      requires Valid()
      modifies this`ind
      ensures Valid()
      ensures if old(Contents()) == [] then code == -1 && saved == save && Contents() == []
              else code == 0 && old(Contents()) == Contents() + [saved]
    {
      if IsEmpty() {
        return -1, save;
      }
      ind := ind - 1;
      return 0, arr[ind];
    }
  }
}
