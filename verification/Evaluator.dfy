/** The evaluators of postfix text: what they compute, and the loops that compute it. */
module Evaluator {
  import opened Options
  import opened Infix
  import opened BoundedStack
  import opened Translator

  /** The return code, and what was stored through the result pointer, if anything was. */
  datatype Outcome = Outcome(code: int, stored: Option<int>)

  /** What the main loop makes of the remaining `text` with `nums` on the operand stack.
      Code -7 is the exit on an unknown character, which only one of the two evaluators has. */
  function Rpn(text: string, nums: seq<int>, cap: nat): Outcome
    decreases |text|
  {
    if text == "" then
      if nums == [] then Outcome(-5, None)
      else Outcome(if |nums| == 1 then 0 else -6, Some(Last(nums)))
    else
      var c := text[0];
      if c == ' ' then Rpn(text[1..], nums, cap)
      else if IsDigit(c) then
        var n := DigitRun(text);
        Rpn(text[n..], Pushed(nums, Decimal(text[..n], 0), cap), cap)
      else if IsOperator(c) then
        if nums == [] then Outcome(-2, None)
        else if |nums| == 1 then Outcome(-3, None)
        else
          var rest := Init(Init(nums));
          match Apply(c, Last(Init(nums)), Last(nums))
          case None => Outcome(-4, None)
          case Some(v) => Rpn(text[1..], Pushed(rest, v, cap), cap)
      else Outcome(-7, None)
  }

  /** The error codes, on the shortest texts that give them. */
  lemma CodesByExample(cap: nat)
    requires cap >= 2
    ensures Rpn("+", [], cap) == Outcome(-2, None) && Rpn("+", [1], cap) == Outcome(-3, None)
    ensures Rpn("/", [1, 0], cap) == Outcome(-4, None) && Rpn("", [], cap) == Outcome(-5, None)
    ensures Rpn("", [1, 2], cap) == Outcome(-6, Some(2)) && Rpn("a", [], cap) == Outcome(-7, None)
    ensures Rpn("-", [5, 3], cap) == Outcome(0, Some(2)) && Rpn("/", [7, 2], cap) == Outcome(0, Some(3))
    ensures Rpn("/", [-7, 2], cap) == Outcome(0, Some(-3)) && Rpn("207", [], cap) == Outcome(0, Some(207))
  {
    var n := "207";
    assert DigitRun(n[2..]) == 1 && DigitRun(n[1..]) == 2 && DigitRun(n) == 3 && n[..3] == n && n[3..] == "";
    assert Decimal(n[3..], 207) == 207 && Decimal(n[2..], 20) == 207 && Decimal(n[1..], 2) == 207 && Decimal(n, 0) == 207;
    assert Init([1, 0]) == [1] && Init([5, 3]) == [5] && Init([7, 2]) == [7] && Init([-7, 2]) == [-7];
    assert Init([1]) == [] && Init([5]) == [] && Init([7]) == [] && Init([-7]) == [];
    assert "-"[1..] == "" && "/"[1..] == "";
    assert [] + [2] == [2] && [] + [207] == [207] && [] + [3] == [3] && [] + [-3] == [-3];
  }

  /** No push made while evaluating `text` finds the operand stack at `cap`. */
  predicate RpnFits(text: string, nums: seq<int>, cap: nat)
    decreases |text|
  {
    text == "" ||
    var c := text[0];
    if c == ' ' then RpnFits(text[1..], nums, cap)
    else if IsDigit(c) then
      var n := DigitRun(text);
      |nums| < cap && RpnFits(text[n..], nums + [Decimal(text[..n], 0)], cap)
    else if IsOperator(c) && |nums| >= 2 then
      match Apply(c, Last(Init(nums)), Last(nums))
      case None => true
      case Some(v) => |nums| - 2 < cap && RpnFits(text[1..], Init(Init(nums)) + [v], cap)
    else true
  }

  /** Code 0 comes with a result. */
  lemma {:induction false} ZeroIsStored(text: string, nums: seq<int>, cap: nat)
    ensures Rpn(text, nums, cap).code == 0 ==> Rpn(text, nums, cap).stored.Some?
    decreases |text|
  {
    if text != "" {
      var n := DigitRun(text);
      if IsDigit(text[0]) {
        ZeroIsStored(text[n..], Pushed(nums, Decimal(text[..n], 0), cap), cap);
      } else if text[0] == ' ' {
        ZeroIsStored(text[1..], nums, cap);
      } else if IsOperator(text[0]) && |nums| >= 2 {
        var v := Apply(text[0], Last(Init(nums)), Last(nums));
        if v.Some? {
          ZeroIsStored(text[1..], Pushed(Init(Init(nums)), v.value, cap), cap);
        }
      }
    }
  }

  lemma {:induction false} DecimalAppend(digits: string, c: char, acc: int)
    ensures Decimal(digits + [c], acc) == Decimal(digits, acc) * 10 + (c as int - '0' as int)
  {
    if digits == "" {
    } else {
      assert (digits + [c])[1..] == digits[1..] + [c];
      DecimalAppend(digits[1..], c, acc * 10 + (digits[0] as int - '0' as int));
    }
  }

  lemma NoDigits(acc: int)
    ensures Decimal("", acc) == acc
  {
  }

  /** The digits of one number, as an integer. */
  method ReadNumber(postfix: string, i0: nat) returns (i: nat, num: int)
    requires i0 < |postfix| && IsDigit(postfix[i0])
    ensures i == i0 + DigitRun(postfix[i0..]) && i0 < i <= |postfix|
    ensures num == Decimal(postfix[i0..i], 0)
  {
    hide DigitRun, Decimal;
    i, num := i0, 0;
    NoDigits(0);
    assert postfix[i0..i0] == "";
    while i < |postfix| && IsDigit(postfix[i])
      invariant i0 <= i <= |postfix|
      invariant i == i0 ==> IsDigit(postfix[i0])
      invariant i - i0 + DigitRun(postfix[i..]) == DigitRun(postfix[i0..])
      invariant num == Decimal(postfix[i0..i], 0)
    {
      assert postfix[i..][1..] == postfix[i + 1..];
      DigitRunStep(postfix[i..]);
      OneLonger(postfix, i0, i);
      DecimalAppend(postfix[i0..i], postfix[i], 0);
      num := num * 10 + (postfix[i] as int - '0' as int);
      i := i + 1;
    }
    DigitRunStep(postfix[i..]);
  }

  /** One operator: two operands off the stack, one result on it, or an error code. */
  method Operate(op: char, numStack: Stack<int>) returns (code: int)
    requires IsOperator(op) && numStack.Valid()
    modifies numStack`ind, numStack.arr
    ensures numStack.Valid()
    ensures var nums := old(numStack.Contents());
            if nums == [] then code == -2
            else if |nums| == 1 then code == -3
            else match Apply(op, Last(Init(nums)), Last(nums))
                 case None => code == -4
                 case Some(v) =>
                   code == 0 && numStack.Contents() == Pushed(Init(Init(nums)), v, numStack.arr.Length)
  {
    ghost var nums := numStack.Contents();
    var popped, num2 := numStack.Pop(0);
    if popped == -1 {
      return -2;
    }
    assert numStack.Contents() == Init(nums) && num2 == Last(nums);
    var num1: int;
    popped, num1 := numStack.Pop(0);
    if popped == -1 {
      return -3;
    }
    assert numStack.Contents() == Init(Init(nums)) && num1 == Last(Init(nums));
    match op {
      case '+' => var _ := numStack.Push(num1 + num2);
      case '-' => var _ := numStack.Push(num1 - num2);
      case '*' => var _ := numStack.Push(num1 * num2);
      case _ =>
        if num2 == 0 {
          return -4;
        }
        var _ := numStack.Push(TruncatedQuotient(num1, num2));
    }
    return 0;
  }

  /** After the loop: the result, and whether it was the only operand left. */
  method Finish(numStack: Stack<int>, result0: int) returns (ret: int, result: int)
    requires numStack.Valid()
    modifies numStack`ind
    ensures var outcome := Rpn("", old(numStack.Contents()), numStack.arr.Length);
            ret == outcome.code && result == outcome.stored.GetOr(result0)
  {
    ghost var nums := numStack.Contents();
    var popped, saved := numStack.Pop(result0);
    if popped == -1 {
      return -5, result0;
    }
    assert saved == Last(nums);
    if !numStack.IsEmpty() {
      return -6, saved;
    }
    return 0, saved;
  }

  /** The evaluator of stack/04repolish. `result0` is what the result pointer holds before. */
  method Repolish04(postfix: string, result0: int, cap: nat) returns (ret: int, result: int)
    requires '\0' !in postfix
    ensures ret == Rpn(postfix, [], cap).code
    ensures result == Rpn(postfix, [], cap).stored.GetOr(result0)
  {
    result := result0;
    var i: nat := 0;
    var numStack := new Stack<int>(cap);
    while i < |postfix|
      invariant i <= |postfix| && result == result0
      invariant numStack.Valid() && fresh(numStack) && fresh(numStack.arr) && numStack.arr.Length == cap
      invariant Rpn(postfix[i..], numStack.Contents(), cap) == Rpn(postfix, [], cap)
      decreases |postfix| - i
    {
      ghost var i0 := i;
      assert postfix[i..][1..] == postfix[i + 1..];
      if postfix[i] == ' ' {
        i := i + 1;
        continue;
      }
      if IsDigit(postfix[i]) {
        var num: int;
        i, num := ReadNumber(postfix, i);
        assert postfix[i0..][i - i0..] == postfix[i..] && postfix[i0..][..i - i0] == postfix[i0..i];
        var _ := numStack.Push(num);
      } else if IsOperator(postfix[i]) {
        var code := Operate(postfix[i], numStack);
        if code != 0 {
          return code, result;
        }
        i := i + 1;
      } else {
        return -7, result;
      }
    }
    ret, result := Finish(numStack, result);
  }

  // ---------- unknown characters ----------

  predicate Known(c: char) {
    c == ' ' || IsDigit(c) || IsOperator(c)
  }

  /** Where the first character stands that no evaluator knows; at the end when there is none. */
  function FirstUnknown(text: string): (k: nat)
    ensures k <= |text| && forall i | 0 <= i < k :: Known(text[i])
    ensures k < |text| ==> !Known(text[k])
  {
    if text == "" || !Known(text[0]) then 0 else 1 + FirstUnknown(text[1..])
  }

  lemma {:induction false} FirstUnknownFrom(text: string, n: nat)
    requires n <= FirstUnknown(text)
    ensures FirstUnknown(text[n..]) == FirstUnknown(text) - n
  {
    if n > 0 {
      FirstUnknownFrom(text[1..], n - 1);
      assert text[1..][n - 1..] == text[n..];
    }
  }

  lemma {:induction false} DigitsAreKnown(text: string)
    ensures DigitRun(text) <= FirstUnknown(text)
  {
    if text != "" && IsDigit(text[0]) {
      DigitsAreKnown(text[1..]);
    }
  }

  /** The unknown character is reached exactly when the text before it does not end the evaluation. */
  predicate Stalls(text: string, nums: seq<int>, cap: nat) {
    var k := FirstUnknown(text);
    k < |text| && Rpn(text[..k], nums, cap).code !in {-2, -3, -4}
  }

  /** The part of a text before position `k`, from position `n` on. */
  lemma SliceOfPrefix(text: string, n: nat, k: nat)
    requires n <= k <= |text|
    ensures text[n..][..k - n] == text[..k][n..] && text[..k][..n] == text[..n]
    ensures 0 < k ==> text[..k][0] == text[0]
  {
  }

  lemma {:induction false} UnknownExactly(text: string, nums: seq<int>, cap: nat)
    ensures Rpn(text, nums, cap).code == -7 <==> Stalls(text, nums, cap)
    decreases |text|
  {
    hide FirstUnknown, DigitRun, Decimal, Apply;
    var k := FirstUnknown(text);
    if k > 0 {
      if IsDigit(text[0]) {
        var n := DigitRun(text);
        DigitsAreKnown(text);
        DigitRunOfPrefix(text, k);
        SliceOfPrefix(text, n, k);
        FirstUnknownFrom(text, n);
        UnknownExactly(text[n..], Pushed(nums, Decimal(text[..n], 0), cap), cap);
      } else {
        SliceOfPrefix(text, 1, k);
        FirstUnknownFrom(text, 1);
        if text[0] == ' ' {
          UnknownExactly(text[1..], nums, cap);
        } else if |nums| >= 2 {
          var v := Apply(text[0], Last(Init(nums)), Last(nums));
          if v.Some? {
            UnknownExactly(text[1..], Pushed(Init(Init(nums)), v.value, cap), cap);
          }
        }
      }
    }
  }

  lemma PrefixSplits(text: string, n: nat, k: nat)
    requires n <= k <= |text|
    ensures text[..k] == text[..n] + text[n..k]
    ensures forall c <- text[..n] :: exists i :: 0 <= i < n && text[i] == c
    ensures n < k ==> text[n..k][0] == text[n]
  {
  }

  lemma DigitRunOfPrefix(text: string, k: nat)
    requires DigitRun(text) <= k <= |text|
    ensures DigitRun(text[..k]) == DigitRun(text)
  {
    hide DigitRun;
    PrefixSplits(text, DigitRun(text), k);
    DigitRunOfNumber(text[..DigitRun(text)], text[DigitRun(text)..k]);
  }

  // ---------- the turns of the loop in stack/05test ----------

  datatype Machine = Running(i: nat, nums: seq<int>) | Stopped(outcome: Outcome)

  /** One turn of the loop, or the end after it. There is no branch for an unknown character. */
  function Turn(text: string, m: Machine, cap: nat): (m': Machine)
    requires m.Running? ==> m.i <= |text|
    ensures m'.Running? ==> m'.i <= |text|
  {
    match m
    case Stopped(_) => m
    case Running(i, nums) =>
      if i == |text| then Stopped(Rpn("", nums, cap))
      else if text[i] == ' ' then Running(i + 1, nums)
      else if IsDigit(text[i]) then
        var n := DigitRun(text[i..]);
        Running(i + n, Pushed(nums, Decimal(text[i..i + n], 0), cap))
      else if IsOperator(text[i]) then
        if nums == [] then Stopped(Outcome(-2, None))
        else if |nums| == 1 then Stopped(Outcome(-3, None))
        else
          match Apply(text[i], Last(Init(nums)), Last(nums))
          case None => Stopped(Outcome(-4, None))
          case Some(v) => Running(i + 1, Pushed(Init(Init(nums)), v, cap))
      else m
  }

  /** The machine after `n` turns. */
  function Turns(text: string, cap: nat, n: nat): (m: Machine)
    ensures m.Running? ==> m.i <= |text|
  {
    if n == 0 then Running(0, []) else Turn(text, Turns(text, cap, n - 1), cap)
  }

  /** What the machine owes from here on. */
  function Owed(text: string, m: Machine, cap: nat): Outcome
    requires m.Running? ==> m.i <= |text|
  {
    match m
    case Running(i, nums) => Rpn(text[i..], nums, cap)
    case Stopped(outcome) => outcome
  }

  lemma TurnKeepsOwed(text: string, m: Machine, cap: nat)
    requires m.Running? ==> m.i <= |text|
    ensures Owed(text, Turn(text, m, cap), cap) == Owed(text, m, cap)
    ensures m.Running? && Turn(text, m, cap).Stopped? ==> Turn(text, m, cap).outcome.code != -7
  {
    if m.Running? && m.i < |text| {
      var rest := text[m.i..];
      var n := DigitRun(rest);
      assert rest[0] == text[m.i] && rest[1..] == text[m.i + 1..];
      assert rest[n..] == text[m.i + n..] && rest[..n] == text[m.i..m.i + n];
    }
  }

  lemma {:induction false} TurnsKeepOwed(text: string, cap: nat, n: nat)
    ensures Owed(text, Turns(text, cap, n), cap) == Rpn(text, [], cap)
    ensures Turns(text, cap, n).Stopped? ==> Rpn(text, [], cap).code != -7
  {
    hide Turn, Rpn;
    if n == 0 {
      assert text[0..] == text;
    } else {
      TurnsKeepOwed(text, cap, n - 1);
      TurnKeepsOwed(text, Turns(text, cap, n - 1), cap);
    }
  }

  /** At an unknown character nothing moves any more. */
  lemma TurnStandsStill(text: string, m: Machine, cap: nat)
    requires m.Running? && m.i < |text|
    ensures Turn(text, m, cap) == m <==> !Known(text[m.i])
  {
  }

  lemma {:induction false} TurnsEnd(text: string, cap: nat, n: nat) returns (n': nat)
    requires Rpn(text, [], cap).code != -7
    ensures Turns(text, cap, n').Stopped?
    decreases var m := Turns(text, cap, n); if m.Running? then |text| - m.i + 1 else 0
  {
    hide Turns;
    var m := Turns(text, cap, n);
    if m.Stopped? {
      n' := n;
    } else {
      TurnsKeepOwed(text, cap, n);
      NextTurn(text, cap, n);
      n' := TurnsEnd(text, cap, n + 1);
    }
  }

  lemma NextTurn(text: string, cap: nat, n: nat)
    ensures Turns(text, cap, n + 1) == Turn(text, Turns(text, cap, n), cap)
  {
  }

  /** The evaluator runs for ever exactly on the texts that stall it; on all others it stops with
      the outcome of the machine. */
  lemma RunsForEverExactly(text: string, cap: nat)
    ensures (forall n: nat :: Turns(text, cap, n).Running?) <==> Stalls(text, [], cap)
    ensures forall n: nat :: Turns(text, cap, n).Stopped? ==> Turns(text, cap, n).outcome == Rpn(text, [], cap)
  {
    UnknownExactly(text, [], cap);
    forall n: nat
      ensures Turns(text, cap, n).Stopped? ==> Turns(text, cap, n).outcome == Rpn(text, [], cap)
      ensures Turns(text, cap, n).Stopped? ==> !Stalls(text, [], cap)
    {
      TurnsKeepOwed(text, cap, n);
    }
    if !Stalls(text, [], cap) {
      var n := TurnsEnd(text, cap, 0);
      assert !Turns(text, cap, n).Running?;
    }
  }

  /** The shortest such text: after any number of turns the loop stands at its first character. */
  lemma {:induction false} StuckAtFirst(c: char, cap: nat, n: nat)
    requires !Known(c)
    ensures Turns([c], cap, n) == Running(0, [])
  {
    if n > 0 {
      StuckAtFirst(c, cap, n - 1);
    }
  }

  lemma TurnMoves(text: string, m: Machine, cap: nat)
    requires m.Running? && m.i < |text| && Owed(text, m, cap).code != -7
    ensures Turn(text, m, cap).Running? ==> Turn(text, m, cap).i > m.i
  {
    assert text[m.i..][0] == text[m.i];
    if IsDigit(text[m.i]) {
      assert DigitRun(text[m.i..]) > 0;
    }
  }

  /** One turn of that loop. */
  method EvaluateNext(postfix: string, i0: nat, numStack: Stack<int>) returns (code: int, i: nat)
    requires i0 < |postfix| && numStack.Valid()
    modifies numStack`ind, numStack.arr
    ensures numStack.Valid()
    ensures match Turn(postfix, Running(i0, old(numStack.Contents())), numStack.arr.Length)
            case Stopped(outcome) => code != 0 && outcome == Outcome(code, None)
            case Running(i', nums) => code == 0 && i == i' && numStack.Contents() == nums
  {
    code, i := 0, i0;
    if postfix[i] == ' ' {
      i := i + 1;
      return;
    }
    if IsDigit(postfix[i]) {
      var num: int;
      i, num := ReadNumber(postfix, i);
      var _ := numStack.Push(num);
    } else if IsOperator(postfix[i]) {
      code := Operate(postfix[i], numStack);
      if code != 0 {
        return;
      }
      i := i + 1;
    }
  }

  /** The evaluator of stack/05test, on the texts that do not stall it. `turns` counts its turns. */
  method Repolish05(postfix: string, result0: int, cap: nat) returns (ret: int, result: int, ghost turns: nat)
    requires '\0' !in postfix
    requires !Stalls(postfix, [], cap)
    ensures ret == Rpn(postfix, [], cap).code
    ensures result == Rpn(postfix, [], cap).stored.GetOr(result0)
    ensures Turns(postfix, cap, turns) == Stopped(Rpn(postfix, [], cap))
  {
    UnknownExactly(postfix, [], cap);
    hide Stalls, Turn, Rpn;
    result, turns := result0, 0;
    var i: nat := 0;
    var numStack := new Stack<int>(cap);
    while i < |postfix|
      invariant i <= |postfix| && result == result0
      invariant numStack.Valid() && fresh(numStack) && fresh(numStack.arr) && numStack.arr.Length == cap
      invariant Turns(postfix, cap, turns) == Running(i, numStack.Contents())
      decreases |postfix| - i
    {
      TurnsKeepOwed(postfix, cap, turns);
      TurnMoves(postfix, Turns(postfix, cap, turns), cap);
      NextTurn(postfix, cap, turns);
      var code: int;
      code, i := EvaluateNext(postfix, i, numStack);
      turns := turns + 1;
      TurnsKeepOwed(postfix, cap, turns);
      if code != 0 {
        return code, result, turns;
      }
    }
    NextTurn(postfix, cap, turns);
    LastTurn(postfix, numStack.Contents(), cap);
    turns := turns + 1;
    TurnsKeepOwed(postfix, cap, turns);
    ret, result := Finish(numStack, result);
  }

  lemma LastTurn(text: string, nums: seq<int>, cap: nat)
    ensures Turn(text, Running(|text|, nums), cap) == Stopped(Rpn("", nums, cap))
  {
  }
}
