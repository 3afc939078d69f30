/** The translator and the evaluator together compute the value of every well-formed
    expression, as long as the two stacks are deep enough for its nesting. */
module CompilerCorrectness {
  import opened Options
  import opened Infix
  import opened Translator
  import opened Evaluator
  import opened BoundedStack

  /** The postfix text of `e`, one separator after every number and operator. */
  function Postfix(e: Expr): string {
    match e
    case Number(_, digits, _) => digits + " "
    case Paren(_, inner, _) => Postfix(inner)
    case Binary(op, left, right) => Postfix(left) + Postfix(right) + [op, ' ']
  }

  /** The operators of `e` that still wait on the stack when its text has been read. */
  function Pending(e: Expr): seq<char> {
    if e.Binary? then [e.op] + Pending(e.right) else []
  }

  /** The part of Postfix(e) that has been written by then. */
  function Emitted(e: Expr): string {
    if e.Binary? then Postfix(e.left) + Emitted(e.right) else Postfix(e)
  }

  /** Room `e` needs on the operator stack. */
  function OpPeak(e: Expr): nat {
    match e
    case Number(_, _, _) => 0
    case Paren(_, inner, _) => 1 + OpPeak(inner)
    case Binary(_, left, right) => Max(OpPeak(left), 1 + OpPeak(right))
  }

  /** Room `e` needs on the operand stack. */
  function NumPeak(e: Expr): (n: nat)
    ensures n > 0
  {
    match e
    case Number(_, _, _) => 1
    case Paren(_, inner, _) => NumPeak(inner)
    case Binary(_, left, right) => Max(NumPeak(left), 1 + NumPeak(right))
  }

  /** Every operator of `e` outside its parentheses is stopped by the top of `ops`. */
  predicate Guarded(ops: seq<char>, e: Expr) {
    ops == [] || Priority(Last(ops)) < Level(e)
  }

  predicate NoLeadingDigit(text: string) {
    text == "" || !IsDigit(text[0])
  }

  function Written(ops: seq<char>): string {
    PopAll(ops, "")
  }

  lemma Regroup<T>(a: seq<T>, b: seq<T>, c: seq<T>)
    ensures a + b + c == a + (b + c)
  {
  }

  lemma Regroup4<T>(a: seq<T>, b: seq<T>, c: seq<T>, d: seq<T>)
    ensures a + b + c + d == a + (b + (c + d))
  {
  }

  // ---------- popping ----------

  lemma {:induction false} PopAllAppends(ops: seq<char>, out: string)
    ensures PopAll(ops, out) == out + Written(ops)
    decreases |ops|, 1
  {
    if ops != [] {
      PopAllAppends(Init(ops), out + [Last(ops), ' ']);
      WrittenStep(ops);
      assert out + [Last(ops), ' '] + Written(Init(ops)) == out + ([Last(ops), ' '] + Written(Init(ops)));
    }
  }

  lemma {:induction false} WrittenStep(ops: seq<char>)
    requires ops != []
    ensures Written(ops) == [Last(ops), ' '] + Written(Init(ops))
    decreases |ops|, 0
  {
    assert "" + [Last(ops), ' '] == [Last(ops), ' '];
    PopAllAppends(Init(ops), [Last(ops), ' ']);
  }

  lemma {:induction false} PopPending(below: seq<char>, ops: seq<char>, out: string, cur: char)
    requires below == [] || Priority(Last(below)) < Priority(cur)
    requires forall c <- ops :: Priority(c) >= Priority(cur)
    ensures PopTighter(below + ops, out, cur) == (below, out + Written(ops))
    decreases |ops|
  {
    if ops == [] {
      assert below + ops == below && out + "" == out;
    } else {
      assert Init(below + ops) == below + Init(ops) && Last(below + ops) == Last(ops);
      assert Last(ops) in ops;
      PopPending(below, Init(ops), out + [Last(ops), ' '], cur);
      WrittenStep(ops);
      assert out + [Last(ops), ' '] + Written(Init(ops)) == out + ([Last(ops), ' '] + Written(Init(ops)));
    }
  }

  lemma {:induction false} PopPendingToParen(below: seq<char>, ops: seq<char>, out: string)
    requires '(' !in ops
    ensures PopToParen(below + ['('] + ops, out) == (below, out + Written(ops))
    decreases |ops|
  {
    if ops == [] {
      assert below + ['('] + ops == below + ['('];
      assert Init(below + ['(']) == below && out + "" == out;
    } else {
      assert Init(below + ['('] + ops) == below + ['('] + Init(ops);
      assert Last(below + ['('] + ops) == Last(ops);
      PopPendingToParen(below, Init(ops), out + [Last(ops), ' ']);
      WrittenStep(ops);
      assert out + [Last(ops), ' '] + Written(Init(ops)) == out + ([Last(ops), ' '] + Written(Init(ops)));
    }
  }

  // ---------- what waits on the stack ----------

  lemma {:induction false} PendingBindsTight(e: Expr)
    requires WellFormed(e)
    ensures forall c <- Pending(e) :: Priority(c) >= Level(e)
    ensures '(' !in Pending(e)
  {
    if e.Binary? {
      PendingBindsTight(e.right);
    }
  }

  lemma {:induction false} EmittedThenPending(e: Expr)
    ensures Emitted(e) + Written(Pending(e)) == Postfix(e)
  {
    if e.Binary? {
      EmittedThenPending(e.right);
      WrittenCons(e.op, Pending(e.right));
    }
  }

  lemma {:induction false} WrittenCons(op: char, ops: seq<char>)
    ensures Written([op] + ops) == Written(ops) + [op, ' ']
    decreases |ops|
  {
    if ops == [] {
      assert [op] + ops == [op] && Init([op]) == [];
      WrittenStep([op]);
    } else {
      assert Init([op] + ops) == [op] + Init(ops) && Last([op] + ops) == Last(ops);
      WrittenCons(op, Init(ops));
      WrittenStep([op] + ops);
      WrittenStep(ops);
    }
  }

  // ---------- the translator reads one expression ----------

  lemma {:induction false} SkipSpaces(n: nat, rest: string, ops: seq<char>, out: string, cap: nat)
    ensures Translation(Spaces(n) + rest, ops, out, cap) == Translation(rest, ops, out, cap)
    ensures Fits(Spaces(n) + rest, ops, cap) == Fits(rest, ops, cap)
  {
    if n == 0 {
      assert Spaces(n) + rest == rest;
    } else {
      assert (Spaces(n) + rest)[1..] == Spaces(n - 1) + rest;
      SkipSpaces(n - 1, rest, ops, out, cap);
    }
  }

  lemma NumberStep(digits: string, rest: string, ops: seq<char>, out: string, cap: nat)
    requires digits != "" && forall c <- digits :: IsDigit(c)
    requires NoLeadingDigit(rest)
    ensures Translation(digits + rest, ops, out, cap) == Translation(rest, ops, out + digits + " ", cap)
    ensures Fits(digits + rest, ops, cap) == Fits(rest, ops, cap)
  {
    DigitRunOfNumber(digits, rest);
    assert digits[0] in digits;
    assert (digits + rest)[|digits|..] == rest && (digits + rest)[..|digits|] == digits;
  }

  lemma SpacesDoNotLead(n: nat, rest: string)
    requires NoLeadingDigit(rest)
    ensures NoLeadingDigit(Spaces(n) + rest)
  {
  }

  lemma OpenStep(tail: string, ops: seq<char>, out: string, cap: nat)
    ensures Fits("(" + tail, ops, cap) <==> |ops| < cap && Fits(tail, ops + ['('], cap)
    ensures |ops| < cap ==> Translation("(" + tail, ops, out, cap) == Translation(tail, ops + ['('], out, cap)
  {
    assert ("(" + tail)[1..] == tail;
  }

  lemma CloseStep(tail: string, below: seq<char>, ops: seq<char>, out: string, cap: nat)
    requires '(' !in ops
    ensures Fits(")" + tail, below + ['('] + ops, cap) == Fits(tail, below, cap)
    ensures Translation(")" + tail, below + ['('] + ops, out, cap) == Translation(tail, below, out + Written(ops), cap)
  {
    assert (")" + tail)[1..] == tail;
    PopPendingToParen(below, ops, out);
    PopPendingToParen(below, ops, "");
  }

  lemma OperatorStep(op: char, tail: string, below: seq<char>, ops: seq<char>, out: string, cap: nat)
    requires IsOperator(op)
    requires below == [] || Priority(Last(below)) < Priority(op)
    requires forall c <- ops :: Priority(c) >= Priority(op)
    ensures Fits([op] + tail, below + ops, cap) <==> |below| < cap && Fits(tail, below + [op], cap)
    ensures |below| < cap ==>
              Translation([op] + tail, below + ops, out, cap) == Translation(tail, below + [op], out + Written(ops), cap)
  {
    assert ([op] + tail)[1..] == tail;
    PopPending(below, ops, out, op);
    PopPending(below, ops, "", op);
  }

  /** Reading the text of `e` writes Emitted(e) and leaves Pending(e) on the stack; it fits
      exactly when there is room for OpPeak(e) more operators and the rest fits. */
  ghost predicate Reads(e: Expr, rest: string, ops: seq<char>, out: string, cap: nat) {
    && (Fits(Text(e) + rest, ops, cap) <==> |ops| + OpPeak(e) <= cap && Fits(rest, ops + Pending(e), cap))
    && (|ops| + OpPeak(e) <= cap ==>
          Translation(Text(e) + rest, ops, out, cap) == Translation(rest, ops + Pending(e), out + Emitted(e), cap))
  }

  lemma {:induction false} TranslateExpr(e: Expr, rest: string, ops: seq<char>, out: string, cap: nat)
    requires WellFormed(e) && Guarded(ops, e) && NoLeadingDigit(rest)
    requires |ops| <= cap
    ensures Reads(e, rest, ops, out, cap)
    decreases e
  {
    match e
    case Number(before, digits, after) => TranslateNumber(e, rest, ops, out, cap);
    case Paren(before, inner, after) =>
      if |ops| < cap {
        TranslateExpr(inner, ")" + (Spaces(after) + rest), ops + ['('], out, cap);
      }
      TranslateParen(e, rest, ops, out, cap);
    case Binary(op, left, right) =>
      TranslateExpr(left, [op] + (Text(right) + rest), ops, out, cap);
      if |ops| < cap {
        TranslateExpr(right, rest, ops + [op], out + Postfix(left), cap);
      }
      TranslateBinary(e, rest, ops, out, cap);
  }

  lemma TranslateNumber(e: Expr, rest: string, ops: seq<char>, out: string, cap: nat)
    requires WellFormed(e) && e.Number? && NoLeadingDigit(rest)
    requires |ops| <= cap
    ensures Reads(e, rest, ops, out, cap)
  {
    hide Translation, Fits;
    var Number(before, digits, after) := e;
    var tail := Spaces(after) + rest;
    assert Text(e) + rest == Spaces(before) + (digits + tail);
    SkipSpaces(before, digits + tail, ops, out, cap);
    SpacesDoNotLead(after, rest);
    NumberStep(digits, tail, ops, out, cap);
    assert out + Emitted(e) == out + digits + " ";
    SkipSpaces(after, rest, ops, out + digits + " ", cap);
    assert ops + Pending(e) == ops;
  }

  lemma TranslateParen(e: Expr, rest: string, ops: seq<char>, out: string, cap: nat)
    requires WellFormed(e) && e.Paren? && |ops| <= cap
    requires |ops| < cap ==> Reads(e.inner, ")" + (Spaces(e.after) + rest), ops + ['('], out, cap)
    ensures Reads(e, rest, ops, out, cap)
  {
    hide Translation, Fits;
    var Paren(before, inner, after) := e;
    var tail := Spaces(after) + rest;
    var fromInner := Text(inner) + (")" + tail);
    assert Text(e) + rest == Spaces(before) + ("(" + fromInner);
    SkipSpaces(before, "(" + fromInner, ops, out, cap);
    OpenStep(fromInner, ops, out, cap);
    PendingBindsTight(inner);
    CloseStep(tail, ops, Pending(inner), out + Emitted(inner), cap);
    EmittedThenPending(inner);
    assert out + Emitted(inner) + Written(Pending(inner)) == out + Emitted(e);
    SkipSpaces(after, rest, ops, out + Emitted(e), cap);
    assert ops + Pending(e) == ops;
  }

  lemma TranslateBinary(e: Expr, rest: string, ops: seq<char>, out: string, cap: nat)
    requires WellFormed(e) && e.Binary? && Guarded(ops, e) && |ops| <= cap
    requires Reads(e.left, [e.op] + (Text(e.right) + rest), ops, out, cap)
    requires |ops| < cap ==> Reads(e.right, rest, ops + [e.op], out + Postfix(e.left), cap)
    ensures Reads(e, rest, ops, out, cap)
  {
    hide Translation, Fits;
    var Binary(op, left, right) := e;
    BinaryText(e, rest, ops, out);
    PendingBindsTight(left);
    OperatorStep(op, Text(right) + rest, ops, Pending(left), out + Emitted(left), cap);
  }

  lemma BinaryText(e: Expr, rest: string, ops: seq<char>, out: string)
    requires e.Binary?
    ensures Text(e) + rest == Text(e.left) + ([e.op] + (Text(e.right) + rest))
    ensures ops + Pending(e) == ops + [e.op] + Pending(e.right)
    ensures out + Emitted(e) == out + Postfix(e.left) + Emitted(e.right)
    ensures out + Emitted(e.left) + Written(Pending(e.left)) == out + Postfix(e.left)
  {
    hide Translation, Fits, PopAll;
    Regroup4(Text(e.left), [e.op], Text(e.right), rest);
    Regroup(ops, [e.op], Pending(e.right));
    Regroup(out, Postfix(e.left), Emitted(e.right));
    Regroup(out, Emitted(e.left), Written(Pending(e.left)));
    EmittedThenPending(e.left);
  }

  // ---------- the evaluator reads one expression ----------

  /** Evaluating the postfix text of `e` pushes its value, or stops with -4 when it has none;
      `NumPeak(e)` is room enough on the operand stack. */
  ghost predicate Evaluates(e: Expr, rest: string, nums: seq<int>, cap: nat) {
    match Value(e)
    case None => Rpn(Postfix(e) + rest, nums, cap) == Outcome(-4, None) && RpnFits(Postfix(e) + rest, nums, cap)
    case Some(v) =>
      && Rpn(Postfix(e) + rest, nums, cap) == Rpn(rest, nums + [v], cap)
      && RpnFits(Postfix(e) + rest, nums, cap) == RpnFits(rest, nums + [v], cap)
  }

  lemma {:induction false} EvaluateExpr(e: Expr, rest: string, nums: seq<int>, cap: nat)
    requires WellFormed(e) && |nums| + NumPeak(e) <= cap
    ensures Evaluates(e, rest, nums, cap)
  {
    hide Rpn, RpnFits;
    match e
    case Number(_, digits, _) =>
      assert Postfix(e) + rest == digits + (" " + rest);
      RpnNumberStep(digits, rest, nums, cap);
    case Paren(_, inner, _) => EvaluateExpr(inner, rest, nums, cap);
    case Binary(op, left, right) =>
      var tail := [op, ' '] + rest;
      Regroup4(Postfix(left), Postfix(right), [op, ' '], rest);
      EvaluateExpr(left, Postfix(right) + tail, nums, cap);
      if Value(left).Some? {
        var nums' := nums + [Value(left).value];
        EvaluateExpr(right, tail, nums', cap);
        if Value(right).Some? {
          RpnOperatorStep(op, rest, nums, Value(left).value, Value(right).value, cap);
          assert nums' + [Value(right).value] == nums + [Value(left).value, Value(right).value];
        }
      }
  }

  /** When `e` has a value, no push made while evaluating it is lost exactly when there is room for
      NumPeak(e) more operands. */
  lemma {:induction false} NumPeakExactly(e: Expr, rest: string, nums: seq<int>, cap: nat)
    requires WellFormed(e) && Value(e).Some? && |nums| <= cap
    ensures RpnFits(Postfix(e) + rest, nums, cap) <==>
            |nums| + NumPeak(e) <= cap && RpnFits(rest, nums + [Value(e).value], cap)
  {
    hide Rpn, RpnFits;
    match e
    case Number(_, digits, _) =>
      assert Postfix(e) + rest == digits + (" " + rest);
      NumberFits(digits, rest, nums, cap);
    case Paren(_, inner, _) => NumPeakExactly(inner, rest, nums, cap);
    case Binary(op, left, right) =>
      var tail := [op, ' '] + rest;
      Regroup4(Postfix(left), Postfix(right), [op, ' '], rest);
      NumPeakExactly(left, Postfix(right) + tail, nums, cap);
      if |nums| < cap {
        var nums' := nums + [Value(left).value];
        NumPeakExactly(right, tail, nums', cap);
        RpnOperatorStep(op, rest, nums, Value(left).value, Value(right).value, cap);
        assert nums' + [Value(right).value] == nums + [Value(left).value, Value(right).value];
      }
  }

  lemma NumberFits(digits: string, rest: string, nums: seq<int>, cap: nat)
    requires digits != "" && forall c <- digits :: IsDigit(c)
    ensures RpnFits(digits + (" " + rest), nums, cap) <==>
            |nums| < cap && RpnFits(rest, nums + [Decimal(digits, 0)], cap)
  {
    if |nums| < cap {
      RpnNumberStep(digits, rest, nums, cap);
    } else {
      assert digits[0] in digits;
    }
  }

  lemma RpnNumberStep(digits: string, rest: string, nums: seq<int>, cap: nat)
    requires digits != "" && forall c <- digits :: IsDigit(c)
    requires |nums| < cap
    ensures Rpn(digits + (" " + rest), nums, cap) == Rpn(rest, nums + [Decimal(digits, 0)], cap)
    ensures RpnFits(digits + (" " + rest), nums, cap) == RpnFits(rest, nums + [Decimal(digits, 0)], cap)
  {
    var tail := " " + rest;
    DigitRunOfNumber(digits, tail);
    assert digits[0] in digits;
    assert (digits + tail)[|digits|..] == tail && (digits + tail)[..|digits|] == digits;
    assert tail[1..] == rest;
  }

  lemma RpnOperatorStep(op: char, rest: string, nums: seq<int>, a: int, b: int, cap: nat)
    requires IsOperator(op) && |nums| < cap
    ensures match Apply(op, a, b)
            case None =>
              && Rpn([op, ' '] + rest, nums + [a, b], cap) == Outcome(-4, None)
              && RpnFits([op, ' '] + rest, nums + [a, b], cap)
            case Some(v) =>
              && Rpn([op, ' '] + rest, nums + [a, b], cap) == Rpn(rest, nums + [v], cap)
              && RpnFits([op, ' '] + rest, nums + [a, b], cap) == RpnFits(rest, nums + [v], cap)
  {
    var text, tail := [op, ' '] + rest, " " + rest;
    assert text[1..] == tail && tail[1..] == rest;
    assert Init(nums + [a, b]) == nums + [a] && Init(nums + [a]) == nums;
  }

  /** The separator that the translator overwrites makes no difference to the evaluator. */
  lemma {:induction false} LastSpaceIsIdle(text: string, nums: seq<int>, cap: nat)
    ensures Rpn(text + " ", nums, cap) == Rpn(text, nums, cap)
    decreases |text|
  {
    var spaced := text + " ";
    if text == "" {
      assert spaced[1..] == "";
    } else if IsDigit(text[0]) {
      var n := DigitRun(text);
      assert spaced[..n] == text[..n] && spaced[n..] == text[n..] + " ";
      forall c | c in text[..n]
        ensures IsDigit(c)
      {
      }
      assert spaced == text[..n] + spaced[n..];
      DigitRunOfNumber(text[..n], spaced[n..]);
      LastSpaceIsIdle(text[n..], Pushed(nums, Decimal(text[..n], 0), cap), cap);
    } else {
      assert spaced[1..] == text[1..] + " ";
      LastSpaceIsIdle(text[1..], nums, cap);
      if IsOperator(text[0]) && |nums| >= 2 {
        var v := Apply(text[0], Last(Init(nums)), Last(nums));
        if v.Some? {
          LastSpaceIsIdle(text[1..], Pushed(Init(Init(nums)), v.value, cap), cap);
        }
      }
    }
  }

  // ---------- the two passes together ----------

  /** What the two passes make of an infix text: the translator, then the evaluator on the
      string it leaves in the buffer. None is the translator's own error. */
  function Calculated(infix: string, cap: nat): Option<Outcome> {
    match Translation(infix, [], "", cap)
    case None => None
    case Some(out) => Some(Rpn(WithoutLastSpace(out), [], cap))
  }

  /** The answer the program owes for `e`. */
  function Expected(e: Expr): Outcome {
    match Value(e)
    case None => Outcome(-4, None)
    case Some(v) => Outcome(0, Some(v))
  }

  lemma {:induction false} PostfixEndsInSpace(e: Expr)
    ensures Postfix(e) != "" && Last(Postfix(e)) == ' '
  {
    if e.Paren? {
      PostfixEndsInSpace(e.inner);
    }
  }

  /** The translation of a well-formed text is its postfix text, exactly when no push is lost. */
  lemma TranslatesToPostfix(e: Expr, cap: nat)
    requires WellFormed(e)
    ensures Fits(Text(e), [], cap) <==> OpPeak(e) <= cap
    ensures OpPeak(e) <= cap ==> Translation(Text(e), [], "", cap) == Some(Postfix(e))
  {
    assert Text(e) + "" == Text(e) && [] + Pending(e) == Pending(e) && "" + Emitted(e) == Emitted(e);
    TranslateExpr(e, "", [], "", cap);
    PopAllAppends(Pending(e), Emitted(e));
    EmittedThenPending(e);
  }

  /** A postfix text is evaluated to the value of its expression. */
  lemma PostfixIsEvaluated(e: Expr, cap: nat)
    requires WellFormed(e) && NumPeak(e) <= cap
    ensures Rpn(WithoutLastSpace(Postfix(e)), [], cap) == Expected(e)
  {
    PostfixEndsInSpace(e);
    var text := WithoutLastSpace(Postfix(e));
    assert text + " " == Postfix(e) == Postfix(e) + "";
    LastSpaceIsIdle(text, [], cap);
    EvaluateExpr(e, "", [], cap);
  }

  /** From three entries on, a stack deep enough for the operators is deep enough for the operands. */
  lemma {:induction false} NumPeakByOpPeak(e: Expr)
    requires WellFormed(e)
    ensures NumPeak(e) <= Max(4 - Level(e), OpPeak(e)) && NumPeak(e) <= 1 + OpPeak(e)
  {
    match e
    case Number(_, _, _) =>
    case Paren(_, inner, _) => NumPeakByOpPeak(inner);
    case Binary(_, left, right) =>
      NumPeakByOpPeak(left);
      NumPeakByOpPeak(right);
  }

  /** Compiler correctness: with room on both stacks, the program returns the value of the
      expression, or -4 exactly when evaluating it divides by zero. */
  lemma CompilerIsCorrect(e: Expr, cap: nat)
    requires WellFormed(e)
    requires OpPeak(e) <= cap && (cap >= 3 || NumPeak(e) <= cap)
    ensures Calculated(Text(e), cap) == Some(Expected(e))
  {
    NumPeakByOpPeak(e);
    TranslatesToPostfix(e, cap);
    PostfixIsEvaluated(e, cap);
  }

  /** The grammar is unambiguous as far as the answer goes: a text has one value, however it is read. */
  lemma TextDeterminesValue(e1: Expr, e2: Expr)
    requires WellFormed(e1) && WellFormed(e2) && Text(e1) == Text(e2)
    ensures Value(e1) == Value(e2) && Postfix(e1) == Postfix(e2)
  {
    var cap := Max(Max(OpPeak(e1), NumPeak(e1)), Max(OpPeak(e2), NumPeak(e2)));
    CompilerIsCorrect(e1, cap);
    CompilerIsCorrect(e2, cap);
    TranslatesToPostfix(e1, cap);
    TranslatesToPostfix(e2, cap);
  }

  /** Nesting bounds both peaks: 3d + 2 operators and 2d + 3 operands. */
  lemma {:induction false} PeaksByDepth(e: Expr)
    requires WellFormed(e)
    ensures OpPeak(e) <= 3 * Depth(e) + 3 - Level(e)
    ensures NumPeak(e) <= 2 * Depth(e) + 4 - Level(e)
  {
    match e
    case Number(_, _, _) =>
    case Paren(_, inner, _) => PeaksByDepth(inner);
    case Binary(_, left, right) =>
      PeaksByDepth(left);
      PeaksByDepth(right);
  }

  /** With parentheses nested d deep neither stack ever holds more than 3d + 2 operators or
      2d + 3 operands: no push finds it at that height. */
  lemma StackHeights(e: Expr)
    requires WellFormed(e)
    ensures Fits(Text(e), [], 3 * Depth(e) + 2)
    ensures RpnFits(Postfix(e), [], 2 * Depth(e) + 3)
  {
    PeaksByDepth(e);
    hide Fits, RpnFits, Text, Postfix, OpPeak, NumPeak, Depth, WellFormed, Translation, Rpn;
    TranslatesToPostfix(e, 3 * Depth(e) + 2);
    EvaluateExpr(e, "", [], 2 * Depth(e) + 3);
    assert Postfix(e) + "" == Postfix(e);
  }

  /** The 32-entry stacks of stack/05test serve ten levels of parentheses. */
  lemma TenLevelsFit(e: Expr)
    requires WellFormed(e) && Depth(e) <= 10
    ensures Calculated(Text(e), 32) == Some(Expected(e))
  {
    PeaksByDepth(e);
    CompilerIsCorrect(e, STACKSIZE_05TEST);
  }

  /** The 6-entry stacks of stack/04repolish serve one. */
  lemma OneLevelFits(e: Expr)
    requires WellFormed(e) && Depth(e) <= 1
    ensures Calculated(Text(e), 6) == Some(Expected(e))
  {
    PeaksByDepth(e);
    CompilerIsCorrect(e, STACKSIZE_04REPOLISH);
  }

  // ---------- the buffer of the program ----------

  function Digits(e: Expr): nat {
    match e
    case Number(_, digits, _) => |digits|
    case Paren(_, inner, _) => Digits(inner)
    case Binary(_, left, right) => Digits(left) + Digits(right)
  }

  function Numbers(e: Expr): nat {
    match e
    case Number(_, _, _) => 1
    case Paren(_, inner, _) => Numbers(inner)
    case Binary(_, left, right) => Numbers(left) + Numbers(right)
  }

  function Operators(e: Expr): nat {
    match e
    case Number(_, _, _) => 0
    case Paren(_, inner, _) => Operators(inner)
    case Binary(_, left, right) => Operators(left) + 1 + Operators(right)
  }

  lemma {:induction false} PostfixLength(e: Expr)
    ensures |Postfix(e)| == Digits(e) + Numbers(e) + 2 * Operators(e)
  {
    match e
    case Number(_, _, _) =>
    case Paren(_, inner, _) => PostfixLength(inner);
    case Binary(_, left, right) =>
      PostfixLength(left);
      PostfixLength(right);
  }

  /** How many cells the translator writes for `e`. */
  lemma CellsExactly(e: Expr, cap: nat)
    requires WellFormed(e) && OpPeak(e) <= cap
    ensures CellsWritten(Text(e), [], "", cap) == Digits(e) + Numbers(e) + 2 * Operators(e)
    ensures !WritesNothing(Text(e), 0, cap)
  {
    TranslatesToPostfix(e, cap);
    PostfixEndsInSpace(e);
    CellsAreOutput(Text(e), [], "", cap);
    PostfixLength(e);
    NothingWrittenExactly(Text(e), [], cap);
  }

  /** A text is longer than the stacks it needs. */
  lemma {:induction false} PeaksByLength(e: Expr)
    requires WellFormed(e)
    ensures OpPeak(e) < |Text(e)| && 2 * NumPeak(e) <= |Text(e)| + 1
  {
    match e
    case Number(_, _, _) =>
    case Paren(_, inner, _) => PeaksByLength(inner);
    case Binary(_, left, right) =>
      PeaksByLength(left);
      PeaksByLength(right);
  }

  /** The line and the postfix text have 32 characters each, terminator included. */
  const LINE_SIZE: nat := 32

  /** No line the program can read is too much for its stacks, however deep it is nested. */
  lemma LinesFitTheStacks(e: Expr)
    requires WellFormed(e) && |Text(e)| < LINE_SIZE
    ensures Fits(Text(e), [], STACKSIZE_05TEST)
    ensures Calculated(Text(e), STACKSIZE_05TEST) == Some(Expected(e))
  {
    PeaksByLength(e);
    TranslatesToPostfix(e, STACKSIZE_05TEST);
    CompilerIsCorrect(e, STACKSIZE_05TEST);
  }

  lemma {:induction false} NoNulInText(e: Expr)
    requires WellFormed(e)
    ensures '\0' !in Text(e)
  {
    match e
    case Number(before, digits, after) =>
      NoNulInSpaces(before);
      NoNulInSpaces(after);
    case Paren(before, inner, after) =>
      NoNulInSpaces(before);
      NoNulInText(inner);
      NoNulInSpaces(after);
    case Binary(op, left, right) =>
      NoNulInText(left);
      NoNulInText(right);
  }

  lemma NoNulInSpaces(n: nat)
    ensures '\0' !in Spaces(n)
  {
  }
}
