/** The bounds on the two stacks are exact, and what happens beyond them and beyond the buffer. */
module CompilerLimits {
  import opened Options
  import opened Infix
  import opened BoundedStack
  import opened Translator
  import opened Evaluator
  import opened CompilerCorrectness
  import opened PostfixCells
  import opened LostPushes

  function Digit(c: char): Expr {
    Number(0, [c], 0)
  }

  /** 1+2*(1+2*( ... 3)): the expression that fills both stacks to the bound. */
  function Steep(d: nat): Expr {
    Binary('+', Digit('1'), Binary('*', Digit('2'), if d == 0 then Digit('3') else Paren(0, Steep(d - 1), 0)))
  }

  lemma {:induction false} SteepHasValue(d: nat)
    ensures Value(Steep(d)).Some?
  {
    if d > 0 {
      SteepHasValue(d - 1);
      var inner := Paren(0, Steep(d - 1), 0);
      assert Value(inner).Some? && Value(Binary('*', Digit('2'), inner)).Some?;
    }
  }

  lemma DigitIsAtom(c: char)
    requires IsDigit(c)
    ensures WellFormed(Digit(c)) && Depth(Digit(c)) == 0 && OpPeak(Digit(c)) == 0 && NumPeak(Digit(c)) == 1
    ensures Level(Digit(c)) == 3 && !Digit(c).Binary?
  {
  }

  /** An operator behind one digit. */
  lemma DigitThen(op: char, c: char, right: Expr)
    requires IsDigit(c) && IsOperator(op) && WellFormed(right) && Level(right) > Priority(op)
    ensures var e := Binary(op, Digit(c), right);
            && WellFormed(e) && Depth(e) == Depth(right)
            && OpPeak(e) == 1 + OpPeak(right) && NumPeak(e) == 1 + NumPeak(right)
  {
    DigitIsAtom(c);
    hide Digit;
  }

  /** The bounds are reached at every depth. */
  lemma {:induction false} BoundsAreReached(d: nat)
    ensures WellFormed(Steep(d)) && Depth(Steep(d)) == d
    ensures OpPeak(Steep(d)) == 3 * d + 2 && NumPeak(Steep(d)) == 2 * d + 3
  {
    DigitIsAtom('3');
    var inner := if d == 0 then Digit('3') else Paren(0, Steep(d - 1), 0);
    if d > 0 {
      BoundsAreReached(d - 1);
    }
    DigitThen('*', '2', inner);
    DigitThen('+', '1', Binary('*', Digit('2'), inner));
  }

  /** So no smaller stack, of either kind, serves every expression nested d deep: the translator
      loses a push below 3d + 2 entries, the evaluator below 2d + 3. */
  lemma SmallerStackOverflows(d: nat, cap: nat)
    ensures WellFormed(Steep(d)) && Depth(Steep(d)) == d
    ensures Fits(Text(Steep(d)), [], cap) <==> cap >= 3 * d + 2
    ensures RpnFits(Postfix(Steep(d)), [], cap) <==> cap >= 2 * d + 3
  {
    BoundsAreReached(d);
    SteepHasValue(d);
    TranslatesToPostfix(Steep(d), cap);
    NumPeakExactly(Steep(d), "", [], cap);
    assert Postfix(Steep(d)) + "" == Postfix(Steep(d));
  }

  // ---------- lines that overrun the buffer ----------

  /** 1+1+ ... +1 */
  function Ones(n: nat): Expr {
    if n == 0 then Digit('1') else Binary('+', Ones(n - 1), Digit('1'))
  }

  /** A line of 2n + 1 characters for which 4n + 2 cells are written. */
  lemma {:induction false} OnesSize(n: nat)
    ensures WellFormed(Ones(n)) && |Text(Ones(n))| == 2 * n + 1 && OpPeak(Ones(n)) <= 1
    ensures Digits(Ones(n)) + Numbers(Ones(n)) + 2 * Operators(Ones(n)) == 4 * n + 2
  {
    if n > 0 {
      OnesSize(n - 1);
    }
  }

  lemma CellsOfOnes(n: nat)
    ensures CellsWritten(Text(Ones(n)), [], "", STACKSIZE_05TEST) == 4 * n + 2
  {
    hide CellsWritten, Ones, Text, Digits, Numbers, Operators, OpPeak, WellFormed;
    OnesSize(n);
    CellsExactly(Ones(n), STACKSIZE_05TEST);
  }

  /** From nine ones on the program writes beyond its buffer, on lines it can read. */
  lemma NineOnesOverrun(n: nat)
    requires 8 <= n < 16
    ensures WellFormed(Ones(n)) && |Text(Ones(n))| < LINE_SIZE
    ensures CellsWritten(Text(Ones(n)), [], "", STACKSIZE_05TEST) > LINE_SIZE
  {
    hide CellsWritten, Ones, Text, WellFormed;
    OnesSize(n);
    CellsOfOnes(n);
  }

  lemma FirstOne()
    ensures Text(Ones(0)) == "1"
  {
  }

  lemma OneMore(n: nat)
    ensures Text(Ones(n + 1)) == Text(Ones(n)) + "+1"
  {
    assert Text(Digit('1')) == "1";
  }

  lemma NineOnes()
    ensures Text(Ones(8)) == "1+1+1+1+1+1+1+1+1"
  {
    hide *;
    FirstOne();
    OneMore(0);
    OneMore(1);
    OneMore(2);
    OneMore(3);
    OneMore(4);
    OneMore(5);
    OneMore(6);
    OneMore(7);
  }

  /** The first of these lines: 17 characters, 34 cells. */
  lemma FirstOverrun()
    ensures CellsWritten("1+1+1+1+1+1+1+1+1", [], "", STACKSIZE_05TEST) == 34
  {
    hide *;
    NineOnes();
    CellsOfOnes(8);
  }

  // ---------- lines that never end ----------

  /** A parenthesis left open in front of an expression is written out and stalls the evaluator. */
  lemma OpenParenthesisStalls(e: Expr, cap: nat)
    requires WellFormed(e) && Value(e).Some? && 1 + OpPeak(e) <= cap && NumPeak(e) <= cap
    ensures Translation("(" + Text(e), [], "", cap) == Some(Postfix(e) + "( ")
    ensures forall n: nat :: Turns(Postfix(e) + "(", cap, n).Running?
  {
    hide Translation, Rpn, Turns, Stalls;
    OpenIsTranslated(e, cap);
    EvaluateExpr(e, "(", [], cap);
    OpenIsUnknown([] + [Value(e).value], cap);
    UnknownExactly(Postfix(e) + "(", [], cap);
    RunsForEverExactly(Postfix(e) + "(", cap);
  }

  lemma OpenIsUnknown(nums: seq<int>, cap: nat)
    ensures Rpn("(", nums, cap).code == -7
  {
  }

  lemma AtEnd(ops: seq<char>, out: string, cap: nat)
    ensures Translation("", ops, out, cap) == Some(PopAll(ops, out))
  {
  }

  lemma OpenIsTranslated(e: Expr, cap: nat)
    requires WellFormed(e) && 1 + OpPeak(e) <= cap
    ensures Translation("(" + Text(e), [], "", cap) == Some(Postfix(e) + "( ")
  {
    hide Translation, Fits, PopAll, Written, Text, Postfix, Emitted, Pending;
    OpenStep(Text(e), [], "", cap);
    assert [] + ['('] == ['('] && Text(e) + "" == Text(e) && "" + Emitted(e) == Emitted(e);
    TranslateExpr(e, "", ['('], "", cap);
    AtEnd(['('] + Pending(e), Emitted(e), cap);
    PopAllAppends(['('] + Pending(e), Emitted(e));
    WrittenCons('(', Pending(e));
    EmittedThenPending(e);
    Regroup(Emitted(e), Written(Pending(e)), "( ");
  }

  // ---------- lost pushes ----------

  function Wrapped(n: nat, e: Expr): Expr {
    if n == 0 then e else Paren(0, Wrapped(n - 1, e), 0)
  }

  function Repeat(c: char, n: nat): string {
    if n == 0 then "" else [c] + Repeat(c, n - 1)
  }

  lemma {:induction false} WrappedText(n: nat, e: Expr)
    requires WellFormed(e)
    ensures Text(Wrapped(n, e)) == Repeat('(', n) + Text(e) + Repeat(')', n)
    ensures WellFormed(Wrapped(n, e)) && Value(Wrapped(n, e)) == Value(e) && OpPeak(Wrapped(n, e)) == n + OpPeak(e)
  {
    if n == 0 {
      assert "" + Text(e) + "" == Text(e);
    } else {
      WrappedText(n - 1, e);
      RepeatAtEnd(')', n);
      WrapText(Repeat('(', n - 1), Text(e), Repeat(')', n - 1));
    }
  }

  lemma WrapText(before: string, text: string, after: string)
    ensures "" + "(" + (before + text + after) + ")" + "" == ['('] + before + text + (after + [')'])
  {
  }

  lemma {:induction false} RepeatAtEnd(c: char, n: nat)
    requires n > 0
    ensures Repeat(c, n) == Repeat(c, n - 1) + [c]
  {
    if n > 1 {
      RepeatAtEnd(c, n - 1);
    }
  }

  lemma {:induction false} OpenAll(n: nat, tail: string, ops: seq<char>, out: string, cap: nat)
    requires |ops| + n <= cap
    ensures Translation(Repeat('(', n) + tail, ops, out, cap) == Translation(tail, ops + Repeat('(', n), out, cap)
  {
    if n == 0 {
      assert "" + tail == tail && ops + [] == ops;
    } else {
      Regroup("(", Repeat('(', n - 1), tail);
      OpenStep(Repeat('(', n - 1) + tail, ops, out, cap);
      OpenAll(n - 1, tail, ops + ['('], out, cap);
      Regroup(ops, ['('], Repeat('(', n - 1));
    }
  }

  lemma {:induction false} CloseAll(n: nat, tail: string, below: seq<char>, out: string, cap: nat)
    ensures Translation(Repeat(')', n) + tail, below + Repeat('(', n), out, cap) == Translation(tail, below, out, cap)
  {
    if n == 0 {
      assert "" + tail == tail && below + [] == below;
    } else {
      RepeatAtEnd('(', n);
      assert below + Repeat('(', n) == below + Repeat('(', n - 1) + ['('] + [] && out + "" == out;
      Regroup(")", Repeat(')', n - 1), tail);
      CloseStep(Repeat(')', n - 1) + tail, below + Repeat('(', n - 1), [], out, cap);
      CloseAll(n - 1, tail, below, out, cap);
    }
  }

  lemma LostOpen(tail: string, ops: seq<char>, out: string, cap: nat)
    requires |ops| >= cap
    ensures Translation("(" + tail, ops, out, cap) == Translation(tail, ops, out, cap)
  {
    assert ("(" + tail)[1..] == tail;
  }

  lemma LostPlus(n: nat, tail: string, out: string)
    requires n > 0
    ensures Translation("+" + tail, Repeat('(', n), out, n) == Translation(tail, Repeat('(', n), out, n)
  {
    RepeatAtEnd('(', n);
    RepeatLength('(', n);
    assert ("+" + tail)[1..] == tail;
  }

  lemma RepeatLength(c: char, n: nat)
    ensures |Repeat(c, n)| == n
  {
  }

  /** Whatever the capacity, 1+2 inside that many parentheses needs one push more than it has.
      The push is lost silently and the program answers -6 where the value is 3. */
  lemma LostPushGivesWrongAnswer(cap: nat)
    requires cap >= 2
    ensures var e := Wrapped(cap, Binary('+', Digit('1'), Digit('2')));
            WellFormed(e) && OpPeak(e) == cap + 1 && Expected(e) == Outcome(0, Some(3)) &&
            Calculated(Text(e), cap) == Some(Outcome(-6, Some(2)))
  {
    hide Translation, Rpn;
    var sum := Binary('+', Digit('1'), Digit('2'));
    WrappedText(cap, sum);
    SumTranslates(cap);
    assert Text(sum) == "1+2" && Init("1 2 ") == "1 2";
    TwoOperands(cap);
  }

  lemma SumTranslates(cap: nat)
    requires cap > 0
    ensures Translation(Repeat('(', cap) + "1+2" + Repeat(')', cap), [], "", cap) == Some("1 2 ")
  {
    hide Translation;
    var opens, closers := Repeat('(', cap), Repeat(')', cap);
    Regroup(opens, "1+2", closers);
    OpenAll(cap, "1+2" + closers, [], "", cap);
    assert [] + opens == opens;
    assert "1+2" + closers == "1" + ("+" + ("2" + closers));
    NumberStep("1", "+" + ("2" + closers), opens, "", cap);
    assert "" + "1" + " " == "1 " && "1 " + "2" + " " == "1 2 ";
    LostPlus(cap, "2" + closers, "1 ");
    NumberStep("2", closers, opens, "1 ", cap);
    assert closers + "" == closers && [] + opens == opens;
    CloseAll(cap, "", [], "1 2 ", cap);
    AtEnd([], "1 2 ", cap);
  }

  lemma AtEndOfText(nums: seq<int>, cap: nat)
    requires |nums| > 1
    ensures Rpn("", nums, cap) == Outcome(-6, Some(nums[|nums| - 1]))
  {
  }

  lemma TwoOperands(cap: nat)
    requires cap >= 2
    ensures Rpn("1 2", [], cap) == Outcome(-6, Some(2))
  {
    hide Rpn, RpnFits;
    AtEndOfText([1, 2], cap);
    RpnNumberStep("1", "2", [], cap);
    assert "1" + (" " + "2") == "1 2";
    LastSpaceIsIdle("2", [1], cap);
    RpnNumberStep("2", "", [1], cap);
    assert "2" + (" " + "") == "2" + " ";
    assert [] + [1] == [1] && [1] + [2] == [1, 2];
  }

  /** Seventeen open parentheses overrun the buffer as well. */
  lemma OpenParenthesesOverrun(n: nat)
    requires 17 <= n < LINE_SIZE
    ensures CellsWritten(Repeat('(', n), [], "", STACKSIZE_05TEST) == 2 * n > LINE_SIZE
  {
    RepeatLength('(', n);
    OnlyRepeats('(', n);
    UnclosedRepeated(n, 0);
    hide Repeat, CellsWritten, Unclosed, TextCells;
    ShortTextsFit(Repeat('(', n), [], STACKSIZE_05TEST);
    CellsOfText(Repeat('(', n), [], "", STACKSIZE_05TEST);
  }

  lemma {:induction false} UnclosedRepeated(n: nat, open: nat)
    ensures Unclosed(Repeat('(', n), open) == n + open && TextCells(Repeat('(', n)) == 0
  {
    if n > 0 {
      UnclosedRepeated(n - 1, open + 1);
    }
  }

  // ---------- a wrong number ----------

  /** 1+((...2...))*3 */
  function HiddenSum(n: nat): Expr {
    Binary('+', Digit('1'), Binary('*', Wrapped(n, Digit('2')), Digit('3')))
  }

  /** (1+2)*3, which the program makes of it. */
  function WrongProduct(): Expr {
    Binary('*', Paren(0, Binary('+', Digit('1'), Digit('2')), 0), Digit('3'))
  }

  lemma HiddenSumIsSeven(n: nat)
    ensures WellFormed(HiddenSum(n)) && Value(HiddenSum(n)) == Some(7)
  {
    var two := Wrapped(n, Digit('2'));
    WrappedText(n, Digit('2'));
    assert Value(Digit('1')) == Some(1) && Value(Digit('2')) == Some(2) && Value(Digit('3')) == Some(3);
    assert Level(two) == 3;
    var product := Binary('*', two, Digit('3'));
    assert WellFormed(product) && Value(product) == Some(6);
  }

  lemma HiddenSumText(n: nat)
    ensures Text(HiddenSum(n)) == "1" + ("+" + (Repeat('(', n) + ("2" + (Repeat(')', n) + ("*" + "3")))))
  {
    WrappedText(n, Digit('2'));
    assert Text(Digit('1')) == "1" && Text(Digit('2')) == "2" && Text(Digit('3')) == "3";
    hide Repeat, Wrapped;
    assert Text(Binary('*', Wrapped(n, Digit('2')), Digit('3'))) == Repeat('(', n) + "2" + Repeat(')', n) + "*" + "3";
    JoinHidden(Repeat('(', n), Repeat(')', n));
  }

  lemma JoinHidden(opens: string, closers: string)
    ensures "1" + "+" + (opens + "2" + closers + "*" + "3") == "1" + ("+" + (opens + ("2" + (closers + ("*" + "3")))))
  {
  }

  lemma WrongProductText()
    ensures WellFormed(WrongProduct()) && Value(WrongProduct()) == Some(9) && NumPeak(WrongProduct()) == 2
    ensures Postfix(WrongProduct()) == "1 2 + 3 * "
  {
    assert Postfix(Digit('1')) == "1 " && Postfix(Digit('2')) == "2 " && Postfix(Digit('3')) == "3 ";
    assert Value(Digit('1')) == Some(1) && Value(Digit('2')) == Some(2) && Value(Digit('3')) == Some(3);
    var sum := Binary('+', Digit('1'), Digit('2'));
    assert Postfix(sum) == "1 2 + " && Value(sum) == Some(3);
  }

  /** Past the one parenthesis that is lost, its closing one releases the plus. */
  lemma HiddenTail(closers: string, cap: nat)
    requires cap > 0 && closers == Repeat(')', cap)
    ensures Translation("2" + (closers + ("*" + "3")), ['+'] + Repeat('(', cap - 1), "1 ", cap) == Some("1 2 + 3 * ")
  {
    hide Translation, Repeat, Fits, PopAll;
    var ops := Repeat('(', cap - 1);
    RepeatAtEnd(')', cap);
    assert closers + ("*" + "3") == Repeat(')', cap - 1) + (")" + ("*" + "3"));
    CloserLeads(cap, "*" + "3");
    NumberStep("2", closers + ("*" + "3"), ['+'] + ops, "1 ", cap);
    assert "1 " + "2" + " " == "1 2 ";
    CloseAll(cap - 1, ")" + ("*" + "3"), ['+'], "1 2 ", cap);
    CloseLoose("*" + "3", cap);
    FirstOperator('*', "3", "1 2 + ", cap);
    assert "3" + "" == "3";
    NumberStep("3", "", ['*'], "1 2 + ", cap);
    assert "1 2 + " + "3" + " " == "1 2 + 3 ";
    FlushStar(cap);
  }

  lemma CloserLeads(n: nat, tail: string)
    requires n > 0
    ensures NoLeadingDigit(Repeat(')', n) + tail)
  {
  }

  lemma CloseLoose(tail: string, cap: nat)
    ensures Translation(")" + tail, ['+'], "1 2 ", cap) == Translation(tail, [], "1 2 + ", cap)
  {
    assert (")" + tail)[1..] == tail && Init(['+']) == [] && "1 2 " + "+ " == "1 2 + ";
  }

  lemma FlushStar(cap: nat)
    ensures Translation("", ['*'], "1 2 + 3 ", cap) == Some("1 2 + 3 * ")
  {
    assert Init(['*']) == [] && "1 2 + 3 " + "* " == "1 2 + 3 * ";
  }

  /** Whatever the capacity, a lost parenthesis can also give a wrong number with code 0: 9 where the
      value is 7. */
  lemma LostPushGivesWrongNumber(cap: nat)
    requires cap >= 2
    ensures var e := HiddenSum(cap);
            WellFormed(e) && Expected(e) == Outcome(0, Some(7)) &&
            Calculated(Text(e), cap) == Some(Outcome(0, Some(9)))
  {
    hide Translation, Rpn, Repeat, HiddenSum, WrongProduct;
    HiddenSumIsSeven(cap);
    HiddenIsTranslated(cap);
    WrongProductText();
    PostfixIsEvaluated(WrongProduct(), cap);
  }

  lemma HiddenIsTranslated(cap: nat)
    requires cap >= 2
    ensures Translation(Text(HiddenSum(cap)), [], "", cap) == Some("1 2 + 3 * ")
  {
    hide Translation, HiddenSum, Repeat, Fits, Text;
    HiddenSumText(cap);
    var tail := "2" + (Repeat(')', cap) + ("*" + "3"));
    FirstPlus(Repeat('(', cap) + tail, cap);
    HiddenOpens(tail, cap);
    HiddenTail(Repeat(')', cap), cap);
  }

  lemma FirstOperator(op: char, tail: string, out: string, cap: nat)
    requires IsOperator(op) && cap > 0
    ensures Translation([op] + tail, [], out, cap) == Translation(tail, [op], out, cap)
  {
    assert ([op] + tail)[1..] == tail;
  }

  lemma FirstPlus(tail: string, cap: nat)
    requires cap > 0
    ensures Translation("1" + ("+" + tail), [], "", cap) == Translation(tail, ['+'], "1 ", cap)
  {
    hide Translation, Fits, PopAll;
    NumberStep("1", "+" + tail, [], "", cap);
    assert "" + "1" + " " == "1 ";
    FirstOperator('+', tail, "1 ", cap);
  }

  lemma HiddenOpens(tail: string, cap: nat)
    requires cap > 0
    ensures Translation(Repeat('(', cap) + tail, ['+'], "1 ", cap) ==
            Translation(tail, ['+'] + Repeat('(', cap - 1), "1 ", cap)
  {
    RepeatAtEnd('(', cap);
    RepeatLength('(', cap - 1);
    hide Translation, Fits, Repeat;
    Regroup(Repeat('(', cap - 1), "(", tail);
    OpenAll(cap - 1, "(" + tail, ['+'], "1 ", cap);
    LostOpen(tail, ['+'] + Repeat('(', cap - 1), "1 ", cap);
  }

  lemma NoRepeat(c: char)
    ensures Repeat(c, 0) == ""
  {
  }

  lemma RepeatMore(c: char, n: nat)
    ensures Repeat(c, n + 1) == [c] + Repeat(c, n)
  {
  }

  lemma SixRepeated(c: char)
    ensures Repeat(c, 6) == [c, c, c, c, c, c]
  {
    hide *;
    NoRepeat(c);
    RepeatMore(c, 0);
    RepeatMore(c, 1);
    RepeatMore(c, 2);
    RepeatMore(c, 3);
    RepeatMore(c, 4);
    RepeatMore(c, 5);
  }

  lemma SixDeepText()
    ensures Text(HiddenSum(6)) == "1+((((((2))))))*3"
  {
    hide *;
    HiddenSumText(6);
    SixRepeated('(');
    SixRepeated(')');
    assert "1" + ("+" + ("((((((" + ("2" + ("))))))" + ("*" + "3"))))) == "1+((((((2))))))*3";
  }

  /** The program of stack/04repolish on a line of 17 characters: it answers 9 where the value is 7. */
  lemma SixDeepIsWrong()
    ensures WellFormed(HiddenSum(6)) && Value(HiddenSum(6)) == Some(7)
    ensures Text(HiddenSum(6)) == "1+((((((2))))))*3"
    ensures Calculated("1+((((((2))))))*3", STACKSIZE_04REPOLISH) == Some(Outcome(0, Some(9)))
    ensures CellsWritten("1+((((((2))))))*3", [], "", STACKSIZE_04REPOLISH) <= LINE_SIZE
  {
    hide Calculated, HiddenSum, Text, CellsWritten, Translation;
    HiddenSumIsSeven(6);
    LostPushGivesWrongNumber(6);
    SixDeepText();
    HiddenIsTranslated(6);
    CellsAreOutput("1+((((((2))))))*3", [], "", 6);
  }

  // ---------- losses without harm ----------

  lemma {:induction false} NoOperatorNoHarm(text: string, r: seq<char>, ideal: seq<char>, cap: nat)
    requires (forall c <- text :: !IsOperator(c)) && Waiting(r) == [] && Waiting(ideal) == []
    ensures Harmless(text, r, ideal, cap)
    decreases |text|
  {
    if text != "" {
      var c := text[0];
      assert text == [c] + text[1..];
      if IsDigit(c) {
        NoOperatorNoHarm(text[DigitRun(text)..], r, ideal, cap);
      } else if c == '(' {
        PushedOn(r, c);
        PushedOn(ideal, c);
        NoOperatorNoHarm(text[1..], Pushed(r, c, cap), ideal + [c], cap);
      } else if c == ')' {
        PopToParenCells(r, "");
        PopToParenCells(ideal, "");
        PopToParenLength(r, "");
        PopToParenLength(ideal, "");
        NoOperatorNoHarm(text[1..], PopToParen(r, "").0, PopToParen(ideal, "").0, cap);
      } else {
        NoOperatorNoHarm(text[1..], r, ideal, cap);
      }
    }
  }

  /** Any number of parentheses around a number is answered rightly at every capacity, however many of
      them are lost. */
  lemma ParenthesesDoNoHarm(n: nat, cap: nat)
    requires cap > 0
    ensures var e := Wrapped(n, Digit('1'));
            && WellFormed(e) && (n > cap ==> !Fits(Text(e), [], cap))
            && Calculated(Text(e), cap) == Some(Expected(e)) == Some(Outcome(0, Some(1)))
  {
    var e := Wrapped(n, Digit('1'));
    WrappedText(n, Digit('1'));
    WrappedPeak(n, Digit('1'));
    OnlyRepeats('(', n);
    OnlyRepeats(')', n);
    TranslatesToPostfix(e, cap);
    NoOperatorNoHarm(Text(e), [], [], cap);
    hide Harmless, Calculated, Text, Fits;
    HarmlessLossesAnswer(e, cap);
  }

  lemma WrappedPeak(n: nat, e: Expr)
    ensures NumPeak(Wrapped(n, e)) == NumPeak(e)
  {
  }

  lemma OnlyRepeats(c: char, n: nat)
    ensures forall x <- Repeat(c, n) :: x == c
  {
  }

  /** (...((1)+2)...), with n parentheses around the sum. */
  function NestedSum(n: nat): Expr {
    Wrapped(n, Binary('+', Paren(0, Digit('1'), 0), Digit('2')))
  }

  /** Even a parenthesis lost around an operator may do no harm: the one inside it is lost as well, and
      its closing one makes room. */
  lemma LossAroundOperator(cap: nat)
    requires cap >= 2
    ensures var e := NestedSum(cap + 1);
            WellFormed(e) && OpPeak(e) == cap + 2 && Postfix(e) == "1 2 + " && Harmless(Text(e), [], [], cap)
  {
    NestedSumText(cap + 1);
    NestedIsTranslated(cap);
    hide Harmless, Translation, NestedSum;
    TranslatedExactly(NestedSum(cap + 1), cap);
  }

  lemma NestedSumText(n: nat)
    ensures var e := NestedSum(n);
            && WellFormed(e) && OpPeak(e) == n + 1 && Postfix(e) == "1 2 + "
            && Text(e) == Repeat('(', n) + "(1)+2" + Repeat(')', n)
  {
    var one, two := Paren(0, Digit('1'), 0), Digit('2');
    assert Text(one) == "(1)" && Text(two) == "2" && Postfix(one) == "1 " && Postfix(two) == "2 ";
    assert WellFormed(one) && WellFormed(two) && OpPeak(one) == 1 && OpPeak(two) == 0;
    var sum := Binary('+', one, two);
    assert WellFormed(sum) && OpPeak(sum) == 1 && Postfix(sum) == "1 2 + " && Text(sum) == "(1)+2";
    WrappedText(n, sum);
    WrappedPostfix(n, sum);
  }

  lemma WrappedPostfix(n: nat, e: Expr)
    ensures Postfix(Wrapped(n, e)) == Postfix(e)
  {
  }

  lemma NestedIsTranslated(cap: nat)
    requires cap >= 2
    ensures Translation(Repeat('(', cap + 1) + "(1)+2" + Repeat(')', cap + 1), [], "", cap) == Some("1 2 + ")
  {
    var closers := Repeat(')', cap + 1);
    RepeatAtEnd('(', cap + 1);
    RepeatAtEnd('(', cap);
    RepeatLength('(', cap);
    RepeatLength('(', cap - 1);
    CloserLeads(cap + 1, "");
    hide Translation, Repeat;
    var tail := "1" + (")" + ("+" + ("2" + closers)));
    assert Repeat('(', cap + 1) + "(1)+2" + closers == Repeat('(', cap) + ("(" + ("(" + tail));
    OpenAll(cap, "(" + ("(" + tail), [], "", cap);
    assert [] + Repeat('(', cap) == Repeat('(', cap);
    LostOpen("(" + tail, Repeat('(', cap), "", cap);
    LostOpen(tail, Repeat('(', cap), "", cap);
    NumberStep("1", ")" + ("+" + ("2" + closers)), Repeat('(', cap), "", cap);
    assert "" + "1" + " " == "1 " && closers + "" == closers;
    assert Repeat('(', cap) == Repeat('(', cap - 1) + ['('] + [];
    CloseStep("+" + ("2" + closers), Repeat('(', cap - 1), [], "1 ", cap);
    assert "1 " + "" == "1 ";
    NestedPlus(cap, closers);
  }

  lemma NestedPlus(cap: nat, closers: string)
    requires cap >= 2 && closers == Repeat(')', cap + 1)
    ensures Translation("+" + ("2" + closers), Repeat('(', cap - 1), "1 ", cap) == Some("1 2 + ")
  {
    RepeatAtEnd('(', cap - 1);
    RepeatLength('(', cap - 1);
    CloserLeads(cap + 1, "");
    hide Translation, Repeat, Fits, PopAll;
    var ops := Repeat('(', cap - 1);
    assert ops + [] == ops && "1 " + Written([]) == "1 " && closers + "" == closers by {
      NothingPopped();
    }
    OperatorStep('+', "2" + closers, ops, [], "1 ", cap);
    NumberStep("2", closers, ops + ['+'], "1 ", cap);
    assert "1 " + "2" + " " == "1 2 ";
    NestedClose(cap);
  }

  lemma NothingPopped()
    ensures Written([]) == ""
  {
  }

  lemma PlusWritten(out: string)
    ensures out + Written(['+']) == out + "+ "
  {
    WrittenStep(['+']);
    assert Init(['+']) == [];
  }

  lemma NestedClose(cap: nat)
    requires cap >= 2
    ensures Translation(Repeat(')', cap + 1), Repeat('(', cap - 1) + ['+'], "1 2 ", cap) == Some("1 2 + ")
  {
    RepeatAtEnd('(', cap - 1);
    RepeatAtEnd(')', cap);
    RepeatAtEnd(')', cap - 1);
    assert Repeat(')', cap + 1) == ")" + Repeat(')', cap);
    hide Translation, Repeat, Fits, PopAll;
    var below := Repeat('(', cap - 2);
    assert Repeat('(', cap - 1) + ['+'] == below + ['('] + ['+'];
    CloseStep(Repeat(')', cap), below, ['+'], "1 2 ", cap);
    PlusWritten("1 2 ");
    assert "1 2 " + "+ " == "1 2 + ";
    assert Repeat(')', cap) == Repeat(')', cap - 2) + "))" && [] + below == below;
    CloseAll(cap - 2, "))", [], "1 2 + ", cap);
    CloseNothing("1 2 + ", cap);
  }

  lemma CloseNothing(out: string, cap: nat)
    ensures Translation("))", [], out, cap) == Some(out)
  {
    assert "))"[1..] == ")" && ")"[1..] == "";
  }
}
