/** The two programs around translator and evaluator, on every line they can read. */
module Calculator {
  import opened Options
  import opened Infix
  import opened BoundedStack
  import opened Translator
  import opened Evaluator
  import opened CompilerCorrectness
  import opened PostfixCells

  // ---------- the buffer ----------

  /** The program of stack/05test stays inside the 32 cells of its buffer exactly when digits, numbers,
      twice the operators and twice the parentheses left open make at most 32; on a line with an
      unknown character, when they do so before it, less what still waits on the stack there. */
  lemma StaysInsideExactly(line: string)
    requires |line| < LINE_SIZE
    ensures CellsWritten(line, [], "", STACKSIZE_05TEST) <= LINE_SIZE <==> LineCells(line, STACKSIZE_05TEST) <= LINE_SIZE
    ensures AllReadable(line) ==> LineCells(line, STACKSIZE_05TEST) == TextCells(line) + 2 * Unclosed(line, 0)
  {
    CellsOfLine(line, STACKSIZE_05TEST);
    if AllReadable(line) {
      NothingForeign(line);
      assert line[..|line|] == line;
    }
  }

  lemma {:induction false} NothingForeign(text: string)
    requires AllReadable(text)
    ensures FirstForeign(text) == |text|
  {
    if text != "" {
      ReadableTail(text, 1);
      NothingForeign(text[1..]);
    }
  }

  /** On a well-formed line these are digits, numbers and twice the operators. */
  lemma WellFormedStaysInside(e: Expr)
    requires WellFormed(e) && |Text(e)| < LINE_SIZE
    ensures LineCells(Text(e), STACKSIZE_05TEST) == Digits(e) + Numbers(e) + 2 * Operators(e)
    ensures CellsWritten(Text(e), [], "", STACKSIZE_05TEST) <= LINE_SIZE <==>
            Digits(e) + Numbers(e) + 2 * Operators(e) <= LINE_SIZE
  {
    PeaksByLength(e);
    CellsExactly(e, STACKSIZE_05TEST);
    CellsOfLine(Text(e), STACKSIZE_05TEST);
  }

  // ---------- lines that never end ----------

  /** The program of stack/05test never comes back from this line. */
  predicate LineStalls(line: string) {
    match Translation(line, [], "", STACKSIZE_05TEST)
    case None => false
    case Some(out) => Stalls(WithoutLastSpace(out), [], STACKSIZE_05TEST)
  }

  /** What the translator writes: characters the evaluator knows, and parentheses. */
  predicate Writable(text: string) {
    forall c <- text :: Known(c) || c == '('
  }

  lemma WritableJoin(a: string, b: string)
    requires Writable(a) && Writable(b)
    ensures Writable(a + b)
  {
  }

  lemma {:induction false} PoppingIsWritable(ops: seq<char>, out: string, cur: char)
    requires Writable(ops) && Writable(out)
    ensures Writable(PopToParen(ops, out).0) && Writable(PopToParen(ops, out).1)
    ensures Writable(PopTighter(ops, out, cur).0) && Writable(PopTighter(ops, out, cur).1)
    ensures Writable(PopAll(ops, out))
    decreases |ops|
  {
    if ops != [] {
      assert ops == Init(ops) + [Last(ops)];
      WritableJoin(out, [Last(ops), ' ']);
      PoppingIsWritable(Init(ops), out + [Last(ops), ' '], cur);
    }
  }

  lemma {:induction false} OutputIsWritable(text: string, ops: seq<char>, out: string, cap: nat)
    requires Writable(ops) && Writable(out) && Translation(text, ops, out, cap).Some?
    ensures Writable(Translation(text, ops, out, cap).value)
    decreases |text|
  {
    if text == "" {
      PoppingIsWritable(ops, out, ' ');
    } else {
      var c := text[0];
      PoppingIsWritable(ops, out, c);
      if c == ' ' {
        OutputIsWritable(text[1..], ops, out, cap);
      } else if IsDigit(c) {
        var n := DigitRun(text);
        WritableJoin(out, text[..n]);
        WritableJoin(out + text[..n], " ");
        OutputIsWritable(text[n..], ops, out + text[..n] + " ", cap);
      } else if c == '(' {
        WritableJoin(ops, [c]);
        OutputIsWritable(text[1..], Pushed(ops, c, cap), out, cap);
      } else if c == ')' {
        OutputIsWritable(text[1..], PopToParen(ops, out).0, PopToParen(ops, out).1, cap);
      } else {
        var (ops', out') := PopTighter(ops, out, c);
        WritableJoin(ops', [c]);
        OutputIsWritable(text[1..], Pushed(ops', c, cap), out', cap);
      }
    }
  }

  /** The last character written is a separator. */
  predicate EndsInSpace(out: string) {
    out == "" || Last(out) == ' '
  }

  lemma {:induction false} PoppingEndsInSpace(ops: seq<char>, out: string, cur: char)
    requires EndsInSpace(out)
    ensures EndsInSpace(PopToParen(ops, out).1) && EndsInSpace(PopTighter(ops, out, cur).1) && EndsInSpace(PopAll(ops, out))
    decreases |ops|
  {
    if ops != [] {
      PoppingEndsInSpace(Init(ops), out + [Last(ops), ' '], cur);
    }
  }

  lemma {:induction false} OutputEndsInSpace(text: string, ops: seq<char>, out: string, cap: nat)
    requires EndsInSpace(out) && Translation(text, ops, out, cap).Some?
    ensures EndsInSpace(Translation(text, ops, out, cap).value)
    decreases |text|
  {
    if text == "" {
      PoppingEndsInSpace(ops, out, ' ');
    } else {
      var c := text[0];
      PoppingEndsInSpace(ops, out, c);
      if c == ' ' {
        OutputEndsInSpace(text[1..], ops, out, cap);
      } else if IsDigit(c) {
        var n := DigitRun(text);
        OutputEndsInSpace(text[n..], ops, out + text[..n] + " ", cap);
      } else if c == '(' {
        OutputEndsInSpace(text[1..], Pushed(ops, c, cap), out, cap);
      } else if c == ')' {
        OutputEndsInSpace(text[1..], PopToParen(ops, out).0, PopToParen(ops, out).1, cap);
      } else {
        var (ops', out') := PopTighter(ops, out, c);
        OutputEndsInSpace(text[1..], Pushed(ops', c, cap), out', cap);
      }
    }
  }

  /** In such a text the evaluator is stopped by a parenthesis and nothing else. */
  lemma UnknownIsParen(out: string)
    requires Writable(out) && EndsInSpace(out)
    ensures var text := WithoutLastSpace(out); FirstUnknown(text) < |text| <==> '(' in out
  {
    var text := WithoutLastSpace(out);
    if out != "" {
      assert out == text + " ";
    }
    var k := FirstUnknown(text);
    if k < |text| {
      assert text[k] in out;
    }
    if i :| 0 <= i < |out| && out[i] == '(' {
      assert i < |text| && text[i] == '(' && !Known('(');
    }
  }

  /** A line without unknown characters makes the evaluator run for ever exactly when it leaves a
      parenthesis open and what goes out before the first of these raises no error. */
  lemma StallsExactly(line: string)
    requires |line| < LINE_SIZE && AllReadable(line)
    ensures Translation(line, [], "", STACKSIZE_05TEST).Some?
    ensures var text := WithoutLastSpace(Translation(line, [], "", STACKSIZE_05TEST).value);
            LineStalls(line) <==>
            Unclosed(line, 0) > 0 && Rpn(text[..FirstUnknown(text)], [], STACKSIZE_05TEST).code !in {-2, -3, -4}
  {
    ShortTextsFit(line, [], STACKSIZE_05TEST);
    ParenWrittenExactly(line, [], "", STACKSIZE_05TEST);
    OutputIsWritable(line, [], "", STACKSIZE_05TEST);
    OutputEndsInSpace(line, [], "", STACKSIZE_05TEST);
    hide Translation, Rpn, Unclosed;
    UnknownIsParen(Translation(line, [], "", STACKSIZE_05TEST).value);
  }

  // ---------- the programs ----------

  method StringLength(a: array<char>, ghost text: string) returns (len: nat)
    requires HoldsString(a, text)
    ensures len == |text|
  {
    len := 0;
    assert forall i | 0 <= i < |text| :: a[..|text|][i] == text[i] && text[i] in text;
    while a[len] != '\0'
      invariant len <= |text|
      decreases |text| - len
    {
      len := len + 1;
    }
  }

  /** What a program does with a line: the code it ends with, and the number it prints, if any. */
  predicate Answers(line: string, cap: nat, code: int, printed: Option<int>) {
    match Calculated(line, cap)
    case None => code == -1 && printed == None
    case Some(outcome) => code == 0 && printed == if outcome.code == 0 then outcome.stored else None
  }

  /** The program of stack/05test, on every line on which it neither leaves its buffer nor runs for ever. */
  method Calculate(infix: string) returns (code: int, printed: Option<int>)
    requires |infix| < 32 && '\0' !in infix
    requires LineCells(infix, 32) <= 32 && !WritesNothing(infix, 0, 32)
    requires !LineStalls(infix)
    ensures Answers(infix, 32, code, printed)
    ensures forall e | WellFormed(e) && Text(e) == infix :: code == 0 && printed == Value(e)
  {
    StaysInsideExactly(infix);
    forall e | WellFormed(e) && Text(e) == infix
      ensures Calculated(infix, STACKSIZE_05TEST) == Some(Expected(e))
    {
      LinesFitTheStacks(e);
    }
    var postfix := new char[LINE_SIZE];
    var ret;
    ghost var cells;
    ret, cells := InfixToPostfix(infix, postfix, STACKSIZE_05TEST);
    if ret != 0 {
      return -1, None;
    }
    ghost var text := WithoutLastSpace(Translation(infix, [], "", STACKSIZE_05TEST).value);
    var len := StringLength(postfix, text);
    ZeroIsStored(text, [], STACKSIZE_05TEST);
    var result;
    ghost var turns;
    ret, result, turns := Repolish05(postfix[..len], 0, STACKSIZE_05TEST);
    code, printed := 0, if ret == 0 then Some(result) else None;
  }

  /** A well-formed line that stays inside the buffer is such a line. */
  lemma WellFormedIsCalculated(e: Expr)
    requires WellFormed(e) && |Text(e)| < LINE_SIZE
    ensures '\0' !in Text(e) && !WritesNothing(Text(e), 0, STACKSIZE_05TEST) && !LineStalls(Text(e))
  {
    NoNulInText(e);
    PeaksByLength(e);
    CellsExactly(e, STACKSIZE_05TEST);
    LinesFitTheStacks(e);
    TranslatesToPostfix(e, STACKSIZE_05TEST);
    UnknownExactly(WithoutLastSpace(Postfix(e)), [], STACKSIZE_05TEST);
  }

  /** The program of stack/04repolish, whose evaluator always comes back. */
  method CalculateSmall(infix: string) returns (code: int, printed: Option<int>)
    requires |infix| < 32 && '\0' !in infix
    requires CellsWritten(infix, [], "", 6) <= 32 && !WritesNothing(infix, 0, 6)
    ensures Answers(infix, 6, code, printed)
  {
    var postfix := new char[LINE_SIZE];
    var ret;
    ghost var cells;
    ret, cells := InfixToPostfix(infix, postfix, STACKSIZE_04REPOLISH);
    if ret != 0 {
      return -1, None;
    }
    ghost var text := WithoutLastSpace(Translation(infix, [], "", STACKSIZE_04REPOLISH).value);
    var len := StringLength(postfix, text);
    ZeroIsStored(text, [], STACKSIZE_04REPOLISH);
    var result;
    ret, result := Repolish04(postfix[..len], 0, STACKSIZE_04REPOLISH);
    code, printed := 0, if ret == 0 then Some(result) else None;
  }
}
