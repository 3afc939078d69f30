/** The translator from infix to postfix text: what it computes, and the loop that computes it. */
module Translator {
  import opened Options
  import opened Infix
  import opened BoundedStack

  function Last<T>(s: seq<T>): T
    requires s != []
  {
    s[|s| - 1]
  }

  function Init<T>(s: seq<T>): seq<T>
    requires s != []
  {
    s[..|s| - 1]
  }

  /** Write out everything above the innermost '(' and drop that '('. */
  function PopToParen(ops: seq<char>, out: string): (seq<char>, string) {
    if ops == [] then (ops, out)
    else if Last(ops) == '(' then (Init(ops), out)
    else PopToParen(Init(ops), out + [Last(ops), ' '])
  }

  /** Write out the operators that bind at least as tightly as `cur`. */
  function PopTighter(ops: seq<char>, out: string, cur: char): (seq<char>, string) {
    if ops == [] || Priority(Last(ops)) < Priority(cur) then (ops, out)
    else PopTighter(Init(ops), out + [Last(ops), ' '], cur)
  }

  function PopAll(ops: seq<char>, out: string): string {
    if ops == [] then out else PopAll(Init(ops), out + [Last(ops), ' '])
  }

  /** What the main loop makes of the remaining `text`, with `ops` on the operator stack and
      `out` already written. None is the exit on an unknown character. */
  function Translation(text: string, ops: seq<char>, out: string, cap: nat): Option<string>
    decreases |text|
  {
    if text == "" then Some(PopAll(ops, out))
    else
      var c := text[0];
      if c == ' ' then Translation(text[1..], ops, out, cap)
      else if IsDigit(c) then
        var n := DigitRun(text);
        Translation(text[n..], ops, out + text[..n] + " ", cap)
      else if c == '(' then Translation(text[1..], Pushed(ops, c, cap), out, cap)
      else if c == ')' then
        var (ops', out') := PopToParen(ops, out);
        Translation(text[1..], ops', out', cap)
      else if IsOperator(c) then
        var (ops', out') := PopTighter(ops, out, c);
        Translation(text[1..], Pushed(ops', c, cap), out', cap)
      else None
  }

  /** No push made while translating `text` finds the operator stack at `cap`. */
  predicate Fits(text: string, ops: seq<char>, cap: nat)
    decreases |text|
  {
    text == "" ||
    var c := text[0];
    if c == ' ' then Fits(text[1..], ops, cap)
    else if IsDigit(c) then Fits(text[DigitRun(text)..], ops, cap)
    else if c == '(' then |ops| < cap && Fits(text[1..], ops + [c], cap)
    else if c == ')' then Fits(text[1..], PopToParen(ops, "").0, cap)
    else if IsOperator(c) then
      var ops' := PopTighter(ops, "", c).0;
      |ops'| < cap && Fits(text[1..], ops' + [c], cap)
    else true
  }

  /** How many cells of the postfix buffer are written, one after another from the first, by the time
      the translator stops, with or without an error. */
  function CellsWritten(text: string, ops: seq<char>, out: string, cap: nat): nat
    decreases |text|
  {
    if text == "" then |PopAll(ops, out)|
    else
      var c := text[0];
      if c == ' ' then CellsWritten(text[1..], ops, out, cap)
      else if IsDigit(c) then
        var n := DigitRun(text);
        CellsWritten(text[n..], ops, out + text[..n] + " ", cap)
      else if c == '(' then CellsWritten(text[1..], Pushed(ops, c, cap), out, cap)
      else if c == ')' then
        var (ops', out') := PopToParen(ops, out);
        CellsWritten(text[1..], ops', out', cap)
      else if IsOperator(c) then
        var (ops', out') := PopTighter(ops, out, c);
        CellsWritten(text[1..], Pushed(ops', c, cap), out', cap)
      else |out|
  }

  /** The array holds `text` as a NUL-terminated string. */
  ghost predicate HoldsString(a: array<char>, text: string)
    reads a
  {
    |text| < a.Length && a[..|text|] == text && a[|text|] == '\0' && '\0' !in text
  }

  /** The postfix text loses its last separator: the terminator is written over it. */
  function WithoutLastSpace(out: string): string {
    if out == "" then out else Init(out)
  }

  /** The translator rejects a text exactly when it holds a character that is no part of any
      expression, whatever the parentheses and the stack do. */
  lemma {:induction false} RejectsUnknownCharacters(text: string, ops: seq<char>, out: string, cap: nat)
    ensures Translation(text, ops, out, cap).None? <==>
            exists c <- text :: c != ' ' && !IsDigit(c) && c !in "()" && !IsOperator(c)
    decreases |text|
  {
    if text != "" {
      var c := text[0];
      var n := if IsDigit(c) then DigitRun(text) else 1;
      assert text == text[..n] + text[n..];
      if c == ' ' {
        RejectsUnknownCharacters(text[1..], ops, out, cap);
      } else if IsDigit(c) {
        RejectsUnknownCharacters(text[n..], ops, out + text[..n] + " ", cap);
      } else if c == '(' {
        RejectsUnknownCharacters(text[1..], Pushed(ops, c, cap), out, cap);
      } else if c == ')' {
        RejectsUnknownCharacters(text[1..], PopToParen(ops, out).0, PopToParen(ops, out).1, cap);
      } else if IsOperator(c) {
        var (ops', out') := PopTighter(ops, out, c);
        RejectsUnknownCharacters(text[1..], Pushed(ops', c, cap), out', cap);
      }
    }
  }

  lemma {:induction false} PopToNoParen(ops: seq<char>, out: string)
    requires '(' !in ops
    ensures PopToParen(ops, out) == ([], PopAll(ops, out))
  {
    if ops != [] {
      PopToNoParen(Init(ops), out + [Last(ops), ' ']);
    }
  }

  /** A closing parenthesis without an open one ends what is before it: the rest is translated as if it
      stood behind a finished text. */
  lemma StrayCloseIsEnd(rest: string, ops: seq<char>, out: string, cap: nat)
    requires '(' !in ops
    ensures Translation(")" + rest, ops, out, cap) == Translation(rest, [], Translation("", ops, out, cap).value, cap)
  {
    PopToNoParen(ops, out);
    assert (")" + rest)[1..] == rest;
    hide PopToParen, PopAll;
  }

  /** Without an error they are the cells of the output. */
  lemma {:induction false} CellsAreOutput(text: string, ops: seq<char>, out: string, cap: nat)
    requires Translation(text, ops, out, cap).Some?
    ensures CellsWritten(text, ops, out, cap) == |Translation(text, ops, out, cap).value|
    decreases |text|
  {
    if text != "" {
      var c := text[0];
      if c == ' ' {
        CellsAreOutput(text[1..], ops, out, cap);
      } else if IsDigit(c) {
        var n := DigitRun(text);
        CellsAreOutput(text[n..], ops, out + text[..n] + " ", cap);
      } else if c == '(' {
        CellsAreOutput(text[1..], Pushed(ops, c, cap), out, cap);
      } else if c == ')' {
        CellsAreOutput(text[1..], PopToParen(ops, out).0, PopToParen(ops, out).1, cap);
      } else {
        var (ops', out') := PopTighter(ops, out, c);
        CellsAreOutput(text[1..], Pushed(ops', c, cap), out', cap);
      }
    }
  }

  /** Every character consumed or held on the stack accounts for at most two cells. */
  lemma {:induction false} CellsBound(text: string, ops: seq<char>, out: string, cap: nat)
    ensures |out| <= CellsWritten(text, ops, out, cap) <= |out| + 2 * |ops| + 2 * |text|
    decreases |text|
  {
    if text == "" {
      PopAllLength(ops, out);
    } else {
      var c := text[0];
      if c == ' ' {
        CellsBound(text[1..], ops, out, cap);
      } else if IsDigit(c) {
        var n := DigitRun(text);
        CellsBound(text[n..], ops, out + text[..n] + " ", cap);
      } else if c == '(' {
        CellsBound(text[1..], Pushed(ops, c, cap), out, cap);
      } else if c == ')' {
        PopToParenLength(ops, out);
        CellsBound(text[1..], PopToParen(ops, out).0, PopToParen(ops, out).1, cap);
      } else if IsOperator(c) {
        PopTighterLength(ops, out, c);
        var (ops', out') := PopTighter(ops, out, c);
        CellsBound(text[1..], Pushed(ops', c, cap), out', cap);
      }
    }
  }

  /** So the output, separators included, is at most twice as long as the input. */
  lemma OutputLength(text: string, cap: nat)
    ensures CellsWritten(text, [], "", cap) <= 2 * |text|
    ensures Translation(text, [], "", cap).Some? ==> |Translation(text, [], "", cap).value| <= 2 * |text|
  {
    CellsBound(text, [], "", cap);
    if Translation(text, [], "", cap).Some? {
      CellsAreOutput(text, [], "", cap);
    }
  }

  lemma PopAllLength(ops: seq<char>, out: string)
    ensures |PopAll(ops, out)| == |out| + 2 * |ops|
  {
  }

  lemma PopToParenLength(ops: seq<char>, out: string)
    ensures |out| <= |PopToParen(ops, out).1|
    ensures |PopToParen(ops, out).1| + 2 * |PopToParen(ops, out).0| <= |out| + 2 * |ops|
  {
  }

  lemma PopTighterLength(ops: seq<char>, out: string, cur: char)
    ensures |out| <= |PopTighter(ops, out, cur).1|
    ensures |PopTighter(ops, out, cur).1| + 2 * |PopTighter(ops, out, cur).0| == |out| + 2 * |ops|
  {
  }

  /** The translation writes no terminator of its own. */
  lemma {:induction false} NoNulWritten(text: string, ops: seq<char>, out: string, cap: nat)
    requires '\0' !in text && '\0' !in ops && '\0' !in out
    requires Translation(text, ops, out, cap).Some?
    ensures '\0' !in Translation(text, ops, out, cap).value
    decreases |text|
  {
    if text == "" {
      NoNulPopped(ops, out, ' ');
    } else {
      var c := text[0];
      NoNulPopped(ops, out, c);
      if c == ' ' {
        NoNulWritten(text[1..], ops, out, cap);
      } else if IsDigit(c) {
        var n := DigitRun(text);
        NoNulWritten(text[n..], ops, out + text[..n] + " ", cap);
      } else if c == '(' {
        NoNulWritten(text[1..], Pushed(ops, c, cap), out, cap);
      } else if c == ')' {
        NoNulWritten(text[1..], PopToParen(ops, out).0, PopToParen(ops, out).1, cap);
      } else {
        var (ops', out') := PopTighter(ops, out, c);
        NoNulWritten(text[1..], Pushed(ops', c, cap), out', cap);
      }
    }
  }

  lemma {:induction false} NoNulPopped(ops: seq<char>, out: string, cur: char)
    requires '\0' !in ops && '\0' !in out
    ensures '\0' !in PopToParen(ops, out).0 && '\0' !in PopToParen(ops, out).1
    ensures '\0' !in PopTighter(ops, out, cur).0 && '\0' !in PopTighter(ops, out, cur).1
    ensures '\0' !in PopAll(ops, out)
    decreases |ops|
  {
    if ops != [] {
      NoNulPopped(Init(ops), out + [Last(ops), ' '], cur);
    }
  }

  // ---------- texts that write nothing ----------

  /** Nothing but spaces and parentheses, each open one closed; an operator only where the stack is
      full of parentheses, so that its push is lost. `open` parentheses wait on the stack. */
  predicate WritesNothing(text: string, open: nat, cap: nat) {
    if text == "" then open == 0
    else if text[0] == ' ' then WritesNothing(text[1..], open, cap)
    else if text[0] == '(' then WritesNothing(text[1..], if open < cap then open + 1 else open, cap)
    else if text[0] == ')' then WritesNothing(text[1..], if open == 0 then 0 else open - 1, cap)
    else IsOperator(text[0]) && open >= cap && WritesNothing(text[1..], open, cap)
  }

  /** Something has been written, or an operator waits to be. */
  ghost predicate HasOutput(ops: seq<char>, out: string) {
    out != "" || exists c <- ops :: c != '('
  }

  lemma LastOrRest(ops: seq<char>, out: string)
    requires ops != [] && HasOutput(ops, out)
    ensures Last(ops) == '(' ==> HasOutput(Init(ops), out)
  {
    if out == "" {
      var c :| c in ops && c != '(';
      assert ops == Init(ops) + [Last(ops)];
    }
  }

  lemma {:induction false} PoppingKeepsOutput(ops: seq<char>, out: string, cur: char)
    requires HasOutput(ops, out)
    ensures HasOutput(PopToParen(ops, out).0, PopToParen(ops, out).1)
    ensures HasOutput(PopTighter(ops, out, cur).0, PopTighter(ops, out, cur).1)
    ensures PopAll(ops, out) != ""
    decreases |ops|
  {
    if ops != [] {
      LastOrRest(ops, out);
      PoppingKeepsOutput(Init(ops), out + [Last(ops), ' '], cur);
    }
  }

  lemma PushKeepsOutput(ops: seq<char>, out: string, c: char, cap: nat)
    requires HasOutput(ops, out) || (|ops| < cap && c != '(')
    ensures HasOutput(Pushed(ops, c, cap), out)
  {
    if |ops| < cap {
      assert c in ops + [c];
      assert forall x <- ops :: x in ops + [c];
    }
  }

  lemma {:induction false} OutputStays(text: string, ops: seq<char>, out: string, cap: nat)
    requires HasOutput(ops, out)
    ensures Translation(text, ops, out, cap) != Some("")
    decreases |text|
  {
    if text == "" {
      PoppingKeepsOutput(ops, out, ' ');
    } else {
      var c := text[0];
      PoppingKeepsOutput(ops, out, c);
      if c == ' ' {
        OutputStays(text[1..], ops, out, cap);
      } else if IsDigit(c) {
        var n := DigitRun(text);
        OutputStays(text[n..], ops, out + text[..n] + " ", cap);
      } else if c == '(' {
        PushKeepsOutput(ops, out, c, cap);
        OutputStays(text[1..], Pushed(ops, c, cap), out, cap);
      } else if c == ')' {
        OutputStays(text[1..], PopToParen(ops, out).0, PopToParen(ops, out).1, cap);
      } else if IsOperator(c) {
        var (ops', out') := PopTighter(ops, out, c);
        PushKeepsOutput(ops', out', c, cap);
        OutputStays(text[1..], Pushed(ops', c, cap), out', cap);
      }
    }
  }

  /** The translator writes nothing exactly on those texts; the terminator would then go to the
      place before the buffer. */
  lemma {:induction false} NothingWrittenExactly(text: string, ops: seq<char>, cap: nat)
    requires |ops| <= cap && forall c <- ops :: c == '('
    ensures Translation(text, ops, "", cap) == Some("") <==> WritesNothing(text, |ops|, cap)
    decreases |text|
  {
    if text == "" {
      if ops != [] {
        assert Last(ops) in ops;
        PopAllLength(ops, "");
      }
    } else {
      var c := text[0];
      if ops != [] {
        assert Last(ops) in ops;
      }
      if c == ' ' {
        NothingWrittenExactly(text[1..], ops, cap);
      } else if IsDigit(c) {
        var n := DigitRun(text);
        OutputStays(text[n..], ops, "" + text[..n] + " ", cap);
      } else if c == '(' {
        NothingWrittenExactly(text[1..], Pushed(ops, c, cap), cap);
      } else if c == ')' && ops == [] {
        NothingWrittenExactly(text[1..], [], cap);
      } else if c == ')' {
        assert forall x <- Init(ops) :: x in ops;
        NothingWrittenExactly(text[1..], Init(ops), cap);
      } else if IsOperator(c) {
        if |ops| < cap {
          PushKeepsOutput(ops, "", c, cap);
          OutputStays(text[1..], Pushed(ops, c, cap), "", cap);
        } else {
          NothingWrittenExactly(text[1..], ops, cap);
        }
      }
    }
  }

  /** The open parentheses left at the end of a text. */
  function Unclosed(text: string, open: nat): nat {
    if text == "" then open
    else if text[0] == '(' then Unclosed(text[1..], open + 1)
    else if text[0] == ')' then Unclosed(text[1..], if open == 0 then 0 else open - 1)
    else Unclosed(text[1..], open)
  }

  /** When no push is lost: the texts of spaces and parentheses only, with every open one closed. */
  lemma {:induction false} OnlyClosedParentheses(text: string, ops: seq<char>, cap: nat)
    requires forall c <- ops :: c == '('
    requires Fits(text, ops, cap) && |ops| <= cap
    ensures WritesNothing(text, |ops|, cap) <==> (forall c <- text :: c in " ()") && Unclosed(text, |ops|) == 0
    decreases |text|
  {
    if text != "" {
      var c := text[0];
      assert text == [c] + text[1..];
      if ops != [] {
        assert Last(ops) in ops;
      }
      if c == ' ' {
        OnlyClosedParentheses(text[1..], ops, cap);
      } else if c == '(' {
        OnlyClosedParentheses(text[1..], ops + [c], cap);
      } else if c == ')' && ops == [] {
        OnlyClosedParentheses(text[1..], [], cap);
      } else if c == ')' {
        assert forall x <- Init(ops) :: x in ops;
        OnlyClosedParentheses(text[1..], Init(ops), cap);
      } else {
        assert c in text && c !in " ()";
      }
    }
  }

  lemma EmptyParentheses(cap: nat)
    ensures Translation("()", [], "", cap) == Some("") && Translation("   ", [], "", cap) == Some("")
  {
    NothingWrittenExactly("()", [], cap);
    NothingWrittenExactly("   ", [], cap);
    assert "()"[1..] == ")" && ")"[1..] == "";
    assert "   "[1..] == "  " && "  "[1..] == " " && " "[1..] == "";
  }

  // ---------- the loop ----------

  lemma DigitRunStep(text: string)
    ensures DigitRun(text) == if text == "" || !IsDigit(text[0]) then 0 else 1 + DigitRun(text[1..])
  {
  }

  lemma OneLonger(text: string, i0: nat, i: nat)
    requires i0 <= i < |text|
    ensures text[i0..i + 1] == text[i0..i] + [text[i]]
  {
  }

  /** Branch [1]: the digits of one number and the separator after it. */
  method CopyDigits(infix: string, i0: nat, postfix: array<char>, j0: nat) returns (i: nat, j: nat)
    requires i0 < |infix| && IsDigit(infix[i0])
    requires j0 + DigitRun(infix[i0..]) < postfix.Length
    modifies postfix
    ensures i == i0 + DigitRun(infix[i0..]) && i0 < i <= |infix|
    ensures j == j0 + i - i0 + 1
    ensures postfix[..j] == old(postfix[..j0]) + infix[i0..i] + " "
    ensures postfix[j..] == old(postfix[j..])
  {
    hide DigitRun;
    i, j := i0, j0;
    while i < |infix| && IsDigit(infix[i])
      invariant i0 <= i <= |infix| && j == j0 + i - i0
      invariant i == i0 ==> IsDigit(infix[i0])
      invariant i - i0 + DigitRun(infix[i..]) == DigitRun(infix[i0..])
      invariant postfix[..j] == old(postfix[..j0]) + infix[i0..i]
      invariant forall x | j <= x < postfix.Length :: postfix[x] == old(postfix[x])
    {
      assert infix[i..][1..] == infix[i + 1..];
      DigitRunStep(infix[i..]);
      ghost var out := postfix[..j];
      OneLonger(infix, i0, i);
      postfix[j] := infix[i];
      assert postfix[..j + 1] == out + [infix[i]];
      j, i := j + 1, i + 1;
    }
    DigitRunStep(infix[i..]);
    postfix[j] := ' ';
    j := j + 1;
  }

  /** One operator and the separator behind it. */
  method WriteOperator(postfix: array<char>, j0: nat, op: char) returns (j: nat)
    requires j0 + 2 <= postfix.Length
    modifies postfix
    ensures j == j0 + 2 && postfix[..j] == old(postfix[..j0]) + [op, ' ']
    ensures forall x | j <= x < postfix.Length :: postfix[x] == old(postfix[x])
  {
    j := j0;
    postfix[j] := op;
    j := j + 1;
    postfix[j] := ' ';
    j := j + 1;
  }

  /** Branch [3]: unwind to the matching parenthesis. */
  method CloseParen(opStack: Stack<char>, postfix: array<char>, j0: nat) returns (j: nat)
    requires opStack.Valid() && opStack.arr != postfix && j0 <= postfix.Length
    requires |PopToParen(opStack.Contents(), postfix[..j0]).1| <= postfix.Length
    modifies opStack`ind, postfix
    ensures opStack.Valid()
    ensures j0 <= j <= postfix.Length && postfix[j..] == old(postfix[j..])
    ensures (opStack.Contents(), postfix[..j]) == PopToParen(old(opStack.Contents()), old(postfix[..j0]))
  {
    j := j0;
    var op := '\0';
    while !opStack.IsEmpty()
      invariant opStack.Valid() && j0 <= j <= postfix.Length
      invariant forall x | j <= x < postfix.Length :: postfix[x] == old(postfix[x])
      invariant PopToParen(opStack.Contents(), postfix[..j]) == PopToParen(old(opStack.Contents()), old(postfix[..j0]))
      decreases opStack.ind
    {
      ghost var ops, out := opStack.Contents(), postfix[..j];
      var _, popped := opStack.Pop(op);
      op := popped;
      assert opStack.Contents() == Init(ops) && op == Last(ops);
      if op == '(' {
        break;
      }
      PopToParenLength(Init(ops), out + [op, ' ']);
      j := WriteOperator(postfix, j, op);
    }
  }

  /** Branch [4]: the operators that go out before `cur` goes in. The last one popped goes
      back when it binds less tightly. */
  method PopBefore(opStack: Stack<char>, postfix: array<char>, j0: nat, cur: char) returns (j: nat)
    requires opStack.Valid() && opStack.arr != postfix && j0 <= postfix.Length
    requires |PopTighter(opStack.Contents(), postfix[..j0], cur).1| <= postfix.Length
    modifies opStack`ind, opStack.arr, postfix
    ensures opStack.Valid()
    ensures j0 <= j <= postfix.Length && postfix[j..] == old(postfix[j..])
    ensures (opStack.Contents(), postfix[..j]) == PopTighter(old(opStack.Contents()), old(postfix[..j0]), cur)
  {
    j := j0;
    var topOp := '\0';
    while !opStack.IsEmpty()
      invariant opStack.Valid() && j0 <= j <= postfix.Length
      invariant forall x | j <= x < postfix.Length :: postfix[x] == old(postfix[x])
      invariant PopTighter(opStack.Contents(), postfix[..j], cur) ==
                PopTighter(old(opStack.Contents()), old(postfix[..j0]), cur)
      decreases opStack.ind
    {
      ghost var ops, out := opStack.Contents(), postfix[..j];
      var _, popped := opStack.Pop(topOp);
      topOp := popped;
      assert opStack.Contents() == Init(ops) && topOp == Last(ops);
      if Priority(topOp) < Priority(cur) {
        var _ := opStack.Push(topOp);
        assert opStack.Contents() == ops;
        break;
      }
      PopTighterLength(Init(ops), out + [topOp, ' '], cur);
      j := WriteOperator(postfix, j, topOp);
    }
  }

  /** After the main loop: whatever is left on the stack. */
  method Flush(opStack: Stack<char>, postfix: array<char>, j0: nat) returns (j: nat)
    requires opStack.Valid() && opStack.arr != postfix && j0 <= postfix.Length
    requires |PopAll(opStack.Contents(), postfix[..j0])| <= postfix.Length
    modifies opStack`ind, postfix
    ensures j0 <= j <= postfix.Length && postfix[j..] == old(postfix[j..])
    ensures postfix[..j] == PopAll(old(opStack.Contents()), old(postfix[..j0]))
  {
    j := j0;
    var op := '\0';
    while !opStack.IsEmpty()
      invariant opStack.Valid() && j0 <= j <= postfix.Length
      invariant forall x | j <= x < postfix.Length :: postfix[x] == old(postfix[x])
      invariant PopAll(opStack.Contents(), postfix[..j]) == PopAll(old(opStack.Contents()), old(postfix[..j0]))
      decreases opStack.ind
    {
      ghost var ops, out := opStack.Contents(), postfix[..j];
      var _, popped := opStack.Pop(op);
      op := popped;
      assert opStack.Contents() == Init(ops) && op == Last(ops);
      PopAllLength(Init(ops), out + [op, ' ']);
      j := WriteOperator(postfix, j, op);
    }
  }

  /** One turn of the main loop at a character other than a space. */
  method TranslateNext(infix: string, i0: nat, opStack: Stack<char>, postfix: array<char>, j0: nat)
    returns (known: bool, i: nat, j: nat)
    requires i0 < |infix| && infix[i0] != ' '
    requires opStack.Valid() && opStack.arr != postfix && j0 <= postfix.Length
    requires CellsWritten(infix[i0..], opStack.Contents(), postfix[..j0], opStack.arr.Length) <= postfix.Length
    modifies opStack`ind, opStack.arr, postfix
    ensures opStack.Valid() && i0 <= i <= |infix| && j0 <= j <= postfix.Length
    ensures known ==> i0 < i
    ensures var was := Translation(infix[i0..], old(opStack.Contents()), old(postfix[..j0]), opStack.arr.Length);
            if known then was == Translation(infix[i..], opStack.Contents(), postfix[..j], opStack.arr.Length)
            else was == None
    ensures var cells := CellsWritten(infix[i0..], old(opStack.Contents()), old(postfix[..j0]), opStack.arr.Length);
            if known then cells == CellsWritten(infix[i..], opStack.Contents(), postfix[..j], opStack.arr.Length)
            else cells == j
    ensures postfix[j..] == old(postfix[j..])
  {
    ghost var text, ops, out, cap := infix[i0..], opStack.Contents(), postfix[..j0], opStack.arr.Length;
    assert text[0] == infix[i0] && text[1..] == infix[i0 + 1..];
    known, i, j := true, i0 + 1, j0;
    if IsDigit(infix[i0]) {
      ghost var n := DigitRun(text);
      CellsBound(text[n..], ops, out + text[..n] + " ", cap);
      i, j := CopyDigits(infix, i0, postfix, j0);
      assert text[n..] == infix[i..] && text[..n] == infix[i0..i];
      assert opStack.Contents() == ops;
    } else if infix[i0] == '(' {
      var _ := opStack.Push(infix[i0]);
    } else if infix[i0] == ')' {
      CellsBound(text[1..], PopToParen(ops, out).0, PopToParen(ops, out).1, cap);
      j := CloseParen(opStack, postfix, j0);
    } else if IsOperator(infix[i0]) {
      ghost var popped := PopTighter(ops, out, infix[i0]);
      CellsBound(text[1..], Pushed(popped.0, infix[i0], cap), popped.1, cap);
      j := PopBefore(opStack, postfix, j0, infix[i0]);
      var _ := opStack.Push(infix[i0]);
    } else {
      known, i := false, i0;
    }
  }

  lemma TailUnchanged(was: string, before: string, after: string, j0: nat, j: nat)
    requires |was| == |before| == |after| && j0 <= j <= |was|
    requires was[j0..] == before[j0..] && before[j..] == after[j..]
    ensures was[j..] == after[j..]
  {
    assert was[j0..][j - j0..] == was[j..] && before[j0..][j - j0..] == before[j..];
  }

  /** `cells` counts the cells written: the first `cells` ones, and no other. */
  method InfixToPostfix(infix: string, postfix: array<char>, cap: nat) returns (ret: int, ghost cells: nat)
    requires '\0' !in infix
    // what is written fits, and something is, since the last separator is overwritten
    requires CellsWritten(infix, [], "", cap) <= postfix.Length
    requires !WritesNothing(infix, 0, cap)
    modifies postfix
    ensures Translation(infix, [], "", cap).None? ==> ret == -2
    ensures Translation(infix, [], "", cap).Some? ==>
              ret == 0 && HoldsString(postfix, WithoutLastSpace(Translation(infix, [], "", cap).value))
    ensures cells == CellsWritten(infix, [], "", cap) && postfix[cells..] == old(postfix[cells..])
  {
    var i: nat, j: nat := 0, 0;
    var opStack := new Stack<char>(cap);
    ghost var was := postfix[..];
    assert infix[0..] == infix;
    while i < |infix|
      invariant i <= |infix| && j <= postfix.Length
      invariant opStack.Valid() && fresh(opStack) && fresh(opStack.arr) && opStack.arr.Length == cap
      invariant Translation(infix[i..], opStack.Contents(), postfix[..j], cap) == Translation(infix, [], "", cap)
      invariant CellsWritten(infix[i..], opStack.Contents(), postfix[..j], cap) == CellsWritten(infix, [], "", cap)
      invariant postfix[j..] == was[j..]
      decreases |infix| - i
    {
      if infix[i] == ' ' {
        assert infix[i..][1..] == infix[i + 1..];
        i := i + 1;
        continue;
      }
      ghost var before, j0 := postfix[..], j;
      var known: bool;
      known, i, j := TranslateNext(infix, i, opStack, postfix, j);
      TailUnchanged(was, before, postfix[..], j0, j);
      if !known {
        return -2, j;
      }
    }
    NoNulWritten(infix, [], "", cap);
    NothingWrittenExactly(infix, [], cap);
    CellsAreOutput(infix, [], "", cap);
    ghost var out := PopAll(opStack.Contents(), postfix[..j]);
    ghost var before, j0 := postfix[..], j;
    j := Flush(opStack, postfix, j);
    TailUnchanged(was, before, postfix[..], j0, j);
    cells := j;
    postfix[j - 1] := '\0';
    assert postfix[..j - 1] == Init(out);
    return 0, cells;
  }
}
