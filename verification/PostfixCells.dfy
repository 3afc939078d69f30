/** How much of the postfix buffer the translator uses, read off any text: well-formed or not, with
    or without characters it does not know. */
module PostfixCells {
  import opened Options
  import opened Infix
  import opened BoundedStack
  import opened Translator

  /** The operators on a stack, without the parentheses. */
  function Waiting(ops: seq<char>): seq<char> {
    if ops == [] then [] else Waiting(Init(ops)) + if Last(ops) == '(' then [] else [Last(ops)]
  }

  /** The parentheses on it. */
  function Opens(ops: seq<char>): nat {
    if ops == [] then 0 else Opens(Init(ops)) + if Last(ops) == '(' then 1 else 0
  }

  lemma {:induction false} WaitingAndOpens(ops: seq<char>)
    ensures |Waiting(ops)| + Opens(ops) == |ops|
  {
    if ops != [] {
      WaitingAndOpens(Init(ops));
    }
  }

  lemma PushedOn(ops: seq<char>, c: char)
    ensures Waiting(ops + [c]) == Waiting(ops) + if c == '(' then [] else [c]
    ensures Opens(ops + [c]) == Opens(ops) + if c == '(' then 1 else 0
  {
    assert Init(ops + [c]) == ops && Last(ops + [c]) == c;
  }

  /** A character that has a branch in the translator. */
  predicate Readable(c: char) {
    c == ' ' || IsDigit(c) || c == '(' || c == ')' || IsOperator(c)
  }

  predicate AllReadable(text: string) {
    forall c <- text :: Readable(c)
  }

  lemma ReadableTail(text: string, n: nat)
    requires AllReadable(text) && n <= |text|
    ensures AllReadable(text[n..])
    ensures 0 < |text| ==> Readable(text[0])
  {
  }

  /** One cell for every digit and number, two for every operator. */
  function TextCells(text: string): nat
    decreases |text|
  {
    if text == "" then 0
    else if IsDigit(text[0]) then DigitRun(text) + 1 + TextCells(text[DigitRun(text)..])
    else (if IsOperator(text[0]) then 2 else 0) + TextCells(text[1..])
  }

  /** Some operator is read while the stack is full and releases nothing: its push is lost. */
  predicate LosesOperator(text: string, ops: seq<char>, cap: nat)
    decreases |text|
  {
    text != "" &&
    var c := text[0];
    if c == ' ' then LosesOperator(text[1..], ops, cap)
    else if IsDigit(c) then LosesOperator(text[DigitRun(text)..], ops, cap)
    else if c == '(' then LosesOperator(text[1..], Pushed(ops, c, cap), cap)
    else if c == ')' then LosesOperator(text[1..], PopToParen(ops, "").0, cap)
    else if IsOperator(c) then
      var ops' := PopTighter(ops, "", c).0;
      |ops'| >= cap || LosesOperator(text[1..], ops' + [c], cap)
    else false
  }

  // ---------- what popping does ----------

  lemma {:induction false} StackAfterPopping(ops: seq<char>, out1: string, out2: string, cur: char)
    ensures PopToParen(ops, out1).0 == PopToParen(ops, out2).0
    ensures PopTighter(ops, out1, cur).0 == PopTighter(ops, out2, cur).0
  {
    if ops != [] {
      StackAfterPopping(Init(ops), out1 + [Last(ops), ' '], out2 + [Last(ops), ' '], cur);
    }
  }

  lemma {:induction false} PopToParenCells(ops: seq<char>, out: string)
    ensures var (ops', out') := PopToParen(ops, out);
            && |out'| + 2 * |Waiting(ops')| == |out| + 2 * |Waiting(ops)|
            && Opens(ops') == (if Opens(ops) == 0 then 0 else Opens(ops) - 1)
            && |ops'| <= |ops|
  {
    if ops != [] {
      if Last(ops) != '(' {
        PopToParenCells(Init(ops), out + [Last(ops), ' ']);
      }
    }
  }

  lemma {:induction false} PopTighterCells(ops: seq<char>, out: string, cur: char)
    requires IsOperator(cur)
    ensures var (ops', out') := PopTighter(ops, out, cur);
            && |out'| + 2 * |Waiting(ops')| == |out| + 2 * |Waiting(ops)|
            && Opens(ops') == Opens(ops) && |ops'| <= |ops|
  {
    if ops != [] && Priority(Last(ops)) >= Priority(cur) {
      PopTighterCells(Init(ops), out + [Last(ops), ' '], cur);
    }
  }

  lemma {:induction false} UnclosedGrows(text: string, open1: nat, open2: nat)
    requires open1 <= open2
    ensures Unclosed(text, open1) <= Unclosed(text, open2)
  {
    if text != "" {
      var c := text[0];
      if c == '(' {
        UnclosedGrows(text[1..], open1 + 1, open2 + 1);
      } else if c == ')' {
        UnclosedGrows(text[1..], if open1 == 0 then 0 else open1 - 1, if open2 == 0 then 0 else open2 - 1);
      } else {
        UnclosedGrows(text[1..], open1, open2);
      }
    }
  }

  lemma {:induction false} UnclosedSkipsDigits(text: string, n: nat, open: nat)
    requires n <= DigitRun(text)
    ensures Unclosed(text, open) == Unclosed(text[n..], open)
  {
    hide DigitRun;
    if n == 0 {
      assert text[0..] == text;
    } else {
      DigitRunStep(text);
      UnclosedSkipsDigits(text[1..], n - 1, open);
      assert text[1..][n - 1..] == text[n..];
    }
  }

  // ---------- the cells of a text ----------

  function CellsDue(text: string, ops: seq<char>, out: string): nat {
    |out| + 2 * |Waiting(ops)| + TextCells(text) + 2 * Unclosed(text, Opens(ops))
  }

  /** Every readable text takes at most one cell for every digit and number and two for every operator
      and every parenthesis left open; two fewer when an operator is lost, and exactly as many when
      no push is. */
  lemma {:induction false} CellsOfText(text: string, ops: seq<char>, out: string, cap: nat)
    requires AllReadable(text)
    ensures CellsWritten(text, ops, out, cap) <= CellsDue(text, ops, out)
    ensures LosesOperator(text, ops, cap) ==> CellsWritten(text, ops, out, cap) + 2 <= CellsDue(text, ops, out)
    ensures Fits(text, ops, cap) && |ops| <= cap ==> CellsWritten(text, ops, out, cap) == CellsDue(text, ops, out)
    decreases |text|
  {
    if text == "" {
      PopAllLength(ops, out);
      WaitingAndOpens(ops);
    } else {
      var c := text[0];
      ReadableTail(text, 1);
      if IsDigit(c) {
        NumberCells(text, ops, out, cap);
      } else if c == '(' {
        PushedOn(ops, c);
        UnclosedGrows(text[1..], Opens(ops), Opens(ops) + 1);
        CellsOfText(text[1..], Pushed(ops, c, cap), out, cap);
      } else if c == ')' {
        PopToParenCells(ops, out);
        StackAfterPopping(ops, out, "", c);
        CellsOfText(text[1..], PopToParen(ops, out).0, PopToParen(ops, out).1, cap);
      } else if c == ' ' {
        CellsOfText(text[1..], ops, out, cap);
      } else {
        OperatorCells(text, ops, out, cap);
      }
    }
  }

  lemma NumberCells(text: string, ops: seq<char>, out: string, cap: nat)
    requires AllReadable(text) && text != "" && IsDigit(text[0])
    ensures CellsWritten(text, ops, out, cap) <= CellsDue(text, ops, out)
    ensures LosesOperator(text, ops, cap) ==> CellsWritten(text, ops, out, cap) + 2 <= CellsDue(text, ops, out)
    ensures Fits(text, ops, cap) && |ops| <= cap ==> CellsWritten(text, ops, out, cap) == CellsDue(text, ops, out)
    decreases |text|, 0
  {
    hide Waiting, Opens, PopTighter, PopToParen, PopAll;
    var n := DigitRun(text);
    ReadableTail(text, n);
    UnclosedSkipsDigits(text, n, Opens(ops));
    CellsOfText(text[n..], ops, out + text[..n] + " ", cap);
  }

  lemma OperatorCells(text: string, ops: seq<char>, out: string, cap: nat)
    requires AllReadable(text) && text != "" && IsOperator(text[0])
    ensures CellsWritten(text, ops, out, cap) <= CellsDue(text, ops, out)
    ensures LosesOperator(text, ops, cap) ==> CellsWritten(text, ops, out, cap) + 2 <= CellsDue(text, ops, out)
    ensures Fits(text, ops, cap) && |ops| <= cap ==> CellsWritten(text, ops, out, cap) == CellsDue(text, ops, out)
    decreases |text|, 0
  {
    hide DigitRun, Waiting, Opens, PopTighter, PopToParen, PopAll;
    var c := text[0];
    var (ops', out') := PopTighter(ops, out, c);
    ReadableTail(text, 1);
    PopTighterCells(ops, out, c);
    StackAfterPopping(ops, out, "", c);
    PushedOn(ops', c);
    CellsOfText(text[1..], Pushed(ops', c, cap), out', cap);
  }

  // ---------- short lines ----------

  /** A text that is no longer than the room on the stack loses no push. */
  lemma {:induction false} ShortTextsFit(text: string, ops: seq<char>, cap: nat)
    requires |ops| + |text| <= cap
    ensures Fits(text, ops, cap)
    decreases |text|
  {
    if text != "" {
      var c := text[0];
      if c == ' ' {
        ShortTextsFit(text[1..], ops, cap);
      } else if IsDigit(c) {
        ShortTextsFit(text[DigitRun(text)..], ops, cap);
      } else if c == '(' {
        ShortTextsFit(text[1..], ops + [c], cap);
      } else if c == ')' {
        PopToParenCells(ops, "");
        ShortTextsFit(text[1..], PopToParen(ops, "").0, cap);
      } else if IsOperator(c) {
        PopTighterCells(ops, "", c);
        ShortTextsFit(text[1..], PopTighter(ops, "", c).0 + [c], cap);
      }
    }
  }

  // ---------- unknown characters ----------

  /** Where the first character stands that has no branch; at the end when there is none. */
  function FirstForeign(text: string): (k: nat)
    ensures k <= |text| && AllReadable(text[..k])
    ensures k < |text| ==> !Readable(text[k])
  {
    if text == "" || !Readable(text[0]) then 0
    else
      assert text[..1 + FirstForeign(text[1..])] == [text[0]] + text[1..][..FirstForeign(text[1..])];
      1 + FirstForeign(text[1..])
  }

  /** What a text leaves on the stack. */
  function StackLeft(text: string, ops: seq<char>, cap: nat): seq<char>
    decreases |text|
  {
    if text == "" then ops
    else
      var c := text[0];
      if c == ' ' then StackLeft(text[1..], ops, cap)
      else if IsDigit(c) then StackLeft(text[DigitRun(text)..], ops, cap)
      else if c == '(' then StackLeft(text[1..], Pushed(ops, c, cap), cap)
      else if c == ')' then StackLeft(text[1..], PopToParen(ops, "").0, cap)
      else if IsOperator(c) then StackLeft(text[1..], Pushed(PopTighter(ops, "", c).0, c, cap), cap)
      else ops
  }

  lemma SliceBefore(text: string, n: nat, k: nat)
    requires n <= k <= |text|
    ensures text[n..][..k - n] == text[..k][n..] && text[..k][..n] == text[..n]
    ensures 0 < k ==> text[..k][0] == text[0]
  {
  }

  lemma {:induction false} FirstForeignFrom(text: string, n: nat)
    requires n <= FirstForeign(text)
    ensures FirstForeign(text[n..]) == FirstForeign(text) - n
  {
    if n > 0 {
      FirstForeignFrom(text[1..], n - 1);
      assert text[1..][n - 1..] == text[n..];
    }
  }

  lemma {:induction false} DigitsAreReadable(text: string)
    ensures DigitRun(text) <= FirstForeign(text)
  {
    if text != "" && IsDigit(text[0]) {
      DigitsAreReadable(text[1..]);
    }
  }

  lemma PrefixRun(text: string, k: nat)
    requires DigitRun(text) <= k <= |text|
    ensures DigitRun(text[..k]) == DigitRun(text)
  {
    hide DigitRun;
    var n := DigitRun(text);
    assert text[..k] == text[..n] + text[n..k];
    assert forall c <- text[..n] :: exists i :: 0 <= i < n && text[i] == c;
    assert n < k ==> text[n..k][0] == text[n];
    DigitRunOfNumber(text[..n], text[n..k]);
  }

  /** At an unknown character the translator gives up, without what is still on its stack. */
  lemma {:induction false} CellsBeforeForeign(text: string, ops: seq<char>, out: string, cap: nat)
    requires FirstForeign(text) < |text|
    ensures var before := text[..FirstForeign(text)];
            CellsWritten(text, ops, out, cap) + 2 * |StackLeft(before, ops, cap)| == CellsWritten(before, ops, out, cap)
    decreases |text|
  {
    hide DigitRun;
    var c, k := text[0], FirstForeign(text);
    var n := if IsDigit(c) then DigitRun(text) else 1;
    if k == 0 {
      PopAllLength(ops, out);
    } else {
      DigitsAreReadable(text);
      SliceBefore(text, n, k);
      FirstForeignFrom(text, n);
      StackAfterPopping(ops, out, "", c);
      if c == ' ' {
        CellsBeforeForeign(text[1..], ops, out, cap);
      } else if IsDigit(c) {
        PrefixRun(text, k);
        CellsBeforeForeign(text[n..], ops, out + text[..n] + " ", cap);
      } else if c == '(' {
        CellsBeforeForeign(text[1..], Pushed(ops, c, cap), out, cap);
      } else if c == ')' {
        CellsBeforeForeign(text[1..], PopToParen(ops, out).0, PopToParen(ops, out).1, cap);
      } else {
        var (ops', out') := PopTighter(ops, out, c);
        CellsBeforeForeign(text[1..], Pushed(ops', c, cap), out', cap);
      }
    }
  }

  /** The cells any line takes, when no push is lost. */
  function LineCells(line: string, cap: nat): int {
    var before := line[..FirstForeign(line)];
    TextCells(before) + 2 * Unclosed(before, 0) -
    if before == line then 0 else 2 * |StackLeft(before, [], cap)|
  }

  lemma CellsOfLine(line: string, cap: nat)
    requires |line| <= cap
    ensures CellsWritten(line, [], "", cap) == LineCells(line, cap)
  {
    var k := FirstForeign(line);
    var before := line[..k];
    ShortTextsFit(before, [], cap);
    CellsOfText(before, [], "", cap);
    if k < |line| {
      CellsBeforeForeign(line, [], "", cap);
    } else {
      assert before == line;
    }
  }

  // ---------- parentheses in the output ----------

  lemma {:induction false} OpensAreThere(ops: seq<char>)
    ensures '(' in ops <==> Opens(ops) > 0
  {
    if ops != [] {
      OpensAreThere(Init(ops));
      assert ops == Init(ops) + [Last(ops)];
    }
  }

  lemma {:induction false} PoppingWritesNoParen(ops: seq<char>, out: string, cur: char)
    requires '(' !in out && IsOperator(cur)
    ensures '(' !in PopToParen(ops, out).1 && '(' !in PopTighter(ops, out, cur).1
    decreases |ops|
  {
    if ops != [] && Last(ops) != '(' {
      PoppingWritesNoParen(Init(ops), out + [Last(ops), ' '], cur);
    }
  }

  lemma {:induction false} FlushedParens(ops: seq<char>, out: string)
    ensures '(' in PopAll(ops, out) <==> '(' in out || '(' in ops
    decreases |ops|
  {
    if ops != [] {
      FlushedParens(Init(ops), out + [Last(ops), ' ']);
      assert ops == Init(ops) + [Last(ops)];
    }
  }

  /** When no push is lost, a parenthesis is written into the output exactly when one is left open. */
  lemma {:induction false} ParenWrittenExactly(text: string, ops: seq<char>, out: string, cap: nat)
    requires AllReadable(text) && Fits(text, ops, cap) && |ops| <= cap && '(' !in out
    ensures Translation(text, ops, out, cap).Some?
    ensures '(' in Translation(text, ops, out, cap).value <==> Unclosed(text, Opens(ops)) > 0
    decreases |text|
  {
    if text == "" {
      FlushedParens(ops, out);
      OpensAreThere(ops);
    } else {
      var c := text[0];
      ReadableTail(text, 1);
      StackAfterPopping(ops, out, "", c);
      if c == ' ' {
        ParenWrittenExactly(text[1..], ops, out, cap);
      } else if IsDigit(c) {
        var n := DigitRun(text);
        ReadableTail(text, n);
        UnclosedSkipsDigits(text, n, Opens(ops));
        assert forall x <- text[..n] :: IsDigit(x);
        ParenWrittenExactly(text[n..], ops, out + text[..n] + " ", cap);
      } else if c == '(' {
        PushedOn(ops, c);
        ParenWrittenExactly(text[1..], ops + [c], out, cap);
      } else if c == ')' {
        PopToParenCells(ops, out);
        PoppingWritesNoParen(ops, out, '+');
        ParenWrittenExactly(text[1..], PopToParen(ops, out).0, PopToParen(ops, out).1, cap);
      } else {
        var (ops', out') := PopTighter(ops, out, c);
        PopTighterCells(ops, out, c);
        PoppingWritesNoParen(ops, out, c);
        PushedOn(ops', c);
        ParenWrittenExactly(text[1..], ops' + [c], out', cap);
      }
    }
  }
}
