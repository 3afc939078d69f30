/** When lost pushes do no harm: for which well-formed texts the translator writes the postfix form
    although its stack is too small. */
module LostPushes {
  import opened Options
  import opened Infix
  import opened BoundedStack
  import opened Translator
  import opened Evaluator
  import opened CompilerCorrectness
  import opened PostfixCells

  /** The text is read with the bounded stack `ops` beside a stack `ideal` that loses nothing. Losses
      are harmless when, at every number, the same operators wait on both: none has been lost, and
      none has gone out too early because the parenthesis in front of it was. */
  predicate Harmless(text: string, ops: seq<char>, ideal: seq<char>, cap: nat)
    decreases |text|
  {
    text == "" ||
    var c := text[0];
    if IsDigit(c) then Waiting(ops) == Waiting(ideal) && Harmless(text[DigitRun(text)..], ops, ideal, cap)
    else if c == '(' then Harmless(text[1..], Pushed(ops, c, cap), ideal + [c], cap)
    else if c == ')' then Harmless(text[1..], PopToParen(ops, "").0, PopToParen(ideal, "").0, cap)
    else if IsOperator(c) then
      Harmless(text[1..], Pushed(PopTighter(ops, "", c).0, c, cap), PopTighter(ideal, "", c).0 + [c], cap)
    else Harmless(text[1..], ops, ideal, cap)
  }

  // ---------- the bounded stack is the other one without some parentheses ----------

  /** `r` is `b` without some of its parentheses. */
  predicate Thinner(r: seq<char>, b: seq<char>) {
    if b == [] then r == []
    else if r != [] && Last(r) == Last(b) && Thinner(Init(r), Init(b)) then true
    else Last(b) == '(' && Thinner(r, Init(b))
  }

  lemma {:induction false} ThinnerCounts(r: seq<char>, b: seq<char>)
    requires Thinner(r, b)
    ensures Waiting(r) == Waiting(b) && Opens(r) <= Opens(b) && |r| <= |b|
  {
    if b != [] {
      if r != [] && Last(r) == Last(b) && Thinner(Init(r), Init(b)) {
        ThinnerCounts(Init(r), Init(b));
      } else {
        ThinnerCounts(r, Init(b));
      }
    }
  }

  lemma ThinnerPush(r: seq<char>, b: seq<char>, c: char)
    requires Thinner(r, b)
    ensures Thinner(r + [c], b + [c])
    ensures c == '(' ==> Thinner(r, b + [c])
  {
    assert Init(r + [c]) == r && Init(b + [c]) == b;
    if c == '(' && r != [] && Last(r) == c && Thinner(Init(r), b) {
      assert Thinner(r, b + [c]);
    }
  }

  lemma {:induction false} ThinnerExtend(r: seq<char>, b: seq<char>, w: seq<char>)
    requires Thinner(r, b) && Waiting(w) == []
    ensures Thinner(r, b + w)
    decreases |w|
  {
    if w == [] {
      assert b + w == b;
    } else {
      assert Last(w) == '(';
      ThinnerExtend(r, b, Init(w));
      ThinnerPush(r, b + Init(w), '(');
      assert b + w == b + Init(w) + ['('];
    }
  }

  // ---------- what is written ----------

  /** The operators of a stack as they go out, from the top. */
  function WrittenOps(s: seq<char>): string {
    if s == [] then "" else (if Last(s) == '(' then "" else [Last(s), ' ']) + WrittenOps(Init(s))
  }

  lemma {:induction false} WrittenOpsJoin(a: seq<char>, b: seq<char>)
    ensures WrittenOps(a + b) == WrittenOps(b) + WrittenOps(a)
    decreases |b|
  {
    if b == [] {
      assert a + b == a;
    } else {
      assert Init(a + b) == a + Init(b) && Last(a + b) == Last(b);
      WrittenOpsJoin(a, Init(b));
    }
  }

  lemma {:induction false} WaitingJoin(a: seq<char>, b: seq<char>)
    ensures Waiting(a + b) == Waiting(a) + Waiting(b)
    decreases |b|
  {
    if b == [] {
      assert a + b == a;
    } else {
      assert Init(a + b) == a + Init(b) && Last(a + b) == Last(b);
      WaitingJoin(a, Init(b));
    }
  }

  lemma {:induction false} WrittenOpsOfWaiting(s: seq<char>)
    ensures WrittenOps(s) == "" <==> Waiting(s) == []
    ensures WrittenOps(s) != "" ==> WrittenOps(s)[0] in s && WrittenOps(s)[0] != '('
  {
    if s != [] {
      WrittenOpsOfWaiting(Init(s));
      assert s == Init(s) + [Last(s)];
    }
  }

  /** Only operators and parentheses are on the stacks. */
  predicate Proper(s: seq<char>) {
    forall c <- s :: IsOperator(c) || c == '('
  }

  // ---------- a closing parenthesis ----------

  /** What goes out down to the innermost parenthesis, and what stays. */
  lemma {:induction false} ParenPopped(s: seq<char>, out: string) returns (u: seq<char>, y: seq<char>)
    ensures PopToParen(s, out) == (u, out + WrittenOps(y)) && '(' !in y
    ensures if '(' in s then s == u + ['('] + y else u == [] && y == s
    decreases |s|
  {
    if s == [] {
      u, y := [], [];
      assert out + "" == out;
    } else {
      assert s == Init(s) + [Last(s)];
      if Last(s) == '(' {
        u, y := Init(s), [];
        assert out + "" == out;
      } else {
        u, y := ParenPopped(Init(s), out + [Last(s), ' ']);
        assert Init(y + [Last(s)]) == y && Last(y + [Last(s)]) == Last(s);
        assert out + [Last(s), ' '] + WrittenOps(y) == out + ([Last(s), ' '] + WrittenOps(y));
        y := y + [Last(s)];
      }
    }
  }

  /** The bounded stack releases at least as much: down to some parenthesis that it still has. */
  lemma {:induction false} ThinParenPopped(r: seq<char>, b: seq<char>, out: string) returns (b': seq<char>, x: seq<char>)
    requires Thinner(r, b)
    ensures b == b' + x && Thinner(PopToParen(r, out).0, b')
    ensures PopToParen(r, out).1 == out + WrittenOps(x)
    ensures b' != [] ==> '(' in x
    decreases |b|
  {
    hide WrittenOps;
    NothingWritten(out);
    if b == [] {
      b', x := [], [];
    } else {
      var c := Last(b);
      assert b == Init(b) + [c];
      if r != [] && Last(r) == c && Thinner(Init(r), Init(b)) {
        if c == '(' {
          b', x := Init(b), [c];
          OneDropped([], out);
          assert [] + [c] == [c];
        } else {
          b', x := ThinParenPopped(Init(r), Init(b), out + [c, ' ']);
          OnePopped(x, c, out);
          x := x + [c];
        }
      } else {
        b', x := ThinParenPopped(r, Init(b), out);
        OneDropped(x, out);
        x := x + [c];
      }
    }
  }

  lemma OneDropped(x: seq<char>, out: string)
    ensures out + WrittenOps(x) == out + WrittenOps(x + ['('])
  {
    WrittenOpsJoin(x, ['(']);
    assert WrittenOps(['(']) == "" && "" + WrittenOps(x) == WrittenOps(x);
  }

  lemma NothingWritten(out: string)
    ensures out + WrittenOps([]) == out
  {
  }

  lemma OnePopped(x: seq<char>, c: char, out: string)
    requires c != '('
    ensures out + [c, ' '] + WrittenOps(x) == out + WrittenOps(x + [c])
  {
    WrittenOpsJoin(x, [c]);
    assert WrittenOps([c]) == [c, ' '] + "";
  }

  // ---------- an operator ----------

  lemma {:induction false} TighterPopped(s: seq<char>, out: string, cur: char) returns (u: seq<char>, y: seq<char>)
    requires IsOperator(cur)
    ensures s == u + y && PopTighter(s, out, cur) == (u, out + WrittenOps(y))
    ensures u == [] || Priority(Last(u)) < Priority(cur)
    ensures forall c <- y :: Priority(c) >= Priority(cur)
    decreases |s|
  {
    if s == [] || Priority(Last(s)) < Priority(cur) {
      u, y := s, [];
      assert out + "" == out;
    } else {
      u, y := TighterPopped(Init(s), out + [Last(s), ' '], cur);
      OnePopped(y, Last(s), out);
      assert s == Init(s) + [Last(s)];
      y := y + [Last(s)];
    }
  }

  lemma {:induction false} ThinTighterPopped(r: seq<char>, b: seq<char>, out: string, cur: char)
    returns (b': seq<char>, x: seq<char>)
    requires Thinner(r, b) && IsOperator(cur)
    ensures b == b' + x && Thinner(PopTighter(r, out, cur).0, b')
    ensures PopTighter(r, out, cur).1 == out + WrittenOps(x)
    ensures b' == [] || Priority(Last(b')) < Priority(cur)
    decreases |b|
  {
    hide WrittenOps;
    NothingWritten(out);
    if b == [] {
      b', x := [], [];
    } else {
      var c := Last(b);
      assert b == Init(b) + [c];
      if r != [] && Last(r) == c && Thinner(Init(r), Init(b)) {
        if Priority(c) < Priority(cur) {
          b', x := b, [];
          assert b + [] == b;
        } else {
          b', x := ThinTighterPopped(Init(r), Init(b), out + [c, ' '], cur);
          OnePopped(x, c, out);
          x := x + [c];
        }
      } else {
        b', x := ThinTighterPopped(r, Init(b), out, cur);
        OneDropped(x, out);
        x := x + [c];
      }
    }
  }

  // ---------- the stacks after one character ----------

  lemma SamePlace(b: seq<char>, xa: seq<char>, u: seq<char>, y: seq<char>)
    requires b + xa == u + y && |y| <= |xa|
    ensures var w := xa[..|xa| - |y|]; xa == w + y && u == b + w
  {
    var s := b + xa;
    assert y == s[|u|..] && xa == s[|b|..];
    assert u == s[..|u|] && b == s[..|b|];
  }

  lemma AfterParen(s: seq<char>, u: seq<char>, y: seq<char>)
    requires s == u + ['('] + y && '(' !in y
    ensures s[|u|] == '(' && forall k | |u| < k < |s| :: s[k] != '('
    ensures u == s[..|u|] && y == s[|u| + 1..]
  {
    forall k | |u| < k < |s|
      ensures s[k] != '('
    {
      assert s[k] == y[k - |u| - 1];
    }
  }

  lemma LastParen(s: seq<char>, u': seq<char>, y': seq<char>, u: seq<char>, y: seq<char>)
    requires s == u' + ['('] + y' && s == u + ['('] + y && '(' !in y && '(' !in y'
    ensures u == u' && y == y'
  {
    AfterParen(s, u, y);
    AfterParen(s, u', y');
  }

  lemma WrittenAround(u: seq<char>, y: seq<char>, out: string)
    ensures out + WrittenOps(u + ['('] + y) == out + WrittenOps(y) + WrittenOps(u)
  {
    WrittenOpsJoin(u + ['('], y);
    WrittenOpsJoin(u, ['(']);
    assert WrittenOps(['(']) == "" && "" + WrittenOps(u) == WrittenOps(u);
  }

  lemma WrittenTwice(x: seq<char>, a: seq<char>, out: string)
    ensures out + WrittenOps(a) + WrittenOps(x) == out + WrittenOps(x + a)
  {
    WrittenOpsJoin(x, a);
  }

  /** `b + a` is the stack that loses nothing, `r` the bounded one, which has already written the
      operators of `a`; after a closing parenthesis they stand in the same relation. */
  lemma CloseRelated(r: seq<char>, b: seq<char>, a: seq<char>, out: string) returns (b': seq<char>, a': seq<char>)
    requires Thinner(r, b)
    ensures var (r', outr) := PopToParen(r, out + WrittenOps(a));
            var (ideal', outi) := PopToParen(b + a, out);
            Thinner(r', b') && ideal' == b' + a' && outr == outi + WrittenOps(a')
    ensures forall c <- b' + a' :: c in b + a
  {
    hide Thinner, WrittenOps, PopToParen;
    var x;
    b', x := ThinParenPopped(r, b, out + WrittenOps(a));
    var u, y := ParenPopped(b + a, out);
    WrittenTwice(x, a, out);
    assert b + a == b' + (x + a);
    if '(' in b + a {
      var u', y' := ParenPopped(x + a, out);
      assert '(' in x + a;
      assert b' + (u' + ['('] + y') == (b' + u') + ['('] + y';
      LastParen(b + a, b' + u', y', u, y);
      a' := u';
      WrittenAround(u', y, out);
    } else {
      assert b' == [] && x + a == y;
      a' := [];
      NothingWritten(out + WrittenOps(y));
    }
  }

  lemma OperatorRelated(r: seq<char>, b: seq<char>, a: seq<char>, out: string, c: char)
    returns (b': seq<char>, w: seq<char>)
    requires Thinner(r, b) && IsOperator(c)
    ensures var (r', outr) := PopTighter(r, out + WrittenOps(a), c);
            var (ideal', outi) := PopTighter(b + a, out, c);
            Thinner(r', b') && ideal' == b' + w && outr == outi + WrittenOps(w)
    ensures forall c <- b' + w :: c in b + a
  {
    hide Thinner, WrittenOps, PopTighter, Priority;
    var x;
    b', x := ThinTighterPopped(r, b, out + WrittenOps(a), c);
    var u, y := TighterPopped(b + a, out, c);
    WrittenTwice(x, a, out);
    assert b + a == b' + (x + a);
    assert forall k | |u| <= k < |b + a| :: (b + a)[k] == y[k - |u|];
    if b' != [] {
      assert (b + a)[|b'| - 1] == Last(b') && Last(b') !in y;
    }
    SamePlace(b', x + a, u, y);
    w := (x + a)[..|x + a| - |y|];
    WrittenTwice(w, y, out);
  }

  // ---------- the texts ----------

  /** A number comes next, after spaces and open parentheses at most. */
  predicate NumberNext(text: string) {
    text != "" && (IsDigit(text[0]) || ((text[0] == ' ' || text[0] == '(') && NumberNext(text[1..])))
  }

  /** Behind every operator and every open parenthesis a number comes next. */
  predicate Operands(text: string) {
    text == "" ||
    (Readable(text[0]) && (IsOperator(text[0]) || text[0] == '(' ==> NumberNext(text[1..])) && Operands(text[1..]))
  }

  lemma {:induction false} OperandsTail(text: string, n: nat)
    requires Operands(text) && n <= |text|
    ensures Operands(text[n..])
  {
    if n > 0 {
      OperandsTail(text[1..], n - 1);
      assert text[1..][n - 1..] == text[n..];
    }
  }

  lemma {:induction false} OperandsAreReadable(text: string)
    requires Operands(text)
    ensures AllReadable(text)
  {
    if text != "" {
      OperandsAreReadable(text[1..]);
      assert text == [text[0]] + text[1..];
    }
  }

  lemma ReadableIsTranslated(text: string, ops: seq<char>, out: string, cap: nat)
    requires AllReadable(text)
    ensures Translation(text, ops, out, cap).Some?
  {
    RejectsUnknownCharacters(text, ops, out, cap);
    assert "()"[0] == '(' && "()"[1] == ')';
  }

  /** What is written stays at the front of the output. */
  lemma {:induction false} OutputBegins(text: string, ops: seq<char>, out: string, cap: nat)
    requires Translation(text, ops, out, cap).Some?
    ensures out <= Translation(text, ops, out, cap).value
    decreases |text|
  {
    if text == "" {
      PopAllAppends(ops, out);
    } else {
      var c := text[0];
      if c == ' ' {
        OutputBegins(text[1..], ops, out, cap);
      } else if IsDigit(c) {
        var n := DigitRun(text);
        OutputBegins(text[n..], ops, out + text[..n] + " ", cap);
      } else if c == '(' {
        OutputBegins(text[1..], Pushed(ops, c, cap), out, cap);
      } else if c == ')' {
        var u, y := ParenPopped(ops, out);
        OutputBegins(text[1..], u, out + WrittenOps(y), cap);
      } else {
        var u, y := TighterPopped(ops, out, c);
        OutputBegins(text[1..], Pushed(u, c, cap), out + WrittenOps(y), cap);
      }
    }
  }

  // ---------- harm ----------

  lemma {:induction false} HarmShows(text: string, r: seq<char>, ideal: seq<char>, cap: nat)
    requires NumberNext(text) && Waiting(r) != Waiting(ideal)
    ensures !Harmless(text, r, ideal, cap)
  {
    if text[0] == '(' {
      PushedOn(r, '(');
      PushedOn(ideal, '(');
      assert Waiting(r) + [] == Waiting(r) && Waiting(ideal) + [] == Waiting(ideal);
      HarmShows(text[1..], Pushed(r, '(', cap), ideal + ['('], cap);
    } else if text[0] == ' ' {
      HarmShows(text[1..], r, ideal, cap);
    }
  }

  /** An operator that has gone out too early stands where a digit should. */
  lemma {:induction false} TooEarlyDiffers(text: string, r: seq<char>, ideal: seq<char>, early: string, out: string,
                                           cap: nat, room: nat)
    requires NumberNext(text) && AllReadable(text)
    requires early != "" && !IsDigit(early[0])
    ensures Translation(text, r, out + early, cap) != Translation(text, ideal, out, room)
  {
    ReadableTail(text, 1);
    if text[0] == '(' {
      TooEarlyDiffers(text[1..], Pushed(r, '(', cap), Pushed(ideal, '(', room), early, out, cap, room);
    } else if text[0] == ' ' {
      TooEarlyDiffers(text[1..], r, ideal, early, out, cap, room);
    } else {
      var n := DigitRun(text);
      ReadableTail(text, n);
      var next := out + text[..n] + " ";
      ReadableIsTranslated(text, r, out + early, cap);
      ReadableIsTranslated(text[n..], ideal, next, room);
      OutputBegins(text, r, out + early, cap);
      OutputBegins(text[n..], ideal, next, room);
      assert (out + early)[|out|] == early[0] && next[|out|] == text[0];
    }
  }

  /** A lost operator is missing in the end. */
  lemma LostDiffers(text: string, r: seq<char>, ideal: seq<char>, out: string, cap: nat, room: nat)
    requires AllReadable(text) && |ideal| + |text| <= room
    requires |Waiting(r)| < |Waiting(ideal)| && Opens(r) <= Opens(ideal)
    ensures Translation(text, r, out, cap) != Translation(text, ideal, out, room)
  {
    hide Translation, CellsWritten, Fits, LosesOperator, TextCells, Unclosed, Waiting, Opens;
    ReadableIsTranslated(text, r, out, cap);
    ReadableIsTranslated(text, ideal, out, room);
    ShortTextsFit(text, ideal, room);
    CellsOfText(text, r, out, cap);
    CellsOfText(text, ideal, out, room);
    UnclosedGrows(text, Opens(r), Opens(ideal));
    CellsAreOutput(text, r, out, cap);
    CellsAreOutput(text, ideal, out, room);
  }

  // ---------- the exact condition ----------

  /** The two stacks, and what both have written, in step but for the operators of `a`. */
  ghost predicate InStep(text: string, r: seq<char>, b: seq<char>, a: seq<char>, cap: nat, room: nat) {
    && Operands(text) && Thinner(r, b) && |r| <= cap && Proper(b + a)
    && |b + a| + |text| <= room && Unclosed(text, Opens(b + a)) == 0
  }

  /** The outputs agree exactly when the losses are harmless. */
  ghost predicate Agrees(text: string, r: seq<char>, b: seq<char>, a: seq<char>, out: string, cap: nat, room: nat) {
    Translation(text, r, out + WrittenOps(a), cap) == Translation(text, b + a, out, room) <==> Harmless(text, r, b + a, cap)
  }

  lemma EarlyAgrees(text: string, r: seq<char>, b: seq<char>, a: seq<char>, out: string, cap: nat, room: nat)
    requires InStep(text, r, b, a, cap, room) && NumberNext(text) && Waiting(a) != []
    ensures Agrees(text, r, b, a, out, cap, room)
  {
    ThinnerCounts(r, b);
    WaitingJoin(b, a);
    HarmShows(text, r, b + a, cap);
    WrittenOpsOfWaiting(a);
    assert WrittenOps(a)[0] in b + a;
    OperandsAreReadable(text);
    TooEarlyDiffers(text, r, b + a, WrittenOps(a), out, cap, room);
  }

  /** Without such operators `a` holds parentheses only, and belongs below. */
  lemma NothingEarly(r: seq<char>, b: seq<char>, a: seq<char>, out: string)
    requires Thinner(r, b) && Waiting(a) == []
    ensures Thinner(r, b + a) && b + a + [] == b + a && out + WrittenOps(a) == out + WrittenOps([]) == out
    ensures Waiting(r) == Waiting(b + a)
  {
    ThinnerExtend(r, b, a);
    ThinnerCounts(r, b + a);
    WrittenOpsOfWaiting(a);
  }

  lemma EndAgrees(r: seq<char>, b: seq<char>, a: seq<char>, out: string, cap: nat, room: nat)
    requires InStep("", r, b, a, cap, room)
    ensures Agrees("", r, b, a, out, cap, room)
  {
    OpensAreThere(b + a);
    ThinnerCounts(r, b);
    WaitingJoin(b, a);
    assert Opens(b) == 0 by {
      OpensAreThere(b);
      assert forall c <- b :: c in b + a;
    }
    OpensAreThere(r);
    ThinnerIsEqual(r, b);
    FlushedOps(r, out + WrittenOps(a));
    FlushedOps(b + a, out);
    WrittenTwice(b, a, out);
  }

  lemma {:induction false} ThinnerIsEqual(r: seq<char>, b: seq<char>)
    requires Thinner(r, b) && Opens(b) == 0
    ensures r == b
  {
    if b != [] {
      ThinnerIsEqual(Init(r), Init(b));
      assert r == Init(r) + [Last(r)] && b == Init(b) + [Last(b)];
    }
  }

  lemma {:induction false} FlushedOps(ops: seq<char>, out: string)
    requires '(' !in ops
    ensures PopAll(ops, out) == out + WrittenOps(ops)
    decreases |ops|
  {
    if ops == [] {
      assert out + "" == out;
    } else {
      FlushedOps(Init(ops), out + [Last(ops), ' ']);
      assert out + [Last(ops), ' '] + WrittenOps(Init(ops)) == out + ([Last(ops), ' '] + WrittenOps(Init(ops)));
    }
  }

  lemma {:induction false} HarmlessExactly(text: string, r: seq<char>, b: seq<char>, a: seq<char>, out: string,
                                           cap: nat, room: nat)
    requires InStep(text, r, b, a, cap, room)
    ensures Agrees(text, r, b, a, out, cap, room)
    decreases |text|, 1
  {
    if text == "" {
      EndAgrees(r, b, a, out, cap, room);
    } else if NumberNext(text) && Waiting(a) != [] {
      EarlyAgrees(text, r, b, a, out, cap, room);
    } else {
      var c := text[0];
      if IsDigit(c) {
        NumberAgrees(text, r, b, a, out, cap, room);
      } else if c == '(' {
        OpenAgrees(text, r, b, a, out, cap, room);
      } else if c == ')' {
        CloseAgrees(text, r, b, a, out, cap, room);
      } else if c == ' ' {
        HarmlessExactly(text[1..], r, b, a, out, cap, room);
      } else {
        OperatorAgrees(text, r, b, a, out, cap, room);
      }
    }
  }

  lemma NumberAgrees(text: string, r: seq<char>, b: seq<char>, a: seq<char>, out: string, cap: nat, room: nat)
    requires InStep(text, r, b, a, cap, room) && text != "" && IsDigit(text[0]) && Waiting(a) == []
    ensures Agrees(text, r, b, a, out, cap, room)
    decreases |text|, 0
  {
    var n := DigitRun(text);
    hide Thinner, Waiting, Opens, WrittenOps;
    NothingEarly(r, b, a, out);
    OperandsTail(text, n);
    UnclosedSkipsDigits(text, n, Opens(b + a));
    var next := out + text[..n] + " ";
    NothingWritten(next);
    HarmlessExactly(text[n..], r, b + a, [], next, cap, room);
  }

  lemma OpenAgrees(text: string, r: seq<char>, b: seq<char>, a: seq<char>, out: string, cap: nat, room: nat)
    requires InStep(text, r, b, a, cap, room) && text != "" && text[0] == '(' && Waiting(a) == []
    ensures Agrees(text, r, b, a, out, cap, room)
    decreases |text|, 0
  {
    hide Thinner, Waiting, Opens, WrittenOps;
    NothingEarly(r, b, a, out);
    ThinnerPush(r, b + a, '(');
    PushedOn(b + a, '(');
    assert b + a + ['('] + [] == b + a + ['('];
    HarmlessExactly(text[1..], Pushed(r, '(', cap), b + a + ['('], [], out, cap, room);
  }

  lemma CloseAgrees(text: string, r: seq<char>, b: seq<char>, a: seq<char>, out: string, cap: nat, room: nat)
    requires InStep(text, r, b, a, cap, room) && text != "" && text[0] == ')'
    ensures Agrees(text, r, b, a, out, cap, room)
    decreases |text|, 0
  {
    hide Thinner, Waiting, Opens, WrittenOps, PopToParen;
    var b', a' := CloseRelated(r, b, a, out);
    StackAfterPopping(r, out + WrittenOps(a), "", '+');
    StackAfterPopping(b + a, out, "", '+');
    PopToParenCells(b + a, out);
    PopToParenCells(r, out + WrittenOps(a));
    HarmlessExactly(text[1..], PopToParen(r, "").0, b', a', PopToParen(b + a, out).1, cap, room);
  }

  lemma OperatorAgrees(text: string, r: seq<char>, b: seq<char>, a: seq<char>, out: string, cap: nat, room: nat)
    requires InStep(text, r, b, a, cap, room) && text != "" && IsOperator(text[0])
    ensures Agrees(text, r, b, a, out, cap, room)
    decreases |text|, 0
  {
    hide Thinner, Waiting, Opens, WrittenOps, PopTighter;
    var c := text[0];
    var b', w := OperatorRelated(r, b, a, out, c);
    StackAfterPopping(r, out + WrittenOps(a), "", c);
    StackAfterPopping(b + a, out, "", c);
    PopTighterCells(b + a, out, c);
    PopTighterCells(r, out + WrittenOps(a), c);
    PushedOn(b' + w, c);
    PushAgrees(c, text[1..], PopTighter(r, "", c).0, b', w, PopTighter(b + a, out, c).1, cap, room);
  }

  /** After the pops: the operator goes on top, or is lost. */
  lemma PushAgrees(c: char, rest: string, r: seq<char>, b: seq<char>, w: seq<char>, out: string, cap: nat, room: nat)
    requires IsOperator(c) && Operands(rest) && NumberNext(rest)
    requires Thinner(r, b) && |r| <= cap && Proper(b + w)
    requires |b + w| + 1 + |rest| <= room && Unclosed(rest, Opens(b + w)) == 0
    ensures Translation(rest, Pushed(r, c, cap), out + WrittenOps(w), cap) == Translation(rest, b + w + [c], out, room) <==>
            Harmless(rest, Pushed(r, c, cap), b + w + [c], cap)
    decreases |rest|, 2
  {
    hide Thinner, Waiting, Opens, WrittenOps, Translation, Harmless, Unclosed;
    OperandsAreReadable(rest);
    ThinnerCounts(r, b);
    WaitingJoin(b, w);
    PushedOn(r, c);
    PushedOn(b + w, c);
    if Waiting(w) != [] {
      HarmShows(rest, Pushed(r, c, cap), b + w + [c], cap);
      WrittenOpsOfWaiting(w);
      assert WrittenOps(w)[0] in b + w;
      TooEarlyDiffers(rest, Pushed(r, c, cap), b + w + [c], WrittenOps(w), out, cap, room);
    } else {
      NothingEarly(r, b, w, out);
      ThinnerCounts(r, b + w);
      if |r| < cap {
        ThinnerPush(r, b + w, c);
        assert b + w + [c] + [] == b + w + [c];
        HarmlessExactly(rest, r + [c], b + w + [c], [], out, cap, room);
      } else {
        HarmShows(rest, r, b + w + [c], cap);
        LostDiffers(rest, r, b + w + [c], out, cap, room);
      }
    }
  }

  // ---------- well-formed texts ----------

  function OpenAfter(c: char, open: nat): nat {
    if c == '(' then open + 1 else if c != ')' || open == 0 then open else open - 1
  }

  lemma OperandsStep(c: char, rest: string)
    ensures Operands([c] + rest) <==>
            Readable(c) && (IsOperator(c) || c == '(' ==> NumberNext(rest)) && Operands(rest)
    ensures NumberNext([c] + rest) <==> IsDigit(c) || ((c == ' ' || c == '(') && NumberNext(rest))
    ensures forall open: nat :: Unclosed([c] + rest, open) == Unclosed(rest, OpenAfter(c, open))
  {
    assert ([c] + rest)[1..] == rest;
  }

  lemma {:induction false} SpacesStep(n: nat, rest: string)
    requires Operands(rest)
    ensures Operands(Spaces(n) + rest) && (NumberNext(rest) ==> NumberNext(Spaces(n) + rest))
    ensures forall open: nat :: Unclosed(Spaces(n) + rest, open) == Unclosed(rest, open)
  {
    if n == 0 {
      assert Spaces(n) + rest == rest;
    } else {
      SpacesStep(n - 1, rest);
      OperandsStep(' ', Spaces(n - 1) + rest);
      assert Spaces(n) + rest == [' '] + (Spaces(n - 1) + rest);
    }
  }

  lemma {:induction false} DigitsStep(digits: string, rest: string)
    requires Operands(rest) && forall c <- digits :: IsDigit(c)
    ensures Operands(digits + rest) && (digits != "" ==> NumberNext(digits + rest))
    ensures forall open: nat :: Unclosed(digits + rest, open) == Unclosed(rest, open)
  {
    if digits == "" {
      assert digits + rest == rest;
    } else {
      assert digits[0] in digits && (digits + rest)[1..] == digits[1..] + rest;
      assert digits == [digits[0]] + digits[1..];
      DigitsStep(digits[1..], rest);
    }
  }

  lemma {:induction false} TextIsRegular(e: Expr, rest: string)
    requires WellFormed(e) && Operands(rest)
    ensures Operands(Text(e) + rest) && NumberNext(Text(e) + rest)
    ensures forall open: nat :: Unclosed(Text(e) + rest, open) == Unclosed(rest, open)
    decreases e
  {
    hide Operands, NumberNext, Unclosed;
    match e
    case Number(before, digits, after) =>
      SpacesStep(after, rest);
      DigitsStep(digits, Spaces(after) + rest);
      SpacesStep(before, digits + (Spaces(after) + rest));
      assert Text(e) + rest == Spaces(before) + (digits + (Spaces(after) + rest));
    case Paren(before, inner, after) =>
      var tail := Spaces(after) + rest;
      SpacesStep(after, rest);
      OperandsStep(')', tail);
      TextIsRegular(inner, [')'] + tail);
      OperandsStep('(', Text(inner) + ([')'] + tail));
      SpacesStep(before, ['('] + (Text(inner) + ([')'] + tail)));
      assert Text(e) + rest == Spaces(before) + (['('] + (Text(inner) + ([')'] + tail)));
    case Binary(op, left, right) =>
      TextIsRegular(right, rest);
      OperandsStep(op, Text(right) + rest);
      TextIsRegular(left, [op] + (Text(right) + rest));
      Regroup4(Text(left), [op], Text(right), rest);
  }

  lemma RegularText(e: Expr)
    requires WellFormed(e)
    ensures Operands(Text(e)) && Unclosed(Text(e), 0) == 0
  {
    TextIsRegular(e, "");
    assert Text(e) + "" == Text(e);
  }

  /** Whatever the capacity, the postfix form is written if and only if the losses are harmless. */
  lemma TranslatedExactly(e: Expr, cap: nat)
    requires WellFormed(e)
    ensures Translation(Text(e), [], "", cap) == Some(Postfix(e)) <==> Harmless(Text(e), [], [], cap)
  {
    RegularText(e);
    PeaksByLength(e);
    TranslatesToPostfix(e, |Text(e)|);
    hide Translation, Harmless, Operands, Unclosed, Postfix;
    NothingWritten("");
    assert forall none: seq<char> | none == [] :: none + none == none;
    HarmlessExactly(Text(e), [], [], [], "", cap, |Text(e)|);
  }

  /** An expression that fits loses nothing. */
  lemma FittingIsHarmless(e: Expr, cap: nat)
    requires WellFormed(e) && OpPeak(e) <= cap
    ensures Harmless(Text(e), [], [], cap)
  {
    TranslatesToPostfix(e, cap);
    TranslatedExactly(e, cap);
  }

  /** Then the answer is right as well, given room for the operands. */
  lemma HarmlessLossesAnswer(e: Expr, cap: nat)
    requires WellFormed(e) && Harmless(Text(e), [], [], cap) && NumPeak(e) <= cap
    ensures Calculated(Text(e), cap) == Some(Expected(e))
  {
    TranslatedExactly(e, cap);
    PostfixIsEvaluated(e, cap);
  }

  /** A lost operator is never harmless: what is written is too short. */
  lemma LostOperatorShortens(e: Expr, cap: nat)
    requires WellFormed(e) && LosesOperator(Text(e), [], cap)
    ensures Translation(Text(e), [], "", cap).Some?
    ensures |Translation(Text(e), [], "", cap).value| + 2 <= |Postfix(e)|
    ensures !Harmless(Text(e), [], [], cap)
  {
    var room := |Text(e)|;
    RegularText(e);
    OperandsAreReadable(Text(e));
    PeaksByLength(e);
    TranslatesToPostfix(e, room);
    hide Translation, Harmless, Operands, Unclosed, Postfix, CellsWritten, LosesOperator;
    ReadableIsTranslated(Text(e), [], "", cap);
    CellsAreOutput(Text(e), [], "", cap);
    CellsAreOutput(Text(e), [], "", room);
    CellsOfText(Text(e), [], "", cap);
    CellsOfText(Text(e), [], "", room);
    TranslatedExactly(e, cap);
  }
}
