/** Infix arithmetic: its concrete syntax, with any number of spaces around a number or
    a parenthesis, and what it means. */
module Infix {
  import opened Arithmetic
  import opened Options

  predicate IsDigit(c: char) {
    '0' <= c <= '9'
  }

  predicate IsOperator(c: char) {
    c in "+-*/"
  }

  function Priority(op: char): int {
    match op
    case '(' => 0
    case '+' => 1
    case '-' => 1
    case '*' => 2
    case '/' => 2
    case _ => -1
  }

  /** The spaces sit next to the atoms, so every spacing of a text has its tree. */
  datatype Expr =
    | Number(before: nat, digits: string, after: nat)
    | Paren(before: nat, inner: Expr, after: nat)
    | Binary(op: char, left: Expr, right: Expr)

  /** How tightly the outermost construct of `e` binds. */
  function Level(e: Expr): int {
    if e.Binary? then Priority(e.op) else 3
  }

  /** `*` and `/` bind tighter than `+` and `-`, and equal priorities associate to the left. */
  predicate WellFormed(e: Expr) {
    match e
    case Number(_, digits, _) => digits != "" && forall c <- digits :: IsDigit(c)
    case Paren(_, inner, _) => WellFormed(inner)
    case Binary(op, left, right) =>
      IsOperator(op) && WellFormed(left) && WellFormed(right) &&
      Level(left) >= Priority(op) && Level(right) > Priority(op)
  }

  /** A sum or a difference outside parentheses. */
  predicate IsSum(e: Expr) {
    e.Binary? && (e.op == '+' || e.op == '-')
  }

  /** The same grammar character by character: numbers are of decimal digits; an operand of * or / is no
      sum, and the right one no product either; the right operand of + or - is no sum. */
  predicate InGrammar(e: Expr) {
    match e
    case Number(_, digits, _) => digits != "" && forall c <- digits :: c in "0123456789"
    case Paren(_, inner, _) => InGrammar(inner)
    case Binary(op, left, right) =>
      && InGrammar(left) && InGrammar(right)
      && (op == '+' || op == '-' || op == '*' || op == '/')
      && (op == '+' || op == '-' ==> !IsSum(right))
      && (op == '*' || op == '/' ==> !IsSum(left) && !right.Binary?)
  }

  lemma DecimalDigits(c: char)
    ensures IsDigit(c) <==> c in "0123456789"
  {
    var all := "0123456789";
    assert forall i | 0 <= i < 10 :: all[i] == ('0' as int + i) as char;
    if IsDigit(c) {
      assert all[c as int - '0' as int] == c;
    }
  }

  /** What the priorities of the translator amount to. */
  lemma {:induction false} GrammarExactly(e: Expr)
    ensures WellFormed(e) <==> InGrammar(e)
  {
    match e
    case Number(_, digits, _) =>
      forall c | c in digits
        ensures IsDigit(c) <==> c in "0123456789"
      {
        DecimalDigits(c);
      }
    case Paren(_, inner, _) => GrammarExactly(inner);
    case Binary(op, left, right) =>
      GrammarExactly(left);
      GrammarExactly(right);
      assert IsOperator(op) <==> op == '+' || op == '-' || op == '*' || op == '/' by {
        assert "+-*/"[0] == '+' && "+-*/"[1] == '-' && "+-*/"[2] == '*' && "+-*/"[3] == '/';
      }
  }

  function Spaces(n: nat): string {
    if n == 0 then "" else " " + Spaces(n - 1)
  }

  function Text(e: Expr): string {
    match e
    case Number(before, digits, after) => Spaces(before) + digits + Spaces(after)
    case Paren(before, inner, after) => Spaces(before) + "(" + Text(inner) + ")" + Spaces(after)
    case Binary(op, left, right) => Text(left) + [op] + Text(right)
  }

  function Decimal(digits: string, acc: int): int {
    if digits == "" then acc
    else Decimal(digits[1..], acc * 10 + (digits[0] as int - '0' as int))
  }

  function Abs(a: int): nat {
    if a < 0 then -a else a
  }

  /** Integer division of C: it rounds toward zero. */
  function TruncatedQuotient(a: int, b: int): int
    requires b != 0
  {
    if (a < 0) == (b < 0) then Abs(a) / Abs(b) else -(Abs(a) / Abs(b))
  }

  /** `q` is a quotient rounded toward zero: what is left is smaller than the divisor and has no other
      sign than the dividend. */
  predicate RoundsTowardZero(a: int, b: int, q: int) {
    var r := a - q * b;
    (if b > 0 then -b < r < b else b < r < -b) && (a >= 0 ==> r >= 0) && (a <= 0 ==> r <= 0)
  }

  lemma QuotientRounds(a: int, b: int)
    requires b != 0
    ensures RoundsTowardZero(a, b, TruncatedQuotient(a, b))
  {
    var m, n := Abs(a), Abs(b);
    var q := m / n;
    assert m == q * n + m % n;
    if (a < 0) == (b < 0) {
      assert q * b == if b < 0 then -(q * n) else q * n;
    } else {
      assert -q * b == if b < 0 then q * n else -(q * n);
    }
  }

  /** There is only one such quotient. */
  lemma QuotientExactly(a: int, b: int, q: int)
    requires b != 0
    ensures RoundsTowardZero(a, b, q) <==> q == TruncatedQuotient(a, b)
  {
    var t := TruncatedQuotient(a, b);
    QuotientRounds(a, b);
    if RoundsTowardZero(a, b, q) {
      assert (q - t) * b == (a - t * b) - (a - q * b);
      if b > 0 {
        MultipleIsFar(q - t, b);
      } else {
        assert (q - t) * -b == -((q - t) * b);
        MultipleIsFar(q - t, -b);
      }
    }
  }

  function Apply(op: char, a: int, b: int): Option<int> {
    match op
    case '+' => Some(a + b)
    case '-' => Some(a - b)
    case '*' => Some(a * b)
    case _ => if b == 0 then None else Some(TruncatedQuotient(a, b))
  }

  /** Difference undoes sum, in this order, and quotient undoes product; only a zero divisor has no result. */
  lemma ApplyLaws(a: int, b: int)
    ensures Apply('+', a, 0) == Some(a) && Apply('+', a, b + 1) == Some(Apply('+', a, b).value + 1)
    ensures Apply('-', a + b, b) == Some(a)
    ensures Apply('*', a, 0) == Some(0) && Apply('*', a, b + 1) == Some(Apply('*', a, b).value + a)
    ensures Apply('/', a, b) == None <==> b == 0
    ensures b != 0 ==> Apply('/', a * b, b) == Some(a)
  {
    if b != 0 {
      assert a * b - a * b == 0;
      QuotientExactly(a * b, b, a);
    }
  }

  /** The value of the tree, or None when some division in it has a zero divisor. */
  function Value(e: Expr): Option<int> {
    match e
    case Number(_, digits, _) => Some(Decimal(digits, 0))
    case Paren(_, inner, _) => Value(inner)
    case Binary(op, left, right) =>
      var a, b := Value(left), Value(right);
      if a.None? || b.None? then None else Apply(op, a.value, b.value)
  }

  function Max(a: nat, b: nat): nat {
    if a < b then b else a
  }

  /** Nesting depth of the parentheses. */
  function Depth(e: Expr): nat {
    match e
    case Number(_, _, _) => 0
    case Paren(_, inner, _) => 1 + Depth(inner)
    case Binary(_, left, right) => Max(Depth(left), Depth(right))
  }

  /** Length of the longest prefix of `text` made of digits. */
  function DigitRun(text: string): (n: nat)
    ensures n <= |text|
    ensures forall i | 0 <= i < n :: IsDigit(text[i])
    ensures n < |text| ==> !IsDigit(text[n])
  {
    if text == "" || !IsDigit(text[0]) then 0 else 1 + DigitRun(text[1..])
  }

  lemma {:induction false} DigitRunOfNumber(digits: string, rest: string)
    requires forall c <- digits :: IsDigit(c)
    requires rest == "" || !IsDigit(rest[0])
    ensures DigitRun(digits + rest) == |digits|
  {
    forall i | 0 <= i < |digits|
      ensures IsDigit((digits + rest)[i])
    {
      assert digits[i] in digits;
    }
    if rest != "" {
      assert (digits + rest)[|digits|] == rest[0];
    }
  }
}
