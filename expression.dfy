/**
 Arithmetic expression trees: the values the `Expression` handles stand for.

 An `IntNode` is a constant, a `UnaryNode` an operator applied to one operand and a
 `BinaryNode` an operator applied to a left and a right operand. `Eval` is what
 `eval()` computes, with the thrown error string modelled as a `Failure`, and `Print`
 is what `print` writes, fully parenthesised. Arithmetic is on unbounded integers;
 `/` truncates toward zero, as the C++ operator does.
 */
module ExprTree {

  datatype Expr =
    | Const(n: int)
    | Unary(op: string, operand: Expr)
    | Binary(op: string, left: Expr, right: Expr)

  /** The kind of node that rejected an operator. */
  datatype NodeKind = UnaryKind | BinaryKind

  /** The error `eval()` throws: the operator that could not be applied, and by which kind of node. */
  datatype Failure = BadOp(op: string, kind: NodeKind)

  /** The outcome of an evaluation: a value, or the error that was thrown. */
  datatype Result<T> = Success(value: T) | Fail(error: Failure)

  /** The text of the thrown error (including the source's "int UnaryNode" spelling). */
  function Message(f: Failure): (m: string)
    ensures |m| == 28 + |f.op| && m[..14] == "error, bad op " && m[14..14 + |f.op|] == f.op
    ensures m[14 + |f.op|..] == if f.kind == UnaryKind then " int UnaryNode" else " in BinaryNode"
  {
    "error, bad op " + f.op + (if f.kind == UnaryKind then " int UnaryNode" else " in BinaryNode")
  }

  /** The text names both the operator and the kind of node: different errors read differently. */
  lemma MessageInjective(f: Failure, g: Failure)
    requires Message(f) == Message(g)
    ensures f == g
  {
  }

  /** C++ integer division: the quotient truncated toward zero. */
  function TruncDiv(a: int, b: int): int
    requires b != 0
  {
    if (a >= 0) == (b > 0) then Abs(a) / Abs(b) else -(Abs(a) / Abs(b))
  }

  function Abs(a: int): int
  {
    if a < 0 then -a else a
  }

  /** The remainder of a truncating division, case by case on the signs. */
  lemma {:induction false} TruncRemainderSigns(a: int, b: int, q: int, m: int, t: int)
    requires b != 0 && Abs(a) == q * Abs(b) + m
    requires t == if (a >= 0) == (b > 0) then q else -q
    ensures a - t * b == if a >= 0 then m else -m
  {
    if a >= 0 && b > 0 {
    } else if a >= 0 {
      assert t * b == (-q) * (-Abs(b)) == q * Abs(b);
    } else if b > 0 {
      assert t * b == (-q) * Abs(b) == -(q * Abs(b));
    } else {
      assert t * b == q * (-Abs(b)) == -(q * Abs(b));
    }
  }

  /**
   Truncating division leaves a remainder smaller than the divisor in magnitude, and of
   the sign of the dividend (or zero); these properties determine the quotient.
   */
  lemma {:induction false} TruncDivRemainder(a: int, b: int)
    requires b != 0
    ensures var r := a - TruncDiv(a, b) * b;
      Abs(r) < Abs(b) && (r == 0 || (r < 0 <==> a < 0))
  {
    var x, y := Abs(a), Abs(b);
    var q, m := x / y, x % y;
    assert x == q * y + m && 0 <= m < y;
    TruncRemainderSigns(a, b, q, m, TruncDiv(a, b));
    var r := a - TruncDiv(a, b) * b;
    if a >= 0 {
      assert r == m && Abs(r) == m;
    } else {
      assert r == -m && Abs(r) == m;
    }
  }

  /** Those properties of the remainder leave only one quotient: the truncated one. */
  lemma {:induction false} TruncDivUnique(a: int, b: int, q: int)
    requires b != 0
    requires var r := a - q * b; Abs(r) < Abs(b) && (r == 0 || (r < 0 <==> a < 0))
    ensures q == TruncDiv(a, b)
  {
    var t := TruncDiv(a, b);
    TruncDivRemainder(a, b);
    if t != q {
      SubMul(t, q, b);
      MulAtLeast(t - q, b);
      assert false;
    }
  }

  lemma SubMul(t: int, q: int, b: int)
    ensures t * b - q * b == (t - q) * b
  {
  }

  /** A non-zero multiple of `b` is at least `b` in magnitude. */
  lemma MulAtLeast(d: int, b: int)
    requires d != 0
    ensures Abs(d * b) >= Abs(b)
  {
    var x, y := Abs(d), Abs(b);
    assert Abs(d * b) == x * y by {
      if d < 0 && b < 0 {
        assert d * b == x * y;
      } else if d < 0 {
        assert d * b == -(x * y);
      } else if b < 0 {
        assert d * b == -(x * y);
      }
    }
    MulGrows(x, y);
  }

  lemma {:induction false} MulGrows(x: nat, y: nat)
    requires x >= 1
    ensures x * y >= y
  {
    if x > 1 {
      MulGrows(x - 1, y);
      assert x * y == (x - 1) * y + y;
    }
  }

  /** The operators that occur in `e`. */
  function Ops(e: Expr): set<string>
  {
    match e
    case Const(_) => {}
    case Unary(op, x) => {op} + Ops(x)
    case Binary(op, l, r) => {op} + Ops(l) + Ops(r)
  }

  /** `BinaryNode::eval` once both operands have been evaluated. */
  function Apply(op: string, a: int, b: int): (r: Result<int>)
    ensures r.Fail? <==> !(op in {"+", "-", "*"} || (op == "/" && b != 0))
    ensures r.Fail? ==> r.error == BadOp(op, BinaryKind)
  {
    if op == "+" then Success(a + b)
    else if op == "-" then Success(a - b)
    else if op == "*" then Success(a * b)
    else if op == "/" && b != 0 then Success(TruncDiv(a, b))
    else Fail(BadOp(op, BinaryKind))
  }

  /**
   `eval()`: a constant is its value; a unary node accepts only "-" and then negates its
   operand; a binary node evaluates its left operand, then its right one, then applies
   its operator. The first error thrown is the result, and it always names an operator
   of the tree.
   */
  function Eval(e: Expr): (r: Result<int>)
    ensures r.Fail? ==> r.error.op in Ops(e)
  {
    match e
    case Const(n) => Success(n)
    case Unary(op, x) =>
      if op == "-" then
        match Eval(x)
        case Success(v) => Success(-v)
        case Fail(f) => Fail(f)
      else Fail(BadOp(op, UnaryKind))
    case Binary(op, l, r) =>
      match Eval(l)
      case Fail(f) => Fail(f)
      case Success(a) =>
        match Eval(r)
        case Fail(f) => Fail(f)
        case Success(b) => Apply(op, a, b)
  }

  /** A unary node rejects an operator other than "-" without evaluating its operand. */
  lemma UnaryBadOpFirst(op: string, x: Expr)
    requires op != "-"
    ensures Eval(Unary(op, x)) == Fail(BadOp(op, UnaryKind))
  {
  }

  /**
   A binary node evaluates its left operand first: an error there is the result, whatever
   the right operand and the operator are; only then does an error on the right count,
   and only then is the operator checked.
   */
  lemma LeftBeforeRight(op: string, l: Expr, r: Expr)
    ensures Eval(l).Fail? ==> Eval(Binary(op, l, r)) == Eval(l)
    ensures Eval(l).Success? && Eval(r).Fail? ==> Eval(Binary(op, l, r)) == Eval(r)
    ensures Eval(l).Success? && Eval(r).Success? ==>
      Eval(Binary(op, l, r)) == Apply(op, Eval(l).value, Eval(r).value)
  {
  }

  /** Dividing by an operand that evaluates to zero throws the same error as an unknown operator. */
  lemma DivisionByZero(l: Expr, r: Expr)
    requires Eval(l).Success? && Eval(r) == Success(0)
    ensures Eval(Binary("/", l, r)) == Fail(BadOp("/", BinaryKind))
  {
  }

  /** A tree whose operators are all ones its nodes accept, and that never divides. */
  predicate Arithmetic(e: Expr)
  {
    match e
    case Const(_) => true
    case Unary(op, x) => op == "-" && Arithmetic(x)
    case Binary(op, l, r) => op in {"+", "-", "*"} && Arithmetic(l) && Arithmetic(r)
  }

  /** Evaluation of such a tree never throws. */
  lemma {:induction false} ArithmeticNeverFails(e: Expr)
    requires Arithmetic(e)
    ensures Eval(e).Success?
  {
    match e
    case Const(_) =>
    case Unary(_, x) => ArithmeticNeverFails(x);
    case Binary(_, l, r) => ArithmeticNeverFails(l); ArithmeticNeverFails(r);
  }

  /** Multiplying a tree by itself squares its value, and fails exactly when the tree fails. */
  lemma Square(e: Expr)
    ensures Eval(e).Success? ==> Eval(Binary("*", e, e)) == Success(Eval(e).value * Eval(e).value)
    ensures Eval(e).Fail? ==> Eval(Binary("*", e, e)) == Eval(e)
  {
  }

  // Decimal notation.

  predicate IsDigit(c: char)
  {
    '0' <= c <= '9'
  }

  predicate AllDigits(s: string)
  {
    forall i :: 0 <= i < |s| ==> IsDigit(s[i])
  }

  function DigitChar(d: nat): char
    requires d < 10
  {
    "0123456789"[d]
  }

  function DigitValue(c: char): nat
    requires IsDigit(c)
  {
    (c - '0') as nat
  }

  /** The number a string of decimal digits denotes, read most significant digit first. */
  function DigitsValue(s: string): nat
    requires AllDigits(s)
  {
    if |s| == 0 then 0 else DigitsValue(s[..|s| - 1]) * 10 + DigitValue(s[|s| - 1])
  }

  /** The decimal digits of `n`, as `operator<<` writes a non-negative `int`. */
  function NatToString(n: nat): (s: string)
    ensures |s| >= 1 && AllDigits(s) && DigitsValue(s) == n
    ensures Canonical(s) && (n >= 1 ==> s[0] != '0')
  {
    if n < 10 then [DigitChar(n)]
    else
      var front := NatToString(n / 10);
      var s := front + [DigitChar(n % 10)];
      assert s[..|s| - 1] == front;
      s
  }

  /** A digit string without a leading zero, except the single digit `0`. */
  predicate Canonical(s: string)
  {
    |s| == 1 || (|s| > 0 && s[0] != '0')
  }

  /** Digits that begin with something other than `0` denote a positive number. */
  lemma {:induction false} NonzeroLead(s: string)
    requires |s| >= 1 && AllDigits(s) && s[0] != '0'
    ensures DigitsValue(s) >= 1
  {
    if |s| > 1 {
      NonzeroLead(s[..|s| - 1]);
    }
  }

  /** `NatToString(n)` is the only canonical digit string that denotes `n`. */
  lemma {:induction false} CanonicalUnique(s: string, n: nat)
    requires AllDigits(s) && Canonical(s) && DigitsValue(s) == n
    ensures s == NatToString(n)
  {
    if |s| == 1 {
      assert s[..0] == "";
      assert n == DigitValue(s[0]) < 10;
    } else {
      var front, last := s[..|s| - 1], s[|s| - 1];
      NonzeroLead(front);
      var v, d := DigitsValue(front), DigitValue(last);
      assert n == v * 10 + d && d < 10 && v >= 1;
      LastDigit(v, d);
      CanonicalUnique(front, v);
      DigitRoundTrip(last);
      assert NatToString(n) == NatToString(v) + [DigitChar(d)];
      SplitLast(s);
    }
  }

  lemma SplitLast(s: string)
    requires |s| > 0
    ensures s == s[..|s| - 1] + [s[|s| - 1]]
  {
  }

  lemma DigitRoundTrip(c: char)
    requires IsDigit(c)
    ensures DigitChar(DigitValue(c)) == c
  {
  }

  lemma LastDigit(v: nat, d: nat)
    requires d < 10
    ensures (v * 10 + d) / 10 == v && (v * 10 + d) % 10 == d
  {
  }

  /** The decimal notation `operator<<` writes for an `int`: a minus sign, then the digits. */
  function IntToString(n: int): (s: string)
    ensures n >= 0 ==> AllDigits(s) && Canonical(s) && DigitsValue(s) == n
    ensures n < 0 ==> |s| >= 2 && s[0] == '-' && AllDigits(s[1..]) && s[1] != '0' && DigitsValue(s[1..]) == -n
  {
    if n < 0 then
      var d := NatToString(-n);
      assert ("-" + d)[1..] == d;
      "-" + d
    else NatToString(n)
  }

  /**
   `print`: a constant as its decimal notation, a unary node as `(` operator operand `)`,
   a binary node as `(` left operator right `)`.
   */
  function Print(e: Expr): string
  {
    match e
    case Const(n) => IntToString(n)
    case Unary(op, x) => "(" + op + Print(x) + ")"
    case Binary(op, l, r) => "(" + Print(l) + op + Print(r) + ")"
  }

  // Reading the printed form back.

  predicate IsOpChar(c: char)
  {
    c in "+-*/"
  }

  /**
   A tree whose printed form can be read back unambiguously: constants are
   non-negative and every operator is one of the characters `+ - * /`.
   */
  predicate Simple(e: Expr)
  {
    match e
    case Const(n) => n >= 0
    case Unary(op, x) => |op| == 1 && IsOpChar(op[0]) && Simple(x)
    case Binary(op, l, r) => |op| == 1 && IsOpChar(op[0]) && Simple(l) && Simple(r)
  }

  /** The number of decimal digits at the front of `s`. */
  function LeadingDigits(s: string): (k: nat)
    ensures k <= |s| && AllDigits(s[..k]) && (k < |s| ==> !IsDigit(s[k]))
  {
    if |s| == 0 || !IsDigit(s[0]) then 0
    else
      var k := 1 + LeadingDigits(s[1..]);
      assert s[..k] == [s[0]] + s[1..][..k - 1];
      k
  }

  datatype Option<T> = None | Some(value: T)

  /**
   Reads one fully parenthesised expression from the front of `s` and returns it with
   the rest of `s`: digits are a constant, `(` starts a node.
   */
  function Parse(s: string): (r: Option<(Expr, string)>)
    ensures r.Some? ==> |r.value.1| < |s|
    decreases |s|, 1
  {
    if |s| == 0 then None
    else if IsDigit(s[0]) then
      var k := LeadingDigits(s);
      Some((Const(DigitsValue(s[..k])), s[k..]))
    else if s[0] == '(' && |s| >= 2 then ParseNode(s)
    else None
  }

  /** After `(`, an operator character starts a unary node and anything else a binary one. */
  function ParseNode(s: string): (r: Option<(Expr, string)>)
    requires |s| >= 2 && s[0] == '('
    ensures r.Some? ==> |r.value.1| < |s|
    decreases |s|, 0
  {
    if IsOpChar(s[1]) then
      var operand := Parse(s[2..]);
      if operand.None? then None
      else Close(Unary([s[1]], operand.value.0), operand.value.1)
    else
      var left := Parse(s[1..]);
      if left.None? then None
      else ParseRight(left.value.0, left.value.1)
  }

  /** After the left operand of a binary node: the operator, the right operand, `)`. */
  function ParseRight(l: Expr, s: string): (r: Option<(Expr, string)>)
    ensures r.Some? ==> |r.value.1| < |s|
    decreases |s|, 2
  {
    if |s| == 0 || !IsOpChar(s[0]) then None
    else
      var right := Parse(s[1..]);
      if right.None? then None
      else Close(Binary([s[0]], l, right.value.0), right.value.1)
  }

  /** The closing `)` of a node. */
  function Close(e: Expr, s: string): (r: Option<(Expr, string)>)
    ensures r.Some? ==> |r.value.1| < |s|
  {
    if |s| > 0 && s[0] == ')' then Some((e, s[1..])) else None
  }

  /** Reading digits stops exactly where the digits of a number end. */
  lemma {:induction false} LeadingDigitsOf(d: string, rest: string)
    requires AllDigits(d) && (|rest| == 0 || !IsDigit(rest[0]))
    ensures LeadingDigits(d + rest) == |d|
    decreases |d|
  {
    if |d| > 0 {
      assert (d + rest)[1..] == d[1..] + rest;
      LeadingDigitsOf(d[1..], rest);
    }
  }

  /** The printed form of a simple tree begins with a digit or with `(`. */
  lemma PrintStart(e: Expr)
    requires Simple(e)
    ensures |Print(e)| > 0 && (IsDigit(Print(e)[0]) || Print(e)[0] == '(')
    ensures !IsOpChar(Print(e)[0])
  {
  }

  /** Reading the digits of `n` gives the constant `n`. */
  lemma {:induction false} ParseConst(n: nat, rest: string)
    requires |rest| == 0 || !IsDigit(rest[0])
    ensures Parse(NatToString(n) + rest) == Some((Const(n), rest))
  {
    var d := NatToString(n);
    var s := d + rest;
    LeadingDigitsOf(d, rest);
    assert s[..|d|] == d;
    assert s[|d|..] == rest;
  }

  /** One step of reading a unary node back: `(`, the operator, the operand, `)`. */
  lemma {:induction false} ParseUnaryStep(c: char, x: Expr, px: string, rest: string)
    requires IsOpChar(c)
    requires Parse(px + ([')'] + rest)) == Some((x, [')'] + rest))
    ensures Parse("(" + [c] + px + ")" + rest) == Some((Unary([c], x), rest))
  {
    var s := "(" + [c] + px + ")" + rest;
    var close := [')'] + rest;
    assert s[0] == '(' && s[1] == c;
    assert s[2..] == px + close;
    assert close[0] == ')' && close[1..] == rest;
  }

  /** One step of reading a binary node back: `(`, the left operand, the operator, the right operand, `)`. */
  lemma {:induction false} ParseBinaryStep(c: char, l: Expr, r: Expr, pl: string, pr: string, rest: string)
    requires IsOpChar(c) && |pl| > 0 && !IsOpChar(pl[0])
    requires Parse(pl + ([c] + pr + ")" + rest)) == Some((l, [c] + pr + ")" + rest))
    requires Parse(pr + ([')'] + rest)) == Some((r, [')'] + rest))
    ensures Parse("(" + pl + [c] + pr + ")" + rest) == Some((Binary([c], l, r), rest))
  {
    var s := "(" + pl + [c] + pr + ")" + rest;
    var after := [c] + pr + ")" + rest;
    var close := [')'] + rest;
    assert s[0] == '(' && s[1] == pl[0];
    assert s[1..] == pl + after;
    assert after[0] == c;
    assert after[1..] == pr + close;
    assert close[0] == ')' && close[1..] == rest;
    assert ParseRight(l, after) == Close(Binary([c], l, r), close);
    assert ParseNode(s) == ParseRight(l, after);
  }

  /**
   Printing is fully parenthesised and unambiguous for simple trees: reading the
   printed form back gives the tree again, and leaves whatever followed it untouched.
   */
  lemma {:induction false} ParsePrint(e: Expr, rest: string)
    requires Simple(e) && (|rest| == 0 || !IsDigit(rest[0]))
    ensures Parse(Print(e) + rest) == Some((e, rest))
  {
    match e
    case Const(n) =>
      ParseConst(n, rest);
    case Unary(op, x) =>
      ParsePrint(x, [')'] + rest);
      assert op == [op[0]];
      ParseUnaryStep(op[0], x, Print(x), rest);
    case Binary(op, l, r) =>
      PrintStart(l);
      assert op == [op[0]];
      ParsePrint(l, op + Print(r) + ")" + rest);
      ParsePrint(r, [')'] + rest);
      ParseBinaryStep(op[0], l, r, Print(l), Print(r), rest);
  }

  /** The tree of the demonstration program, `(-5)*(3+4)`. */
  function Sample(): (e: Expr)
    ensures Simple(e)
  {
    Binary("*", Unary("-", Const(5)), Binary("+", Const(3), Const(4)))
  }

  /** It prints as `((-5)*(3+4))`. */
  lemma SamplePrints()
    ensures Print(Sample()) == "((-5)*(3+4))"
  {
    assert Print(Unary("-", Const(5))) == "(-5)" by {
      assert Print(Const(5)) == "5";
    }
    assert Print(Binary("+", Const(3), Const(4))) == "(3+4)" by {
      assert Print(Const(3)) == "3" && Print(Const(4)) == "4";
    }
  }

  /** Squared, it prints as `(((-5)*(3+4))*((-5)*(3+4)))`. */
  lemma SquarePrints()
    ensures Print(Binary("*", Sample(), Sample())) == "(((-5)*(3+4))*((-5)*(3+4)))"
  {
    SamplePrints();
    var p := "((-5)*(3+4))";
    assert Print(Binary("*", Sample(), Sample())) == "(" + p + "*" + p + ")";
  }

  /** It evaluates to -35, and squared to 1225. */
  lemma SampleValues()
    ensures Eval(Sample()) == Success(-35)
    ensures Eval(Binary("*", Sample(), Sample())) == Success(1225)
  {
    assert Eval(Unary("-", Const(5))) == Success(-5);
    assert Eval(Binary("+", Const(3), Const(4))) == Success(7);
  }
}
