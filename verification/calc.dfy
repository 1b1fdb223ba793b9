/** A tiny expression language: integer literals, variables and binary operators.
    `Simplify` folds constant subtrees bottom-up; `Repr` prints fully parenthesised
    text. Python's `Lit`, `Var` and `Expr` classes are the three constructors of
    `Term`; none of their methods mutates the receiver, so values model them
    exactly. */
module Calc {
  import opened Common

  datatype Term =
    | Lit(num: int)
    | Var(name: string)
    | Expr(left: Term, op: string, right: Term)

  /** The builders `add`, `sub` and `mul` of the three classes. */
  function Add(a: Term, b: Term): Term { Expr(a, "+", b) }
  function Sub(a: Term, b: Term): Term { Expr(a, "-", b) }
  function Mul(a: Term, b: Term): Term { Expr(a, "*", b) }

  predicate KnownOp(op: string) { op == "+" || op == "-" || op == "*" }

  /** `operator.add`, `operator.sub` or `operator.mul`, chosen by the operator text. */
  function Apply(op: string, a: int, b: int): int
    requires KnownOp(op)
  {
    if op == "+" then a + b else if op == "-" then a - b else a * b
  }

  /** Every operator in the term is one the builders produce. */
  predicate Built(t: Term)
  {
    match t
    case Lit(_) => true
    case Var(_) => true
    case Expr(l, op, r) => KnownOp(op) && Built(l) && Built(r)
  }

  function Vars(t: Term): set<string>
  {
    match t
    case Lit(_) => {}
    case Var(x) => {x}
    case Expr(l, _, r) => Vars(l) + Vars(r)
  }

  /** No operator node is left with two literal operands. */
  predicate Folded(t: Term)
  {
    match t
    case Lit(_) => true
    case Var(_) => true
    case Expr(l, _, r) => !(l.Lit? && r.Lit?) && Folded(l) && Folded(r)
  }

  /** Bottom-up constant folding; an unknown operator between two literals raises
      (here `Failure` with the operator). The left operand is simplified first, so
      its failure is the one reported. */
  function Simplify(t: Term): (r: Result<Term, string>)
    ensures r.Success? ==> Folded(r.value) && Vars(r.value) == Vars(t)
    ensures r.Success? && t.Expr? ==> r.value.Lit? || (r.value.Expr? && r.value.op == t.op)
  {
    match t
    case Lit(_) => Success(t)
    case Var(_) => Success(t)
    case Expr(l, op, r) =>
      var sl :- Simplify(l);
      var sr :- Simplify(r);
      if sl.Lit? && sr.Lit? then
        if KnownOp(op) then Success(Lit(Apply(op, sl.num, sr.num)))
        else Failure(op)
      else Success(Expr(sl, op, sr))
  }

  /** A reference semantics for terms: the value under an environment for the
      variables, `None` where an operator is unknown. */
  function Eval(t: Term, env: string -> int): Option<int>
  {
    match t
    case Lit(n) => Some(n)
    case Var(x) => Some(env(x))
    case Expr(l, op, r) =>
      var a := Eval(l, env);
      var b := Eval(r, env);
      if KnownOp(op) && a.Some? && b.Some? then Some(Apply(op, a.value, b.value)) else None
  }

  /** Simplification never changes what a term means. */
  lemma {:induction false} SimplifyPreservesEval(t: Term, env: string -> int)
    requires Simplify(t).Success?
    ensures Eval(Simplify(t).value, env) == Eval(t, env)
  {
    match t
    case Lit(_) =>
    case Var(_) =>
    case Expr(l, op, r) =>
      SimplifyPreservesEval(l, env);
      SimplifyPreservesEval(r, env);
  }

  /** Terms made with the builders never raise. */
  lemma {:induction false} BuiltNeverRaises(t: Term)
    requires Built(t)
    ensures Simplify(t).Success? && Built(Simplify(t).value)
  {
    match t
    case Lit(_) =>
    case Var(_) =>
    case Expr(l, op, r) =>
      BuiltNeverRaises(l);
      BuiltNeverRaises(r);
  }

  /** A built term without variables folds to the single literal holding its value. */
  lemma {:induction false} ClosedTermsFoldToTheirValue(t: Term, env: string -> int)
    requires Built(t) && Vars(t) == {}
    ensures Simplify(t).Success? && Simplify(t).value.Lit?
    ensures Eval(t, env) == Some(Simplify(t).value.num)
  {
    BuiltNeverRaises(t);
    SimplifyPreservesEval(t, env);
    match t
    case Lit(_) =>
    case Var(_) =>
    case Expr(l, op, r) =>
      ClosedTermsFoldToTheirValue(l, env);
      ClosedTermsFoldToTheirValue(r, env);
  }

  /** Simplifying twice is simplifying once. */
  lemma {:induction false} SimplifyIdempotent(t: Term)
    requires Simplify(t).Success?
    ensures Simplify(Simplify(t).value) == Simplify(t)
  {
    match t
    case Lit(_) =>
    case Var(_) =>
    case Expr(l, op, r) =>
      SimplifyIdempotent(l);
      SimplifyIdempotent(r);
  }

  /** An operator the builders do not produce raises once both of its operands have
      simplified to literals. */
  lemma UnknownOperatorRaises(l: Term, op: string, r: Term)
    requires !KnownOp(op)
    requires Simplify(l).Success? && Simplify(l).value.Lit?
    requires Simplify(r).Success? && Simplify(r).value.Lit?
    ensures Simplify(Expr(l, op, r)) == Failure(op)
  {
  }

  /** The unit tests' expectations. Folding is bottom-up only: `((x + 1) + 2)` is not
      reassociated. */
  lemma SimplifyExamples()
    ensures Simplify(Add(Add(Lit(1), Lit(2)), Lit(3))) == Success(Lit(6))
    ensures Simplify(Sub(Sub(Lit(1), Lit(2)), Lit(3))) == Success(Lit(-4))
    ensures Simplify(Mul(Add(Lit(4), Lit(5)), Add(Lit(4), Lit(5)))) == Success(Lit(81))
    ensures Simplify(Add(Var("x"), Add(Lit(1), Lit(2)))) == Success(Add(Var("x"), Lit(3)))
    ensures Simplify(Add(Add(Var("x"), Lit(1)), Lit(2))) == Success(Add(Add(Var("x"), Lit(1)), Lit(2)))
  {
  }

  // ---------------------------------------------------------------------------
  // Printing

  function DigitChar(d: int): char
    requires 0 <= d < 10
  {
    "0123456789"[d]
  }

  predicate IsDigit(c: char) { '0' <= c <= '9' }

  predicate IsLetter(c: char) { ('a' <= c <= 'z') || ('A' <= c <= 'Z') || c == '_' }

  /** Python's `str` of a non-negative integer: decimal digits, no leading zero. */
  function NatToString(n: nat): (s: string)
    ensures |s| >= 1 && forall i :: 0 <= i < |s| ==> IsDigit(s[i])
  {
    if n < 10 then [DigitChar(n)] else NatToString(n / 10) + [DigitChar(n % 10)]
  }

  /** Python's `str` of an integer. */
  function IntToString(n: int): string
  {
    if n < 0 then "-" + NatToString(-n) else NatToString(n)
  }

  /** `repr`: literals as their number, variables as their name, and operator nodes
      as `(left op right)`. */
  function Repr(t: Term): string
  {
    match t
    case Lit(n) => IntToString(n)
    case Var(x) => x
    case Expr(l, op, r) => "(" + Repr(l) + " " + op + " " + Repr(r) + ")"
  }

  lemma ReprExamples()
    ensures Repr(Add(Lit(2), Lit(3))) == "(2 + 3)"
    ensures Repr(Lit(-1)) == "-1"
  {
    assert NatToString(2) == "2";
    assert NatToString(3) == "3";
    assert NatToString(1) == "1";
  }

  lemma ReprNestedExample()
    ensures Repr(Mul(Add(Lit(4), Lit(5)), Add(Lit(4), Lit(5)))) == "((4 + 5) * (4 + 5))"
  {
    assert NatToString(4) == "4" && NatToString(5) == "5";
  }

  lemma ReprLeftNestedExample()
    ensures Repr(Add(Add(Var("x"), Lit(1)), Lit(2))) == "((x + 1) + 2)"
  {
    assert NatToString(1) == "1" && NatToString(2) == "2";
  }

  // ---------------------------------------------------------------------------
  // Reading the text back: `Repr` loses nothing on terms whose names are words.

  /** Terms whose text can be read back: variable names are non-empty words and
      every operator is one the builders produce. */
  predicate Printable(t: Term)
  {
    match t
    case Lit(_) => true
    case Var(x) => |x| >= 1 && forall i :: 0 <= i < |x| ==> IsLetter(x[i])
    case Expr(l, op, r) => KnownOp(op) && Printable(l) && Printable(r)
  }

  /** The length of the longest prefix of `s` whose characters satisfy `p`. */
  function SpanLength(s: string, p: char -> bool): (n: nat)
    ensures n <= |s|
    ensures forall i :: 0 <= i < n ==> p(s[i])
    ensures n < |s| ==> !p(s[n])
  {
    if s == [] || !p(s[0]) then 0 else 1 + SpanLength(s[1..], p)
  }

  function DigitValue(c: char): int
    requires IsDigit(c)
  {
    c as int - '0' as int
  }

  function ParseNat(s: string): int
    requires forall i :: 0 <= i < |s| ==> IsDigit(s[i])
  {
    if s == [] then 0 else 10 * ParseNat(s[..|s| - 1]) + DigitValue(s[|s| - 1])
  }

  lemma {:induction false} ParseNatToString(n: nat)
    ensures ParseNat(NatToString(n)) == n
  {
    if n >= 10 {
      var s := NatToString(n);
      ParseNatToString(n / 10);
      assert s[..|s| - 1] == NatToString(n / 10);
    }
  }

  /** Reads one term from the front of `s` and returns it with the rest. */
  function ParseTerm(s: string): (r: Option<(Term, string)>)
    ensures r.Some? ==> |r.value.1| < |s|
    decreases |s|, 0
  {
    if s == [] then None
    else if s[0] == '(' then
      match ParseTerm(s[1..])
      case None => None
      case Some((l, rest)) => ParseOperatorAndRight(l, rest)
    else if IsLetter(s[0]) then
      var n := SpanLength(s, IsLetter);
      Some((Var(s[..n]), s[n..]))
    else if IsDigit(s[0]) then
      var n := SpanLength(s, IsDigit);
      Some((Lit(ParseNat(s[..n])), s[n..]))
    else if s[0] == '-' && |s| >= 2 && IsDigit(s[1]) then
      var n := SpanLength(s[1..], IsDigit);
      Some((Lit(-ParseNat(s[1..][..n])), s[1..][n..]))
    else None
  }

  /** Reads ` op right)` after the left operand `l` of a parenthesised term. */
  function ParseOperatorAndRight(l: Term, s: string): (r: Option<(Term, string)>)
    ensures r.Some? ==> |r.value.1| < |s|
    decreases |s|, 1
  {
    if |s| < 4 || s[0] != ' ' || !KnownOp([s[1]]) || s[2] != ' ' then None
    else
      match ParseTerm(s[3..])
      case None => None
      case Some((r, rest)) =>
        if rest == [] || rest[0] != ')' then None
        else Some((Expr(l, [s[1]], r), rest[1..]))
  }

  /** A character that can follow a term in the text. */
  predicate Delimits(rest: string)
  {
    rest == [] || !(IsLetter(rest[0]) || IsDigit(rest[0]))
  }

  lemma SpanOfPrefix(d: string, rest: string, p: char -> bool)
    requires forall i :: 0 <= i < |d| ==> p(d[i])
    requires rest == [] || !p(rest[0])
    ensures SpanLength(d + rest, p) == |d|
    ensures (d + rest)[..|d|] == d && (d + rest)[|d|..] == rest
  {
    var s := d + rest;
    assert forall i :: 0 <= i < |d| ==> p(s[i]);
    assert |d| < |s| ==> !p(s[|d|]);
  }

  lemma ParseReprLit(n: int, rest: string)
    requires Delimits(rest)
    ensures ParseTerm(Repr(Lit(n)) + rest) == Some((Lit(n), rest))
  {
    if n < 0 {
      ParseReprNegative(n, rest);
    } else {
      var d := NatToString(n);
      SpanOfPrefix(d, rest, IsDigit);
      ParseNatToString(n);
    }
  }

  lemma ParseReprNegative(n: int, rest: string)
    requires n < 0 && Delimits(rest)
    ensures ParseTerm(Repr(Lit(n)) + rest) == Some((Lit(n), rest))
  {
    var m: nat := -n;
    var d := NatToString(m);
    ParseNatToString(m);
    assert Repr(Lit(n)) + rest == "-" + (d + rest);
    ParseTermNegative(Repr(Lit(n)) + rest, d, n, rest);
  }

  /** A minus sign followed by digits starts a negative literal. */
  lemma ParseTermNegative(s: string, d: string, n: int, rest: string)
    requires |d| >= 1 && (forall i :: 0 <= i < |d| ==> IsDigit(d[i])) && Delimits(rest)
    requires s == "-" + (d + rest) && ParseNat(d) == -n
    ensures ParseTerm(s) == Some((Lit(n), rest))
  {
    assert s[1..] == d + rest && s[0] == '-' && s[1] == d[0];
    assert s != [] && s[0] != '(' && !IsLetter(s[0]) && !IsDigit(s[0]);
    SpanOfPrefix(d, rest, IsDigit);
  }

  lemma ParseReprVar(x: string, rest: string)
    requires Printable(Var(x)) && Delimits(rest)
    ensures ParseTerm(Repr(Var(x)) + rest) == Some((Var(x), rest))
  {
    SpanOfPrefix(x, rest, IsLetter);
  }

  lemma DropPrefix(a: string, b: string)
    ensures (a + b)[|a|..] == b
  {
  }

  lemma Reassociate(a: string, b: string, c: string, d: string)
    ensures ((a + b) + c) + d == a + (b + (c + d))
  {
  }

  lemma ReprExprShape(l: Term, op: string, r: Term, rest: string)
    ensures var s := Repr(Expr(l, op, r)) + rest;
      s[0] == '(' && s[1..] == Repr(l) + (" " + op + " " + Repr(r) + ")" + rest)
  {
  }

  lemma ParseOperatorAndRightOfRepr(l: Term, op: string, r: Term, rest: string)
    requires KnownOp(op)
    requires ParseTerm(Repr(r) + (")" + rest)) == Some((r, ")" + rest))
    ensures ParseOperatorAndRight(l, " " + op + " " + Repr(r) + ")" + rest) == Some((Expr(l, op, r), rest))
  {
    var tail := " " + op + " " + Repr(r) + ")" + rest;
    assert |op| == 1 && tail[0] == ' ' && tail[1] == op[0] && tail[2] == ' ';
    assert [tail[1]] == op;
    var opText := " " + op + " ";
    Reassociate(opText, Repr(r), ")", rest);
    DropPrefix(opText, Repr(r) + (")" + rest));
  }

  lemma ParseReprExpr(l: Term, op: string, r: Term, rest: string)
    requires KnownOp(op)
    requires ParseTerm(Repr(l) + (" " + op + " " + Repr(r) + ")" + rest))
             == Some((l, " " + op + " " + Repr(r) + ")" + rest))
    requires ParseTerm(Repr(r) + (")" + rest)) == Some((r, ")" + rest))
    ensures ParseTerm(Repr(Expr(l, op, r)) + rest) == Some((Expr(l, op, r), rest))
  {
    ReprExprShape(l, op, r, rest);
    ParseOperatorAndRightOfRepr(l, op, r, rest);
  }

  /** Reading back the text of a printable term yields the term and leaves what
      follows it. */
  lemma {:induction false} ParseRepr(t: Term, rest: string)
    requires Printable(t) && Delimits(rest)
    ensures ParseTerm(Repr(t) + rest) == Some((t, rest))
  {
    match t
    case Lit(n) => ParseReprLit(n, rest);
    case Var(x) => ParseReprVar(x, rest);
    case Expr(l, op, r) =>
      ParseRepr(l, " " + op + " " + Repr(r) + ")" + rest);
      ParseRepr(r, ")" + rest);
      ParseReprExpr(l, op, r, rest);
  }

  /** Consequently printing is injective on printable terms. */
  lemma ReprInjective(t: Term, u: Term)
    requires Printable(t) && Printable(u) && Repr(t) == Repr(u)
    ensures t == u
  {
    ParseRepr(t, "");
    ParseRepr(u, "");
    assert Repr(t) + "" == Repr(t) && Repr(u) + "" == Repr(u);
  }
}
