/**
  The decision made by the "overly complex arithmetic expression" inspection:
  an arithmetic expression tree is measured by the number of terms it combines,
  and the outermost arithmetic expression is reported when that number exceeds
  the configured limit.

  The program-structure interface of the IDE is replaced by a small expression
  datatype; the type test "is java.lang.String" and the test "is the only
  expression in its method" are inputs of the model.
*/
module ArithmeticComplexity {
  import opened Wrappers

  /** Operator tokens; the five arithmetic ones are named, the rest are `OtherToken`. */
  datatype Token = Plus | Minus | Asterisk | Div | Perc | OtherToken(id: nat)

  /**
    An expression as the inspection sees it: a polyadic (binary or longer)
    expression with its operator, whether its type is String, and its operands;
    a prefix expression with its (possibly missing) operand; a parenthesized
    expression with its (possibly missing) contents; any other expression.
  */
  datatype Expr =
    | Polyadic(op: Token, isStringType: bool, operands: seq<Expr>)
    | Prefix(prefixOp: Token, operand: Option<Expr>)
    | Paren(contents: Option<Expr>)
    | Other

  /** The default term limit of the inspection. */
  const TermLimit: int := 6

  /** The five tokens that make an expression arithmetic. */
  predicate IsArithmeticToken(t: Token) {
    t in {Plus, Minus, Asterisk, Div, Perc}
  }

  /** Whether an expression is arithmetic. */
  predicate IsArithmetic(e: Expr) {
    match e
    case Polyadic(op, isString, _) => !isString && IsArithmeticToken(op)
    case Prefix(op, _) => IsArithmeticToken(op)
    case Paren(contents) => contents.Some? && IsArithmetic(contents.value)
    case Other => false
  }

  /** The number of terms an expression combines; a missing operand or contents is one term. */
  function CountTerms(e: Expr): (n: nat)
    decreases e
  {
    if !IsArithmetic(e) then 1
    else match e
      case Polyadic(_, _, operands) => SumTerms(operands)
      case Prefix(_, operand) => if operand.None? then 1 else CountTerms(operand.value)
      case Paren(contents) => if contents.None? then 1 else CountTerms(contents.value)
      case Other => 1
  }

  /** The loop over the operands of a polyadic expression, as a fold. */
  function SumTerms(operands: seq<Expr>): (n: nat)
    decreases operands
  {
    if operands == [] then 0
    else SumTerms(operands[..|operands| - 1]) + CountTerms(operands[|operands| - 1])
  }

  /**
    The reporting rule: an expression is reported exactly when it is arithmetic,
    its parent is not an arithmetic expression (`parent` is `None` when the
    parent is not an expression at all), it combines more than `limit` terms,
    and it is not the only expression of its method.
  */
  predicate IsReported(e: Expr, parent: Option<Expr>, limit: int, onlyExpressionInMethod: bool): (r: bool)
    ensures r <==>
      && IsArithmetic(e)
      && !(parent.Some? && IsArithmetic(parent.value))
      && |TermsOf(e)| > limit
      && !onlyExpressionInMethod
  {
    CountTermsCountsTerms(e);
    if !IsArithmetic(e) then false
    else if parent.Some? && IsArithmetic(parent.value) then false
    else if CountTerms(e) <= limit then false
    else !onlyExpressionInMethod
  }

  /** A term: a missing operand or contents, or an expression that is not arithmetic. */
  predicate IsTerm(t: Option<Expr>) {
    t.None? || !IsArithmetic(t.value)
  }

  /**
    The terms of an expression, left to right: the maximal sub-expressions that
    are not arithmetic (or are missing), reached through arithmetic polyadic,
    prefix and parenthesized expressions.
  */
  function TermsOf(e: Expr): (ts: seq<Option<Expr>>)
    ensures forall t <- ts :: IsTerm(t)
    decreases e
  {
    if !IsArithmetic(e) then [Some(e)]
    else match e
      case Polyadic(_, _, operands) => TermsOfAll(operands)
      case Prefix(_, operand) => if operand.None? then [None] else TermsOf(operand.value)
      case Paren(contents) => if contents.None? then [None] else TermsOf(contents.value)
      case Other => [Some(e)]
  }

  /** The terms of a list of operands, concatenated. */
  function TermsOfAll(operands: seq<Expr>): (ts: seq<Option<Expr>>)
    ensures forall t <- ts :: IsTerm(t)
    decreases operands
  {
    if operands == [] then []
    else TermsOfAll(operands[..|operands| - 1]) + TermsOf(operands[|operands| - 1])
  }

  /** The count computed by the inspection is the number of terms of the expression. */
  lemma {:induction false} CountTermsCountsTerms(e: Expr)
    ensures CountTerms(e) == |TermsOf(e)|
    decreases e
  {
    if IsArithmetic(e) {
      match e
      case Polyadic(_, _, operands) => SumTermsCountsTerms(operands);
      case Prefix(_, operand) => if operand.Some? { CountTermsCountsTerms(operand.value); }
      case Paren(contents) => if contents.Some? { CountTermsCountsTerms(contents.value); }
      case Other =>
    }
  }

  /** The operand fold adds up the terms of every operand. */
  lemma {:induction false} SumTermsCountsTerms(operands: seq<Expr>)
    ensures SumTerms(operands) == |TermsOfAll(operands)|
    decreases operands
  {
    if operands != [] {
      SumTermsCountsTerms(operands[..|operands| - 1]);
      CountTermsCountsTerms(operands[|operands| - 1]);
    }
  }

  /** Every expression that is not arithmetic, and every missing operand, is exactly one term. */
  lemma NonArithmeticIsOneTerm(e: Expr)
    requires !IsArithmetic(e)
    ensures CountTerms(e) == 1 && TermsOf(e) == [Some(e)]
  {
  }

  /**
    Parentheses are transparent: a parenthesized expression is arithmetic exactly
    when its contents are, and counts what its contents count.
  */
  lemma ParenthesesAreTransparent(e: Expr)
    ensures IsArithmetic(Paren(Some(e))) <==> IsArithmetic(e)
    ensures CountTerms(Paren(Some(e))) == CountTerms(e)
  {
  }

  /** A String-typed polyadic expression is never arithmetic, whatever its operator. */
  lemma StringConcatenationIsNotArithmetic(op: Token, operands: seq<Expr>)
    ensures !IsArithmetic(Polyadic(op, true, operands))
    ensures CountTerms(Polyadic(op, true, operands)) == 1
  {
  }

  /** With the default limit, an arithmetic expression of at most six terms is never reported. */
  lemma SmallExpressionNotReported(e: Expr, parent: Option<Expr>, onlyExpressionInMethod: bool)
    requires |TermsOf(e)| <= TermLimit
    ensures !IsReported(e, parent, TermLimit, onlyExpressionInMethod)
  {
    CountTermsCountsTerms(e);
  }
}
