/** The three arithmetic no-op lints: AddZero (`x + 0`), SubZero (`x - 0`)
    and MulOne (`x * 1`). Each one looks at a single expression node and its
    two immediate operands and either reports one warning on the node's span
    or reports nothing. */
module Minippy {

  import opened Wrappers
  import opened Hir

  /** Lint levels of the compiler's lint system. */
  datatype Level = Allow | Warn | Deny | Forbid

  /** What a lint declaration keeps: its name (tool name and lint name
      joined by `::`), its default level and its description. */
  datatype Lint = Lint(name: string, defaultLevel: Level, desc: string)

  const ADD_ZERO: Lint := Lint("crate::ADD_ZERO", Warn, "")
  const SUB_ZERO: Lint := Lint("crate::SUB_ZERO", Warn, "")
  const MUL_ONE: Lint := Lint("crate::MUL_ONE", Warn, "")

  /** The fixed message every rule reports. */
  const INEFFECTIVE: string := "Ineffective operation"

  /** A diagnostic handed to the compiler: which lint, at which level, where,
      and the message. A lint emitted at a span takes the lint's level. */
  datatype Diagnostic = Diagnostic(lint: Lint, level: Level, span: Span, message: string)

  // ---------------------------------------------------------------------
  // Literal matchers

  /** `e` is the integer literal 0, with or without a suffix. */
  function IsLitZero(e: Expr): (b: bool)
    ensures b <==> IntLitValue(e) == Some(0)
  {
    match e.kind
    case Lit(Int(0, _)) => true
    case _ => false
  }

  /** `e` is the integer literal 1, with or without a suffix. */
  function IsLitOne(e: Expr): (b: bool)
    ensures b <==> IntLitValue(e) == Some(1)
  {
    match e.kind
    case Lit(Int(1, _)) => true
    case _ => false
  }

  // ---------------------------------------------------------------------
  // The rule set as data: one parameterised rule

  /** A rule: the lint pass's name, the lint it reports, the operator it
      watches and the identity value of that operator. */
  datatype Rule = Rule(name: string, lint: Lint, op: BinOpKind, identity: nat)

  const AddZeroRule: Rule := Rule("AddZero", ADD_ZERO, Add, 0)
  const SubZeroRule: Rule := Rule("SubZero", SUB_ZERO, Sub, 0)
  const MulOneRule: Rule := Rule("MulOne", MUL_ONE, Mul, 1)

  /** The identity operand each watched operator has; `None` for operators
      no rule watches. */
  function IdentityOf(op: BinOpKind): Option<nat>
  {
    match op
    case Add => Some(0)
    case Sub => Some(0)
    case Mul => Some(1)
    case _ => None
  }

  /** The lint that reports a no-op use of `op`. */
  function LintFor(op: BinOpKind): Option<Lint>
  {
    match op
    case Add => Some(ADD_ZERO)
    case Sub => Some(SUB_ZERO)
    case Mul => Some(MUL_ONE)
    case _ => None
  }

  /** The node is one the rule set is meant to flag: written by the user
      (not produced by macro expansion), a binary operation with a watched
      operator, and one of its two immediate operands is an integer literal
      equal to that operator's identity. */
  predicate Linted(e: Expr)
  {
    && !e.span.fromExpansion
    && e.kind.Binary?
    && IdentityOf(e.kind.op).Some?
    && (IntLitValue(e.kind.lhs) == IdentityOf(e.kind.op)
        || IntLitValue(e.kind.rhs) == IdentityOf(e.kind.op))
  }

  /** One rule applied to one node. */
  function CheckExpr(rule: Rule, e: Expr): (r: Option<Diagnostic>)
    ensures r.Some? <==>
      && !e.span.fromExpansion
      && e.kind.Binary? && e.kind.op == rule.op
      && (IntLitValue(e.kind.lhs) == Some(rule.identity)
          || IntLitValue(e.kind.rhs) == Some(rule.identity))
    ensures r.Some? ==>
      r.value == Diagnostic(rule.lint, rule.lint.defaultLevel, e.span, INEFFECTIVE)
  {
    if e.span.fromExpansion then None
    else match e.kind
      case Binary(op, lhs, rhs) =>
        if op == rule.op
           && (IntLitValue(lhs) == Some(rule.identity) || IntLitValue(rhs) == Some(rule.identity))
        then Some(Diagnostic(rule.lint, rule.lint.defaultLevel, e.span, INEFFECTIVE))
        else None
      case _ => None
  }

  // ---------------------------------------------------------------------
  // The three lint passes as the source writes them

  /** AddZero: `x + 0` or `0 + x`. */
  function AddZeroCheckExpr(e: Expr): (r: Option<Diagnostic>)
    ensures r == CheckExpr(AddZeroRule, e)
  {
    if e.span.fromExpansion then None
    else match e.kind
      case Binary(Add, lhs, rhs) =>
        if IsLitZero(lhs) || IsLitZero(rhs)
        then Some(Diagnostic(ADD_ZERO, ADD_ZERO.defaultLevel, e.span, INEFFECTIVE))
        else None
      case _ => None
  }

  /** SubZero: `x - 0` and, as written, also `0 - x`. */
  function SubZeroCheckExpr(e: Expr): (r: Option<Diagnostic>)
    ensures r == CheckExpr(SubZeroRule, e)
  {
    if e.span.fromExpansion then None
    else match e.kind
      case Binary(Sub, lhs, rhs) =>
        if IsLitZero(lhs) || IsLitZero(rhs)
        then Some(Diagnostic(SUB_ZERO, SUB_ZERO.defaultLevel, e.span, INEFFECTIVE))
        else None
      case _ => None
  }

  /** MulOne: `x * 1` or `1 * x`. */
  function MulOneCheckExpr(e: Expr): (r: Option<Diagnostic>)
    ensures r == CheckExpr(MulOneRule, e)
  {
    if e.span.fromExpansion then None
    else match e.kind
      case Binary(Mul, lhs, rhs) =>
        if IsLitOne(lhs) || IsLitOne(rhs)
        then Some(Diagnostic(MUL_ONE, MUL_ONE.defaultLevel, e.span, INEFFECTIVE))
        else None
      case _ => None
  }
}
