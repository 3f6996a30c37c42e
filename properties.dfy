/** What the three lints promise about a single node, stated over the rule
    set as a whole and over concrete shapes. */
module MinippyProperties {

  import opened Wrappers
  import opened Hir
  import opened Minippy

  /** Literals that read as zero but are not integer literals, and integer
      expressions that evaluate to zero without being a literal, are not
      `IsLitZero`; an integer 0 with any suffix is, and 1 is not. */
  lemma OnlyIntegerLiteralZeroIsLitZero(s: Span, t: LitIntType)
    ensures IsLitZero(Expr(Lit(Int(0, t)), s))
    ensures !IsLitZero(Expr(Lit(Byte(0)), s))
    ensures !IsLitZero(Expr(Lit(Float("0.0")), s))
    ensures !IsLitZero(Expr(Unary(Neg, Expr(Lit(Int(0, t)), s)), s))
    ensures !IsLitZero(Expr(Binary(Sub, Expr(Lit(Int(1, t)), s), Expr(Lit(Int(1, t)), s)), s))
    ensures !IsLitZero(Expr(Lit(Int(1, t)), s))
  {
  }

  /** An integer 1 with any suffix is `IsLitOne`; the integer 0, a byte 1,
      a float 1.0 and `true` are not. */
  lemma OnlyIntegerLiteralOneIsLitOne(s: Span, t: LitIntType)
    ensures IsLitOne(Expr(Lit(Int(1, t)), s))
    ensures !IsLitOne(Expr(Lit(Int(0, t)), s))
    ensures !IsLitOne(Expr(Lit(Byte(1)), s))
    ensures !IsLitOne(Expr(Lit(Float("1.0")), s))
    ensures !IsLitOne(Expr(Lit(Bool(true)), s))
  {
  }

  /** What each lint declaration fixes: every diagnostic a pass emits is
      its own lint, by that lint's name, at Warn level. */
  lemma AddZeroLintDeclaration(e: Expr)
    ensures ADD_ZERO.name == "crate::ADD_ZERO" && ADD_ZERO.defaultLevel == Warn
    ensures AddZeroCheckExpr(e).Some? ==>
      AddZeroCheckExpr(e).value.lint == ADD_ZERO && AddZeroCheckExpr(e).value.level == Warn
  {
  }

  lemma SubZeroLintDeclaration(e: Expr)
    ensures SUB_ZERO.name == "crate::SUB_ZERO" && SUB_ZERO.defaultLevel == Warn
    ensures SubZeroCheckExpr(e).Some? ==>
      SubZeroCheckExpr(e).value.lint == SUB_ZERO && SubZeroCheckExpr(e).value.level == Warn
  {
  }

  lemma MulOneLintDeclaration(e: Expr)
    ensures MUL_ONE.name == "crate::MUL_ONE" && MUL_ONE.defaultLevel == Warn
    ensures MulOneCheckExpr(e).Some? ==>
      MulOneCheckExpr(e).value.lint == MUL_ONE && MulOneCheckExpr(e).value.level == Warn
  {
  }

  /** A node produced by macro expansion is never reported, whatever its shape. */
  lemma ExpansionNeverReported(e: Expr)
    requires e.span.fromExpansion
    ensures AddZeroCheckExpr(e).None?
    ensures SubZeroCheckExpr(e).None?
    ensures MulOneCheckExpr(e).None?
  {
  }

  /** The three passes together report a node exactly when it is `Linted`,
      through the lint that belongs to its operator, at Warn level, on the
      node's own span, with the fixed message. */
  lemma RuleSetReportsExactlyLinted(e: Expr)
    ensures (AddZeroCheckExpr(e).Some? || SubZeroCheckExpr(e).Some? || MulOneCheckExpr(e).Some?)
            <==> Linted(e)
    ensures Linted(e) ==>
      var d := if AddZeroCheckExpr(e).Some? then AddZeroCheckExpr(e).value
               else if SubZeroCheckExpr(e).Some? then SubZeroCheckExpr(e).value
               else MulOneCheckExpr(e).value;
      && Some(d.lint) == LintFor(e.kind.op)
      && d.level == Warn && d.span == e.span && d.message == INEFFECTIVE
  {
  }

  /** No node is reported by two passes, since each watches its own operator;
      a node that is not a binary operation is reported by none. */
  lemma AtMostOneRuleFires(e: Expr)
    ensures (if AddZeroCheckExpr(e).Some? then 1 else 0)
          + (if SubZeroCheckExpr(e).Some? then 1 else 0)
          + (if MulOneCheckExpr(e).Some? then 1 else 0) <= 1
    ensures !e.kind.Binary? ==>
      AddZeroCheckExpr(e).None? && SubZeroCheckExpr(e).None? && MulOneCheckExpr(e).None?
  {
  }

  /** A rule looks no deeper than the immediate operands: two binary nodes
      with the same operator, span and integer-literal view of their
      operands get the same answer, whatever lies below the operands. */
  lemma OnlyImmediateOperandsInspected(rule: Rule, e1: Expr, e2: Expr)
    requires e1.kind.Binary? && e2.kind.Binary?
    requires e1.kind.op == e2.kind.op && e1.span == e2.span
    requires IntLitValue(e1.kind.lhs) == IntLitValue(e2.kind.lhs)
    requires IntLitValue(e1.kind.rhs) == IntLitValue(e2.kind.rhs)
    ensures CheckExpr(rule, e1) == CheckExpr(rule, e2)
  {
  }

  /** `a + (0 + 0)`: the outer addition is not reported (its right operand
      is a binary node, not a literal) while the inner one is; `x + -0` is
      not reported, since `-0` is a negation node. */
  lemma NestedAndNegatedZeroNotFlagged(a: Expr, x: Expr, s: Span, t: Span)
    requires !s.fromExpansion && !t.fromExpansion
    requires IntLitValue(a).None? && IntLitValue(x).None?
    ensures
      var zero := Expr(Lit(Int(0, Unsuffixed)), t);
      var inner := Expr(Binary(Add, zero, zero), t);
      && AddZeroCheckExpr(Expr(Binary(Add, a, inner), s)).None?
      && AddZeroCheckExpr(inner) == Some(Diagnostic(ADD_ZERO, Warn, t, INEFFECTIVE))
    ensures AddZeroCheckExpr(Expr(Binary(Add, x, Expr(Unary(Neg, Expr(Lit(Int(0, Unsuffixed)), t)), t)), s)).None?
  {
  }

  /** SubZero reports `0 - x` exactly as it reports `x - 0`. */
  lemma SubZeroFlagsBothSides(x: Expr, s: Span, t: Span, k: LitIntType)
    requires !s.fromExpansion
    ensures
      var zero := Expr(Lit(Int(0, k)), t);
      && SubZeroCheckExpr(Expr(Binary(Sub, x, zero), s)) == Some(Diagnostic(SUB_ZERO, Warn, s, INEFFECTIVE))
      && SubZeroCheckExpr(Expr(Binary(Sub, zero, x), s)) == Some(Diagnostic(SUB_ZERO, Warn, s, INEFFECTIVE))
  {
  }

  /** MulOne reports `x * 1` and `1 * x`, whatever `x` is. */
  lemma MulOneFlagsBothSides(x: Expr, s: Span, t: Span, k: LitIntType)
    requires !s.fromExpansion
    ensures
      var one := Expr(Lit(Int(1, k)), t);
      && MulOneCheckExpr(Expr(Binary(Mul, x, one), s)) == Some(Diagnostic(MUL_ONE, Warn, s, INEFFECTIVE))
      && MulOneCheckExpr(Expr(Binary(Mul, one, x), s)) == Some(Diagnostic(MUL_ONE, Warn, s, INEFFECTIVE))
  {
  }

  /** MulOne does not report `x * 0` when `x` is not itself a literal 1
      (`1 * 0` is reported, through its left operand). */
  lemma MulOneIgnoresZero(x: Expr, s: Span, t: Span, k: LitIntType)
    requires !IsLitOne(x)
    ensures MulOneCheckExpr(Expr(Binary(Mul, x, Expr(Lit(Int(0, k)), t)), s)).None?
  {
  }

  /** MulOne never reports a binary node with another operator, whatever its
      operands: `x + 1` and `1 - 1` included. */
  lemma MulOneIgnoresOtherOperators(op: BinOpKind, lhs: Expr, rhs: Expr, s: Span)
    requires op != Mul
    ensures MulOneCheckExpr(Expr(Binary(op, lhs, rhs), s)).None?
  {
  }

  // ---------------------------------------------------------------------
  // What "Ineffective operation" means

  /** Mathematical integer arithmetic of the three watched operators, as
      built-in integer operators compute it. It agrees with Rust's
      fixed-width arithmetic on `x + 0`, `0 + x`, `x - 0`, `x * 1` and
      `1 * x`, which cannot overflow; `0 - x` can. Overloaded operators are
      not described by it. */
  function Apply(op: BinOpKind, a: int, b: int): int
    requires IdentityOf(op).Some?
  {
    match op
    case Add => a + b
    case Sub => a - b
    case Mul => a * b
  }

  /** `v` is a value the operand `e` may evaluate to: a literal evaluates to
      its own value, any other node to anything. */
  predicate MayEvaluateTo(e: Expr, v: int)
  {
    IntLitValue(e).Some? ==> v == IntLitValue(e).value
  }

  /** A reported node computes the value of its other operand: with the
      identity on the right always, with the identity on the left for
      addition and multiplication. */
  lemma ReportedOperationIsIneffective(e: Expr, a: int, b: int)
    requires Linted(e)
    requires MayEvaluateTo(e.kind.lhs, a) && MayEvaluateTo(e.kind.rhs, b)
    ensures IntLitValue(e.kind.rhs) == IdentityOf(e.kind.op) ==> Apply(e.kind.op, a, b) == a
    ensures e.kind.op != Sub && IntLitValue(e.kind.lhs) == IdentityOf(e.kind.op) ==>
      Apply(e.kind.op, a, b) == b
  {
  }

  /** The exception: SubZero reports `0 - x`, which evaluates to the
      negation of `x`, equal to `x` only when `x` is 0. */
  lemma SubZeroReportsANegation(x: Expr, s: Span, t: Span)
    requires !s.fromExpansion && IntLitValue(x).None?
    ensures
      var e := Expr(Binary(Sub, Expr(Lit(Int(0, Unsuffixed)), t), x), s);
      && SubZeroCheckExpr(e).Some?
      && forall v :: MayEvaluateTo(x, v) ==>
           Apply(Sub, 0, v) == -v && (Apply(Sub, 0, v) == v <==> v == 0)
  {
  }
}
