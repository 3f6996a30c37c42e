/** A stand-in for the compiler's late-lint visitor, which the lints rely on
    but do not contain: every registered pass's check runs on a node, in
    registration order (AddZero, SubZero, MulOne), and then the visitor
    descends into the node's sub-expressions, left to right. Properties of
    visiting order and completeness are properties of this stand-in. */
module LateLintDriver {

  import opened Wrappers
  import opened Hir
  import opened Minippy

  /** All registered passes on one node. */
  function CheckAllPasses(e: Expr): (ds: seq<Diagnostic>)
    ensures |ds| == if Linted(e) then 1 else 0
    ensures forall d | d in ds ::
      && Some(d.lint) == LintFor(e.kind.op)
      && d.level == Warn && d.span == e.span && d.message == INEFFECTIVE
  {
    ToSeq(AddZeroCheckExpr(e)) + ToSeq(SubZeroCheckExpr(e)) + ToSeq(MulOneCheckExpr(e))
  }

  /** The diagnostics of a whole tree, as the visitor produces them. */
  function Walk(e: Expr): seq<Diagnostic>
    decreases e
  {
    CheckAllPasses(e) +
    match e.kind
    case Lit(_) => []
    case Binary(_, lhs, rhs) => Walk(lhs) + Walk(rhs)
    case Unary(_, x) => Walk(x)
    case Other(cs) => WalkAll(cs)
  }

  function WalkAll(es: seq<Expr>): seq<Diagnostic>
    decreases es
  {
    if es == [] then [] else Walk(es[0]) + WalkAll(es[1..])
  }

  // ---------------------------------------------------------------------
  // Reference definitions: the nodes of a tree, and their diagnostics

  /** Every node of the tree, in pre-order. */
  function Nodes(e: Expr): seq<Expr>
    decreases e
  {
    [e] +
    match e.kind
    case Lit(_) => []
    case Binary(_, lhs, rhs) => Nodes(lhs) + Nodes(rhs)
    case Unary(_, x) => Nodes(x)
    case Other(cs) => NodesAll(cs)
  }

  function NodesAll(es: seq<Expr>): seq<Expr>
    decreases es
  {
    if es == [] then [] else Nodes(es[0]) + NodesAll(es[1..])
  }

  /** The results of `f` on every element of `xs`, concatenated in order. */
  function ConcatMap<A, B>(f: A -> seq<B>, xs: seq<A>): seq<B>
  {
    if xs == [] then [] else f(xs[0]) + ConcatMap(f, xs[1..])
  }

  /** The diagnostics of a list of nodes, each checked on its own. */
  function DiagnosticsOf(ns: seq<Expr>): seq<Diagnostic>
  {
    ConcatMap(CheckAllPasses, ns)
  }

  /** How many of the nodes are `Linted`. */
  function CountLinted(ns: seq<Expr>): nat
  {
    if ns == [] then 0 else (if Linted(ns[0]) then 1 else 0) + CountLinted(ns[1..])
  }

  lemma {:induction false} ConcatMapAppend<A, B>(f: A -> seq<B>, a: seq<A>, b: seq<A>)
    ensures ConcatMap(f, a + b) == ConcatMap(f, a) + ConcatMap(f, b)
  {
    if a == [] {
      assert a + b == b;
    } else {
      assert (a + b)[0] == a[0] && (a + b)[1..] == a[1..] + b;
      ConcatMapAppend(f, a[1..], b);
    }
  }

  lemma DiagnosticsOfAppend(a: seq<Expr>, b: seq<Expr>)
    ensures DiagnosticsOf(a + b) == DiagnosticsOf(a) + DiagnosticsOf(b)
  {
    ConcatMapAppend(CheckAllPasses, a, b);
  }

  /** The visitor's output is the per-node check of every node, in pre-order. */
  lemma {:induction false} WalkIsPerNodeInPreOrder(e: Expr)
    ensures Walk(e) == DiagnosticsOf(Nodes(e))
    decreases e
  {
    var rest := match e.kind
      case Lit(_) => []
      case Binary(_, lhs, rhs) => Nodes(lhs) + Nodes(rhs)
      case Unary(_, x) => Nodes(x)
      case Other(cs) => NodesAll(cs);
    assert Nodes(e) == [e] + rest;
    DiagnosticsOfAppend([e], rest);
    assert DiagnosticsOf([e]) == CheckAllPasses(e) by {
      assert [e][1..] == [];
    }
    match e.kind
    case Lit(_) =>
    case Binary(_, lhs, rhs) =>
      WalkIsPerNodeInPreOrder(lhs);
      WalkIsPerNodeInPreOrder(rhs);
      DiagnosticsOfAppend(Nodes(lhs), Nodes(rhs));
    case Unary(_, x) =>
      WalkIsPerNodeInPreOrder(x);
    case Other(cs) =>
      WalkAllIsPerNodeInPreOrder(cs);
  }

  lemma {:induction false} WalkAllIsPerNodeInPreOrder(es: seq<Expr>)
    ensures WalkAll(es) == DiagnosticsOf(NodesAll(es))
    decreases es
  {
    if es != [] {
      WalkIsPerNodeInPreOrder(es[0]);
      WalkAllIsPerNodeInPreOrder(es[1..]);
      DiagnosticsOfAppend(Nodes(es[0]), NodesAll(es[1..]));
    }
  }

  /** Each `Linted` node contributes exactly one diagnostic, every other
      node none. */
  lemma {:induction false} DiagnosticsOfCount(ns: seq<Expr>)
    ensures |DiagnosticsOf(ns)| == CountLinted(ns)
  {
    if ns != [] {
      DiagnosticsOfCount(ns[1..]);
    }
  }

  /** A diagnostic comes from some node of the list, and every node's own
      diagnostics are among those of the list. */
  lemma {:induction false} ConcatMapMembership<A, B>(f: A -> seq<B>, xs: seq<A>, y: B)
    ensures y in ConcatMap(f, xs) <==> exists x :: x in xs && y in f(x)
  {
    if xs != [] {
      ConcatMapMembership(f, xs[1..], y);
      assert forall x :: x in xs <==> x == xs[0] || x in xs[1..];
    }
  }

  lemma DiagnosticsOfMembership(ns: seq<Expr>, d: Diagnostic)
    ensures d in DiagnosticsOf(ns) <==> exists n :: n in ns && d in CheckAllPasses(n)
  {
    ConcatMapMembership(CheckAllPasses, ns, d);
  }

  /** Over a whole tree, the number of diagnostics is the number of
      `Linted` nodes: one report per offending node, none twice. */
  lemma WalkReportsEachLintedNodeOnce(e: Expr)
    ensures |Walk(e)| == CountLinted(Nodes(e))
  {
    WalkIsPerNodeInPreOrder(e);
    DiagnosticsOfCount(Nodes(e));
  }

  /** The diagnostic a `Linted` node gets: its operator's lint, at Warn, on
      the node's own span, with the fixed message. */
  function LintedReport(n: Expr): Diagnostic
    requires Linted(n)
  {
    Diagnostic(LintFor(n.kind.op).value, Warn, n.span, INEFFECTIVE)
  }

  /** One diagnostic of the tree is the report of some `Linted` node of
      the tree. */
  lemma WalkDiagnosticComesFromLintedNode(e: Expr, d: Diagnostic)
    requires d in Walk(e)
    ensures exists n :: n in Nodes(e) && Linted(n) && d == LintedReport(n)
  {
    WalkIsPerNodeInPreOrder(e);
    DiagnosticsOfMembership(Nodes(e), d);
    var n :| n in Nodes(e) && d in CheckAllPasses(n);
    assert Linted(n) && d == LintedReport(n);
  }

  /** One `Linted` node of the tree gets its report. */
  lemma LintedNodeIsReported(e: Expr, n: Expr)
    requires n in Nodes(e) && Linted(n)
    ensures LintedReport(n) in Walk(e)
  {
    WalkIsPerNodeInPreOrder(e);
    assert CheckAllPasses(n) == [LintedReport(n)];
    DiagnosticsOfMembership(Nodes(e), LintedReport(n));
  }

  /** The diagnostics of the tree are exactly the reports of its `Linted`
      nodes. */
  lemma WalkSoundAndComplete(e: Expr)
    ensures forall d | d in Walk(e) :: exists n :: n in Nodes(e) && Linted(n) && d == LintedReport(n)
    ensures forall n | n in Nodes(e) && Linted(n) :: LintedReport(n) in Walk(e)
  {
    forall d | d in Walk(e)
      ensures exists n :: n in Nodes(e) && Linted(n) && d == LintedReport(n)
    {
      WalkDiagnosticComesFromLintedNode(e, d);
    }
    forall n | n in Nodes(e) && Linted(n)
      ensures LintedReport(n) in Walk(e)
    {
      LintedNodeIsReported(e, n);
    }
  }

  // ---------------------------------------------------------------------
  // Whole-tree scenarios

  /** `a * 1 * 1`, parsed as `(a * 1) * 1`, gets two MulOne reports: the
      outer node's first, then the inner node's. */
  lemma MulOneTwiceGivesTwoReports(a: Expr, s: Span, t: Span, u: Span)
    requires !s.fromExpansion && !t.fromExpansion
    requires a.kind.Other? && a.kind.children == []
    ensures
      var one := Expr(Lit(Int(1, Unsuffixed)), u);
      var inner := Expr(Binary(Mul, a, one), t);
      var outer := Expr(Binary(Mul, inner, one), s);
      Walk(outer) == [Diagnostic(MUL_ONE, Warn, s, INEFFECTIVE), Diagnostic(MUL_ONE, Warn, t, INEFFECTIVE)]
  {
    var one := Expr(Lit(Int(1, Unsuffixed)), u);
    var inner := Expr(Binary(Mul, a, one), t);
    assert Walk(a) == [] by {
      assert WalkAll([]) == [];
    }
    assert Walk(one) == [];
    assert Walk(inner) == [Diagnostic(MUL_ONE, Warn, t, INEFFECTIVE)];
  }

  /** `a + b` over two non-literal leaves gets no report. */
  lemma PlainAdditionGivesNoReport(a: Expr, b: Expr, s: Span)
    requires a.kind.Other? && a.kind.children == []
    requires b.kind.Other? && b.kind.children == []
    ensures Walk(Expr(Binary(Add, a, b), s)) == []
  {
    assert Walk(a) == [] by { assert WalkAll([]) == []; }
    assert Walk(b) == [] by { assert WalkAll([]) == []; }
  }

  /** A macro-produced `x + 0` gets no report itself, but a user-written
      operand inside it, here `y * 1`, is still visited and reported. */
  lemma ExpansionSkipsOnlyTheNode(y: Expr, s: Span, t: Span, u: Span)
    requires s.fromExpansion && !t.fromExpansion
    requires y.kind.Other? && y.kind.children == []
    ensures
      var one := Expr(Lit(Int(1, Unsuffixed)), u);
      var zero := Expr(Lit(Int(0, Unsuffixed)), u);
      var user := Expr(Binary(Mul, y, one), t);
      Walk(Expr(Binary(Add, user, zero), s)) == [Diagnostic(MUL_ONE, Warn, t, INEFFECTIVE)]
  {
    var one := Expr(Lit(Int(1, Unsuffixed)), u);
    var zero := Expr(Lit(Int(0, Unsuffixed)), u);
    assert Walk(y) == [] by { assert WalkAll([]) == []; }
    assert Walk(one) == [] && Walk(zero) == [];
  }
}
