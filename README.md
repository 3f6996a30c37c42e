# minippy arithmetic no-op lints, modelled in Dafny

minippy is a small compiler driver that adds three late lint passes to the
Rust compiler. Each pass looks at one typed expression node at a time:

- **AddZero** reports `x + 0` and `0 + x`;
- **SubZero** reports `x - 0` and, as written, also `0 - x`;
- **MulOne** reports `x * 1` and `1 * x`.

A node whose span comes from macro expansion is never reported. Only the
node's two immediate operands are inspected. An operand counts only when it
is an integer literal with the identity value, and the literal's suffix is
ignored. A report is one diagnostic at the lint's level (`Warn` for all
three lints), on the node's own span, with the message
"Ineffective operation".

The model is pure, as the source is:

- `Hir` holds the expression tree: literal, binary and unary nodes, and `Other` for everything else.
- `Minippy` holds the two literal matchers and the three passes as the source writes them. It also has one parameterised rule (`CheckExpr` over a `Rule` record of pass name, lint, operator and identity value). Each hand-written pass is proved equal to its instance of that rule.
- `MinippyProperties` states what the passes promise about a single node.
- `LateLintDriver` is a stand-in for the compiler's visitor. That visitor is not part of this repository. The stand-in runs the passes on each node in registration order, then descends into the sub-expressions. The properties about whole trees (pre-order, one report per offending node, soundness and completeness) are properties of this stand-in.

The lint declarations are the constants `ADD_ZERO`, `SUB_ZERO` and `MUL_ONE`
(`src/main.rs:73-78`, `118-123`, `152-157`). Each keeps its name, `Warn` as
its default level and its empty description. Each name is the tool name and
the lint name joined by `::`.

The comment above `is_lit_one` (`src/main.rs:163`) says it checks for 0. The
code checks for 1, and the model follows the code.

SubZero's check of both operands is kept exactly as written. The lemma
`SubZeroReportsANegation` shows the consequence: the pass reports `0 - x`,
which computes `-x` rather than leaving `x` unchanged.

## Model

| member | source | states |
|---|---|---|
| `Minippy.IsLitZero` | src/main.rs:85-93 | true exactly when the node is an integer literal whose value is 0, whatever its suffix |
| `Minippy.IsLitOne` | src/main.rs:164-172 | true exactly when the node is an integer literal whose value is 1, whatever its suffix (the code tests 1 despite the comment) |
| `Minippy.CheckExpr` | src/main.rs:95-113 | the parameterised rule: reports iff the node is not from expansion, is binary with the rule's operator, and either immediate operand is an integer literal equal to the rule's identity; the report is the rule's lint at its level on the node's span with "Ineffective operation" |
| `Minippy.AddZeroCheckExpr` | src/main.rs:95-113 | AddZero as written equals the parameterised rule with operator Add and identity 0 |
| `Minippy.SubZeroCheckExpr` | src/main.rs:129-147 | SubZero as written equals the parameterised rule with operator Sub and identity 0 |
| `Minippy.MulOneCheckExpr` | src/main.rs:174-192 | MulOne as written equals the parameterised rule with operator Mul and identity 1 |
| `MinippyProperties.OnlyIntegerLiteralZeroIsLitZero` | src/main.rs:85-93 | an integer 0 with any suffix is a literal zero; a byte 0, a float 0.0, `-0`, `1 - 1` and the integer 1 are not |
| `MinippyProperties.OnlyIntegerLiteralOneIsLitOne` | src/main.rs:164-172 | an integer 1 with any suffix is a literal one; the integer 0, a byte 1, a float 1.0 and `true` are not |
| `MinippyProperties.AddZeroLintDeclaration` | src/main.rs:73-78 | the lint is named `crate::ADD_ZERO` with default level Warn, and every AddZero diagnostic is that lint at Warn |
| `MinippyProperties.SubZeroLintDeclaration` | src/main.rs:118-123 | the lint is named `crate::SUB_ZERO` with default level Warn, and every SubZero diagnostic is that lint at Warn |
| `MinippyProperties.MulOneLintDeclaration` | src/main.rs:152-157 | the lint is named `crate::MUL_ONE` with default level Warn, and every MulOne diagnostic is that lint at Warn |
| `MinippyProperties.ExpansionNeverReported` | src/main.rs:97-100 | a node whose span is from macro expansion is reported by none of the three passes, whatever its shape (same guard at lines 132-134 and 177-179) |
| `MinippyProperties.RuleSetReportsExactlyLinted` | src/main.rs:101-110 | some pass reports a node iff it is user-written, binary with a watched operator and has that operator's identity literal as an immediate operand; the report uses that operator's lint, Warn, the node's span and the fixed message |
| `MinippyProperties.AtMostOneRuleFires` | src/main.rs:102-103 | at most one of the three passes reports any node, since each requires its own operator (also lines 136-137, 181-182); a non-binary node is reported by none |
| `MinippyProperties.OnlyImmediateOperandsInspected` | src/main.rs:102-104 | two binary nodes with the same operator and span whose operands look the same at the top level get the same answer, whatever lies deeper |
| `MinippyProperties.NestedAndNegatedZeroNotFlagged` | src/main.rs:86-87 | in `a + (0 + 0)` only the inner addition is reported; `x + -0` is not reported, since `-0` is not a literal |
| `MinippyProperties.SubZeroFlagsBothSides` | src/main.rs:136-138 | SubZero reports `x - 0` and `0 - x` alike, with the same diagnostic |
| `MinippyProperties.MulOneFlagsBothSides` | src/main.rs:181-189 | MulOne reports `x * 1` and `1 * x` for every `x`, with the MUL_ONE diagnostic on the node's span |
| `MinippyProperties.MulOneIgnoresZero` | src/main.rs:181-183 | when `x` is not itself a literal 1, MulOne does not report `x * 0` |
| `MinippyProperties.MulOneIgnoresOtherOperators` | src/main.rs:181-182 | MulOne never reports a binary node whose operator is not `*`, whatever its operands (so not `x + 1`) |
| `MinippyProperties.ReportedOperationIsIneffective` | src/main.rs:106-108 | with built-in integer operators, a reported node evaluates to its other operand: always when the identity is on the right, and for Add and Mul also when it is on the left |
| `MinippyProperties.SubZeroReportsANegation` | src/main.rs:136-138 | SubZero reports `0 - x` for a non-literal `x`, and for every value `v` of `x` the node computes `-v`, which equals `v` only when `v` is 0 |
| `LateLintDriver.CheckAllPasses` | src/main.rs:53-58 | the registered passes together give at most one diagnostic per node, exactly one iff the node is linted, through the operator's lint, at Warn, on the node's span |
| `LateLintDriver.WalkIsPerNodeInPreOrder` | src/main.rs:53-58 | the stand-in visitor's output equals the per-node check of every node of the tree in pre-order |
| `LateLintDriver.WalkReportsEachLintedNodeOnce` | src/main.rs:53-58 | the number of diagnostics for a tree equals the number of linted nodes in it |
| `LateLintDriver.WalkDiagnosticComesFromLintedNode` | src/main.rs:53-58 | any one diagnostic of the tree is exactly the diagnostic (operator's lint, Warn, node span, fixed message) of some linted node of the tree |
| `LateLintDriver.LintedNodeIsReported` | src/main.rs:53-58 | every linted node of the tree gets exactly its diagnostic (operator's lint, Warn, node span, fixed message) in the output |
| `LateLintDriver.WalkSoundAndComplete` | src/main.rs:53-58 | the diagnostics of the tree are exactly the diagnostics of its linted nodes: each one is the diagnostic of some linted node, and each linted node's diagnostic is among them |
| `LateLintDriver.MulOneTwiceGivesTwoReports` | src/main.rs:181-189 | `(a * 1) * 1` gives exactly two MulOne reports, the outer node's then the inner node's |
| `LateLintDriver.PlainAdditionGivesNoReport` | src/main.rs:102-104 | `a + b` over non-literal leaves gives no report |
| `LateLintDriver.ExpansionSkipsOnlyTheNode` | src/main.rs:97-100 | a macro-produced `x + 0` is not reported, but a user-written `y * 1` inside it still is |

## Left out

- `main` (`src/main.rs:23-47`): it finds the sysroot by running `rustc --print=sysroot`, reads the command line and starts the compiler. This is process and I/O plumbing.
- `MinippyCallBacks` (`src/main.rs:49-68`): registering lints in the compiler's store and stopping after analysis are host-compiler wiring. The registration order is kept as the order of passes in `LateLintDriver.CheckAllPasses`.
- The compiler's visitor is not part of this model. `LateLintDriver.Walk` is a stand-in for it.
- `report_in_external_macro: true` in the lint declarations controls filtering inside the compiler. Nothing in the passes observes it. The explicit expansion guard already suppresses reports in expanded code.
- Level overrides (`#[allow(...)]`, `-A`/`-D` flags) belong to the compiler's lint system. A diagnostic here always carries the lint's default level.
- How `Span::from_expansion` is computed and what a span holds: a span is an opaque pair of positions plus the boolean answer of `from_expansion`.
- Emitting a diagnostic is a side effect on the compiler's diagnostic system. Here a pass returns the diagnostic it would emit.
- Expression kinds other than literals and binary and unary operations are collapsed into `Other`, with their sub-expressions. The span of the operator token in a binary node is not modelled.
- Integer literal values are unbounded naturals, not the compiler's 128-bit values. A bound changes nothing in a check that compares against 0 and 1.
- `MinippyProperties.Apply` uses unbounded integers for the built-in integer operators. That matches Rust's built-in integer operators for `x + 0`, `0 + x`, `x - 0`, `x * 1` and `1 * x`, none of which can overflow.
- `MinippyProperties.ReportedOperationIsIneffective` covers only primitive integer arithmetic, the arithmetic `Apply` models. An overloaded `+`, `-` or `*` (for example `t + 0` with a user-defined `Add<i32>` for `T`) is still a binary node. The passes report it too, since they never ask whether the operator is overloaded. The user's implementation need not make it a no-op, and the model does not describe what it computes.
- `MinippyProperties.SubZeroReportsANegation` states the mathematical value `-v` of `0 - x`. In Rust, `0 - x` overflows for an unsigned `x > 0` and for a signed `x` equal to its type's minimum. It panics in debug builds and wraps in release builds. Fixed-width arithmetic is not modelled.
