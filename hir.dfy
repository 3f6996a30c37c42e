/** The part of the compiler's typed expression tree that the lints read:
    an expression node carries a kind and a span, and the span says whether
    the node was produced by macro expansion. */
module Hir {

  import opened Wrappers

  /** A source location. Its positions are opaque; `fromExpansion` stands for
      what `Span::from_expansion` answers for it. */
  datatype Span = Span(lo: nat, hi: nat, fromExpansion: bool)

  /** Binary operators of the typed tree. */
  datatype BinOpKind =
    | Add | Sub | Mul | Div | Rem
    | And | Or
    | BitXor | BitAnd | BitOr | Shl | Shr
    | Eq | Lt | Le | Ne | Ge | Gt

  /** Unary operators: `*x`, `!x`, `-x`. */
  datatype UnOp = Deref | Not | Neg

  datatype IntTy = Isize | I8 | I16 | I32 | I64 | I128
  datatype UintTy = Usize | U8 | U16 | U32 | U64 | U128

  /** The suffix of an integer literal, if any (`0u8`, `0i32`, `0`). */
  datatype LitIntType = Signed(ity: IntTy) | Unsigned(uty: UintTy) | Unsuffixed

  /** Literal kinds. An integer literal stores its magnitude (a minus sign is
      a separate `Neg` node) and its suffix. */
  datatype LitKind =
    | Str(text: string)
    | ByteStr(bytes: seq<nat>)
    | Byte(byte: nat)
    | Char(ch: char)
    | Int(value: nat, suffix: LitIntType)
    | Float(symbol: string)
    | Bool(b: bool)
    | Err

  /** An expression node. `Other` stands for every other expression kind
      (paths, calls, blocks, method calls, ...), with its sub-expressions. */
  datatype ExprKind =
    | Lit(lit: LitKind)
    | Binary(op: BinOpKind, lhs: Expr, rhs: Expr)
    | Unary(unop: UnOp, operand: Expr)
    | Other(children: seq<Expr>)

  datatype Expr = Expr(kind: ExprKind, span: Span)

  /** The value of `e` when it is an integer literal, whatever its suffix;
      `None` for every other node, other literal kinds included. */
  function IntLitValue(e: Expr): Option<nat>
  {
    match e.kind
    case Lit(Int(v, _)) => Some(v)
    case _ => None
  }
}
