/** Typed expressions and constants as the folder sees them. */
module Hir {
  import opened Options

  datatype Result<T> = Ok(value: T) | Err(error: Error) {
    predicate IsFailure() {
      Err?
    }
    function PropagateFailure<U>(): Result<U>
      requires Err?
    {
      Err(error)
    }
    function Extract(): T
      requires Ok?
    {
      value
    }
  }

  /** `Abort` stands for the panics of checked Rust operations. */
  datatype Error =
    | ConstOverflow(positive: bool)
    | DivideByZero
    | NullPointerDereference
    | NegativeShift(isLeft: bool)
    | TooManyShiftBits(current: nat, maximum: nat)
    | NoSize
    | Abort

  // ---------------------------------------------------------------- types

  datatype Target = Sia32 | Amd64

  datatype CType =
    | Bool | Char(plain: bool) | SignedChar | Short(signed: bool) | Int(signed: bool) | Long(signed: bool)
    | LongLong(signed: bool) | Enum(members: seq<(string, int)>)
    | Float | Double | LongDouble
    | Pointer
    | VariableArray
    | Whole(size: Option<nat>)

  predicate IsIntegral(t: CType) {
    t.Bool? || t.Char? || t.SignedChar? || t.Short? || t.Int? || t.Long? || t.LongLong? || t.Enum?
  }

  predicate IsSigned(t: CType) {
    match t
    case Bool => true
    case Char(plain) => plain
    case SignedChar => true
    case Short(signed) => signed
    case Int(signed) => signed
    case Long(signed) => signed
    case LongLong(signed) => signed
    case Enum(_) => true
    case _ => false
  }

  predicate IsFloating(t: CType) {
    t.Float? || t.Double? || t.LongDouble?
  }

  function WordBytes(target: Target): nat {
    if target == Amd64 then 8 else 4
  }

  /** sizeof_for; `Whole` stands for the types whose size was computed elsewhere, or refused. */
  function SizeOf(t: CType, target: Target): Option<nat> {
    match t
    case Bool => Some(1)
    case Char(_) => Some(1)
    case SignedChar => Some(1)
    case Short(_) => Some(2)
    case Int(_) => Some(4)
    case Long(_) => Some(WordBytes(target))
    case LongLong(_) => Some(8)
    case Enum(members) => EnumSize(|members|, target)
    case Float => Some(4)
    case Double => Some(8)
    case LongDouble => if target == Sia32 then Some(8) else None
    case Pointer => Some(WordBytes(target))
    case VariableArray => None
    case Whole(size) => size
  }

  function EnumSize(members: nat, target: Target): Option<nat> {
    if target == Amd64 then Some(4)
    else
      var n := (members + 7) / 8;
      if n <= 8 then Some(8) else if n <= 16 then Some(16) else if n <= 32 then Some(32)
      else if n <= 64 then Some(64) else None
  }

  // ---------------------------------------------------------------- expressions

  datatype Literal = IntLit(i: int) | UnsignedLit(u: nat) | FloatLit(f: nat) | StrLit(s: seq<nat>) | CharLit(c: nat)

  datatype Comparison = Less | LessEqual | Greater | GreaterEqual | EqualEqual | NotEqual

  datatype BinaryOp =
    | LogicalOr | BitwiseOr | LogicalAnd | BitwiseAnd | Xor | Mul | Div | Mod | Add | Sub | Shl | Shr
    | Compare(comparison: Comparison)
    | Assign

  datatype Expr = Expr(kind: Kind, ctype: CType, lval: bool)

  datatype Kind =
    | Id(name: string)
    | Constant(literal: Literal)
    | FuncCall(callee: Expr, params: seq<Expr>)
    | Member(of: Expr, member: string)
    | PostIncrement(operand: Expr, increase: bool)
    | Cast(operand: Expr)
    | Sizeof(of_type: CType)
    | Deref(operand: Expr)
    | Negate(operand: Expr)
    | BitwiseNot(operand: Expr)
    | Binary(op: BinaryOp, left: Expr, right: Expr)
    | Ternary(condition: Expr, then_: Expr, otherwise: Expr)
    | Comma(left: Expr, right: Expr)
    | StaticRef(operand: Expr)
    | Noop(operand: Expr)

  /** Nodes of an expression. */
  function Size(e: Expr): nat
    decreases e
  {
    1 + KindSize(e.kind)
  }

  function KindSize(k: Kind): nat
    decreases k
  {
    match k
    case Id(_) => 0
    case Constant(_) => 0
    case Sizeof(_) => 0
    case FuncCall(callee, params) => Size(callee) + SizeAll(params)
    case Member(of, _) => Size(of)
    case PostIncrement(x, _) => Size(x)
    case Cast(x) => Size(x)
    case Deref(x) => Size(x)
    case Negate(x) => Size(x)
    case BitwiseNot(x) => Size(x)
    case Binary(_, left, right) => Size(left) + Size(right)
    case Ternary(c, a, b) => Size(c) + Size(a) + Size(b)
    case Comma(left, right) => Size(left) + Size(right)
    case StaticRef(x) => Size(x)
    case Noop(x) => Size(x)
  }

  function SizeAll(es: seq<Expr>): nat
    decreases es
  {
    if es == [] then 0 else Size(es[0]) + SizeAll(es[1..])
  }

  /** The arms of every comma and conditional have the type of the node itself. */
  predicate TypedArms(e: Expr)
    decreases e, 0
  {
    KindTyped(e.kind, e.ctype)
  }

  predicate KindTyped(k: Kind, t: CType)
    decreases k, 1
  {
    match k
    case Id(_) => true
    case Constant(_) => true
    case Sizeof(_) => true
    case FuncCall(callee, params) => TypedArms(callee) && AllTyped(params)
    case Member(of, _) => TypedArms(of)
    case PostIncrement(x, _) => TypedArms(x)
    case Cast(x) => TypedArms(x)
    case Deref(x) => TypedArms(x)
    case Negate(x) => TypedArms(x)
    case BitwiseNot(x) => TypedArms(x)
    case Binary(_, left, right) => TypedArms(left) && TypedArms(right)
    case Ternary(c, a, b) => TypedArms(c) && TypedArms(a) && TypedArms(b) && a.ctype == t && b.ctype == t
    case Comma(left, right) => TypedArms(left) && TypedArms(right) && right.ctype == t
    case StaticRef(x) => TypedArms(x)
    case Noop(x) => TypedArms(x)
  }

  predicate AllTyped(es: seq<Expr>)
    decreases es, 0
  {
    es == [] || (TypedArms(es[0]) && AllTyped(es[1..]))
  }
}
