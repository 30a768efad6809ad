/** fold.rs: constant folding. Operators fold their operands, then fold the folded operands again. */
module Fold {
  import opened Options
  import opened Hir
  import opened Powers
  import Words
  import opened Constants

  datatype Env = Env(target: Target, unit: FloatUnit)

  // ---------------------------------------------------------------- results from folded operands

  /** Binary constants are rounded to their C type. */
  function Narrowed(k: Kind, t: CType, env: Env): Kind {
    if t.Float? && k.Constant? && k.literal.FloatLit? then Constant(FloatLit(env.unit.narrow(k.literal.f))) else k
  }

  function EnumConstant(members: seq<(string, int)>, name: string): Option<int> {
    if members == [] then None
    else if members[0].0 == name then Some(members[0].1)
    else EnumConstant(members[1..], name)
  }

  function ShortCircuits(op: BinaryOp, left: Kind, env: Env): bool {
    || (op.LogicalAnd? && LiteralTruth(left, env.unit) == Some(false))
    || (op.LogicalOr? && LiteralTruth(left, env.unit) == Some(true))
  }

  /** The refusals that look at the right operand alone. */
  function Refused(op: BinaryOp, right: Expr, env: Env): bool {
    || (op.Div? && IsIntegral(right.ctype) && IsZero(right.kind, env.unit))
    || (op.Mod? && IsZero(right.kind, env.unit))
  }

  /** literal_bin_op and fold_compare_op, on operands that are folded for the last time. */
  function Combined(op: BinaryOp, left: Expr, right: Expr, env: Env): Result<Kind> {
    if left.kind.Constant? && right.kind.Constant? then
      var r :- Operate(op, left.kind.literal, right.kind.literal, env.unit);
      Ok(if r.Some? then Constant(r.value) else Binary(op, left, right))
    else Ok(Binary(op, left, right))
  }

  function ShiftedRight(left: Expr, right: Expr, t: CType, env: Env): Result<Kind> {
    if !right.kind.Constant? then Ok(Binary(Shr, left, right))
    else
      var shift := NonNegative(right.kind.literal);
      if shift.None? then Err(NegativeShift(false))
      else
        var size := SizeOf(t, env.target);
        if size.None? then Err(NoSize)
        else if shift.value >= 8 * size.value then Ok(Constant(if IsSigned(t) then IntLit(0) else UnsignedLit(0)))
        else if !left.kind.Constant? then Ok(Binary(Shr, left, right))
        else
          PowPos(2, shift.value % 64);
          match left.kind.literal
          case IntLit(i) => Ok(Constant(IntLit(i / Pow2(shift.value % 64))))
          case UnsignedLit(u) => Ok(Constant(UnsignedLit(Quotient(u, shift.value % 64))))
          case _ => Err(Abort)
  }

  function Quotient(u: nat, k: nat): nat {
    PowPos(2, k);
    var q := u / Pow2(k);
    if q >= 0 then q else 0
  }

  function ShiftedLeft(left: Expr, right: Expr, env: Env): Result<Kind> {
    if !right.kind.Constant? then Ok(Binary(Shl, left, right))
    else
      var shift := NonNegative(right.kind.literal);
      if shift.None? then Err(NegativeShift(true))
      else
        var size := SizeOf(left.ctype, env.target);
        if IsSigned(left.ctype) && size.None? then Err(NoSize)
        else if IsSigned(left.ctype) && shift.value >= 8 * size.value then
          Err(TooManyShiftBits(shift.value, 8 * size.value))
        else if !left.kind.Constant? then Ok(Binary(Shl, left, right))
        else
          var narrow := shift.value % Words.W32;
          match left.kind.literal
          case IntLit(i) =>
            if narrow >= 64 then Err(ConstOverflow(true))
            else Ok(Constant(IntLit(Wrapped(i * Pow2(narrow)))))
          case UnsignedLit(u) => Ok(Constant(UnsignedLit(u * Pow2(narrow % 64) % Words.W64)))
          case _ => Ok(Binary(Shl, left, right))
  }

  /** A binary operator on operands that are folded for the last time. */
  function Finished(op: BinaryOp, left: Expr, right: Expr, t: CType, env: Env): Result<Kind> {
    match op
    case Shl => ShiftedLeft(left, right, env)
    case Shr => ShiftedRight(left, right, t, env)
    case Assign => Ok(Binary(Assign, left, right))
    case _ => Combined(op, left, right, env)
  }

  /** Either a constant, or the operator on the very operands. */
  lemma FinishedShape(op: BinaryOp, left: Expr, right: Expr, t: CType, env: Env)
    ensures var r := Finished(op, left, right, t, env);
      r.Ok? ==> r.value.Constant? || r.value == Binary(op, left, right)
  {
  }

  function Casted(operand: Expr, t: CType, env: Env): Kind {
    if operand.kind.Constant? then
      var l := CastLiteral(operand.kind.literal, t, env.unit);
      if l.Some? then Constant(l.value) else Cast(operand)
    else Cast(operand)
  }

  function NegatedKind(operand: Expr, env: Env): Result<Kind> {
    if operand.kind.Constant? then
      var l :- Constants.Negated(operand.kind.literal, env.unit);
      Ok(Constant(l))
    else Ok(Kind.Negate(operand))
  }

  function ComplementedKind(operand: Expr): Kind {
    if operand.kind.Constant? then Constant(Complemented(operand.kind.literal)) else Kind.BitwiseNot(operand)
  }

  function Dereferenced(operand: Expr): Result<Kind> {
    if operand.kind == Constant(IntLit(0)) then Err(NullPointerDereference) else Ok(Deref(operand))
  }

  function IdKind(name: string, t: CType): Kind {
    if t.Enum? && EnumConstant(t.members, name).Some? then Constant(IntLit(EnumConstant(t.members, name).value))
    else Id(name)
  }

  function SizeofKind(of: CType, env: Env): Result<Kind> {
    if of.VariableArray? then Ok(Sizeof(of))
    else if SizeOf(of, env.target).Some? then Ok(Constant(UnsignedLit(SizeOf(of, env.target).value)))
    else Err(NoSize)
  }

  // ---------------------------------------------------------------- the folder

  /** const_fold_for: keeps the type of the node, and an expression that it accepts does not grow. Without that
      the recursion on operands that are folded already would not be known to end. */
  function FoldExpr(e: Expr, env: Env): (r: Result<Expr>)
    ensures r.Ok? ==> Size(r.value) <= Size(e) && r.value.ctype == e.ctype && r.value.lval == e.lval
    decreases Size(e), 0
  {
    var k :- FoldKind(e.kind, e.ctype, env);
    Ok(Expr(Narrowed(k, e.ctype, env), e.ctype, e.lval))
  }

  function FoldKind(k: Kind, t: CType, env: Env): (r: Result<Kind>)
    ensures r.Ok? ==> KindSize(r.value) <= KindSize(k)
    decreases KindSize(k), 1
  {
    match k
    case Id(name) => Ok(IdKind(name, t))
    case Constant(_) => Ok(k)
    case Sizeof(of) => SizeofKind(of, env)
    case Negate(x) => var f :- FoldExpr(x, env); NegatedKind(f, env)
    case BitwiseNot(x) => var f :- FoldExpr(x, env); Ok(ComplementedKind(f))
    case Binary(op, left, right) => FoldBinary(left, right, op, t, env)
    case Comma(left, right) =>
      var l :- FoldExpr(left, env);
      var r :- FoldExpr(right, env);
      Ok(if l.kind.Constant? then r.kind else Comma(l, r))
    case Noop(x) => var f :- FoldExpr(x, env); Ok(Noop(f))
    case Deref(x) => var f :- FoldExpr(x, env); Dereferenced(f)
    case Ternary(condition, a, b) =>
      var c :- FoldExpr(condition, env);
      match LiteralTruth(c.kind, env.unit) {
        case Some(false) => var f :- FoldExpr(b, env); Ok(f.kind)
        case Some(true) => var f :- FoldExpr(a, env); Ok(f.kind)
        case None => var x :- FoldExpr(a, env); var y :- FoldExpr(b, env); Ok(Ternary(c, x, y))
      }
    case FuncCall(callee, params) =>
      var f :- FoldExpr(callee, env);
      var ps :- FoldAll(params, env);
      Ok(FuncCall(f, ps))
    case Member(of, member) => var f :- FoldExpr(of, env); Ok(Member(f, member))
    case PostIncrement(x, increase) => var f :- FoldExpr(x, env); Ok(PostIncrement(f, increase))
    case Cast(x) => var f :- FoldExpr(x, env); Ok(Casted(f, t, env))
    case StaticRef(x) => var f :- FoldExpr(x, env); Ok(StaticRef(f))
  }

  function FoldAll(es: seq<Expr>, env: Env): (r: Result<seq<Expr>>)
    ensures r.Ok? ==> |r.value| == |es| && SizeAll(r.value) <= SizeAll(es)
    decreases SizeAll(es), |es|, 2
  {
    if es == [] then Ok([])
    else
      var first :- FoldExpr(es[0], env);
      var rest :- FoldAll(es[1..], env);
      Ok([first] + rest)
  }

  /** fold_binary, and the helpers that fold the folded operands once more. */
  function FoldBinary(left: Expr, right: Expr, op: BinaryOp, t: CType, env: Env): (r: Result<Kind>)
    ensures r.Ok? ==> KindSize(r.value) <= Size(left) + Size(right)
    decreases Size(left) + Size(right), 0
  {
    var l :- FoldExpr(left, env);
    if ShortCircuits(op, l.kind, env) then Ok(Constant(Truth(op.LogicalOr?)))
    else
      var r :- FoldExpr(right, env);
      if Refused(op, r, env) then Err(DivideByZero)
      else if op.Assign? then Ok(Binary(Assign, l, r))
      else
        var l2 :- FoldExpr(l, env);
        var r2 :- FoldExpr(r, env);
        FinishedShape(op, l2, r2, t, env);
        Finished(op, l2, r2, t, env)
  }
}
