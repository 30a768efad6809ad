/** Folding again changes nothing, so the second folding of operands can be dropped. */
module FoldLaws {
  import opened Hir
  import opened Constants
  import opened Fold

  ghost predicate Stable(e: Expr, env: Env) {
    FoldExpr(e, env) == Ok(e)
  }

  ghost predicate AllStable(es: seq<Expr>, env: Env) {
    forall e :: e in es ==> Stable(e, env)
  }

  /** The folded node is well typed and folds to itself. */
  ghost predicate Settled(k: Kind, t: CType, env: Env) {
    KindTyped(k, t) && FoldKind(k, t, env) == Ok(k)
  }

  lemma {:induction false} StableAll(es: seq<Expr>, env: Env)
    requires AllStable(es, env)
    ensures FoldAll(es, env) == Ok(es)
  {
    hide FoldExpr;
    if es != [] {
      assert es[0] in es && Stable(es[0], env);
      StableAll(es[1..], env);
      assert [es[0]] + es[1..] == es;
    }
  }

  lemma StableKind(e: Expr, env: Env)
    requires Stable(e, env)
    ensures FoldKind(e.kind, e.ctype, env) == Ok(e.kind)
  {
    if !e.kind.Constant? {
      var k := FoldKind(e.kind, e.ctype, env).value;
      assert Narrowed(k, e.ctype, env) == e.kind;
    }
  }

  lemma SettledConstant(l: Literal, t: CType, env: Env)
    ensures Settled(Constant(l), t, env)
  {
  }

  /** Rounding the constant that a node folded to keeps it settled. */
  lemma SettledNarrowed(k: Kind, t: CType, env: Env)
    requires Settled(k, t, env) && Rounds(env.unit)
    ensures Settled(Narrowed(k, t, env), t, env) && Narrowed(Narrowed(k, t, env), t, env) == Narrowed(k, t, env)
  {
    if Narrowed(k, t, env) != k {
      SettledConstant(Narrowed(k, t, env).literal, t, env);
    }
  }

  /** A binary node over stable operands that was not made into a constant stays as it is. */
  lemma SettledBinary(l: Expr, r: Expr, op: BinaryOp, t: CType, env: Env)
    requires Stable(l, env) && Stable(r, env) && TypedArms(l) && TypedArms(r)
    requires !ShortCircuits(op, l.kind, env) && !Refused(op, r, env)
    requires Finished(op, l, r, t, env) == Ok(Binary(op, l, r))
    ensures Settled(Binary(op, l, r), t, env)
  {
    hide FoldExpr, Finished, ShortCircuits, Refused, TypedArms;
    assert op.Assign? ==> op == Assign;
    assert FoldBinary(l, r, op, t, env) == Ok(Binary(op, l, r));
  }

  lemma {:induction false} FoldStable(e: Expr, env: Env)
    requires TypedArms(e) && Rounds(env.unit) && FoldExpr(e, env).Ok?
    ensures Stable(FoldExpr(e, env).value, env) && TypedArms(FoldExpr(e, env).value)
    decreases Size(e), 0
  {
    hide KindTyped, FoldKind, Narrowed;
    var k := FoldKind(e.kind, e.ctype, env).value;
    assert KindTyped(e.kind, e.ctype);
    KindStable(e.kind, e.ctype, env);
    SettledNarrowed(k, e.ctype, env);
    assert FoldExpr(e, env).value == Expr(Narrowed(k, e.ctype, env), e.ctype, e.lval);
  }

  lemma {:induction false} AllFoldStable(es: seq<Expr>, env: Env)
    requires AllTyped(es) && Rounds(env.unit) && FoldAll(es, env).Ok?
    ensures AllStable(FoldAll(es, env).value, env) && AllTyped(FoldAll(es, env).value)
    decreases SizeAll(es), |es|, 2
  {
    hide FoldExpr, TypedArms, Stable;
    if es != [] {
      FoldStable(es[0], env);
      AllFoldStable(es[1..], env);
      var first, rest := FoldExpr(es[0], env).value, FoldAll(es[1..], env).value;
      assert ([first] + rest)[1..] == rest;
    }
  }

  lemma {:induction false} BinaryStable(left: Expr, right: Expr, op: BinaryOp, t: CType, env: Env)
    requires TypedArms(left) && TypedArms(right) && Rounds(env.unit) && FoldBinary(left, right, op, t, env).Ok?
    ensures Settled(FoldBinary(left, right, op, t, env).value, t, env)
    decreases Size(left) + Size(right), 0
  {
    hide FoldExpr, Finished, ShortCircuits, Refused, TypedArms, Settled;
    var k := FoldBinary(left, right, op, t, env).value;
    FoldStable(left, env);
    var l := FoldExpr(left, env).value;
    if ShortCircuits(op, l.kind, env) {
      SettledConstant(k.literal, t, env);
    } else {
      FoldStable(right, env);
      var r := FoldExpr(right, env).value;
      FinishedShape(op, l, r, t, env);
      if k.Constant? {
        SettledConstant(k.literal, t, env);
      } else {
        assert op.Assign? ==> Finished(op, l, r, t, env) == Ok(Binary(op, l, r)) by { AssignFinished(l, r, t, env); }
        SettledBinary(l, r, op, t, env);
      }
    }
  }

  lemma AssignFinished(l: Expr, r: Expr, t: CType, env: Env)
    ensures Finished(Assign, l, r, t, env) == Ok(Binary(Assign, l, r))
  {
  }

  lemma {:induction false} KindStable(k: Kind, t: CType, env: Env)
    requires KindTyped(k, t) && Rounds(env.unit) && FoldKind(k, t, env).Ok?
    ensures Settled(FoldKind(k, t, env).value, t, env)
    decreases KindSize(k), 1
  {
    hide FoldExpr, FoldAll, FoldBinary, TypedArms, AllTyped, Complemented, Negated, CastLiteral, LiteralTruth;
    var r := FoldKind(k, t, env).value;
    match k
    case Id(_) =>
    case Constant(_) =>
    case Sizeof(_) =>
    case FuncCall(callee, params) =>
      FoldStable(callee, env);
      AllFoldStable(params, env);
      StableAll(r.params, env);
    case Member(of, _) => FoldStable(of, env);
    case PostIncrement(x, _) => FoldStable(x, env);
    case Cast(x) => FoldStable(x, env);
    case Deref(x) => FoldStable(x, env);
    case Negate(x) => FoldStable(x, env);
    case BitwiseNot(x) => FoldStable(x, env);
    case Binary(op, left, right) => BinaryStable(left, right, op, t, env);
    case Ternary(c, a, b) =>
      TernaryStable(c, a, b, t, env);
    case Comma(left, right) =>
      FoldStable(left, env);
      FoldStable(right, env);
      if FoldExpr(left, env).value.kind.Constant? {
        ArmSettled(FoldExpr(right, env).value, t, env);
      }
    case StaticRef(x) => FoldStable(x, env);
    case Noop(x) => FoldStable(x, env);
  }

  lemma {:induction false} TernaryStable(c: Expr, a: Expr, b: Expr, t: CType, env: Env)
    requires KindTyped(Ternary(c, a, b), t) && Rounds(env.unit) && FoldKind(Ternary(c, a, b), t, env).Ok?
    ensures Settled(FoldKind(Ternary(c, a, b), t, env).value, t, env)
    decreases KindSize(Ternary(c, a, b)), 0
  {
    hide FoldExpr, TypedArms, LiteralTruth;
    FoldStable(c, env);
    match LiteralTruth(FoldExpr(c, env).value.kind, env.unit)
    case Some(false) =>
      FoldStable(b, env);
      ArmSettled(FoldExpr(b, env).value, t, env);
    case Some(true) =>
      FoldStable(a, env);
      ArmSettled(FoldExpr(a, env).value, t, env);
    case None =>
      FoldStable(a, env);
      FoldStable(b, env);
  }

  /** An arm that takes the place of its node settles there, because it has the node's type. */
  lemma ArmSettled(arm: Expr, t: CType, env: Env)
    requires Stable(arm, env) && TypedArms(arm) && arm.ctype == t
    ensures Settled(arm.kind, t, env)
  {
    StableKind(arm, env);
  }

  /** Folding is idempotent on expressions whose comma and conditional arms carry the node's type. */
  lemma FoldTwice(e: Expr, env: Env)
    requires TypedArms(e) && Rounds(env.unit) && FoldExpr(e, env).Ok?
    ensures FoldExpr(FoldExpr(e, env).value, env) == FoldExpr(e, env)
  {
    FoldStable(e, env);
  }

  /** The hypothesis cannot be dropped: a comma of type int over a cast to a pointer folds to that cast
      at type int, which folds again to -1. The parser gives a comma the type of its right arm, so this
      expression is not one that it is shown to build. */
  lemma FoldTwiceFails(env: Env)
    ensures var pointer := Expr(Cast(Expr(Constant(IntLit(-1)), CType.Int(true), false)), Pointer, false);
      var e := Expr(Comma(Expr(Constant(IntLit(1)), CType.Int(true), false), pointer), CType.Int(true), false);
      && !TypedArms(e)
      && FoldExpr(e, env) == Ok(Expr(pointer.kind, CType.Int(true), false))
      && FoldExpr(Expr(pointer.kind, CType.Int(true), false), env) == Ok(Expr(Constant(IntLit(-1)), CType.Int(true), false))
  {
    var one, minus := Expr(Constant(IntLit(1)), CType.Int(true), false), Expr(Constant(IntLit(-1)), CType.Int(true), false);
    var pointer := Expr(Cast(minus), Pointer, false);
    assert FoldExpr(one, env) == Ok(one) && FoldExpr(minus, env) == Ok(minus);
    assert FoldKind(pointer.kind, Pointer, env) == Ok(pointer.kind);
    assert FoldExpr(pointer, env) == Ok(pointer);
    assert FoldKind(Comma(one, pointer), CType.Int(true), env) == Ok(pointer.kind);
    assert FoldKind(pointer.kind, CType.Int(true), env) == Ok(minus.kind);
  }

  // ---------------------------------------------------------------- what the analyzer builds

  /** How the arm of a conditional gets the common type: by a cast, or, between pointers and for a null constant, by
      changing its type in place. */
  predicate Promoted(arm: Expr, made: Expr, t: CType) {
    || made == (if arm.ctype == t then arm else Expr(Cast(arm), t, false))
    || (t == Pointer && made == arm.(ctype := Pointer) && (arm.ctype == Pointer || arm.kind.Constant?))
  }

  lemma PromotedTyped(arm: Expr, made: Expr, t: CType)
    requires TypedArms(arm) && Promoted(arm, made, t)
    ensures TypedArms(made) && made.ctype == t
  {
    assert KindTyped(Cast(arm), t);
  }

  /** Commas take the type of their right arm, conditionals the common type of both, so what is built from typed parts
      has typed arms, and keeps them when a pointer is converted to another pointer type in place. */
  lemma AnalyzedTyped(condition: Expr, left: Expr, right: Expr, left': Expr, right': Expr, t: CType)
    requires TypedArms(condition) && TypedArms(left) && TypedArms(right)
    requires Promoted(left, left', t) && Promoted(right, right', t)
    ensures TypedArms(Expr(Comma(left, right), right.ctype, false))
    ensures TypedArms(Expr(Ternary(condition, left', right'), t, false))
    ensures right.ctype == Pointer ==> TypedArms(right.(ctype := Pointer))
  {
    PromotedTyped(left, left', t);
    PromotedTyped(right, right', t);
    hide TypedArms, Promoted;
    assert KindTyped(Comma(left, right), right.ctype);
    assert KindTyped(Ternary(condition, left', right'), t);
    assert TypedArms(Expr(Comma(left, right), right.ctype, false)) by { TypedOf(Comma(left, right), right.ctype); }
    assert TypedArms(Expr(Ternary(condition, left', right'), t, false)) by { TypedOf(Ternary(condition, left', right'), t); }
  }

  lemma TypedOf(k: Kind, t: CType)
    requires KindTyped(k, t)
    ensures TypedArms(Expr(k, t, false))
  {
  }

  // ---------------------------------------------------------------- one pass is enough

  /** The folder without its second folding of operands: plain recursion over the expression. */
  function FoldOnce(e: Expr, env: Env): Result<Expr>
    decreases e, 0
  {
    var k :- OnceKind(e.kind, e.ctype, env);
    Ok(Expr(Narrowed(k, e.ctype, env), e.ctype, e.lval))
  }

  function OnceKind(k: Kind, t: CType, env: Env): Result<Kind>
    decreases k, 0
  {
    match k
    case Id(name) => Ok(IdKind(name, t))
    case Constant(_) => Ok(k)
    case Sizeof(of) => SizeofKind(of, env)
    case Negate(x) => var f :- FoldOnce(x, env); NegatedKind(f, env)
    case BitwiseNot(x) => var f :- FoldOnce(x, env); Ok(ComplementedKind(f))
    case Binary(op, left, right) => FromOperands(op, FoldOnce(left, env), FoldOnce(right, env), t, env)
    case Comma(left, right) =>
      var l :- FoldOnce(left, env);
      var r :- FoldOnce(right, env);
      Ok(if l.kind.Constant? then r.kind else Comma(l, r))
    case Noop(x) => var f :- FoldOnce(x, env); Ok(Noop(f))
    case Deref(x) => var f :- FoldOnce(x, env); Dereferenced(f)
    case Ternary(condition, a, b) =>
      var c :- FoldOnce(condition, env);
      match LiteralTruth(c.kind, env.unit) {
        case Some(false) => var f :- FoldOnce(b, env); Ok(f.kind)
        case Some(true) => var f :- FoldOnce(a, env); Ok(f.kind)
        case None => var x :- FoldOnce(a, env); var y :- FoldOnce(b, env); Ok(Ternary(c, x, y))
      }
    case FuncCall(callee, params) =>
      var f :- FoldOnce(callee, env);
      var ps :- OnceAll(params, env);
      Ok(FuncCall(f, ps))
    case Member(of, member) => var f :- FoldOnce(of, env); Ok(Member(f, member))
    case PostIncrement(x, increase) => var f :- FoldOnce(x, env); Ok(PostIncrement(f, increase))
    case Cast(x) => var f :- FoldOnce(x, env); Ok(Casted(f, t, env))
    case StaticRef(x) => var f :- FoldOnce(x, env); Ok(StaticRef(f))
  }

  function OnceAll(es: seq<Expr>, env: Env): Result<seq<Expr>>
    decreases es, 0
  {
    if es == [] then Ok([])
    else
      var first :- FoldOnce(es[0], env);
      var rest :- OnceAll(es[1..], env);
      Ok([first] + rest)
  }

  /** Folding the operands once more never changes the result or the error. */
  lemma {:induction false} OnceIsEnough(e: Expr, env: Env)
    requires TypedArms(e) && Rounds(env.unit)
    ensures FoldExpr(e, env) == FoldOnce(e, env)
    decreases e, 1
  {
    hide KindTyped, FoldKind, Narrowed, OnceKind;
    assert KindTyped(e.kind, e.ctype);
    KindOnce(e.kind, e.ctype, env);
  }

  lemma {:induction false} AllOnce(es: seq<Expr>, env: Env)
    requires AllTyped(es) && Rounds(env.unit)
    ensures FoldAll(es, env) == OnceAll(es, env)
    decreases es, 1
  {
    hide FoldExpr, FoldOnce, TypedArms;
    if es != [] {
      OnceIsEnough(es[0], env);
      AllOnce(es[1..], env);
    }
  }

  /** fold_binary over operands whose folding is known. */
  lemma BinaryFrom(left: Expr, right: Expr, op: BinaryOp, t: CType, env: Env)
    requires FoldExpr(left, env).Ok? ==> Stable(FoldExpr(left, env).value, env)
    requires FoldExpr(right, env).Ok? ==> Stable(FoldExpr(right, env).value, env)
    ensures FoldBinary(left, right, op, t, env) == FromOperands(op, FoldExpr(left, env), FoldExpr(right, env), t, env)
  {
    hide FoldExpr, Finished, ShortCircuits, Refused;
    if FoldExpr(left, env).Ok? && FoldExpr(right, env).Ok? {
      AssignFinished(FoldExpr(left, env).value, FoldExpr(right, env).value, t, env);
    }
  }

  function FromOperands(op: BinaryOp, left: Result<Expr>, right: Result<Expr>, t: CType, env: Env): Result<Kind> {
    var l :- left;
    if ShortCircuits(op, l.kind, env) then Ok(Constant(Truth(op.LogicalOr?)))
    else
      var r :- right;
      if Refused(op, r, env) then Err(DivideByZero) else Finished(op, l, r, t, env)
  }

  lemma {:induction false} BinaryOnce(left: Expr, right: Expr, op: BinaryOp, t: CType, env: Env)
    requires TypedArms(left) && TypedArms(right) && Rounds(env.unit)
    ensures FoldBinary(left, right, op, t, env) == OnceKind(Binary(op, left, right), t, env)
    decreases Binary(op, left, right), 0
  {
    hide FoldExpr, FoldOnce, FoldBinary, Finished, ShortCircuits, Refused, TypedArms;
    OnceIsEnough(left, env);
    OnceIsEnough(right, env);
    if FoldExpr(left, env).Ok? {
      FoldStable(left, env);
    }
    if FoldExpr(right, env).Ok? {
      FoldStable(right, env);
    }
    BinaryFrom(left, right, op, t, env);
  }

  lemma {:induction false} KindOnce(k: Kind, t: CType, env: Env)
    requires KindTyped(k, t) && Rounds(env.unit)
    ensures FoldKind(k, t, env) == OnceKind(k, t, env)
    decreases k, 1
  {
    hide FoldExpr, FoldOnce, FoldAll, OnceAll, FoldBinary, TypedArms, AllTyped, LiteralTruth, Casted, NegatedKind;
    hide ComplementedKind, Dereferenced, IdKind, SizeofKind, Finished, ShortCircuits, Refused;
    match k
    case Id(_) =>
    case Constant(_) =>
    case Sizeof(_) =>
    case FuncCall(callee, params) =>
      OnceIsEnough(callee, env);
      AllOnce(params, env);
    case Member(of, _) => OnceIsEnough(of, env);
    case PostIncrement(x, _) => OnceIsEnough(x, env);
    case Cast(x) => OnceIsEnough(x, env);
    case Deref(x) => OnceIsEnough(x, env);
    case Negate(x) => OnceIsEnough(x, env);
    case BitwiseNot(x) => OnceIsEnough(x, env);
    case Binary(op, left, right) => BinaryOnce(left, right, op, t, env);
    case Ternary(c, a, b) =>
      OnceIsEnough(c, env);
      OnceIsEnough(a, env);
      OnceIsEnough(b, env);
    case Comma(left, right) =>
      OnceIsEnough(left, env);
      OnceIsEnough(right, env);
    case StaticRef(x) => OnceIsEnough(x, env);
    case Noop(x) => OnceIsEnough(x, env);
  }
}
