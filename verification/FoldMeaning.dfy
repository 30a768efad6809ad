/** Folding keeps the meaning of an expression. */
module FoldMeaning {
  import opened Options
  import opened Hir
  import opened Powers
  import Words
  import Constants
  import opened Fold
  import opened FoldLaws
  import opened Evaluation
  import opened FoldArithmetic

  /** The machine runs on the folder's target, with the folder's floating unit. */
  ghost predicate On<S>(m: Machine<S>, env: Env) {
    m.target == env.target && m.unit == env.unit && UnitInRange(env.unit) && Constants.Rounds(env.unit)
  }

  // ---------------------------------------------------------------- operators on constants

  /** What an operator makes of two constants is the value of the operator there. */
  lemma OperateRight<S>(op: BinaryOp, a: Literal, b: Literal, leftType: CType, t: CType, m: Machine<S>, s: S)
    requires !op.LogicalAnd? && !op.LogicalOr? && !op.Assign? && !op.Shl? && !op.Shr? && InRange(a) && InRange(b)
    ensures var r := Constants.Operate(op, a, b, m.unit);
      r.Ok? && r.value.Some? ==>
        InRange(r.value.value) && Operated(op, leftType, t, Scalar(a), Scalar(b), m, s) == Done(Scalar(r.value.value), s)
  {
    hide Constants.Operate, Operated, InRange, Constants.IntOp, Constants.NatOp, SignedBinary, UnsignedBinary;
    if op.Compare? {
      CompareRight(op, a, b, leftType, t, m, s);
    } else if a.IntLit? && b.IntLit? {
      IntsRight(op, a.i, b.i, leftType, t, m, s);
      IntRight(op, a.i, b.i, s);
    } else if a.UnsignedLit? && b.UnsignedLit? {
      WordsRight(op, a.u, b.u, leftType, t, m, s);
      WordRight(op, a.u, b.u);
    } else if a.CharLit? && b.CharLit? {
      BytesRight(op, a.c, b.c, leftType, t, m, s);
      ByteRight(op, a.c, b.c);
    } else {
      OthersRight(op, a, b, leftType, t, m, s);
    }
  }

  lemma CompareRight<S>(op: BinaryOp, a: Literal, b: Literal, leftType: CType, t: CType, m: Machine<S>, s: S)
    requires op.Compare?
    requires !op.LogicalAnd? && !op.LogicalOr? && !op.Assign? && !op.Shl? && !op.Shr? && InRange(a) && InRange(b)
    ensures var r := Constants.Operate(op, a, b, m.unit);
      r.Ok? && r.value.Some? ==>
        InRange(r.value.value) && Operated(op, leftType, t, Scalar(a), Scalar(b), m, s) == Done(Scalar(r.value.value), s)
  {
  }

  lemma IntsRight<S>(op: BinaryOp, x: int, y: int, leftType: CType, t: CType, m: Machine<S>, s: S)
    requires Arithmetic(op) || Bitwise(op)
    ensures Constants.Operate(op, IntLit(x), IntLit(y), m.unit) == Constants.IntOp(op, x, y)
    ensures Operated(op, leftType, t, Scalar(IntLit(x)), Scalar(IntLit(y)), m, s) == SignedBinary(op, x, y, s)
  {
  }

  lemma WordsRight<S>(op: BinaryOp, x: nat, y: nat, leftType: CType, t: CType, m: Machine<S>, s: S)
    requires Arithmetic(op) || Bitwise(op)
    ensures var r := Constants.NatOp(op, x, y, Words.W64);
      Constants.Operate(op, UnsignedLit(x), UnsignedLit(y), m.unit)
        == if r.Err? then Err(r.error) else if r.value.Some? then Ok(Some(UnsignedLit(r.value.value))) else Ok(None)
    ensures var r := UnsignedBinary(op, x, y, 64);
      Operated(op, leftType, t, Scalar(UnsignedLit(x)), Scalar(UnsignedLit(y)), m, s)
        == if r.Some? then Done(Scalar(UnsignedLit(r.value)), s) else Undefined
  {
    hide Constants.NatOp, UnsignedBinary;
  }

  lemma BytesRight<S>(op: BinaryOp, x: nat, y: nat, leftType: CType, t: CType, m: Machine<S>, s: S)
    requires Arithmetic(op) || Bitwise(op)
    ensures var r := Constants.NatOp(op, x, y, 256);
      Constants.Operate(op, CharLit(x), CharLit(y), m.unit)
        == if op.Mod? then Ok(None) else if r.Err? then Err(r.error) else if r.value.Some? then Ok(Some(CharLit(r.value.value))) else Ok(None)
    ensures var r := UnsignedBinary(op, x, y, 8);
      Operated(op, leftType, t, Scalar(CharLit(x)), Scalar(CharLit(y)), m, s)
        == if r.Some? then Done(Scalar(CharLit(r.value)), s) else Undefined
  {
    hide Constants.NatOp, UnsignedBinary;
  }

  lemma OthersRight<S>(op: BinaryOp, a: Literal, b: Literal, leftType: CType, t: CType, m: Machine<S>, s: S)
    requires !op.Compare? && !(a.IntLit? && b.IntLit?) && !(a.UnsignedLit? && b.UnsignedLit?) && !(a.CharLit? && b.CharLit?)
    requires !op.LogicalAnd? && !op.LogicalOr? && !op.Assign? && !op.Shl? && !op.Shr? && InRange(a) && InRange(b)
    ensures var r := Constants.Operate(op, a, b, m.unit);
      r.Ok? && r.value.Some? ==>
        InRange(r.value.value) && Operated(op, leftType, t, Scalar(a), Scalar(b), m, s) == Done(Scalar(r.value.value), s)
  {
    hide Constants.NatOp, UnsignedBinary, Constants.IntOp, SignedBinary;
  }

  lemma WordRight(op: BinaryOp, x: nat, y: nat)
    requires (Arithmetic(op) || Bitwise(op)) && InRange(UnsignedLit(x)) && InRange(UnsignedLit(y))
    ensures var r := UnsignedBinary(op, x, y, 64);
      && Constants.NatOp(op, x, y, Words.W64) == (if r.Some? then Ok(r) else Err(Abort))
      && (r.Some? ==> InRange(UnsignedLit(r.value)))
  {
    hide UnsignedBinary, Constants.NatOp;
    Widths();
    UnsignedArithmetic(op, x, y, 64);
  }

  lemma ByteRight(op: BinaryOp, x: nat, y: nat)
    requires (Arithmetic(op) || Bitwise(op)) && InRange(CharLit(x)) && InRange(CharLit(y))
    ensures var r := UnsignedBinary(op, x, y, 8);
      && Constants.NatOp(op, x, y, 256) == (if r.Some? then Ok(r) else Err(Abort))
      && (r.Some? ==> InRange(CharLit(r.value)))
  {
    hide UnsignedBinary, Constants.NatOp;
    Widths();
    UnsignedArithmetic(op, x, y, 8);
  }

  lemma IntRight<S>(op: BinaryOp, x: int, y: int, s: S)
    requires (Arithmetic(op) || Bitwise(op)) && InRange(IntLit(x)) && InRange(IntLit(y))
    ensures var r := Constants.IntOp(op, x, y);
      r.Ok? ==> r.value.Some? && InRange(r.value.value) && SignedBinary(op, x, y, s) == Done(Scalar(r.value.value), s)
  {
    hide LowBits, BitByBit, SignedOf, TowardZero;
    if Bitwise(op) {
      SignedBits(op, x, y);
    } else if op.Mod? && y != 0 {
      SignedRemainder(x, y);
    } else if !((op.Div? || op.Mod?) && y == 0) {
      SignedArithmetic(op, x, y);
    }
  }

  /** The truth of the constants decides a logical operator. */
  lemma LogicalRight<S>(op: BinaryOp, a: Literal, b: Literal, m: Machine<S>)
    requires op.LogicalAnd? || op.LogicalOr?
    ensures var r := Constants.Operate(op, a, b, m.unit);
      r.Ok? && r.value.Some? ==>
        Scalar(r.value.value) == Flag(if op.LogicalAnd? then True(Scalar(a), m) && True(Scalar(b), m)
                                      else True(Scalar(a), m) || True(Scalar(b), m))
  {
  }

  lemma TruthRight<S>(l: Literal, m: Machine<S>)
    ensures var b := Constants.LiteralTruth(Constant(l), m.unit);
      b.Some? ==> b.value == True(Scalar(l), m)
  {
  }

  lemma MinusRight<S>(l: Literal, t: CType, m: Machine<S>, s: S)
    requires InRange(l)
    ensures var r := Constants.Negated(l, m.unit);
      r.Ok? ==> InRange(r.value) && (Minus(Scalar(l), t, m, s).Done? ==> Minus(Scalar(l), t, m, s) == Done(Scalar(r.value), s))
  {
    hide LowBits;
    match l
    case UnsignedLit(u) => Low64(0 - u as int);
    case CharLit(c) => Low8(0 - c as int);
    case _ =>
  }

  lemma ComplementRight<S>(l: Literal, t: CType, m: Machine<S>, s: S)
    requires InRange(l)
    ensures var c := Constants.Complemented(l);
      InRange(c) && (Complement(Scalar(l), t, m, s).Done? ==> Complement(Scalar(l), t, m, s) == Done(Scalar(c), s))
  {
    hide LowBits, BitByBit, SignedOf;
    match l
    case IntLit(i) => ComplementInt(i);
    case UnsignedLit(u) => ComplementWord(u, 64);
    case CharLit(c) => ComplementWord(c, 8);
    case _ =>
  }

  lemma ComplementWord(u: nat, n: nat)
    requires (n == 64 && u < Words.W64) || (n == 8 && u < 256)
    ensures BitByBit(Xor, u, -1, n) == Pow2(n) - 1 - u && Pow2(n) == if n == 64 then Words.W64 else 256
  {
    hide BitByBit, LowBits;
    Widths();
    Turned(u, n);
    LowBitsMod(u, n);
    ModUnique(u, Pow2(n), 0, u);
  }

  lemma ComplementInt(i: int)
    requires InRange(IntLit(i))
    ensures SignedOf(BitByBit(Xor, i, -1, 64)) == -i - 1
  {
    hide BitByBit, LowBits;
    Widths();
    Turned(i, 64);
    Low64(i);
    ModUnique(i, Words.W64, if i < 0 then -1 else 0, if i < 0 then i + Words.W64 else i);
  }

  lemma SignedLow(i: int)
    requires InRange(IntLit(i))
    ensures SignedOf(LowBits(i, 64)) == i
  {
    hide LowBits;
    Low64(i);
    ModUnique(i, Words.W64, if i < 0 then -1 else 0, if i < 0 then i + Words.W64 else i);
  }

  lemma CastRight<S>(l: Literal, t: CType, m: Machine<S>, s: S)
    requires InRange(l) && UnitInRange(m.unit)
    ensures var c := Constants.CastLiteral(l, t, m.unit);
      c.Some? ==> InRange(c.value) && Convert(Scalar(l), t, m, s) == Done(Scalar(c.value), s)
  {
    hide LowBits, SignedOf, Constants.Wrapped;
    match l
    case IntLit(i) =>
      Low64(i);
      Low8(i);
      SignedLow(i);
    case UnsignedLit(u) =>
      Low64(u);
      Low8(u);
      WrappedBits(u);
      ModUnique(u, Words.W64, 0, u);
    case CharLit(c) =>
      SignedLow(c);
      Low64(c);
      ModUnique(c, Words.W64, 0, c);
    case _ =>
  }

  // ---------------------------------------------------------------- shifts

  lemma CountModulo(n: nat)
    ensures n % Words.W32 % 64 == n % 64
  {
    var q, r := n / Words.W32, n % Words.W32;
    var h, k := r / 64, r % 64;
    ModUnique(n, 64, q * (Words.W32 / 64) + h, k);
  }

  lemma ShiftCount<S>(l: Literal)
    requires InRange(l)
    ensures var n := Constants.NonNegative(l);
      n.Some? ==> Number(Scalar(l)) == Some(n.value as int)
    ensures Constants.NonNegative(l).None? ==> Number(Scalar(l)).None? || Number(Scalar(l)).value < 0
  {
  }

  /** A constant that a right shift folds to is its value, wherever it has one. */
  lemma RightShiftRight<S>(left: Expr, right: Expr, t: CType, x: Value, m: Machine<S>, env: Env, s: S)
    requires m.target == env.target && right.kind.Constant? && InRange(right.kind.literal)
    requires left.kind.Constant? ==> InRange(left.kind.literal) && x == Scalar(left.kind.literal)
    ensures var r, v := ShiftedRight(left, right, t, env), Shift(false, left.ctype, t, x, Scalar(right.kind.literal), m, s);
      r.Ok? && r.value.Constant? ==> InRange(r.value.literal) && (v.Done? ==> left.kind.Constant? && v == Done(Scalar(r.value.literal), s))
  {
    hide LowBits, Doubled, Halved, Pow2, SignedOf;
    var count := Constants.NonNegative(right.kind.literal);
    if count.Some? && left.kind.Constant? {
      var n := count.value % 64;
      match left.kind.literal
      case IntLit(i) =>
        HalvedIs(i, n);
        HalvedRange(i, n);
      case UnsignedLit(u) =>
        HalvedIs(u, n);
        HalvedRange(u, n);
        Low64(Halved(u, n));
        ModUnique(Halved(u, n), Words.W64, 0, Halved(u, n));
      case _ =>
    }
  }

  lemma LeftShiftRight<S>(left: Expr, right: Expr, t: CType, m: Machine<S>, env: Env, s: S)
    requires m.target == env.target && right.kind.Constant? && InRange(right.kind.literal)
    ensures var r := ShiftedLeft(left, right, env);
      r.Ok? && r.value.Constant? ==>
        && left.kind.Constant? && InRange(r.value.literal)
        && Shift(true, left.ctype, t, Scalar(left.kind.literal), Scalar(right.kind.literal), m, s) == Done(Scalar(r.value.literal), s)
  {
    hide LowBits, Doubled, Halved, Pow2, SignedOf, Constants.Wrapped;
    var count := Constants.NonNegative(right.kind.literal);
    if count.Some? && left.kind.Constant? {
      var n := count.value % 64;
      CountModulo(count.value);
      match left.kind.literal
      case IntLit(i) =>
        DoubledIs(i, n);
        WrappedBits(i * Pow2(n));
      case UnsignedLit(u) =>
        DoubledIs(u, n);
        Low64(u * Pow2(n));
      case _ =>
    }
  }

  // ---------------------------------------------------------------- expressions

  /** What an expression folded to: the same value, and a constant is its own value. */
  ghost predicate Kept<S>(e: Expr, f: Expr, m: Machine<S>, s: S) {
    && f.ctype == e.ctype
    && (f.kind.Constant? ==> InRange(f.kind.literal) && Eval(f, m, s) == Done(Scalar(f.kind.literal), s))
    && (Eval(e, m, s).Done? ==> Eval(f, m, s) == Eval(e, m, s))
  }

  ghost predicate KindKept<S>(k: Kind, r: Kind, t: CType, m: Machine<S>, s: S) {
    && (r.Constant? ==> InRange(r.literal))
    && (EvalKind(k, t, m, s).Done? ==> Stored(EvalKind(r, t, m, s), t, m) == Stored(EvalKind(k, t, m, s), t, m))
  }

  lemma {:induction false} ExprKept<S>(e: Expr, m: Machine<S>, env: Env, s: S)
    requires On(m, env) && TypedArms(e) && ExprInRange(e, env.target) && FoldOnce(e, env).Ok?
    ensures Kept(e, FoldOnce(e, env).value, m, s)
    decreases e, 0
  {
    hide EvalKind, KindTyped, KindInRange, OnceKind, FoldOnce, On, InRange;
    var f := OnceStep(e, env);
    KindFolded(e.kind, e.ctype, m, env, s);
    NarrowedKept(e, f, m, env, s);
  }

  lemma OnceStep(e: Expr, env: Env) returns (k: Kind)
    requires TypedArms(e) && ExprInRange(e, env.target) && FoldOnce(e, env).Ok?
    ensures KindTyped(e.kind, e.ctype) && KindInRange(e.kind, e.ctype, env.target)
    ensures OnceKind(e.kind, e.ctype, env) == Ok(k) && FoldOnce(e, env) == Ok(Expr(Narrowed(k, e.ctype, env), e.ctype, e.lval))
  {
    k := OnceKind(e.kind, e.ctype, env).value;
  }

  lemma NarrowedKept<S>(e: Expr, k: Kind, m: Machine<S>, env: Env, s: S)
    requires On(m, env) && KindKept(e.kind, k, e.ctype, m, s)
    ensures Kept(e, Expr(Narrowed(k, e.ctype, env), e.ctype, e.lval), m, s)
  {
    if k.Constant? && k.literal.FloatLit? {
      assert env.unit.narrow(env.unit.narrow(k.literal.f)) == env.unit.narrow(k.literal.f);
    }
  }

  lemma {:induction false} KindFolded<S>(k: Kind, t: CType, m: Machine<S>, env: Env, s: S)
    requires On(m, env) && KindTyped(k, t) && KindInRange(k, t, env.target) && OnceKind(k, t, env).Ok?
    ensures KindKept(k, OnceKind(k, t, env).value, t, m, s)
    decreases k, 1
  {
    hide On, TypedArms, AllTyped, ExprInRange, AllInRange, FoldOnce, OnceAll, Kept, KindKept, Eval, EvalKind, EvalAll, InRange;
    hide NegatedKind, ComplementedKind, ShortCircuits, Refused, Finished, Dereferenced, Casted, IdKind, SizeofKind;
    match k
    case Id(name) => IdKept(name, t, m, env, s);
    case Constant(l) => ConstantKept(l, t, m, env, s);
    case Sizeof(of) => SizeofKept(of, t, m, env, s);
    case Negate(x) =>
      ExprKept(x, m, env, s);
      NegateKept(x, FoldOnce(x, env).value, t, m, env, s);
    case BitwiseNot(x) =>
      ExprKept(x, m, env, s);
      ComplementKept(x, FoldOnce(x, env).value, t, m, env, s);
    case Cast(x) =>
      ExprKept(x, m, env, s);
      CastKept(x, FoldOnce(x, env).value, t, m, env, s);
    case Deref(x) =>
      ExprKept(x, m, env, s);
      DerefKept(x, FoldOnce(x, env).value, t, m, env, s);
    case Noop(x) =>
      ExprKept(x, m, env, s);
      PassedKept(k, OnceKind(k, t, env).value, x, FoldOnce(x, env).value, t, m, env, s);
    case Member(x, _) =>
      ExprKept(x, m, env, s);
      PassedKept(k, OnceKind(k, t, env).value, x, FoldOnce(x, env).value, t, m, env, s);
    case PostIncrement(x, _) =>
      ExprKept(x, m, env, s);
      PassedKept(k, OnceKind(k, t, env).value, x, FoldOnce(x, env).value, t, m, env, s);
    case StaticRef(x) =>
      ExprKept(x, m, env, s);
      PassedKept(k, OnceKind(k, t, env).value, x, FoldOnce(x, env).value, t, m, env, s);
    case FuncCall(callee, params) =>
      ExprKept(callee, m, env, s);
      var s1 := StateAfter(callee, m, s);
      AllFolded(params, m, env, s1);
      CallKept(callee, FoldOnce(callee, env).value, params, OnceAll(params, env).value, t, m, env, s, s1);
    case Comma(left, right) =>
      ExprKept(left, m, env, s);
      var s1 := StateAfter(left, m, s);
      ExprKept(right, m, env, s1);
      CommaKept(left, FoldOnce(left, env).value, right, FoldOnce(right, env).value, t, m, env, s, s1);
    case Ternary(c, a, b) =>
      ExprKept(c, m, env, s);
      TernaryFolded(c, a, b, t, m, env, s);
    case Binary(op, left, right) =>
      ExprKept(left, m, env, s);
      BinaryFolded(op, left, right, t, m, env, s);
  }

  ghost function StateAfter<S>(e: Expr, m: Machine<S>, s: S): S {
    var r := Eval(e, m, s);
    if r.Done? then r.state else s
  }

  lemma {:induction false} AllFolded<S>(es: seq<Expr>, m: Machine<S>, env: Env, s: S)
    requires On(m, env) && AllTyped(es) && AllInRange(es, env.target) && OnceAll(es, env).Ok?
    ensures EvalAll(es, m, s).All? ==> EvalAll(OnceAll(es, env).value, m, s) == EvalAll(es, m, s)
    decreases es, 0
  {
    hide On, TypedArms, ExprInRange, FoldOnce, Eval;
    if es != [] {
      ExprKept(es[0], m, env, s);
      AllFolded(es[1..], m, env, StateAfter(es[0], m, s));
      var first, rest := FoldOnce(es[0], env).value, OnceAll(es[1..], env).value;
      assert ([first] + rest)[1..] == rest;
    }
  }

  lemma {:induction false} TernaryFolded<S>(c: Expr, a: Expr, b: Expr, t: CType, m: Machine<S>, env: Env, s: S)
    requires On(m, env) && KindTyped(Ternary(c, a, b), t) && KindInRange(Ternary(c, a, b), t, env.target)
    requires OnceKind(Ternary(c, a, b), t, env).Ok? && Kept(c, FoldOnce(c, env).value, m, s)
    ensures KindKept(Ternary(c, a, b), OnceKind(Ternary(c, a, b), t, env).value, t, m, s)
    decreases Ternary(c, a, b), 0
  {
    hide On, TypedArms, ExprInRange, FoldOnce, Kept, KindKept, Eval, EvalKind, InRange, Constants.LiteralTruth;
    var f, s1 := FoldOnce(c, env).value, StateAfter(c, m, s);
    match Constants.LiteralTruth(f.kind, env.unit)
    case Some(false) =>
      ExprKept(b, m, env, s1);
      DecidedKept(c, f, a, b, b, FoldOnce(b, env).value, t, m, env, s, s1);
    case Some(true) =>
      ExprKept(a, m, env, s1);
      DecidedKept(c, f, a, b, a, FoldOnce(a, env).value, t, m, env, s, s1);
    case None =>
      ExprKept(a, m, env, s1);
      ExprKept(b, m, env, s1);
      UndecidedKept(c, f, a, FoldOnce(a, env).value, b, FoldOnce(b, env).value, t, m, env, s, s1);
  }

  lemma {:induction false} BinaryFolded<S>(op: BinaryOp, left: Expr, right: Expr, t: CType, m: Machine<S>, env: Env, s: S)
    requires On(m, env) && KindTyped(Binary(op, left, right), t) && KindInRange(Binary(op, left, right), t, env.target)
    requires OnceKind(Binary(op, left, right), t, env).Ok? && Kept(left, FoldOnce(left, env).value, m, s)
    ensures KindKept(Binary(op, left, right), OnceKind(Binary(op, left, right), t, env).value, t, m, s)
    decreases Binary(op, left, right), 0
  {
    hide On, TypedArms, ExprInRange, FoldOnce, Kept, KindKept, Eval, EvalKind, InRange, ShortCircuits, Refused, Finished;
    var l, s1 := FoldOnce(left, env).value, StateAfter(left, m, s);
    if ShortCircuits(op, l.kind, env) {
      ShortKept(op, left, l, right, t, m, env, s);
    } else {
      ExprKept(right, m, env, s1);
      FinishedKept(op, left, l, right, FoldOnce(right, env).value, t, m, env, s, s1);
    }
  }

  // ---------------------------------------------------------------- one node over folded operands

  lemma IdKept<S>(name: string, t: CType, m: Machine<S>, env: Env, s: S)
    requires On(m, env) && KindInRange(Id(name), t, env.target)
    ensures KindKept(Id(name), IdKind(name, t), t, m, s)
  {
    if t.Enum? {
      FirstEnumerator(t.members, name);
      if EnumConstant(t.members, name).Some? {
        var i :| 0 <= i < |t.members| && t.members[i].0 == name && (forall k :: 0 <= k < i ==> t.members[k].0 != name)
              && EnumConstant(t.members, name) == Some(t.members[i].1);
        assert Enumerator(t, name, i);
        forall j | Enumerator(t, name, j)
          ensures j == i
        {
        }
      }
    }
  }

  lemma {:induction false} FirstEnumerator(members: seq<(string, int)>, name: string)
    ensures EnumConstant(members, name).Some? ==>
      exists i :: 0 <= i < |members| && members[i].0 == name && (forall k :: 0 <= k < i ==> members[k].0 != name)
               && EnumConstant(members, name) == Some(members[i].1)
    ensures EnumConstant(members, name).None? ==> forall i :: 0 <= i < |members| ==> members[i].0 != name
  {
    if members != [] && members[0].0 != name {
      FirstEnumerator(members[1..], name);
      if EnumConstant(members, name).Some? {
        var i :| 0 <= i < |members[1..]| && members[1..][i].0 == name && (forall k :: 0 <= k < i ==> members[1..][k].0 != name)
              && EnumConstant(members[1..], name) == Some(members[1..][i].1);
        assert members[i + 1] == members[1..][i];
        forall k | 0 <= k < i + 1
          ensures members[k].0 != name
        {
          if k > 0 {
            assert members[k] == members[1..][k - 1];
          }
        }
      } else {
        forall i | 0 <= i < |members|
          ensures members[i].0 != name
        {
          if i > 0 {
            assert members[i] == members[1..][i - 1];
          }
        }
      }
    }
  }

  lemma ConstantKept<S>(l: Literal, t: CType, m: Machine<S>, env: Env, s: S)
    requires KindInRange(Constant(l), t, env.target)
    ensures KindKept(Constant(l), Constant(l), t, m, s)
  {
  }

  lemma SizeofKept<S>(of: CType, t: CType, m: Machine<S>, env: Env, s: S)
    requires On(m, env) && KindInRange(Sizeof(of), t, env.target) && SizeofKind(of, env).Ok?
    ensures KindKept(Sizeof(of), SizeofKind(of, env).value, t, m, s)
  {
    hide SizeOf;
  }

  lemma NegateKept<S>(x: Expr, f: Expr, t: CType, m: Machine<S>, env: Env, s: S)
    requires On(m, env) && Kept(x, f, m, s) && NegatedKind(f, env).Ok?
    ensures KindKept(Kind.Negate(x), NegatedKind(f, env).value, t, m, s)
  {
    hide Minus, Eval, Constants.Negated;
    if f.kind.Constant? {
      MinusRight(f.kind.literal, t, m, s);
    }
  }

  lemma ComplementKept<S>(x: Expr, f: Expr, t: CType, m: Machine<S>, env: Env, s: S)
    requires On(m, env) && Kept(x, f, m, s)
    ensures KindKept(Kind.BitwiseNot(x), ComplementedKind(f), t, m, s)
  {
    hide Complement, Eval, Constants.Complemented;
    if f.kind.Constant? {
      ComplementRight(f.kind.literal, t, m, s);
    }
  }

  lemma CastKept<S>(x: Expr, f: Expr, t: CType, m: Machine<S>, env: Env, s: S)
    requires On(m, env) && Kept(x, f, m, s)
    ensures KindKept(Cast(x), Casted(f, t, env), t, m, s)
  {
    hide Convert, Eval, Constants.CastLiteral;
    if f.kind.Constant? {
      CastRight(f.kind.literal, t, m, s);
    }
  }

  lemma DerefKept<S>(x: Expr, f: Expr, t: CType, m: Machine<S>, env: Env, s: S)
    requires Kept(x, f, m, s) && Dereferenced(f).Ok?
    ensures KindKept(Deref(x), Dereferenced(f).value, t, m, s)
  {
    hide Eval;
  }

  /** Nodes that stay what they are over a folded operand. */
  lemma PassedKept<S>(k: Kind, r: Kind, x: Expr, f: Expr, t: CType, m: Machine<S>, env: Env, s: S)
    requires Kept(x, f, m, s)
    requires || (k == Noop(x) && r == Noop(f)) || (k == StaticRef(x) && r == StaticRef(f))
             || (k.Member? && k == Member(x, k.member) && r == Member(f, k.member))
             || (k.PostIncrement? && k == PostIncrement(x, k.increase) && r == PostIncrement(f, k.increase))
    ensures KindKept(k, r, t, m, s)
  {
    hide Eval;
  }

  lemma CallKept<S>(callee: Expr, f: Expr, params: seq<Expr>, ps: seq<Expr>, t: CType, m: Machine<S>, env: Env, s: S, s1: S)
    requires Kept(callee, f, m, s) && s1 == StateAfter(callee, m, s)
    requires EvalAll(params, m, s1).All? ==> EvalAll(ps, m, s1) == EvalAll(params, m, s1)
    ensures KindKept(FuncCall(callee, params), FuncCall(f, ps), t, m, s)
  {
    hide Eval, EvalAll;
  }

  lemma CommaKept<S>(left: Expr, l: Expr, right: Expr, r: Expr, t: CType, m: Machine<S>, env: Env, s: S, s1: S)
    requires On(m, env) && Kept(left, l, m, s) && s1 == StateAfter(left, m, s) && Kept(right, r, m, s1) && right.ctype == t
    ensures KindKept(Comma(left, right), if l.kind.Constant? then r.kind else Comma(l, r), t, m, s)
  {
    hide InRange;
    ArmStored(right, r, t, m, env, s1);
    hide Eval;
  }

  /** The arm that takes the place of its node has the node's type, so it is rounded there as well. */
  lemma ArmStored<S>(arm: Expr, f: Expr, t: CType, m: Machine<S>, env: Env, s: S)
    requires On(m, env) && Kept(arm, f, m, s) && arm.ctype == t
    ensures Eval(arm, m, s).Done? ==> Stored(EvalKind(f.kind, t, m, s), t, m) == Stored(Eval(arm, m, s), t, m)
  {
    hide EvalKind;
    var r := EvalKind(arm.kind, t, m, s);
    if r.Done? && r.value.Scalar? && r.value.literal.FloatLit? {
      assert env.unit.narrow(env.unit.narrow(r.value.literal.f)) == env.unit.narrow(r.value.literal.f);
    }
  }

  lemma DecidedKept<S>(c: Expr, f: Expr, a: Expr, b: Expr, arm: Expr, g: Expr, t: CType, m: Machine<S>, env: Env, s: S, s1: S)
    requires On(m, env) && Kept(c, f, m, s) && s1 == StateAfter(c, m, s) && Kept(arm, g, m, s1) && arm.ctype == t
    requires Constants.LiteralTruth(f.kind, env.unit).Some?
    requires arm == if Constants.LiteralTruth(f.kind, env.unit).value then a else b
    ensures KindKept(Ternary(c, a, b), g.kind, t, m, s)
  {
    hide InRange;
    TruthRight(f.kind.literal, m);
    ArmStored(arm, g, t, m, env, s1);
    hide Eval, True, Constants.LiteralTruth;
  }

  lemma UndecidedKept<S>(c: Expr, f: Expr, a: Expr, x: Expr, b: Expr, y: Expr, t: CType, m: Machine<S>, env: Env, s: S, s1: S)
    requires Kept(c, f, m, s) && s1 == StateAfter(c, m, s) && Kept(a, x, m, s1) && Kept(b, y, m, s1)
    ensures KindKept(Ternary(c, a, b), Ternary(f, x, y), t, m, s)
  {
    hide Eval, True;
  }

  lemma ShortKept<S>(op: BinaryOp, left: Expr, l: Expr, right: Expr, t: CType, m: Machine<S>, env: Env, s: S)
    requires On(m, env) && Kept(left, l, m, s) && ShortCircuits(op, l.kind, env)
    ensures KindKept(Binary(op, left, right), Constant(Constants.Truth(op.LogicalOr?)), t, m, s)
  {
    TruthRight(l.kind.literal, m);
    hide Eval, True, Constants.LiteralTruth;
  }

  lemma FinishedKept<S>(op: BinaryOp, left: Expr, l: Expr, right: Expr, r: Expr, t: CType, m: Machine<S>, env: Env, s: S, s1: S)
    requires On(m, env) && Kept(left, l, m, s) && s1 == StateAfter(left, m, s) && Kept(right, r, m, s1)
    requires Finished(op, l, r, t, env).Ok?
    ensures KindKept(Binary(op, left, right), Finished(op, l, r, t, env).value, t, m, s)
  {
    hide On, Finished, Eval, InRange, Constants.Operate, True, Both;
    var k := Finished(op, l, r, t, env).value;
    FinishedShape(op, l, r, t, env);
    if k.Constant? {
      ConstantBoth(op, left, l, right, r, t, m, env, s, s1);
    }
  }

  lemma ConstantRight(op: BinaryOp, l: Expr, r: Expr, t: CType, env: Env)
    requires Finished(op, l, r, t, env).Ok? && Finished(op, l, r, t, env).value.Constant?
    ensures r.kind.Constant?
  {
  }

  lemma LogicalBoth<S>(op: BinaryOp, left: Expr, l: Expr, right: Expr, r: Expr, t: CType, m: Machine<S>, env: Env, s: S, s1: S)
    requires On(m, env) && Kept(left, l, m, s) && s1 == StateAfter(left, m, s) && Kept(right, r, m, s1)
    requires op.LogicalAnd? || op.LogicalOr?
    requires Finished(op, l, r, t, env).Ok? && Finished(op, l, r, t, env).value.Constant?
    ensures KindKept(Binary(op, left, right), Finished(op, l, r, t, env).value, t, m, s)
  {
    hide Eval, Constants.Operate, True;
    var a, b := l.kind.literal, r.kind.literal;
    LogicalRight(op, a, b, m);
    var c := Finished(op, l, r, t, env).value.literal;
    assert Scalar(c) == Flag(if op.LogicalAnd? then True(Scalar(a), m) && True(Scalar(b), m)
                             else True(Scalar(a), m) || True(Scalar(b), m));
    if Eval(left, m, s).Done? {
      assert Eval(left, m, s) == Done(Scalar(a), s1);
    }
  }

  /** A constant that a binary node folded to is the value of the operator on the values of the operands. */
  lemma ConstantBoth<S>(op: BinaryOp, left: Expr, l: Expr, right: Expr, r: Expr, t: CType, m: Machine<S>, env: Env, s: S, s1: S)
    requires On(m, env) && Kept(left, l, m, s) && s1 == StateAfter(left, m, s) && Kept(right, r, m, s1)
    requires Finished(op, l, r, t, env).Ok? && Finished(op, l, r, t, env).value.Constant?
    ensures KindKept(Binary(op, left, right), Finished(op, l, r, t, env).value, t, m, s)
  {
    hide Eval, InRange, Constants.Operate, True, ShiftedLeft, ShiftedRight, Shift;
    assert r.kind.Constant? by { ConstantRight(op, l, r, t, env); }
    var b := r.kind.literal;
    if op.Shr? {
      if Eval(left, m, s).Done? {
        RightShiftRight(l, r, t, Eval(left, m, s).value, m, env, s1);
      } else {
        RightShiftRight(l, r, t, if l.kind.Constant? then Scalar(l.kind.literal) else Opaque(0), m, env, s1);
      }
    } else if op.Shl? {
      LeftShiftRight(l, r, t, m, env, s1);
    } else if op.LogicalAnd? || op.LogicalOr? {
      LogicalBoth(op, left, l, right, r, t, m, env, s, s1);
    } else {
      OperateRight(op, l.kind.literal, b, left.ctype, t, m, s1);
    }
  }

  /** Folding keeps the value of every expression that has one, and what its evaluation does. */
  lemma FoldKeepsMeaning<S>(e: Expr, m: Machine<S>, env: Env, s: S)
    requires On(m, env) && TypedArms(e) && ExprInRange(e, env.target) && FoldExpr(e, env).Ok? && Eval(e, m, s).Done?
    ensures Eval(FoldExpr(e, env).value, m, s) == Eval(e, m, s)
  {
    OnceIsEnough(e, env);
    ExprKept(e, m, env, s);
  }
}
