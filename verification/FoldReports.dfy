/** Which operations on constants become constants, and which errors are reported, from the exact results. */
module FoldReports {
  import opened Options
  import opened Hir
  import Words
  import Constants
  import opened Fold
  import opened Evaluation
  import opened FoldArithmetic

  /** The operand folds to this constant. */
  predicate Folds(e: Expr, l: Literal, env: Env) {
    FoldExpr(e, env).Ok? && FoldExpr(e, env).value.kind == Constant(l)
  }

  /** An operator over constants is applied to them, after the operands are folded a second time. */
  lemma OverConstants(left: Expr, right: Expr, a: Literal, b: Literal, op: BinaryOp, t: CType, env: Env)
    requires Folds(left, a, env) && Folds(right, b, env) && !a.FloatLit? && !b.FloatLit?
    requires !op.Assign? && !ShortCircuits(op, Constant(a), env)
    requires !((op.Div? || op.Mod?) && Constants.IsZero(Constant(b), env.unit))
    ensures FoldBinary(left, right, op, t, env)
      == Finished(op, Expr(Constant(a), left.ctype, left.lval), Expr(Constant(b), right.ctype, right.lval), t, env)
  {
    hide Finished, Constants.LiteralTruth, FoldExpr;
    var l, r := FoldExpr(left, env).value, FoldExpr(right, env).value;
    assert FoldExpr(l, env) == Ok(l) by { Again(l, env); }
    assert FoldExpr(r, env) == Ok(r) by { Again(r, env); }
  }

  lemma Again(e: Expr, env: Env)
    requires e.kind.Constant? && !e.kind.literal.FloatLit?
    ensures FoldExpr(e, env) == Ok(e)
  {
  }

  /** Signed arithmetic on constants gives the exact result when that is a 64-bit integer, and reports an overflow when
      it is not. The sign in the report is that of the exact result but for products, where it is that of
      the 64 low bits turned round. */
  lemma SignedFolds(left: Expr, right: Expr, x: int, y: int, op: BinaryOp, t: CType, env: Env)
    requires Folds(left, IntLit(x), env) && Folds(right, IntLit(y), env) && InRange(IntLit(x)) && InRange(IntLit(y))
    requires Arithmetic(op) && !op.Mod? && (op.Div? ==> y != 0)
    ensures var z := Exact(op, x, y);
      FoldBinary(left, right, op, t, env)
        == if LEAST <= z <= MOST then Ok(Constant(IntLit(z)))
           else Err(ConstOverflow(if op.Mul? then SignedOf(LowBits(z, 64)) < 0 else z > MOST))
  {
    hide LowBits, SignedOf, TowardZero, FoldExpr, FoldBinary, Constants.IntOp;
    OverConstants(left, right, IntLit(x), IntLit(y), op, t, env);
    SignedArithmetic(op, x, y);
    if !op.Mul? && !(LEAST <= Exact(op, x, y) <= MOST) {
      OverflowSign(op, x, y);
    }
  }

  lemma OverflowSign(op: BinaryOp, x: int, y: int)
    requires (op.Add? || op.Sub? || (op.Div? && y != 0)) && InRange(IntLit(x)) && InRange(IntLit(y))
    requires !(LEAST <= Exact(op, x, y) <= MOST)
    ensures SignedOf(LowBits(Exact(op, x, y), 64)) < 0 <==> Exact(op, x, y) > MOST
  {
    hide LowBits, TowardZero;
    var z := Exact(op, x, y);
    if op.Div? {
      QuotientRange(x, y);
      LeastQuotient();
    }
    Low64(z);
    ModUnique(z, Words.W64, if z < 0 then -1 else 0, if z < 0 then z + Words.W64 else z);
  }

  lemma LeastQuotient()
    ensures TowardZero(LEAST, -1) == MOST + 1
  {
  }

  /** A product can be reported as an overflow of the wrong sign. */
  lemma ProductSign(env: Env)
    ensures var e := (i: int) => Expr(Constant(IntLit(i)), CType.Long(true), false);
      0x4000_0000_0000_0000 * 4 > MOST
      && FoldBinary(e(0x4000_0000_0000_0000), e(4), Mul, CType.Long(true), env) == Err(ConstOverflow(false))
  {
    hide LowBits;
    var e := (i: int) => Expr(Constant(IntLit(i)), CType.Long(true), false);
    Again(e(0x4000_0000_0000_0000), env);
    Again(e(4), env);
    SignedFolds(e(0x4000_0000_0000_0000), e(4), 0x4000_0000_0000_0000, 4, Mul, CType.Long(true), env);
    Low64(Words.W64);
  }

  /** The remainder is reported as an overflow exactly when the quotient would be. */
  lemma RemainderFolds(left: Expr, right: Expr, x: int, y: int, t: CType, env: Env)
    requires Folds(left, IntLit(x), env) && Folds(right, IntLit(y), env) && InRange(IntLit(x)) && InRange(IntLit(y)) && y != 0
    ensures FoldBinary(left, right, Mod, t, env)
      == if x == LEAST && y == -1 then Err(ConstOverflow(false)) else Ok(Constant(IntLit(Exact(Mod, x, y))))
  {
    hide TowardZero, FoldExpr, FoldBinary, Constants.IntOp;
    OverConstants(left, right, IntLit(x), IntLit(y), Mod, t, env);
    SignedRemainder(x, y);
    QuotientRange(x, y);
  }

  /** Dividing by a constant zero is refused, whatever the other operand is. */
  lemma ZeroRefused(left: Expr, right: Expr, b: Literal, op: BinaryOp, t: CType, env: Env)
    requires FoldExpr(left, env).Ok? && Folds(right, b, env) && (op.Mod? || (op.Div? && IsIntegral(right.ctype)))
    requires b == IntLit(0) || b == UnsignedLit(0) || b == CharLit(0)
    ensures FoldBinary(left, right, op, t, env) == Err(DivideByZero)
  {
    hide FoldExpr;
  }

  /** Bitwise operators and comparisons of constants always give a constant. */
  lemma BitsFold(left: Expr, right: Expr, x: int, y: int, op: BinaryOp, t: CType, env: Env)
    requires Folds(left, IntLit(x), env) && Folds(right, IntLit(y), env) && (Bitwise(op) || op.Compare?)
    ensures FoldBinary(left, right, op, t, env) == Ok(Constant(
      IntLit(if op.Compare? then (if Related(op.comparison, x, y) then 1 else 0) else SignedOf(BitByBit(op, x, y, 64)))))
  {
    hide BitByBit, SignedOf, FoldExpr, FoldBinary;
    OverConstants(left, right, IntLit(x), IntLit(y), op, t, env);
    if Bitwise(op) {
      SignedBits(op, x, y);
    }
  }

  /** Unsigned operators of constants never overflow. */
  lemma UnsignedFolds(left: Expr, right: Expr, x: nat, y: nat, op: BinaryOp, t: CType, env: Env)
    requires Folds(left, UnsignedLit(x), env) && Folds(right, UnsignedLit(y), env)
    requires InRange(UnsignedLit(x)) && InRange(UnsignedLit(y)) && (Arithmetic(op) || Bitwise(op))
    requires (op.Div? || op.Mod?) ==> y != 0
    ensures FoldBinary(left, right, op, t, env) == Ok(Constant(
      UnsignedLit(if Bitwise(op) then BitByBit(op, x, y, 64) else LowBits(Exact(op, x, y), 64))))
  {
    hide BitByBit, LowBits, Exact, FoldExpr, FoldBinary, ShiftedLeft, ShiftedRight, Constants.Operate;
    OverConstants(left, right, UnsignedLit(x), UnsignedLit(y), op, t, env);
    UnsignedOperate(op, x, y, env);
  }

  lemma UnsignedOperate(op: BinaryOp, x: nat, y: nat, env: Env)
    requires InRange(UnsignedLit(x)) && InRange(UnsignedLit(y)) && (Arithmetic(op) || Bitwise(op))
    requires (op.Div? || op.Mod?) ==> y != 0
    ensures Constants.Operate(op, UnsignedLit(x), UnsignedLit(y), env.unit)
      == Ok(Some(UnsignedLit(if Bitwise(op) then BitByBit(op, x, y, 64) else LowBits(Exact(op, x, y), 64))))
  {
    hide BitByBit, LowBits, Exact, Constants.NatOp, Constants.IntOp;
    Widths();
    UnsignedArithmetic(op, x, y, 64);
  }

  lemma UnsignedCompares(left: Expr, right: Expr, x: nat, y: nat, c: Comparison, t: CType, env: Env)
    requires Folds(left, UnsignedLit(x), env) && Folds(right, UnsignedLit(y), env)
    ensures FoldBinary(left, right, Compare(c), t, env) == Ok(Constant(IntLit(if Related(c, x, y) then 1 else 0)))
  {
    hide FoldExpr, FoldBinary;
    OverConstants(left, right, UnsignedLit(x), UnsignedLit(y), Compare(c), t, env);
  }

  /** Negating a constant overflows exactly at the least integer. */
  lemma NegateFolds(operand: Expr, x: int, t: CType, env: Env)
    requires Folds(operand, IntLit(x), env) && InRange(IntLit(x))
    ensures FoldKind(Kind.Negate(operand), t, env)
      == if x == LEAST then Err(ConstOverflow(true)) else Ok(Constant(IntLit(-x)))
  {
    hide FoldExpr;
  }

  /** Two integer constants under && or || become a constant only when one of them is the deciding number, or
      both are 1 under && (0 under ||): 2 && 3 stays as it is. */
  lemma LogicalFolds(left: Expr, right: Expr, x: int, y: int, op: BinaryOp, t: CType, env: Env)
    requires Folds(left, IntLit(x), env) && Folds(right, IntLit(y), env) && (op.LogicalAnd? || op.LogicalOr?)
    ensures FoldBinary(left, right, op, t, env).Ok?
    ensures FoldBinary(left, right, op, t, env).value.Constant? <==>
      if op.LogicalAnd? then x == 0 || y == 0 || (x == 1 && y == 1) else x != 0 || y == 0 || y == 1
  {
    hide FoldExpr;
    if !ShortCircuits(op, Constant(IntLit(x)), env) {
      OverConstants(left, right, IntLit(x), IntLit(y), op, t, env);
    }
  }

  /** A left shift of a signed constant: refused from the width of its type on when that is signed, reported as an
      overflow from 64 on, and otherwise what it shifts out is lost. */
  lemma LeftShiftFolds(left: Expr, right: Expr, x: int, n: nat, t: CType, env: Env)
    requires Folds(left, IntLit(x), env) && Folds(right, IntLit(n), env) && n < Words.W32
    requires IsSigned(left.ctype) ==> SizeOf(left.ctype, env.target).Some?
    ensures FoldBinary(left, right, Shl, t, env)
      == if IsSigned(left.ctype) && n >= 8 * SizeOf(left.ctype, env.target).value
         then Err(TooManyShiftBits(n, 8 * SizeOf(left.ctype, env.target).value))
         else if n >= 64 then Err(ConstOverflow(true))
         else Ok(Constant(IntLit(SignedOf(LowBits(Doubled(x, n), 64)))))
  {
    hide FoldExpr, FoldBinary, LowBits, SignedOf, Doubled, SizeOf, Constants.Wrapped;
    OverConstants(left, right, IntLit(x), IntLit(n), Shl, t, env);
    ModUnique(n, Words.W32, 0, n);
    DoubledIs(x, n);
    WrappedBits(Doubled(x, n));
  }

  /** A right shift by the width or more is 0, and its left operand is dropped with everything it does. */
  lemma WideShift(left: Expr, right: Expr, n: nat, t: CType, env: Env)
    requires FoldExpr(left, env).Ok? && FoldExpr(FoldExpr(left, env).value, env).Ok? && Folds(right, IntLit(n), env)
    requires SizeOf(t, env.target).Some? && n >= 8 * SizeOf(t, env.target).value
    ensures FoldBinary(left, right, Shr, t, env) == Ok(Constant(if IsSigned(t) then IntLit(0) else UnsignedLit(0)))
  {
    hide FoldExpr;
    Again(FoldExpr(right, env).value, env);
  }
}
