/** Arithmetic on constants: 64-bit integers with their overflow rules, bytes, and floating values. */
module Constants {
  import opened Options
  import opened Hir
  import Words

  /** The host's binary64 operations on bit patterns. Nothing is assumed of them but that rounding a value to
      binary32 a second time changes nothing. */
  datatype FloatUnit = FloatUnit(
    arithmetic: (BinaryOp, nat, nat) -> nat,
    holds: (Comparison, nat, nat) -> bool,
    negate: nat -> nat,
    narrow: nat -> nat,
    nonzero: nat -> bool,
    fromInt: int -> nat,
    toInt: nat -> int,
    toUnsigned: nat -> nat,
    toByte: nat -> nat)

  ghost predicate Rounds(u: FloatUnit) {
    forall x {:trigger u.narrow(x)} :: u.narrow(u.narrow(x)) == u.narrow(x)
  }

  function Wrapped(x: int): int {
    (x + Words.HALF64) % Words.W64 - Words.HALF64
  }

  predicate Fits(x: int) {
    -(Words.HALF64 as int) <= x < Words.HALF64
  }

  /** overflowing_add and its like: an overflow is positive when the wrapped value is negative. */
  function Checked(x: int): Result<Literal> {
    if Fits(x) then Ok(IntLit(x)) else Err(ConstOverflow(Wrapped(x) < 0))
  }

  function TruncatedQuotient(a: int, b: int): int
    requires b != 0
  {
    var q := Words.Abs(a) / Words.Abs(b);
    if (a < 0) != (b < 0) then -q else q
  }

  function TruncatedRemainder(a: int, b: int): int
    requires b != 0
  {
    a - b * TruncatedQuotient(a, b)
  }

  function Bits(x: int): nat {
    x % Words.W64
  }

  function Bitwise(op: BinaryOp, a: nat, b: nat): nat {
    match op
    case BitwiseAnd => Words.And(a, b)
    case BitwiseOr => Words.Or(a, b)
    case _ => Words.Xor(a, b)
  }

  function IntOp(op: BinaryOp, a: int, b: int): Result<Option<Literal>> {
    match op
    case Add => Mapped(Checked(a + b))
    case Sub => Mapped(Checked(a - b))
    case Mul => Mapped(Checked(a * b))
    case Div => if b == 0 then Err(Abort) else Mapped(Checked(TruncatedQuotient(a, b)))
    case Mod =>
      if b == 0 then Err(Abort)
      else if a == -(Words.HALF64 as int) && b == -1 then Err(ConstOverflow(false))
      else Ok(Some(IntLit(TruncatedRemainder(a, b))))
    case LogicalAnd =>
      if a == 1 && b == 1 then Ok(Some(IntLit(1))) else if a == 0 || b == 0 then Ok(Some(IntLit(0))) else Ok(None)
    case LogicalOr =>
      if a == 0 && b == 0 then Ok(Some(IntLit(0))) else if a == 1 || b == 1 then Ok(Some(IntLit(1))) else Ok(None)
    case Compare(c) => Ok(Some(Truth(Holds(c, a, b))))
    case _ => Ok(Some(IntLit(Wrapped(Bitwise(op, Bits(a), Bits(b))))))
  }

  function Mapped(r: Result<Literal>): Result<Option<Literal>> {
    match r
    case Ok(v) => Ok(Some(v))
    case Err(e) => Err(e)
  }

  function Truth(b: bool): Literal {
    IntLit(if b then 1 else 0)
  }

  function Holds(c: Comparison, a: int, b: int): bool {
    match c
    case Less => a < b
    case LessEqual => a <= b
    case Greater => a > b
    case GreaterEqual => a >= b
    case EqualEqual => a == b
    case NotEqual => a != b
  }

  /** Unsigned values of a width wrap around. */
  function NatOp(op: BinaryOp, a: nat, b: nat, width: nat): Result<Option<nat>>
    requires width > 0
  {
    match op
    case Add => Ok(Some((a + b) % width))
    case Sub => Ok(Some((a - b) % width))
    case Mul => Ok(Some((a * b) % width))
    case Div => if b == 0 then Err(Abort) else Ok(Some(Words.Abs(a / b)))
    case LogicalAnd => Ok(None)
    case LogicalOr => Ok(None)
    case Mod => if b == 0 then Err(Abort) else Ok(Some(Words.Abs(a % b)))
    case _ => Ok(Some(Bitwise(op, a, b)))
  }

  /** What two constants make under an operator, or nothing. */
  function Operate(op: BinaryOp, a: Literal, b: Literal, u: FloatUnit): Result<Option<Literal>> {
    match (a, b)
    case (IntLit(x), IntLit(y)) => IntOp(op, x, y)
    case (UnsignedLit(x), UnsignedLit(y)) =>
      if op.Compare? then Ok(Some(Truth(Holds(op.comparison, x, y))))
      else
        var r :- NatOp(op, x, y, Words.W64);
        Ok(if r.Some? then Some(UnsignedLit(r.value)) else None)
    case (CharLit(x), CharLit(y)) =>
      if op.Compare? then Ok(Some(Truth(Holds(op.comparison, x, y))))
      else if op.Mod? then Ok(None)
      else
        var r :- NatOp(op, x, y, 256);
        Ok(if r.Some? then Some(CharLit(r.value)) else None)
    case (FloatLit(x), FloatLit(y)) =>
      if op.Compare? then Ok(Some(Truth(u.holds(op.comparison, x, y))))
      else if op.Add? || op.Sub? || op.Mul? || op.Div? then Ok(Some(FloatLit(u.arithmetic(op, x, y))))
      else Ok(None)
    case _ =>
      if (op.LogicalAnd? && (a == IntLit(0) || b == IntLit(0))) then Ok(Some(IntLit(0)))
      else if op.LogicalOr? && (a == IntLit(1) || b == IntLit(1)) then Ok(Some(IntLit(1)))
      else Ok(None)
  }

  function Negated(l: Literal, u: FloatUnit): Result<Literal> {
    match l
    case IntLit(i) => Checked(-i)
    case UnsignedLit(v) => Ok(UnsignedLit((0 - v as int) % Words.W64))
    case CharLit(c) => Ok(CharLit((0 - c as int) % 256))
    case FloatLit(f) => Ok(FloatLit(u.negate(f)))
    case StrLit(_) => Ok(l)
  }

  function Complemented(l: Literal): Literal {
    match l
    case IntLit(i) => IntLit(-i - 1)
    case UnsignedLit(v) => UnsignedLit((Words.W64 - 1 - v) % Words.W64)
    case CharLit(c) => CharLit((255 - c) % 256)
    case _ => l
  }

  function LiteralTruth(k: Kind, u: FloatUnit): Option<bool> {
    if !k.Constant? then None
    else
      match k.literal
      case IntLit(i) => Some(i != 0)
      case UnsignedLit(v) => Some(v != 0)
      case CharLit(c) => Some(c != 0)
      case FloatLit(f) => Some(u.nonzero(f))
      case StrLit(_) => None
  }

  predicate IsZero(k: Kind, u: FloatUnit) {
    LiteralTruth(k, u) == Some(false)
  }

  /** const_cast */
  function CastLiteral(l: Literal, t: CType, u: FloatUnit): Option<Literal> {
    match l
    case IntLit(i) =>
      if t.Bool? then Some(Truth(i != 0))
      else if t.Char? || t.SignedChar? then Some(CharLit(i % 256))
      else if IsFloating(t) then Some(FloatLit(u.fromInt(i)))
      else if IsIntegral(t) then Some(if IsSigned(t) then IntLit(i) else UnsignedLit(i % Words.W64))
      else if t.Pointer? && i >= 0 then Some(UnsignedLit(i))
      else None
    case UnsignedLit(v) =>
      if t.Bool? then Some(Truth(v != 0))
      else if t.Char? || t.SignedChar? then Some(CharLit(v % 256))
      else if IsFloating(t) then Some(FloatLit(u.fromInt(v)))
      else if IsIntegral(t) then Some(if IsSigned(t) then IntLit(Wrapped(v)) else UnsignedLit(v))
      else if t.Pointer? then Some(UnsignedLit(v))
      else None
    case FloatLit(f) =>
      if t.Bool? then Some(Truth(u.nonzero(f)))
      else if t.Char? || t.SignedChar? then Some(CharLit(u.toByte(f)))
      else if IsFloating(t) then Some(FloatLit(f))
      else if IsIntegral(t) then Some(if IsSigned(t) then IntLit(u.toInt(f)) else UnsignedLit(u.toUnsigned(f)))
      else None
    case CharLit(c) =>
      if t.Bool? then Some(Truth(c != 0))
      else if IsFloating(t) then Some(FloatLit(u.fromInt(c)))
      else if IsIntegral(t) then Some(if IsSigned(t) then IntLit(c) else UnsignedLit(c))
      else if t.Pointer? then Some(UnsignedLit(c))
      else None
    case StrLit(_) => None
  }

  function NonNegative(l: Literal): Option<nat> {
    match l
    case IntLit(i) => if i >= 0 then Some(i) else None
    case UnsignedLit(v) => Some(v)
    case CharLit(c) => Some(c)
    case _ => None
  }
}
