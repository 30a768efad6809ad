/** What an expression means, without regard to folding: values, the operators on exact integers and bits,
    and evaluation from left to right over a machine that supplies everything that is not a constant. */
module Evaluation {
  import opened Options
  import opened Hir
  import Constants

  const MOST: int := 0x7fff_ffff_ffff_ffff
  const LEAST: int := -0x8000_0000_0000_0000

  datatype Value = Scalar(literal: Literal) | Opaque(id: nat)

  /** `Undefined` stands for everything without a meaning: signed overflow, division by zero, shifting by the
      width or more, a null dereference. */
  datatype Outcome<S> = Done(value: Value, state: S) | Undefined

  datatype Several<S> = All(values: seq<Value>, state: S) | Nothing

  /** Storage, calls and the operations on values that are not constants; S is the state of the program. */
  datatype Machine<!S> = Machine(
    target: Target,
    unit: Constants.FloatUnit,
    truth: Value -> bool,
    variable: (string, CType, S) -> Outcome<S>,
    call: (Value, seq<Value>, CType, S) -> Outcome<S>,
    member: (Value, string, CType, S) -> Outcome<S>,
    step: (Value, bool, CType, S) -> Outcome<S>,
    assign: (Value, Value, CType, S) -> Outcome<S>,
    load: (Value, CType, S) -> Outcome<S>,
    address: (Value, CType, S) -> Outcome<S>,
    size: (CType, S) -> Outcome<S>,
    convert: (Value, CType, S) -> Outcome<S>,
    unary: (bool, Value, CType, S) -> Outcome<S>,
    binary: (BinaryOp, Value, Value, CType, S) -> Outcome<S>)

  // ---------------------------------------------------------------- integers and their bits

  /** The n low bits of the two's complement of x. */
  function LowBits(x: int, n: nat): nat
    decreases n
  {
    if n == 0 then 0 else 2 * LowBits(x / 2, n - 1) + x % 2
  }

  /** The integer whose two's complement has these 64 bits. */
  function SignedOf(word: nat): int {
    if word <= MOST then word else word - (MOST - LEAST) - 1
  }

  function Gate(op: BinaryOp, p: bool, q: bool): bool {
    match op
    case BitwiseAnd => p && q
    case BitwiseOr => p || q
    case _ => p != q
  }

  /** An operator on each of the n low bits. */
  function BitByBit(op: BinaryOp, x: int, y: int, n: nat): nat
    decreases n
  {
    if n == 0 then 0
    else 2 * BitByBit(op, x / 2, y / 2, n - 1) + if Gate(op, x % 2 == 1, y % 2 == 1) then 1 else 0
  }

  function Doubled(x: int, times: nat): int
    decreases times
  {
    if times == 0 then x else Doubled(2 * x, times - 1)
  }

  /** Halved, rounding down. */
  function Halved(x: int, times: nat): int
    decreases times
  {
    if times == 0 then x else Halved(x / 2, times - 1)
  }

  /** Division toward zero. */
  function TowardZero(x: int, y: int): int
    requires y != 0
  {
    if x >= 0 then (if y > 0 then x / y else -(x / -y)) else if y > 0 then -(-x / y) else -x / -y
  }

  function Related(c: Comparison, x: int, y: int): bool {
    match c
    case Less => x < y
    case LessEqual => !(y < x)
    case Greater => y < x
    case GreaterEqual => !(x < y)
    case EqualEqual => x == y
    case NotEqual => x != y
  }

  // ---------------------------------------------------------------- operators on values

  predicate Bitwise(op: BinaryOp) {
    op.BitwiseAnd? || op.BitwiseOr? || op.Xor?
  }

  predicate Arithmetic(op: BinaryOp) {
    op.Add? || op.Sub? || op.Mul? || op.Div? || op.Mod?
  }

  function Flag(b: bool): Value {
    Scalar(IntLit(if b then 1 else 0))
  }

  /** A signed result is defined when the exact one is a 64-bit integer. */
  function Exactly<S>(x: int, s: S): Outcome<S> {
    if LEAST <= x <= MOST then Done(Scalar(IntLit(x)), s) else Undefined
  }

  /** The exact result of signed arithmetic. */
  function Exact(op: BinaryOp, x: int, y: int): int
    requires Arithmetic(op) && ((op.Div? || op.Mod?) ==> y != 0)
  {
    match op
    case Add => x + y
    case Sub => x - y
    case Mul => x * y
    case Div => TowardZero(x, y)
    case Mod => x - y * TowardZero(x, y)
  }

  function SignedBinary<S>(op: BinaryOp, x: int, y: int, s: S): Outcome<S>
    requires Arithmetic(op) || Bitwise(op)
  {
    if Bitwise(op) then Done(Scalar(IntLit(SignedOf(BitByBit(op, x, y, 64)))), s)
    else if (op.Div? || op.Mod?) && y == 0 then Undefined
    else Exactly(Exact(op, x, y), s)
  }

  /** Unsigned values of n bits wrap around. */
  function UnsignedBinary(op: BinaryOp, x: nat, y: nat, n: nat): Option<nat>
    requires Arithmetic(op) || Bitwise(op)
  {
    if Bitwise(op) then Some(BitByBit(op, x, y, n))
    else if (op.Div? || op.Mod?) && y == 0 then None
    else Some(LowBits(Exact(op, x, y), n))
  }

  /** A whole number of either kind or a byte. */
  function Number(v: Value): Option<int> {
    if v.Opaque? then None
    else
      match v.literal
      case IntLit(i) => Some(i)
      case UnsignedLit(u) => Some(u)
      case CharLit(c) => Some(c)
      case _ => None
  }

  /** Counts from the width of the type on are undefined; what is shifted out to the left is lost. */
  function Shift<S>(left: bool, leftType: CType, t: CType, x: Value, y: Value, m: Machine<S>, s: S): Outcome<S> {
    var count := Number(y);
    var op := if left then Shl else Shr;
    var of := if left then leftType else t;
    if count == None then m.binary(op, x, y, t, s)
    else if count.value < 0 || ((!left || IsSigned(of)) && TooFar(count.value, of, m.target)) then Undefined
    else if x.Opaque? || !(x.literal.IntLit? || x.literal.UnsignedLit?) then m.binary(op, x, y, t, s)
    else
      var n := count.value % 64;
      match x.literal
      case IntLit(i) => Done(Scalar(IntLit(if left then SignedOf(LowBits(Doubled(i, n), 64)) else Halved(i, n))), s)
      case UnsignedLit(u) =>
        Done(Scalar(UnsignedLit(LowBits(if left then Doubled(u, n) else Halved(u, n), 64))), s)
  }

  predicate TooFar(count: int, t: CType, target: Target) {
    SizeOf(t, target).None? || count >= 8 * SizeOf(t, target).value
  }

  function Operated<S>(op: BinaryOp, leftType: CType, t: CType, x: Value, y: Value, m: Machine<S>, s: S): Outcome<S>
    requires !op.LogicalAnd? && !op.LogicalOr? && !op.Assign?
  {
    if op.Shl? || op.Shr? then Shift(op.Shl?, leftType, t, x, y, m, s)
    else if x.Opaque? || y.Opaque? then m.binary(op, x, y, t, s)
    else
      match (x.literal, y.literal)
      case (IntLit(i), IntLit(j)) =>
        if op.Compare? then Done(Flag(Related(op.comparison, i, j)), s) else SignedBinary(op, i, j, s)
      case (UnsignedLit(i), UnsignedLit(j)) =>
        if op.Compare? then Done(Flag(Related(op.comparison, i, j)), s)
        else
          var r := UnsignedBinary(op, i, j, 64);
          if r.Some? then Done(Scalar(UnsignedLit(r.value)), s) else Undefined
      case (CharLit(i), CharLit(j)) =>
        if op.Compare? then Done(Flag(Related(op.comparison, i, j)), s)
        else
          var r := UnsignedBinary(op, i, j, 8);
          if r.Some? then Done(Scalar(CharLit(r.value)), s) else Undefined
      case (FloatLit(i), FloatLit(j)) =>
        if op.Compare? then Done(Flag(m.unit.holds(op.comparison, i, j)), s)
        else if Arithmetic(op) && !op.Mod? then Done(Scalar(FloatLit(m.unit.arithmetic(op, i, j))), s)
        else m.binary(op, x, y, t, s)
      case _ => m.binary(op, x, y, t, s)
  }

  function Minus<S>(x: Value, t: CType, m: Machine<S>, s: S): Outcome<S> {
    if x.Opaque? then m.unary(true, x, t, s)
    else
      match x.literal
      case IntLit(i) => Exactly(-i, s)
      case UnsignedLit(u) => Done(Scalar(UnsignedLit(LowBits(0 - u as int, 64))), s)
      case CharLit(c) => Done(Scalar(CharLit(LowBits(0 - c as int, 8))), s)
      case FloatLit(f) => Done(Scalar(FloatLit(m.unit.negate(f))), s)
      case StrLit(_) => Undefined
  }

  /** All bits turned over. */
  function Complement<S>(x: Value, t: CType, m: Machine<S>, s: S): Outcome<S> {
    if x.Opaque? then m.unary(false, x, t, s)
    else
      match x.literal
      case IntLit(i) => Done(Scalar(IntLit(SignedOf(BitByBit(Xor, i, -1, 64)))), s)
      case UnsignedLit(u) => Done(Scalar(UnsignedLit(BitByBit(Xor, u, -1, 64))), s)
      case CharLit(c) => Done(Scalar(CharLit(BitByBit(Xor, c, -1, 8))), s)
      case _ => Undefined
  }

  function True<S>(v: Value, m: Machine<S>): bool {
    if v.Opaque? then m.truth(v)
    else
      match v.literal
      case IntLit(i) => i != 0
      case UnsignedLit(u) => u != 0
      case CharLit(c) => c != 0
      case FloatLit(f) => m.unit.nonzero(f)
      case StrLit(_) => m.truth(v)
  }

  /** A whole number as a value of an integer type: a truth value, a byte, or its 64 low bits. What is a byte
      already becomes a word even at a character type. */
  function AsInteger(x: int, t: CType, byte: bool): Literal {
    if t.Bool? then IntLit(if x == 0 then 0 else 1)
    else if !byte && (t.Char? || t.SignedChar?) then CharLit(LowBits(x, 8))
    else if IsSigned(t) then IntLit(SignedOf(LowBits(x, 64)))
    else UnsignedLit(LowBits(x, 64))
  }

  /** Conversion to a type: to an integer type, to a floating one, and from a whole number to a pointer; the rest is the
      machine's. */
  function Convert<S>(x: Value, t: CType, m: Machine<S>, s: S): Outcome<S> {
    var n := Number(x);
    if n.Some? && IsFloating(t) then Done(Scalar(FloatLit(m.unit.fromInt(n.value))), s)
    else if n.Some? && IsIntegral(t) then Done(Scalar(AsInteger(n.value, t, x.literal.CharLit?)), s)
    else if n.Some? && t.Pointer? && n.value >= 0 then Done(Scalar(UnsignedLit(n.value)), s)
    else if x.Scalar? && x.literal.FloatLit? then FromFloat(x.literal.f, t, m, s)
    else m.convert(x, t, s)
  }

  function FromFloat<S>(f: nat, t: CType, m: Machine<S>, s: S): Outcome<S> {
    if IsFloating(t) then Done(Scalar(FloatLit(f)), s)
    else if t.Bool? then Done(Flag(m.unit.nonzero(f)), s)
    else if t.Char? || t.SignedChar? then Done(Scalar(CharLit(m.unit.toByte(f))), s)
    else if IsIntegral(t) then
      Done(Scalar(if IsSigned(t) then IntLit(m.unit.toInt(f)) else UnsignedLit(m.unit.toUnsigned(f))), s)
    else m.convert(Scalar(FloatLit(f)), t, s)
  }

  // ---------------------------------------------------------------- expressions

  /** A value of type float is a binary32. */
  function Stored<S>(r: Outcome<S>, t: CType, m: Machine<S>): Outcome<S> {
    if r.Done? && t.Float? && r.value.Scalar? && r.value.literal.FloatLit?
    then Done(Scalar(FloatLit(m.unit.narrow(r.value.literal.f))), r.state) else r
  }

  /** The first enumerator of that name. */
  ghost predicate Enumerator(t: CType, name: string, i: int) {
    t.Enum? && 0 <= i < |t.members| && t.members[i].0 == name && forall k :: 0 <= k < i ==> t.members[k].0 != name
  }

  ghost function Named<S>(name: string, t: CType, m: Machine<S>, s: S): Outcome<S> {
    if exists i :: Enumerator(t, name, i) then
      var i :| Enumerator(t, name, i);
      Done(Scalar(IntLit(t.members[i].1)), s)
    else m.variable(name, t, s)
  }

  function Measured<S>(of: CType, m: Machine<S>, s: S): Outcome<S> {
    if of.VariableArray? then m.size(of, s)
    else if SizeOf(of, m.target).Some? then Done(Scalar(UnsignedLit(SizeOf(of, m.target).value)), s)
    else Undefined
  }

  ghost function Eval<S>(e: Expr, m: Machine<S>, s: S): Outcome<S>
    decreases e, 0
  {
    Stored(EvalKind(e.kind, e.ctype, m, s), e.ctype, m)
  }

  ghost function EvalKind<S>(k: Kind, t: CType, m: Machine<S>, s: S): Outcome<S>
    decreases k, 1
  {
    match k
    case Id(name) => Named(name, t, m, s)
    case Constant(l) => Done(Scalar(l), s)
    case Sizeof(of) => Measured(of, m, s)
    case Negate(x) => (match Eval(x, m, s) case Done(v, s1) => Minus(v, t, m, s1) case Undefined => Undefined)
    case BitwiseNot(x) => (match Eval(x, m, s) case Done(v, s1) => Complement(v, t, m, s1) case Undefined => Undefined)
    case Cast(x) => (match Eval(x, m, s) case Done(v, s1) => Convert(v, t, m, s1) case Undefined => Undefined)
    case Noop(x) => Eval(x, m, s)
    case Deref(x) =>
      (match Eval(x, m, s)
       case Done(v, s1) => if v == Scalar(IntLit(0)) then Undefined else m.load(v, t, s1)
       case Undefined => Undefined)
    case Member(of, member) => (match Eval(of, m, s) case Done(v, s1) => m.member(v, member, t, s1) case Undefined => Undefined)
    case PostIncrement(x, increase) =>
      (match Eval(x, m, s) case Done(v, s1) => m.step(v, increase, t, s1) case Undefined => Undefined)
    case StaticRef(x) => (match Eval(x, m, s) case Done(v, s1) => m.address(v, t, s1) case Undefined => Undefined)
    case FuncCall(callee, params) =>
      (match Eval(callee, m, s)
       case Undefined => Undefined
       case Done(v, s1) =>
         match EvalAll(params, m, s1)
         case Nothing => Undefined
         case All(vs, s2) => m.call(v, vs, t, s2))
    case Comma(left, right) => (match Eval(left, m, s) case Done(_, s1) => Eval(right, m, s1) case Undefined => Undefined)
    case Ternary(c, a, b) =>
      (match Eval(c, m, s)
       case Undefined => Undefined
       case Done(v, s1) => if True(v, m) then Eval(a, m, s1) else Eval(b, m, s1))
    case Binary(op, left, right) =>
      match Eval(left, m, s)
      case Undefined => Undefined
      case Done(x, s1) =>
        if op.LogicalAnd? && !True(x, m) then Done(Flag(false), s1)
        else if op.LogicalOr? && True(x, m) then Done(Flag(true), s1)
        else
          match Eval(right, m, s1)
          case Undefined => Undefined
          case Done(y, s2) => Both(op, left.ctype, t, x, y, m, s2)
  }

  /** A binary operator whose operands are both evaluated. */
  function Both<S>(op: BinaryOp, leftType: CType, t: CType, x: Value, y: Value, m: Machine<S>, s: S): Outcome<S> {
    if op.LogicalAnd? || op.LogicalOr? then Done(Flag(True(y, m)), s)
    else if op.Assign? then m.assign(x, y, t, s)
    else Operated(op, leftType, t, x, y, m, s)
  }

  ghost function EvalAll<S>(es: seq<Expr>, m: Machine<S>, s: S): Several<S>
    decreases es, 0
  {
    if es == [] then All([], s)
    else
      match Eval(es[0], m, s)
      case Undefined => Nothing
      case Done(v, s1) =>
        match EvalAll(es[1..], m, s1)
        case Nothing => Nothing
        case All(vs, s2) => All([v] + vs, s2)
  }

  // ---------------------------------------------------------------- 64-bit programs

  /** Literals are 64-bit integers and bytes. */
  predicate InRange(l: Literal) {
    match l
    case IntLit(i) => LEAST <= i <= MOST
    case UnsignedLit(u) => u <= MOST - LEAST
    case CharLit(c) => c < 256
    case _ => true
  }

  /** The host's conversions give 64-bit integers and bytes. */
  ghost predicate UnitInRange(u: Constants.FloatUnit) {
    && (forall f {:trigger u.toInt(f)} :: LEAST <= u.toInt(f) <= MOST)
    && (forall f {:trigger u.toUnsigned(f)} :: u.toUnsigned(f) <= MOST - LEAST)
    && forall f {:trigger u.toByte(f)} :: u.toByte(f) < 256
  }

  predicate ExprInRange(e: Expr, target: Target)
    decreases e, 0
  {
    KindInRange(e.kind, e.ctype, target)
  }

  predicate KindInRange(k: Kind, t: CType, target: Target)
    decreases k, 1
  {
    match k
    case Id(_) => t.Enum? ==> forall i :: 0 <= i < |t.members| ==> LEAST <= t.members[i].1 <= MOST
    case Constant(l) => InRange(l)
    case Sizeof(of) => SizeOf(of, target).Some? ==> SizeOf(of, target).value <= MOST - LEAST
    case FuncCall(callee, params) => ExprInRange(callee, target) && AllInRange(params, target)
    case Member(of, _) => ExprInRange(of, target)
    case PostIncrement(x, _) => ExprInRange(x, target)
    case Cast(x) => ExprInRange(x, target)
    case Deref(x) => ExprInRange(x, target)
    case Negate(x) => ExprInRange(x, target)
    case BitwiseNot(x) => ExprInRange(x, target)
    case Binary(_, left, right) => ExprInRange(left, target) && ExprInRange(right, target)
    case Ternary(c, a, b) => ExprInRange(c, target) && ExprInRange(a, target) && ExprInRange(b, target)
    case Comma(left, right) => ExprInRange(left, target) && ExprInRange(right, target)
    case StaticRef(x) => ExprInRange(x, target)
    case Noop(x) => ExprInRange(x, target)
  }

  predicate AllInRange(es: seq<Expr>, target: Target)
    decreases es, 0
  {
    es == [] || (ExprInRange(es[0], target) && AllInRange(es[1..], target))
  }
}
