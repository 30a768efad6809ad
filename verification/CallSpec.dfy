/** Where System V AMD64 arguments go: the convention's own assignment, and the caller's accounting of it. */
module CallSpec {
  import opened Alignment
  import opened CTypes
  import opened ClassSpec

  /** One parameter of a signature: an eightbyte in an integer or vector register, or bytes in memory. */
  datatype Param = Word(kind: Class) | Block(bytes: nat)

  datatype Location = Gp(index: nat) | Fp(index: nat) | Stack(offset: nat)

  datatype Counters = Counters(gp: nat, fp: nat, stack: nat)

  // ---------------------------------------------------------------- the convention

  /** Parameters take the next free register of their class; when there is none, and for blocks of memory,
      the next bytes of the stack. */
  function Place(p: Param, c: Counters): Location {
    match p
    case Word(Int) => if c.gp < 6 then Gp(c.gp) else Stack(c.stack)
    case Word(Sse) => if c.fp < 8 then Fp(c.fp) else Stack(c.stack)
    case Block(_) => Stack(c.stack)
  }

  function After(p: Param, c: Counters): Counters {
    match p
    case Word(Int) => if c.gp < 6 then c.(gp := c.gp + 1) else c.(stack := c.stack + 8)
    case Word(Sse) => if c.fp < 8 then c.(fp := c.fp + 1) else c.(stack := c.stack + 8)
    case Block(bytes) => c.(stack := c.stack + bytes)
  }

  function AfterAll(params: seq<Param>, c: Counters): Counters {
    if params == [] then c else AfterAll(params[1..], After(params[0], c))
  }

  function Places(params: seq<Param>, c: Counters): (l: seq<Location>)
    ensures |l| == |params|
  {
    if params == [] then [] else [Place(params[0], c)] + Places(params[1..], After(params[0], c))
  }

  lemma {:induction false} PlacesJoined(a: seq<Param>, b: seq<Param>, c: Counters)
    ensures AfterAll(a + b, c) == AfterAll(b, AfterAll(a, c))
    ensures Places(a + b, c) == Places(a, c) + Places(b, AfterAll(a, c))
  {
    if a == [] {
      assert a + b == b;
    } else {
      PlacesJoined(a[1..], b, After(a[0], c));
      assert (a + b)[1..] == a[1..] + b;
    }
  }

  // ---------------------------------------------------------------- the caller's accounting

  datatype Passing = Scalar(kind: Class) | Memory(bytes: nat) | Registers(classes: seq<Class>)

  const START := Counters(0, 0, 0)

  function Rounded(t: CType): nat {
    AlignUp(Size(t), 8)
  }

  /** What plan accepts as an argument. Arrays and functions are passed as pointers. */
  predicate Passable(t: CType) {
    match t
    case Other => false
    case Array(_, _) => true
    case Scalar(_, _) => Supported(t)
    case _ => Supported(t) && Rounded(t) < 0x1_0000_0000
  }

  function CountOf(classes: seq<Class>, kind: Class): nat {
    if classes == [] then 0 else CountOf(classes[1..], kind) + if classes[0] == kind then 1 else 0
  }

  function PassingOf(t: CType, c: Counters): Passing {
    match t
    case Array(_, _) => Passing.Scalar(Int)
    case Other => Passing.Scalar(Int)
    case Scalar(_, isFloat) => Passing.Scalar(if isFloat then Sse else Int)
    case _ =>
      if Size(t) > 16 then Memory(Rounded(t))
      else if c.gp + CountOf(ClassesOf(t), Int) <= 6 && c.fp + CountOf(ClassesOf(t), Sse) <= 8 then Registers(ClassesOf(t))
      else Memory(Rounded(t))
  }

  function Words(classes: seq<Class>): (p: seq<Param>)
    ensures |p| == |classes|
  {
    seq(|classes|, i requires 0 <= i < |classes| => Word(classes[i]))
  }

  function ParamsOf(p: Passing): seq<Param> {
    match p
    case Scalar(kind) => [Word(kind)]
    case Memory(bytes) => [Block(bytes)]
    case Registers(classes) => Words(classes)
  }

  /** The parameters of arguments that come after others. */
  function ParamsFrom(types: seq<CType>, c: Counters): seq<Param> {
    if types == [] then []
    else
      var mine := ParamsOf(PassingOf(types[0], c));
      mine + ParamsFrom(types[1..], AfterAll(mine, c))
  }

  function PassingsFrom(types: seq<CType>, c: Counters): (p: seq<Passing>)
    ensures |p| == |types|
  {
    if types == [] then []
    else
      var passing := PassingOf(types[0], c);
      [passing] + PassingsFrom(types[1..], AfterAll(ParamsOf(passing), c))
  }

  // ---------------------------------------------------------------- registers never spill

  /** Eightbytes that plan gives registers get consecutive ones, each class in its own order. */
  function RegisterPlaces(classes: seq<Class>, gp: nat, fp: nat): (l: seq<Location>)
    ensures |l| == |classes|
  {
    if classes == [] then []
    else if classes[0] == Int then [Gp(gp)] + RegisterPlaces(classes[1..], gp + 1, fp)
    else [Fp(fp)] + RegisterPlaces(classes[1..], gp, fp + 1)
  }

  lemma {:induction false} RegistersFit(classes: seq<Class>, c: Counters)
    requires c.gp + CountOf(classes, Int) <= 6 && c.fp + CountOf(classes, Sse) <= 8
    ensures Places(Words(classes), c) == RegisterPlaces(classes, c.gp, c.fp)
    ensures AfterAll(Words(classes), c) == Counters(c.gp + CountOf(classes, Int), c.fp + CountOf(classes, Sse), c.stack)
  {
    if classes == [] {
      assert Words(classes) == [];
    } else {
      assert Words(classes)[1..] == Words(classes[1..]);
      RegistersFit(classes[1..], After(Word(classes[0]), c));
    }
  }

  lemma {:induction false} CountsSum(classes: seq<Class>)
    ensures CountOf(classes, Int) + CountOf(classes, Sse) == |classes|
  {
    if classes != [] {
      CountsSum(classes[1..]);
    }
  }

  /** Registers run out but are never overdrawn, and the stack stays aligned. */
  predicate Sound(c: Counters) {
    c.gp <= 6 && c.fp <= 8 && c.stack % 8 == 0
  }

  lemma PassingKeepsSound(t: CType, c: Counters)
    requires Sound(c)
    ensures Sound(AfterAll(ParamsOf(PassingOf(t, c)), c))
  {
    hide AfterAll, ClassesOf, Places, PassingOf;
    var p := PassingOf(t, c);
    PassingCases(t, c);
    match p
    case Registers(classes) => RegistersFit(classes, c);
    case Memory(bytes) => OneParam(Block(bytes), c);
    case Scalar(kind) => OneParam(Word(kind), c);
  }

  lemma PassingCases(t: CType, c: Counters)
    ensures var p := PassingOf(t, c);
      && (p.Memory? ==> p.bytes % 8 == 0)
      && (p.Registers? ==> c.gp + CountOf(p.classes, Int) <= 6 && c.fp + CountOf(p.classes, Sse) <= 8)
  {
    hide ClassesOf, CountOf, Size;
  }

  lemma OneParam(p: Param, c: Counters)
    ensures AfterAll([p], c) == After(p, c) && Places([p], c) == [Place(p, c)]
  {
    assert [p][1..] == [];
    assert AfterAll([p][1..], After(p, c)) == After(p, c);
    assert Places([p], c) == [Place(p, c)] + Places([p][1..], After(p, c));
  }

  lemma {:induction false} PlanJoined(a: seq<CType>, b: seq<CType>, c: Counters)
    ensures ParamsFrom(a + b, c) == ParamsFrom(a, c) + ParamsFrom(b, AfterAll(ParamsFrom(a, c), c))
    ensures PassingsFrom(a + b, c) == PassingsFrom(a, c) + PassingsFrom(b, AfterAll(ParamsFrom(a, c), c))
  {
    hide PassingOf, ParamsOf, After;
    if a == [] {
      assert a + b == b;
    } else {
      var mine := ParamsOf(PassingOf(a[0], c));
      var rest := AfterAll(mine, c);
      assert (a + b)[1..] == a[1..] + b && (a + b)[0] == a[0];
      PlanJoined(a[1..], b, rest);
      PlacesJoined(mine, ParamsFrom(a[1..], rest), c);
      var later := AfterAll(ParamsFrom(a[1..], rest), rest);
      Associate(mine, ParamsFrom(a[1..], rest), ParamsFrom(b, later));
      Associate([PassingOf(a[0], c)], PassingsFrom(a[1..], rest), PassingsFrom(b, later));
    }
  }

  lemma Associate<T>(a: seq<T>, b: seq<T>, c: seq<T>)
    ensures a + (b + c) == a + b + c
  {
  }

  lemma {:induction false} PlanKeepsSound(types: seq<CType>, c: Counters)
    requires Sound(c)
    ensures Sound(AfterAll(ParamsFrom(types, c), c))
  {
    if types != [] {
      var mine := ParamsOf(PassingOf(types[0], c));
      PassingKeepsSound(types[0], c);
      PlanKeepsSound(types[1..], AfterAll(mine, c));
      PlacesJoined(mine, ParamsFrom(types[1..], AfterAll(mine, c)), c);
    }
  }

  // ---------------------------------------------------------------- whole signatures

  datatype Return = Void | Value(t: CType)

  predicate Accepted(ret: Return, types: seq<CType>) {
    (ret.Value? ==> Passable(ret.t)) && forall t :: t in types ==> Passable(t)
  }

  datatype Result = ResultNone | ResultMemory | ResultRegisters(classes: seq<Class>) | ResultScalar(kind: Class)

  function ResultOf(ret: Return): Result {
    match ret
    case Void => ResultNone
    case Value(t) =>
      if !Aggregate(t) then ResultScalar(if t.Scalar? && t.isFloat then Sse else Int)
      else if Size(t) > 16 then ResultMemory
      else ResultRegisters(ClassesOf(t))
  }

  /** A result in memory costs the first integer register. */
  function Hidden(ret: Return): seq<Param> {
    if ResultOf(ret) == ResultMemory then [Word(Int)] else []
  }

  function Signature(ret: Return, types: seq<CType>): seq<Param> {
    Hidden(ret) + ParamsFrom(types, AfterAll(Hidden(ret), START))
  }

  function CountersAfter(ret: Return, types: seq<CType>): Counters {
    AfterAll(Signature(ret, types), START)
  }

  lemma SignatureSound(ret: Return, types: seq<CType>)
    ensures Sound(CountersAfter(ret, types))
    ensures CountersAfter(ret, types) == AfterAll(ParamsFrom(types, AfterAll(Hidden(ret), START)), AfterAll(Hidden(ret), START))
  {
    var c := AfterAll(Hidden(ret), START);
    if Hidden(ret) != [] {
      assert Hidden(ret)[1..] == [] && Hidden(ret)[0] == Word(Int);
      assert c == AfterAll([], After(Word(Int), START));
    }
    assert Sound(c);
    PlacesJoined(Hidden(ret), ParamsFrom(types, c), START);
    PlanKeepsSound(types, c);
  }

  /** Where the caller puts its k-th argument: the places of that argument's own parameters. */
  function ArgumentPlaces(ret: Return, types: seq<CType>, k: nat): seq<Location>
    requires k < |types|
  {
    var c := CountersAfter(ret, types[..k]);
    Places(ParamsOf(PassingOf(types[k], c)), c)
  }

  lemma SignatureSplit(ret: Return, types: seq<CType>, k: nat)
    requires k < |types|
    ensures var c := CountersAfter(ret, types[..k]);
      var mine := ParamsOf(PassingOf(types[k], c));
      Signature(ret, types) == Signature(ret, types[..k]) + (mine + ParamsFrom(types[k + 1..], AfterAll(mine, c)))
  {
    hide PassingOf, ParamsOf, After, Places, AfterAll;
    var start := AfterAll(Hidden(ret), START);
    SignatureSound(ret, types[..k]);
    assert types == types[..k] + types[k..] && types[k..][0] == types[k] && types[k..][1..] == types[k + 1..];
    PlanJoined(types[..k], types[k..], start);
    Associate(Hidden(ret), ParamsFrom(types[..k], start), ParamsFrom(types[k..], CountersAfter(ret, types[..k])));
  }

  lemma SignatureStep(ret: Return, types: seq<CType>, k: nat)
    requires k < |types|
    ensures Signature(ret, types[..k + 1])
         == Signature(ret, types[..k]) + ParamsOf(PassingOf(types[k], CountersAfter(ret, types[..k])))
  {
    hide PassingOf, ParamsOf, After, Places, AfterAll, Hidden;
    var start, c := AfterAll(Hidden(ret), START), CountersAfter(ret, types[..k]);
    var mine := ParamsOf(PassingOf(types[k], c));
    SignatureSound(ret, types[..k]);
    PlanJoined(types[..k], [types[k]], start);
    assert types[..k] + [types[k]] == types[..k + 1] && [types[k]][1..] == [];
    assert ParamsFrom([types[k]], c) == mine + ParamsFrom([], AfterAll(mine, c)) == mine;
    Associate(Hidden(ret), ParamsFrom(types[..k], start), mine);
  }

  /** Those places are a stretch of the places of the whole signature, as the convention assigns them. */
  lemma ArgumentInSignature(ret: Return, types: seq<CType>, k: nat)
    requires k < |types|
    ensures var places, before := Places(Signature(ret, types), START), |Signature(ret, types[..k])|;
      var mine := ArgumentPlaces(ret, types, k);
      before + |mine| <= |places| && places[before..before + |mine|] == mine
    ensures CountersAfter(ret, types[..k + 1])
         == AfterAll(ParamsOf(PassingOf(types[k], CountersAfter(ret, types[..k]))), CountersAfter(ret, types[..k]))
  {
    hide PassingOf, ParamsOf, After, Places, AfterAll, Signature, Hidden, ParamsFrom;
    var c := CountersAfter(ret, types[..k]);
    var mine := ParamsOf(PassingOf(types[k], c));
    var later := ParamsFrom(types[k + 1..], AfterAll(mine, c));
    SignatureSplit(ret, types, k);
    PlacesJoined(Signature(ret, types[..k]), mine + later, START);
    PlacesJoined(mine, later, c);
    SignatureStep(ret, types, k);
    PlacesJoined(Signature(ret, types[..k]), mine, START);
  }
}
