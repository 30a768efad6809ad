/** Where a va_list should find an argument: the places the caller's convention gave it, seen from the callee. */
module VaSpec {
  import opened CTypes
  import opened ClassSpec
  import opened CallSpec

  /** A word of the register save area, or one above the callee's frame. */
  datatype Source = Save(offset: nat) | Overflow(address: nat)

  datatype Fetched = Eightbytes(sources: seq<Source>) | Copied(address: nat, bytes: nat)

  function SourceOf(l: Location, frame: nat): Source {
    match l
    case Gp(n) => Save(8 * n)
    case Fp(n) => Save(48 + 16 * n)
    case Stack(offset) => Overflow(frame + 16 + offset)
  }

  function Sources(places: seq<Location>, frame: nat): (s: seq<Source>)
    ensures |s| == |places|
  {
    seq(|places|, i requires 0 <= i < |places| => SourceOf(places[i], frame))
  }

  /** An argument that the caller placed with counters c, seen from the callee. */
  function Expected(t: CType, c: Counters, frame: nat): Fetched {
    var passing := PassingOf(t, c);
    if passing.Memory? then Copied(frame + 16 + c.stack, Size(t))
    else Eightbytes(Sources(Places(ParamsOf(passing), c), frame))
  }

  /** Types that the default promotions never leave behind. */
  predicate Unpromoted(t: CType) {
    t.Scalar? && (t.bytes < 4 || (t.isFloat && t.bytes == 4))
  }

  /** What call_signature lets through as an extra argument. */
  predicate Extra(t: CType) {
    Passable(t) && !Unpromoted(t) && !t.Array?
  }

  // ---------------------------------------------------------------- the callee's signature

  function Rest(c: Counters): seq<Param>
    requires Sound(c)
  {
    seq(6 - c.gp, _ => Word(Int)) + seq(8 - c.fp, _ => Word(Sse))
  }

  function RestPlaces(c: Counters): seq<Location>
    requires Sound(c)
  {
    seq(6 - c.gp, i requires 0 <= i => Gp(c.gp + i)) + seq(8 - c.fp, i requires 0 <= i => Fp(c.fp + i))
  }

  /** The extra parameters of a variadic definition are exactly the registers its named ones leave free. */
  lemma RestFills(c: Counters)
    requires Sound(c)
    ensures Places(Rest(c), c) == RestPlaces(c) && AfterAll(Rest(c), c) == Counters(6, 8, c.stack)
  {
    IntsFill(c, 6 - c.gp);
    var full := Counters(6, c.fp, c.stack);
    SsesFill(full, 8 - c.fp);
    PlacesJoined(seq(6 - c.gp, _ => Word(Int)), seq(8 - c.fp, _ => Word(Sse)), c);
  }

  lemma {:induction false} IntsFill(c: Counters, n: nat)
    requires c.gp + n == 6
    ensures Places(seq(n, _ => Word(Int)), c) == seq(n, i requires 0 <= i => Gp(c.gp + i))
    ensures AfterAll(seq(n, _ => Word(Int)), c) == c.(gp := 6)
    decreases n
  {
    if n > 0 {
      assert seq(n, _ => Word(Int))[1..] == seq(n - 1, _ => Word(Int));
      IntsFill(c.(gp := c.gp + 1), n - 1);
    }
  }

  lemma {:induction false} SsesFill(c: Counters, n: nat)
    requires c.fp + n == 8
    ensures Places(seq(n, _ => Word(Sse)), c) == seq(n, i requires 0 <= i => Fp(c.fp + i))
    ensures AfterAll(seq(n, _ => Word(Sse)), c) == c.(fp := 8)
    decreases n
  {
    if n > 0 {
      assert seq(n, _ => Word(Sse))[1..] == seq(n - 1, _ => Word(Sse));
      SsesFill(c.(fp := c.fp + 1), n - 1);
    }
  }

  // ---------------------------------------------------------------- contents

  /** What the caller left in registers and on the stack when it made the call. */
  datatype Machine = Machine(gp: seq<nat>, fp: seq<nat>, stack: nat -> nat)

  predicate Complete(m: Machine) {
    |m.gp| == 6 && |m.fp| == 8
  }

  function WordAt(l: Location, m: Machine): nat
    requires Complete(m) && (l.Gp? ==> l.index < 6) && (l.Fp? ==> l.index < 8)
  {
    match l
    case Gp(n) => m.gp[n]
    case Fp(n) => m.fp[n]
    case Stack(offset) => m.stack(offset)
  }

  /** The save area holds every register that the named parameters left free. */
  ghost predicate Captured(save: seq<nat>, m: Machine, named: Counters) {
    && |save| == 22 && Complete(m)
    && (forall n :: named.gp <= n < 6 ==> save[n] == m.gp[n])
    && (forall n :: named.fp <= n < 8 ==> save[6 + 2 * n] == m.fp[n])
  }

  function Load(s: Source, save: seq<nat>, m: Machine, frame: nat): nat
    requires |save| == 22 && (s.Save? ==> s.offset < 176) && (s.Overflow? ==> s.address >= frame + 16)
  {
    match s
    case Save(offset) => save[offset / 8]
    case Overflow(address) => m.stack(address - frame - 16)
  }

  lemma LoadsBack(l: Location, save: seq<nat>, m: Machine, named: Counters, frame: nat)
    requires Captured(save, m, named)
    requires (l.Gp? ==> named.gp <= l.index < 6) && (l.Fp? ==> named.fp <= l.index < 8)
    ensures var s := SourceOf(l, frame);
      && (s.Save? ==> s.offset < 176) && (s.Overflow? ==> s.address >= frame + 16)
      && Load(s, save, m, frame) == WordAt(l, m)
  {
    if l.Fp? {
      assert (48 + 16 * l.index) / 8 == 6 + 2 * l.index;
    }
  }

  lemma {:induction false} CountersGrow(params: seq<Param>, c: Counters)
    ensures var d := AfterAll(params, c); c.gp <= d.gp && c.fp <= d.fp && c.stack <= d.stack
    ensures forall l :: l in Places(params, c) ==> (l.Gp? ==> c.gp <= l.index < 6) && (l.Fp? ==> c.fp <= l.index < 8)
  {
    if params != [] {
      CountersGrow(params[1..], After(params[0], c));
    }
  }

  /** Entry values of parameters in registers are what the registers held. */
  ghost predicate Holds(values: seq<nat>, places: seq<Location>, m: Machine)
    requires Complete(m)
  {
    |values| == |places| && forall i :: 0 <= i < |places| ==>
      (places[i].Gp? && places[i].index < 6 ==> values[i] == m.gp[places[i].index])
      && (places[i].Fp? && places[i].index < 8 ==> values[i] == m.fp[places[i].index])
  }

  lemma RegisterValues(values: seq<nat>, places: seq<Location>, c: Counters, m: Machine)
    requires Complete(m) && Sound(c) && Holds(values, places + RestPlaces(c), m)
    ensures c.gp <= 6 && c.fp <= 8 && |values| == |places| + (6 - c.gp) + (8 - c.fp)
    ensures forall n :: c.gp <= n < 6 ==> values[|places| + n - c.gp] == m.gp[n]
    ensures forall n :: c.fp <= n < 8 ==> values[|places| + (6 - c.gp) + n - c.fp] == m.fp[n]
  {
    forall n | c.gp <= n < 6
      ensures values[|places| + n - c.gp] == m.gp[n]
    {
      assert (places + RestPlaces(c))[|places| + n - c.gp] == Gp(n);
    }
    forall n | c.fp <= n < 8
      ensures values[|places| + (6 - c.gp) + n - c.fp] == m.fp[n]
    {
      assert (places + RestPlaces(c))[|places| + (6 - c.gp) + n - c.fp] == Fp(n);
    }
  }

  // ---------------------------------------------------------------- one argument

  lemma InMemory(t: CType, c: Counters, frame: nat)
    requires Aggregate(t) && PassingOf(t, c).Memory?
    ensures AfterAll(ParamsOf(PassingOf(t, c)), c) == c.(stack := c.stack + Rounded(t))
    ensures Expected(t, c, frame) == Copied(frame + 16 + c.stack, Size(t))
  {
    OneParam(Block(PassingOf(t, c).bytes), c);
  }

  lemma InRegisters(t: CType, c: Counters, frame: nat)
    requires PassingOf(t, c) == Registers(ClassesOf(t))
    requires c.gp + CountOf(ClassesOf(t), Int) <= 6 && c.fp + CountOf(ClassesOf(t), Sse) <= 8
    ensures AfterAll(ParamsOf(PassingOf(t, c)), c)
         == Counters(c.gp + CountOf(ClassesOf(t), Int), c.fp + CountOf(ClassesOf(t), Sse), c.stack)
    ensures Expected(t, c, frame) == Eightbytes(Sources(RegisterPlaces(ClassesOf(t), c.gp, c.fp), frame))
  {
    RegistersFit(ClassesOf(t), c);
  }

  lemma OneWord(t: CType, c: Counters, frame: nat)
    requires Passable(t) && !Aggregate(t)
    ensures var p := Word(if t.Scalar? && t.isFloat then Sse else Int);
      AfterAll(ParamsOf(PassingOf(t, c)), c) == After(p, c) && Expected(t, c, frame) == Eightbytes([SourceOf(Place(p, c), frame)])
  {
    OneParam(Word(if t.Scalar? && t.isFloat then Sse else Int), c);
  }

  lemma {:induction false} NextPlace(classes: seq<Class>, i: nat, gp: nat, fp: nat)
    requires i < |classes|
    ensures CountOf(classes[..i + 1], Int) == CountOf(classes[..i], Int) + if classes[i] == Int then 1 else 0
    ensures CountOf(classes[..i + 1], Sse) == CountOf(classes[..i], Sse) + if classes[i] == Sse then 1 else 0
    ensures RegisterPlaces(classes[..i + 1], gp, fp) == RegisterPlaces(classes[..i], gp, fp)
      + [if classes[i] == Int then Gp(gp + CountOf(classes[..i], Int)) else Fp(fp + CountOf(classes[..i], Sse))]
    decreases i
  {
    hide Sources;
    if i == 0 {
      assert classes[..1] == [classes[0]] && classes[..1][1..] == [] && classes[..0] == [];
    } else {
      var first := if classes[0] == Int then 1 else 0;
      assert classes[..i + 1][1..] == classes[1..][..i] && classes[..i][1..] == classes[1..][..i - 1];
      NextPlace(classes[1..], i - 1, gp + first, fp + 1 - first);
    }
  }

  lemma NoRegisters(gp: nat, fp: nat, frame: nat)
    ensures CountOf([], Int) == 0 && CountOf([], Sse) == 0 && Sources(RegisterPlaces([], gp, fp), frame) == []
  {
  }

  lemma NextRegister(classes: seq<Class>, i: nat, gp: nat, fp: nat, frame: nat)
    requires i < |classes|
    ensures CountOf(classes[..i + 1], Int) == CountOf(classes[..i], Int) + if classes[i] == Int then 1 else 0
    ensures CountOf(classes[..i + 1], Sse) == CountOf(classes[..i], Sse) + if classes[i] == Sse then 1 else 0
    ensures Sources(RegisterPlaces(classes[..i + 1], gp, fp), frame) == Sources(RegisterPlaces(classes[..i], gp, fp), frame)
      + [Save(if classes[i] == Int then 8 * (gp + CountOf(classes[..i], Int)) else 48 + 16 * (fp + CountOf(classes[..i], Sse)))]
  {
    NextPlace(classes, i, gp, fp);
  }
}
/** stdarg.rs: the register save area of a variadic definition and the va_list cursor. */
module VaArgs {
  import opened CTypes
  import opened ClassSpec
  import opened CallSpec
  import opened CallPlan
  import opened VaSpec

  /** variadic::call_signature: the caller's side, without the vector count that it also passes. */
  method CallSignature(ret: Return, fixed: seq<CType>, extras: seq<CType>) returns (ok: bool, plan: Plan)
    ensures ok <==> Accepted(ret, fixed) && forall t :: t in extras ==> Extra(t)
    ensures ok ==> plan.signature == Signature(ret, fixed + extras) && plan.counters == CountersAfter(ret, fixed + extras)
  {
    hide *;
    plan := Plan([], [], ResultNone, START);
    for k := 0 to |extras|
      invariant forall t :: t in extras[..k] ==> !Unpromoted(t) && !t.Array?
    {
      if Unpromoted(extras[k]) || extras[k].Array? {
        NotExtra(extras[k]);
        return false, plan;
      }
    }
    ok, plan := MakePlan(ret, fixed + extras);
    AcceptedSplit(ret, fixed, extras);
  }

  lemma NotExtra(t: CType)
    requires Unpromoted(t) || t.Array?
    ensures !Extra(t)
  {
  }

  lemma AcceptedSplit(ret: Return, fixed: seq<CType>, extras: seq<CType>)
    requires forall t :: t in extras ==> !Unpromoted(t) && !t.Array?
    ensures Accepted(ret, fixed + extras) <==> Accepted(ret, fixed) && forall t :: t in extras ==> Extra(t)
  {
    if Accepted(ret, fixed + extras) {
      forall t | t in fixed
        ensures Passable(t)
      {
        assert t in fixed + extras;
      }
      forall t | t in extras
        ensures Extra(t)
      {
        assert t in fixed + extras;
      }
    }
  }

  /** incoming_signature of a variadic definition. */
  method IncomingSignature(ret: Return, named: seq<CType>) returns (ok: bool, params: seq<Param>)
    ensures ok <==> Accepted(ret, named)
    ensures ok ==> Sound(CountersAfter(ret, named)) && params == Signature(ret, named) + Rest(CountersAfter(ret, named))
    ensures ok ==> Places(params, START) == Places(Signature(ret, named), START) + RestPlaces(CountersAfter(ret, named))
    ensures ok ==> AfterAll(params, START).stack == CountersAfter(ret, named).stack
  {
    var plan;
    ok, plan := MakePlan(ret, named);
    if !ok {
      return false, [];
    }
    params := plan.signature;
    var c := plan.counters;
    for n := c.gp to 6
      invariant params == plan.signature + seq(n - c.gp, _ => Word(Int))
    {
      params := params + [Word(Int)];
    }
    for n := c.fp to 8
      invariant params == plan.signature + (seq(6 - c.gp, _ => Word(Int)) + seq(n - c.fp, _ => Word(Sse)))
    {
      params := params + [Word(Sse)];
    }
    RestFills(c);
    PlacesJoined(plan.signature, Rest(c), START);
  }

  datatype Incoming = Incoming(gp: nat, fp: nat, overflow: nat)

  /** The values from `first` on are the registers that are left over, in order. */
  method SaveRegisters(values: seq<nat>, first: nat, c: Counters, save: array<nat>, ghost m: Machine)
    requires save.Length == 22 && Complete(m) && c.gp <= 6 && c.fp <= 8
    requires |values| == first + (6 - c.gp) + (8 - c.fp)
    requires forall n :: c.gp <= n < 6 ==> values[first + n - c.gp] == m.gp[n]
    requires forall n :: c.fp <= n < 8 ==> values[first + (6 - c.gp) + n - c.fp] == m.fp[n]
    modifies save
    ensures Captured(save[..], m, c)
  {
    var i := first;
    for n := c.gp to 6
      invariant i == first + n - c.gp
      invariant forall k :: c.gp <= k < n ==> save[k] == m.gp[k]
    {
      save[n] := values[i];
      i := i + 1;
    }
    for n := c.fp to 8
      invariant i == first + (6 - c.gp) + n - c.fp
      invariant forall k :: c.gp <= k < 6 ==> save[k] == m.gp[k]
      invariant forall k :: c.fp <= k < n ==> save[6 + 2 * k] == m.fp[k]
    {
      assert (48 + n * 16) / 8 == 6 + 2 * n;
      save[(48 + n * 16) / 8] := values[i];
      i := i + 1;
    }
  }

  /** capture_variadic: stores the registers that are left over and remembers where the extra arguments start.
      The values are the entry block's parameters, each in the place its parameter was given. */
  method Capture(ret: Return, named: seq<CType>, values: seq<nat>, frame: nat, save: array<nat>, ghost m: Machine)
    returns (ok: bool, incoming: Incoming)
    requires save.Length == 22 && Complete(m)
    requires Accepted(ret, named) && Sound(CountersAfter(ret, named)) ==>
      Holds(values, Places(Signature(ret, named), START) + RestPlaces(CountersAfter(ret, named)), m)
    modifies save
    ensures ok <==> Accepted(ret, named)
    ensures ok ==> Captured(save[..], m, CountersAfter(ret, named))
    ensures ok ==> var c := CountersAfter(ret, named); incoming == Incoming(8 * c.gp, 48 + 16 * c.fp, frame + 16 + c.stack)
  {
    hide *;
    var plan;
    ok, plan := MakePlan(ret, named);
    if !ok {
      return false, Incoming(0, 0, 0);
    }
    var c := plan.counters;
    RegisterValues(values, Places(Signature(ret, named), START), c, m);
    SaveRegisters(values, |plan.signature|, c, save, m);
    incoming := Incoming(c.gp * 8, 48 + c.fp * 16, frame + 16 + c.stack);
  }

  /** The 24 bytes of a va_list, with the save area they point to. */
  class VaList {
    var gpOffset: nat
    var fpOffset: nat
    var overflow: nat

    /** The cursor stands where the caller stood with counters c. */
    ghost predicate At(c: Counters, frame: nat)
      reads this
    {
      gpOffset == 8 * c.gp && fpOffset == 48 + 16 * c.fp && overflow == frame + 16 + c.stack
    }

    constructor ()
    {
      gpOffset, fpOffset, overflow := 0, 0, 0;
    }

    /** __cosmic_va_start */
    method Start(incoming: Incoming, ghost c: Counters, ghost frame: nat)
      requires incoming == Incoming(8 * c.gp, 48 + 16 * c.fp, frame + 16 + c.stack)
      modifies this
      ensures At(c, frame)
    {
      gpOffset, fpOffset, overflow := incoming.gp, incoming.fp, incoming.overflow;
    }

    /** __cosmic_va_copy */
    method Copy(src: VaList)
      modifies this
      ensures gpOffset == old(src.gpOffset) && fpOffset == old(src.fpOffset) && overflow == old(src.overflow)
    {
      gpOffset, fpOffset, overflow := src.gpOffset, src.fpOffset, src.overflow;
    }

    /** __cosmic_va_arg: reads what the caller's plan placed, and moves on exactly as that plan did. */
    method Arg(t: CType, ghost c: Counters, ghost frame: nat) returns (ok: bool, fetched: Fetched)
      requires At(c, frame) && Sound(c) && frame % 8 == 0
      modifies this
      ensures ok <==> Passable(t) && !Unpromoted(t)
      ensures ok ==> fetched == Expected(t, c, frame) && At(AfterAll(ParamsOf(PassingOf(t, c)), c), frame)
      ensures !ok ==> unchanged(this)
    {
      fetched := Eightbytes([]);
      if Unpromoted(t) {
        return false, fetched;
      }
      var aligned := (overflow + 7) / 8 * 8;
      assert aligned == overflow;
      if Aggregate(t) {
        ok, fetched := Aggregated(t, aligned, c, frame);
        return;
      }
      if !Passable(t) {
        return false, fetched;
      }
      ok := true;
      var source;
      if t.Scalar? && t.isFloat {
        var available := fpOffset < 176;
        source := if available then Save(fpOffset) else Overflow(aligned);
        fpOffset, overflow := if available then fpOffset + 16 else fpOffset, if available then overflow else aligned + 8;
      } else {
        var available := gpOffset < 48;
        source := if available then Save(gpOffset) else Overflow(aligned);
        gpOffset, overflow := if available then gpOffset + 8 else gpOffset, if available then overflow else aligned + 8;
      }
      fetched := Eightbytes([source]);
      OneWord(t, c, frame);
    }

    method Aggregated(t: CType, aligned: nat, ghost c: Counters, ghost frame: nat) returns (ok: bool, fetched: Fetched)
      requires Aggregate(t) && At(c, frame) && Sound(c) && aligned == overflow
      modifies this
      ensures ok <==> Passable(t)
      ensures ok ==> fetched == Expected(t, c, frame) && At(AfterAll(ParamsOf(PassingOf(t, c)), c), frame)
      ensures !ok ==> unchanged(this)
    {
      hide Expected, AfterAll, ParamsOf, Places, RegisterPlaces, Sources, SourceOf, CountOf;
      fetched := Eightbytes([]);
      var padded := Rounded(t);
      if padded >= 0x1_0000_0000 {
        return false, fetched;
      }
      if Size(t) > 16 {
        if !Supported(t) {
          return false, fetched;
        }
        InMemory(t, c, frame);
        overflow := aligned + padded;
        return true, Copied(aligned, Size(t));
      }
      var classes;
      ok, classes := Classification.Classes(t);
      if !ok {
        return false, fetched;
      }
      CountsSum(classes);
      var gpNeeded := CountOf(classes, Int);
      var fpNeeded := |classes| - gpNeeded;
      var hasGp := gpNeeded == 0 || gpOffset <= 48 - gpNeeded * 8;
      var hasFp := fpNeeded == 0 || fpOffset <= 176 - fpNeeded * 16;
      if hasGp && hasFp {
        InRegisters(t, c, frame);
        var g, f, sources := gpOffset, fpOffset, [];
        NoRegisters(c.gp, c.fp, frame);
        for i := 0 to |classes|
          invariant At(c, frame) && unchanged(this)
          invariant g == gpOffset + 8 * CountOf(classes[..i], Int) && f == fpOffset + 16 * CountOf(classes[..i], Sse)
          invariant sources == Sources(RegisterPlaces(classes[..i], c.gp, c.fp), frame)
        {
          NextRegister(classes, i, c.gp, c.fp, frame);
          sources := sources + [Save(if classes[i] == Int then g else f)];
          if classes[i] == Int {
            g := g + 8;
          } else {
            f := f + 16;
          }
        }
        assert classes[..|classes|] == classes;
        assert g == 8 * (c.gp + gpNeeded) && f == 48 + 16 * (c.fp + fpNeeded);
        gpOffset, fpOffset := g, f;
        fetched := Eightbytes(sources);
      } else {
        InMemory(t, c, frame);
        overflow := aligned + padded;
        fetched := Copied(aligned, Size(t));
      }
    }
  }
}
