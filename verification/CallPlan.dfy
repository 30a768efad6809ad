/** Calls with the System V AMD64 convention: abi::plan, and the va_list that walks the extra arguments. */
module CallPlan {
  import opened CTypes
  import opened ClassSpec
  import opened CallSpec
  import Classification

  datatype Plan = Plan(signature: seq<Param>, arguments: seq<Passing>, result: Result, counters: Counters)

  /** abi::plan, checked: counts registers and stack bytes while it classifies the arguments. */
  method MakePlan(ret: Return, types: seq<CType>) returns (ok: bool, plan: Plan)
    ensures ok <==> Accepted(ret, types)
    ensures ok ==> plan.signature == Signature(ret, types) && plan.counters == CountersAfter(ret, types)
    ensures ok ==> plan.result == ResultOf(ret)
    ensures ok ==> plan.arguments == PassingsFrom(types, AfterAll(Hidden(ret), START)) && Sound(plan.counters)
  {
    hide PassingOf, ParamsOf, After, AfterAll, PassingsFrom, Signature, Places, CountersAfter, Size, ClassesOf;
    plan := Plan([], [], ResultNone, START);
    if ret.Value? && !Passable(ret.t) {
      return false, plan;
    }
    var result := ResultNone;
    if ret.Value? {
      result := PlanResult(ret.t);
    }
    var gp, fp, stack := 0, 0, 0;
    var signature: seq<Param> := [];
    if result == ResultMemory {
      signature := [Word(Int)];
      gp := 1;
    }
    var arguments := [];
    PlanStart(ret);
    for k := 0 to |types|
      invariant forall t :: t in types[..k] ==> Passable(t)
      invariant signature == Signature(ret, types[..k]) && Counters(gp, fp, stack) == CountersAfter(ret, types[..k])
      invariant arguments == PassingsFrom(types[..k], AfterAll(Hidden(ret), START))
    {
      var t := types[k];
      if !Passable(t) {
        return false, plan;
      }
      PlanTurn(ret, types, k);
      var passing;
      gp, fp, stack, passing := PassOne(t, gp, fp, stack);
      signature := signature + ParamsOf(passing);
      arguments := arguments + [passing];
    }
    assert types[..|types|] == types;
    SignatureSound(ret, types);
    ok, plan := true, Plan(signature, arguments, result, Counters(gp, fp, stack));
  }

  /** Where the result goes. */
  method PlanResult(t: CType) returns (result: Result)
    requires Passable(t)
    ensures result == ResultOf(Value(t))
  {
    if Aggregate(t) {
      if Size(t) > 16 {
        return ResultMemory;
      }
      var ok, classes := Classification.Classes(t);
      return ResultRegisters(classes);
    }
    result := ResultScalar(if t.Scalar? && t.isFloat then Sse else Int);
  }

  /** One argument: its registers when all its eightbytes fit, otherwise memory. */
  method PassOne(t: CType, gp0: nat, fp0: nat, stack0: nat) returns (gp: nat, fp: nat, stack: nat, passing: Passing)
    requires Passable(t) && gp0 <= 6 && fp0 <= 8
    ensures passing == PassingOf(t, Counters(gp0, fp0, stack0))
    ensures Counters(gp, fp, stack) == AfterAll(ParamsOf(passing), Counters(gp0, fp0, stack0))
  {
    gp, fp, stack := gp0, fp0, stack0;
    ghost var c := Counters(gp, fp, stack);
    if Aggregate(t) {
      if Size(t) > 16 {
        passing := Memory(Rounded(t));
      } else {
        var ok, classes := Classification.Classes(t);
        var g, f := CountOf(classes, Int), |classes| - CountOf(classes, Int);
        CountsSum(classes);
        if gp + g <= 6 && fp + f <= 8 {
          RegistersFit(classes, c);
          gp, fp, passing := gp + g, fp + f, Registers(classes);
        } else {
          passing := Memory(Rounded(t));
        }
      }
    } else {
      passing := Passing.Scalar(if t.Scalar? && t.isFloat then Sse else Int);
    }
    if !passing.Registers? {
      OneParam(ParamsOf(passing)[0], c);
      assert ParamsOf(passing) == [ParamsOf(passing)[0]];
    }
    match passing
    case Registers(_) =>
    case Memory(n) =>
      stack := stack + n;
    case Scalar(kind) =>
      if kind == Sse {
        if fp < 8 {
          fp := fp + 1;
        } else {
          stack := stack + 8;
        }
      } else if gp < 6 {
        gp := gp + 1;
      } else {
        stack := stack + 8;
      }
  }

  lemma PlanStart(ret: Return)
    ensures Signature(ret, []) == Hidden(ret) && CountersAfter(ret, []) == Counters(|Hidden(ret)|, 0, 0) && |Hidden(ret)| <= 1
    ensures forall c :: PassingsFrom([], c) == []
  {
    assert Hidden(ret) == [] || Hidden(ret)[1..] == [];
    assert Hidden(ret) + [] == Hidden(ret);
  }

  lemma PlanTurn(ret: Return, types: seq<CType>, k: nat)
    requires k < |types|
    ensures var c := CountersAfter(ret, types[..k]);
      var passing := PassingOf(types[k], c);
      && Sound(c)
      && Signature(ret, types[..k + 1]) == Signature(ret, types[..k]) + ParamsOf(passing)
      && CountersAfter(ret, types[..k + 1]) == AfterAll(ParamsOf(passing), c)
      && PassingsFrom(types[..k + 1], AfterAll(Hidden(ret), START))
      == PassingsFrom(types[..k], AfterAll(Hidden(ret), START)) + [passing]
  {
    hide PassingOf, ParamsOf, After, Places, AfterAll;
    var start, c := AfterAll(Hidden(ret), START), CountersAfter(ret, types[..k]);
    SignatureSound(ret, types[..k]);
    ArgumentInSignature(ret, types, k);
    PlanJoined(types[..k], [types[k]], start);
    assert types[..k] + [types[k]] == types[..k + 1] && [types[k]][1..] == [];
    assert PassingsFrom([types[k]], c) == [PassingOf(types[k], c)];
    SignatureStep(ret, types, k);
  }
}
