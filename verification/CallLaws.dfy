/** What section 3.2.3 of the System V AMD64 ABI says of results and arguments, of the places that plans assign. */
module CallLaws {
  import opened CTypes
  import opened ClassSpec
  import opened CallSpec

  // ---------------------------------------------------------------- results

  /** A structure or union of more than two eightbytes, which the caller makes room for. */
  predicate ReturnedInMemory(ret: Return) {
    match ret
    case Void => false
    case Value(t) => (t.Struct? || t.Union?) && Size(t) > 16
  }

  /** Such a result, and no other, puts a pointer in front of the arguments, in the first integer register. */
  lemma ResultPointer(ret: Return, types: seq<CType>)
    ensures Signature(Void, []) == [] && CountersAfter(Void, []) == Counters(0, 0, 0)
    ensures ReturnedInMemory(ret) ==> Signature(ret, []) == [Word(Int)] && CountersAfter(ret, []) == Counters(1, 0, 0)
    ensures ReturnedInMemory(ret) ==> Signature(ret, types) != [] && Places(Signature(ret, types), START)[0] == Gp(0)
    ensures !ReturnedInMemory(ret) ==>
      Signature(ret, types) == Signature(Void, types) && CountersAfter(ret, types) == CountersAfter(Void, types)
  {
    assert [Word(Int)][1..] == [] && After(Word(Int), START) == Counters(1, 0, 0);
    assert AfterAll([Word(Int)], START) == AfterAll([], Counters(1, 0, 0));
    assert ParamsFrom([], Counters(1, 0, 0)) == [] && ParamsFrom([], START) == [];
    assert [Word(Int)] + [] == [Word(Int)];
  }

  /** The plan's result: nothing, memory, the registers of a small aggregate's eightbytes, or one register. */
  lemma ResultPlace(ret: Return)
    ensures ResultOf(ret) == ResultNone <==> ret == Void
    ensures ResultOf(ret) == ResultMemory <==> ReturnedInMemory(ret)
    ensures ret.Value? && (ret.t.Struct? || ret.t.Union?) && Size(ret.t) <= 16 ==> ResultOf(ret) == ResultRegisters(ClassesOf(ret.t))
    ensures ret.Value? && !ret.t.Struct? && !ret.t.Union? ==>
      ResultOf(ret) == ResultScalar(if ret.t.Scalar? && ret.t.isFloat then Sse else Int)
  {
    hide Size, ClassesOf;
  }

  // ---------------------------------------------------------------- one argument

  /** The counters before argument k, and its places. */
  ghost predicate Before(ret: Return, types: seq<CType>, k: nat, c: Counters) {
    k < |types| && c == CountersAfter(ret, types[..k])
  }

  /** A floating scalar takes the next vector register, anything else that is not an aggregate the next integer
      register, or else eight bytes of the stack. */
  lemma ScalarPlace(ret: Return, types: seq<CType>, k: nat, c: Counters)
    requires Before(ret, types, k, c) && !types[k].Struct? && !types[k].Union?
    ensures var floating, places, d := types[k].Scalar? && types[k].isFloat, ArgumentPlaces(ret, types, k), CountersAfter(ret, types[..k + 1]);
      if floating then
        if c.fp < 8 then places == [Fp(c.fp)] && d == Counters(c.gp, c.fp + 1, c.stack)
        else places == [Stack(c.stack)] && d == Counters(c.gp, c.fp, c.stack + 8)
      else
        if c.gp < 6 then places == [Gp(c.gp)] && d == Counters(c.gp + 1, c.fp, c.stack)
        else places == [Stack(c.stack)] && d == Counters(c.gp, c.fp, c.stack + 8)
  {
    hide Signature, Places, AfterAll, Size, ParamsFrom;
    ArgumentInSignature(ret, types, k);
    var kind := if types[k].Scalar? && types[k].isFloat then Sse else Int;
    assert ParamsOf(PassingOf(types[k], c)) == [Word(kind)];
    OneParam(Word(kind), c);
  }

  /** Integer and floating eightbytes of an aggregate. */
  function Needs(t: CType, kind: Class): nat {
    CountOf(ClassesOf(t), kind)
  }

  /** An aggregate of more than two eightbytes, or one whose eightbytes do not all find registers, lies on the stack as
      a whole, at eight bytes' alignment, and takes no register. */
  lemma MemoryPlace(ret: Return, types: seq<CType>, k: nat, c: Counters)
    requires Before(ret, types, k, c) && (types[k].Struct? || types[k].Union?)
    requires Size(types[k]) > 16 || c.gp + Needs(types[k], Int) > 6 || c.fp + Needs(types[k], Sse) > 8
    ensures ArgumentPlaces(ret, types, k) == [Stack(c.stack)] && c.stack % 8 == 0
    ensures var d := CountersAfter(ret, types[..k + 1]);
      d.gp == c.gp && d.fp == c.fp && d.stack % 8 == 0 && c.stack + Size(types[k]) <= d.stack < c.stack + Size(types[k]) + 8
  {
    hide Signature, Places, AfterAll, Size, ParamsFrom, CountOf, ClassesOf;
    ArgumentInSignature(ret, types, k);
    SignatureSound(ret, types[..k]);
    var block := Block(Rounded(types[k]));
    assert ParamsOf(PassingOf(types[k], c)) == [block];
    OneParam(block, c);
  }

  /** Otherwise its eightbytes take the next registers, in order: a vector register for an eightbyte of floating
      scalars only, an integer register for any other. */
  lemma RegisterPlace(ret: Return, types: seq<CType>, k: nat, c: Counters, i: nat)
    requires Before(ret, types, k, c) && (types[k].Struct? || types[k].Union?)
    requires Size(types[k]) <= 16 && c.gp + Needs(types[k], Int) <= 6 && c.fp + Needs(types[k], Sse) <= 8
    requires i < |ClassesOf(types[k])|
    ensures var classes, places := ClassesOf(types[k]), ArgumentPlaces(ret, types, k);
      && |places| == |classes|
      && places[i] == if classes[i] == Int then Gp(c.gp + CountOf(classes[..i], Int)) else Fp(c.fp + CountOf(classes[..i], Sse))
    ensures CountersAfter(ret, types[..k + 1]) == Counters(c.gp + Needs(types[k], Int), c.fp + Needs(types[k], Sse), c.stack)
  {
    hide Signature, Places, AfterAll, Size, ParamsFrom, CountOf, ClassesOf, RegisterPlaces;
    ArgumentInSignature(ret, types, k);
    var classes := ClassesOf(types[k]);
    assert ParamsOf(PassingOf(types[k], c)) == Words(classes);
    RegistersFit(classes, c);
    RegisterAt(classes, c.gp, c.fp, i);
  }

  /** So it is a vector register exactly for floating scalars without an integer, and every eightbyte of the aggregate
      has its register. */
  lemma RegisterKind(ret: Return, types: seq<CType>, k: nat, c: Counters, i: nat)
    requires Before(ret, types, k, c) && (types[k].Struct? || types[k].Union?)
    requires Size(types[k]) <= 16 && c.gp + Needs(types[k], Int) <= 6 && c.fp + Needs(types[k], Sse) <= 8
    requires i < |ClassesOf(types[k])|
    ensures |ArgumentPlaces(ret, types, k)| == |ClassesOf(types[k])|
    ensures ArgumentPlaces(ret, types, k)[i].Fp? <==>
      && (exists leaf :: leaf in Leaves(types[k], 0) && Touches(leaf, i))
      && (forall leaf :: leaf in Leaves(types[k], 0) && Touches(leaf, i) ==> leaf.isFloat)
    ensures 8 * |ClassesOf(types[k])| >= Size(types[k]) > 8 * (|ClassesOf(types[k])| - 1)
  {
    hide ArgumentPlaces, ClassesOf, CountOf, Size, Leaves, Touches, CountersAfter;
    RegisterPlace(ret, types, k, c, i);
    EightbyteCount(types[k], i);
    SseMeaning(types[k], i);
  }

  lemma EightbyteCount(t: CType, i: nat)
    requires i < |ClassesOf(t)|
    ensures 8 * |ClassesOf(t)| >= Size(t) > 8 * (|ClassesOf(t)| - 1)
  {
    hide Size, ClassAt, Leaves;
  }

  lemma {:induction false} RegisterAt(classes: seq<Class>, gp: nat, fp: nat, i: nat)
    requires i < |classes|
    ensures RegisterPlaces(classes, gp, fp)[i]
         == if classes[i] == Int then Gp(gp + CountOf(classes[..i], Int)) else Fp(fp + CountOf(classes[..i], Sse))
  {
    if i > 0 {
      assert classes[..i][0] == classes[0] && classes[..i][1..] == classes[1..][..i - 1];
      RegisterAt(classes[1..], gp + if classes[0] == Int then 1 else 0, fp + if classes[0] == Int then 0 else 1, i - 1);
    }
  }

  // ---------------------------------------------------------------- all integers

  /** Of arguments that are all integers or pointers, number k goes to integer register k, or one further when the
      result is returned in memory; from the seventh register on they lie on the stack, eight bytes each. */
  lemma {:induction false} IntegerArguments(ret: Return, types: seq<CType>, k: nat)
    requires forall t :: t in types ==> t.Array? || (t.Scalar? && !t.isFloat)
    requires k <= |types|
    ensures var n := k + if ReturnedInMemory(ret) then 1 else 0;
      CountersAfter(ret, types[..k]) == Counters(if n <= 6 then n else 6, 0, if n <= 6 then 0 else 8 * (n - 6))
    ensures var n := k + if ReturnedInMemory(ret) then 1 else 0;
      k < |types| ==> ArgumentPlaces(ret, types, k) == [if n < 6 then Gp(n) else Stack(8 * (n - 6))]
  {
    hide CountersAfter, ArgumentPlaces, Size, Signature, Places;
    if k == 0 {
      assert types[..0] == [];
      ResultPointer(ret, types);
      ResultPointer(ret, []);
    } else {
      assert types[k - 1] in types;
      IntegerArguments(ret, types, k - 1);
      ScalarPlace(ret, types, k - 1, CountersAfter(ret, types[..k - 1]));
    }
    if k < |types| {
      assert types[k] in types;
      ScalarPlace(ret, types, k, CountersAfter(ret, types[..k]));
    }
  }
}
