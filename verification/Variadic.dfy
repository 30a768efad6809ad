/** Caller and callee of a variadic call agree: whatever is passed is read back, in order. */
module Variadic {
  import opened CTypes
  import opened CallSpec
  import opened VaSpec
  import opened VaArgs

  /** Argument i of a call, in the places the convention gives the parameters of the caller's signature, seen
      from the callee: its eightbytes one by one, or where its copy in memory starts. */
  function AsPlaced(ret: Return, types: seq<CType>, i: nat, frame: nat): Fetched
    requires i < |types|
  {
    var places := ArgumentPlaces(ret, types, i);
    if PassingOf(types[i], CountersAfter(ret, types[..i])).Memory? && |places| == 1 && places[0].Stack? then
      Copied(frame + 16 + places[0].offset, Size(types[i]))
    else
      Eightbytes(Sources(places, frame))
  }

  lemma AsExpected(ret: Return, types: seq<CType>, i: nat, frame: nat)
    requires i < |types|
    ensures AsPlaced(ret, types, i, frame) == Expected(types[i], CountersAfter(ret, types[..i]), frame)
  {
    hide CountersAfter;
    var c := CountersAfter(ret, types[..i]);
    var params := ParamsOf(PassingOf(types[i], c));
    if PassingOf(types[i], c).Memory? {
      assert Places(params, c) == [Place(params[0], c)] + Places(params[1..], After(params[0], c));
    }
  }

  /** A callee that starts a va_list and reads the extra arguments with the types they were passed with: every
      va_arg succeeds, and the k-th reads exactly where the caller's plan put the k-th extra argument. */
  method ReadInOrder(ret: Return, named: seq<CType>, extras: seq<CType>, frame: nat, incoming: Incoming)
    returns (ap: VaList, fetched: seq<Fetched>)
    requires Accepted(ret, named) && frame % 8 == 0
    requires forall t :: t in extras ==> Extra(t)
    requires var c := CountersAfter(ret, named); incoming == Incoming(8 * c.gp, 48 + 16 * c.fp, frame + 16 + c.stack)
    ensures |fetched| == |extras|
    ensures forall k :: 0 <= k < |extras| ==> fetched[k] == AsPlaced(ret, named + extras, |named| + k, frame)
  {
    hide CountersAfter, AsPlaced, Accepted, AfterAll, Expected, PassingOf, ParamsOf;
    var types := named + extras;
    ap := new VaList();
    assert types[..|named|] == named;
    ap.Start(incoming, CountersAfter(ret, named), frame);
    fetched := [];
    for k := 0 to |extras|
      invariant ap.At(CountersAfter(ret, types[..|named| + k]), frame)
      invariant |fetched| == k
      invariant forall j :: 0 <= j < k ==> fetched[j] == AsPlaced(ret, types, |named| + j, frame)
    {
      SignatureSound(ret, types[..|named| + k]);
      AsExpected(ret, types, |named| + k, frame);
      ArgumentInSignature(ret, types, |named| + k);
      assert types[|named| + k] == extras[k] && Extra(extras[k]);
      var ok, f := ap.Arg(extras[k], CountersAfter(ret, types[..|named| + k]), frame);
      fetched := fetched + [f];
    }
  }

  /** What a va_arg reads from the save area or the stack is the word that the caller put into the place. */
  lemma WordsArrive(ret: Return, named: seq<CType>, extras: seq<CType>, k: nat, j: nat, frame: nat, save: seq<nat>, m: Machine)
    requires k < |extras| && Captured(save, m, CountersAfter(ret, named))
    requires j < |ArgumentPlaces(ret, named + extras, |named| + k)|
    ensures var place := ArgumentPlaces(ret, named + extras, |named| + k)[j];
      var s := SourceOf(place, frame);
      && (place.Gp? ==> place.index < 6) && (place.Fp? ==> place.index < 8)
      && (s.Save? ==> s.offset < 176) && (s.Overflow? ==> s.address >= frame + 16)
      && Load(s, save, m, frame) == WordAt(place, m)
  {
    hide CountersAfter, AfterAll, PassingOf, ParamsOf, SourceOf, WordAt, Load;
    var types := named + extras;
    var c := CountersAfter(ret, types[..|named| + k]);
    CountersGrow(ParamsOf(PassingOf(types[|named| + k], c)), c);
    ExtrasFollow(ret, named, extras, k);
    LoadsBack(ArgumentPlaces(ret, types, |named| + k)[j], save, m, CountersAfter(ret, named), frame);
  }

  /** Named parameters are counted before the extra ones. */
  lemma ExtrasFollow(ret: Return, named: seq<CType>, extras: seq<CType>, k: nat)
    requires k <= |extras|
    ensures var c, d := CountersAfter(ret, named), CountersAfter(ret, (named + extras)[..|named| + k]);
      c.gp <= d.gp && c.fp <= d.fp && c.stack <= d.stack
  {
    hide PassingOf, ParamsOf, After;
    var start := AfterAll(Hidden(ret), START);
    assert (named + extras)[..|named| + k] == named + extras[..k];
    PlanJoined(named, extras[..k], start);
    SignatureSound(ret, named);
    SignatureSound(ret, named + extras[..k]);
    PlacesJoined(ParamsFrom(named, start), ParamsFrom(extras[..k], CountersAfter(ret, named)), start);
    CountersGrow(ParamsFrom(extras[..k], CountersAfter(ret, named)), CountersAfter(ret, named));
  }
}
