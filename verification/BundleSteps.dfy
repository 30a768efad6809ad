/** What the loops of the bundle encoder and decoder keep. */
module BundleSteps {
  import opened Options
  import opened Artifacts
  import opened Bytes
  import opened LittleEndian
  import opened BundleFormat

  lemma Joined(a: seq<Byte>, b: seq<Byte>, c: seq<Byte>)
    ensures a + b + c == a + (b + c)
  {
  }

  lemma WriteNone<T>(e: T -> seq<Byte>, head: seq<Byte>)
    ensures head + WriteMany(e, []) == head
  {
  }

  lemma {:induction false} WriteAppend<T>(e: T -> seq<Byte>, items: seq<T>, item: T)
    ensures WriteMany(e, items + [item]) == WriteMany(e, items) + e(item)
  {
    if items == [] {
      assert items + [item] == [item] && [item][1..] == [];
      assert WriteMany(e, [item]) == e(item) + [];
    } else {
      assert (items + [item])[1..] == items[1..] + [item];
      WriteAppend(e, items[1..], item);
      Joined(e(items[0]), WriteMany(e, items[1..]), e(item));
    }
  }

  lemma WriteSnoc<T>(e: T -> seq<Byte>, items: seq<T>, k: nat, head: seq<Byte>)
    requires k < |items|
    ensures head + WriteMany(e, items[..k + 1]) == head + WriteMany(e, items[..k]) + e(items[k])
  {
    assert items[..k + 1] == items[..k] + [items[k]];
    WriteAppend(e, items[..k], items[k]);
    Joined(head, WriteMany(e, items[..k]), e(items[k]));
  }

  lemma RelocationPieces(before: seq<Byte>, r: Relocation)
    ensures before + Little(r.offset, 4) + Little(Unsigned64(r.addend), 8) + Little(|r.target|, 2) + r.target
         == before + WriteRelocation(r)
  {
    hide Little, Unsigned64;
    var a, b, c := Little(r.offset, 4), Little(Unsigned64(r.addend), 8), Little(|r.target|, 2);
    Joined(before + a + b, c, r.target);
    Joined(before + a, b, c + r.target);
    Joined(before, a, b + (c + r.target));
    Joined(a, b, c + r.target);
  }

  lemma FunctionPieces(before: seq<Byte>, f: Function)
    ensures before + Little(|f.name|, 2) + f.name + Little(|f.code|, 4) + f.code + WriteList(WriteRelocation, f.relocations)
         == before + WriteFunction(f)
  {
    hide Little, WriteList;
    var a, b, c := WriteName(f.name), WriteBlob(f.code, 4), WriteList(WriteRelocation, f.relocations);
    Joined(before, Little(|f.name|, 2), f.name);
    Joined(before + a, Little(|f.code|, 4), f.code);
    Joined(before, a, b);
    Joined(before, a + b, c);
  }

  lemma DataPieces(before: seq<Byte>, d: Data)
    ensures before + Little(|d.name|, 2) + d.name + Little(d.align, 4) + [if d.readOnly then 1 else 0]
              + Little(|d.bytes|, 4) + d.bytes + WriteList(WriteRelocation, d.relocations)
         == before + WriteData(d)
  {
    hide Little, WriteList;
    var flag: seq<Byte> := [if d.readOnly then 1 else 0];
    var a, b, c, e := WriteName(d.name), Little(d.align, 4), WriteBlob(d.bytes, 4), WriteList(WriteRelocation, d.relocations);
    Joined(before, Little(|d.name|, 2), d.name);
    Joined(before + a + b + flag, Little(|d.bytes|, 4), d.bytes);
    Joined(before, a, b);
    Joined(before, a + b, flag);
    Joined(before, a + b + flag, c);
    Joined(before, a + b + flag + c, e);
  }

  lemma NamePieces(counted: seq<Byte>, order: seq<Name>, name: Name)
    ensures counted + WriteMany(WriteName, order) + Little(|name|, 2) + name == counted + WriteMany(WriteName, order + [name])
  {
    hide Little;
    WriteAppend(WriteName, order, name);
    Joined(counted + WriteMany(WriteName, order), Little(|name|, 2), name);
    Joined(counted, WriteMany(WriteName, order), WriteName(name));
  }

  lemma OneMore(order: seq<Name>, name: Name)
    requires NoRepeats(order) && name !in Members(order)
    ensures NoRepeats(order + [name]) && Members(order + [name]) == Members(order) + {name}
  {
    assert forall i :: 0 <= i < |order| ==> order[i] in order;
  }

  lemma NoNames()
    ensures NoRepeats([]) && Members([]) == {}
  {
  }

  lemma NoLocals(x: seq<Byte>)
    ensures ReadLocals(x, 3) == Done(None, x)
  {
  }

  // ---------------------------------------------------------------- reading lists

  /** Items read so far, in front of those still to come. */
  function Prepend<T>(done: seq<T>, p: Parse<seq<T>>): Parse<seq<T>> {
    if p.Fail? then Fail else Done(done + p.value, p.rest)
  }

  lemma ManyStart<T>(p: Parse<seq<T>>)
    ensures Prepend([], p) == p
  {
    if p.Done? {
      assert [] + p.value == p.value;
    }
  }

  lemma ManyStep<T(!new)>(p: Parser<T>, n: nat, x: seq<Byte>, done: seq<T>)
    requires n > 0
    ensures p(x).Fail? ==> Prepend(done, ReadMany(p, n, x)) == Fail
    ensures p(x).Done? ==>
      Prepend(done, ReadMany(p, n, x)) == Prepend(done + [p(x).value], ReadMany(p, n - 1, p(x).rest))
  {
    if p(x).Done? {
      var more := ReadMany(p, n - 1, p(x).rest);
      if more.Done? {
        assert done + ([p(x).value] + more.value) == (done + [p(x).value]) + more.value;
      }
    }
  }

  lemma ManyEnd<T(!new)>(p: Parser<T>, x: seq<Byte>, done: seq<T>)
    ensures Prepend(done, ReadMany(p, 0, x)) == Done(done, x)
  {
    assert done + [] == done;
  }

  /** A repeated name spoils the list however it goes on. */
  lemma Repeated(names: seq<Name>, name: Name, more: Parse<seq<Name>>)
    ensures name in Members(names) && more.Done? ==> !NoRepeats(Prepend(names + [name], more).value)
  {
    if name in Members(names) && more.Done? {
      var all := Prepend(names + [name], more).value;
      var i :| 0 <= i < |names| && names[i] == name;
      assert all[i] == name && all[|names|] == name;
    }
  }
}
