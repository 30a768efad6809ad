/** How large the tables and the file of an object can be. */
module ElfSizes {
  import opened Artifacts
  import opened ElfFormat
  import opened ElfObject
  import opened ElfSteps

  /** Bytes that names take in a string table, with 16 more for a symbol record each. */
  function NameWeight(names: seq<Name>): nat {
    if names == [] then 0 else NameWeight(names[..|names| - 1]) + |names[|names| - 1]| + 17
  }

  lemma {:induction false} NameWeightJoined(x: seq<Name>, y: seq<Name>)
    ensures NameWeight(x + y) == NameWeight(x) + NameWeight(y)
  {
    if y == [] {
      assert x + y == x;
    } else {
      NameWeightJoined(x, y[..|y| - 1]);
      assert (x + y)[..|x + y| - 1] == x + y[..|y| - 1];
    }
  }

  /** Different names that all occur in another list weigh no more than it. */
  lemma {:induction false} DistinctWeight(r: seq<Name>, t: seq<Name>)
    requires Distinct(r) && forall x :: x in r ==> x in t
    ensures NameWeight(r) <= NameWeight(t)
    decreases |r|
  {
    if r != [] {
      var x, rest := r[|r| - 1], r[..|r| - 1];
      assert x in r;
      var j :| 0 <= j < |t| && t[j] == x;
      var other := t[..j] + t[j + 1..];
      forall y | y in rest
        ensures y in other
      {
        assert y in r && y != x;
        var i :| 0 <= i < |t| && t[i] == y;
        assert if i < j then other[i] == y else other[i - 1] == y;
      }
      DistinctWeight(rest, other);
      NameWeightJoined(t[..j], t[j + 1..]);
      NameWeightJoined(t[..j], [x] + t[j + 1..]);
      NameWeightJoined([x], t[j + 1..]);
      assert t == t[..j] + ([x] + t[j + 1..]);
      assert NameWeight([x]) == NameWeight([x][..0]) + |x| + 17;
    }
  }

  function Targets(rs: seq<Relocation>): (r: seq<Name>)
    ensures |r| == |rs|
  {
    seq(|rs|, k requires 0 <= k < |rs| => rs[k].target)
  }

  /** Every name an artifact mentions. */
  function AllNames(items: seq<Item>): seq<Name> {
    if items == [] then []
    else
      var last := items[|items| - 1];
      AllNames(items[..|items| - 1]) + [last.name] + Targets(last.relocations)
  }

  lemma {:induction false} NamesMentioned(items: seq<Item>, i: nat)
    requires i < |items|
    ensures items[i].name in AllNames(items)
    ensures forall k :: 0 <= k < |items[i].relocations| ==> items[i].relocations[k].target in AllNames(items)
    decreases items
  {
    var last := items[|items| - 1];
    if i < |items| - 1 {
      NamesMentioned(items[..|items| - 1], i);
    } else {
      assert [last.name][0] in [last.name];
      forall k | 0 <= k < |last.relocations|
        ensures last.relocations[k].target in AllNames(items)
      {
        assert Targets(last.relocations)[k] in Targets(last.relocations);
      }
    }
  }

  /** Bytes that sections take in a file, alignment and section names included. */
  function Extent(contents: seq<Content>): nat {
    if contents == [] then 0
    else
      var last := contents[|contents| - 1];
      Extent(contents[..|contents| - 1]) + |last.data| + last.align + |last.name| + 17
  }

  lemma {:induction false} ExtentJoined(x: seq<Content>, y: seq<Content>)
    ensures Extent(x + y) == Extent(x) + Extent(y)
  {
    if y == [] {
      assert x + y == x;
    } else {
      ExtentJoined(x, y[..|y| - 1]);
      assert (x + y)[..|x + y| - 1] == x + y[..|y| - 1];
    }
  }

  lemma ExtentOne(c: Content)
    ensures Extent([c]) == |c.data| + c.align + |c.name| + 17
  {
    assert Extent([c]) == Extent([c][..0]) + |c.data| + c.align + |c.name| + 17;
  }

  /** What one definition adds to the file at most: its section, and its relocation section. */
  function ItemWeight(item: Item): nat {
    |item.body| + item.align + 8 * |item.relocations| + 2 * |item.name| + 66
  }

  function ItemsWeight(items: seq<Item>): nat {
    if items == [] then 0 else ItemsWeight(items[..|items| - 1]) + ItemWeight(items[|items| - 1])
  }

  /** A bound on where the section headers of an artifact's object start. */
  function Bound(a: Artifact): nat {
    2 * (ItemsWeight(Items(a)) + NameWeight(AllNames(Items(a)))) + 1024
  }

  lemma {:induction false} BodyWithin(items: seq<Item>, i: nat)
    requires i < |items|
    ensures |items[i].body| <= ItemsWeight(items)
    decreases items
  {
    if i < |items| - 1 {
      BodyWithin(items[..|items| - 1], i);
    }
  }

  /** The names in a symbol table are different, and the artifact mentions them all. */
  lemma SymbolNamesWeight(a: Artifact, order: seq<nat>, undefined: seq<Name>, names: set<Name>)
    requires DistinctItems(Items(a)) && Permutes(order, |Items(a)|) && Distinct(undefined) && Missing(Items(a), names)
    requires forall x :: x in undefined <==> x in names
    ensures NameWeight(NamesOf(Symbols(a, order, undefined)[1..])) <= NameWeight(AllNames(Items(a)))
  {
    hide AllNames, NameWeight;
    var items, symbols := Items(a), Symbols(a, order, undefined);
    var r := NamesOf(symbols[1..]);
    UndefinedApart(items, undefined, names);
    forall i, j | 0 <= i < j < |r|
      ensures r[i] != r[j]
    {
      SymbolsDistinct(a, order, undefined, i + 1, j + 1);
    }
    forall x | x in r
      ensures x in AllNames(items)
    {
      var k :| 0 <= k < |r| && r[k] == x;
      SymbolMentioned(a, order, undefined, names, k + 1);
    }
    DistinctWeight(r, AllNames(items));
  }

  lemma UndefinedApart(items: seq<Item>, undefined: seq<Name>, names: set<Name>)
    requires Missing(items, names) && forall x :: x in undefined <==> x in names
    ensures forall u :: 0 <= u < |undefined| ==> IsUndefined(items, undefined[u])
  {
    hide IsUndefined;
    forall u | 0 <= u < |undefined|
      ensures IsUndefined(items, undefined[u])
    {
      assert undefined[u] in names;
    }
  }

  lemma SymbolMentioned(a: Artifact, order: seq<nat>, undefined: seq<Name>, names: set<Name>, k: nat)
    requires Permutes(order, |Items(a)|) && Missing(Items(a), names) && forall x :: x in undefined <==> x in names
    requires 0 < k < |Symbols(a, order, undefined)|
    ensures Symbols(a, order, undefined)[k].name in AllNames(Items(a))
  {
    hide AllNames;
    var items, symbols := Items(a), Symbols(a, order, undefined);
    if k - 1 < |order| {
      assert symbols[1 + (k - 1)] == SymbolOf(a, order[k - 1]);
      NamesMentioned(items, order[k - 1]);
    } else {
      var u := k - 1 - |order|;
      assert symbols[1 + |order| + u] == Undefined(undefined[u]);
      assert undefined[u] in names;
      var i, j :| 0 <= i < |items| && 0 <= j < |items[i].relocations| && items[i].relocations[j].target == undefined[u];
      NamesMentioned(items, i);
    }
  }
}
