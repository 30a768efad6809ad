/** The bytes of a small bundle, written out. */
module BundleSample {
  import opened Options
  import opened Artifacts
  import opened Bytes
  import opened LittleEndian
  import opened BundleFormat


  lemma SmallWord(v: Byte)
    ensures Little(v, 4) == [v, 0, 0, 0] && Little(v, 2) == [v, 0]
  {
    assert v % 256 == v && v / 256 == 0;
    Zero(1);
    Zero(3);
    assert Little(v, 4) == [v] + Little(0, 3) && Little(v, 2) == [v] + Little(0, 1);
  }

  lemma {:induction false} Zero(n: nat)
    ensures Little(0, n) == Zeros(n)
  {
    if n > 0 {
      Zero(n - 1);
      assert Little(0, n) == [0] + Little(0, n - 1);
    }
  }

  /** A negative addend fills its eight bytes with ones. */
  lemma MinusTwo()
    ensures Little(Unsigned64(-2), 8) == [254, 255, 255, 255, 255, 255, 255, 255]
  {
    assert Unsigned64(-2) == 0xffff_ffff_ffff_fffe;
    assert Little(0xff, 1) == [255] + Little(0, 0);
    assert Little(0xffff, 2) == [255] + Little(0xff, 1);
    assert Little(0xff_ffff, 3) == [255] + Little(0xffff, 2);
    assert Little(0xffff_ffff, 4) == [255] + Little(0xff_ffff, 3);
    assert Little(0xff_ffff_ffff, 5) == [255] + Little(0xffff_ffff, 4);
    assert Little(0xffff_ffff_ffff, 6) == [255] + Little(0xff_ffff_ffff, 5);
    assert Little(0xff_ffff_ffff_ffff, 7) == [255] + Little(0xffff_ffff_ffff, 6);
    assert Little(0xffff_ffff_ffff_fffe, 8) == [254] + Little(0xff_ffff_ffff_ffff, 7);
  }

  /** One relocation: the word at `site` is to hold the address of g minus two. */
  function Site(site: Byte, g: Byte): Relocation {
    Relocation(site, [g], -2)
  }

  lemma SiteBytes(site: Byte, g: Byte)
    ensures WriteRelocation(Site(site, g)) == [site, 0, 0, 0, 254, 255, 255, 255, 255, 255, 255, 255, 1, 0, g]
  {
    SmallWord(site);
    SmallWord(1);
    MinusTwo();
  }

  lemma OneItem<T>(e: T -> seq<Byte>, x: T)
    ensures WriteList(e, [x]) == [1, 0] + e(x)
  {
    SmallWord(1);
    assert [x][1..] == [] && WriteMany(e, [x]) == e(x) + WriteMany(e, []);
  }

  lemma NoItem<T>(e: T -> seq<Byte>)
    ensures WriteList(e, []) == [0, 0]
  {
    SmallWord(0);
  }

  /** A private function f of two bytes with a relocation against g, and a datum g of one byte. */
  function Sample(f: Byte, g: Byte, code: seq<Byte>, site: Byte, align: Byte, readOnly: bool, b: Byte): Artifact {
    Artifact(Some({[f]}), [Function([f], code, [Site(site, g)])], [Data([g], [b], align, readOnly, [])])
  }

  function SampleBytes(f: Byte, g: Byte, c0: Byte, c1: Byte, site: Byte, align: Byte, readOnly: bool, b: Byte): seq<Byte> {
    [67, 79, 83, 77, 73, 67, 45, 83, 73, 65, 0, 4, 0]
    + [1, 0, 1, 0, f]
    + ([1, 0] + ([1, 0, f] + [2, 0, 0, 0, c0, c1]
       + ([1, 0] + [site, 0, 0, 0, 254, 255, 255, 255, 255, 255, 255, 255, 1, 0, g])))
    + ([1, 0] + ([1, 0, g] + [align, 0, 0, 0] + [if readOnly then 1 else 0] + [1, 0, 0, 0, b] + [0, 0]))
  }

  lemma HeadBytes(version: Byte)
    ensures MAGIC + Little(version, 2) == [67, 79, 83, 77, 73, 67, 45, 83, 73, 65, 0, version, 0]
  {
    SmallWord(version);
  }

  lemma NamesBytes(f: Byte)
    ensures WriteList(WriteName, [[f]]) == [1, 0, 1, 0, f]
  {
    SmallWord(1);
    OneItem(WriteName, [f]);
  }

  lemma NameBytes(f: Byte)
    ensures WriteName([f]) == [1, 0, f]
  {
    SmallWord(1);
  }

  lemma FunctionBytes(f: Byte, g: Byte, c0: Byte, c1: Byte, site: Byte)
    ensures WriteList(WriteFunction, [Function([f], [c0, c1], [Site(site, g)])])
      == [1, 0] + ([1, 0, f] + [2, 0, 0, 0, c0, c1]
         + ([1, 0] + [site, 0, 0, 0, 254, 255, 255, 255, 255, 255, 255, 255, 1, 0, g]))
  {
    hide WriteList, WriteName, WriteRelocation;
    SmallWord(2);
    SiteBytes(site, g);
    NameBytes(f);
    OneItem(WriteRelocation, Site(site, g));
    OneItem(WriteFunction, Function([f], [c0, c1], [Site(site, g)]));
    assert WriteBlob([c0, c1], 4) == [2, 0, 0, 0, c0, c1];
  }

  lemma DataBytes(g: Byte, align: Byte, readOnly: bool, b: Byte)
    ensures WriteList(WriteData, [Data([g], [b], align, readOnly, [])])
      == [1, 0] + ([1, 0, g] + [align, 0, 0, 0] + [if readOnly then 1 else 0] + [1, 0, 0, 0, b] + [0, 0])
  {
    hide WriteList, WriteName;
    SmallWord(1);
    SmallWord(align);
    NameBytes(g);
    NoItem(WriteRelocation);
    OneItem(WriteData, Data([g], [b], align, readOnly, []));
    assert WriteBlob([b], 4) == [1, 0, 0, 0, b];
  }

  /** Order, widths and byte order of all fields, the values of flags, and the complement of an addend. */
  lemma SampleEncoded(f: Byte, g: Byte, c0: Byte, c1: Byte, site: Byte, align: Byte, readOnly: bool, b: Byte)
    ensures Encoding(Sample(f, g, [c0, c1], site, align, readOnly, b), [[f]])
         == SampleBytes(f, g, c0, c1, site, align, readOnly, b)
  {
    HeadBytes(4);
    NamesBytes(f);
    FunctionBytes(f, g, c0, c1, site);
    DataBytes(g, align, readOnly, b);
    hide WriteList, Little;
  }

  /** The older version has no private names. */
  lemma OldEncoded(g: Byte, align: Byte, readOnly: bool, b: Byte)
    ensures Encoding(Artifact(None, [], [Data([g], [b], align, readOnly, [])]), [])
         == [67, 79, 83, 77, 73, 67, 45, 83, 73, 65, 0, 3, 0] + [0, 0]
            + ([1, 0] + ([1, 0, g] + [align, 0, 0, 0] + [if readOnly then 1 else 0] + [1, 0, 0, 0, b] + [0, 0]))
  {
    HeadBytes(3);
    NoItem(WriteFunction);
    DataBytes(g, align, readOnly, b);
    hide WriteList, Little;
    var head := MAGIC + Little(3, 2);
    assert head + [] == head;
  }
}
