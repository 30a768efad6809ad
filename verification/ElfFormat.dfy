/** Pieces of an ELF32 file: little-endian fields, string tables and the records that tables consist of. */
module ElfFormat {
  import opened Options
  import opened Artifacts
  import opened Bytes
  import opened LittleEndian
  import opened BundleFormat

  const EM_SIA32: nat := 0xff53
  const R_SIA32_ABS32: nat := 0x80
  const SHT_NULL: nat := 0
  const SHT_PROGBITS: nat := 1
  const SHT_SYMTAB: nat := 2
  const SHT_STRTAB: nat := 3
  const SHT_NOBITS: nat := 8
  const SHT_REL: nat := 9
  const SHF_WRITE: nat := 1
  const SHF_ALLOC: nat := 2
  const SHF_EXECINSTR: nat := 4
  const STB_LOCAL: nat := 0
  const STB_GLOBAL: nat := 1
  const STT_NOTYPE: nat := 0
  const STT_OBJECT: nat := 1
  const STT_FUNC: nat := 2
  const W16: nat := 0x1_0000
  const IDENTITY: seq<Byte> := [0x7f, 0x45, 0x4c, 0x46, 1, 1, 1]

  // ---------------------------------------------------------------- pieces of a file

  /** x holds s at a position. */
  predicate Has(x: seq<Byte>, at: nat, s: seq<Byte>) {
    at + |s| <= |x| && x[at..at + |s|] == s
  }

  lemma HasAppend(x: seq<Byte>, at: nat, s: seq<Byte>, t: seq<Byte>)
    requires Has(x, at, s)
    ensures Has(x + t, at, s)
  {
    assert (x + t)[at..at + |s|] == x[at..at + |s|];
  }

  lemma HasEnd(x: seq<Byte>, s: seq<Byte>)
    ensures Has(x + s, |x|, s)
  {
  }

  lemma HasPart(x: seq<Byte>, at: nat, s: seq<Byte>, i: nat, t: seq<Byte>)
    requires Has(x, at, s) && Has(s, i, t)
    ensures Has(x, at + i, t)
  {
    forall k | 0 <= k < |t|
      ensures x[at + i + k] == t[k]
    {
      assert x[at..at + |s|][i + k] == s[i + k] == s[i..i + |t|][k];
    }
    assert x[at + i..at + i + |t|] == t;
  }

  /** copy_from_slice into a vector. */
  function Patch(x: seq<Byte>, at: nat, s: seq<Byte>): (r: seq<Byte>)
    requires at + |s| <= |x|
    ensures |r| == |x|
  {
    x[..at] + s + x[at + |s|..]
  }

  lemma PatchHas(x: seq<Byte>, at: nat, s: seq<Byte>)
    requires at + |s| <= |x|
    ensures Has(Patch(x, at, s), at, s)
  {
  }

  lemma PatchKeeps(x: seq<Byte>, p: nat, q: seq<Byte>, at: nat, s: seq<Byte>)
    requires p + |q| <= |x| && Has(x, at, s) && (at + |s| <= p || p + |q| <= at)
    ensures Has(Patch(x, p, q), at, s)
  {
    var y := Patch(x, p, q);
    assert y[at..at + |s|] == x[at..at + |s|];
  }

  // ---------------------------------------------------------------- fields

  function ReadField(x: seq<Byte>, at: nat, n: nat): Option<nat> {
    if at + n <= |x| then Some(Value(x[at..at + n])) else None
  }

  function U16(x: seq<Byte>, at: nat): Option<nat> {
    ReadField(x, at, 2)
  }

  function U32(x: seq<Byte>, at: nat): Option<nat> {
    ReadField(x, at, 4)
  }

  lemma FieldLimits()
    ensures Limit(2) == W16 && Limit(4) == WORD_LIMIT
  {
    assert Limit(0) == 1 && Limit(1) == 256 && Limit(3) == 256 * Limit(2);
  }

  lemma Field16(x: seq<Byte>, at: nat, v: nat)
    requires v < W16 && Has(x, at, Little(v, 2))
    ensures U16(x, at) == Some(v)
  {
    FieldLimits();
    LittleValue(v, 2);
  }

  lemma Field32(x: seq<Byte>, at: nat, v: nat)
    requires v < WORD_LIMIT && Has(x, at, Little(v, 4))
    ensures U32(x, at) == Some(v)
  {
    FieldLimits();
    LittleValue(v, 4);
  }

  predicate FitsSigned32(v: int) {
    -0x8000_0000 <= v < 0x8000_0000
  }

  lemma SignedBack(v: int)
    requires FitsSigned32(v)
    ensures Signed32(v % WORD_LIMIT) == v
  {
  }

  // ---------------------------------------------------------------- strings

  function NulAt(x: seq<Byte>, at: nat): Option<nat>
    decreases |x| - at
  {
    if at >= |x| then None else if x[at] == 0 then Some(at) else NulAt(x, at + 1)
  }

  /** c_string */
  function CString(strings: seq<Byte>, offset: nat): Option<Name> {
    var end := NulAt(strings, offset);
    if end.None? || end.value < offset || end.value > |strings| then None
    else
      var s := strings[offset..end.value];
      if ValidUtf8(s) then Some(s) else None
  }

  lemma {:induction false} NulFound(x: seq<Byte>, at: nat, end: nat)
    requires at <= end < |x| && x[end] == 0 && forall i :: at <= i < end ==> x[i] != 0
    ensures NulAt(x, at) == Some(end)
    decreases end - at
  {
    if at < end {
      NulFound(x, at + 1, end);
    }
  }

  lemma StringBack(strings: seq<Byte>, offset: nat, s: Name)
    requires Has(strings, offset, s + [0]) && 0 !in s && ValidUtf8(s)
    ensures CString(strings, offset) == Some(s)
  {
    var end := offset + |s|;
    forall i | offset <= i < end
      ensures strings[i] != 0
    {
      assert strings[i] == strings[offset..offset + |s| + 1][i - offset] == s[i - offset];
    }
    assert strings[end] == strings[offset..offset + |s| + 1][|s|] == 0;
    NulFound(strings, offset, end);
    assert strings[offset..end] == strings[offset..offset + |s| + 1][..|s|] == s;
  }

  /** Every name stands in the table at its offset. */
  ghost predicate Named(table: seq<Byte>, names: seq<Name>, offsets: seq<nat>) {
    |offsets| == |names| && forall i :: 0 <= i < |names| ==> offsets[i] < WORD_LIMIT && Has(table, offsets[i], names[i] + [0])
  }

  lemma NamedMore(table: seq<Byte>, names: seq<Name>, offsets: seq<nat>, name: Name)
    requires Named(table, names, offsets) && |table| < WORD_LIMIT
    ensures Named(table + name + [0], names + [name], offsets + [|table|])
  {
    var more := table + name + [0];
    assert more == table + (name + [0]);
    HasEnd(table, name + [0]);
    forall i | 0 <= i < |names|
      ensures Has(more, offsets[i], names[i] + [0])
    {
      HasAppend(table, offsets[i], names[i] + [0], name + [0]);
    }
  }

  lemma {:induction false} AsciiPrefix(p: Name, s: Name)
    requires (forall b :: b in p ==> 0 < b < 0x80) && ValidUtf8(s)
    ensures ValidUtf8(p + s)
    ensures 0 !in s ==> 0 !in p + s
  {
    if p == [] {
      assert p + s == s;
    } else {
      assert p[0] in p;
      assert (p + s)[1..] == p[1..] + s && forall b :: b in p[1..] ==> b in p;
      AsciiPrefix(p[1..], s);
    }
  }

  // ---------------------------------------------------------------- records

  datatype Symbol = Symbol(name: Name, size: nat, bind: nat, kind: nat, section: nat)

  datatype Content = Content(name: Name, kind: nat, flags: nat, align: nat, data: seq<Byte>, link: nat, info: nat, entsize: nat)

  predicate SmallSymbol(s: Symbol) {
    s.size < WORD_LIMIT && s.bind < 16 && s.kind < 16 && s.section < W16
  }

  predicate SmallContent(c: Content) {
    c.kind < WORD_LIMIT && c.flags < WORD_LIMIT && c.align < WORD_LIMIT && |c.data| < WORD_LIMIT && c.link < WORD_LIMIT && c.info < WORD_LIMIT && c.entsize < WORD_LIMIT
  }

  /** write_symbol; every symbol's value is zero. */
  function SymbolRecord(s: Symbol, name: nat): (r: seq<Byte>)
    requires SmallSymbol(s)
    ensures |r| == 16
  {
    Little(name, 4) + Little(0, 4) + Little(s.size, 4) + [s.bind * 16 + s.kind] + [0] + Little(s.section, 2)
  }

  function HeaderRecord(c: Content, name: nat, offset: nat): (r: seq<Byte>)
    ensures |r| == 40
  {
    Little(name, 4) + Little(c.kind, 4) + Little(c.flags, 4) + Little(0, 4) + Little(offset, 4) + Little(|c.data|, 4)
    + Little(c.link, 4) + Little(c.info, 4) + Little(c.align, 4) + Little(c.entsize, 4)
  }

  function RelRecord(offset: nat, symbol: nat): (r: seq<Byte>)
    ensures |r| == 8
  {
    Little(offset, 4) + Little(symbol * 256 % WORD_LIMIT + R_SIA32_ABS32, 4)
  }

  lemma SymbolFields(x: seq<Byte>, at: nat, s: Symbol, name: nat)
    requires SmallSymbol(s) && name < WORD_LIMIT && Has(x, at, SymbolRecord(s, name))
    ensures at + 16 <= |x| && U32(x, at) == Some(name) && U32(x, at + 4) == Some(0) && U32(x, at + 8) == Some(s.size)
    ensures x[at + 12] == s.bind * 16 + s.kind && U16(x, at + 14) == Some(s.section)
  {
    hide Little, ReadField;
    var r := SymbolRecord(s, name);
    assert Has(r, 0, Little(name, 4)) && Has(r, 4, Little(0, 4)) && Has(r, 8, Little(s.size, 4));
    assert Has(r, 14, Little(s.section, 2));
    HasPart(x, at, r, 0, Little(name, 4));
    HasPart(x, at, r, 4, Little(0, 4));
    HasPart(x, at, r, 8, Little(s.size, 4));
    HasPart(x, at, r, 14, Little(s.section, 2));
    assert x[at + 12] == x[at..at + 16][12] == r[12];
    Field32(x, at, name);
    Field32(x, at + 4, 0);
    Field32(x, at + 8, s.size);
    Field16(x, at + 14, s.section);
  }

  lemma HeaderParts(r: seq<Byte>, c: Content, name: nat, offset: nat)
    requires r == HeaderRecord(c, name, offset)
    ensures Has(r, 0, Little(name, 4)) && Has(r, 4, Little(c.kind, 4)) && Has(r, 8, Little(c.flags, 4))
    ensures Has(r, 16, Little(offset, 4)) && Has(r, 20, Little(|c.data|, 4)) && Has(r, 24, Little(c.link, 4))
    ensures Has(r, 28, Little(c.info, 4)) && Has(r, 32, Little(c.align, 4)) && Has(r, 36, Little(c.entsize, 4))
  {
    hide Little, Has;
    TenWords(Little(name, 4), Little(c.kind, 4), Little(c.flags, 4), Little(0, 4), Little(offset, 4),
             Little(|c.data|, 4), Little(c.link, 4), Little(c.info, 4), Little(c.align, 4), Little(c.entsize, 4));
  }

  /** Parts of four bytes, one after the other. */
  lemma TenWords(a: seq<Byte>, b: seq<Byte>, c: seq<Byte>, d: seq<Byte>, e: seq<Byte>, f: seq<Byte>, g: seq<Byte>,
                 h: seq<Byte>, i: seq<Byte>, j: seq<Byte>)
    requires |a| == |b| == |c| == |d| == |e| == |f| == |g| == |h| == |i| == |j| == 4
    ensures var r := a + b + c + d + e + f + g + h + i + j;
      && Has(r, 0, a) && Has(r, 4, b) && Has(r, 8, c) && Has(r, 16, e) && Has(r, 20, f)
      && Has(r, 24, g) && Has(r, 28, h) && Has(r, 32, i) && Has(r, 36, j)
  {
    hide Has;
    var p, q, t := a + b + c + d, e + f + g + h, i + j;
    FourWords(a, b, c, d);
    FourWords(e, f, g, h);
    TwoWords(i, j);
    Regrouped(p, e, f, g, h, i, j);
    Between([], p, q + t, 0, a);
    Between([], p, q + t, 4, b);
    Between([], p, q + t, 8, c);
    Between(p, q, t, 0, e);
    Between(p, q, t, 4, f);
    Between(p, q, t, 8, g);
    Between(p, q, t, 12, h);
    Between(p + q, t, [], 0, i);
    Between(p + q, t, [], 4, j);
  }

  lemma Regrouped(p: seq<Byte>, e: seq<Byte>, f: seq<Byte>, g: seq<Byte>, h: seq<Byte>, i: seq<Byte>, j: seq<Byte>)
    ensures var q, t, r := e + f + g + h, i + j, p + e + f + g + h + i + j;
      p + q + t == r && [] + p + (q + t) == r && p + q + t + [] == r && [] + (p + (q + t)) == r
  {
    Joined(p, e, f);
    Joined(p, e + f, g);
    Joined(p, e + f + g, h);
    var q, t := e + f + g + h, i + j;
    Joined(p + q, i, j);
    Joined(p, q, t);
    assert [] + p == p && [] + (p + (q + t)) == p + (q + t) && p + q + t + [] == p + q + t;
  }

  lemma Joined(a: seq<Byte>, b: seq<Byte>, c: seq<Byte>)
    ensures a + (b + c) == a + b + c
  {
  }

  lemma TwoWords(a: seq<Byte>, b: seq<Byte>)
    requires |a| == |b| == 4
    ensures Has(a + b, 0, a) && Has(a + b, 4, b)
  {
  }

  lemma FourWords(a: seq<Byte>, b: seq<Byte>, c: seq<Byte>, d: seq<Byte>)
    requires |a| == |b| == |c| == |d| == 4
    ensures Has(a + b + c + d, 0, a) && Has(a + b + c + d, 4, b)
    ensures Has(a + b + c + d, 8, c) && Has(a + b + c + d, 12, d)
  {
  }

  /** What the middle of three parts holds, seen in the whole. */
  lemma Between(p: seq<Byte>, q: seq<Byte>, e: seq<Byte>, at: nat, s: seq<Byte>)
    requires Has(q, at, s)
    ensures Has(p + q + e, |p| + at, s) && Has(p + (q + e), |p| + at, s)
  {
    assert p + (q + e) == p + q + e;
    assert (p + q + e)[|p| + at..|p| + at + |s|] == q[at..at + |s|];
  }

  lemma HeaderFields(x: seq<Byte>, at: nat, c: Content, name: nat, offset: nat)
    requires SmallContent(c) && name < WORD_LIMIT && offset < WORD_LIMIT && Has(x, at, HeaderRecord(c, name, offset))
    ensures U32(x, at) == Some(name) && U32(x, at + 4) == Some(c.kind) && U32(x, at + 8) == Some(c.flags)
    ensures U32(x, at + 16) == Some(offset) && U32(x, at + 20) == Some(|c.data|) && U32(x, at + 24) == Some(c.link)
    ensures U32(x, at + 28) == Some(c.info) && U32(x, at + 32) == Some(c.align) && U32(x, at + 36) == Some(c.entsize)
  {
    hide Little, HeaderRecord, ReadField, U32, Has;
    var r := HeaderRecord(c, name, offset);
    HeaderParts(r, c, name, offset);
    FieldAt(x, at, r, 0, name);
    FieldAt(x, at, r, 4, c.kind);
    FieldAt(x, at, r, 8, c.flags);
    FieldAt(x, at, r, 16, offset);
    FieldAt(x, at, r, 20, |c.data|);
    FieldAt(x, at, r, 24, c.link);
    FieldAt(x, at, r, 28, c.info);
    FieldAt(x, at, r, 32, c.align);
    FieldAt(x, at, r, 36, c.entsize);
  }

  lemma FieldAt(x: seq<Byte>, at: nat, r: seq<Byte>, i: nat, v: nat)
    requires Has(x, at, r) && Has(r, i, Little(v, 4)) && v < WORD_LIMIT
    ensures U32(x, at + i) == Some(v)
  {
    HasPart(x, at, r, i, Little(v, 4));
    Field32(x, at + i, v);
  }

  lemma RelFields(x: seq<Byte>, at: nat, offset: nat, symbol: nat)
    requires offset < WORD_LIMIT && symbol < 0x100_0000 && Has(x, at, RelRecord(offset, symbol))
    ensures U32(x, at) == Some(offset) && U32(x, at + 4) == Some(symbol * 256 + R_SIA32_ABS32)
  {
    hide Little, U32;
    var r := RelRecord(offset, symbol);
    assert symbol * 256 % WORD_LIMIT == symbol * 256;
    assert Has(r, 0, Little(offset, 4)) && Has(r, 4, Little(symbol * 256 + R_SIA32_ABS32, 4));
    FieldAt(x, at, r, 0, offset);
    FieldAt(x, at, r, 4, symbol * 256 + R_SIA32_ABS32);
  }
}
