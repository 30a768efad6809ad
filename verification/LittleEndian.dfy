/** Numbers as bytes, least significant first. */
module LittleEndian {
  import opened Bytes

  /** n bytes, least significant first. */
  function Little(v: nat, n: nat): (r: seq<Byte>)
    ensures |r| == n
  {
    if n == 0 then [] else [v % 256] + Little(v / 256, n - 1)
  }

  function Value(x: seq<Byte>): nat {
    if x == [] then 0 else (x[0] as nat) + 256 * Value(x[1..])
  }

  function Limit(n: nat): nat {
    if n == 0 then 1 else 256 * Limit(n - 1)
  }

  lemma {:induction false} LittleValue(v: nat, n: nat)
    requires v < Limit(n)
    ensures Value(Little(v, n)) == v
  {
    if n > 0 {
      LittleValue(v / 256, n - 1);
      assert Little(v, n)[1..] == Little(v / 256, n - 1);
    }
  }

  lemma {:induction false} ValueLittle(x: seq<Byte>)
    ensures Little(Value(x), |x|) == x
  {
    if x != [] {
      ValueLittle(x[1..]);
    }
  }

  lemma {:induction false} ValueBelow(x: seq<Byte>)
    ensures Value(x) < Limit(|x|)
  {
    if x != [] {
      ValueBelow(x[1..]);
    }
  }

  lemma FourBytes(x: seq<Byte>)
    requires |x| == 4
    ensures Value(x) == (x[0] as nat) + 0x100 * (x[1] as nat) + 0x1_0000 * (x[2] as nat) + 0x100_0000 * (x[3] as nat)
  {
    assert Value(x[1..][1..][1..][1..]) == 0;
    assert Value(x[1..][1..][1..]) == x[3] as nat;
    assert Value(x[1..][1..]) == (x[2] as nat) + 256 * (x[3] as nat);
  }

  lemma WordLimit()
    ensures Limit(4) == WORD_LIMIT
  {
    assert Limit(0) == 1 && Limit(1) == 256 && Limit(3) == 256 * Limit(2);
  }
}
