/** Fixed-width little-endian integers, as the wire writes them. */
module Bytes {
  type Byte = x: int | 0 <= x < 0x100
  type U16 = x: int | 0 <= x < 0x1_0000
  type U32 = x: int | 0 <= x < 0x1_0000_0000
  type U64 = x: int | 0 <= x < 0x1_0000_0000_0000_0000

  function Pow256(width: nat): (p: nat)
    ensures 1 <= p
  {
    if width == 0 then 1 else 256 * Pow256(width - 1)
  }

  function EncodeLE(value: nat, width: nat): (bs: seq<Byte>)
    requires value < Pow256(width)
    ensures |bs| == width
  {
    if width == 0 then [] else [value % 256] + EncodeLE(value / 256, width - 1)
  }

  function DecodeLE(bs: seq<Byte>): (value: nat)
    ensures value < Pow256(|bs|)
  {
    if bs == [] then 0 else bs[0] + 256 * DecodeLE(bs[1..])
  }

  lemma {:induction false} DecodeEncodeLE(value: nat, width: nat)
    requires value < Pow256(width)
    ensures DecodeLE(EncodeLE(value, width)) == value
  {
    if width > 0 {
      DecodeEncodeLE(value / 256, width - 1);
      assert EncodeLE(value, width)[1..] == EncodeLE(value / 256, width - 1);
    }
  }

  lemma {:induction false} EncodeDecodeLE(bs: seq<Byte>)
    ensures EncodeLE(DecodeLE(bs), |bs|) == bs
  {
    if bs != [] {
      EncodeDecodeLE(bs[1..]);
      assert DecodeLE(bs) % 256 == bs[0] && DecodeLE(bs) / 256 == DecodeLE(bs[1..]);
    }
  }

  /** Byte `i` is the digit of weight 256 to the `i`: the least significant byte comes first. */
  lemma {:induction false} LittleEndian(value: nat, width: nat, i: nat)
    requires value < Pow256(width) && i < width
    ensures EncodeLE(value, width)[i] == (value / Pow256(i)) % 256
  {
    if i > 0 {
      LittleEndian(value / 256, width - 1, i - 1);
      DivideTwice(value, Pow256(i - 1));
    }
  }

  lemma DivideTwice(value: nat, n: nat)
    requires n > 0
    ensures (value / 256) / n == value / (256 * n)
  {
    var q, r := (value / 256) / n, (value / 256) % n;
    var low := value % 256;
    assert value == 256 * (n * q + r) + low;
    assert 256 * (n * q + r) + low == (256 * n) * q + (256 * r + low);
    assert 256 * r + low < 256 * n;
    QuotientIs(value, 256 * n, q, 256 * r + low);
  }

  lemma QuotientIs(value: nat, n: nat, q: nat, r: nat)
    requires r < n && value == n * q + r
    ensures value / n == q
  {
    var d, m := value / n, value % n;
    assert value == n * d + m && m < n;
    TimesLess(n, d, q);
    TimesLess(n, q, d);
  }

  lemma TimesLess(n: nat, a: nat, b: nat)
    ensures a < b ==> n * a + n <= n * b
  {
    if a < b {
      assert n * b == n * a + n + n * (b - a - 1);
    }
  }

  lemma Pow256Values()
    ensures Pow256(1) == 0x100 && Pow256(2) == 0x1_0000 && Pow256(4) == 0x1_0000_0000
    ensures Pow256(8) == 0x1_0000_0000_0000_0000
  {
    assert Pow256(3) == 0x100_0000;
    assert Pow256(5) == 0x100_0000_0000;
    assert Pow256(6) == 0x1_0000_0000_0000;
    assert Pow256(7) == 0x100_0000_0000_0000;
  }

  function LE16(v: U16): (bs: seq<Byte>)
    ensures |bs| == 2 && DecodeLE(bs) == v
  {
    Pow256Values();
    DecodeEncodeLE(v, 2);
    EncodeLE(v, 2)
  }

  function LE32(v: U32): (bs: seq<Byte>)
    ensures |bs| == 4 && DecodeLE(bs) == v
  {
    Pow256Values();
    DecodeEncodeLE(v, 4);
    EncodeLE(v, 4)
  }

  function LE64(v: U64): (bs: seq<Byte>)
    ensures |bs| == 8 && DecodeLE(bs) == v
  {
    Pow256Values();
    DecodeEncodeLE(v, 8);
    EncodeLE(v, 8)
  }

  function U16Of(bs: seq<Byte>): (v: U16)
    requires |bs| == 2
    ensures LE16(v) == bs
  {
    Pow256Values();
    EncodeDecodeLE(bs);
    DecodeLE(bs)
  }

  function U32Of(bs: seq<Byte>): (v: U32)
    requires |bs| == 4
    ensures LE32(v) == bs
  {
    Pow256Values();
    EncodeDecodeLE(bs);
    DecodeLE(bs)
  }

  function U64Of(bs: seq<Byte>): (v: U64)
    requires |bs| == 8
    ensures LE64(v) == bs
  {
    Pow256Values();
    EncodeDecodeLE(bs);
    DecodeLE(bs)
  }
}
