/** Bytes and little-endian integers. */
module ByteCodec {

  type byte = x: int | 0 <= x < 256

  type Bytes = seq<byte>

  /** The number of values of a 32-bit word. */
  const U32: nat := 0x1_0000_0000

  function Pow256(width: nat): nat {
    if width == 0 then 1 else 256 * Pow256(width - 1)
  }

  /** The low `width` bytes of `n`, least significant first. */
  function ToLE(n: nat, width: nat): (bs: Bytes)
    ensures |bs| == width
  {
    if width == 0 then [] else [(n % 256) as byte] + ToLE(n / 256, width - 1)
  }

  function FromLE(bs: Bytes): nat {
    if bs == [] then 0 else bs[0] + 256 * FromLE(bs[1..])
  }

  /** Reading back what was written gives the number, if it fits. */
  lemma {:induction false} FromToLE(n: nat, width: nat)
    requires n < Pow256(width)
    ensures FromLE(ToLE(n, width)) == n
  {
    if width > 0 {
      FromToLE(n / 256, width - 1);
      assert ToLE(n, width)[1..] == ToLE(n / 256, width - 1);
    }
  }

  lemma FromTo16(n: nat)
    requires n < 0x1_0000
    ensures FromLE(ToLE(n, 2)) == n
  {
    assert Pow256(1) == 256 && Pow256(2) == 0x1_0000;
    FromToLE(n, 2);
  }

  lemma FromTo32(n: nat)
    requires n < 0x1_0000_0000
    ensures FromLE(ToLE(n, 4)) == n
  {
    assert Pow256(1) == 256 && Pow256(2) == 0x1_0000 && Pow256(3) == 0x100_0000 && Pow256(4) == 0x1_0000_0000;
    FromToLE(n, 4);
  }

  lemma FromTo64(n: nat)
    requires n < 0x1_0000_0000_0000_0000
    ensures FromLE(ToLE(n, 8)) == n
  {
    assert Pow256(4) == 0x1_0000_0000 by {
      assert Pow256(1) == 256 && Pow256(2) == 0x1_0000 && Pow256(3) == 0x100_0000;
    }
    assert Pow256(6) == 0x1_0000_0000_0000 by {
      assert Pow256(5) == 0x100_0000_0000;
    }
    assert Pow256(7) == 0x100_0000_0000_0000;
    FromToLE(n, 8);
  }

  // ---- little-endian, byte by byte ------------------------------------------

  /** The number at a position: the first byte counts least. */
  function Two(data: Bytes, at: nat): nat
    requires at + 2 <= |data|
  {
    (data[at] as int) + 256 * (data[at + 1] as int)
  }

  function Four(data: Bytes, at: nat): nat
    requires at + 4 <= |data|
  {
    (data[at] as int) + 256 * (data[at + 1] as int) + 65536 * (data[at + 2] as int) + 16777216 * (data[at + 3] as int)
  }

  lemma TwoAt(data: Bytes, at: nat)
    requires at + 2 <= |data|
    ensures FromLE(data[at..at + 2]) == Two(data, at)
  {
    var bs := data[at..at + 2];
    assert bs[1..][1..] == [] && bs[1..][0] == bs[1];
    assert FromLE(bs[1..]) == bs[1] + 256 * FromLE([]);
  }

  lemma FourAt(data: Bytes, at: nat)
    requires at + 4 <= |data|
    ensures FromLE(data[at..at + 4]) == Four(data, at)
  {
    var bs := data[at..at + 4];
    assert bs[1..][1..] == data[at + 2..at + 2 + 2] && bs[1..][0] == bs[1];
    assert FromLE(bs[1..]) == bs[1] + 256 * FromLE(data[at + 2..at + 2 + 2]);
    TwoAt(data, at + 2);
  }

  lemma EightAt(data: Bytes, at: nat)
    requires at + 8 <= |data|
    ensures FromLE(data[at..at + 8]) == Four(data, at) + U32 * Four(data, at + 4)
  {
    hide Four;
    var bs := data[at..at + 8];
    assert FromLE(bs) == bs[0] + 256 * FromLE(bs[1..]);
    assert bs[1..][1..] == bs[2..] && FromLE(bs[1..]) == bs[1] + 256 * FromLE(bs[2..]);
    assert bs[2..][1..] == bs[3..] && FromLE(bs[2..]) == bs[2] + 256 * FromLE(bs[3..]);
    assert bs[3..][1..] == bs[4..] && FromLE(bs[3..]) == bs[3] + 256 * FromLE(bs[4..]);
    assert bs[4..] == data[at + 4..at + 4 + 4];
    FourAt(data, at + 4);
    FourIs(data, at);
  }

  lemma FourIs(data: Bytes, at: nat)
    requires at + 4 <= |data|
    ensures Four(data, at) ==
      (data[at] as int) + 256 * ((data[at + 1] as int) + 256 * ((data[at + 2] as int) + 256 * (data[at + 3] as int)))
  {}

  function Zeros(n: nat): (bs: Bytes)
    ensures |bs| == n
  {
    seq(n, i => 0)
  }

  /** `copy_from_slice` at an offset. */
  method CopyInto(a: array<byte>, at: nat, bytes: Bytes)
    requires at + |bytes| <= a.Length
    modifies a
    ensures a[at..at + |bytes|] == bytes
    ensures forall k :: 0 <= k < at || at + |bytes| <= k < a.Length ==> a[k] == old(a[k])
  {
    for i := 0 to |bytes|
      invariant forall k :: 0 <= k < i ==> a[at + k] == bytes[k]
      invariant forall k :: 0 <= k < at || at + |bytes| <= k < a.Length ==> a[k] == old(a[k])
    {
      a[at + i] := bytes[i];
    }
  }
}
