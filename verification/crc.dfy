/** The CRC-32 of log records (src/wal/mod.rs): it detects every burst of up to 32 bits. */
module Checksums {

  // ---- the checksum ---------------------------------------------------------

  /** One shift of the reflected CRC-32 of section 8 of RFC 1952. */
  function Shift(c: bv32): bv32 {
    if c & 1 != 0 then (c >> 1) ^ 0xEDB88320 else c >> 1
  }

  function Shifts(c: bv32, n: nat): bv32
    decreases n
  {
    if n == 0 then c else Shifts(Shift(c), n - 1)
  }

  /** A byte enters at the low end. */
  function Mix(c: bv32, b: bv8): bv32 {
    c ^ (b as bv32)
  }

  function Inverted(c: bv32): bv32 {
    c ^ 0xFFFFFFFF
  }

  function Register(data: seq<bv8>): bv32 {
    if data == [] then 0xFFFFFFFF
    else Shifts(Mix(Register(data[..|data| - 1]), data[|data| - 1]), 8)
  }

  function Crc(data: seq<bv8>): bv32 {
    Inverted(Register(data))
  }

  lemma ShiftsSnoc(c: bv32, n: nat)
    ensures Shifts(c, n + 1) == Shift(Shifts(c, n))
    decreases n
  {
    if n > 0 {
      ShiftsSnoc(Shift(c), n - 1);
    }
  }

  lemma ShiftCases(c: bv32)
    ensures c & 1 != 0 ==> Shift(c) == (c >> 1) ^ 0xEDB88320
    ensures c & 1 == 0 ==> Shift(c) == c >> 1
  {}

  lemma NoShifts(c: bv32)
    ensures Shifts(c, 0) == c
  {}

  lemma RegisterSnoc(data: seq<bv8>, i: nat)
    requires i < |data|
    ensures Register(data[..i + 1]) == Shifts(Mix(Register(data[..i]), data[i]), 8)
  {
    hide Mix, Shifts;
    assert data[..i + 1][..i] == data[..i];
  }

  method ComputeCrc(data: seq<bv8>) returns (crc: bv32)
    ensures crc == Crc(data)
  {
    assert Register(data[..0]) == 0xFFFFFFFF;
    hide Shift, Shifts, Register, Mix, Inverted;
    crc := 0xFFFFFFFF;
    for i := 0 to |data|
      invariant crc == Register(data[..i])
    {
      RegisterSnoc(data, i);
      crc := Mix(crc, data[i]);
      ghost var entered := crc;
      NoShifts(entered);
      for j := 0 to 8
        invariant crc == Shifts(entered, j)
      {
        ShiftsSnoc(entered, j);
        ShiftCases(crc);
        if crc & 1 != 0 {
          crc := (crc >> 1) ^ 0xEDB88320;
        } else {
          crc := crc >> 1;
        }
      }
    }
    assert data[..|data|] == data;
    crc := Inverted(crc);
  }

  // ---- the shift is a linear bijection --------------------------------------

  function Xor(x: bv32, y: bv32): bv32 {
    x ^ y
  }

  lemma XorCancels(x: bv32, y: bv32, z: bv32)
    requires Xor(x, z) == Xor(y, z) || Xor(z, x) == Xor(z, y)
    ensures x == y
  {}

  lemma XorZero(x: bv32)
    ensures Xor(x, 0) == x
  {}

  predicate Odd(c: bv32) {
    c & 1 != 0
  }

  function Half(c: bv32): bv32 {
    c >> 1
  }

  function Folded(c: bv32): bv32 {
    c ^ 0xEDB88320
  }

  lemma ShiftParts(c: bv32)
    ensures Shift(c) == if Odd(c) then Folded(Half(c)) else Half(c)
  {}

  lemma OddXor(x: bv32, y: bv32)
    ensures Odd(Xor(x, y)) <==> Odd(x) != Odd(y)
  {}

  lemma HalfXor(x: bv32, y: bv32)
    ensures Half(Xor(x, y)) == Xor(Half(x), Half(y))
  {}

  lemma FoldedXor(x: bv32, y: bv32)
    ensures Folded(Xor(x, y)) == Xor(Folded(x), y)
  {}

  lemma XorCommutes(x: bv32, y: bv32)
    ensures Xor(x, y) == Xor(y, x)
  {}

  lemma FoldedTwice(x: bv32, y: bv32)
    ensures Xor(Folded(x), Folded(y)) == Xor(x, y)
  {}

  lemma {:induction false} ShiftIsLinear(x: bv32, y: bv32)
    ensures Shift(Xor(x, y)) == Xor(Shift(x), Shift(y))
  {
    hide Shift, Xor, Odd, Half, Folded;
    ShiftParts(x);
    ShiftParts(y);
    ShiftParts(Xor(x, y));
    OddXor(x, y);
    HalfXor(x, y);
    FoldedXor(Half(x), Half(y));
    FoldedXor(Half(y), Half(x));
    XorCommutes(Half(x), Half(y));
    XorCommutes(Half(x), Folded(Half(y)));
    FoldedTwice(Half(x), Half(y));
  }

  lemma {:induction false} ShiftsAreLinear(x: bv32, y: bv32, n: nat)
    ensures Shifts(Xor(x, y), n) == Xor(Shifts(x, n), Shifts(y, n))
    decreases n
  {
    hide Shift, Xor;
    if n > 0 {
      ShiftIsLinear(x, y);
      ShiftsAreLinear(Shift(x), Shift(y), n - 1);
    }
  }

  lemma ShiftIsInjective(x: bv32, y: bv32)
    requires Shift(x) == Shift(y)
    ensures x == y
  {}

  lemma {:induction false} ShiftsAreInjective(x: bv32, y: bv32, n: nat)
    requires Shifts(x, n) == Shifts(y, n)
    ensures x == y
    decreases n
  {
    hide Shift;
    if n > 0 {
      ShiftsAreInjective(Shift(x), Shift(y), n - 1);
      ShiftIsInjective(x, y);
    }
  }

  // ---- the same checksum, bit by bit ----------------------------------------

  function Bit(b: bool): bv32 {
    if b then 1 else 0
  }

  /** Feed bits one at a time, each followed by a shift. */
  function Feed(c: bv32, bits: seq<bool>): bv32
    decreases |bits|
  {
    if bits == [] then c else Feed(Shift(Xor(c, Bit(bits[0]))), bits[1..])
  }

  lemma {:induction false} FeedAppend(c: bv32, a: seq<bool>, b: seq<bool>)
    ensures Feed(c, a + b) == Feed(Feed(c, a), b)
    decreases |a|
  {
    hide Shift, Xor, Bit;
    if a == [] {
      assert a + b == b;
    } else {
      assert (a + b)[1..] == a[1..] + b;
      FeedAppend(Shift(Xor(c, Bit(a[0]))), a[1..], b);
    }
  }

  lemma {:induction false} FeedIsInjective(x: bv32, y: bv32, bits: seq<bool>)
    requires Feed(x, bits) == Feed(y, bits)
    ensures x == y
    decreases |bits|
  {
    hide Shift, Xor, Bit;
    if bits != [] {
      FeedIsInjective(Shift(Xor(x, Bit(bits[0]))), Shift(Xor(y, Bit(bits[0]))), bits[1..]);
      ShiftIsInjective(Xor(x, Bit(bits[0])), Xor(y, Bit(bits[0])));
      XorCancels(x, y, Bit(bits[0]));
    }
  }

  /** The bits as a number, the first one lowest. */
  function Word(bits: seq<bool>): bv32
    decreases |bits|
  {
    if bits == [] then 0 else Push(bits[0], Word(bits[1..]))
  }

  function Push(b: bool, w: bv32): bv32 {
    if b then (w << 1) | 1 else w << 1
  }

  function Mask(n: nat): bv32 {
    if n == 0 then 0 else Push(true, Mask(n - 1))
  }

  predicate Within(w: bv32, mask: bv32) {
    w & !mask == 0
  }

  lemma PushCases(b: bool, w: bv32)
    ensures Push(b, w) == w << 1 || Push(b, w) == (w << 1) | 1
    ensures b ==> Push(b, w) == (w << 1) | 1
  {}

  lemma DoubleWithin(w: bv32, mask: bv32)
    requires Within(w, mask)
    ensures Within(w << 1, (mask << 1) | 1) && Within((w << 1) | 1, (mask << 1) | 1)
  {}

  lemma {:induction false} PushWithin(b: bool, w: bv32, mask: bv32)
    requires Within(w, mask)
    ensures Within(Push(b, w), Push(true, mask))
  {
    hide Within, Push;
    PushCases(b, w);
    PushCases(true, mask);
    DoubleWithin(w, mask);
  }

  lemma WithinTransitive(w: bv32, a: bv32, b: bv32)
    requires Within(w, a) && Within(a, b)
    ensures Within(w, b)
  {}

  lemma PushFour(a: bv32)
    ensures Push(true, Push(true, Push(true, Push(true, a)))) == (a << 4) | 0xF
  {}

  lemma MaskFour(n: nat)
    ensures Mask(n + 4) == Push(true, Push(true, Push(true, Push(true, Mask(n)))))
  {
    hide Push;
    assert Mask(n + 4) == Push(true, Push(true, Mask(n + 2)));
  }

  lemma MaskOf31()
    ensures Mask(31) == 0x7FFF_FFFF
  {
    hide Mask, Push;
    assert Mask(3) == 7 by {
      MaskOf3();
    }
    MaskFour(3);
    PushFour(7);
    MaskFour(7);
    PushFour(0x7F);
    MaskFour(11);
    PushFour(0x7FF);
    MaskFour(15);
    PushFour(0x7FFF);
    MaskFour(19);
    PushFour(0x7_FFFF);
    MaskFour(23);
    PushFour(0x7F_FFFF);
    MaskFour(27);
    PushFour(0x7FF_FFFF);
  }

  lemma MaskOf3()
    ensures Mask(3) == 7
  {
    assert Mask(1) == 1 && Mask(2) == 3;
  }

  lemma MaskStep(n: nat)
    ensures Within(Mask(n), Mask(n + 1))
  {
    if n > 0 {
      hide Within, Push;
      MaskStep(n - 1);
      PushWithin(true, Mask(n - 1), Mask(n));
    }
  }

  lemma WithinItself(w: bv32)
    ensures Within(w, w)
  {}

  lemma MaskWithin(n: nat, k: nat)
    requires n <= k
    ensures Within(Mask(n), Mask(k))
    decreases k - n
  {
    if n == k {
      WithinItself(Mask(n));
    } else {
      hide Within, Mask;
      MaskStep(n);
      MaskWithin(n + 1, k);
      WithinTransitive(Mask(n), Mask(n + 1), Mask(k));
    }
  }

  lemma {:induction false} WordWithin(bits: seq<bool>)
    ensures Within(Word(bits), Mask(|bits|))
    decreases |bits|
  {
    if bits != [] {
      hide Within, Push;
      WordWithin(bits[1..]);
      PushWithin(bits[0], Word(bits[1..]), Mask(|bits| - 1));
    }
  }

  /** A word of at most 31 bits leaves the top bit free, so pushing loses nothing. */
  predicate TopFree(w: bv32) {
    w & 0x8000_0000 == 0
  }

  lemma TopFreeWhen(w: bv32)
    requires Within(w, 0x7FFF_FFFF)
    ensures TopFree(w)
  {}

  lemma ShortWord(bits: seq<bool>)
    requires |bits| < 32
    ensures TopFree(Word(bits))
  {
    hide TopFree, Within, Word;
    WordWithin(bits);
    MaskWithin(|bits|, 31);
    MaskOf31();
    WithinTransitive(Word(bits), Mask(|bits|), Mask(31));
    TopFreeWhen(Word(bits));
  }

  function Doubled(w: bv32): bv32 {
    w << 1
  }

  lemma PushIsXor(b: bool, w: bv32)
    ensures Push(b, w) == Xor(Bit(b), Doubled(w))
  {
    if b {
      PushOne(w);
    } else {
      PushNone(w);
    }
  }

  lemma PushOne(w: bv32)
    ensures Push(true, w) == Xor(1, Doubled(w))
  {}

  lemma PushNone(w: bv32)
    ensures Push(false, w) == Xor(0, Doubled(w))
  {}

  lemma XorAssociates(x: bv32, y: bv32, z: bv32)
    ensures Xor(Xor(x, y), z) == Xor(x, Xor(y, z))
  {}

  lemma ShiftUndoesDoubling(w: bv32)
    requires TopFree(w)
    ensures Shift(Doubled(w)) == w
  {}

  lemma ShiftUndoesPush(c: bv32, b: bool, w: bv32)
    requires TopFree(w)
    ensures Xor(Shift(Xor(c, Bit(b))), w) == Shift(Xor(c, Push(b, w)))
  {
    hide Shift, Xor, Bit, Push, Doubled, TopFree;
    PushIsXor(b, w);
    XorAssociates(c, Bit(b), Doubled(w));
    ShiftIsLinear(Xor(c, Bit(b)), Doubled(w));
    ShiftUndoesDoubling(w);
  }

  lemma PushIsInjective(a: bool, v: bv32, b: bool, w: bv32)
    requires TopFree(v) && TopFree(w) && Push(a, v) == Push(b, w)
    ensures a == b && v == w
  {}

  /** Feeding up to 32 bits is mixing them in at once and then shifting. */
  lemma {:induction false} FeedIsShifts(c: bv32, bits: seq<bool>)
    requires |bits| <= 32
    ensures Feed(c, bits) == Shifts(Xor(c, Word(bits)), |bits|)
    decreases |bits|
  {
    hide Shift, Xor, Bit, Push, TopFree;
    if bits == [] {
      XorZero(c);
    } else {
      var next := Shift(Xor(c, Bit(bits[0])));
      FeedIsShifts(next, bits[1..]);
      ShortWord(bits[1..]);
      ShiftUndoesPush(c, bits[0], Word(bits[1..]));
    }
  }

  lemma {:induction false} WordIsInjective(a: seq<bool>, b: seq<bool>)
    requires |a| == |b| <= 32 && Word(a) == Word(b)
    ensures a == b
    decreases |a|
  {
    hide Push, TopFree;
    if a != [] {
      ShortWord(a[1..]);
      ShortWord(b[1..]);
      PushIsInjective(a[0], Word(a[1..]), b[0], Word(b[1..]));
      WordIsInjective(a[1..], b[1..]);
      assert a == [a[0]] + a[1..] && b == [b[0]] + b[1..];
    }
  }

  /** Two different windows of at most 32 bits never leave the same register behind. */
  lemma WindowsDiffer(c: bv32, a: seq<bool>, b: seq<bool>)
    requires |a| == |b| <= 32 && Feed(c, a) == Feed(c, b)
    ensures a == b
  {
    hide Shift, Shifts, Xor, Word, Feed;
    FeedIsShifts(c, a);
    FeedIsShifts(c, b);
    ShiftsAreInjective(Xor(c, Word(a)), Xor(c, Word(b)), |a|);
    XorCancels(Word(a), Word(b), c);
    WordIsInjective(a, b);
  }

  // ---- payloads as bits -----------------------------------------------------

  function ByteBits(b: bv8): (bits: seq<bool>)
    ensures |bits| == 8
  {
    [b & 1 != 0, b & 2 != 0, b & 4 != 0, b & 8 != 0, b & 16 != 0, b & 32 != 0, b & 64 != 0, b & 128 != 0]
  }

  /** All the bits of a payload, each byte's lowest bit first. */
  function Bits(data: seq<bv8>): (bits: seq<bool>)
    ensures |bits| == 8 * |data|
  {
    if data == [] then [] else Bits(data[..|data| - 1]) + ByteBits(data[|data| - 1])
  }

  lemma BitsAt(data: seq<bv8>, k: nat)
    requires k < |data|
    ensures Bits(data)[8 * k..8 * k + 8] == ByteBits(data[k])
  {
    hide ByteBits;
    var n := |data| - 1;
    if k < n {
      BitsAt(data[..n], k);
      assert Bits(data)[8 * k..8 * k + 8] == Bits(data[..n])[8 * k..8 * k + 8];
    }
  }

  lemma ByteBitsAreInjective(a: bv8, b: bv8)
    requires ByteBits(a) == ByteBits(b)
    ensures a == b
  {
    var x, y := ByteBits(a), ByteBits(b);
    assert forall i :: 0 <= i < 8 ==> x[i] == y[i];
    assert x[0] == y[0] && x[1] == y[1] && x[2] == y[2] && x[3] == y[3];
    assert x[4] == y[4] && x[5] == y[5] && x[6] == y[6] && x[7] == y[7];
    SameBits(a, b);
  }

  lemma SameBits(a: bv8, b: bv8)
    requires (a & 1 != 0) == (b & 1 != 0) && (a & 2 != 0) == (b & 2 != 0)
    requires (a & 4 != 0) == (b & 4 != 0) && (a & 8 != 0) == (b & 8 != 0)
    requires (a & 16 != 0) == (b & 16 != 0) && (a & 32 != 0) == (b & 32 != 0)
    requires (a & 64 != 0) == (b & 64 != 0) && (a & 128 != 0) == (b & 128 != 0)
    ensures a == b
  {}

  lemma {:induction false} BitsAreInjective(a: seq<bv8>, b: seq<bv8>)
    requires |a| == |b| && Bits(a) == Bits(b)
    ensures a == b
  {
    hide ByteBits, Bits;
    forall k | 0 <= k < |a|
      ensures a[k] == b[k]
    {
      BitsAt(a, k);
      BitsAt(b, k);
      ByteBitsAreInjective(a[k], b[k]);
    }
  }

  lemma WordOfByte(b: bv8)
    ensures Word(ByteBits(b)) == b as bv32
  {
    var bits := ByteBits(b);
    assert bits[0] == (b & 1 != 0) && bits[1] == (b & 2 != 0) && bits[2] == (b & 4 != 0) && bits[3] == (b & 8 != 0)
        && bits[4] == (b & 16 != 0) && bits[5] == (b & 32 != 0) && bits[6] == (b & 64 != 0) && bits[7] == (b & 128 != 0);
    hide Word, ByteBits, Push, Bit;
    WordUnfolds(bits);
    ByteReassembled(b);
  }

  lemma WordStep(m: seq<bool>, k: nat)
    requires k < |m|
    ensures Word(m[k..]) == Push(m[k], Word(m[k + 1..]))
  {
    hide Push;
    assert m[k..][1..] == m[k + 1..];
  }

  lemma WordUnfolds(m: seq<bool>)
    requires |m| == 8
    ensures Word(m) == Push(m[0], Push(m[1], Push(m[2], Push(m[3], Push(m[4], Push(m[5], Push(m[6], Push(m[7], 0))))))))
  {
    assert Word(m[8..]) == 0;
    hide Push, Word;
    assert m[0..] == m;
    WordStep(m, 0);
    WordStep(m, 1);
    WordStep(m, 2);
    WordStep(m, 3);
    WordStep(m, 4);
    WordStep(m, 5);
    WordStep(m, 6);
    WordStep(m, 7);
  }

  lemma ByteReassembled(b: bv8)
    ensures Push(b & 1 != 0, Push(b & 2 != 0, Push(b & 4 != 0, Push(b & 8 != 0,
      Push(b & 16 != 0, Push(b & 32 != 0, Push(b & 64 != 0, Push(b & 128 != 0, 0)))))))) == b as bv32
  {}

  /** The byte-wise register is the bit-wise one. */
  lemma {:induction false} RegisterIsFeed(data: seq<bv8>)
    ensures Register(data) == Feed(0xFFFFFFFF, Bits(data))
  {
    if data != [] {
      hide Shifts, Feed, ByteBits;
      var n := |data| - 1;
      RegisterIsFeed(data[..n]);
      FeedAppend(0xFFFFFFFF, Bits(data[..n]), ByteBits(data[n]));
      FeedIsShifts(Register(data[..n]), ByteBits(data[n]));
      WordOfByte(data[n]);
      MixIsXor(Register(data[..n]), data[n]);
    }
  }

  lemma MixIsXor(c: bv32, b: bv8)
    ensures Mix(c, b) == Xor(c, b as bv32)
  {}

  lemma InvertedIsInjective(x: bv32, y: bv32)
    requires Inverted(x) == Inverted(y)
    ensures x == y
  {}

  // ---- what the checksum detects --------------------------------------------

  /** The bit strings agree outside the `width` bits from `at` on. */
  predicate BurstError(a: seq<bv8>, b: seq<bv8>, at: nat, width: nat) {
    && |a| == |b| && at + width <= 8 * |a|
    && Bits(a)[..at] == Bits(b)[..at]
    && Bits(a)[at + width..] == Bits(b)[at + width..]
  }

  /** Changes confined to 32 consecutive bits, at any bit position, always change the checksum. */
  lemma BurstsAreDetected(a: seq<bv8>, b: seq<bv8>, at: nat, width: nat)
    requires BurstError(a, b, at, width) && width <= 32
    ensures Crc(a) == Crc(b) <==> a == b
  {
    hide Bits, Feed, Register, Inverted;
    if Crc(a) == Crc(b) {
      InvertedIsInjective(Register(a), Register(b));
      RegisterIsFeed(a);
      RegisterIsFeed(b);
      var (x, y) := (Bits(a), Bits(b));
      FeedInThree(x, at, width);
      FeedInThree(y, at, width);
      var entered := Feed(0xFFFFFFFF, x[..at]);
      FeedIsInjective(Feed(entered, x[at..at + width]), Feed(entered, y[at..at + width]), x[at + width..]);
      WindowsDiffer(entered, x[at..at + width], y[at..at + width]);
      assert x == x[..at] + x[at..at + width] + x[at + width..];
      assert y == y[..at] + y[at..at + width] + y[at + width..];
      BitsAreInjective(a, b);
    }
  }

  lemma FeedInThree(bits: seq<bool>, at: nat, width: nat)
    requires at + width <= |bits|
    ensures Feed(0xFFFFFFFF, bits) ==
      Feed(Feed(Feed(0xFFFFFFFF, bits[..at]), bits[at..at + width]), bits[at + width..])
  {
    hide Feed;
    assert bits == bits[..at + width] + bits[at + width..];
    assert bits[..at + width] == bits[..at] + bits[at..at + width];
    FeedAppend(0xFFFFFFFF, bits[..at + width], bits[at + width..]);
    FeedAppend(0xFFFFFFFF, bits[..at], bits[at..at + width]);
  }

  /** In particular, so does changing up to four consecutive bytes. */
  lemma {:induction false} FourBytesAreDetected(a: seq<bv8>, b: seq<bv8>, at: nat, width: nat)
    requires |a| == |b| && at + width <= |a| && width <= 4
    requires a[..at] == b[..at] && a[at + width..] == b[at + width..]
    ensures Crc(a) == Crc(b) <==> a == b
  {
    hide Bits, Crc;
    SamePrefixBits(a, b, at);
    SameSuffixBits(a, b, at + width);
    BurstsAreDetected(a, b, 8 * at, 8 * width);
  }

  lemma SamePrefixBits(a: seq<bv8>, b: seq<bv8>, n: nat)
    requires |a| == |b| && n <= |a| && a[..n] == b[..n]
    ensures Bits(a)[..8 * n] == Bits(b)[..8 * n]
  {
    hide ByteBits, Bits;
    forall k | 0 <= k < 8 * n
      ensures Bits(a)[k] == Bits(b)[k]
    {
      assert a[k / 8] == a[..n][k / 8] == b[..n][k / 8];
      SameBitAt(a, b, k);
    }
  }

  lemma SameSuffixBits(a: seq<bv8>, b: seq<bv8>, n: nat)
    requires |a| == |b| && n <= |a| && a[n..] == b[n..]
    ensures Bits(a)[8 * n..] == Bits(b)[8 * n..]
  {
    hide ByteBits, Bits;
    forall k | 8 * n <= k < 8 * |a|
      ensures Bits(a)[k] == Bits(b)[k]
    {
      assert a[k / 8] == a[n..][k / 8 - n] == b[n..][k / 8 - n];
      SameBitAt(a, b, k);
    }
  }

  lemma SameBitAt(a: seq<bv8>, b: seq<bv8>, k: nat)
    requires |a| == |b| && k < 8 * |a| && a[k / 8] == b[k / 8]
    ensures Bits(a)[k] == Bits(b)[k]
  {
    hide ByteBits, Bits;
    var q := k / 8;
    BitsAt(a, q);
    BitsAt(b, q);
    assert Bits(a)[k] == Bits(a)[8 * q..8 * q + 8][k - 8 * q];
    assert Bits(b)[k] == Bits(b)[8 * q..8 * q + 8][k - 8 * q];
  }

  // ---- the bound is exact ---------------------------------------------------

  function Flip(a: bv8, b: bv8): bv8 {
    a ^ b
  }

  /** `data` with 33 consecutive bits, the first one the lowest of byte `at`, changed by the
      polynomial's own bit pattern. */
  function PolynomialFlipped(data: seq<bv8>, at: nat): (flipped: seq<bv8>)
    requires at + 5 <= |data|
    ensures |flipped| == |data|
  {
    data[at := Flip(data[at], 0x41)]
        [at + 1 := Flip(data[at + 1], 0x06)]
        [at + 2 := Flip(data[at + 2], 0x71)]
        [at + 3 := Flip(data[at + 3], 0xDB)]
        [at + 4 := Flip(data[at + 4], 0x01)]
  }

  lemma MixFlip(c: bv32, d: bv32, b: bv8, e: bv8)
    ensures Mix(Xor(c, d), Flip(b, e)) == Xor(Mix(c, b), Mix(d, e))
  {}

  lemma DifferenceStep(a: seq<bv8>, b: seq<bv8>, i: nat, d: bv32, e: bv8)
    requires i < |a| == |b| && Register(b[..i]) == Xor(Register(a[..i]), d) && b[i] == Flip(a[i], e)
    ensures Register(b[..i + 1]) == Xor(Register(a[..i + 1]), Shifts(Mix(d, e), 8))
  {
    hide Register, Mix, Xor, Flip, Shifts;
    RegisterSnoc(a, i);
    RegisterSnoc(b, i);
    MixFlip(Register(a[..i]), d, a[i], e);
    ShiftsAreLinear(Mix(Register(a[..i]), a[i]), Mix(d, e), 8);
  }

  /** The difference left in the register after each byte of the pattern; it ends at nothing. */
  lemma PatternCancels()
    ensures Shifts(Mix(0, 0x41), 8) == 0x01DB7106
    ensures Shifts(Mix(0x01DB7106, 0x06), 8) == 0x0001DB71
    ensures Shifts(Mix(0x0001DB71, 0x71), 8) == 0x000001DB
    ensures Shifts(Mix(0x000001DB, 0xDB), 8) == 0x00000001
    ensures Shifts(Mix(0x00000001, 0x01), 8) == 0
  {
  }

  lemma {:induction false} SameTail(a: seq<bv8>, b: seq<bv8>, n: nat)
    requires |a| == |b| && n <= |a| && a[n..] == b[n..] && Register(a[..n]) == Register(b[..n])
    ensures Register(a) == Register(b)
    decreases |a| - n
  {
    hide Register, Mix, Shifts;
    if n == |a| {
      assert a[..n] == a && b[..n] == b;
    } else {
      assert a[n] == a[n..][0] == b[n..][0] == b[n];
      RegisterSnoc(a, n);
      RegisterSnoc(b, n);
      assert a[n + 1..] == a[n..][1..] && b[n + 1..] == b[n..][1..];
      SameTail(a, b, n + 1);
    }
  }

  /** 32 is the best possible: every payload of at least five bytes has a neighbour, differing in
      33 consecutive bits, that passes for it. */
  lemma LongerBurstsAreMissed(a: seq<bv8>, at: nat)
    requires at + 5 <= |a|
    ensures Crc(PolynomialFlipped(a, at)) == Crc(a)
    ensures PolynomialFlipped(a, at) != a
  {
    hide Register, Mix, Shifts, Xor;
    var b := PolynomialFlipped(a, at);
    PatternCancels();
    assert b[..at] == a[..at];
    XorZero(Register(a[..at]));
    DifferenceStep(a, b, at, 0, 0x41);
    DifferenceStep(a, b, at + 1, 0x01DB7106, 0x06);
    DifferenceStep(a, b, at + 2, 0x0001DB71, 0x71);
    DifferenceStep(a, b, at + 3, 0x000001DB, 0xDB);
    DifferenceStep(a, b, at + 4, 0x00000001, 0x01);
    XorZero(Register(a[..at + 5]));
    SameTail(a, b, at + 5);
    FlipChanges(a[at]);
    assert b[at] == Flip(a[at], 0x41);
  }

  lemma FlipChanges(a: bv8)
    ensures Flip(a, 0x41) != a
  {}
}
