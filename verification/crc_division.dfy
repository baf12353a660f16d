/** The checksum of src/wal/mod.rs as division of polynomials, the way RFC 1952, section 8, and
    ITU-T V.42, section 8.1.1.6.2, define it. */
module PolynomialDivision {
  import opened Checksums

  /** A polynomial over the two-element field: its coefficients, highest power first. */
  type Polynomial = seq<bool>

  /** The generator is x^32 plus these powers of x. */
  const POWERS: set<nat> := {26, 23, 22, 16, 12, 11, 10, 8, 7, 5, 4, 2, 1, 0}

  /** The generator without its leading term. */
  function Generator(): (g: Polynomial)
    ensures |g| == 32
  {
    seq(32, k requires 0 <= k < 32 => (31 - k) in POWERS)
  }

  function Plus(p: Polynomial, q: Polynomial): (r: Polynomial)
    requires |p| == |q|
    ensures |r| == |p|
  {
    seq(|p|, k requires 0 <= k < |p| => p[k] != q[k])
  }

  /** Long division: as long as there is a power to cancel, the generator is subtracted or not. */
  function Remainder(p: Polynomial): (r: Polynomial)
    ensures |p| >= 32 ==> |r| == 32
    decreases |p|
  {
    if |p| <= 32 then p
    else if p[0] then Remainder(Plus(p[1..33], Generator()) + p[33..])
    else Remainder(p[1..])
  }

  function Complement(p: Polynomial): (r: Polynomial)
    ensures |r| == |p|
  {
    seq(|p|, k requires 0 <= k < |p| => !p[k])
  }

  function Zeros(n: nat): (p: Polynomial)
    ensures |p| == n
  {
    seq(n, _ => false)
  }

  /** The message times x^32, its first 32 coefficients complemented; then the complement of the remainder. */
  function CheckBits(bits: seq<bool>): Polynomial {
    var m := bits + Zeros(32);
    Complement(Remainder(Complement(m[..32]) + m[32..]))
  }

  predicate BitOf(c: bv32, m: bv32) {
    c & m != 0
  }

  /** The word with only this bit set. */
  function MaskAt(k: nat): bv32 {
    match k
    case 0 => 0x1
    case 1 => 0x2
    case 2 => 0x4
    case 3 => 0x8
    case 4 => 0x10
    case 5 => 0x20
    case 6 => 0x40
    case 7 => 0x80
    case 8 => 0x100
    case 9 => 0x200
    case 10 => 0x400
    case 11 => 0x800
    case 12 => 0x1000
    case 13 => 0x2000
    case 14 => 0x4000
    case 15 => 0x8000
    case 16 => 0x10000
    case 17 => 0x20000
    case 18 => 0x40000
    case 19 => 0x80000
    case 20 => 0x100000
    case 21 => 0x200000
    case 22 => 0x400000
    case 23 => 0x800000
    case 24 => 0x1000000
    case 25 => 0x2000000
    case 26 => 0x4000000
    case 27 => 0x8000000
    case 28 => 0x10000000
    case 29 => 0x20000000
    case 30 => 0x40000000
    case _ => 0x80000000
  }

  /** A word's bits, lowest first: the lowest bit is the coefficient of x^31. */
  function WordBits(c: bv32): (bits: seq<bool>)
    ensures |bits| == 32
  {
    seq(32, k requires 0 <= k < 32 => BitOf(c, MaskAt(k)))
  }

  // ---- words and their bits -----------------------------------------------------

  predicate OneBit(m: bv32) {
    m != 0 && m & (m - 1) == 0
  }

  function Kept(c: bv32, m: bv32): bv32 {
    c & m
  }

  lemma KeptOrNot(c: bv32, m: bv32)
    requires OneBit(m)
    ensures Kept(c, m) == 0 || Kept(c, m) == m
  {}

  lemma KeptXor(x: bv32, y: bv32, m: bv32)
    ensures Kept(Xor(x, y), m) == Xor(Kept(x, m), Kept(y, m))
  {}

  lemma XorCases(m: bv32)
    ensures Xor(0, 0) == 0 == Xor(m, m) && Xor(0, m) == m == Xor(m, 0)
  {}

  lemma BitIsKept(c: bv32, m: bv32)
    ensures BitOf(c, m) == (Kept(c, m) != 0)
  {}

  lemma XorAt(x: bv32, y: bv32, m: bv32)
    requires OneBit(m)
    ensures BitOf(Xor(x, y), m) == (BitOf(x, m) != BitOf(y, m))
  {
    KeptOrNot(x, m);
    KeptOrNot(y, m);
    KeptXor(x, y, m);
    XorCases(m);
    BitIsKept(x, m);
    BitIsKept(y, m);
    BitIsKept(Xor(x, y), m);
    assert m != 0;
    hide BitOf, Xor, Kept, OneBit;
  }

  lemma MaskIsOneBit(k: nat)
    ensures OneBit(MaskAt(k))
  {}

  lemma BitsOfXor(x: bv32, y: bv32)
    ensures WordBits(Xor(x, y)) == Plus(WordBits(x), WordBits(y))
  {
    hide BitOf, Xor, OneBit, MaskAt;
    forall k | 0 <= k < 32
      ensures WordBits(Xor(x, y))[k] == (WordBits(x)[k] != WordBits(y)[k])
    {
      MaskIsOneBit(k);
      XorAt(x, y, MaskAt(k));
    }
  }

  predicate Doubles(m: bv32, n: bv32) {
    n == m << 1 && m & 0x80000000 == 0
  }

  lemma LowMaskDoubles(k: nat)
    requires k < 16
    ensures Doubles(MaskAt(k), MaskAt(k + 1))
  {}

  lemma HighMaskDoubles(k: nat)
    requires 16 <= k < 31
    ensures Doubles(MaskAt(k), MaskAt(k + 1))
  {}

  lemma HalfAt(x: bv32, m: bv32, n: bv32)
    requires Doubles(m, n)
    ensures BitOf(Half(x), m) == BitOf(x, n)
  {}

  lemma HalfAtTop(x: bv32)
    ensures !BitOf(Half(x), 0x80000000)
  {}

  lemma BitsOfHalf(x: bv32)
    ensures WordBits(Half(x)) == WordBits(x)[1..] + [false]
  {
    HalfAtTop(x);
    assert MaskAt(31) == 0x80000000;
    hide BitOf, Half, Doubles, MaskAt;
    forall k | 0 <= k < 31
      ensures WordBits(Half(x))[k] == WordBits(x)[k + 1]
    {
      if k < 16 {
        LowMaskDoubles(k);
      } else {
        HighMaskDoubles(k);
      }
      HalfAt(x, MaskAt(k), MaskAt(k + 1));
    }
  }

  lemma GeneratorLow(k: nat)
    requires k < 16
    ensures (31 - k in POWERS) == BitOf(0xEDB88320, MaskAt(k))
  {}

  lemma GeneratorHigh(k: nat)
    requires 16 <= k < 32
    ensures (31 - k in POWERS) == BitOf(0xEDB88320, MaskAt(k))
  {}

  lemma GeneratorWord()
    ensures Generator() == WordBits(0xEDB88320)
  {
    hide BitOf, MaskAt;
    forall k | 0 <= k < 32
      ensures Generator()[k] == WordBits(0xEDB88320)[k]
    {
      if k < 16 {
        GeneratorLow(k);
      } else {
        GeneratorHigh(k);
      }
    }
  }

  lemma BitsOfComplement(x: bv32)
    ensures WordBits(Inverted(x)) == Complement(WordBits(x))
  {
    BitsOfXor(x, 0xFFFFFFFF);
    AllOnes();
    hide WordBits;
  }

  lemma AllOnes()
    ensures WordBits(0xFFFFFFFF) == Complement(Zeros(32))
  {}

  lemma OneBitWord(b: bool)
    ensures WordBits(Bit(b)) == [b] + Zeros(31)
  {}

  lemma BitEnters(c: bv32, b: bool)
    ensures WordBits(Xor(c, Bit(b))) == [WordBits(c)[0] != b] + WordBits(c)[1..]
  {
    BitsOfXor(c, Bit(b));
    OneBitWord(b);
    hide WordBits, Xor, Bit;
  }

  // ---- one step of the division is one shift ------------------------------------

  /** Cancelling the highest power of a register that is followed by one more zero is one shift. */
  lemma ShiftDivides(x: bv32)
    ensures var next := WordBits(x)[1..] + [false];
      WordBits(Shift(x)) == if WordBits(x)[0] then Plus(next, Generator()) else next
  {
    ShiftParts(x);
    BitsOfHalf(x);
    BitsOfXor(Half(x), 0xEDB88320);
    GeneratorWord();
    assert Folded(Half(x)) == Xor(Half(x), 0xEDB88320);
    assert WordBits(x)[0] == Odd(x);
    hide WordBits, Half, Folded, Odd, Xor;
  }

  /** The register added to the front of what is still to come. */
  function InFront(c: bv32, m: Polynomial): (p: Polynomial)
    requires |m| >= 32
    ensures |p| == |m|
  {
    Plus(WordBits(c), m[..32]) + m[32..]
  }

  lemma PlusSwaps(a: Polynomial, b: Polynomial, c: Polynomial)
    requires |a| == |b| == |c|
    ensures Plus(Plus(a, b), c) == Plus(Plus(a, c), b)
  {}

  lemma FrontDrops(w: Polynomial, m: Polynomial)
    requires |w| == 32 && |m| > 32
    ensures (Plus(w, m[..32]) + m[32..])[0] == (w[0] != m[0])
    ensures (Plus(w, m[..32]) + m[32..])[1..33] == Plus(w[1..] + [false], m[1..33])
    ensures (Plus(w, m[..32]) + m[32..])[1..] == Plus(w[1..] + [false], m[1..33]) + m[33..]
  {
    var p := Plus(w, m[..32]) + m[32..];
    forall k | 0 <= k < 32
      ensures p[k + 1] == Plus(w[1..] + [false], m[1..33])[k]
    {}
    assert p[1..33] == Plus(w[1..] + [false], m[1..33]);
    assert p[33..] == m[33..] && p[1..] == p[1..33] + p[33..];
  }

  /** Dividing with the register in front drops one bit of the message and shifts the register. */
  lemma DivisionStep(c: bv32, m: Polynomial)
    requires |m| > 32
    ensures Remainder(InFront(c, m)) == Remainder(InFront(Shift(Xor(c, Bit(m[0]))), m[1..]))
  {
    var x := Xor(c, Bit(m[0]));
    BitEnters(c, m[0]);
    ShiftDivides(x);
    FrontDrops(WordBits(c), m);
    hide WordBits, Shift, Xor, Bit, Plus, Generator;
    var (p, g, next) := (InFront(c, m), Generator(), WordBits(c)[1..] + [false]);
    assert WordBits(x)[1..] == WordBits(c)[1..];
    assert m[1..][..32] == m[1..33] && m[1..][32..] == m[33..];
    if p[0] {
      PlusSwaps(next, m[1..33], g);
      assert p[33..] == p[1..][32..] == m[33..];
    }
  }

  /** Dividing the whole message is feeding its bits. */
  lemma {:induction false} DivisionIsFeed(c: bv32, bits: seq<bool>)
    ensures Remainder(InFront(c, bits + Zeros(32))) == WordBits(Feed(c, bits))
    decreases |bits|
  {
    hide WordBits, Shift, Xor, Bit;
    var m := bits + Zeros(32);
    if bits == [] {
      assert InFront(c, m) == WordBits(c);
    } else {
      DivisionStep(c, m);
      assert m[1..] == bits[1..] + Zeros(32);
      DivisionIsFeed(Shift(Xor(c, Bit(bits[0]))), bits[1..]);
    }
  }

  /** The checksum is the one defined by division, for every payload. */
  lemma CrcIsRemainder(data: seq<bv8>)
    ensures WordBits(Crc(data)) == CheckBits(Bits(data))
  {
    RegisterIsFeed(data);
    AllOnes();
    DivisionIsFeed(0xFFFFFFFF, Bits(data));
    BitsOfComplement(Register(data));
    hide WordBits, Register, Feed, Bits, Inverted;
    var m := Bits(data) + Zeros(32);
    assert InFront(0xFFFFFFFF, m) == Complement(m[..32]) + m[32..];
  }
}
