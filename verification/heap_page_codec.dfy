/** Serializing a page and reading it back. */
module HeapPageCodec {
  import opened ByteCodec
  import opened HeapPages

  function WrittenPointers(p: Page): seq<LinePointer>
    requires Fits(p)
  {
    seq(|p.pointers|, i requires 0 <= i < |p.pointers| =>
      StoredBytesMonotone(p, i + 1, |p.pointers|); WrittenPointer(p, i))
  }

  /** A page as it comes back: slots that are not normal have lost their bytes and their target. */
  function Reread(p: Page): Page
    requires Fits(p) && |p.tuples| == |p.pointers|
  {
    Page(WrittenHeader(p), WrittenPointers(p),
         seq(|p.tuples|, i requires 0 <= i < |p.tuples| => if p.pointers[i].flags == NORMAL then p.tuples[i] else []))
  }

  // ---- where the parts are --------------------------------------------------

  lemma EncodedParts(p: Page)
    requires Fits(p)
    ensures var n := |p.pointers|;
      && Encode(p)[..HEADER_SIZE] == EncodeHeader(WrittenHeader(p))
      && Encode(p)[HEADER_SIZE..HEADER_SIZE + POINTER_SIZE * n] == PointerBytes(p, n)
      && Encode(p)[TupleStart(p, n)..] == TupleArea(p, n)
  {
    hide EncodeHeader, PointerBytes, TupleArea, StoredBytes, WrittenHeader;
    var n := |p.pointers|;
    var h, ps := EncodeHeader(WrittenHeader(p)), PointerBytes(p, n);
    var z, area := Zeros(PAGE_SIZE - HEADER_SIZE - POINTER_SIZE * n - StoredBytes(p, n)), TupleArea(p, n);
    assert Encode(p) == h + (ps + (z + area));
    assert Encode(p)[..|h|] == h;
    assert Encode(p)[|h|..|h| + |ps|] == ps;
    assert Encode(p)[|h| + |ps| + |z|..] == area;
  }

  lemma {:induction false} PointerBytesAt(p: Page, n: nat, i: nat)
    requires i < n <= |p.pointers| && StoredBytes(p, n) <= PAGE_SIZE
    ensures StoredBytes(p, i + 1) <= PAGE_SIZE
    ensures PointerBytes(p, n)[POINTER_SIZE * i..POINTER_SIZE * i + POINTER_SIZE] == EncodePointer(WrittenPointer(p, i))
    decreases n
  {
    hide EncodePointer, WrittenPointer;
    StoredBytesMonotone(p, n - 1, n);
    var before, last := PointerBytes(p, n - 1), EncodePointer(WrittenPointer(p, n - 1));
    if i < n - 1 {
      PointerBytesAt(p, n - 1, i);
      PrefixSlice(before, last, POINTER_SIZE * i, POINTER_SIZE * i + POINTER_SIZE);
    } else {
      assert (before + last)[|before|..] == last;
    }
  }

  lemma {:induction false} TupleAreaSuffix(p: Page, n: nat, i: nat)
    requires i <= n <= |p.pointers|
    ensures StoredBytes(p, i) <= StoredBytes(p, n)
    ensures TupleArea(p, n)[StoredBytes(p, n) - StoredBytes(p, i)..] == TupleArea(p, i)
    decreases n
  {
    StoredBytesMonotone(p, i, n);
    if i < n {
      StoredBytesMonotone(p, i, n - 1);
      TupleAreaSuffix(p, n - 1, i);
    }
  }

  lemma SubSlice<T>(data: seq<T>, from: nat, to: nat, i: nat, j: nat)
    requires from <= to <= |data| && i <= j <= to - from
    ensures data[from..to][i..j] == data[from + i..from + j]
  {
    var a, b := data[from..to][i..j], data[from + i..from + j];
    assert |a| == |b|;
    forall k | 0 <= k < |a|
      ensures a[k] == b[k]
    {
      assert a[k] == data[from..to][i + k] == data[from + i + k];
    }
  }

  lemma PrefixSlice<T>(a: seq<T>, b: seq<T>, i: nat, j: nat)
    requires i <= j <= |a|
    ensures (a + b)[i..j] == a[i..j]
  {}

  /** Within the tuple area of `n` slots, slot `i` starts where the area of the slots up to it does. */
  lemma AreaSlice(p: Page, n: nat, i: nat)
    requires i < n <= |p.pointers| && Stored(p, i)
    ensures StoredBytes(p, i) < StoredBytes(p, i + 1) <= StoredBytes(p, n)
    ensures TupleArea(p, n)[StoredBytes(p, n) - StoredBytes(p, i + 1)..StoredBytes(p, n) - StoredBytes(p, i)]
         == p.tuples[i]
  {
    TupleAreaSuffix(p, n, i + 1);
    TupleAreaSuffix(p, n, i);
    var t, previous := p.tuples[i], TupleArea(p, i);
    assert TupleArea(p, i + 1) == t + previous;
    assert StoredBytes(p, i + 1) == StoredBytes(p, i) + |t|;
    hide TupleArea, StoredBytes;
    var area, from := TupleArea(p, n), StoredBytes(p, n) - StoredBytes(p, i + 1);
    SubSlice(area, from, |area|, 0, |t|);
    assert area[from..|area|] == area[from..];
    assert (t + previous)[0..|t|] == t;
  }

  /** The bytes of slot `i` are where its written pointer says, and end where the previous ones start. */
  lemma StoredTupleBytes(p: Page, i: nat)
    requires Fits(p) && i < |p.pointers| && Stored(p, i)
    ensures 0 <= TupleStart(p, i + 1) < TupleStart(p, i) <= PAGE_SIZE
    ensures Encode(p)[TupleStart(p, i + 1)..TupleStart(p, i)] == p.tuples[i]
  {
    hide Encode, PointerBytes, TupleArea, StoredBytes;
    var n := |p.pointers|;
    EncodedParts(p);
    AreaSlice(p, n, i);
    StoredBytesMonotone(p, 0, i);
    var from, to := StoredBytes(p, n) - StoredBytes(p, i + 1), StoredBytes(p, n) - StoredBytes(p, i);
    SubSlice(Encode(p), TupleStart(p, n), PAGE_SIZE, from, to);
    assert Encode(p)[TupleStart(p, n)..PAGE_SIZE] == Encode(p)[TupleStart(p, n)..];
  }

  /** Looking back for the previous normal slot finds the end of the slot's own bytes. */
  lemma {:induction false} TupleEndIsStart(p: Page, i: nat)
    requires Fits(p) && i <= |p.pointers|
    requires forall k :: 0 <= k < |p.pointers| && p.pointers[k].flags == NORMAL ==> Stored(p, k)
    ensures TupleEnd(WrittenPointers(p), i, PAGE_SIZE) == TupleStart(p, i)
  {
    StoredBytesMonotone(p, i, |p.pointers|);
    if i > 0 {
      TupleEndIsStart(p, i - 1);
    }
  }

  // ---- round trip -----------------------------------------------------------

  lemma WrittenPointerInRange(p: Page, i: nat)
    requires Valid(p) && i < |p.pointers|
    ensures Fits(p) && StoredBytes(p, i + 1) <= PAGE_SIZE
    ensures WrittenPointer(p, i).offset < 0x1_0000 && WrittenPointer(p, i).flags < 0x1_0000
  {
    StoredBytesMonotone(p, i + 1, |p.pointers|);
  }

  lemma DecodedHeader(p: Page)
    requires Valid(p)
    ensures DecodeHeader(Encode(p)) == WrittenHeader(p)
    ensures Decodable(Encode(p)) && PointerCount(Encode(p)) == |p.pointers|
  {
    hide EncodeHeader, DecodeHeader, Encode;
    EncodedParts(p);
    var data := Encode(p);
    HeaderRoundTrip(WrittenHeader(p));
    DecodeHeaderPrefix(data);
  }

  lemma DecodeHeaderPrefix(data: Bytes)
    requires |data| >= HEADER_SIZE
    ensures DecodeHeader(data) == DecodeHeader(data[..HEADER_SIZE])
  {
    hide FromLE;
    var h := data[..HEADER_SIZE];
    assert data[0..8] == h[0..8] && data[8..12] == h[8..12] && data[12..14] == h[12..14];
    assert data[14..16] == h[14..16] && data[16..18] == h[16..18] && data[18..20] == h[18..20];
    assert data[20..22] == h[20..22] && data[22..26] == h[22..26];
  }

  lemma DecodedPointer(p: Page, i: nat)
    requires Valid(p) && i < |p.pointers|
    ensures Fits(p) && PointerAt(Encode(p), i) == WrittenPointers(p)[i]
  {
    hide EncodePointer, DecodePointer, Encode, PointerBytes;
    EncodedParts(p);
    WrittenPointerInRange(p, i);
    var n, data := |p.pointers|, Encode(p);
    PointerBytesAt(p, n, i);
    PointerRoundTrip(WrittenPointer(p, i));
    SubSlice(data, HEADER_SIZE, HEADER_SIZE + POINTER_SIZE * n, POINTER_SIZE * i, POINTER_SIZE * i + POINTER_SIZE);
  }

  lemma DecodedTuple(p: Page, i: nat)
    requires Valid(p) && i < |p.pointers|
    ensures Fits(p)
    ensures TupleAt(Encode(p), WrittenPointers(p), i, PAGE_SIZE)
         == if p.pointers[i].flags == NORMAL then p.tuples[i] else []
  {
    hide Encode, StoredBytes, TupleEnd;
    TupleEndIsStart(p, i);
    if p.pointers[i].flags == NORMAL {
      StoredTupleBytes(p, i);
    }
  }

  /** Reading back a serialized page gives its slot count, its flags and the bytes of every
      normal tuple. */
  lemma DecodeEncode(p: Page)
    requires Valid(p)
    ensures Fits(p) && Decodable(Encode(p)) && Decode(Encode(p)) == Reread(p)
  {
    hide Encode, StoredBytes, TupleAt, PointerAt, DecodeHeader, WrittenPointer;
    DecodedHeader(p);
    var data := Encode(p);
    var q := Decode(data);
    forall i | 0 <= i < |p.pointers|
      ensures q.pointers[i] == WrittenPointers(p)[i]
    {
      DecodedPointer(p, i);
    }
    assert q.pointers == WrittenPointers(p);
    forall i | 0 <= i < |p.pointers|
      ensures q.tuples[i] == if p.pointers[i].flags == NORMAL then p.tuples[i] else []
    {
      DecodedTuple(p, i);
    }
    assert q.tuples == Reread(p).tuples;
  }

  /** What survives, spelled out. */
  lemma RoundTripKeeps(p: Page)
    requires Valid(p)
    ensures Fits(p) && Decodable(Encode(p))
    ensures var q := Decode(Encode(p));
      && |q.pointers| == |q.tuples| == |p.pointers|
      && (forall i :: 0 <= i < |p.pointers| ==> q.pointers[i].flags == p.pointers[i].flags)
      && (forall i :: 0 <= i < |p.pointers| && p.pointers[i].flags == NORMAL ==> q.tuples[i] == p.tuples[i])
      && q.header.(lower := p.header.lower, upper := p.header.upper) == p.header
  {
    hide Encode, Decode, StoredBytes;
    DecodeEncode(p);
  }

  /** A page read back is a valid page, and reading it back again changes nothing. */
  lemma RereadIsValid(p: Page)
    requires Valid(p)
    ensures Fits(p) && Valid(Reread(p)) && Fits(Reread(p)) && Reread(Reread(p)) == Reread(p)
  {
    hide StoredBytes, WrittenPointer, HeaderInRange;
    var q := Reread(p);
    assert HeaderInRange(q.header) by {
      WrittenHeaderInRange(p);
    }
    StoredBytesSame(p, q, |p.pointers|);
    forall i | 0 <= i < |p.pointers|
      ensures q.pointers[i].flags < 0x1_0000 && q.pointers[i].offset < 0x1_0000
      ensures q.pointers[i].flags == p.pointers[i].flags
    {
      WrittenPointerInRange(p, i);
      WrittenFlags(p, i);
    }
    forall i | 0 <= i < |p.pointers|
      ensures WrittenPointers(q)[i] == q.pointers[i]
    {
      RewrittenPointer(p, i);
    }
    assert WrittenPointers(q) == q.pointers;
    assert Reread(q).tuples == q.tuples;
  }

  lemma WrittenHeaderInRange(p: Page)
    requires Valid(p)
    ensures Fits(p) && HeaderInRange(WrittenHeader(p))
  {}

  lemma WrittenFlags(p: Page, i: nat)
    requires Fits(p) && i < |p.pointers|
    ensures WrittenPointers(p)[i].flags == p.pointers[i].flags
  {}

  lemma RewrittenPointer(p: Page, i: nat)
    requires Valid(p) && Fits(p) && i < |p.pointers| && Fits(Reread(p))
    ensures WrittenPointers(Reread(p))[i] == Reread(p).pointers[i]
  {
    WrittenPointerInRange(p, i);
    StoredBytesSame(p, Reread(p), i + 1);
  }

  lemma {:induction false} StoredBytesSame(p: Page, q: Page, n: nat)
    requires Valid(p) && Fits(p) && q == Reread(p) && n <= |p.pointers|
    ensures StoredBytes(q, n) == StoredBytes(p, n)
  {
    if n > 0 {
      StoredBytesSame(p, q, n - 1);
      WrittenPointerInRange(p, n - 1);
    }
  }

  // ---- the layout, byte by byte ---------------------------------------------

  /** Where the header fields are read from. */
  lemma HeaderLayout(data: Bytes)
    requires |data| >= 26
    ensures DecodeHeader(data) == Header(Four(data, 0) + U32 * Four(data, 4), Four(data, 8), Two(data, 12),
      Two(data, 14), Two(data, 16), Two(data, 18), Two(data, 20), Four(data, 22))
  {
    hide FromLE, Two, Four;
    EightAt(data, 0);
    FourAt(data, 8);
    TwoAt(data, 12);
    TwoAt(data, 14);
    TwoAt(data, 16);
    TwoAt(data, 18);
    TwoAt(data, 20);
    FourAt(data, 22);
  }

  /** Where a tuple ends: at the start of the nearest normal one in a slot before it, else at the special
      space. */
  ghost predicate EndsAt(p: Page, i: nat, end: nat)
    requires i <= |p.pointers|
  {
    if forall j :: 0 <= j < i ==> p.pointers[j].flags != 0 then end == p.header.special
    else exists j: nat :: NearestBefore(p, i, j) && end == p.pointers[j].offset
  }

  predicate NearestBefore(p: Page, i: nat, j: nat)
    requires i <= |p.pointers|
  {
    j < i && p.pointers[j].flags == 0 && forall k :: j < k < i ==> p.pointers[k].flags != 0
  }

  /** The bytes from the slot's offset to where it ends, if it is a normal one and they lie in the page. */
  ghost predicate ReadFrom(data: Bytes, p: Page, i: nat)
    requires i < |p.pointers| == |p.tuples| && |data| >= 8192
  {
    exists end: nat :: EndsAt(p, i, end)
      && p.tuples[i] == if p.pointers[i].flags == 0 && p.pointers[i].offset < end <= 8192 then data[p.pointers[i].offset..end] else []
  }

  lemma EndsOneFurther(p: Page, i: nat, end: nat)
    requires 0 < i <= |p.pointers| && p.pointers[i - 1].flags != 0 && EndsAt(p, i - 1, end)
    ensures EndsAt(p, i, end)
  {
    if exists j :: 0 <= j < i - 1 && p.pointers[j].flags == 0 {
      var j: nat :| NearestBefore(p, i - 1, j) && end == p.pointers[j].offset;
      assert NearestBefore(p, i, j);
    }
  }

  lemma EndsHere(p: Page, i: nat)
    requires 0 < i <= |p.pointers| && p.pointers[i - 1].flags == 0
    ensures EndsAt(p, i, p.pointers[i - 1].offset)
  {
    assert NearestBefore(p, i, i - 1);
  }

  lemma {:induction false} TupleEndEnds(p: Page, i: nat)
    requires i <= |p.pointers|
    ensures EndsAt(p, i, TupleEnd(p.pointers, i, p.header.special))
  {
    if i > 0 {
      hide EndsAt;
      if p.pointers[i - 1].flags == 0 {
        EndsHere(p, i);
      } else {
        TupleEndEnds(p, i - 1);
        EndsOneFurther(p, i, TupleEnd(p.pointers, i - 1, p.header.special));
      }
    }
  }

  lemma PointerLayout(data: Bytes, i: nat)
    requires 26 + 4 * i + 4 <= |data|
    ensures PointerAt(data, i) == LinePointer(Two(data, 26 + 4 * i), Two(data, 28 + 4 * i))
  {
    hide FromLE, Two;
    var slice := data[26 + 4 * i..26 + 4 * i + 4];
    TwoAt(data, 26 + 4 * i);
    TwoAt(data, 28 + 4 * i);
    assert slice[0..2] == data[26 + 4 * i..26 + 4 * i + 2] && slice[2..4] == data[28 + 4 * i..28 + 4 * i + 2];
  }

  /** What any page bytes are read as: the line pointers from byte 26 on, four bytes each, as many as fit
      below the lower bound, and for a normal one the bytes from its offset to where it ends. */
  lemma PageLayout(data: Bytes)
    requires Decodable(data)
    ensures var p := Decode(data);
      && p.header == DecodeHeader(data) && |p.tuples| == |p.pointers| == (p.header.lower - 26) / 4
      && (forall i :: 0 <= i < |p.pointers| ==>
            26 + 4 * i + 4 <= |data| && p.pointers[i] == LinePointer(Two(data, 26 + 4 * i), Two(data, 28 + 4 * i)))
      && forall i :: 0 <= i < |p.pointers| ==> ReadFrom(data, p, i)
  {
    hide FromLE, Two, DecodeHeader, PointerAt, EndsAt;
    var p := Decode(data);
    forall i | 0 <= i < |p.pointers|
      ensures 26 + 4 * i + 4 <= |data| && p.pointers[i] == LinePointer(Two(data, 26 + 4 * i), Two(data, 28 + 4 * i))
      ensures ReadFrom(data, p, i)
    {
      PointerLayout(data, i);
      TupleEndEnds(p, i);
    }
  }

  /** Between the line pointers and the tuples there are zeros. */
  lemma FreeSpaceIsZero(p: Page, k: nat)
    requires Fits(p) && 26 + 4 * |p.pointers| <= k && k + StoredBytes(p, |p.pointers|) < 8192
    ensures Encode(p)[k] == 0
  {
    hide EncodeHeader, PointerBytes, TupleArea, StoredBytes, WrittenHeader;
    var n := |p.pointers|;
    var h, ps := EncodeHeader(WrittenHeader(p)), PointerBytes(p, n);
    var z := Zeros(PAGE_SIZE - HEADER_SIZE - POINTER_SIZE * n - StoredBytes(p, n));
    assert Encode(p) == h + ps + z + TupleArea(p, n);
    assert (h + ps + z)[k] == z[k - |h| - |ps|];
  }
}
