/** The slotted page of src/storage/heap_page.rs: its contents, its byte layout and its operations. */
module HeapPages {
  import opened ByteCodec

  const PAGE_SIZE: nat := 8192
  const HEADER_SIZE: nat := 26
  const POINTER_SIZE: nat := 4

  const NORMAL: nat := 0
  const REDIRECT: nat := 1
  const DEAD: nat := 2

  datatype Header = Header(
    lsn: nat, checksum: nat, flags: nat, lower: nat, upper: nat, special: nat, version: nat, pruneXid: nat)

  datatype LinePointer = LinePointer(offset: nat, flags: nat)

  datatype Page = Page(header: Header, pointers: seq<LinePointer>, tuples: seq<Bytes>)

  const EMPTY_PAGE := Page(Header(0, 0, 0, HEADER_SIZE, PAGE_SIZE, PAGE_SIZE, 0x0802, 0), [], [])

  /** The fields fit the widths they are stored with. */
  predicate HeaderInRange(h: Header) {
    && h.lsn < 0x1_0000_0000_0000_0000 && h.checksum < 0x1_0000_0000 && h.flags < 0x1_0000
    && h.lower < 0x1_0000 && h.upper < 0x1_0000 && h.special < 0x1_0000 && h.version < 0x1_0000
    && h.pruneXid < 0x1_0000_0000
  }

  /** Does slot `i` own bytes in the tuple area? */
  predicate Stored(p: Page, i: nat)
    requires i < |p.pointers|
  {
    p.pointers[i].flags == NORMAL && i < |p.tuples| && p.tuples[i] != []
  }

  /** Bytes owned by the first `n` slots. */
  function StoredBytes(p: Page, n: nat): nat
    requires n <= |p.pointers|
  {
    if n == 0 then 0 else StoredBytes(p, n - 1) + if Stored(p, n - 1) then |p.tuples[n - 1]| else 0
  }

  /** The page invariant: one tuple per slot, normal tuples non-empty, and line pointers, free space
      and tuples side by side within the page. */
  ghost predicate Valid(p: Page) {
    && HeaderInRange(p.header)
    && |p.tuples| == |p.pointers|
    && p.header.special == PAGE_SIZE
    && p.header.lower == HEADER_SIZE + POINTER_SIZE * |p.pointers| <= p.header.upper
    && p.header.upper + StoredBytes(p, |p.pointers|) <= PAGE_SIZE
    && (forall i :: 0 <= i < |p.pointers| ==> p.pointers[i].flags < 0x1_0000 && p.pointers[i].offset < 0x1_0000)
    && (forall i :: 0 <= i < |p.pointers| && p.pointers[i].flags == NORMAL ==> p.tuples[i] != [])
  }

  // ---- byte layout ----------------------------------------------------------

  function EncodeHeader(h: Header): (bs: Bytes)
    ensures |bs| == HEADER_SIZE
  {
    ToLE(h.lsn, 8) + ToLE(h.checksum, 4) + ToLE(h.flags, 2) + ToLE(h.lower, 2) + ToLE(h.upper, 2)
    + ToLE(h.special, 2) + ToLE(h.version, 2) + ToLE(h.pruneXid, 4)
  }

  function DecodeHeader(data: Bytes): Header
    requires |data| >= HEADER_SIZE
  {
    Header(FromLE(data[0..8]), FromLE(data[8..12]), FromLE(data[12..14]), FromLE(data[14..16]),
           FromLE(data[16..18]), FromLE(data[18..20]), FromLE(data[20..22]), FromLE(data[22..26]))
  }

  /** Taking the last field off the first `n` bytes leaves the fields before it. */
  lemma LastField(data: Bytes, n: nat, before: Bytes, field: Bytes)
    requires n == |before| + |field| <= |data| && data[..n] == before + field
    ensures data[..|before|] == before && data[|before|..n] == field
  {
    assert data[..|before|] == data[..n][..|before|];
    assert data[|before|..n] == data[..n][|before|..];
  }

  lemma HeaderFields(h: Header)
    ensures var data := EncodeHeader(h);
      && data[0..8] == ToLE(h.lsn, 8) && data[8..12] == ToLE(h.checksum, 4) && data[12..14] == ToLE(h.flags, 2)
      && data[14..16] == ToLE(h.lower, 2) && data[16..18] == ToLE(h.upper, 2) && data[18..20] == ToLE(h.special, 2)
      && data[20..22] == ToLE(h.version, 2) && data[22..26] == ToLE(h.pruneXid, 4)
  {
    hide ToLE;
    var data := EncodeHeader(h);
    var to8 := ToLE(h.lsn, 8);
    var to12 := to8 + ToLE(h.checksum, 4);
    var to14 := to12 + ToLE(h.flags, 2);
    var to16 := to14 + ToLE(h.lower, 2);
    var to18 := to16 + ToLE(h.upper, 2);
    var to20 := to18 + ToLE(h.special, 2);
    var to22 := to20 + ToLE(h.version, 2);
    assert data[..26] == data;
    LastField(data, 26, to22, ToLE(h.pruneXid, 4));
    LastField(data, 22, to20, ToLE(h.version, 2));
    LastField(data, 20, to18, ToLE(h.special, 2));
    LastField(data, 18, to16, ToLE(h.upper, 2));
    LastField(data, 16, to14, ToLE(h.lower, 2));
    LastField(data, 14, to12, ToLE(h.flags, 2));
    LastField(data, 12, to8, ToLE(h.checksum, 4));
  }

  lemma HeaderRoundTrip(h: Header)
    requires HeaderInRange(h)
    ensures DecodeHeader(EncodeHeader(h)) == h
  {
    hide ToLE, FromLE, EncodeHeader;
    HeaderFields(h);
    FromTo64(h.lsn);
    FromTo32(h.checksum);
    FromTo16(h.flags);
    FromTo16(h.lower);
    FromTo16(h.upper);
    FromTo16(h.special);
    FromTo16(h.version);
    FromTo32(h.pruneXid);
  }

  function EncodePointer(lp: LinePointer): (bs: Bytes)
    ensures |bs| == POINTER_SIZE
  {
    ToLE(lp.offset, 2) + ToLE(lp.flags, 2)
  }

  function DecodePointer(data: Bytes): LinePointer
    requires |data| == POINTER_SIZE
  {
    LinePointer(FromLE(data[0..2]), FromLE(data[2..4]))
  }

  lemma PointerRoundTrip(lp: LinePointer)
    requires lp.offset < 0x1_0000 && lp.flags < 0x1_0000
    ensures DecodePointer(EncodePointer(lp)) == lp
  {
    hide ToLE, FromLE;
    FromTo16(lp.offset);
    FromTo16(lp.flags);
    assert EncodePointer(lp)[0..2] == ToLE(lp.offset, 2);
    assert EncodePointer(lp)[2..4] == ToLE(lp.flags, 2);
  }

  /** Where the tuples of the first `n` slots begin: tuples are laid down from the page end. */
  function TupleStart(p: Page, n: nat): int
    requires n <= |p.pointers|
  {
    PAGE_SIZE - StoredBytes(p, n)
  }

  /** The line pointer `serialize` writes for slot `i`. */
  function WrittenPointer(p: Page, i: nat): LinePointer
    requires i < |p.pointers| && StoredBytes(p, i + 1) <= PAGE_SIZE
  {
    var lp := p.pointers[i];
    if lp.flags != NORMAL then lp.(offset := 0)
    else if Stored(p, i) then lp.(offset := TupleStart(p, i + 1))
    else lp
  }

  lemma {:induction false} StoredBytesMonotone(p: Page, i: nat, n: nat)
    requires i <= n <= |p.pointers|
    ensures StoredBytes(p, i) <= StoredBytes(p, n)
    decreases n
  {
    if i < n {
      StoredBytesMonotone(p, i, n - 1);
    }
  }

  /** Line pointers and stored tuples fit the page without touching. */
  predicate Fits(p: Page) {
    HEADER_SIZE + POINTER_SIZE * |p.pointers| + StoredBytes(p, |p.pointers|) <= PAGE_SIZE
  }

  function PointerBytes(p: Page, n: nat): (bs: Bytes)
    requires n <= |p.pointers| && StoredBytes(p, n) <= PAGE_SIZE
    ensures |bs| == POINTER_SIZE * n
  {
    if n == 0 then []
    else
      StoredBytesMonotone(p, n - 1, n);
      PointerBytes(p, n - 1) + EncodePointer(WrittenPointer(p, n - 1))
  }

  /** The tuple area of the first `n` slots, the last slot's bytes first. */
  function TupleArea(p: Page, n: nat): (bs: Bytes)
    requires n <= |p.pointers|
    ensures |bs| == StoredBytes(p, n)
  {
    if n == 0 then [] else (if Stored(p, n - 1) then p.tuples[n - 1] else []) + TupleArea(p, n - 1)
  }

  function WrittenHeader(p: Page): Header
    requires Fits(p)
  {
    p.header.(lower := HEADER_SIZE + POINTER_SIZE * |p.pointers|, upper := TupleStart(p, |p.pointers|))
  }

  /** The 8192 bytes `serialize` produces. */
  function Encode(p: Page): (bs: Bytes)
    requires Fits(p)
    ensures |bs| == PAGE_SIZE
  {
    var n := |p.pointers|;
    EncodeHeader(WrittenHeader(p)) + PointerBytes(p, n)
    + Zeros(PAGE_SIZE - HEADER_SIZE - POINTER_SIZE * n - StoredBytes(p, n)) + TupleArea(p, n)
  }

  /** Number of line pointers a serialized page declares. */
  function PointerCount(data: Bytes): int
    requires |data| >= HEADER_SIZE
  {
    (DecodeHeader(data).lower - HEADER_SIZE) / POINTER_SIZE
  }

  /** Bytes `deserialize` accepts without running off the page. */
  predicate Decodable(data: Bytes) {
    && |data| >= PAGE_SIZE && DecodeHeader(data).lower >= HEADER_SIZE
    && HEADER_SIZE + POINTER_SIZE * PointerCount(data) <= |data|
  }

  function PointerAt(data: Bytes, i: nat): LinePointer
    requires HEADER_SIZE + POINTER_SIZE * i + POINTER_SIZE <= |data|
  {
    DecodePointer(data[HEADER_SIZE + POINTER_SIZE * i..HEADER_SIZE + POINTER_SIZE * i + POINTER_SIZE])
  }

  /** Where the bytes of slot `i` end: at the start of the nearest normal slot before it. */
  function TupleEnd(pointers: seq<LinePointer>, i: nat, special: nat): nat
    requires i <= |pointers|
  {
    if i == 0 then special
    else if pointers[i - 1].flags == NORMAL then pointers[i - 1].offset
    else TupleEnd(pointers, i - 1, special)
  }

  function TupleAt(data: Bytes, pointers: seq<LinePointer>, i: nat, special: nat): Bytes
    requires i < |pointers| && |data| >= PAGE_SIZE
  {
    var end := TupleEnd(pointers, i, special);
    if pointers[i].flags == NORMAL && pointers[i].offset < end <= PAGE_SIZE then data[pointers[i].offset..end] else []
  }

  function Decode(data: Bytes): Page
    requires Decodable(data)
  {
    var header := DecodeHeader(data);
    var n := PointerCount(data);
    var pointers := seq(n, i requires 0 <= i < n => PointerAt(data, i));
    Page(header, pointers, seq(n, i requires 0 <= i < n => TupleAt(data, pointers, i, header.special)))
  }
}
