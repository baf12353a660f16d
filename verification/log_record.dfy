/** Log record headers (src/wal/mod.rs): their bytes, and the payloads they accept. */
module LogRecords {
  import opened Checksums

  datatype Header = Header(totLen: bv32, xid: bv32, info: bv32, rmid: bv8, pad: seq<bv8>, crc: bv32)

  /** The length field is 32 bits wide and wraps. */
  function NewHeader(xid: bv32, info: bv32, rmid: bv8, data: seq<bv8>): Header {
    Header(((24 + |data|) % 0x1_0000_0000) as bv32, xid, info, rmid, [0, 0, 0], Crc(data))
  }

  method VerifyCrc(h: Header, data: seq<bv8>) returns (ok: bool)
    ensures ok <==> h.crc == Crc(data)
  {
    var crc := ComputeCrc(data);
    ok := h.crc == crc;
  }

  function ToLE32(n: bv32): (bs: seq<bv8>)
    ensures |bs| == 4
  {
    [(n & 0xFF) as bv8, ((n >> 8) & 0xFF) as bv8, ((n >> 16) & 0xFF) as bv8, ((n >> 24) & 0xFF) as bv8]
  }

  function FromLE32(bs: seq<bv8>): bv32
    requires |bs| == 4
  {
    Combine(bs[0], bs[1], bs[2], bs[3])
  }

  function Combine(a: bv8, b: bv8, c: bv8, d: bv8): bv32 {
    (a as bv32) | ((b as bv32) << 8) | ((c as bv32) << 16) | ((d as bv32) << 24)
  }

  lemma Combined(n: bv32)
    ensures Combine((n & 0xFF) as bv8, ((n >> 8) & 0xFF) as bv8, ((n >> 16) & 0xFF) as bv8, ((n >> 24) & 0xFF) as bv8) == n
  {}

  lemma FromToLE32(n: bv32)
    ensures FromLE32(ToLE32(n)) == n
  {
    hide Combine;
    Combined(n);
  }

  /** 24 bytes, of which the last four are unused. */
  function Serialize(h: Header): (bs: seq<bv8>)
    requires |h.pad| == 3
    ensures |bs| == 24
  {
    ToLE32(h.totLen) + ToLE32(h.xid) + ToLE32(h.info) + [h.rmid] + h.pad + ToLE32(h.crc) + [0, 0, 0, 0]
  }

  function Deserialize(bs: seq<bv8>): Header
    requires |bs| >= 20
  {
    Header(FromLE32(bs[0..4]), FromLE32(bs[4..8]), FromLE32(bs[8..12]), bs[12], [bs[13], bs[14], bs[15]],
           FromLE32(bs[16..20]))
  }

  lemma ThreeWords(a: seq<bv8>, b: seq<bv8>, c: seq<bv8>, tail: seq<bv8>)
    requires |a| == |b| == |c| == 4
    ensures var bs := a + b + c + tail;
      bs[0..4] == a && bs[4..8] == b && bs[8..12] == c && bs[12..] == tail
  {}

  lemma HeaderRoundTrip(h: Header)
    requires |h.pad| == 3
    ensures Deserialize(Serialize(h)) == h
  {
    hide ToLE32, FromLE32;
    var bs := Serialize(h);
    var tail := [h.rmid] + h.pad + ToLE32(h.crc) + [0, 0, 0, 0];
    ThreeWords(ToLE32(h.totLen), ToLE32(h.xid), ToLE32(h.info), tail);
    assert bs == ToLE32(h.totLen) + ToLE32(h.xid) + ToLE32(h.info) + tail;
    assert tail[1..4] == h.pad && tail[4..8] == ToLE32(h.crc);
    assert bs[16..20] == tail[4..8];
    assert [bs[13], bs[14], bs[15]] == [tail[1], tail[2], tail[3]] == h.pad;
    FromToLE32(h.totLen);
    FromToLE32(h.xid);
    FromToLE32(h.info);
    FromToLE32(h.crc);
  }

  /** The word at a position: its lowest byte comes first. */
  function WordAt(bs: seq<bv8>, at: nat): bv32
    requires at + 4 <= |bs|
  {
    ((bs[at + 3] as bv32) << 24) | ((bs[at + 2] as bv32) << 16) | ((bs[at + 1] as bv32) << 8) | (bs[at] as bv32)
  }

  lemma WordIs(bs: seq<bv8>, at: nat, n: bv32)
    requires at + 4 <= |bs| && bs[at..at + 4] == ToLE32(n)
    ensures WordAt(bs, at) == n
  {
    Combined(n);
    var four := bs[at..at + 4];
    assert four[0] == bs[at] && four[1] == bs[at + 1] && four[2] == bs[at + 2] && four[3] == bs[at + 3];
    SameWord(bs[at], bs[at + 1], bs[at + 2], bs[at + 3]);
    hide Combine;
  }

  lemma SameWord(a: bv8, b: bv8, c: bv8, d: bv8)
    ensures ((d as bv32) << 24) | ((c as bv32) << 16) | ((b as bv32) << 8) | (a as bv32) == Combine(a, b, c, d)
  {}

  /** The stored header, byte by byte: length with header, transaction, info bits, manager, three
      unused bytes, checksum, four unused bytes. */
  lemma HeaderLayout(xid: bv32, info: bv32, rmid: bv8, data: seq<bv8>)
    ensures var bs := Serialize(NewHeader(xid, info, rmid, data));
      && WordAt(bs, 0) == ((24 + |data|) % 0x1_0000_0000) as bv32 && WordAt(bs, 4) == xid && WordAt(bs, 8) == info
      && bs[12] == rmid && bs[13..16] == [0, 0, 0] && WordAt(bs, 16) == Crc(data) && bs[20..] == [0, 0, 0, 0]
  {
    hide ToLE32, WordAt, Crc;
    var h := NewHeader(xid, info, rmid, data);
    var bs := Serialize(h);
    var tail := [h.rmid] + h.pad + ToLE32(h.crc) + [0, 0, 0, 0];
    ThreeWords(ToLE32(h.totLen), ToLE32(h.xid), ToLE32(h.info), tail);
    assert bs == ToLE32(h.totLen) + ToLE32(h.xid) + ToLE32(h.info) + tail;
    assert tail[1..4] == h.pad && tail[4..8] == ToLE32(h.crc) && tail[8..] == [0, 0, 0, 0];
    assert bs[13..16] == tail[1..4] && bs[16..20] == tail[4..8] && bs[20..] == tail[8..];
    WordIs(bs, 0, h.totLen);
    WordIs(bs, 4, h.xid);
    WordIs(bs, 8, h.info);
    WordIs(bs, 16, h.crc);
  }

  /** A header read back from its bytes accepts, among the payloads that differ from the recorded
      one within 32 consecutive bits, exactly the recorded one. */
  lemma RecordRejectsBursts(xid: bv32, info: bv32, rmid: bv8, data: seq<bv8>, found: seq<bv8>, at: nat, width: nat)
    requires BurstError(data, found, at, width) && width <= 32
    ensures Deserialize(Serialize(NewHeader(xid, info, rmid, data))).crc == Crc(found) <==> found == data
  {
    hide Crc, BurstError, Serialize, Deserialize;
    HeaderRoundTrip(NewHeader(xid, info, rmid, data));
    BurstsAreDetected(data, found, at, width);
  }
}
