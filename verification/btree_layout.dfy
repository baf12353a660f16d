/** Where each field of a B-tree page stands among its bytes (src/btree/insert.rs). */
module BTreeLayout {
  import opened Wrappers
  import opened ByteCodec
  import opened BTreePages

  /** Where entry `k` starts: each takes four bytes for its length, its key, four for the page and two
      for the offset. */
  function Start(keys: seq<IndexTuple>, k: nat): nat
    requires k <= |keys|
  {
    if k == 0 then 64 else Start(keys, k - 1) + 4 + |keys[k - 1].key| + 4 + 2
  }

  /** The numbers have the widths they have in the source. */
  predicate Sized(page: BTreePage) {
    && page.level < 0x1_0000
    && SiblingNumber(page.left) < 0x1_0000_0000 && SiblingNumber(page.right) < 0x1_0000_0000
    && forall i :: 0 <= i < |page.keys| ==>
      |page.keys[i].key| < 0x1_0000_0000 && page.keys[i].page < 0x1_0000_0000 && page.keys[i].offset < 0x1_0000
  }

  lemma HeaderStart(page: BTreePage, size: nat)
    requires size >= HEADER
    ensures EncodePage(page, size)[..HEADER] == EncodeHeader(page)
  {
    hide EncodeHeader;
  }

  lemma TwoOf(bs: Bytes, at: nat, n: nat)
    requires at + 2 <= |bs| && bs[at..at + 2] == ToLE(n, 2) && n < 0x1_0000
    ensures Two(bs, at) == n
  {
    hide ToLE, FromLE, Two;
    TwoAt(bs, at);
    FromTo16(n);
  }

  lemma FourOf(bs: Bytes, at: nat, n: nat)
    requires at + 4 <= |bs| && bs[at..at + 4] == ToLE(n, 4) && n < U32
    ensures Four(bs, at) == n
  {
    hide ToLE, FromLE, Four;
    FourAt(bs, at);
    FromTo32(n);
  }

  /** The header: kind, level, number of keys, siblings with 0 for none; the rest is zero. */
  lemma HeaderLayout(page: BTreePage, size: nat)
    requires size >= HEADER && Sized(page)
    ensures var bs := EncodePage(page, size);
      && bs[0] == (match page.kind case Meta => 0 case Root => 1 case Internal => 2 case Leaf => 3 case Overflow => 4)
      && Two(bs, 1) == page.level && Two(bs, 3) == |page.keys| % 0x1_0000
      && Four(bs, 8) == (if page.left == None then 0 else page.left.value)
      && Four(bs, 12) == (if page.right == None then 0 else page.right.value)
      && forall k :: 5 <= k < 8 || 16 <= k < 64 ==> bs[k] == 0
  {
    HeaderStart(page, size);
    hide ToLE, Two, Four, EncodePage;
    var (bs, h) := (EncodePage(page, size), EncodeHeader(page));
    assert forall k :: 0 <= k < 64 ==> bs[k] == h[k];
    assert h[1..3] == ToLE(page.level, 2) && h[3..5] == ToLE(|page.keys| % 0x1_0000, 2);
    assert h[8..12] == ToLE(SiblingNumber(page.left), 4) && h[12..16] == ToLE(SiblingNumber(page.right), 4);
    assert bs[1..3] == h[1..3] && bs[3..5] == h[3..5] && bs[8..12] == h[8..12] && bs[12..16] == h[12..16];
    TwoOf(bs, 1, page.level);
    TwoOf(bs, 3, |page.keys| % 0x1_0000);
    FourOf(bs, 8, SiblingNumber(page.left));
    FourOf(bs, 12, SiblingNumber(page.right));
    HeaderZeros(page);
  }

  lemma HeaderZeros(page: BTreePage)
    ensures forall k :: 5 <= k < 8 || 16 <= k < 64 ==> EncodeHeader(page)[k] == 0
  {
    hide ToLE;
    var front := [KindByte(page.kind)] + ToLE(page.level, 2) + ToLE(|page.keys| % 0x1_0000, 2);
    var siblings := ToLE(SiblingNumber(page.left), 4) + ToLE(SiblingNumber(page.right), 4);
    assert EncodeHeader(page) == front + Zeros(3) + siblings + Zeros(48);
  }

  lemma {:induction false} StartShifts(keys: seq<IndexTuple>, k: nat)
    requires 0 < k <= |keys|
    ensures Start(keys, k) == Start(keys[1..], k - 1) + EntrySize(keys[0])
  {
    if k > 1 {
      StartShifts(keys, k - 1);
      assert keys[1..][k - 2] == keys[k - 1];
    }
  }

  lemma {:induction false} StartGrows(keys: seq<IndexTuple>, j: nat, k: nat)
    requires j <= k <= |keys|
    ensures Start(keys, j) <= Start(keys, k) && 64 <= Start(keys, j)
  {
    if j < k {
      StartGrows(keys, j, k - 1);
    } else if j > 0 {
      StartGrows(keys, j - 1, k - 1);
    }
  }

  lemma EntriesCons(keys: seq<IndexTuple>, pos: nat, size: nat)
    requires keys != [] && pos + EntrySize(keys[0]) <= size
    ensures EncodeEntries(keys, pos, size) == EncodeEntry(keys[0]) + EncodeEntries(keys[1..], pos + EntrySize(keys[0]), size)
  {
    hide EncodeEntry;
  }

  lemma Behind(first: Bytes, rest: Bytes, at: nat, n: nat)
    requires at + n <= |rest|
    ensures (first + rest)[|first| + at..|first| + at + n] == rest[at..at + n]
  {}

  /** The bytes of entry `k` stand at `at`. */
  predicate StandsAt(keys: seq<IndexTuple>, k: nat, bs: Bytes, at: int)
    requires k < |keys|
  {
    at >= 0 && at + EntrySize(keys[k]) <= |bs| && bs[at..at + EntrySize(keys[k])] == EncodeEntry(keys[k])
  }

  lemma FirstStands(keys: seq<IndexTuple>, rest: Bytes)
    requires keys != []
    ensures StandsAt(keys, 0, EncodeEntry(keys[0]) + rest, 0)
  {
    hide EncodeEntry, EntrySize;
  }

  lemma NextStands(keys: seq<IndexTuple>, k: nat, rest: Bytes, at: int)
    requires k + 1 < |keys| && StandsAt(keys[1..], k, rest, at)
    ensures StandsAt(keys, k + 1, EncodeEntry(keys[0]) + rest, EntrySize(keys[0]) + at)
  {
    hide EncodeEntry, EntrySize;
    assert keys[1..][k] == keys[k + 1];
    Behind(EncodeEntry(keys[0]), rest, at, EntrySize(keys[k + 1]));
  }

  /** The bytes of an entry that fits stand where it starts. */
  lemma {:induction false} EntryAt(keys: seq<IndexTuple>, pos: nat, size: nat, k: nat)
    requires k < |keys| && pos <= size && pos + Start(keys, k + 1) - 64 <= size
    ensures StandsAt(keys, k, EncodeEntries(keys, pos, size), Start(keys, k) - 64)
    decreases k
  {
    StartGrows(keys, 1, k + 1);
    assert Start(keys, 1) == 64 + EntrySize(keys[0]) && Start(keys, 0) == 64;
    hide EncodeEntries, StandsAt, EntrySize, Start;
    EntriesCons(keys, pos, size);
    var rest := EncodeEntries(keys[1..], pos + EntrySize(keys[0]), size);
    if k == 0 {
      FirstStands(keys, rest);
    } else {
      StartShifts(keys, k);
      StartShifts(keys, k + 1);
      StartGrows(keys[1..], 0, k - 1);
      EntryAt(keys[1..], pos + EntrySize(keys[0]), size, k - 1);
      NextStands(keys, k - 1, rest, Start(keys[1..], k - 1) - 64);
    }
  }

  /** The entries end where the first one that does not fit would start. */
  lemma {:induction false} EntriesEnd(keys: seq<IndexTuple>, pos: nat, size: nat, n: nat)
    requires n <= |keys| && pos <= size && pos + Start(keys, n) - 64 <= size
    requires n < |keys| ==> pos + Start(keys, n + 1) - 64 > size
    ensures |EncodeEntries(keys, pos, size)| == Start(keys, n) - 64
    decreases n
  {
    hide EncodeEntry;
    if n > 0 {
      StartGrows(keys, 1, n);
      StartShifts(keys, n);
      if n < |keys| {
        StartShifts(keys, n + 1);
      }
      EntriesEnd(keys[1..], pos + EntrySize(keys[0]), size, n - 1);
    }
  }

  lemma EntryFields(t: IndexTuple)
    ensures var (e, n) := (EncodeEntry(t), |t.key|);
      && e[0..4] == ToLE(n, 4) && e[4..4 + n] == t.key && e[4 + n..8 + n] == ToLE(t.page, 4) && e[8 + n..10 + n] == ToLE(t.offset, 2)
  {
    hide ToLE;
  }

  lemma EntryStored(page: BTreePage, size: nat, k: nat)
    requires size >= HEADER && k < |page.keys| && Start(page.keys, k + 1) <= size
    ensures var (bs, t, at) := (EncodePage(page, size), page.keys[k], Start(page.keys, k));
      at + EntrySize(t) <= |bs| && bs[at..at + EntrySize(t)] == EncodeEntry(t)
  {
    StartGrows(page.keys, k, k + 1);
    EntryAt(page.keys, HEADER, size, k);
    hide EncodeHeader, EncodeEntries, EncodeEntry;
    var (bs, entries) := (EncodePage(page, size), EncodeEntries(page.keys, HEADER, size));
    var (from, n) := (Start(page.keys, k) - 64, EntrySize(page.keys[k]));
    assert bs[64..64 + |entries|] == entries;
    Slice(bs, 64, entries, from, from + n);
  }

  lemma Slice(bs: Bytes, at: nat, e: Bytes, i: nat, j: nat)
    requires at + |e| <= |bs| && bs[at..at + |e|] == e && i <= j <= |e|
    ensures bs[at + i..at + j] == e[i..j]
  {
    forall k | i <= k < j
      ensures bs[at + k] == e[k]
    {
      assert bs[at..at + |e|][k] == bs[at + k];
    }
  }

  /** An entry that fits: its length, its key, the page and the offset it points to. */
  lemma EntryLayout(page: BTreePage, size: nat, k: nat)
    requires size >= HEADER && Sized(page) && k < |page.keys| && Start(page.keys, k + 1) <= size
    ensures var (bs, t, at) := (EncodePage(page, size), page.keys[k], Start(page.keys, k));
      && at + 10 + |t.key| <= |bs|
      && Four(bs, at) == |t.key| && bs[at + 4..at + 4 + |t.key|] == t.key
      && Four(bs, at + 4 + |t.key|) == t.page && Two(bs, at + 8 + |t.key|) == t.offset
  {
    EntryStored(page, size, k);
    hide ToLE, Two, Four, EncodePage, EncodeEntry, Start;
    var (bs, t, at) := (EncodePage(page, size), page.keys[k], Start(page.keys, k));
    var (e, n) := (EncodeEntry(t), |t.key|);
    EntryFields(t);
    Slice(bs, at, e, 0, 4);
    Slice(bs, at, e, 4, 4 + n);
    Slice(bs, at, e, 4 + n, 8 + n);
    Slice(bs, at, e, 8 + n, 10 + n);
    FourOf(bs, at, n);
    FourOf(bs, at + 4 + n, t.page);
    TwoOf(bs, at + 8 + n, t.offset);
  }

  /** Behind the last entry that fits, all bytes are zero. */
  lemma RestIsZero(page: BTreePage, size: nat, n: nat, k: nat)
    requires size >= HEADER && n <= |page.keys| && Start(page.keys, n) <= size
    requires n < |page.keys| ==> Start(page.keys, n + 1) > size
    requires Start(page.keys, n) <= k < size
    ensures EncodePage(page, size)[k] == 0
  {
    StartGrows(page.keys, n, n);
    EntriesEnd(page.keys, HEADER, size, n);
    hide EncodeHeader, EncodeEntries;
  }

  // ---- reading any bytes ------------------------------------------------------------

  /** The kinds by their numbers; every other number reads as a leaf. */
  lemma KindsRead(b: byte)
    ensures KindOf(b) == match b as int case 1 => Root case 2 => Internal case 4 => Overflow case _ => Leaf
  {}

  /** Fewer than 16 bytes read as an empty leaf; otherwise the header fields are taken from their places. */
  lemma HeaderRead(id: nat, data: Bytes)
    ensures |data| < 16 ==> DecodePage(id, data) == BTreePage(Leaf, id, 0, [], None, None)
    ensures |data| >= 16 ==>
      var page := DecodePage(id, data);
      && page.kind == KindOf(data[0]) && page.id == id && page.level == Two(data, 1)
      && page.left == (if Four(data, 8) == 0 then None else Some(Four(data, 8)))
      && page.right == (if Four(data, 12) == 0 then None else Some(Four(data, 12)))
      && page.keys == DecodeEntries(data, 64, Two(data, 3))
  {
    hide DecodeEntries, FromLE, Two, Four;
    if |data| >= 16 {
      TwoAt(data, 1);
      TwoAt(data, 3);
      FourAt(data, 8);
      FourAt(data, 12);
    }
  }

  /** Could an entry be read at this place?  Its length must not be zero and it must end within the data. */
  predicate Readable(data: Bytes, pos: nat) {
    pos + 10 <= |data| && Four(data, pos) != 0 && pos + 10 + Four(data, pos) <= |data|
  }

  /** The entries read one after another: as many as announced, or up to the first that cannot be read. */
  ghost predicate ReadFrom(data: Bytes, pos: nat, count: nat, keys: seq<IndexTuple>)
    decreases |keys|
  {
    if keys == [] then count == 0 || !Readable(data, pos)
    else
      && count > 0 && Readable(data, pos)
      && (var n := Four(data, pos);
          && keys[0] == IndexTuple(data[pos + 4..pos + 4 + n], Four(data, pos + 4 + n), Two(data, pos + 8 + n), 0)
          && ReadFrom(data, pos + 10 + n, count - 1, keys[1..]))
  }

  lemma {:induction false} EntriesRead(data: Bytes, pos: nat, count: nat)
    ensures ReadFrom(data, pos, count, DecodeEntries(data, pos, count))
    decreases count
  {
    hide FromLE, Two, Four;
    if count > 0 && pos + 10 <= |data| {
      FourAt(data, pos);
      var n := Four(data, pos);
      if n != 0 && pos + 10 + n <= |data| {
        FourAt(data, pos + 4 + n);
        TwoAt(data, pos + 8 + n);
        EntriesRead(data, pos + 4 + n + 6, count - 1);
        var keys := DecodeEntries(data, pos, count);
        assert keys[1..] == DecodeEntries(data, pos + 4 + n + 6, count - 1);
      }
    }
  }
}
