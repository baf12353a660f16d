/** Serializing a B-tree page and reading it back (src/btree/insert.rs). */
module BTreeCodec {
  import opened Wrappers
  import opened ByteCodec
  import opened BTreePages

  /** The fields fit the widths they are stored with, and no key is empty. */
  predicate EntryStorable(t: IndexTuple) {
    0 < |t.key| < 0x1_0000_0000 && t.page < 0x1_0000_0000 && t.offset < 0x1_0000
  }

  predicate Storable(page: BTreePage) {
    && page.level < 0x1_0000 && |page.keys| < 0x1_0000
    && SiblingNumber(page.left) < 0x1_0000_0000 && SiblingNumber(page.right) < 0x1_0000_0000
    && forall i :: 0 <= i < |page.keys| ==> EntryStorable(page.keys[i])
  }

  /** The relation oid of an entry is not stored. */
  function WithoutOids(keys: seq<IndexTuple>): seq<IndexTuple> {
    seq(|keys|, i requires 0 <= i < |keys| => keys[i].(oid := 0))
  }

  /** What comes back: a meta page turns into a leaf, sibling 0 into none, and keys that did not fit
      are gone. */
  function Reread(page: BTreePage, size: nat): BTreePage {
    page.(kind := if page.kind == Meta then Leaf else page.kind,
          keys := WithoutOids(FittingPrefix(page.keys, HEADER, size)),
          left := SiblingOf(SiblingNumber(page.left)),
          right := SiblingOf(SiblingNumber(page.right)))
  }

  lemma EntryRoundTrip(t: IndexTuple, before: Bytes, after: Bytes)
    requires EntryStorable(t)
    ensures var data := before + EncodeEntry(t) + after;
      && FromLE(data[|before|..|before| + 4]) == |t.key|
      && DecodeEntry(data, |before|, |t.key|) == t.(oid := 0)
  {
    hide ToLE, FromLE;
    FromTo32(|t.key|);
    FromTo32(t.page);
    FromTo16(t.offset);
    var data, p, n := before + EncodeEntry(t) + after, |before|, |t.key|;
    assert data[p..p + 4] == ToLE(n, 4);
    assert data[p + 4..p + 4 + n] == t.key;
    assert data[p + 4 + n..p + 8 + n] == ToLE(t.page, 4);
    assert data[p + 8 + n..p + 10 + n] == ToLE(t.offset, 2);
  }

  lemma ZeroLength(before: Bytes, n: nat)
    requires n >= 4
    ensures FromLE((before + Zeros(n))[|before|..|before| + 4]) == 0
  {
    assert (before + Zeros(n))[|before|..|before| + 4] == [0, 0, 0, 0];
    assert FromLE([0]) == 0 && FromLE([0, 0]) == 0 && FromLE([0, 0, 0]) == 0;
    assert [0, 0, 0, 0][1..] == [0, 0, 0];
  }

  /** The entry loop reads back exactly the entries that were written. */
  lemma {:induction false} EntriesRoundTrip(keys: seq<IndexTuple>, before: Bytes, size: nat, count: nat)
    requires |before| <= size && count >= |keys|
    requires forall i :: 0 <= i < |keys| ==> EntryStorable(keys[i])
    ensures var entries := EncodeEntries(keys, |before|, size);
      DecodeEntries(before + entries + Zeros(size - |before| - |entries|), |before|, count)
      == WithoutOids(FittingPrefix(keys, |before|, size))
    decreases |keys|
  {
    hide EncodeEntry, DecodeEntry, FromLE;
    var pos := |before|;
    var entries := EncodeEntries(keys, pos, size);
    var data := before + entries + Zeros(size - pos - |entries|);
    if keys == [] || pos + EntrySize(keys[0]) > size {
      NoMoreEntries(before, size, count);
      assert before + [] == before;
    } else {
      var t, longer := keys[0], before + EncodeEntry(keys[0]);
      var more := EncodeEntries(keys[1..], |longer|, size);
      EntriesRoundTrip(keys[1..], longer, size, count - 1);
      var after := more + Zeros(size - |longer| - |more|);
      assert data == before + EncodeEntry(t) + after;
      assert data == longer + more + Zeros(size - |longer| - |more|);
      EntryRoundTrip(t, before, after);
      WithoutOidsCons(t, FittingPrefix(keys[1..], |longer|, size));
    }
  }

  lemma NoMoreEntries(before: Bytes, size: nat, count: nat)
    requires |before| <= size
    ensures DecodeEntries(before + Zeros(size - |before|), |before|, count) == []
  {
    if size - |before| >= 4 {
      ZeroLength(before, size - |before|);
    }
  }

  lemma WithoutOidsCons(t: IndexTuple, keys: seq<IndexTuple>)
    ensures WithoutOids([t] + keys) == [t.(oid := 0)] + WithoutOids(keys)
  {}

  lemma HeaderRoundTrip(page: BTreePage, rest: Bytes)
    requires page.level < 0x1_0000 && |page.keys| < 0x1_0000
    requires SiblingNumber(page.left) < 0x1_0000_0000 && SiblingNumber(page.right) < 0x1_0000_0000
    ensures var data := EncodeHeader(page) + rest;
      && data[0] == KindByte(page.kind) && FromLE(data[1..3]) == page.level && FromLE(data[3..5]) == |page.keys|
      && FromLE(data[8..12]) == SiblingNumber(page.left) && FromLE(data[12..16]) == SiblingNumber(page.right)
  {
    hide ToLE, FromLE;
    FromTo16(page.level);
    FromTo16(|page.keys|);
    FromTo32(SiblingNumber(page.left));
    FromTo32(SiblingNumber(page.right));
    var data := EncodeHeader(page) + rest;
    assert data[1..3] == ToLE(page.level, 2);
    assert data[3..5] == ToLE(|page.keys| % 0x1_0000, 2);
    assert data[8..12] == ToLE(SiblingNumber(page.left), 4);
    assert data[12..16] == ToLE(SiblingNumber(page.right), 4);
  }

  /** Decoding an encoded page gives back its kind, level and siblings and the keys that fitted. */
  lemma PageRoundTrip(page: BTreePage, size: nat)
    requires size >= HEADER && Storable(page)
    ensures DecodePage(page.id, EncodePage(page, size)) == Reread(page, size)
  {
    hide EncodeHeader, EncodeEntries, DecodeEntries, FromLE;
    var entries := EncodeEntries(page.keys, HEADER, size);
    var rest := entries + Zeros(size - HEADER - |entries|);
    assert EncodePage(page, size) == EncodeHeader(page) + rest;
    HeaderRoundTrip(page, rest);
    EntriesRoundTrip(page.keys, EncodeHeader(page), size, |page.keys|);
  }

  /** The page comes back whole exactly when it is not a meta page, has no sibling 0, carries no
      oids and all its keys fit. */
  lemma PageRoundTripIff(page: BTreePage, size: nat)
    requires size >= HEADER && Storable(page)
    ensures DecodePage(page.id, EncodePage(page, size)) == page
       <==> page.kind != Meta && page.left != Some(0) && page.right != Some(0)
            && (forall i :: 0 <= i < |page.keys| ==> page.keys[i].oid == 0)
            && HEADER + TotalSize(page.keys) <= size
  {
    hide EncodePage, DecodePage;
    PageRoundTrip(page, size);
    FittingPrefixIsLongest(page.keys, HEADER, size);
    var kept := FittingPrefix(page.keys, HEADER, size);
    if HEADER + TotalSize(page.keys) <= size {
      assert kept == page.keys;
    }
    if Reread(page, size) == page {
      assert |kept| == |page.keys|;
      forall i | 0 <= i < |page.keys|
        ensures page.keys[i].oid == 0
      {
        assert WithoutOids(kept)[i] == page.keys[i];
      }
      assert page.keys[..|page.keys|] == page.keys;
    }
    if forall i :: 0 <= i < |page.keys| ==> page.keys[i].oid == 0 {
      assert WithoutOids(page.keys) == page.keys;
    }
  }

  // ---- what fits ------------------------------------------------------------

  function TotalSize(keys: seq<IndexTuple>): nat {
    if keys == [] then 0 else EntrySize(keys[0]) + TotalSize(keys[1..])
  }

  /** The kept keys are a prefix, they fit, and one more would not. */
  lemma {:induction false} FittingPrefixIsLongest(keys: seq<IndexTuple>, pos: nat, size: nat)
    requires pos <= size
    ensures var kept := FittingPrefix(keys, pos, size);
      && |kept| <= |keys| && kept == keys[..|kept|]
      && pos + TotalSize(kept) <= size
      && (|kept| < |keys| ==> pos + TotalSize(keys[..|kept| + 1]) > size)
      && (|kept| == |keys| <==> pos + TotalSize(keys) <= size)
    decreases |keys|
  {
    if keys == [] {
    } else if pos + EntrySize(keys[0]) > size {
      assert keys[..1] == [keys[0]];
      assert TotalSize([keys[0]]) == EntrySize(keys[0]) + TotalSize([]) by {
        assert [keys[0]][1..] == [];
      }
    } else {
      FittingPrefixIsLongest(keys[1..], pos + EntrySize(keys[0]), size);
      var rest := FittingPrefix(keys[1..], pos + EntrySize(keys[0]), size);
      var kept := FittingPrefix(keys, pos, size);
      assert kept == [keys[0]] + rest && kept[1..] == rest;
      assert keys[..|kept|] == [keys[0]] + keys[1..][..|rest|];
      if |kept| < |keys| {
        assert keys[..|kept| + 1] == [keys[0]] + keys[1..][..|rest| + 1];
        assert keys[..|kept| + 1][1..] == keys[1..][..|rest| + 1];
      }
    }
  }

  /** An equal share, for each entry of a full page, of what the header leaves. */
  function MaxEntry(size: nat): nat {
    if size < HEADER then 0 else (size - HEADER) / (size / 64)
  }

  lemma ShareBounds(n: nat, q: nat)
    requires q > 0
    ensures n / q * q <= n < (n / q + 1) * q
  {}

  lemma ProductGrows(e: nat, a: nat, b: nat)
    requires a <= b
    ensures e * a <= e * b
  {}

  /** The share is below 64 bytes, and from pages of 4096 bytes on it is 63, which is a key of 53. */
  lemma MaxEntryIs(size: nat)
    requires size >= HEADER
    ensures MaxEntry(size) <= 63 && (size >= 128 ==> MaxEntry(size) >= 32) && (size >= 4096 ==> MaxEntry(size) == 63)
  {
    var q, e := size / 64, MaxEntry(size);
    ShareBounds(size - HEADER, q);
    if e >= 64 {
      ProductGrows(q, 64, e);
    }
    if size >= 128 && e < 32 {
      ProductGrows(q, e + 1, 32);
    }
    if size >= 4096 && e < 63 {
      ProductGrows(q, e + 1, 63);
    }
  }

  lemma {:induction false} SmallEntriesTotal(keys: seq<IndexTuple>, bound: nat)
    requires forall i :: 0 <= i < |keys| ==> EntrySize(keys[i]) <= bound
    ensures TotalSize(keys) <= bound * |keys|
  {
    if keys != [] {
      SmallEntriesTotal(keys[1..], bound);
      assert bound * |keys| == bound + bound * |keys[1..]|;
    }
  }

  /** Entries within their share are never cut off, as long as there are no more than a full page has. */
  lemma NotFullNeverTruncated(keys: seq<IndexTuple>, size: nat)
    requires size >= HEADER && |keys| <= size / 64
    requires forall i :: 0 <= i < |keys| ==> EntrySize(keys[i]) <= MaxEntry(size)
    ensures FittingPrefix(keys, HEADER, size) == keys
  {
    SmallEntriesTotal(keys, MaxEntry(size));
    hide FittingPrefix, TotalSize, EntrySize;
    ShareBounds(size - HEADER, size / 64);
    ProductGrows(MaxEntry(size), |keys|, size / 64);
    FittingPrefixIsLongest(keys, HEADER, size);
    assert keys[..|keys|] == keys;
  }

  lemma {:induction false} LongEntriesTotal(keys: seq<IndexTuple>, bound: nat)
    requires forall i :: 0 <= i < |keys| ==> EntrySize(keys[i]) > bound
    ensures TotalSize(keys) >= (bound + 1) * |keys|
  {
    if keys != [] {
      LongEntriesTotal(keys[1..], bound);
      assert (bound + 1) * |keys| == bound + 1 + (bound + 1) * |keys[1..]|;
    }
  }

  /** The bound is exact for every page size: a full page of larger entries never fits. */
  lemma LongKeysNeverFit(keys: seq<IndexTuple>, size: nat)
    requires size >= HEADER && |keys| >= size / 64
    requires forall i :: 0 <= i < |keys| ==> EntrySize(keys[i]) > MaxEntry(size)
    ensures |FittingPrefix(keys, HEADER, size)| < |keys|
  {
    LongEntriesTotal(keys, MaxEntry(size));
    hide FittingPrefix, TotalSize, EntrySize;
    ShareBounds(size - HEADER, size / 64);
    ProductGrows(MaxEntry(size) + 1, size / 64, |keys|);
    FittingPrefixIsLongest(keys, HEADER, size);
  }
}
