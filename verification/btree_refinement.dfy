/** The stored tree, while it has at most two levels, is a map from keys to heap pointers. */
module BTreeRefinement {
  import opened Wrappers
  import opened Order
  import opened ByteCodec
  import opened PageStores
  import opened BTreePages
  import opened BTreeCodec
  import opened BTrees

  type Contents = map<Bytes, (nat, nat)>

  /** Page sizes that take two entries, and whose entries can be counted in two bytes. */
  predicate PageSize(size: nat) {
    128 <= size < 0x40_0000
  }

  /** Storable, and within an entry's share of the page: from 4096 bytes on, a key of up to 53 bytes. */
  predicate SmallEntry(t: IndexTuple, size: nat) {
    EntryStorable(t) && EntrySize(t) <= MaxEntry(size)
  }

  ghost predicate NodeKeys(keys: seq<IndexTuple>, size: nat) {
    && StrictlyAscending(keys) && |keys| <= size / 64
    && forall i :: 0 <= i < |keys| ==> SmallEntry(keys[i], size)
  }

  /** The keys are those of the map, with its heap pointers. */
  ghost predicate KeysAre(keys: seq<IndexTuple>, m: Contents) {
    && (forall i :: 0 <= i < |keys| ==> keys[i].key in m && m[keys[i].key] == (keys[i].page, keys[i].offset))
    && (forall k :: k in m ==> HasKey(keys, k))
  }

  // ---- reading what was written ---------------------------------------------

  lemma ReadOther(pages: Pages, id: nat, page: BTreePage, size: nat, other: nat)
    requires size >= HEADER && other != id
    ensures ReadTreePage(WriteTreePage(pages, id, page, size), other) == ReadTreePage(pages, other)
  {}

  /** A node of small keys comes back with the same keys, oids dropped. */
  lemma ReadWritten(pages: Pages, id: nat, page: BTreePage, size: nat)
    requires PageSize(size) && page.id == id && page.kind != Meta && NodeKeys(page.keys, size)
    requires page.level < 0x1_0000
    requires SiblingNumber(page.left) < 0x1_0000_0000 && SiblingNumber(page.right) < 0x1_0000_0000
    ensures var back := ReadTreePage(WriteTreePage(pages, id, page, size), id);
      back.id == id && back.kind == page.kind && back.level == page.level && back.keys == WithoutOids(page.keys)
      && SiblingNumber(back.left) == SiblingNumber(page.left) && SiblingNumber(back.right) == SiblingNumber(page.right)
  {
    hide EncodePage, DecodePage, StrictlyAscending, FittingPrefix;
    assert forall i :: 0 <= i < |page.keys| ==> SmallEntry(page.keys[i], size);
    NotFullNeverTruncated(page.keys, size);
    PageRoundTrip(page, size);
  }

  /** One insertion into a stored leaf of long keys that still has room for one: the leaf is not full,
      so it is not split, and what is written comes back without its last key. */
  lemma LongInsertIsCutOff(pages: Pages, page: BTreePage, t: IndexTuple, size: nat, ids: PageIds, used: nat, isRoot: bool)
    requires size >= HEADER && page.kind == Leaf && Storable(page)
    requires EntryStorable(t) && |page.keys| + 1 == size / 64 < 0x1_0000
    requires EntrySize(t) > MaxEntry(size)
    requires forall i :: 0 <= i < |page.keys| ==> EntrySize(page.keys[i]) > MaxEntry(size)
    ensures var o := InsertIntoLeaf(pages, page, t, size, ids, used, isRoot);
      var written := InsertSorted(page.keys, t);
      && o.newId.None? && o.used == used
      && |ReadTreePage(o.pages, page.id).keys| <= |page.keys|
      && ReadTreePage(o.pages, page.id).keys <= WithoutOids(written)
  {
    hide EncodePage, DecodePage, FittingPrefix, LowerBound, InsertedAt;
    var written := page.(keys := InsertSorted(page.keys, t));
    forall i | 0 <= i < |written.keys|
      ensures EntryStorable(written.keys[i]) && EntrySize(written.keys[i]) > MaxEntry(size)
    {
      InsertedElement(page.keys, LowerBound(page.keys, t.key), t, i);
    }
    LongKeysNeverFit(written.keys, size);
    FittingPrefixIsLongest(written.keys, HEADER, size);
    PageRoundTrip(written, size);
  }

  /** Before it, with entries one byte over their share, such a leaf was stored whole. */
  lemma LongKeysFitBefore(keys: seq<IndexTuple>, size: nat)
    requires size >= HEADER && |keys| + 1 == size / 64
    requires forall i :: 0 <= i < |keys| ==> EntrySize(keys[i]) == MaxEntry(size) + 1
    ensures FittingPrefix(keys, HEADER, size) == keys
  {
    MaxEntryIs(size);
    SmallEntriesTotal(keys, 64);
    FittingPrefixIsLongest(keys, HEADER, size);
  }

  lemma WithoutOidsSame(keys: seq<IndexTuple>, m: Contents, size: nat)
    ensures NodeKeys(WithoutOids(keys), size) <==> NodeKeys(keys, size)
    ensures KeysAre(WithoutOids(keys), m) <==> KeysAre(keys, m)
  {
    hide Less;
    var w := WithoutOids(keys);
    assert forall i :: 0 <= i < |keys| ==> w[i] == keys[i].(oid := 0);
    assert forall k :: HasKey(w, k) <==> HasKey(keys, k) by {
      forall k
        ensures HasKey(w, k) <==> HasKey(keys, k)
      {
        if HasKey(keys, k) {
          var i :| 0 <= i < |keys| && keys[i].key == k;
          assert w[i].key == k;
        }
      }
    }
    if NodeKeys(w, size) {
      forall i | 0 <= i < |keys|
        ensures SmallEntry(keys[i], size)
      {
        assert SmallEntry(w[i], size);
      }
      forall i, j | 0 <= i < j < |keys|
        ensures Less(keys[i].key, keys[j].key)
      {
        assert Less(w[i].key, w[j].key);
      }
    }
    if KeysAre(w, m) {
      forall i | 0 <= i < |keys|
        ensures keys[i].key in m && m[keys[i].key] == (keys[i].page, keys[i].offset)
      {
        assert w[i].key in m;
      }
    }
  }

  /** Entries read from storage carry no oid. */
  lemma {:induction false} DecodedOids(data: Bytes, pos: nat, count: nat)
    ensures forall i :: 0 <= i < |DecodeEntries(data, pos, count)| ==> DecodeEntries(data, pos, count)[i].oid == 0
    decreases count
  {
    hide FromLE;
    if count > 0 && pos + 10 <= |data| {
      var length := FromLE(data[pos..pos + 4]);
      if length != 0 && pos + 4 + length + 6 <= |data| {
        DecodedOids(data, pos + 4 + length + 6, count - 1);
      }
    }
  }

  lemma ReadOids(pages: Pages, id: nat)
    ensures forall i :: 0 <= i < |ReadTreePage(pages, id).keys| ==> ReadTreePage(pages, id).keys[i].oid == 0
  {
    hide DecodeEntries, FromLE;
    var data := PageBytes(pages, id);
    if |data| >= 16 {
      DecodedOids(data, HEADER, FromLE(data[3..5]));
    }
  }

  // ---- the two shapes of a tree ---------------------------------------------

  ghost predicate LeafAt(pages: Pages, id: nat, size: nat) {
    var page := ReadTreePage(pages, id);
    && page.kind == Leaf && page.level == 0 && NodeKeys(page.keys, size)
    && SiblingNumber(page.left) < 0x1_0000_0000 && SiblingNumber(page.right) < 0x1_0000_0000
  }

  ghost predicate OneLeaf(pages: Pages, root: nat, m: Contents, size: nat) {
    LeafAt(pages, root, size) && KeysAre(ReadTreePage(pages, root).keys, m)
  }

  /** The part of the map below the separator, and the rest. */
  ghost function PartBelow(m: Contents, sep: Bytes): Contents {
    map k | k in m && Less(k, sep) :: m[k]
  }

  ghost function PartFrom(m: Contents, sep: Bytes): Contents {
    map k | k in m && !Less(k, sep) :: m[k]
  }

  /** A root whose two entries carry the same key, over two leaves split at that key. */
  ghost predicate RootOverTwo(page: BTreePage, sep: Bytes, l: nat, r: nat) {
    && page.kind == Root && page.level == 1 && page.left == None && page.right == None
    && page.keys == [IndexTuple(sep, l, 0, 0), IndexTuple(sep, r, 0, 0)]
    && 0 < |sep| < 0x1_0000_0000 && l < 0x1_0000_0000 && r < 0x1_0000_0000
  }

  ghost predicate TwoLevels(pages: Pages, root: nat, sep: Bytes, l: nat, r: nat, m: Contents, size: nat) {
    && root != l && root != r && l != r && 10 + |sep| <= MaxEntry(size)
    && RootOverTwo(ReadTreePage(pages, root), sep, l, r)
    && LeafAt(pages, l, size) && LeafAt(pages, r, size)
    && KeysAre(ReadTreePage(pages, l).keys, PartBelow(m, sep))
    && KeysAre(ReadTreePage(pages, r).keys, PartFrom(m, sep))
  }

  /** A page never written, or all zero, reads as an empty leaf. */
  lemma ZeroPageIsEmptyLeaf(pages: Pages, root: nat, size: nat)
    requires root !in pages || (|pages[root]| >= 16 && pages[root] == Zeros(|pages[root]|))
    ensures OneLeaf(pages, root, map[], size)
  {
    var data := PageBytes(pages, root);
    assert data[1..3] == [0, 0] && data[3..5] == [0, 0];
    assert data[8..12] == [0, 0, 0, 0] && data[12..16] == [0, 0, 0, 0];
    ZerosAreZero();
  }

  lemma ZerosAreZero()
    ensures FromLE([0, 0]) == 0 && FromLE([0, 0, 0, 0]) == 0
  {
    assert [0, 0][1..] == [0] && [0][1..] == [];
    assert [0, 0, 0, 0][1..] == [0, 0, 0] && [0, 0, 0][1..] == [0, 0];
    assert FromLE([]) == 0 && FromLE([0]) == 0 && FromLE([0, 0]) == 0 && FromLE([0, 0, 0]) == 0;
  }

  // ---- searching ------------------------------------------------------------

  lemma {:induction false} MatchingNone(keys: seq<IndexTuple>, key: Bytes)
    requires !HasKey(keys, key)
    ensures Matching(keys, key) == []
  {
    if keys != [] {
      assert keys[|keys| - 1].key != key;
      var shorter := keys[..|keys| - 1];
      assert forall i :: 0 <= i < |shorter| ==> shorter[i] == keys[i];
      MatchingNone(shorter, key);
    }
  }

  lemma {:induction false} MatchingOne(keys: seq<IndexTuple>, key: Bytes, i: nat)
    requires StrictlyAscending(keys) && i < |keys| && keys[i].key == key
    ensures Matching(keys, key) == [keys[i]]
  {
    hide Less;
    var n := |keys| - 1;
    var shorter := keys[..n];
    if i == n {
      forall j | 0 <= j < n
        ensures shorter[j].key != key
      {
        Trichotomy(keys[j].key, keys[n].key);
      }
      MatchingNone(shorter, key);
    } else {
      Trichotomy(keys[i].key, keys[n].key);
      MatchingOne(shorter, key, i);
    }
  }

  /** The answer the map gives. */
  function Answer(m: Contents, key: Bytes): seq<IndexTuple> {
    if key in m then [IndexTuple(key, m[key].0, m[key].1, 0)] else []
  }

  lemma LeafAnswers(keys: seq<IndexTuple>, m: Contents, size: nat, key: Bytes)
    requires NodeKeys(keys, size) && KeysAre(keys, m)
    requires forall i :: 0 <= i < |keys| ==> keys[i].oid == 0
    ensures Matching(keys, key) == Answer(m, key)
  {
    hide Less, Matching;
    if key in m {
      assert HasKey(keys, key);
      var i :| 0 <= i < |keys| && keys[i].key == key;
      MatchingOne(keys, key, i);
    } else {
      MatchingNone(keys, key);
    }
  }

  lemma SearchOneLeaf(pages: Pages, root: nat, m: Contents, size: nat, key: Bytes, depth: nat)
    requires OneLeaf(pages, root, m, size)
    ensures Search(pages, root, key, depth) == Some(Answer(m, key))
  {
    hide ReadTreePage, Matching, NodeKeys, KeysAre;
    ReadOids(pages, root);
    LeafAnswers(ReadTreePage(pages, root).keys, m, size, key);
  }

  /** The root sends keys below the separator left and all others right. */
  lemma RootDescends(page: BTreePage, sep: Bytes, l: nat, r: nat, key: Bytes)
    requires RootOverTwo(page, sep, l, r)
    ensures FindChild(page, key) == if Less(key, sep) then l else r
  {
    hide Less;
    assert page.keys[1..][1..] == [];
    assert page.keys[1..][0].key == sep;
    assert LeadingAtMost(page.keys[1..], key) == if Less(key, sep) then 0 else 1 + LeadingAtMost([], key);
  }

  lemma SearchTwoLevels(pages: Pages, root: nat, sep: Bytes, l: nat, r: nat, m: Contents, size: nat, key: Bytes, depth: nat)
    requires TwoLevels(pages, root, sep, l, r, m, size) && depth >= 1
    ensures Search(pages, root, key, depth) == Some(Answer(m, key))
  {
    hide ReadTreePage, Matching, NodeKeys, KeysAre, Less, FindChild;
    RootDescends(ReadTreePage(pages, root), sep, l, r, key);
    if Less(key, sep) {
      SearchOneLeaf(pages, l, PartBelow(m, sep), size, key, depth - 1);
    } else {
      SearchOneLeaf(pages, r, PartFrom(m, sep), size, key, depth - 1);
    }
  }

  // ---- inserting into a leaf ------------------------------------------------

  lemma InsertKeys(keys: seq<IndexTuple>, m: Contents, size: nat, t: IndexTuple)
    requires NodeKeys(keys, size) && KeysAre(keys, m) && SmallEntry(t, size) && t.key !in m && |keys| < size / 64
    ensures NodeKeys(InsertSorted(keys, t), size) && |InsertSorted(keys, t)| == |keys| + 1
    ensures KeysAre(InsertSorted(keys, t), m[t.key := (t.page, t.offset)])
  {
    hide Less, LowerBound, SmallEntry, StrictlyAscending, KeysAre;
    assert !HasKey(keys, t.key) by {
      NotInMap(keys, m, t.key);
    }
    InsertSortedStrict(keys, t);
    InsertKeysAre(keys, m, t);
    var p, r := LowerBound(keys, t.key), InsertSorted(keys, t);
    assert forall i :: 0 <= i < |r| ==> r[i] == if i < p then keys[i] else if i == p then t else keys[i - 1];
  }

  lemma NotInMap(keys: seq<IndexTuple>, m: Contents, key: Bytes)
    requires KeysAre(keys, m) && key !in m
    ensures !HasKey(keys, key)
  {}

  lemma InsertKeysAre(keys: seq<IndexTuple>, m: Contents, t: IndexTuple)
    requires KeysAre(keys, m) && t.key !in m
    ensures KeysAre(InsertSorted(keys, t), m[t.key := (t.page, t.offset)])
  {
    hide LowerBound;
    var p, r, m' := LowerBound(keys, t.key), InsertSorted(keys, t), m[t.key := (t.page, t.offset)];
    assert forall i :: 0 <= i < |r| ==> r[i] == if i < p then keys[i] else if i == p then t else keys[i - 1];
    forall k | k in m'
      ensures HasKey(r, k)
    {
      if k == t.key {
        assert r[p].key == k;
      } else {
        assert HasKey(keys, k);
        var i :| 0 <= i < |keys| && keys[i].key == k;
        assert r[if i < p then i else i + 1].key == k;
      }
    }
  }

  lemma LeafWritten(pages: Pages, page: BTreePage, size: nat, m: Contents)
    requires PageSize(size) && page.kind == Leaf && page.level == 0 && NodeKeys(page.keys, size) && KeysAre(page.keys, m)
    requires SiblingNumber(page.left) < 0x1_0000_0000 && SiblingNumber(page.right) < 0x1_0000_0000
    ensures OneLeaf(WriteTreePage(pages, page.id, page, size), page.id, m, size)
    ensures |ReadTreePage(WriteTreePage(pages, page.id, page, size), page.id).keys| == |page.keys|
  {
    hide NodeKeys, KeysAre, ReadTreePage, WriteTreePage;
    ReadWritten(pages, page.id, page, size);
    WithoutOidsSame(page.keys, m, size);
  }

  lemma ReadId(pages: Pages, id: nat)
    ensures ReadTreePage(pages, id).id == id
  {}

  /** Insertion into a leaf with room, which then holds one entry more. */
  lemma InsertWithRoom(pages: Pages, id: nat, m: Contents, size: nat, t: IndexTuple, ids: PageIds, used: nat, isRoot: bool, depth: nat)
    requires PageSize(size) && OneLeaf(pages, id, m, size) && SmallEntry(t, size) && t.key !in m
    requires !IsFull(ReadTreePage(pages, id), size)
    ensures var o := Insert(pages, id, t, size, ids, used, isRoot, depth);
      && o.Some? && o.value.newId.None? && o.value.used == used
      && OneLeaf(o.value.pages, id, m[t.key := (t.page, t.offset)], size)
      && |ReadTreePage(o.value.pages, id).keys| == |ReadTreePage(pages, id).keys| + 1
      && (forall other :: other != id ==> ReadTreePage(o.value.pages, other) == ReadTreePage(pages, other))
  {
    hide ReadTreePage, NodeKeys, KeysAre, WriteTreePage, InsertSorted;
    var page := ReadTreePage(pages, id);
    ReadId(pages, id);
    InsertKeys(page.keys, m, size, t);
    var page' := page.(keys := InsertSorted(page.keys, t));
    LeafWritten(pages, page', size, m[t.key := (t.page, t.offset)]);
    assert page.(kind := Leaf) == page;
    forall other | other != id
      ensures ReadTreePage(WriteTreePage(pages, id, page', size), other) == ReadTreePage(pages, other)
    {
      ReadOther(pages, id, page', size, other);
    }
  }

  // ---- splitting the root leaf ----------------------------------------------

  lemma HalfKeys(keys: seq<IndexTuple>, m: Contents, size: nat, at: nat)
    requires NodeKeys(keys, size) && KeysAre(keys, m) && at < |keys|
    ensures NodeKeys(keys[..at], size) && NodeKeys(keys[at..], size)
    ensures KeysAre(keys[..at], PartBelow(m, keys[at].key)) && KeysAre(keys[at..], PartFrom(m, keys[at].key))
  {
    hide Less, SmallEntry;
    forall i | 0 <= i < |keys|
      ensures Less(keys[i].key, keys[at].key) <==> i < at
    {
      Trichotomy(keys[i].key, keys[at].key);
      if i > at {
        assert Less(keys[at].key, keys[i].key);
      }
    }
    HalvesAre(keys, m, at);
  }

  lemma HalvesAre(keys: seq<IndexTuple>, m: Contents, at: nat)
    requires KeysAre(keys, m) && at < |keys|
    requires forall i :: 0 <= i < |keys| ==> (Less(keys[i].key, keys[at].key) <==> i < at)
    ensures KeysAre(keys[..at], PartBelow(m, keys[at].key)) && KeysAre(keys[at..], PartFrom(m, keys[at].key))
  {
    hide Less;
    var sep := keys[at].key;
    forall k | k in m
      ensures if Less(k, sep) then HasKey(keys[..at], k) else HasKey(keys[at..], k)
    {
      assert HasKey(keys, k);
      var i :| 0 <= i < |keys| && keys[i].key == k;
      if i < at {
        assert keys[..at][i].key == k;
      } else {
        assert keys[at..][i - at].key == k;
      }
    }
  }

  lemma PartsAfterInsert(m: Contents, sep: Bytes, key: Bytes, v: (nat, nat))
    ensures PartBelow(m[key := v], sep) == if Less(key, sep) then PartBelow(m, sep)[key := v] else PartBelow(m, sep)
    ensures PartFrom(m[key := v], sep) == if Less(key, sep) then PartFrom(m, sep) else PartFrom(m, sep)[key := v]
  {
    hide Less;
  }

  /** Splitting a full leaf and inserting puts each key on its side of the right half's first key. */
  lemma SplitLeafKeys(page: BTreePage, m: Contents, size: nat, t: IndexTuple, rightId: nat)
    requires PageSize(size) && NodeKeys(page.keys, size) && KeysAre(page.keys, m) && SmallEntry(t, size) && t.key !in m
    requires IsFull(page, size)
    ensures var h := SplitLeaf(page, t, rightId); var m' := m[t.key := (t.page, t.offset)];
      && h.right.keys != [] && SmallEntry(h.right.keys[0], size)
      && NodeKeys(h.left.keys, size) && NodeKeys(h.right.keys, size)
      && KeysAre(h.left.keys, PartBelow(m', h.right.keys[0].key))
      && KeysAre(h.right.keys, PartFrom(m', h.right.keys[0].key))
      && h.left == page.(keys := h.left.keys)
      && h.right == BTreePage(page.kind, rightId, page.level, h.right.keys, Some(page.id), None)
  {
    hide Less, NodeKeys, KeysAre, SmallEntry, InsertSorted;
    var at := |page.keys| / 2;
    NodeSize(page.keys, size);
    HalfKeys(page.keys, m, size, at);
    var first := page.keys[at];
    KeyInMap(page.keys, m, at);
    PartsAfterInsert(m, first.key, t.key, (t.page, t.offset));
    var h := SplitLeaf(page, t, rightId);
    if Less(t.key, first.key) {
      InsertKeys(page.keys[..at], PartBelow(m, first.key), size, t);
      FirstIsSmall(page.keys[at..], size);
    } else {
      InsertKeys(page.keys[at..], PartFrom(m, first.key), size, t);
      InsertKeepsFirst(page.keys[at..], t);
      FirstIsSmall(h.right.keys, size);
    }
  }

  lemma KeyInMap(keys: seq<IndexTuple>, m: Contents, i: nat)
    requires KeysAre(keys, m) && i < |keys|
    ensures keys[i].key in m
  {}

  lemma NodeSize(keys: seq<IndexTuple>, size: nat)
    requires NodeKeys(keys, size)
    ensures |keys| <= size / 64
  {}

  lemma FirstIsSmall(keys: seq<IndexTuple>, size: nat)
    requires NodeKeys(keys, size) && keys != []
    ensures SmallEntry(keys[0], size)
  {}

  /** A key not below the first one is inserted after it. */
  lemma InsertKeepsFirst(keys: seq<IndexTuple>, t: IndexTuple)
    requires keys != [] && !Less(t.key, keys[0].key) && t.key != keys[0].key
    ensures InsertSorted(keys, t) != [] && InsertSorted(keys, t)[0] == keys[0]
  {
    hide Less;
    Trichotomy(t.key, keys[0].key);
  }

  /** The new root's two entries come back pointing at the two halves. */
  lemma RootWritten(pages: Pages, id: nat, separator: IndexTuple, l: nat, r: nat, size: nat)
    requires PageSize(size) && SmallEntry(separator, size) && l < 0x1_0000_0000 && r < 0x1_0000_0000
    ensures RootOverTwo(ReadTreePage(WriteTreePage(pages, id, RootOver(id, 1, separator, l, r), size), id), separator.key, l, r)
    ensures 10 + |separator.key| <= MaxEntry(size)
  {
    hide EncodePage, DecodePage, FittingPrefix;
    var page := RootOver(id, 1, separator, l, r);
    NotFullNeverTruncated(page.keys, size);
    PageRoundTrip(page, size);
  }

  ghost predicate SplitInTwo(o: Outcome, l: nat, r: nat, m: Contents, size: nat) {
    o.newId.Some? && exists sep :: TwoLevels(o.pages, o.newId.value, sep, l, r, m, size)
  }

  /** Insertion into a full root leaf: two leaves under a new root. */
  lemma {:induction false} InsertSplits(pages: Pages, root: nat, m: Contents, size: nat, t: IndexTuple, ids: PageIds, used: nat, depth: nat)
    requires PageSize(size) && OneLeaf(pages, root, m, size) && SmallEntry(t, size) && t.key !in m
    requires IsFull(ReadTreePage(pages, root), size) && root < 0x1_0000_0000
    requires ids(used) != root && ids(used + 1) != root && ids(used) != ids(used + 1)
    requires ids(used) < 0x1_0000_0000 && ids(used + 1) < 0x1_0000_0000
    ensures var o := Insert(pages, root, t, size, ids, used, true, depth);
      && o.Some? && o.value.newId == Some(ids(used + 1)) && o.value.used == used + 2
      && SplitInTwo(o.value, root, ids(used), m[t.key := (t.page, t.offset)], size)
  {
    hide ReadTreePage, NodeKeys, KeysAre, WriteTreePage, InsertSorted, SplitLeaf, RootOver, Less, SmallEntry;
    var page := ReadTreePage(pages, root);
    ReadId(pages, root);
    var rightId, rootId, m' := ids(used), ids(used + 1), m[t.key := (t.page, t.offset)];
    SplitLeafKeys(page, m, size, t, rightId);
    var h := SplitLeaf(page, t, rightId);
    var sep := h.right.keys[0];
    assert page.keys != [] && page.(kind := Leaf) == page;
    var p1 := WriteTreePage(pages, root, h.left, size);
    var p2 := WriteTreePage(p1, rightId, h.right, size);
    var p3 := WriteTreePage(p2, rootId, RootOver(rootId, 1, sep, root, rightId), size);
    LeafWritten(pages, h.left, size, PartBelow(m', sep.key));
    LeafWritten(p1, h.right, size, PartFrom(m', sep.key));
    ReadOther(p1, rightId, h.right, size, root);
    ReadOther(p2, rootId, RootOver(rootId, 1, sep, root, rightId), size, root);
    ReadOther(p2, rootId, RootOver(rootId, 1, sep, root, rightId), size, rightId);
    RootWritten(p2, rootId, sep, root, rightId, size);
    assert TwoLevels(p3, rootId, sep.key, root, rightId, m', size);
  }

  lemma RootRewritten(pages: Pages, page: BTreePage, sep: Bytes, l: nat, r: nat, size: nat)
    requires PageSize(size) && RootOverTwo(page, sep, l, r) && 10 + |sep| <= MaxEntry(size)
    ensures RootOverTwo(ReadTreePage(WriteTreePage(pages, page.id, page, size), page.id), sep, l, r)
  {
    hide EncodePage, DecodePage, FittingPrefix;
    NotFullNeverTruncated(page.keys, size);
    PageRoundTrip(page, size);
  }

  /** Insertion below an existing root, where the leaf reached has room. */
  lemma {:induction false} InsertBelowRoot(pages: Pages, root: nat, sep: Bytes, l: nat, r: nat, m: Contents, size: nat, t: IndexTuple,
                        ids: PageIds, used: nat, depth: nat)
    requires PageSize(size) && TwoLevels(pages, root, sep, l, r, m, size) && SmallEntry(t, size) && t.key !in m && depth >= 1
    requires !IsFull(ReadTreePage(pages, FindChild(ReadTreePage(pages, root), t.key)), size)
    ensures var o := Insert(pages, root, t, size, ids, used, true, depth);
      && o.Some? && o.value.newId.None? && o.value.used == used
      && TwoLevels(o.value.pages, root, sep, l, r, m[t.key := (t.page, t.offset)], size)
  {
    hide ReadTreePage, NodeKeys, KeysAre, WriteTreePage, InsertSorted, SplitLeaf, RootOver, Less, SmallEntry, FindChild;
    RootDescends(ReadTreePage(pages, root), sep, l, r, t.key);
    PartsAfterInsert(m, sep, t.key, (t.page, t.offset));
    if Less(t.key, sep) {
      InsertWithRoom(pages, l, PartBelow(m, sep), size, t, ids, used, false, depth - 1);
    } else {
      InsertWithRoom(pages, r, PartFrom(m, sep), size, t, ids, used, false, depth - 1);
    }
  }

  // ---- splitting a leaf below the root --------------------------------------

  /** The keys of the left half are all below those of the right half. */
  lemma FirstKeyStaysLeft(page: BTreePage, m: Contents, size: nat, t: IndexTuple, rightId: nat)
    requires PageSize(size) && NodeKeys(page.keys, size) && KeysAre(page.keys, m) && SmallEntry(t, size) && t.key !in m
    requires IsFull(page, size)
    ensures page.keys != [] && page.keys[0].key in m
    ensures !HasKey(SplitLeaf(page, t, rightId).right.keys, page.keys[0].key)
  {
    hide Less, NodeKeys, KeysAre, SmallEntry, InsertSorted;
    var at := |page.keys| / 2;
    NodeSize(page.keys, size);
    SplitLeafKeys(page, m, size, t, rightId);
    var h := SplitLeaf(page, t, rightId);
    var (lost, first) := (page.keys[0].key, page.keys[at]);
    KeyInMap(page.keys, m, 0);
    FirstIsBelow(page.keys, size, at);
    if !Less(t.key, first.key) {
      KeyInMap(page.keys, m, at);
      InsertKeepsFirst(page.keys[at..], t);
    }
    assert h.right.keys[0] == first;
    NotInMap(h.right.keys, PartFrom(m[t.key := (t.page, t.offset)], first.key), lost);
  }

  lemma FirstIsBelow(keys: seq<IndexTuple>, size: nat, at: nat)
    requires NodeKeys(keys, size) && 0 < at < |keys|
    ensures Less(keys[0].key, keys[at].key)
  {}

  /** A leaf below a root with room is full when it is inserted into: the root's entry for it is
      overwritten with the right half, so the left half is cut off, and the leaf's first key can no
      longer be found. */
  lemma {:induction false} FullLeafCutOff(pages: Pages, root: nat, sep: Bytes, l: nat, r: nat, m: Contents, size: nat, t: IndexTuple,
                         ids: PageIds, used: nat, depth: nat) returns (lost: Bytes)
    requires PageSize(size) && TwoLevels(pages, root, sep, l, r, m, size) && SmallEntry(t, size) && t.key !in m && depth >= 1
    requires IsFull(ReadTreePage(pages, FindChild(ReadTreePage(pages, root), t.key)), size) && size >= 192
    requires ids(used) != root && ids(used) != l && ids(used) != r && ids(used) < 0x1_0000_0000
    ensures var o := Insert(pages, root, t, size, ids, used, true, depth);
      && o.Some? && o.value.newId.None? && lost in m && Search(o.value.pages, root, lost, depth) == Some([])
  {
    hide ReadTreePage, NodeKeys, KeysAre, WriteTreePage, InsertSorted, SplitLeaf, Less, SmallEntry, FindChild, HasKey;
    var top := ReadTreePage(pages, root);
    RootDescends(top, sep, l, r, t.key);
    var child, rightId := FindChild(top, t.key), ids(used);
    var part := if Less(t.key, sep) then PartBelow(m, sep) else PartFrom(m, sep);
    var page := ReadTreePage(pages, child);
    ReadId(pages, child);
    ReadId(pages, root);
    FirstKeyStaysLeft(page, part, size, t, rightId);
    SplitLeafKeys(page, part, size, t, rightId);
    lost := page.keys[0].key;
    var h := SplitLeaf(page, t, rightId);
    assert page.(kind := Leaf) == page;
    var p1 := WriteTreePage(pages, child, h.left, size);
    var p2 := WriteTreePage(p1, rightId, h.right, size);
    assert Insert(pages, child, t, size, ids, used, false, depth - 1) == Some(Outcome(p2, used + 1, Some(rightId)));
    ReadOther(pages, child, h.left, size, root);
    ReadOther(p1, rightId, h.right, size, root);
    var (l', r') := (if child == l then rightId else l, if child == l then r else rightId);
    var updated := top.(keys := Repoint(top.keys, child, rightId));
    RepointedRoot(top, sep, l, r, child, rightId);
    var p3 := WriteTreePage(p2, root, updated, size);
    assert Insert(pages, root, t, size, ids, used, true, depth) == Some(Outcome(p3, used + 1, None));
    RootRewritten(p2, updated, sep, l', r', size);
    RootDescends(ReadTreePage(p3, root), sep, l', r', lost);
    ReadOther(p2, root, updated, size, rightId);
    LeafWritten(p1, h.right, size, PartFrom(part[t.key := (t.page, t.offset)], h.right.keys[0].key));
    CutOff(p1, p3, h.right, lost, depth - 1, size);
  }

  lemma RepointedRoot(top: BTreePage, sep: Bytes, l: nat, r: nat, child: nat, rightId: nat)
    requires RootOverTwo(top, sep, l, r) && l != r && (child == l || child == r) && rightId < 0x1_0000_0000
    ensures RootOverTwo(top.(keys := Repoint(top.keys, child, rightId)), sep,
      if child == l then rightId else l, if child == l then r else rightId)
  {
    assert top.keys[1..] == [top.keys[1]];
    assert Repoint(top.keys[1..], child, rightId) == if child == r then [IndexTuple(sep, rightId, 0, 0)] else [top.keys[1]];
  }

  /** Searching the right half, once written, for a key it does not have finds nothing. */
  lemma {:induction false} CutOff(older: Pages, pages: Pages, page: BTreePage, lost: Bytes, depth: nat, size: nat)
    requires PageSize(size) && page.kind == Leaf && page.level == 0 && NodeKeys(page.keys, size)
    requires SiblingNumber(page.left) < 0x1_0000_0000 && SiblingNumber(page.right) < 0x1_0000_0000
    requires ReadTreePage(pages, page.id) == ReadTreePage(WriteTreePage(older, page.id, page, size), page.id)
    requires !HasKey(page.keys, lost)
    ensures Search(pages, page.id, lost, depth) == Some([])
  {
    hide ReadTreePage, WriteTreePage, NodeKeys, Matching;
    ReadWritten(older, page.id, page, size);
    assert !HasKey(WithoutOids(page.keys), lost);
    MatchingNone(WithoutOids(page.keys), lost);
  }
}
