/** What the split of a full inner page does to the tree (src/btree/insert.rs). */
module BTreeSplits {
  import opened Wrappers
  import opened ByteCodec
  import opened Order
  import opened BTreePages
  import opened BTreeCodec
  import opened BTrees
  import opened BTreeRefinement

  /** The page's own entries fit, and two copies of its middle one, with fields that fit their widths. */
  predicate FittingPage(page: BTreePage, size: nat) {
    && Storable(page) && page.level + 1 < 0x1_0000 && HEADER + TotalSize(page.keys) <= size
    && (page.keys != [] ==> HEADER + 2 * EntrySize(page.keys[Middle(page)]) <= size)
  }

  /** The numbers of the page and of the two new pages. */
  predicate DistinctPages(id: nat, rightId: nat, rootId: nat) {
    id != rightId && id != rootId && rightId != rootId && id < 0x1_0000_0000 && rightId < 0x1_0000_0000
  }

  function Middle(page: BTreePage): nat {
    |page.keys| / 2
  }

  lemma ReadBack(pages: Pages, page: BTreePage, size: nat)
    requires size >= HEADER && page.kind != Meta && Storable(page) && HEADER + TotalSize(page.keys) <= size
    ensures var back := ReadTreePage(WriteTreePage(pages, page.id, page, size), page.id);
      back.kind == page.kind && back.level == page.level && back.keys == WithoutOids(page.keys)
  {
    hide EncodePage, DecodePage, FittingPrefix, TotalSize;
    FittingPrefixIsLongest(page.keys, HEADER, size);
    assert page.keys[..|page.keys|] == page.keys;
    PageRoundTrip(page, size);
  }

  lemma {:induction false} TotalSizeSplits(keys: seq<IndexTuple>, at: nat)
    requires at <= |keys|
    ensures TotalSize(keys) == TotalSize(keys[..at]) + TotalSize(keys[at..])
    decreases at
  {
    if at > 0 {
      TotalSizeSplits(keys[1..], at - 1);
      assert keys[..at][1..] == keys[1..][..at - 1] && keys[1..][at - 1..] == keys[at..];
    } else {
      assert keys[at..] == keys;
    }
  }

  lemma PairSize(a: IndexTuple, b: IndexTuple)
    ensures TotalSize([a, b]) == EntrySize(a) + EntrySize(b)
  {
    assert [a, b][1..] == [b] && [b][1..] == [];
    assert TotalSize([b]) == EntrySize(b) + TotalSize([]);
  }

  lemma TotalSizeOfFirst(keys: seq<IndexTuple>, first: IndexTuple)
    requires keys != [] && first.key == keys[0].key
    ensures TotalSize([first] + keys[1..]) == TotalSize(keys)
  {
    assert ([first] + keys[1..])[1..] == keys[1..];
  }

  /** Read back from storage: the halves hold the page's entries in order, the right half's first one
      now points to the child that was split below, and the new root separates the halves by its key. */
  lemma SplitPages(pages: Pages, page: BTreePage, child: nat, size: nat, ids: PageIds, used: nat)
    requires size >= HEADER && FittingPage(page, size) && page.keys != [] && child < 0x1_0000_0000
    requires DistinctPages(page.id, ids(used), ids(used + 1))
    ensures var o := SplitInternal(pages, page, child, size, ids, used);
      var at := Middle(page);
      var (left, right) := (ReadTreePage(o.pages, page.id), ReadTreePage(o.pages, ids(used)));
      var root := ReadTreePage(o.pages, ids(used + 1));
      var sep := page.keys[at].key;
      && left.kind == Internal && left.keys == WithoutOids(page.keys[..at])
      && right.kind == Internal && right.keys == WithoutOids(page.keys[at..])[0 := IndexTuple(sep, child, 0, 0)]
      && root.kind == Root && root.level == page.level + 1
      && root.keys == [IndexTuple(sep, page.id, 0, 0), IndexTuple(sep, ids(used), 0, 0)]
  {
    hide ReadTreePage, WriteTreePage, TotalSize;
    var at, rightId, rootId := Middle(page), ids(used), ids(used + 1);
    var h := SplitPage(page, rightId);
    var left := h.left.(kind := Internal);
    var first := h.right.keys[0].(page := child, offset := 0);
    var right := h.right.(kind := Internal, left := Some(page.id), keys := [first] + h.right.keys[1..]);
    var top := RootOver(rootId, page.level + 1, first, page.id, rightId);
    var p1 := WriteTreePage(pages, page.id, left, size);
    var p2 := WriteTreePage(p1, rightId, right, size);
    TotalSizeSplits(page.keys, at);
    assert TotalSize(right.keys) == TotalSize(page.keys[at..]) by {
      TotalSizeOfFirst(page.keys[at..], first);
    }
    PairSize(top.keys[0], top.keys[1]);
    ReadBack(pages, left, size);
    ReadBack(p1, right, size);
    ReadBack(p2, top, size);
    ReadOther(p1, rightId, right, size, page.id);
    ReadOther(p2, rootId, top, size, page.id);
    ReadOther(p2, rootId, top, size, rightId);
    assert page.keys[at..][0] == page.keys[at];
    assert right.keys == page.keys[at..][0 := first];
  }

  // ---- where keys are sent ---------------------------------------------------

  /** The entry that a key follows. */
  function SlotOf(keys: seq<IndexTuple>, key: Bytes): nat {
    var n := LeadingAtMost(keys, key);
    if n == 0 then 0 else n - 1
  }

  lemma {:induction false} LeadingPrefix(keys: seq<IndexTuple>, key: Bytes, n: nat)
    requires n <= |keys| && (forall i :: 0 <= i < n ==> !Less(key, keys[i].key)) && (n < |keys| ==> Less(key, keys[n].key))
    ensures LeadingAtMost(keys, key) == n
    decreases n
  {
    hide Less;
    if n > 0 {
      LeadingPrefix(keys[1..], key, n - 1);
    }
  }

  lemma {:induction false} LeadingBounds(keys: seq<IndexTuple>, key: Bytes)
    ensures forall i :: 0 <= i < LeadingAtMost(keys, key) ==> !Less(key, keys[i].key)
    ensures LeadingAtMost(keys, key) < |keys| ==> Less(key, keys[LeadingAtMost(keys, key)].key)
    decreases |keys|
  {
    hide Less;
    if keys != [] && !Less(key, keys[0].key) {
      LeadingBounds(keys[1..], key);
    }
  }

  /** A key goes left of an entry exactly when it is below it. */
  lemma LeadingSplits(keys: seq<IndexTuple>, key: Bytes, at: nat)
    requires Ascending(keys) && at < |keys|
    ensures Less(key, keys[at].key) <==> LeadingAtMost(keys, key) <= at
  {
    hide Less;
    var n := LeadingAtMost(keys, key);
    LeadingBounds(keys, key);
    if n < at && keys[n].key != keys[at].key {
      Transitive(key, keys[n].key, keys[at].key);
    }
  }

  lemma LeadingHalves(keys: seq<IndexTuple>, key: Bytes, at: nat)
    requires Ascending(keys) && at < |keys|
    ensures var n := LeadingAtMost(keys, key);
      && (n <= at ==> LeadingAtMost(keys[..at], key) == n)
      && (n > at ==> LeadingAtMost(keys[at..], key) == n - at)
  {
    hide Less;
    var n := LeadingAtMost(keys, key);
    LeadingBounds(keys, key);
    if n <= at {
      LeadingPrefix(keys[..at], key, n);
    } else {
      LeadingPrefix(keys[at..], key, n - at);
    }
  }

  /** Only the keys count. */
  lemma {:induction false} LeadingSameKeys(a: seq<IndexTuple>, b: seq<IndexTuple>, key: Bytes)
    requires |a| == |b| && forall i :: 0 <= i < |a| ==> a[i].key == b[i].key
    ensures LeadingAtMost(a, key) == LeadingAtMost(b, key)
    decreases |a|
  {
    hide Less;
    LeadingBounds(a, key);
    LeadingPrefix(b, key, LeadingAtMost(a, key));
  }

  /** Two steps down from the new root. */
  function DescendTwo(pages: Pages, root: nat, key: Bytes): nat {
    FindChild(ReadTreePage(pages, FindChild(ReadTreePage(pages, root), key)), key)
  }

  /** From the new root every key still reaches the child it reached from the page before the split,
      except those that followed the middle entry: they now reach the new child. Of a page with a single
      entry the left half is empty, and keys below that entry end at it. */
  lemma SplitRoutes(pages: Pages, page: BTreePage, child: nat, size: nat, ids: PageIds, used: nat, key: Bytes)
    requires size >= HEADER && FittingPage(page, size) && page.keys != [] && Ascending(page.keys)
    requires child < 0x1_0000_0000 && DistinctPages(page.id, ids(used), ids(used + 1))
    ensures var o := SplitInternal(pages, page, child, size, ids, used);
      DescendTwo(o.pages, ids(used + 1), key) ==
        if |page.keys| == 1 && Less(key, page.keys[0].key) then page.id
        else if SlotOf(page.keys, key) == Middle(page) then child
        else FindChild(page, key)
  {
    hide ReadTreePage, WriteTreePage, SplitInternal, Less, LeadingAtMost, Ascending, FittingPage;
    SplitPages(pages, page, child, size, ids, used);
    var at := Middle(page);
    var o := SplitInternal(pages, page, child, size, ids, used);
    var (left, right) := (ReadTreePage(o.pages, page.id), ReadTreePage(o.pages, ids(used)));
    var root := ReadTreePage(o.pages, ids(used + 1));
    var sep := page.keys[at].key;
    TwoEntries(root.keys, sep, key);
    LeadingSplits(page.keys, key, at);
    LeadingHalves(page.keys, key, at);
    if Less(key, sep) {
      ReadId(o.pages, page.id);
      LeadingSameKeys(left.keys, page.keys[..at], key);
      assert at == 0 ==> left.keys == [];
    } else {
      LeadingSameKeys(right.keys, page.keys[at..], key);
    }
  }

  lemma TwoEntries(keys: seq<IndexTuple>, sep: Bytes, key: Bytes)
    requires |keys| == 2 && keys[0].key == sep && keys[1].key == sep
    ensures LeadingAtMost(keys, key) == if Less(key, sep) then 0 else 2
  {
    hide Less;
    LeadingPrefix(keys, key, if Less(key, sep) then 0 else 2);
  }

  /** So no key reaches the child the middle entry pointed to any more, unless another entry points to it. */
  lemma SplitCutsMiddleChild(pages: Pages, page: BTreePage, child: nat, size: nat, ids: PageIds, used: nat, key: Bytes)
    requires size >= HEADER && FittingPage(page, size) && page.keys != [] && Ascending(page.keys)
    requires child < 0x1_0000_0000 && DistinctPages(page.id, ids(used), ids(used + 1))
    requires child != page.keys[Middle(page)].page && page.id != page.keys[Middle(page)].page
    requires forall i :: 0 <= i < |page.keys| && i != Middle(page) ==> page.keys[i].page != page.keys[Middle(page)].page
    ensures var o := SplitInternal(pages, page, child, size, ids, used);
      DescendTwo(o.pages, ids(used + 1), key) != page.keys[Middle(page)].page
  {
    hide SplitInternal, DescendTwo, LeadingAtMost, Ascending, FittingPage, Less;
    SplitRoutes(pages, page, child, size, ids, used, key);
    assert FindChild(page, key) == page.keys[SlotOf(page.keys, key)].page;
  }

  // ---- the inner pages the code makes -----------------------------------------

  /** A root is full from the moment it is made exactly at page sizes below 192. */
  lemma FullRootIff(page: BTreePage, sep: Bytes, l: nat, r: nat, size: nat)
    requires RootOverTwo(page, sep, l, r)
    ensures IsFull(page, size) <==> size < 192
  {}

  lemma RootFits(page: BTreePage, sep: Bytes, l: nat, r: nat, size: nat)
    requires RootOverTwo(page, sep, l, r) && HEADER + 2 * (10 + |sep|) <= size
    ensures FittingPage(page, size) && Ascending(page.keys) && page.keys != []
  {
    PairSize(page.keys[0], page.keys[1]);
  }

  /** The pages after both halves of a full leaf have been written. */
  function LeafSplitPages(pages: Pages, leaf: BTreePage, t: IndexTuple, size: nat, rightId: nat, place: Place): Pages
    requires size >= HEADER
  {
    var h := SplitLeaf(leaf, t, rightId, place);
    WriteTreePage(WriteTreePage(pages, leaf.id, h.left, size), rightId, h.right, size)
  }

  /** A root of two entries, a leaf below it that is full, and three new pages. */
  ghost predicate FullBelow(pages: Pages, root: nat, sep: Bytes, l: nat, r: nat, key: Bytes, size: nat, ids: PageIds, used: nat) {
    && RootOverTwo(ReadTreePage(pages, root), sep, l, r) && root != l && root != r && l != r
    && HEADER + 2 * (10 + |sep|) <= size
    && DistinctPages(root, ids(used + 1), ids(used + 2)) && ids(used) < 0x1_0000_0000
    && ids(used) != root && ids(used) != ids(used + 1) && ids(used) != ids(used + 2)
    && var leaf := ReadTreePage(pages, if Less(key, sep) then l else r);
      IsFull(leaf, size) && (leaf.kind == Leaf || leaf.keys == [])
  }

  /** What an insertion below such a root does: the leaf is split, its right half takes its place in the
      root, and the root is written or, if it is full itself, split. */
  lemma FullLeafOutcome(pages: Pages, root: nat, sep: Bytes, l: nat, r: nat, t: IndexTuple, size: nat, ids: PageIds, used: nat,
                        depth: nat, place: Place)
    requires FullBelow(pages, root, sep, l, r, t.key, size, ids, used) && depth >= 1
    ensures var child := if Less(t.key, sep) then l else r;
      var top := ReadTreePage(pages, root);
      var between := LeafSplitPages(pages, ReadTreePage(pages, child).(kind := Leaf), t, size, ids(used), place);
      var updated := top.(keys := Repoint(top.keys, child, ids(used)));
      && RootOverTwo(updated, sep, if child == l then ids(used) else l, if child == l then r else ids(used))
      && Insert(pages, root, t, size, ids, used, true, depth, place)
         == Some(if size < 192 then SplitInternal(between, updated, ids(used), size, ids, used + 1)
                 else Outcome(WriteTreePage(between, root, updated, size), used + 1, None))
  {
    hide ReadTreePage, WriteTreePage, SplitInternal, FindChild, SplitLeaf, Less, Repoint;
    var top := ReadTreePage(pages, root);
    var child := if Less(t.key, sep) then l else r;
    var leaf := ReadTreePage(pages, child).(kind := Leaf);
    ReadId(pages, root);
    ReadId(pages, child);
    RootDescends(top, sep, l, r, t.key);
    RepointedRoot(top, sep, l, r, child, ids(used));
    var updated := top.(keys := Repoint(top.keys, child, ids(used)));
    FullRootIff(updated, sep, if child == l then ids(used) else l, if child == l then r else ids(used), size);
    var h := SplitLeaf(leaf, t, ids(used), place);
    ReadOther(pages, child, h.left, size, root);
    ReadOther(WriteTreePage(pages, child, h.left, size), ids(used), h.right, size, root);
    assert Insert(pages, child, t, size, ids, used, false, depth - 1, place)
        == Some(Outcome(LeafSplitPages(pages, leaf, t, size, ids(used), place), used + 1, Some(ids(used))));
  }

  /** If it is split, keys below the separator still reach the left child if it was the right one that was split;
      every other key reaches the right half, and the other child and the left half are cut off. */
  lemma FullRootInsert(pages: Pages, root: nat, sep: Bytes, l: nat, r: nat, t: IndexTuple, size: nat, ids: PageIds, used: nat,
                       depth: nat, place: Place, key: Bytes)
    requires FullBelow(pages, root, sep, l, r, t.key, size, ids, used) && depth >= 1 && size < 192
    ensures var o := Insert(pages, root, t, size, ids, used, true, depth, place);
      && o.Some? && o.value.newId == Some(ids(used + 2)) && o.value.used == used + 3
      && DescendTwo(o.value.pages, ids(used + 2), key)
         == if Less(key, sep) && !Less(t.key, sep) then l else ids(used)
  {
    hide ReadTreePage, LeafSplitPages, SplitInternal, FindChild, Less, DescendTwo, Ascending, FittingPage, Repoint, Insert, RootOverTwo;
    var top := ReadTreePage(pages, root);
    ReadId(pages, root);
    var child, newId := if Less(t.key, sep) then l else r, ids(used);
    var between := LeafSplitPages(pages, ReadTreePage(pages, child).(kind := Leaf), t, size, newId, place);
    var updated := top.(keys := Repoint(top.keys, child, newId));
    var (l', r') := (if child == l then newId else l, if child == l then r else newId);
    FullLeafOutcome(pages, root, sep, l, r, t, size, ids, used, depth, place);
    RootFits(updated, sep, l', r', size);
    SplitRoutes(between, updated, newId, size, ids, used + 1, key);
    PairSlots(updated, sep, l', r', key);
    SplitUses(between, updated, newId, size, ids, used + 1);
  }

  lemma PairSlots(page: BTreePage, sep: Bytes, l: nat, r: nat, key: Bytes)
    requires RootOverTwo(page, sep, l, r)
    ensures |page.keys| == 2 && SlotOf(page.keys, key) == if Less(key, sep) then 0 else 1
    ensures FindChild(page, key) == if Less(key, sep) then l else r
  {
    hide Less, LeadingAtMost;
    TwoEntries(page.keys, sep, key);
  }

  lemma SplitUses(pages: Pages, page: BTreePage, child: nat, size: nat, ids: PageIds, used: nat)
    requires size >= HEADER && page.keys != []
    ensures var o := SplitInternal(pages, page, child, size, ids, used);
      o.newId == Some(ids(used + 1)) && o.used == used + 2
  {}

  lemma SplitKeepsOthers(pages: Pages, page: BTreePage, child: nat, size: nat, ids: PageIds, used: nat, other: nat)
    requires size >= HEADER && page.keys != [] && other != page.id && other != ids(used) && other != ids(used + 1)
    ensures ReadTreePage(SplitInternal(pages, page, child, size, ids, used).pages, other) == ReadTreePage(pages, other)
  {
    hide EncodePage, DecodePage;
  }

  /** A search goes down the new root and the split page, which are both inner pages. */
  lemma SplitSearch(pages: Pages, page: BTreePage, child: nat, size: nat, ids: PageIds, used: nat, key: Bytes, depth: nat)
    requires size >= HEADER && FittingPage(page, size) && page.keys != []
    requires child < 0x1_0000_0000 && DistinctPages(page.id, ids(used), ids(used + 1))
    ensures var o := SplitInternal(pages, page, child, size, ids, used);
      Search(o.pages, ids(used + 1), key, depth + 2) == Search(o.pages, DescendTwo(o.pages, ids(used + 1), key), key, depth)
  {
    hide ReadTreePage, SplitInternal, Less, Matching, FittingPage, LeadingAtMost;
    SplitPages(pages, page, child, size, ids, used);
    var o := SplitInternal(pages, page, child, size, ids, used);
    var top := ReadTreePage(o.pages, ids(used + 1));
    assert FindChild(top, key) == page.id || FindChild(top, key) == ids(used) by {
      ChildOfTwo(top, key);
    }
  }

  lemma ChildOfTwo(page: BTreePage, key: Bytes)
    requires |page.keys| == 2
    ensures FindChild(page, key) == page.keys[0].page || FindChild(page, key) == page.keys[1].page
  {}

  /** And the first key of the leaf that was split can no longer be found. */
  lemma {:induction false} FullRootLosesKey(pages: Pages, root: nat, sep: Bytes, l: nat, r: nat, m: Contents, size: nat, t: IndexTuple,
                                            ids: PageIds, used: nat, depth: nat) returns (lost: Bytes)
    requires PageSize(size) && TwoLevels(pages, root, sep, l, r, m, size) && SmallEntry(t, size) && t.key !in m && depth >= 1
    requires FullBelow(pages, root, sep, l, r, t.key, size, ids, used) && size < 192
    ensures var o := Insert(pages, root, t, size, ids, used, true, depth);
      && o.Some? && o.value.newId == Some(ids(used + 2)) && lost in m
      && forall d :: d >= 2 ==> Search(o.value.pages, NewRoot(o.value, root), lost, d) == Some([])
  {
    hide ReadTreePage, NodeKeys, KeysAre, WriteTreePage, SplitLeaf, Less, SmallEntry, HasKey, DescendTwo, Search, Insert,
         SplitInternal, FittingPage, Repoint;
    var child, rightId := if Less(t.key, sep) then l else r, ids(used);
    var part := if Less(t.key, sep) then PartBelow(m, sep) else PartFrom(m, sep);
    var (top, page) := (ReadTreePage(pages, root), ReadTreePage(pages, child));
    ReadId(pages, root);
    ReadId(pages, child);
    FirstKeyStaysLeft(page, part, size, t, rightId);
    SplitLeafKeys(page, part, size, t, rightId);
    lost := page.keys[0].key;
    var h := SplitLeaf(page, t, rightId);
    assert page.(kind := Leaf) == page;
    var p1 := WriteTreePage(pages, child, h.left, size);
    var between := LeafSplitPages(pages, page, t, size, rightId, Lowest);
    assert between == WriteTreePage(p1, rightId, h.right, size);
    var updated := top.(keys := Repoint(top.keys, child, rightId));
    FullLeafOutcome(pages, root, sep, l, r, t, size, ids, used, depth, Lowest);
    FullRootInsert(pages, root, sep, l, r, t, size, ids, used, depth, Lowest, lost);
    var after := SplitInternal(between, updated, rightId, size, ids, used + 1).pages;
    var (l', r') := (if child == l then rightId else l, if child == l then r else rightId);
    RootFits(updated, sep, l', r', size);
    SplitKeepsOthers(between, updated, rightId, size, ids, used + 1, rightId);
    var newRoot := ids(used + 2);
    forall d | d >= 2
      ensures Search(after, newRoot, lost, d) == Some([])
    {
      SplitSearch(between, updated, rightId, size, ids, used + 1, lost, d - 2);
      CutOff(p1, after, h.right, lost, d - 2, size);
    }
  }

  /** Two entries within their share fit. */
  lemma TwoEntriesFit(size: nat, length: nat)
    requires size >= 128 && 10 + length <= MaxEntry(size)
    ensures HEADER + 2 * (10 + length) <= size
  {
    ShareBounds(size - HEADER, size / 64);
    ProductGrows(MaxEntry(size), 2, size / 64);
  }

  /** At every page size: a leaf below the root is full when it is inserted into, and its first key can
      no longer be found from the root there is then, however deep one looks. */
  lemma {:induction false} FullLeafLosesKey(pages: Pages, root: nat, sep: Bytes, l: nat, r: nat, m: Contents, size: nat, t: IndexTuple,
                                            ids: PageIds, used: nat, depth: nat) returns (lost: Bytes)
    requires PageSize(size) && TwoLevels(pages, root, sep, l, r, m, size) && SmallEntry(t, size) && t.key !in m && depth >= 1
    requires IsFull(ReadTreePage(pages, FindChild(ReadTreePage(pages, root), t.key)), size)
    requires DistinctPages(root, ids(used + 1), ids(used + 2)) && ids(used) < 0x1_0000_0000
    requires ids(used) != root && ids(used) != l && ids(used) != r
    requires ids(used) != ids(used + 1) && ids(used) != ids(used + 2)
    ensures var o := Insert(pages, root, t, size, ids, used, true, depth);
      && o.Some? && lost in m
      && forall d :: d >= 2 ==> Search(o.value.pages, NewRoot(o.value, root), lost, d) == Some([])
  {
    hide ReadTreePage, NodeKeys, KeysAre, SmallEntry, FindChild, Less, Search, Insert;
    RootDescends(ReadTreePage(pages, root), sep, l, r, t.key);
    if size < 192 {
      TwoEntriesFit(size, |sep|);
      lost := FullRootLosesKey(pages, root, sep, l, r, m, size, t, ids, used, depth);
    } else {
      lost := FullLeafCutOff(pages, root, sep, l, r, m, size, t, ids, used, 1);
      InsertDeeper(pages, root, t, size, ids, used, true, 1, depth, Lowest);
      var after := Insert(pages, root, t, size, ids, used, true, depth).value.pages;
      forall d | d >= 2
        ensures Search(after, root, lost, d) == Some([])
      {
        SearchDeeper(after, root, lost, 1, d);
      }
    }
  }
}
