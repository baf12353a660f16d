/** What one insertion writes and one search reads, page by page, in a stored tree of any depth
    (src/btree/insert.rs, src/btree/search.rs). */
module BTreeLaws {
  import opened Wrappers
  import opened Order
  import opened ByteCodec
  import opened Selections
  import opened BTreePages
  import opened BTrees

  // ---- looking at one page --------------------------------------------------------

  /** `a` comes before `b` byte by byte. */
  ghost predicate Below(a: Bytes, b: Bytes) {
    Order.Before(a, b)
  }

  /** What a leaf answers: its entries with that very key, in their order. */
  lemma {:induction false} MatchingIs(keys: seq<IndexTuple>, key: Bytes) returns (ps: seq<nat>)
    ensures Increasing(ps) && Taken(Matching(keys, key), keys, ps)
    ensures forall i: nat :: i in ps <==> i < |keys| && keys[i].key == key
  {
    if keys == [] {
      ps := [];
    } else {
      var n := |keys| - 1;
      ps := MatchingIs(keys[..n], key);
      assert keys == keys[..n] + [keys[n]];
      TakenSnoc(Matching(keys[..n], key), keys[..n], ps, keys[n]);
      if keys[n].key == key {
        ps := ps + [n];
      }
    }
  }

  /** The entry whose child is descended into: the last of the leading entries not above the key; the
      first entry if even that is above. */
  ghost predicate Leads(keys: seq<IndexTuple>, key: Bytes, i: nat) {
    && i < |keys|
    && (forall k :: 0 < k <= i ==> !Below(key, keys[k].key))
    && (i > 0 ==> !Below(key, keys[0].key))
    && (if Below(key, keys[0].key) then i == 0 else i + 1 < |keys| ==> Below(key, keys[i + 1].key))
  }

  lemma {:induction false} LeadingIs(keys: seq<IndexTuple>, key: Bytes, n: nat)
    requires n <= |keys| && (forall k :: 0 <= k < n ==> !Less(key, keys[k].key)) && (n < |keys| ==> Less(key, keys[n].key))
    ensures LeadingAtMost(keys, key) == n
    decreases n
  {
    hide Less;
    if n > 0 {
      LeadingIs(keys[1..], key, n - 1);
    }
  }

  lemma ChildIs(page: BTreePage, key: Bytes, i: nat)
    requires Leads(page.keys, key, i)
    ensures FindChild(page, key) == page.keys[i].page
  {
    forall k | 0 <= k < |page.keys|
      ensures Less(key, page.keys[k].key) <==> Below(key, page.keys[k].key)
    {
      LessIsBefore(key, page.keys[k].key);
    }
    hide Less, LeadingAtMost, Below;
    LeadingIs(page.keys, key, if Below(key, page.keys[0].key) then 0 else i + 1);
  }

  lemma NoChild(page: BTreePage, key: Bytes)
    requires page.keys == []
    ensures FindChild(page, key) == page.id
  {}

  // ---- the way down ---------------------------------------------------------------

  /** Pages from the root to where the descent for the key ends, as an insertion goes: through pages
      with entries, each leading to the next, down to a leaf or a page without entries. */
  predicate Descends(pages: Pages, key: Bytes, path: seq<nat>)
  {
    && path != []
    && Stops(ReadTreePage(pages, path[|path| - 1]))
    && forall i :: 0 <= i < |path| - 1 ==> !Stops(ReadTreePage(pages, path[i])) && FindChild(ReadTreePage(pages, path[i]), key) == path[i + 1]
  }

  predicate Stops(page: BTreePage) {
    page.keys == [] || page.kind == Leaf
  }

  /** An insertion for which the leaf reached has room rewrites that leaf and nothing else. */
  lemma {:induction false} InsertWithRoomBelow(pages: Pages, path: seq<nat>, t: IndexTuple, size: nat, ids: PageIds, used: nat,
                                               isRoot: bool, depth: nat, place: Place)
    requires size >= HEADER && Descends(pages, t.key, path) && |path| <= depth + 1
    requires |ReadTreePage(pages, path[|path| - 1]).keys| < size / 64
    ensures var leaf := ReadTreePage(pages, path[|path| - 1]);
      var written := BTreePage(Leaf, leaf.id, leaf.level, Placed(leaf.keys, t, place), leaf.left, leaf.right);
      Insert(pages, path[0], t, size, ids, used, isRoot, depth, place)
      == Some(Outcome(pages[path[|path| - 1] := EncodePage(written, size)], used, None))
    decreases |path|
  {
    hide FindChild, Placed, EncodePage, SplitInternal, Repoint, ReadTreePage, InsertIntoLeaf;
    if |path| > 1 {
      assert path[1..][|path[1..]| - 1] == path[|path| - 1];
      InsertWithRoomBelow(pages, path[1..], t, size, ids, used, false, depth - 1, place);
    } else {
      InsertIntoRoom(pages, path[0], t, size, ids, used, isRoot, depth, place);
    }
  }

  lemma InsertIntoRoom(pages: Pages, id: nat, t: IndexTuple, size: nat, ids: PageIds, used: nat, isRoot: bool, depth: nat, place: Place)
    requires size >= HEADER && Stops(ReadTreePage(pages, id)) && |ReadTreePage(pages, id).keys| < size / 64
    ensures var leaf := ReadTreePage(pages, id);
      var written := BTreePage(Leaf, leaf.id, leaf.level, Placed(leaf.keys, t, place), leaf.left, leaf.right);
      Insert(pages, id, t, size, ids, used, isRoot, depth, place) == Some(Outcome(pages[id := EncodePage(written, size)], used, None))
  {
    hide FindChild, Placed, EncodePage, SplitInternal, Repoint, DecodePage;
    IdOfRead(pages, id);
  }

  lemma IdOfRead(pages: Pages, id: nat)
    ensures ReadTreePage(pages, id).id == id
  {}

  /** A search goes the same way, past pages that are neither leaves nor meta pages, and answers from
      the leaf. */
  predicate SearchDescends(pages: Pages, key: Bytes, path: seq<nat>)
  {
    && path != []
    && (var last := ReadTreePage(pages, path[|path| - 1]); last.kind == Leaf || last.kind == Overflow)
    && forall i :: 0 <= i < |path| - 1 ==> Inner(ReadTreePage(pages, path[i])) && FindChild(ReadTreePage(pages, path[i]), key) == path[i + 1]
  }

  predicate Inner(page: BTreePage) {
    page.kind == Root || page.kind == Internal
  }

  lemma {:induction false} SearchAnswers(pages: Pages, path: seq<nat>, key: Bytes, depth: nat)
    requires SearchDescends(pages, key, path) && |path| <= depth + 1
    ensures Search(pages, path[0], key, depth) == Some(Matching(ReadTreePage(pages, path[|path| - 1]).keys, key))
    decreases |path|
  {
    hide FindChild, Matching, ReadTreePage;
    if |path| > 1 {
      assert path[1..][|path[1..]| - 1] == path[|path| - 1];
      SearchAnswers(pages, path[1..], key, depth - 1);
    }
  }

  // ---- splitting a leaf -------------------------------------------------------------

  /** The halves of a full leaf: split in the middle, the new entry put left if it is below the first
      key of the right half, otherwise right.  The left half keeps the leaf's place and siblings; the
      right one is new, knows its left sibling only, and is on the same level. */
  predicate LeafHalves(page: BTreePage, t: IndexTuple, rightId: nat, place: Place, left: BTreePage, right: BTreePage) {
    var at := |page.keys| / 2;
    var goesLeft := at < |page.keys| && Less(t.key, page.keys[at].key);
    && left.kind == page.kind && left.id == page.id && left.level == page.level
    && left.left == page.left && left.right == page.right
    && right.kind == page.kind && right.id == rightId && right.level == page.level
    && right.left == Some(page.id) && right.right == None
    && left.keys == (if goesLeft then Placed(page.keys[..at], t, place) else page.keys[..at])
    && right.keys == (if goesLeft then page.keys[at..] else Placed(page.keys[at..], t, place))
  }

  lemma SplitLeafIs(page: BTreePage, t: IndexTuple, rightId: nat, place: Place)
    ensures var h := SplitLeaf(page, t, rightId, place);
      LeafHalves(page, t, rightId, place, h.left, h.right)
  {
    hide Placed, Less;
  }

  /** A root over two pages: one level up, without siblings, both entries with the same key. */
  predicate OverTwo(root: BTreePage, id: nat, level: nat, key: Bytes, oid: nat, l: nat, r: nat) {
    && root.kind == Root && root.id == id && root.level == level && root.left == None && root.right == None
    && root.keys == [IndexTuple(key, l, 0, oid), IndexTuple(key, r, 0, oid)]
  }

  /** Inserting into a full leaf writes its halves, and above a root leaf a new root; only the pages
      named change. */
  lemma FullLeafInsert(pages: Pages, page: BTreePage, t: IndexTuple, size: nat, ids: PageIds, used: nat, isRoot: bool, place: Place)
    returns (left: BTreePage, right: BTreePage, root: BTreePage)
    requires size >= HEADER && |page.keys| >= size / 64
    ensures LeafHalves(page, t, ids(used), place, left, right) && right.keys != []
    ensures OverTwo(root, ids(used + 1), page.level + 1, right.keys[0].key, right.keys[0].oid, page.id, ids(used))
    ensures var split := pages[page.id := EncodePage(left, size)][ids(used) := EncodePage(right, size)];
      InsertIntoLeaf(pages, page, t, size, ids, used, isRoot, place)
      == if isRoot then Outcome(split[ids(used + 1) := EncodePage(root, size)], used + 2, Some(ids(used + 1)))
         else Outcome(split, used + 1, Some(ids(used)))
  {
    hide Less, EncodePage;
    var h := SplitLeaf(page, t, ids(used), place);
    left, right := h.left, h.right;
    PlacedNotEmpty(page.keys[|page.keys| / 2..], t, place);
    root := RootOver(ids(used + 1), page.level + 1, right.keys[0], page.id, ids(used));
  }

  lemma PlacedNotEmpty(keys: seq<IndexTuple>, t: IndexTuple, place: Place)
    ensures Placed(keys, t, place) != []
  {}

  // ---- after the child has been split -------------------------------------------------

  /** The first entry that points to the child points to its replacement instead; the key stays. */
  predicate Redirected(keys: seq<IndexTuple>, child: nat, replacement: nat, result: seq<IndexTuple>, i: nat) {
    && |result| == |keys| && i <= |keys|
    && (forall k :: 0 <= k < i ==> keys[k].page != child)
    && (i < |keys| ==> keys[i].page == child && result[i] == IndexTuple(keys[i].key, replacement, 0, keys[i].oid))
    && (forall k :: 0 <= k < |keys| && k != i ==> result[k] == keys[k])
  }

  lemma {:induction false} RepointIs(keys: seq<IndexTuple>, child: nat, replacement: nat) returns (i: nat)
    ensures Redirected(keys, child, replacement, Repoint(keys, child, replacement), i)
    decreases |keys|
  {
    if keys == [] || keys[0].page == child {
      i := 0;
    } else {
      i := RepointIs(keys[1..], child, replacement);
      i := i + 1;
    }
  }

  /** The halves of a full inner page, whatever it was before: the middle entry starts the right half and
      is made to point to the page just split off. */
  predicate InnerHalves(page: BTreePage, child: nat, rightId: nat, left: BTreePage, right: BTreePage) {
    var at := |page.keys| / 2;
    && left == BTreePage(Internal, page.id, page.level, page.keys[..at], page.left, page.right)
    && at < |page.keys|
    && right == BTreePage(Internal, rightId, page.level,
                          [IndexTuple(page.keys[at].key, child, 0, page.keys[at].oid)] + page.keys[at + 1..], Some(page.id), None)
  }

  lemma FullInnerPage(pages: Pages, page: BTreePage, child: nat, size: nat, ids: PageIds, used: nat)
    returns (left: BTreePage, right: BTreePage, root: BTreePage)
    requires size >= HEADER && page.keys != []
    ensures InnerHalves(page, child, ids(used), left, right)
    ensures OverTwo(root, ids(used + 1), page.level + 1, right.keys[0].key, right.keys[0].oid, page.id, ids(used))
    ensures SplitInternal(pages, page, child, size, ids, used) ==
      Outcome(pages[page.id := EncodePage(left, size)][ids(used) := EncodePage(right, size)][ids(used + 1) := EncodePage(root, size)],
              used + 2, Some(ids(used + 1)))
  {
    hide EncodePage;
    var at := |page.keys| / 2;
    left := BTreePage(Internal, page.id, page.level, page.keys[..at], page.left, page.right);
    var first := IndexTuple(page.keys[at].key, child, 0, page.keys[at].oid);
    right := BTreePage(Internal, ids(used), page.level, [first] + page.keys[at + 1..], Some(page.id), None);
    root := RootOver(ids(used + 1), page.level + 1, first, page.id, ids(used));
    assert page.keys[at..][0] == page.keys[at] && page.keys[at..][1..] == page.keys[at + 1..];
  }

  /** On an inner page the key goes to its child.  If the child was not split that is all; otherwise the
      page, read again, gets its entry redirected, and is split in turn if it is full. */
  lemma InsertStep(pages: Pages, id: nat, t: IndexTuple, size: nat, ids: PageIds, used: nat, isRoot: bool, depth: nat, place: Place,
                   o: Outcome)
    returns (updated: BTreePage, i: nat)
    requires size >= HEADER && depth > 0 && !Stops(ReadTreePage(pages, id))
    requires Insert(pages, FindChild(ReadTreePage(pages, id), t.key), t, size, ids, used, false, depth - 1, place) == Some(o)
    ensures var child := FindChild(ReadTreePage(pages, id), t.key);
      var result := Insert(pages, id, t, size, ids, used, isRoot, depth, place);
      && (o.newId.None? ==> result == Some(o))
      && (o.newId.Some? ==>
            && updated == ReadTreePage(o.pages, id).(keys := updated.keys)
            && Redirected(ReadTreePage(o.pages, id).keys, child, o.newId.value, updated.keys, i)
            && (|updated.keys| < size / 64 || updated.keys == [] ==> result == Some(Outcome(o.pages[id := EncodePage(updated, size)], o.used, None)))
            && (|updated.keys| >= size / 64 && updated.keys != [] ==>
                  result == Some(SplitInternal(o.pages, updated, o.newId.value, size, ids, o.used))))
  {
    hide FindChild, EncodePage, SplitInternal, Repoint, ReadTreePage, InsertIntoLeaf;
    updated := ReadTreePage(o.pages, id);
    i := 0;
    if o.newId.Some? {
      var child := FindChild(ReadTreePage(pages, id), t.key);
      i := RepointIs(updated.keys, child, o.newId.value);
      updated := updated.(keys := Repoint(updated.keys, child, o.newId.value));
    }
  }

  /** On a page where the descent stops, insertion is into that leaf, which an empty page becomes. */
  lemma InsertStops(pages: Pages, id: nat, t: IndexTuple, size: nat, ids: PageIds, used: nat, isRoot: bool, depth: nat, place: Place)
    requires size >= HEADER && Stops(ReadTreePage(pages, id))
    ensures var page := ReadTreePage(pages, id);
      var leaf := BTreePage(Leaf, id, page.level, page.keys, page.left, page.right);
      Insert(pages, id, t, size, ids, used, isRoot, depth, place) == Some(InsertIntoLeaf(pages, leaf, t, size, ids, used, isRoot, place))
  {
    hide InsertIntoLeaf;
    IdOfRead(pages, id);
  }

  /** Beyond the depth looked at there is no answer. */
  lemma TooDeep(pages: Pages, id: nat, t: IndexTuple, size: nat, ids: PageIds, used: nat, isRoot: bool, place: Place)
    requires size >= HEADER
    ensures Insert(pages, id, t, size, ids, used, isRoot, 0, place).None? <==> !Stops(ReadTreePage(pages, id))
    ensures Search(pages, id, t.key, 0).None? <==> Inner(ReadTreePage(pages, id))
    ensures ReadTreePage(pages, id).kind == Meta ==> Search(pages, id, t.key, 0) == Some([])
  {
    hide ReadTreePage, InsertIntoLeaf;
  }
}
