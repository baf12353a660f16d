/** Insertion and search in the stored tree (src/btree/insert.rs, src/btree/search.rs). */
module BTrees {
  import opened Wrappers
  import opened Order
  import opened ByteCodec
  import opened PageStores
  import opened BTreePages

  type Pages = map<nat, Bytes>

  /** `next_page_id`: what its successive calls return. */
  type PageIds = nat -> nat

  function ReadTreePage(pages: Pages, id: nat): BTreePage {
    DecodePage(id, PageBytes(pages, id))
  }

  function WriteTreePage(pages: Pages, id: nat, page: BTreePage, size: nat): Pages
    requires size >= HEADER
  {
    pages[id := EncodePage(page, size)]
  }

  // ---- descending -----------------------------------------------------------

  /** Number of leading keys not above `key`. */
  function LeadingAtMost(keys: seq<IndexTuple>, key: Bytes): (n: nat)
    ensures n <= |keys|
  {
    if keys == [] || Less(key, keys[0].key) then 0 else 1 + LeadingAtMost(keys[1..], key)
  }

  /** The child to descend into; a page without keys leads to itself. */
  function FindChild(page: BTreePage, key: Bytes): nat {
    if page.keys == [] then page.id
    else
      var n := LeadingAtMost(page.keys, key);
      page.keys[if n == 0 then 0 else n - 1].page
  }

  function Matching(keys: seq<IndexTuple>, key: Bytes): seq<IndexTuple> {
    if keys == [] then []
    else
      var n := |keys| - 1;
      Matching(keys[..n], key) + if keys[n].key == key then [keys[n]] else []
  }

  /** `search_page`; `None` when the tree is deeper than `depth`. */
  function Search(pages: Pages, id: nat, key: Bytes, depth: nat): Option<seq<IndexTuple>>
    decreases depth
  {
    var page := ReadTreePage(pages, id);
    match page.kind
    case Leaf => Some(Matching(page.keys, key))
    case Overflow => Some(Matching(page.keys, key))
    case Root => if depth == 0 then None else Search(pages, FindChild(page, key), key, depth - 1)
    case Internal => if depth == 0 then None else Search(pages, FindChild(page, key), key, depth - 1)
    case Meta => Some([])
  }

  // ---- inserting ------------------------------------------------------------

  datatype Outcome = Outcome(pages: Pages, used: nat, newId: Option<nat>)

  datatype Halves = Halves(left: BTreePage, right: BTreePage)

  /** `split_at` half way, numbered by the caller. */
  function SplitPage(page: BTreePage, rightId: nat): Halves {
    var at := |page.keys| / 2;
    Halves(page.(keys := page.keys[..at]), BTreePage(page.kind, rightId, page.level, page.keys[at..], None, None))
  }

  /** A full leaf split with the new tuple in its half. */
  function SplitLeaf(page: BTreePage, t: IndexTuple, rightId: nat, place: Place := Lowest): Halves {
    var h := SplitPage(page, rightId);
    if GoesLeft(h.right.keys, t.key) then
      Halves(h.left.(keys := Placed(h.left.keys, t, place)), h.right.(left := Some(page.id)))
    else
      Halves(h.left, h.right.(keys := Placed(h.right.keys, t, place), left := Some(page.id)))
  }

  predicate GoesLeft(rightKeys: seq<IndexTuple>, key: Bytes) {
    rightKeys != [] && Less(key, rightKeys[0].key)
  }

  /** The keys that receive the new tuple: the leaf's, or those of one half of a full leaf. */
  function Receiving(keys: seq<IndexTuple>, key: Bytes, size: nat): seq<IndexTuple> {
    if |keys| < size / 64 then keys else ReceivingHalf(keys, key)
  }

  function ReceivingHalf(keys: seq<IndexTuple>, key: Bytes): seq<IndexTuple> {
    var at := |keys| / 2;
    if GoesLeft(keys[at..], key) then keys[..at] else keys[at..]
  }

  /** A root over two pages, both entries carrying the first key of the right one. */
  function RootOver(id: nat, level: nat, separator: IndexTuple, leftId: nat, rightId: nat): BTreePage {
    BTreePage(Root, id, level, [separator.(page := leftId, offset := 0), separator.(page := rightId, offset := 0)], None, None)
  }

  function InsertIntoLeaf(pages: Pages, page: BTreePage, t: IndexTuple, size: nat, ids: PageIds, used: nat, isRoot: bool,
                          place: Place := Lowest): Outcome
    requires size >= HEADER
  {
    if !IsFull(page, size) then
      Outcome(WriteTreePage(pages, page.id, page.(keys := Placed(page.keys, t, place)), size), used, None)
    else
      var rightId := ids(used);
      var h := SplitLeaf(page, t, rightId, place);
      var split := WriteTreePage(WriteTreePage(pages, page.id, h.left, size), rightId, h.right, size);
      if isRoot then
        var rootId := ids(used + 1);
        // the right half holds at least the new tuple or half of a full page
        var separator := if h.right.keys == [] then IndexTuple([], 0, 0, 0) else h.right.keys[0];
        Outcome(WriteTreePage(split, rootId, RootOver(rootId, page.level + 1, separator, page.id, rightId), size),
                used + 2, Some(rootId))
      else Outcome(split, used + 1, Some(rightId))
  }

  /** The first entry pointing to `child` is redirected to its replacement. */
  function Repoint(keys: seq<IndexTuple>, child: nat, replacement: nat): seq<IndexTuple> {
    if keys == [] then []
    else if keys[0].page == child then [keys[0].(page := replacement, offset := 0)] + keys[1..]
    else [keys[0]] + Repoint(keys[1..], child, replacement)
  }

  function SplitInternal(pages: Pages, page: BTreePage, child: nat, size: nat, ids: PageIds, used: nat): Outcome
    requires size >= HEADER && page.keys != []
  {
    var rightId, rootId := ids(used), ids(used + 1);
    var h := SplitPage(page, rightId);
    var left := h.left.(kind := Internal);
    var first := h.right.keys[0].(page := child, offset := 0);
    var right := h.right.(kind := Internal, left := Some(page.id), keys := [first] + h.right.keys[1..]);
    var split := WriteTreePage(WriteTreePage(pages, page.id, left, size), rightId, right, size);
    Outcome(WriteTreePage(split, rootId, RootOver(rootId, page.level + 1, first, page.id, rightId), size), used + 2, Some(rootId))
  }

  /** `insert_recursive`; `None` when the tree is deeper than `depth`. */
  function Insert(pages: Pages, id: nat, t: IndexTuple, size: nat, ids: PageIds, used: nat, isRoot: bool, depth: nat,
                  place: Place := Lowest): Option<Outcome>
    requires size >= HEADER
    decreases depth
  {
    var page := ReadTreePage(pages, id);
    if page.keys == [] then Some(InsertIntoLeaf(pages, page.(kind := Leaf), t, size, ids, used, isRoot, place))
    else if page.kind == Leaf then Some(InsertIntoLeaf(pages, page, t, size, ids, used, isRoot, place))
    else if depth == 0 then None
    else
      var child := FindChild(page, t.key);
      match Insert(pages, child, t, size, ids, used, false, depth - 1, place)
      case None => None
      case Some(o) =>
        if o.newId.None? then Some(o)
        else
          var again := ReadTreePage(o.pages, id);
          var updated := again.(keys := Repoint(again.keys, child, o.newId.value));
          if !IsFull(updated, size) || updated.keys == [] then
            Some(Outcome(WriteTreePage(o.pages, id, updated, size), o.used, None))
          else Some(SplitInternal(o.pages, updated, o.newId.value, size, ids, o.used))
  }

  /** `btree_insert_multipage`: the root is replaced when a split made a new one. */
  function NewRoot(o: Outcome, root: nat): nat {
    if o.newId.Some? then o.newId.value else root
  }

  // ---- the bound on the depth -----------------------------------------------

  /** The bound only tells how deep one looks: a search that ends within it ends the same within more. */
  lemma {:induction false} SearchDeeper(pages: Pages, id: nat, key: Bytes, depth: nat, more: nat)
    requires Search(pages, id, key, depth).Some? && depth <= more
    ensures Search(pages, id, key, more) == Search(pages, id, key, depth)
    decreases depth
  {
    hide ReadTreePage, FindChild, Matching;
    var page := ReadTreePage(pages, id);
    if page.kind == Root || page.kind == Internal {
      SearchDeeper(pages, FindChild(page, key), key, depth - 1, more - 1);
    }
  }

  lemma {:induction false} InsertDeeper(pages: Pages, id: nat, t: IndexTuple, size: nat, ids: PageIds, used: nat, isRoot: bool,
                                        depth: nat, more: nat, place: Place)
    requires size >= HEADER && depth <= more && Insert(pages, id, t, size, ids, used, isRoot, depth, place).Some?
    ensures Insert(pages, id, t, size, ids, used, isRoot, more, place) == Insert(pages, id, t, size, ids, used, isRoot, depth, place)
    decreases depth
  {
    hide ReadTreePage, FindChild, InsertIntoLeaf, SplitInternal, Repoint, WriteTreePage;
    var page := ReadTreePage(pages, id);
    if page.keys != [] && page.kind != Leaf {
      InsertDeeper(pages, FindChild(page, t.key), t, size, ids, used, false, depth - 1, more - 1, place);
    }
  }
}
