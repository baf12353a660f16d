/** B-tree pages (src/btree/page.rs) and their byte layout (src/btree/insert.rs). */
module BTreePages {
  import opened Wrappers
  import opened Order
  import opened ByteCodec

  datatype PageType = Meta | Root | Internal | Leaf | Overflow

  datatype IndexTuple = IndexTuple(key: Bytes, page: nat, offset: nat, oid: nat)

  datatype BTreePage = BTreePage(
    kind: PageType, id: nat, level: nat, keys: seq<IndexTuple>, left: Option<nat>, right: Option<nat>)

  const HEADER: nat := 64

  function NewPage(kind: PageType, id: nat): BTreePage {
    BTreePage(kind, id, 0, [], None, None)
  }

  predicate IsFull(page: BTreePage, size: nat) {
    |page.keys| >= size / 64
  }

  // ---- sorted keys ----------------------------------------------------------

  ghost predicate Ascending(keys: seq<IndexTuple>) {
    forall i, j :: 0 <= i < j < |keys| ==> AtMost(keys[i].key, keys[j].key)
  }

  ghost predicate StrictlyAscending(keys: seq<IndexTuple>) {
    forall i, j :: 0 <= i < j < |keys| ==> Less(keys[i].key, keys[j].key)
  }

  ghost predicate HasKey(keys: seq<IndexTuple>, key: Bytes) {
    exists i :: 0 <= i < |keys| && keys[i].key == key
  }

  /** Where a binary search may report `key`: an occurrence of it, or the place it belongs. */
  ghost predicate SearchPosition(keys: seq<IndexTuple>, key: Bytes, found: bool, pos: nat) {
    && pos <= |keys|
    && (found ==> pos < |keys| && keys[pos].key == key)
    && (!found ==> forall i :: 0 <= i < pos ==> Less(keys[i].key, key))
    && (!found ==> forall i :: pos <= i < |keys| ==> Less(key, keys[i].key))
  }

  /** Of an unsorted list only the range of the answer is known, and that a key reported is there. */
  method BinarySearch(keys: seq<IndexTuple>, key: Bytes) returns (found: bool, pos: nat)
    ensures pos <= |keys| && (found ==> pos < |keys| && keys[pos].key == key)
    ensures Ascending(keys) ==> SearchPosition(keys, key, found, pos)
  {
    hide Less, Ascending;
    var lo, hi := 0, |keys|;
    while lo < hi
      invariant 0 <= lo <= hi <= |keys|
      invariant Ascending(keys) ==> forall i :: 0 <= i < lo ==> Less(keys[i].key, key)
      invariant Ascending(keys) ==> forall i :: hi <= i < |keys| ==> Less(key, keys[i].key)
    {
      var mid := (lo + hi) / 2;
      Trichotomy(keys[mid].key, key);
      if keys[mid].key == key {
        return true, mid;
      } else if Less(keys[mid].key, key) {
        if Ascending(keys) {
          BelowKey(keys, mid, key);
        }
        lo := mid + 1;
      } else {
        if Ascending(keys) {
          AboveKey(keys, mid, key);
        }
        hi := mid;
      }
    }
    return false, lo;
  }

  lemma BelowKey(keys: seq<IndexTuple>, mid: nat, key: Bytes)
    requires Ascending(keys) && mid < |keys| && Less(keys[mid].key, key)
    ensures forall i :: 0 <= i <= mid ==> Less(keys[i].key, key)
  {
    hide Less;
    forall i | 0 <= i < mid
      ensures Less(keys[i].key, key)
    {
      if keys[i].key != keys[mid].key {
        Transitive(keys[i].key, keys[mid].key, key);
      }
    }
  }

  lemma AboveKey(keys: seq<IndexTuple>, mid: nat, key: Bytes)
    requires Ascending(keys) && mid < |keys| && Less(key, keys[mid].key)
    ensures forall i :: mid <= i < |keys| ==> Less(key, keys[i].key)
  {
    hide Less;
    forall i | mid < i < |keys|
      ensures Less(key, keys[i].key)
    {
      if keys[i].key != keys[mid].key {
        Transitive(key, keys[mid].key, keys[i].key);
      }
    }
  }

  /** Number of leading keys below `key`. */
  function LowerBound(keys: seq<IndexTuple>, key: Bytes): (p: nat)
    ensures p <= |keys|
  {
    if keys == [] || !Less(keys[0].key, key) then 0 else 1 + LowerBound(keys[1..], key)
  }

  lemma {:induction false} LowerBoundAt(keys: seq<IndexTuple>, key: Bytes, p: nat)
    requires p <= |keys| && (forall i :: 0 <= i < p ==> Less(keys[i].key, key))
    requires p < |keys| ==> !Less(keys[p].key, key)
    ensures LowerBound(keys, key) == p
  {
    hide Less;
    if p > 0 {
      LowerBoundAt(keys[1..], key, p - 1);
    }
  }

  function InsertedAt(keys: seq<IndexTuple>, p: nat, t: IndexTuple): (r: seq<IndexTuple>)
    requires p <= |keys|
    ensures |r| == |keys| + 1
  {
    keys[..p] + [t] + keys[p..]
  }

  function InsertSorted(keys: seq<IndexTuple>, t: IndexTuple): seq<IndexTuple> {
    InsertedAt(keys, LowerBound(keys, t.key), t)
  }

  /** Where a tuple is inserted: at its lower bound, or at a place only the library's search knows. */
  datatype Place = Lowest | At(pos: nat)

  function Placed(keys: seq<IndexTuple>, t: IndexTuple, place: Place := Lowest): seq<IndexTuple> {
    match place
    case Lowest => InsertSorted(keys, t)
    case At(pos) => InsertedAt(keys, if pos <= |keys| then pos else |keys|, t)
  }

  /** A list into which the key can be inserted by binary search at one place only. */
  ghost predicate OnePlace(keys: seq<IndexTuple>, key: Bytes) {
    Ascending(keys) && !HasKey(keys, key)
  }

  /** `insert_sorted`: exactly the tuple is added, a sorted list stays sorted, and a new key lands at its
      lower bound. */
  method InsertSortedInto(keys: seq<IndexTuple>, t: IndexTuple) returns (result: seq<IndexTuple>, ghost place: Place)
    ensures multiset(result) == multiset(keys) + multiset{t}
    ensures result == Placed(keys, t, place) && (OnePlace(keys, t.key) ==> result == InsertSorted(keys, t) && place == Lowest)
    ensures Ascending(keys) ==> Ascending(result)
  {
    hide Less, Ascending, HasKey, SearchPosition;
    var found, pos := BinarySearch(keys, t.key);
    result := keys[..pos] + [t] + keys[pos..];
    place := At(pos);
    assert keys == keys[..pos] + keys[pos..];
    if Ascending(keys) {
      InsertKeepsAscending(keys, t, found, pos);
      if !HasKey(keys, t.key) {
        OnlyPlace(keys, t.key, found, pos);
        place := Lowest;
      }
    }
  }

  lemma OnlyPlace(keys: seq<IndexTuple>, key: Bytes, found: bool, pos: nat)
    requires OnePlace(keys, key) && SearchPosition(keys, key, found, pos)
    ensures pos == LowerBound(keys, key)
  {
    hide Less;
    assert !found;
    if pos < |keys| {
      Trichotomy(keys[pos].key, key);
    }
    LowerBoundAt(keys, key, pos);
  }

  lemma InsertKeepsAscending(keys: seq<IndexTuple>, t: IndexTuple, found: bool, pos: nat)
    requires Ascending(keys) && SearchPosition(keys, t.key, found, pos)
    ensures Ascending(InsertedAt(keys, pos, t))
  {
    hide Less;
    var r := InsertedAt(keys, pos, t);
    forall i, j | 0 <= i < j < |r|
      ensures AtMost(r[i].key, r[j].key)
    {
      assert r[i] == if i < pos then keys[i] else if i == pos then t else keys[i - 1];
      assert r[j] == if j < pos then keys[j] else if j == pos then t else keys[j - 1];
    }
  }

  /** A new key is inserted between the keys below it and the keys above it. */
  lemma InsertSortedStrict(keys: seq<IndexTuple>, t: IndexTuple)
    requires StrictlyAscending(keys) && !HasKey(keys, t.key)
    ensures StrictlyAscending(InsertSorted(keys, t))
    ensures multiset(InsertSorted(keys, t)) == multiset(keys) + multiset{t}
  {
    hide Less, LowerBound, InsertedAt;
    var p := LowerBound(keys, t.key);
    LowerBoundSplits(keys, t.key);
    var r := InsertedAt(keys, p, t);
    forall i, j | 0 <= i < j < |r|
      ensures Less(r[i].key, r[j].key)
    {
      InsertedElement(keys, p, t, i);
      InsertedElement(keys, p, t, j);
    }
    InsertedBag(keys, p, t);
  }

  lemma InsertedElement(keys: seq<IndexTuple>, p: nat, t: IndexTuple, i: nat)
    requires p <= |keys| && i <= |keys|
    ensures InsertedAt(keys, p, t)[i] == if i < p then keys[i] else if i == p then t else keys[i - 1]
  {}

  lemma InsertedBag(keys: seq<IndexTuple>, p: nat, t: IndexTuple)
    requires p <= |keys|
    ensures multiset(InsertedAt(keys, p, t)) == multiset(keys) + multiset{t}
  {
    assert keys == keys[..p] + keys[p..];
  }

  lemma {:induction false} LowerBoundSplits(keys: seq<IndexTuple>, key: Bytes)
    requires StrictlyAscending(keys) && !HasKey(keys, key)
    ensures forall i :: 0 <= i < LowerBound(keys, key) ==> Less(keys[i].key, key)
    ensures forall i :: LowerBound(keys, key) <= i < |keys| ==> Less(key, keys[i].key)
  {
    hide Less;
    if keys == [] {
    } else {
      assert keys[0].key != key;
      Trichotomy(keys[0].key, key);
      if Less(keys[0].key, key) {
        forall i | 0 <= i < |keys[1..]|
          ensures keys[1..][i].key != key
        {
          assert keys[i + 1].key != key;
        }
        LowerBoundSplits(keys[1..], key);
        assert forall i :: 1 <= i < |keys| ==> keys[i] == keys[1..][i - 1];
      } else {
        forall i | 0 <= i < |keys|
          ensures Less(key, keys[i].key)
        {
          if i > 0 {
            Transitive(key, keys[0].key, keys[i].key);
          }
        }
      }
    }
  }

  // ---- byte layout ----------------------------------------------------------

  function KindByte(kind: PageType): byte {
    match kind
    case Meta => 0
    case Root => 1
    case Internal => 2
    case Leaf => 3
    case Overflow => 4
  }

  function KindOf(b: byte): PageType {
    if b == 1 then Root else if b == 2 then Internal else if b == 4 then Overflow else Leaf
  }

  function SiblingNumber(s: Option<nat>): nat {
    if s.Some? then s.value else 0
  }

  function SiblingOf(n: nat): Option<nat> {
    if n == 0 then None else Some(n)
  }

  function EntrySize(t: IndexTuple): nat {
    4 + |t.key| + 6
  }

  function EncodeEntry(t: IndexTuple): (bs: Bytes)
    ensures |bs| == EntrySize(t)
  {
    ToLE(|t.key|, 4) + t.key + ToLE(t.page, 4) + ToLE(t.offset, 2)
  }

  /** The longest prefix of the keys that fits between `pos` and the end of the page. */
  function FittingPrefix(keys: seq<IndexTuple>, pos: nat, size: nat): seq<IndexTuple> {
    if keys == [] || pos + EntrySize(keys[0]) > size then []
    else [keys[0]] + FittingPrefix(keys[1..], pos + EntrySize(keys[0]), size)
  }

  function EncodeEntries(keys: seq<IndexTuple>, pos: nat, size: nat): (bs: Bytes)
    requires pos <= size
    ensures pos + |bs| <= size
  {
    if keys == [] || pos + EntrySize(keys[0]) > size then []
    else EncodeEntry(keys[0]) + EncodeEntries(keys[1..], pos + EntrySize(keys[0]), size)
  }

  function EncodeHeader(page: BTreePage): (bs: Bytes)
    ensures |bs| == HEADER
  {
    [KindByte(page.kind)] + ToLE(page.level, 2) + ToLE(|page.keys| % 0x1_0000, 2) + Zeros(3)
    + ToLE(SiblingNumber(page.left), 4) + ToLE(SiblingNumber(page.right), 4) + Zeros(48)
  }

  /** The bytes `serialize_page` produces. */
  function EncodePage(page: BTreePage, size: nat): (bs: Bytes)
    requires size >= HEADER
    ensures |bs| == size
  {
    var entries := EncodeEntries(page.keys, HEADER, size);
    EncodeHeader(page) + entries + Zeros(size - HEADER - |entries|)
  }

  function DecodeEntry(data: Bytes, pos: nat, length: nat): IndexTuple
    requires pos + 4 + length + 6 <= |data|
  {
    IndexTuple(data[pos + 4..pos + 4 + length], FromLE(data[pos + 4 + length..pos + 8 + length]),
               FromLE(data[pos + 8 + length..pos + 10 + length]), 0)
  }

  /** The entry loop of `deserialize_page`: at most `count` entries, stopping at the first that does
      not fit or has an empty key. */
  function DecodeEntries(data: Bytes, pos: nat, count: nat): seq<IndexTuple>
    decreases count
  {
    if count == 0 || pos + 4 + 6 > |data| then []
    else
      var length := FromLE(data[pos..pos + 4]);
      if length == 0 || pos + 4 + length + 6 > |data| then []
      else [DecodeEntry(data, pos, length)] + DecodeEntries(data, pos + 4 + length + 6, count - 1)
  }

  function DecodePage(id: nat, data: Bytes): BTreePage {
    if |data| < 16 then NewPage(Leaf, id)
    else
      BTreePage(KindOf(data[0]), id, FromLE(data[1..3]), DecodeEntries(data, HEADER, FromLE(data[3..5])),
                SiblingOf(FromLE(data[8..12])), SiblingOf(FromLE(data[12..16])))
  }
}
