/** Block-range index (src/btree/brin_index.rs): lookups against a full scan. */
module BlockRanges {
  import opened Wrappers
  import opened Order
  import opened ByteCodec

  datatype Tid = Tid(page: nat, slot: nat)

  datatype Entry = Entry(value: string, tid: Tid)

  datatype Summary = Summary(
    blockStart: nat, blockEnd: nat, min: Option<string>, max: Option<string>, nullCount: nat, distinctCount: nat)

  datatype Index = Index(pagesPerRange: nat, ranges: seq<Summary>, values: map<nat, seq<Entry>>)

  predicate NullText(v: string) {
    v == "" || v == "NULL"
  }

  predicate Between(low: string, v: string, high: string) {
    TextAtMost(low, v) && TextAtMost(v, high)
  }

  function EntriesOf(values: map<nat, seq<Entry>>, i: nat): seq<Entry> {
    if i in values then values[i] else []
  }

  // ---- updates --------------------------------------------------------------

  /** The block arithmetic of every new range fits 32 bits. */
  predicate BlocksFit(pagesPerRange: nat, block: nat) {
    pagesPerRange > 0 && (block / pagesPerRange + 1) * pagesPerRange < U32
  }

  function Fresh(pagesPerRange: nat, i: nat): Summary
    requires pagesPerRange > 0
  {
    Summary(i * pagesPerRange, (i + 1) * pagesPerRange - 1, None, None, 0, 0)
  }

  function Grown(ranges: seq<Summary>, pagesPerRange: nat, count: nat): (grown: seq<Summary>)
    requires pagesPerRange > 0
    ensures ranges <= grown && |grown| >= count
    ensures forall i :: |ranges| <= i < |grown| ==> grown[i] == Fresh(pagesPerRange, i)
    decreases count - |ranges|
  {
    if |ranges| >= count then ranges
    else Grown(ranges + [Fresh(pagesPerRange, |ranges|)], pagesPerRange, count)
  }

  function Widened(s: Summary, v: string): Summary {
    if NullText(v) then s.(nullCount := s.nullCount + 1)
    else
      var low := if s.min.None? || TextLess(v, s.min.value) then Some(v) else s.min;
      var high := if s.min.None? || s.max.None? || TextLess(s.max.value, v) then Some(v) else s.max;
      s.(min := low, max := high, distinctCount := s.distinctCount + 1)
  }

  function Insert(x: Index, block: nat, v: string, tid: Tid): Index
    requires x.pagesPerRange > 0
  {
    var i := block / x.pagesPerRange;
    var grown := Grown(x.ranges, x.pagesPerRange, i + 1);
    x.(ranges := grown[i := Widened(grown[i], v)],
       values := x.values[i := EntriesOf(x.values, i) + [Entry(v, tid)]])
  }

  /** The first occurrence of the entry, or the length. */
  function Position(entries: seq<Entry>, e: Entry): (p: nat)
    ensures p <= |entries|
    ensures p < |entries| <==> e in entries
    ensures p < |entries| ==> entries[p] == e
  {
    if entries == [] || entries[0] == e then 0 else 1 + Position(entries[1..], e)
  }

  /** Delete the first occurrence in one range; which of the ranges holding it is the hash map's choice. */
  function DeleteIn(x: Index, r: nat, e: Entry): Index
    requires e in EntriesOf(x.values, r)
  {
    var entries := x.values[r];
    var p := Position(entries, e);
    x.(values := x.values[r := entries[..p] + entries[p + 1..]])
  }

  // ---- lookups --------------------------------------------------------------

  predicate MightContain(s: Summary, v: string) {
    if s.min.Some? && s.max.Some? then Between(s.min.value, v, s.max.value)
    else if s.min.Some? then TextAtMost(s.min.value, v)
    else if s.max.Some? then TextAtMost(v, s.max.value)
    else s.nullCount > 0 && NullText(v)
  }

  predicate MightOverlap(s: Summary, low: string, high: string) {
    s.min.Some? && s.max.Some? ==> TextAtMost(s.min.value, high) && TextAtMost(low, s.max.value)
  }

  function Matching(entries: seq<Entry>, wanted: string -> bool): seq<Tid> {
    if entries == [] then []
    else
      var last := entries[|entries| - 1];
      Matching(entries[..|entries| - 1], wanted) + if wanted(last.value) then [last.tid] else []
  }

  /** The entries of the visited ranges that match, range by range; the first `n` ranges only. */
  function Visit(x: Index, visits: Summary -> bool, wanted: string -> bool, n: nat): seq<Tid>
    requires n <= |x.ranges|
  {
    if n == 0 then []
    else
      Visit(x, visits, wanted, n - 1) +
      if visits(x.ranges[n - 1]) then Matching(EntriesOf(x.values, n - 1), wanted) else []
  }

  function Lookup(x: Index, v: string): seq<Tid> {
    Visit(x, s => MightContain(s, v), w => w == v, |x.ranges|)
  }

  function LookupRange(x: Index, low: string, high: string): seq<Tid> {
    Visit(x, s => MightOverlap(s, low, high), w => Between(low, w, high), |x.ranges|)
  }

  /** Every entry is looked at. */
  function FullScan(x: Index, wanted: string -> bool): seq<Tid> {
    Visit(x, s => true, wanted, |x.ranges|)
  }

  // ---- the invariant --------------------------------------------------------

  predicate Summarized(s: Summary, v: string) {
    if NullText(v) then s.nullCount > 0
    else s.min.Some? && s.max.Some? && Between(s.min.value, v, s.max.value)
  }

  predicate Covers(s: Summary, entries: seq<Entry>) {
    && (s.min.Some? <==> s.max.Some?)
    && forall i :: 0 <= i < |entries| ==> Summarized(s, entries[i].value)
  }

  ghost predicate Valid(x: Index) {
    && x.pagesPerRange > 0
    && (forall i :: i in x.values ==> i < |x.ranges|)
    && forall i :: 0 <= i < |x.ranges| ==> Covers(x.ranges[i], EntriesOf(x.values, i))
  }

  lemma WidenedCovers(s: Summary, entries: seq<Entry>, v: string, tid: Tid)
    requires Covers(s, entries)
    ensures Covers(Widened(s, v), entries + [Entry(v, tid)])
  {
    forall i | 0 <= i < |entries| + 1
      ensures Summarized(Widened(s, v), (entries + [Entry(v, tid)])[i].value)
    {
      if i < |entries| {
        WidenedKeeps(s, v, entries[i].value);
      } else {
        WidenedTakes(s, v);
      }
    }
  }

  lemma WidenedTakes(s: Summary, v: string)
    requires s.min.Some? <==> s.max.Some?
    ensures Summarized(Widened(s, v), v)
  {
    TextTrichotomy(v, v);
    if s.min.Some? {
      TextTrichotomy(v, s.min.value);
      TextTrichotomy(s.max.value, v);
    }
  }

  lemma WidenedKeeps(s: Summary, v: string, w: string)
    requires (s.min.Some? <==> s.max.Some?) && Summarized(s, w)
    ensures Summarized(Widened(s, v), w)
  {
    if !NullText(w) && !NullText(v) {
      TextTrichotomy(v, s.min.value);
      TextTrichotomy(s.max.value, v);
      if TextLess(v, s.min.value) {
        TextAtMostTransitive(v, s.min.value, w);
      }
      if TextLess(s.max.value, v) {
        TextAtMostTransitive(w, s.max.value, v);
      }
    }
  }

  lemma FreshCovers(pagesPerRange: nat, i: nat)
    requires pagesPerRange > 0
    ensures Covers(Fresh(pagesPerRange, i), [])
  {}

  lemma InsertKeepsValid(x: Index, block: nat, v: string, tid: Tid)
    requires Valid(x)
    ensures Valid(Insert(x, block, v, tid))
  {
    hide Widened, Covers;
    var i := block / x.pagesPerRange;
    var grown := Grown(x.ranges, x.pagesPerRange, i + 1);
    forall k | 0 <= k < |grown|
      ensures Covers(grown[k], EntriesOf(x.values, k))
    {
      if k < |x.ranges| {
        assert grown[k] == x.ranges[k];
      } else {
        FreshCovers(x.pagesPerRange, k);
        assert k !in x.values;
      }
    }
    WidenedCovers(grown[i], EntriesOf(x.values, i), v, tid);
  }

  lemma DeleteKeepsValid(x: Index, r: nat, e: Entry)
    requires Valid(x) && e in EntriesOf(x.values, r)
    ensures Valid(DeleteIn(x, r, e))
  {
    hide Summarized;
    var entries := x.values[r];
    var p := Position(entries, e);
    var rest := entries[..p] + entries[p + 1..];
    forall i | 0 <= i < |rest|
      ensures Summarized(x.ranges[r], rest[i].value)
    {
      assert rest[i] == entries[if i < p then i else i + 1];
    }
  }

  // ---- what the index holds -------------------------------------------------

  function Held(x: Index, n: nat): multiset<Entry> {
    if n == 0 then multiset{} else Held(x, n - 1) + multiset(EntriesOf(x.values, n - 1))
  }

  function Contents(x: Index): multiset<Entry> {
    Held(x, |x.ranges|)
  }

  /** Only one range's entries differ. */
  lemma {:induction false} HeldExcept(x: Index, y: Index, r: nat, n: nat, m: nat)
    requires r < n && forall i :: i != r ==> EntriesOf(x.values, i) == EntriesOf(y.values, i)
    requires m <= n && forall i :: m <= i ==> EntriesOf(x.values, i) == []
    ensures Held(y, n) + multiset(EntriesOf(x.values, r)) == Held(x, m) + multiset(EntriesOf(y.values, r))
    decreases n
  {
    hide EntriesOf;
    HeldBeyond(x, m, n);
    HeldDiffer(x, y, r, n);
  }

  lemma {:induction false} HeldBeyond(x: Index, m: nat, n: nat)
    requires m <= n && forall i :: m <= i ==> EntriesOf(x.values, i) == []
    ensures Held(x, n) == Held(x, m)
    decreases n
  {
    hide EntriesOf;
    if m < n {
      HeldBeyond(x, m, n - 1);
    }
  }

  lemma {:induction false} HeldDiffer(x: Index, y: Index, r: nat, n: nat)
    requires forall i :: i != r ==> EntriesOf(x.values, i) == EntriesOf(y.values, i)
    ensures Held(y, n) + (if r < n then multiset(EntriesOf(x.values, r)) else multiset{}) ==
            Held(x, n) + (if r < n then multiset(EntriesOf(y.values, r)) else multiset{})
    decreases n
  {
    hide EntriesOf;
    if n > 0 {
      HeldDiffer(x, y, r, n - 1);
      var (ex, ey) := (multiset(EntriesOf(x.values, n - 1)), multiset(EntriesOf(y.values, n - 1)));
      if r < n - 1 {
        AddBoth(Held(y, n - 1), multiset(EntriesOf(x.values, r)), Held(x, n - 1), multiset(EntriesOf(y.values, r)), ex);
      } else if r == n - 1 {
        NoneAdded(Held(y, n - 1), Held(x, n - 1));
        assert (Held(x, n - 1) + ey) + ex == (Held(x, n - 1) + ex) + ey;
      } else {
        NoneAdded(Held(y, n - 1), Held(x, n - 1));
        NoneAdded(Held(y, n), Held(x, n));
      }
    }
  }

  lemma NoneAdded(a: multiset<Entry>, b: multiset<Entry>)
    ensures a + multiset{} == b + multiset{} <==> a == b
  {
    assert a + multiset{} == a && b + multiset{} == b;
  }

  lemma AddBoth(a: multiset<Entry>, b: multiset<Entry>, c: multiset<Entry>, d: multiset<Entry>, more: multiset<Entry>)
    requires a + b == c + d
    ensures (a + more) + b == (c + more) + d
  {
    assert (a + more) + b == (a + b) + more && (c + more) + d == (c + d) + more;
  }

  lemma Cancel(a: multiset<Entry>, b: multiset<Entry>, c: multiset<Entry>, d: multiset<Entry>)
    requires a + b == c + (b + d)
    ensures a == c + d
  {
    assert c + (b + d) == (c + d) + b;
    assert a == (a + b) - b && c + d == ((c + d) + b) - b;
  }

  lemma InsertAdds(x: Index, block: nat, v: string, tid: Tid)
    requires Valid(x)
    ensures Contents(Insert(x, block, v, tid)) == Contents(x) + multiset{Entry(v, tid)}
  {
    hide Widened, Held;
    var y := Insert(x, block, v, tid);
    var i := block / x.pagesPerRange;
    HeldExcept(x, y, i, |y.ranges|, |x.ranges|);
    assert multiset(EntriesOf(y.values, i)) == multiset(EntriesOf(x.values, i)) + multiset{Entry(v, tid)};
    Cancel(Contents(y), multiset(EntriesOf(x.values, i)), Contents(x), multiset{Entry(v, tid)});
  }

  lemma DeleteRemoves(x: Index, r: nat, e: Entry)
    requires Valid(x) && e in EntriesOf(x.values, r)
    ensures Contents(DeleteIn(x, r, e)) == Contents(x) - multiset{e} && e in Contents(x)
  {
    hide Held;
    var y := DeleteIn(x, r, e);
    var entries := x.values[r];
    var p := Position(entries, e);
    assert entries == entries[..p] + [e] + entries[p + 1..];
    assert multiset(entries) == multiset(EntriesOf(y.values, r)) + multiset{e};
    HeldExcept(x, y, r, |x.ranges|, |x.ranges|);
    Cancel(Contents(x), multiset(EntriesOf(y.values, r)), Contents(y), multiset{e});
  }

  lemma {:induction false} HeldSomewhere(x: Index, e: Entry, n: nat)
    ensures e in Held(x, n) <==> exists i :: 0 <= i < n && e in EntriesOf(x.values, i)
    decreases n
  {
    hide EntriesOf;
    if n > 0 {
      HeldSomewhere(x, e, n - 1);
    }
  }

  // ---- lookups agree with a full scan ---------------------------------------

  lemma {:induction false} NothingMatches(entries: seq<Entry>, wanted: string -> bool)
    ensures Matching(entries, wanted) == [] <==> forall i :: 0 <= i < |entries| ==> !wanted(entries[i].value)
    decreases |entries|
  {
    if entries != [] {
      NothingMatches(entries[..|entries| - 1], wanted);
      assert forall i :: 0 <= i < |entries| - 1 ==> entries[..|entries| - 1][i] == entries[i];
    }
  }

  /** No skipped range among the first `n` holds a wanted entry. */
  predicate SkipsNothing(x: Index, visits: Summary -> bool, wanted: string -> bool, n: nat)
    requires n <= |x.ranges|
  {
    forall i :: 0 <= i < n && !visits(x.ranges[i]) ==> Matching(EntriesOf(x.values, i), wanted) == []
  }

  /** A lookup gives the full scan's rows in the full scan's order exactly when it skips nothing wanted. */
  lemma {:induction false} VisitIsScanIff(x: Index, visits: Summary -> bool, wanted: string -> bool, n: nat)
    requires n <= |x.ranges|
    ensures |Visit(x, visits, wanted, n)| <= |Visit(x, s => true, wanted, n)|
    ensures Visit(x, visits, wanted, n) == Visit(x, s => true, wanted, n) <==> SkipsNothing(x, visits, wanted, n)
    ensures |Visit(x, visits, wanted, n)| == |Visit(x, s => true, wanted, n)| ==> SkipsNothing(x, visits, wanted, n)
    decreases n
  {
    hide EntriesOf, Matching;
    if n > 0 {
      VisitIsScanIff(x, visits, wanted, n - 1);
    }
  }

  /** Looking up a value that is not null is a full scan for it.  Looking up a null one is, exactly
      when each range holding it has no bounds or has the text within its bounds. */
  lemma LookupIsScanIff(x: Index, v: string)
    requires Valid(x)
    ensures Lookup(x, v) == FullScan(x, w => w == v) <==>
      !NullText(v) || forall i :: 0 <= i < |x.ranges| ==>
        Matching(EntriesOf(x.values, i), w => w == v) == []
        || x.ranges[i].min.None? || Between(x.ranges[i].min.value, v, x.ranges[i].max.value)
  {
    hide Matching;
    VisitIsScanIff(x, s => MightContain(s, v), w => w == v, |x.ranges|);
    forall i | 0 <= i < |x.ranges|
      ensures Matching(EntriesOf(x.values, i), w => w == v) != [] ==> Summarized(x.ranges[i], v)
    {
      NothingMatches(EntriesOf(x.values, i), w => w == v);
    }
  }

  /** A range lookup is a full scan for the texts in the range exactly when every range that holds a
      null text between the limits overlaps them. */
  lemma LookupRangeIsScanIff(x: Index, low: string, high: string)
    requires Valid(x)
    ensures LookupRange(x, low, high) == FullScan(x, w => Between(low, w, high)) <==>
      forall i :: 0 <= i < |x.ranges| ==>
        Matching(EntriesOf(x.values, i), w => NullText(w) && Between(low, w, high)) == []
        || MightOverlap(x.ranges[i], low, high)
  {
    hide Matching;
    VisitIsScanIff(x, s => MightOverlap(s, low, high), w => Between(low, w, high), |x.ranges|);
    forall i | 0 <= i < |x.ranges| && !MightOverlap(x.ranges[i], low, high)
      ensures Matching(EntriesOf(x.values, i), w => Between(low, w, high)) == [] <==>
        Matching(EntriesOf(x.values, i), w => NullText(w) && Between(low, w, high)) == []
    {
      var entries := EntriesOf(x.values, i);
      NothingMatches(entries, w => Between(low, w, high));
      NothingMatches(entries, w => NullText(w) && Between(low, w, high));
      forall k | 0 <= k < |entries| && Between(low, entries[k].value, high)
        ensures NullText(entries[k].value)
      {
        SkippedHoldsNone(x.ranges[i], low, entries[k].value, high);
      }
    }
  }

  lemma SkippedHoldsNone(s: Summary, low: string, v: string, high: string)
    requires !MightOverlap(s, low, high) && Summarized(s, v) && Between(low, v, high)
    ensures NullText(v)
  {
    if !NullText(v) {
      TextAtMostTransitive(s.min.value, v, high);
      TextAtMostTransitive(low, v, s.max.value);
    }
  }
}
