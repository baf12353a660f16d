/** The block-range index object (src/btree/brin_index.rs) and what it answers after any run. */
module BlockRangeIndexes {
  import opened Wrappers
  import opened Order
  import opened BlockRanges

  // ---- runs -----------------------------------------------------------------

  /** A delete names the range that the hash map's iteration finds the entry in first. */
  datatype Event = Inserting(block: nat, entry: Entry) | Deleting(entry: Entry, range: nat)

  function NewIndex(pagesPerRange: nat): Index {
    Index(pagesPerRange, [], map[])
  }

  predicate Enabled(x: Index, e: Event) {
    match e
    case Inserting(block, _) => BlocksFit(x.pagesPerRange, block)
    case Deleting(entry, range) => entry in Contents(x) ==> entry in EntriesOf(x.values, range)
  }

  function Step(x: Index, e: Event): Index
    requires x.pagesPerRange > 0
  {
    match e
    case Inserting(block, entry) => Insert(x, block, entry.value, entry.tid)
    case Deleting(entry, range) => if entry in EntriesOf(x.values, range) then DeleteIn(x, range, entry) else x
  }

  function After(pagesPerRange: nat, events: seq<Event>): (x: Index)
    requires pagesPerRange > 0
    ensures x.pagesPerRange == pagesPerRange
  {
    if events == [] then NewIndex(pagesPerRange)
    else Step(After(pagesPerRange, events[..|events| - 1]), events[|events| - 1])
  }

  predicate Possible(pagesPerRange: nat, events: seq<Event>)
    requires pagesPerRange > 0
  {
    events == [] || (
      && Possible(pagesPerRange, events[..|events| - 1])
      && Enabled(After(pagesPerRange, events[..|events| - 1]), events[|events| - 1]))
  }

  /** The entries inserted and not deleted. */
  function Remaining(events: seq<Event>): multiset<Entry> {
    if events == [] then multiset{}
    else
      var before := Remaining(events[..|events| - 1]);
      match events[|events| - 1]
      case Inserting(_, entry) => before + multiset{entry}
      case Deleting(entry, _) => before - multiset{entry}
  }

  lemma StepEffect(x: Index, e: Event)
    requires Valid(x) && Enabled(x, e)
    ensures Valid(Step(x, e))
    ensures Contents(Step(x, e)) ==
      match e
      case Inserting(_, entry) => Contents(x) + multiset{entry}
      case Deleting(entry, _) => Contents(x) - multiset{entry}
  {
    assert x.pagesPerRange > 0;
    hide Valid, Contents, Insert, DeleteIn;
    match e
    case Inserting(block, entry) =>
      InsertKeepsValid(x, block, entry.value, entry.tid);
      InsertAdds(x, block, entry.value, entry.tid);
    case Deleting(entry, range) =>
      if entry in EntriesOf(x.values, range) {
        DeleteKeepsValid(x, range, entry);
        DeleteRemoves(x, range, entry);
      }
  }

  /** After any run the summaries cover their entries and the index holds what remains. */
  lemma {:induction false} RunHolds(pagesPerRange: nat, events: seq<Event>)
    requires pagesPerRange > 0 && Possible(pagesPerRange, events)
    ensures Valid(After(pagesPerRange, events))
    ensures Contents(After(pagesPerRange, events)) == Remaining(events)
    decreases |events|
  {
    if events != [] {
      hide Contents, Step, Enabled;
      RunHolds(pagesPerRange, events[..|events| - 1]);
      StepEffect(After(pagesPerRange, events[..|events| - 1]), events[|events| - 1]);
    }
  }

  // ---- what lookups count ---------------------------------------------------

  lemma {:induction false} MatchingCounts(entries: seq<Entry>, v: string, tid: Tid)
    ensures multiset(Matching(entries, w => w == v))[tid] == multiset(entries)[Entry(v, tid)]
    decreases |entries|
  {
    if entries != [] {
      var n := |entries| - 1;
      MatchingCounts(entries[..n], v, tid);
      assert entries == entries[..n] + [entries[n]];
      assert Matching(entries, w => w == v)
          == Matching(entries[..n], w => w == v) + if entries[n].value == v then [entries[n].tid] else [];
    }
  }

  lemma {:induction false} ScanCounts(x: Index, v: string, tid: Tid, n: nat)
    requires n <= |x.ranges|
    ensures multiset(Visit(x, s => true, w => w == v, n))[tid] == Held(x, n)[Entry(v, tid)]
    decreases n
  {
    hide Matching, EntriesOf;
    if n > 0 {
      ScanCounts(x, v, tid, n - 1);
      MatchingCounts(EntriesOf(x.values, n - 1), v, tid);
    }
  }

  /** After any run, looking up a value that is not null returns each row as often as it was inserted
      with that value and not deleted. */
  lemma {:induction false} LookupAfterRun(pagesPerRange: nat, events: seq<Event>, v: string, tid: Tid)
    requires pagesPerRange > 0 && Possible(pagesPerRange, events) && !NullText(v)
    ensures multiset(Lookup(After(pagesPerRange, events), v))[tid] == Remaining(events)[Entry(v, tid)]
  {
    hide After, Possible, Remaining, Visit;
    var x := After(pagesPerRange, events);
    RunHolds(pagesPerRange, events);
    LookupIsScanIff(x, v);
    ScanCounts(x, v, tid, |x.ranges|);
  }

  predicate NoNulls(events: seq<Event>) {
    forall i :: 0 <= i < |events| && events[i].Inserting? ==> !NullText(events[i].entry.value)
  }

  lemma {:induction false} RemainingHasNoNulls(events: seq<Event>, e: Entry)
    requires NoNulls(events) && e in Remaining(events)
    ensures !NullText(e.value)
    decreases |events|
  {
    if events != [] {
      var before := events[..|events| - 1];
      assert forall i :: 0 <= i < |before| ==> before[i] == events[i];
      if e in Remaining(before) {
        RemainingHasNoNulls(before, e);
      }
    }
  }

  /** After any run without nulls, a range lookup is the full scan, in the full scan's order. */
  lemma {:induction false} LookupRangeAfterRun(pagesPerRange: nat, events: seq<Event>, low: string, high: string)
    requires pagesPerRange > 0 && Possible(pagesPerRange, events) && NoNulls(events)
    ensures LookupRange(After(pagesPerRange, events), low, high)
         == FullScan(After(pagesPerRange, events), w => Between(low, w, high))
  {
    hide After, Possible, Remaining, Visit, Matching, NoNulls;
    var x := After(pagesPerRange, events);
    RunHolds(pagesPerRange, events);
    LookupRangeIsScanIff(x, low, high);
    forall i | 0 <= i < |x.ranges|
      ensures Matching(EntriesOf(x.values, i), w => NullText(w) && Between(low, w, high)) == []
    {
      var entries := EntriesOf(x.values, i);
      NothingMatches(entries, w => NullText(w) && Between(low, w, high));
      forall k | 0 <= k < |entries|
        ensures !NullText(entries[k].value)
      {
        HeldSomewhere(x, entries[k], |x.ranges|);
        RemainingHasNoNulls(events, entries[k]);
      }
    }
  }

  /** A range that holds the empty text and "b". */
  function OneNull(): seq<Event> {
    [Inserting(0, Entry("", Tid(7, 7))), Inserting(0, Entry("b", Tid(8, 8)))]
  }

  lemma OneNullIndex()
    ensures Possible(1, OneNull())
    ensures After(1, OneNull()) == Step(Step(NewIndex(1), OneNull()[0]), OneNull()[1])
  {
    hide Insert;
    var (e1, e2) := (OneNull()[0], OneNull()[1]);
    assert [e1][..0] == [] && [e1, e2][..1] == [e1];
    assert After(1, []) == NewIndex(1) && Possible(1, []);
    assert After(1, [e1]) == Step(NewIndex(1), e1) && Possible(1, [e1]);
  }

  lemma {:induction false} OneNullFields()
    ensures var x := Step(Step(NewIndex(1), OneNull()[0]), OneNull()[1]);
      x.ranges == [Summary(0, 0, Some("b"), Some("b"), 1, 1)]
      && EntriesOf(x.values, 0) == [Entry("", Tid(7, 7)), Entry("b", Tid(8, 8))]
  {
    hide TextLess;
    var x := Step(NewIndex(1), OneNull()[0]);
    assert x.ranges == [Summary(0, 0, None, None, 1, 0)];
    assert x.values[0] == [Entry("", Tid(7, 7))];
  }

  /** One null is enough to make a range lookup miss a row: the empty text is between the limits, but
      its range is skipped because its other value lies beyond them. */
  lemma RangeLookupMissesNull()
    ensures Possible(1, OneNull())
    ensures LookupRange(After(1, OneNull()), "", "a") == []
    ensures FullScan(After(1, OneNull()), w => Between("", w, "a")) == [Tid(7, 7)]
  {
    hide After, Possible, Step, EntriesOf, Between, TextLess, OneNull;
    var (first, second) := (Entry("", Tid(7, 7)), Entry("b", Tid(8, 8)));
    OneNullIndex();
    OneNullFields();
    TextsApart();
    assert Matching([first], w => Between("", w, "a")) == [Tid(7, 7)];
    assert Matching([first, second], w => Between("", w, "a")) == [Tid(7, 7)] by {
      assert [first, second][..1] == [first];
    }
  }

  lemma TextsApart()
    ensures Between("", "", "a") && TextLess("a", "b") && !Between("", "b", "a")
  {
    assert Codes("a") == [97] && Codes("b") == [98] && Codes("") == [];
  }

  lemma NotBelowItself(v: string)
    ensures !TextLess(v, v)
  {
    TextTrichotomy(v, v);
  }

  lemma NotHeld(x: Index, e: Entry)
    requires forall i :: e !in EntriesOf(x.values, i)
    ensures e !in Contents(x)
  {
    hide EntriesOf;
    HeldSomewhere(x, e, |x.ranges|);
  }

  // ---- the index object -----------------------------------------------------

  class BrinIndex {
    const pagesPerRange: nat
    var ranges: seq<Summary>
    var values: map<nat, seq<Entry>>

    function View(): Index
      reads this
    {
      Index(pagesPerRange, ranges, values)
    }

    constructor (pages: nat)
      ensures View() == NewIndex(pages)
    {
      pagesPerRange, ranges, values := pages, [], map[];
    }

    /** The loop at the start of an insert: add empty summaries until there are `count`. */
    method Grow(count: nat)
      requires pagesPerRange > 0
      modifies this`ranges
      ensures ranges == Grown(old(ranges), pagesPerRange, count)
    {
      while |ranges| < count
        invariant Grown(ranges, pagesPerRange, count) == Grown(old(ranges), pagesPerRange, count)
        decreases count - |ranges|
      {
        ranges := ranges + [Fresh(pagesPerRange, |ranges|)];
      }
    }

    /** The updates an insert makes to its range. */
    static method Widen(summary: Summary, v: string) returns (range: Summary)
      ensures range == Widened(summary, v)
    {
      hide TextLess;
      NotBelowItself(v);
      range := summary;
      if v == "" || v == "NULL" {
        range := range.(nullCount := range.nullCount + 1);
      } else {
        if range.min.None? {
          range := range.(min := Some(v), max := Some(v));
        } else if TextLess(v, range.min.value) {
          range := range.(min := Some(v));
        }
        if range.max.None? || TextLess(range.max.value, v) {
          range := range.(max := Some(v));
        }
        range := range.(distinctCount := range.distinctCount + 1);
      }
    }

    method InsertEntry(block: nat, v: string, tid: Tid)
      requires Valid(View()) && BlocksFit(pagesPerRange, block)
      modifies this
      ensures Valid(View()) && View() == Insert(old(View()), block, v, tid)
    {
      hide Widened;
      InsertKeepsValid(View(), block, v, tid);
      var i := block / pagesPerRange;
      Grow(i + 1);
      var range := Widen(ranges[i], v);
      ranges := ranges[i := range];
      values := values[i := (if i in values then values[i] else []) + [Entry(v, tid)]];
    }

    method LookupValue(v: string) returns (result: seq<Tid>)
      ensures result == Lookup(View(), v)
    {
      hide EntriesOf, MightContain;
      result := [];
      for i := 0 to |ranges|
        invariant result == Visit(View(), s => MightContain(s, v), w => w == v, i)
      {
        if MightContain(ranges[i], v) {
          result := Collect(i, result, w => w == v);
        }
      }
    }

    method LookupBetween(low: string, high: string) returns (result: seq<Tid>)
      ensures result == LookupRange(View(), low, high)
    {
      hide EntriesOf, MightOverlap, Between;
      result := [];
      for i := 0 to |ranges|
        invariant result == Visit(View(), s => MightOverlap(s, low, high), w => Between(low, w, high), i)
      {
        if MightOverlap(ranges[i], low, high) {
          result := Collect(i, result, w => Between(low, w, high));
        }
      }
    }

    /** The inner loop of both lookups. */
    method Collect(i: nat, sofar: seq<Tid>, wanted: string -> bool) returns (result: seq<Tid>)
      ensures result == sofar + Matching(EntriesOf(values, i), wanted)
    {
      result := sofar;
      if i in values {
        var entries := values[i];
        for k := 0 to |entries|
          invariant result == sofar + Matching(entries[..k], wanted)
        {
          assert entries[..k + 1][..k] == entries[..k];
          if wanted(entries[k].value) {
            result := result + [entries[k].tid];
          }
        }
        assert entries[..|entries|] == entries;
      }
    }

    /** The ranges are tried in any order. */
    method Delete(v: string, tid: Tid) returns (found: bool)
      requires Valid(View())
      modifies this
      ensures Valid(View()) && ranges == old(ranges)
      ensures found <==> Entry(v, tid) in old(Contents(View()))
      ensures Contents(View()) == old(Contents(View())) - multiset{Entry(v, tid)}
      ensures found ==> exists r :: Entry(v, tid) in EntriesOf(old(values), r) && View() == DeleteIn(old(View()), r, Entry(v, tid))
      ensures !found ==> values == old(values)
    {
      hide Contents, Valid;
      var e := Entry(v, tid);
      var todo := values.Keys;
      while todo != {}
        invariant View() == old(View())
        invariant forall i :: e in EntriesOf(values, i) ==> i in todo
        decreases todo
      {
        var r :| r in todo;
        todo := todo - {r};
        if r in values {
          var p := Find(values[r], e);
          if p < |values[r]| {
            DeleteKeepsValid(View(), r, e);
            DeleteRemoves(View(), r, e);
            values := values[r := values[r][..p] + values[r][p + 1..]];
            return true;
          }
        }
      }
      NotHeld(View(), e);
      found := false;
    }

    static method Find(entries: seq<Entry>, e: Entry) returns (p: nat)
      ensures p == Position(entries, e)
    {
      p := 0;
      while p < |entries| && entries[p] != e
        invariant p <= |entries| && Position(entries, e) == p + Position(entries[p..], e)
      {
        assert entries[p..][1..] == entries[p + 1..];
        p := p + 1;
      }
    }
  }
}
