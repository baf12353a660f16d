/** The write-ahead log (src/wal/mod.rs): log positions, segments, and what flushing guarantees. */
module WriteAheadLog {
  import opened ByteCodec
  import opened PageStores

  const U64: nat := 0x1_0000_0000_0000_0000

  datatype Record = Record(start: nat, data: Bytes) {
    function End(): nat {
      start + |data|
    }
  }

  /** The log's fields, with the history of the records appended so far. */
  datatype Log = Log(segment: nat, current: nat, flushed: nat, pages: map<nat, Bytes>, records: seq<Record>)

  function Empty(segment: nat): Log {
    Log(segment, 0, 0, map[], [])
  }

  // ---- operations -----------------------------------------------------------

  /** Position inside its segment: the remainder, by repeated subtraction. */
  function Offset(segment: nat, lsn: nat): (offset: nat)
    requires segment > 0
    ensures offset < segment && offset <= lsn
    decreases lsn
  {
    if lsn < segment then lsn else Offset(segment, lsn - segment)
  }

  /** Number of the segment: the quotient. */
  function SegmentOf(segment: nat, lsn: nat): nat
    requires segment > 0
    decreases lsn
  {
    if lsn < segment then 0 else 1 + SegmentOf(segment, lsn - segment)
  }

  /** Where a record of `size` bytes goes: at the end, or at the next segment if it would not fit. */
  function Start(segment: nat, current: nat, size: nat): (start: nat)
    requires segment > 0
    ensures current <= start
  {
    if Offset(segment, current) + size > segment then current + (segment - Offset(segment, current)) else current
  }

  function PageOf(segment: nat, lsn: nat): nat
    requires segment > 0
  {
    (1 + SegmentOf(segment, lsn)) % U32
  }

  /** A page as `append` sees it: padded with zeros to a whole segment. */
  function Padded(s: Log, id: nat): (page: Bytes)
    ensures |page| >= s.segment
  {
    var page := PageBytes(s.pages, id);
    if |page| < s.segment then page + Zeros(s.segment - |page|) else page
  }

  /** The copy stays inside the page, and neither the page id nor the log position overflows. */
  predicate Fits(s: Log, data: Bytes) {
    s.segment > 0 &&
    var start := Start(s.segment, s.current, |data|);
    && Offset(s.segment, start) + |data| <= |Padded(s, PageOf(s.segment, start))|
    && 1 + SegmentOf(s.segment, start) < U32
    && start + |data| < U64
  }

  function Spliced(page: Bytes, at: nat, data: Bytes): Bytes
    requires at + |data| <= |page|
  {
    page[..at] + data + page[at + |data|..]
  }

  function AfterAppend(s: Log, data: Bytes): Log
    requires Fits(s, data)
  {
    var start := Start(s.segment, s.current, |data|);
    var id := PageOf(s.segment, start);
    s.(current := start + |data|,
       pages := s.pages[id := Spliced(Padded(s, id), Offset(s.segment, start), data)],
       records := s.records + [Record(start, data)])
  }

  function AfterFlush(s: Log): Log {
    s.(flushed := s.current)
  }

  function AfterEnsure(s: Log, lsn: nat): Log {
    if s.current > s.flushed && lsn >= s.flushed then AfterFlush(s) else s
  }

  datatype Event = Appending(data: Bytes) | Flushing | Ensuring(lsn: nat)

  predicate Enabled(s: Log, e: Event) {
    e.Appending? ==> Fits(s, e.data)
  }

  function Step(s: Log, e: Event): Log
    requires Enabled(s, e)
  {
    match e
    case Appending(data) => AfterAppend(s, data)
    case Flushing => AfterFlush(s)
    case Ensuring(lsn) => AfterEnsure(s, lsn)
  }

  predicate Runs(s: Log, events: seq<Event>)
    decreases |events|
  {
    events == [] || (Enabled(s, events[0]) && Runs(Step(s, events[0]), events[1..]))
  }

  function Run(s: Log, events: seq<Event>): Log
    requires Runs(s, events)
    decreases |events|
  {
    if events == [] then s else Run(Step(s, events[0]), events[1..])
  }

  // ---- what every run keeps -------------------------------------------------

  /** The bytes of `r` are found at its log position. */
  predicate Readable(segment: nat, pages: map<nat, Bytes>, r: Record) {
    segment > 0 &&
    var page := PageBytes(pages, PageOf(segment, r.start));
    var at := Offset(segment, r.start);
    at + |r.data| <= |page| && page[at..at + |r.data|] == r.data
  }

  /** A record stays inside its segment exactly when it is no longer than a segment. */
  predicate InSegment(segment: nat, r: Record)
    requires segment > 0
  {
    Offset(segment, r.start) + |r.data| <= segment <==> |r.data| <= segment
  }

  /** Later records start where earlier ones have ended. */
  predicate Ordered(records: seq<Record>) {
    forall i, j :: 0 <= i < j < |records| ==> records[i].End() <= records[j].start
  }

  /** `lsn` is where the log begins or where some record ends. */
  ghost predicate RecordEnd(records: seq<Record>, lsn: nat) {
    lsn == 0 || exists i :: 0 <= i < |records| && records[i].End() == lsn
  }

  ghost predicate Valid(s: Log) {
    && s.segment > 0
    && Ordered(s.records)
    && (forall i :: 0 <= i < |s.records| ==>
          s.records[i].End() <= s.current && 1 + SegmentOf(s.segment, s.records[i].start) < U32)
    && (forall i :: 0 <= i < |s.records| ==> InSegment(s.segment, s.records[i]) && Readable(s.segment, s.pages, s.records[i]))
    && RecordEnd(s.records, s.current) && RecordEnd(s.records, s.flushed)
    && s.flushed <= s.current
    && forall id :: id in s.pages ==> |s.pages[id]| == PageLength(s.segment)
  }

  /** A segment's page is at least the store's default page. */
  function PageLength(segment: nat): nat {
    if segment < 8192 then 8192 else segment
  }

  lemma {:induction false} PositionDecomposes(segment: nat, n: nat)
    requires segment > 0
    ensures n == SegmentOf(segment, n) * segment + Offset(segment, n)
    decreases n
  {
    if n >= segment {
      PositionDecomposes(segment, n - segment);
      AddOne(segment, SegmentOf(segment, n - segment));
    }
  }

  lemma AddOne(m: int, a: int)
    ensures (1 + a) * m == m + a * m
  {}

  lemma Distribute(m: int, a: int, b: int)
    ensures (a - b) * m == a * m - b * m
  {}

  lemma AtLeast(m: nat, d: nat)
    requires d >= 1
    ensures d * m >= m
  {}

  lemma UniqueDivision(m: nat, q: nat, r: nat, k: nat, t: nat)
    requires r < m && t < m && q * m + r == k * m + t
    ensures q == k && r == t
  {
    Distribute(m, q, k);
    Distribute(m, k, q);
    if q != k {
      AtLeast(m, if q > k then q - k else k - q);
    }
  }

  lemma DivMod(segment: nat, n: nat)
    requires segment > 0
    ensures n == (n / segment) * segment + n % segment
  {}

  /** They are the source's remainder and quotient. */
  lemma {:induction false} OffsetIsRemainder(segment: nat, n: nat)
    requires segment > 0
    ensures Offset(segment, n) == n % segment && SegmentOf(segment, n) == n / segment
  {
    PositionDecomposes(segment, n);
    DivMod(segment, n);
    UniqueDivision(segment, SegmentOf(segment, n), Offset(segment, n), n / segment, n % segment);
  }

  lemma {:induction false} BoundaryHasNoOffset(segment: nat, n: nat)
    requires segment > 0
    ensures Offset(segment, n + (segment - Offset(segment, n))) == 0
    decreases n
  {
    if n >= segment {
      BoundaryHasNoOffset(segment, n - segment);
    }
  }

  lemma {:induction false} StartInSegment(segment: nat, current: nat, data: Bytes)
    requires segment > 0
    ensures InSegment(segment, Record(Start(segment, current, |data|), data))
    ensures |data| > segment ==> Offset(segment, Start(segment, current, |data|)) == 0
  {
    if Offset(segment, current) + |data| > segment {
      BoundaryHasNoOffset(segment, current);
    }
  }

  /** `append` panics exactly on records longer than a page. */
  lemma {:induction false} FitsWhen(s: Log, data: Bytes)
    requires Valid(s)
    requires 1 + SegmentOf(s.segment, Start(s.segment, s.current, |data|)) < U32
    requires Start(s.segment, s.current, |data|) + |data| < U64
    ensures Fits(s, data) <==> |data| <= PageLength(s.segment)
  {
    StartInSegment(s.segment, s.current, data);
    var start := Start(s.segment, s.current, |data|);
    assert |Padded(s, PageOf(s.segment, start))| == PageLength(s.segment);
  }

  /** Within one segment, positions and offsets advance together. */
  lemma {:induction false} SameSegment(segment: nat, n: nat, size: nat, start: nat)
    requires segment > 0 && n + size <= start && SegmentOf(segment, n) == SegmentOf(segment, start)
    ensures Offset(segment, n) + size <= Offset(segment, start)
    decreases n
  {
    if n >= segment {
      SameSegment(segment, n - segment, size, start - segment);
    }
  }

  lemma DifferentPages(segment: nat, a: nat, b: nat)
    requires segment > 0 && 1 + SegmentOf(segment, a) < U32 && 1 + SegmentOf(segment, b) < U32
    ensures PageOf(segment, a) == PageOf(segment, b) <==> SegmentOf(segment, a) == SegmentOf(segment, b)
  {
    assert PageOf(segment, a) == 1 + SegmentOf(segment, a) && PageOf(segment, b) == 1 + SegmentOf(segment, b);
  }

  lemma KeptBefore(a: Bytes, b: Bytes, from: nat, to: nat)
    requires from <= to <= |a|
    ensures (a + b)[from..to] == a[from..to]
  {}

  /** Padding a page keeps what was on it. */
  lemma PaddedKeeps(s: Log, id: nat, from: nat, to: nat)
    requires from <= to <= |PageBytes(s.pages, id)|
    ensures to <= |Padded(s, id)| && Padded(s, id)[from..to] == PageBytes(s.pages, id)[from..to]
  {
    hide PageBytes;
    var read := PageBytes(s.pages, id);
    if |read| < s.segment {
      KeptBefore(read, Zeros(s.segment - |read|), from, to);
    }
  }

  /** Copying into a page keeps what is in front of the copy. */
  lemma SplicedKeeps(page: Bytes, at: nat, data: Bytes, from: nat, to: nat)
    requires from <= to <= at && at + |data| <= |page|
    ensures |Spliced(page, at, data)| == |page| && Spliced(page, at, data)[from..to] == page[from..to]
  {
    assert Spliced(page, at, data) == page[..at] + (data + page[at + |data|..]);
    KeptBefore(page[..at], data + page[at + |data|..], from, to);
  }

  lemma {:induction false} StaysReadable(s: Log, data: Bytes, r: Record)
    requires s.segment > 0 && Fits(s, data) && Readable(s.segment, s.pages, r)
    requires r.End() <= s.current && 1 + SegmentOf(s.segment, r.start) < U32
    ensures Readable(s.segment, AfterAppend(s, data).pages, r)
  {
    hide Padded, Spliced;
    var start := Start(s.segment, s.current, |data|);
    var id := PageOf(s.segment, start);
    DifferentPages(s.segment, r.start, start);
    if PageOf(s.segment, r.start) == id {
      var at := Offset(s.segment, r.start);
      SameSegment(s.segment, r.start, |r.data|, start);
      PaddedKeeps(s, id, at, at + |r.data|);
      SplicedKeeps(Padded(s, id), Offset(s.segment, start), data, at, at + |r.data|);
    }
  }

  lemma NewIsReadable(s: Log, data: Bytes)
    requires Fits(s, data)
    ensures Readable(s.segment, AfterAppend(s, data).pages, Record(Start(s.segment, s.current, |data|), data))
  {
    var start := Start(s.segment, s.current, |data|);
    var at := Offset(s.segment, start);
    var page := Padded(s, PageOf(s.segment, start));
    assert Spliced(page, at, data)[at..at + |data|] == data;
  }

  lemma {:induction false} AppendKeepsValid(s: Log, data: Bytes)
    requires Valid(s) && Fits(s, data)
    ensures Valid(AfterAppend(s, data))
  {
    hide Readable, InSegment, Spliced, Padded;
    var t := AfterAppend(s, data);
    var start := Start(s.segment, s.current, |data|);
    NewIsReadable(s, data);
    StartInSegment(s.segment, s.current, data);
    forall i | 0 <= i < |s.records|
      ensures Readable(t.segment, t.pages, s.records[i])
    {
      StaysReadable(s, data, s.records[i]);
    }
    assert t.records[|s.records|] == Record(start, data);
    assert RecordEnd(t.records, t.current);
    KeepsRecordEnd(s.records, t.records[|s.records|], s.flushed);
    AppendedLength(s, data);
  }

  lemma KeepsRecordEnd(records: seq<Record>, r: Record, lsn: nat)
    requires RecordEnd(records, lsn)
    ensures RecordEnd(records + [r], lsn)
  {
    if lsn != 0 {
      var i :| 0 <= i < |records| && records[i].End() == lsn;
      assert (records + [r])[i].End() == lsn;
    }
  }

  lemma {:induction false} AppendedLength(s: Log, data: Bytes)
    requires Valid(s) && Fits(s, data)
    ensures forall id :: id in AfterAppend(s, data).pages ==> |AfterAppend(s, data).pages[id]| == PageLength(s.segment)
  {}

  lemma EmptyIsValid(segment: nat)
    requires segment > 0
    ensures Valid(Empty(segment))
  {}

  lemma {:induction false} StepKeepsValid(s: Log, e: Event)
    requires Valid(s) && Enabled(s, e)
    ensures var t := Step(s, e);
      Valid(t) && t.segment == s.segment && s.records <= t.records && s.flushed <= t.flushed && s.current <= t.current
  {
    hide Fits, Readable, InSegment, RecordEnd, Ordered;
    if e.Appending? {
      AppendKeepsValid(s, e.data);
    }
  }

  /** Every run keeps the log valid: positions increase, records do not overlap, stay readable byte
      for byte, and only over-long ones cross a segment. */
  lemma {:induction false} RunKeepsValid(s: Log, events: seq<Event>)
    requires Valid(s) && Runs(s, events)
    ensures var t := Run(s, events);
      Valid(t) && t.segment == s.segment && s.records <= t.records && s.flushed <= t.flushed && s.current <= t.current
    decreases |events|
  {
    hide Valid, Enabled, Step;
    if events != [] {
      StepKeepsValid(s, events[0]);
      RunKeepsValid(Step(s, events[0]), events[1..]);
    }
  }

  /** A flush position past a record's start is past its end: records are flushed whole or not at all. */
  lemma FlushedWhole(s: Log, i: nat)
    requires Valid(s) && i < |s.records|
    ensures s.records[i].start < s.flushed ==> s.records[i].End() <= s.flushed
  {
    if s.records[i].start < s.flushed {
      var j :| 0 <= j < |s.records| && s.records[j].End() == s.flushed;
      assert j >= i;
    }
  }

  /** After `ensure_flushed(lsn)`, whatever else the run did before and does later, every record
      that started at or before `lsn` lies whole below the flush position. */
  lemma {:induction false} EnsuredIsDurable(segment: nat, before: seq<Event>, lsn: nat, later: seq<Event>, i: nat)
    requires segment > 0 && Runs(Empty(segment), before)
    requires var s := Run(Empty(segment), before);
      && i < |s.records| && s.records[i].start <= lsn && Runs(AfterEnsure(s, lsn), later)
    ensures var s := Run(Empty(segment), before);
      var t := Run(AfterEnsure(s, lsn), later);
      && i < |t.records| && t.records[i] == s.records[i]
      && t.records[i].End() <= t.flushed && Readable(t.segment, t.pages, t.records[i])
  {
    hide Fits, Readable, InSegment, Ordered, Runs, Run;
    EmptyIsValid(segment);
    RunKeepsValid(Empty(segment), before);
    var s := Run(Empty(segment), before);
    FlushedWhole(s, i);
    var u := AfterEnsure(s, lsn);
    StepKeepsValid(s, Ensuring(lsn));
    RunKeepsValid(u, later);
  }

  // ---- where records go -----------------------------------------------------

  /** The least multiple of the segment size above a position. */
  function NextSegment(segment: nat, lsn: nat): nat
    requires segment > 0
  {
    (lsn / segment + 1) * segment
  }

  lemma NextSegmentIsLeast(segment: nat, lsn: nat)
    requires segment > 0
    ensures lsn < NextSegment(segment, lsn) <= lsn + segment && NextSegment(segment, lsn) == lsn + (segment - lsn % segment)
  {
    DivMod(segment, lsn);
    AddOne(segment, lsn / segment);
  }

  /** Where a record belongs that follows on a position: there if the rest of the segment takes it. */
  function PlaceFor(segment: nat, end: nat, size: nat): nat
    requires segment > 0
  {
    if end % segment + size <= segment then end else NextSegment(segment, end)
  }

  /** A record goes right behind the last one if the rest of the segment takes it, and otherwise, even
      from a boundary, to the next segment. */
  lemma StartsWhere(segment: nat, current: nat, size: nat)
    requires segment > 0
    ensures Start(segment, current, size) == PlaceFor(segment, current, size)
    ensures Start(segment, current, size) == current <==> current % segment + size <= segment
  {
    hide NextSegment, Offset;
    OffsetIsRemainder(segment, current);
    NextSegmentIsLeast(segment, current);
  }

  /** The record's bytes are on the page of its segment, at the remainder; what was on the page besides,
      zeros beyond its end, is unchanged, and so are all other pages. */
  lemma AppendEffect(s: Log, data: Bytes)
    requires Valid(s) && Fits(s, data)
    ensures var t := AfterAppend(s, data);
      var start := PlaceFor(s.segment, s.current, |data|);
      var (id, at, page) := ((1 + start / s.segment) % 0x1_0000_0000, start % s.segment, PageBytes(s.pages, (1 + start / s.segment) % 0x1_0000_0000));
      && t == s.(current := start + |data|, records := s.records + [Record(start, data)], pages := t.pages)
      && t.pages.Keys == s.pages.Keys + {id}
      && (forall k :: k in s.pages && k != id ==> t.pages[k] == s.pages[k])
      && |t.pages[id]| == (if |page| < s.segment then s.segment else |page|)
      && (forall k :: at <= k < at + |data| ==> k < |t.pages[id]| && t.pages[id][k] == data[k - at])
      && (forall k :: 0 <= k < |page| && !(at <= k < at + |data|) ==> t.pages[id][k] == page[k])
      && (forall k :: |page| <= k < |t.pages[id]| && !(at <= k < at + |data|) ==> t.pages[id][k] == 0)
  {
    hide Valid, Offset, SegmentOf, NextSegment;
    StartsWhere(s.segment, s.current, |data|);
    OffsetIsRemainder(s.segment, Start(s.segment, s.current, |data|));
  }

  /** Each record starts where the one before ends, unless it would have crossed a segment. */
  ghost predicate Adjacent(s: Log) {
    && s.segment > 0
    && s.current == EndOfLast(s.records, |s.records|)
    && forall i :: 0 <= i < |s.records| ==>
         s.records[i].start == PlaceFor(s.segment, EndOfLast(s.records, i), |s.records[i].data|)
  }

  /** Where the first `n` records end. */
  function EndOfLast(records: seq<Record>, n: nat): nat
    requires n <= |records|
  {
    if n == 0 then 0 else records[n - 1].start + |records[n - 1].data|
  }

  function AppendedData(events: seq<Event>): seq<Bytes>
    decreases |events|
  {
    if events == [] then []
    else (if events[0].Appending? then [events[0].data] else []) + AppendedData(events[1..])
  }

  function DataOf(records: seq<Record>): seq<Bytes> {
    seq(|records|, i requires 0 <= i < |records| => records[i].data)
  }

  lemma StepKeepsAdjacent(s: Log, e: Event)
    requires Adjacent(s) && Enabled(s, e)
    ensures Adjacent(Step(s, e)) && Step(s, e).segment == s.segment
    ensures DataOf(Step(s, e).records) == DataOf(s.records) + if e.Appending? then [e.data] else []
  {
    hide Start, Fits, PlaceFor, Padded, Spliced, Offset, SegmentOf;
    if e.Appending? {
      StartsWhere(s.segment, s.current, |e.data|);
      var r := Record(Start(s.segment, s.current, |e.data|), e.data);
      assert Step(s, e).records == s.records + [r];
      EndsSnoc(s.records, r);
      assert DataOf(s.records + [r]) == DataOf(s.records) + [e.data];
    } else {
      assert DataOf(s.records) + [] == DataOf(s.records);
    }
  }

  lemma EndsSnoc(records: seq<Record>, r: Record)
    ensures forall i :: 0 <= i <= |records| ==> EndOfLast(records + [r], i) == EndOfLast(records, i)
    ensures EndOfLast(records + [r], |records| + 1) == r.start + |r.data|
  {}

  lemma {:induction false} RunStaysAdjacent(s: Log, events: seq<Event>)
    requires Adjacent(s) && Runs(s, events)
    ensures Adjacent(Run(s, events)) && Run(s, events).segment == s.segment
    ensures DataOf(Run(s, events).records) == DataOf(s.records) + AppendedData(events)
    decreases |events|
  {
    hide Adjacent, Enabled, Step, DataOf;
    if events == [] {
      assert DataOf(s.records) + [] == DataOf(s.records);
    } else {
      StepKeepsAdjacent(s, events[0]);
      RunStaysAdjacent(Step(s, events[0]), events[1..]);
      var (a, b, c) := (DataOf(s.records), if events[0].Appending? then [events[0].data] else [], AppendedData(events[1..]));
      assert (a + b) + c == a + (b + c);
    }
  }

  /** Over any run of an empty log: the records are the data appended, in order, and each starts where
      the one before ends unless it would have crossed a segment. */
  lemma RecordsAreAdjacent(segment: nat, events: seq<Event>)
    requires segment > 0 && Runs(Empty(segment), events)
    ensures var t := Run(Empty(segment), events);
      t.segment == segment && Adjacent(t) && DataOf(t.records) == AppendedData(events)
  {
    hide Run, Runs;
    RunStaysAdjacent(Empty(segment), events);
    assert DataOf(Empty(segment).records) == [];
  }

  // ---- the log object -------------------------------------------------------

  class WAL {
    const storage: PageStore
    var currentLsn: nat
    var flushedLsn: nat
    const segmentSize: nat
    var flushCount: nat
    ghost var records: seq<Record>

    ghost function View(): Log
      reads this, storage
    {
      Log(segmentSize, currentLsn, flushedLsn, storage.pages, records)
    }

    constructor (segmentSize: nat)
      ensures View() == Empty(segmentSize) && flushCount == 0 && fresh(storage)
    {
      storage := new PageStore();
      this.segmentSize := segmentSize;
      currentLsn, flushedLsn, flushCount, records := 0, 0, 0, [];
    }

    /** The encoded record's bytes are a parameter. */
    method Append(data: Bytes) returns (start: nat)
      requires Valid(View()) && Fits(View(), data)
      modifies this, storage
      ensures Valid(View()) && flushCount == old(flushCount)
      ensures View() == AfterAppend(old(View()), data)
      ensures start == PlaceFor(segmentSize, old(currentLsn), |data|)
      ensures currentLsn == start + |data|
      ensures records == old(records) + [Record(start, data)] && Readable(segmentSize, storage.pages, Record(start, data))
    {
      hide Valid, Readable, Zeros, Offset, SegmentOf, PlaceFor;
      StartsWhere(segmentSize, currentLsn, |data|);
      ghost var before := View();
      AppendKeepsValid(before, data);
      NewIsReadable(before, data);
      OffsetIsRemainder(segmentSize, currentLsn);
      OffsetIsRemainder(segmentSize, Start(segmentSize, currentLsn, |data|));
      var current := currentLsn;
      var within := current % segmentSize;
      if within + |data| > segmentSize {
        current := current + (segmentSize - within);
      }
      currentLsn := current + |data|;
      var id := (1 + current / segmentSize) % U32;
      var page := storage.ReadPage(id);
      if |page| < segmentSize {
        page := page + Zeros(segmentSize - |page|);
      }
      var offset := current % segmentSize;
      storage.WritePage(id, page[..offset] + data + page[offset + |data|..]);
      records := records + [Record(current, data)];
      start := current;
    }

    method Flush()
      modifies this
      ensures View() == AfterFlush(old(View())) && flushCount == old(flushCount) + 1
      ensures flushedLsn == currentLsn == old(currentLsn)
    {
      flushedLsn := currentLsn;
      flushCount := flushCount + 1;
    }

    method EnsureFlushed(lsn: nat)
      requires Valid(View())
      modifies this
      ensures Valid(View()) && View() == AfterEnsure(old(View()), lsn)
      ensures forall i :: 0 <= i < |records| && records[i].start <= lsn ==> records[i].End() <= flushedLsn
      ensures currentLsn == old(currentLsn) && flushedLsn ==
        if old(currentLsn) > old(flushedLsn) && lsn >= old(flushedLsn) then old(currentLsn) else old(flushedLsn)
      ensures flushCount - old(flushCount) ==
        if old(currentLsn) > old(flushedLsn) && lsn >= old(flushedLsn) then 1 else 0
    {
      forall i | 0 <= i < |records| && records[i].start <= lsn
        ensures records[i].start < flushedLsn ==> records[i].End() <= flushedLsn
      {
        FlushedWhole(View(), i);
      }
      if currentLsn > flushedLsn && lsn >= flushedLsn {
        Flush();
      }
    }
  }
}
