/** What the block-range index keeps and returns, position by position (src/btree/brin_index.rs). */
module BlockRangeLaws {
  import opened Wrappers
  import opened Order
  import opened Selections
  import opened BlockRanges
  import opened BlockRangeIndexes

  // ---- updates ------------------------------------------------------------------

  /** An insert appends to the entries of the block's range and to no others; missing ranges are added,
      each covering its own blocks and nothing yet. */
  lemma InsertEffect(x: Index, block: nat, v: string, tid: Tid, k: nat)
    requires x.pagesPerRange > 0
    ensures var y := Insert(x, block, v, tid); var i := block / x.pagesPerRange; var p := x.pagesPerRange;
      && |y.ranges| == (if i < |x.ranges| then |x.ranges| else i + 1)
      && EntriesOf(y.values, k) == EntriesOf(x.values, k) + (if k == i then [Entry(v, tid)] else [])
      && (k < |y.ranges| ==>
            var before := if k < |x.ranges| then x.ranges[k] else Summary(k * p, k * p + p - 1, None, None, 0, 0);
            y.ranges[k] == if k == i then Widened(before, v) else before)
  {
    hide Widened;
    var (i, p) := (block / x.pagesPerRange, x.pagesPerRange);
    GrownLength(x.ranges, p, i + 1);
    assert (k + 1) * p == k * p + p;
  }

  lemma {:induction false} GrownLength(ranges: seq<Summary>, pagesPerRange: nat, count: nat)
    requires pagesPerRange > 0
    ensures |Grown(ranges, pagesPerRange, count)| == if |ranges| < count then count else |ranges|
    decreases count - |ranges|
  {
    hide Fresh;
    if |ranges| < count {
      GrownLength(ranges + [Fresh(pagesPerRange, |ranges|)], pagesPerRange, count);
    }
  }

  /** A delete takes out the first occurrence in the range and leaves all else, the summaries too. */
  lemma DeleteEffect(x: Index, r: nat, e: Entry, before: seq<Entry>, after: seq<Entry>, k: nat)
    requires EntriesOf(x.values, r) == before + [e] + after && e !in before
    ensures var y := DeleteIn(x, r, e);
      && y.ranges == x.ranges && y.pagesPerRange == x.pagesPerRange
      && EntriesOf(y.values, k) == if k == r then before + after else EntriesOf(x.values, k)
  {
    var entries := x.values[r];
    assert entries[|before|] == e && forall i :: 0 <= i < |before| ==> entries[i] == before[i];
    FirstIs(entries, e, |before|);
    hide Position;
    assert entries[..|before|] == before && entries[|before| + 1..] == after;
  }

  lemma {:induction false} FirstIs(entries: seq<Entry>, e: Entry, p: nat)
    requires p < |entries| && entries[p] == e && forall i :: 0 <= i < p ==> entries[i] != e
    ensures Position(entries, e) == p
    decreases p
  {
    if p > 0 {
      FirstIs(entries[1..], e, p - 1);
    }
  }

  // ---- summaries over a run -------------------------------------------------------

  /** The values ever inserted into a range, in order; deleting does not take any out. */
  function InsertedIn(pagesPerRange: nat, events: seq<Event>, i: nat): seq<string>
    requires pagesPerRange > 0
  {
    if events == [] then []
    else
      var before := InsertedIn(pagesPerRange, events[..|events| - 1], i);
      match events[|events| - 1]
      case Inserting(block, entry) => if block / pagesPerRange == i then before + [entry.value] else before
      case Deleting(_, _) => before
  }

  /** The values that are neither empty nor the text NULL. */
  function Real(values: seq<string>): seq<string> {
    if values == [] then []
    else
      var last := values[|values| - 1];
      Real(values[..|values| - 1]) + if last == "" || last == "NULL" then [] else [last]
  }

  ghost predicate Least(m: string, values: seq<string>) {
    m in values && forall v :: v in values ==> !TextBefore(v, m)
  }

  ghost predicate Greatest(m: string, values: seq<string>) {
    m in values && forall v :: v in values ==> !TextBefore(m, v)
  }

  /** A summary covers the range's blocks, counts nulls and values, and holds the least and the greatest
      value; what it calls the distinct count counts repetitions as well. */
  ghost predicate Exact(s: Summary, pagesPerRange: nat, i: nat, values: seq<string>) {
    && s.blockStart == i * pagesPerRange && s.blockEnd == i * pagesPerRange + pagesPerRange - 1
    && s.distinctCount == |Real(values)| && s.nullCount == |values| - |Real(values)|
    && (match s.min case None => Real(values) == [] case Some(m) => Least(m, Real(values)))
    && (match s.max case None => Real(values) == [] case Some(m) => Greatest(m, Real(values)))
  }

  lemma RealSnoc(values: seq<string>, v: string)
    ensures Real(values + [v]) == Real(values) + if v == "" || v == "NULL" then [] else [v]
  {
    assert (values + [v])[..|values|] == values;
  }

  lemma LessIsTextBefore(a: string)
    ensures forall b :: TextLess(a, b) <==> TextBefore(a, b)
    ensures forall b :: TextLess(b, a) <==> TextBefore(b, a)
  {
    forall b: string
      ensures (TextLess(a, b) <==> TextBefore(a, b)) && (TextLess(b, a) <==> TextBefore(b, a))
    {
      TextOrder(a, b);
      TextOrder(b, a);
    }
  }

  lemma LeastOf(bound: Option<string>, values: seq<string>, v: string)
    requires match bound case None => values == [] case Some(m) => Least(m, values)
    ensures Least(if bound.None? || TextLess(v, bound.value) then v else bound.value, values + [v])
  {
    hide TextLess, TextBefore;
    LessIsTextBefore(v);
    TextTrichotomy(v, v);
    if bound.Some? && TextLess(v, bound.value) {
      forall w | w in values
        ensures !TextBefore(w, v)
      {
        LessIsTextBefore(w);
        if TextLess(w, v) {
          TextTransitive(w, v, bound.value);
        }
      }
    }
  }

  lemma GreatestOf(bound: Option<string>, values: seq<string>, v: string)
    requires match bound case None => values == [] case Some(m) => Greatest(m, values)
    ensures Greatest(if bound.None? || TextLess(bound.value, v) then v else bound.value, values + [v])
  {
    hide TextLess, TextBefore;
    LessIsTextBefore(v);
    TextTrichotomy(v, v);
    if bound.Some? && TextLess(bound.value, v) {
      forall w | w in values
        ensures !TextBefore(v, w)
      {
        LessIsTextBefore(w);
        if TextLess(v, w) {
          TextTransitive(bound.value, v, w);
        }
      }
    }
  }

  lemma WidenedIsExact(s: Summary, pagesPerRange: nat, i: nat, values: seq<string>, v: string)
    requires Exact(s, pagesPerRange, i, values)
    ensures Exact(Widened(s, v), pagesPerRange, i, values + [v])
  {
    NotEmpty(s, values);
    hide Least, Greatest, TextLess, Real;
    RealSnoc(values, v);
    var w := Widened(s, v);
    if v == "" || v == "NULL" {
      assert Real(values + [v]) == Real(values);
    } else {
      LeastOf(s.min, Real(values), v);
      GreatestOf(s.max, Real(values), v);
      assert w.min == Some(if s.min.None? || TextLess(v, s.min.value) then v else s.min.value);
      assert w.max == Some(if s.max.None? || TextLess(s.max.value, v) then v else s.max.value);
    }
  }

  lemma NotEmpty(s: Summary, values: seq<string>)
    requires match s.min case None => Real(values) == [] case Some(m) => Least(m, Real(values))
    requires match s.max case None => Real(values) == [] case Some(m) => Greatest(m, Real(values))
    ensures s.min.None? <==> s.max.None?
  {}

  lemma NothingYet(pagesPerRange: nat, i: nat)
    requires pagesPerRange > 0
    ensures Exact(Summary(i * pagesPerRange, i * pagesPerRange + pagesPerRange - 1, None, None, 0, 0), pagesPerRange, i, [])
  {}

  /** After any run every summary is exact, and there is one for each range up to the last one used. */
  lemma {:induction false} SummariesAreExact(pagesPerRange: nat, events: seq<Event>, i: nat)
    requires pagesPerRange > 0
    ensures var x := After(pagesPerRange, events);
      if i < |x.ranges| then Exact(x.ranges[i], pagesPerRange, i, InsertedIn(pagesPerRange, events, i))
      else InsertedIn(pagesPerRange, events, i) == []
    decreases |events|
  {
    hide Exact, Insert, Widened, DeleteIn, Real;
    if events != [] {
      var (shorter, e) := (events[..|events| - 1], events[|events| - 1]);
      var x := After(pagesPerRange, shorter);
      SummariesAreExact(pagesPerRange, shorter, i);
      match e {
        case Inserting(block, entry) =>
          InsertEffect(x, block, entry.value, entry.tid, i);
          NothingYet(pagesPerRange, i);
          if i == block / pagesPerRange {
            var s := if i < |x.ranges| then x.ranges[i] else Summary(i * pagesPerRange, i * pagesPerRange + pagesPerRange - 1, None, None, 0, 0);
            WidenedIsExact(s, pagesPerRange, i, InsertedIn(pagesPerRange, shorter, i), entry.value);
          }
        case Deleting(entry, r) =>
          if entry in EntriesOf(x.values, r) {
            DeleteKeepsSummaries(x, r, entry);
          }
      }
    }
  }

  lemma DeleteKeepsSummaries(x: Index, r: nat, e: Entry)
    requires e in EntriesOf(x.values, r)
    ensures DeleteIn(x, r, e).ranges == x.ranges
  {}

  // ---- lookups --------------------------------------------------------------------

  /** Which ranges a lookup visits, for summaries as runs leave them. */
  lemma Visits(s: Summary, v: string, low: string, high: string)
    requires s.min.Some? <==> s.max.Some?
    ensures MightContain(s, v) <==>
      if s.min.Some? then !TextBefore(v, s.min.value) && !TextBefore(s.max.value, v) else s.nullCount > 0 && (v == "" || v == "NULL")
    ensures MightOverlap(s, low, high) <==>
      (s.min.Some? ==> !TextBefore(high, s.min.value) && !TextBefore(s.max.value, low))
  {
    hide TextLess, TextBefore;
    LessIsTextBefore(v);
    LessIsTextBefore(low);
    LessIsTextBefore(high);
  }

  /** The identifiers of the entries wanted, in order. */
  lemma {:induction false} MatchingIs(entries: seq<Entry>, wanted: string -> bool) returns (ps: seq<nat>)
    ensures Increasing(ps) && Taken(Matching(entries, wanted), TidsOf(entries), ps)
    ensures forall i: nat :: i in ps <==> i < |entries| && wanted(entries[i].value)
    decreases |entries|
  {
    if entries == [] {
      ps := [];
    } else {
      var n := |entries| - 1;
      ps := MatchingIs(entries[..n], wanted);
      assert TidsOf(entries) == TidsOf(entries[..n]) + [entries[n].tid];
      TakenSnoc(Matching(entries[..n], wanted), TidsOf(entries[..n]), ps, entries[n].tid);
      if wanted(entries[n].value) {
        ps := ps + [n];
      }
    }
  }

  function TidsOf(entries: seq<Entry>): seq<Tid> {
    seq(|entries|, i requires 0 <= i < |entries| => entries[i].tid)
  }

  /** The entries of the ranges visited, range after range. */
  function Visited(x: Index, visits: Summary -> bool, n: nat): seq<Entry>
    requires n <= |x.ranges|
  {
    if n == 0 then [] else Visited(x, visits, n - 1) + if visits(x.ranges[n - 1]) then EntriesOf(x.values, n - 1) else []
  }

  lemma {:induction false} MatchingAppends(a: seq<Entry>, b: seq<Entry>, wanted: string -> bool)
    ensures Matching(a + b, wanted) == Matching(a, wanted) + Matching(b, wanted)
    decreases |b|
  {
    if b == [] {
      assert a + b == a;
    } else {
      assert (a + b)[..|a + b| - 1] == a + b[..|b| - 1];
      MatchingAppends(a, b[..|b| - 1], wanted);
    }
  }

  /** A lookup returns the wanted entries of the ranges it visits, in range order. */
  lemma {:induction false} VisitIs(x: Index, visits: Summary -> bool, wanted: string -> bool, n: nat)
    requires n <= |x.ranges|
    ensures Visit(x, visits, wanted, n) == Matching(Visited(x, visits, n), wanted)
    decreases n
  {
    hide Matching, EntriesOf;
    if n > 0 {
      VisitIs(x, visits, wanted, n - 1);
      MatchingAppends(Visited(x, visits, n - 1), if visits(x.ranges[n - 1]) then EntriesOf(x.values, n - 1) else [], wanted);
    }
    assert Matching([], wanted) == [] by {
      NothingMatches([], wanted);
    }
  }
}
