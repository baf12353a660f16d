/** Partition routing and pruning (src/executor/partition/mod.rs, src/executor/partition/pruning.rs). */
module Partitions {
  import opened Wrappers
  import opened Ast
  import opened Order
  import opened Evaluation
  import opened ByteCodec

  datatype Strategy = Range | List | Hash

  datatype RangeBound = RangeBound(inclusive: bool, values: seq<string>)

  datatype Bound =
    | RangeBounds(ranges: seq<RangeBound>)
    | ListBounds(lists: seq<seq<string>>)
    | HashBound(modulus: nat, remainder: nat)

  datatype Entry = Entry(oid: nat, bound: Bound)

  datatype Partitioning = Partitioning(strategy: Strategy, columns: seq<string>, entries: seq<Entry>)

  // ---- routing --------------------------------------------------------------

  function Utf8Char(c: char): Bytes {
    var n := c as int;
    if n < 0x80 then [n]
    else if n < 0x800 then [0xC0 + n / 0x40, 0x80 + n % 0x40]
    else if n < 0x1_0000 then [0xE0 + n / 0x1000, 0x80 + n / 0x40 % 0x40, 0x80 + n % 0x40]
    else [0xF0 + n / 0x4_0000, 0x80 + n / 0x1000 % 0x40, 0x80 + n / 0x40 % 0x40, 0x80 + n % 0x40]
  }

  function Utf8(s: string): Bytes {
    if s == [] then [] else Utf8Char(s[0]) + Utf8(s[1..])
  }

  /** The bytes as the digits of a number in base 31, never cut down. */
  function Base31(bytes: Bytes): nat {
    if bytes == [] then 0 else 31 * Base31(bytes[..|bytes| - 1]) + bytes[|bytes| - 1]
  }

  function HashOf(value: string): nat {
    Base31(Utf8(value)) % U32
  }

  /** A range bound without values stands for the empty text. */
  predicate BelowBound(b: RangeBound, value: string) {
    var limit := if b.values == [] then "" else b.values[0];
    if b.inclusive then TextAtMost(value, limit) else TextLess(value, limit)
  }

  predicate Accepts(strategy: Strategy, entry: Entry, value: string) {
    match strategy
    case Range => entry.bound.RangeBounds? && exists b :: b in entry.bound.ranges && BelowBound(b, value)
    case List => entry.bound.ListBounds? && exists values :: values in entry.bound.lists && value in values
    case Hash =>
      entry.bound.HashBound? && entry.bound.modulus > 0 && HashOf(value) % entry.bound.modulus == entry.bound.remainder
  }

  predicate FirstAccepting(strategy: Strategy, entries: seq<Entry>, value: string, i: nat) {
    i < |entries| && Accepts(strategy, entries[i], value) && forall k :: 0 <= k < i ==> !Accepts(strategy, entries[k], value)
  }

  /** The first partition that accepts the value. */
  function Route(strategy: Strategy, entries: seq<Entry>, value: string): (found: Option<Entry>)
    ensures found.Some? ==> exists i :: 0 <= i < |entries| && entries[i] == found.value && FirstAccepting(strategy, entries, value, i)
    ensures found.None? ==> forall e :: e in entries ==> !Accepts(strategy, e, value)
  {
    if entries == [] then None
    else if Accepts(strategy, entries[0], value) then
      assert FirstAccepting(strategy, entries, value, 0);
      Some(entries[0])
    else
      assert forall k :: 0 <= k < |entries| - 1 && FirstAccepting(strategy, entries[1..], value, k) ==>
        FirstAccepting(strategy, entries, value, k + 1) && entries[1..][k] == entries[k + 1];
      assert forall e :: e in entries ==> e == entries[0] || e in entries[1..];
      Route(strategy, entries[1..], value)
  }

  function FindPartition(p: Partitioning, value: string): Option<Entry> {
    Route(p.strategy, p.entries, value)
  }

  /** No hash bound of modulus 0 comes before the first bound that accepts. */
  predicate NeverDividesByZero(entries: seq<Entry>, value: string) {
    entries == [] || Accepts(Hash, entries[0], value) ||
    (!(entries[0].bound.HashBound? && entries[0].bound.modulus == 0) && NeverDividesByZero(entries[1..], value))
  }

  // ---- pruning --------------------------------------------------------------

  function EqualityPredicate(e: Expr): Option<(string, string)> {
    match e
    case BinaryOp(left, Equals, right) =>
      if left.Identifier? && right.Lit? then
        match right.literal
        case Text(s) => Some((left.name, s))
        case Number(n) => Some((left.name, n))
        case _ => None
      else None
    case BinaryOp(left, And, right) =>
      var found := EqualityPredicate(left);
      if found.Some? then found else EqualityPredicate(right)
    case _ => None
  }

  function Oids(entries: seq<Entry>): seq<nat> {
    seq(|entries|, i requires 0 <= i < |entries| => entries[i].oid)
  }

  /** The partition the WHERE clause pins its rows to, if it pins them to one. */
  function Pinned(p: Partitioning, filter: Option<Expr>): Option<Entry> {
    if filter.None? then None
    else
      var equality := EqualityPredicate(filter.value);
      if equality.Some? && equality.value.0 in p.columns then FindPartition(p, equality.value.1) else None
  }

  function PrunePartitions(p: Partitioning, filter: Option<Expr>): seq<nat> {
    var pinned := Pinned(p, filter);
    if pinned.Some? then [pinned.value.oid] else Oids(p.entries)
  }

  // ---- pruning never loses a row --------------------------------------------

  /** Where the WHERE clause holds, the column it was found to pin has the value it was found to have. */
  lemma {:induction false} EqualityHolds(h: Host, e: Expr, row: Row, desc: Option<Columns>)
    requires EqualityPredicate(e).Some? && EvaluateWhere(h, e, row, desc)
    ensures ColumnValue(EqualityPredicate(e).value.0, row, desc) == Some(EqualityPredicate(e).value.1)
    decreases e
  {
    hide ColumnValue, Binary, BoolText, ParseBool;
    match e
    case BinaryOp(left, Equals, right) =>
      EqualsHolds(h, left, right, row, desc);
    case BinaryOp(left, And, right) =>
      AndHolds(h, left, right, row, desc);
      if EqualityPredicate(left).Some? {
        EqualityHolds(h, left, row, desc);
      } else {
        EqualityHolds(h, right, row, desc);
      }
  }

  /** The partition that holds the row: routed by its value of the partition column. */
  function Home(p: Partitioning, column: string, row: Row, desc: Option<Columns>): Option<nat> {
    var value := ColumnValue(column, row, desc);
    if value.None? then None
    else
      var entry := FindPartition(p, value.value);
      if entry.None? then None else Some(entry.value.oid)
  }

  predicate PartitionedBy(p: Partitioning, column: string) {
    forall c :: c in p.columns ==> c == column
  }

  /** Pruning keeps the home of every row that passes the filter. */
  lemma PruningKeepsHome(h: Host, p: Partitioning, column: string, filter: Expr, row: Row, desc: Option<Columns>)
    requires PartitionedBy(p, column) && Home(p, column, row, desc).Some? && EvaluateWhere(h, filter, row, desc)
    ensures Home(p, column, row, desc).value in PrunePartitions(p, Some(filter))
  {
    hide ColumnValue, EvaluateWhere, EqualityPredicate;
    if Pinned(p, Some(filter)).Some? {
      EqualityHolds(h, filter, row, desc);
    } else {
      HomeIsListed(p, column, row, desc);
    }
  }

  /** A scan that visits the pruned partitions only. */
  function RowsIn(p: Partitioning, column: string, oids: seq<nat>, rows: seq<Row>, desc: Option<Columns>): seq<Row> {
    if rows == [] then []
    else
      var home := Home(p, column, rows[0], desc);
      (if home.Some? && home.value in oids then [rows[0]] else []) + RowsIn(p, column, oids, rows[1..], desc)
  }

  /** Filtering the pruned partitions gives the same rows, in the same order, as filtering them all. */
  lemma {:induction false} PrunedScanIsFullScan(
    h: Host, p: Partitioning, column: string, filter: Expr, rows: seq<Row>, desc: Option<Columns>)
    requires PartitionedBy(p, column)
    requires forall r :: r in rows ==> Home(p, column, r, desc).Some?
    ensures ApplyWhere(h, filter, RowsIn(p, column, PrunePartitions(p, Some(filter)), rows, desc), desc)
         == ApplyWhere(h, filter, rows, desc)
    decreases |rows|
  {
    hide Home, PrunePartitions, PartitionedBy, EvaluateWhere;
    if rows != [] {
      var oids := PrunePartitions(p, Some(filter));
      var rest := RowsIn(p, column, oids, rows[1..], desc);
      PrunedScanIsFullScan(h, p, column, filter, rows[1..], desc);
      if EvaluateWhere(h, filter, rows[0], desc) {
        PruningKeepsHome(h, p, column, filter, rows[0], desc);
      }
      if Home(p, column, rows[0], desc).value in oids {
        assert ([rows[0]] + rest)[1..] == rest;
      } else {
        assert [] + rest == rest;
      }
    }
  }

  // ---- several partition columns --------------------------------------------

  /** Rows are routed by `column`, and the filter pins another one. */
  ghost predicate PruningIsSafe(h: Host, p: Partitioning, column: string, filter: Expr, desc: Option<Columns>) {
    forall row :: EvaluateWhere(h, filter, row, desc) && Home(p, column, row, desc).Some? ==>
      Home(p, column, row, desc).value in PrunePartitions(p, Some(filter))
  }

  /** Everything the table can route goes to the one partition. */
  ghost predicate OneHome(p: Partitioning, oid: nat) {
    forall value: string :: FindPartition(p, value).Some? ==> FindPartition(p, value).value.oid == oid
  }

  function TwoFields(n: nat, i: nat, x: string, j: nat, y: string): (row: Row)
    requires i < n && j < n && i != j
    ensures |row| == n && row[i] == x && row[j] == y
  {
    seq(n, k => if k == i then x else y)
  }

  /** Nothing is lost by pinning the literal of another column if both names resolve to one field, or
      the literal routes nowhere, or everything routable goes where the literal goes. */
  ghost predicate Harmless(p: Partitioning, column: string, other: string, literal: string, fields: Columns) {
    || FieldIndex(fields, column) == FieldIndex(fields, other)
    || FindPartition(p, literal).None?
    || OneHome(p, FindPartition(p, literal).value.oid)
  }

  /** With several partition columns, routed by one of them: a filter of any form that pins another
      one is pruned safely when that is harmless. */
  lemma HarmlessPruningIsSafe(h: Host, p: Partitioning, column: string, filter: Expr, fields: Columns)
    requires EqualityPredicate(filter).Some?
    requires Harmless(p, column, EqualityPredicate(filter).value.0, EqualityPredicate(filter).value.1, fields)
    ensures PruningIsSafe(h, p, column, filter, Some(fields))
  {
    hide Route, FieldIndex, EvaluateWhere, EqualityPredicate;
    var desc := Some(fields);
    forall row | EvaluateWhere(h, filter, row, desc) && Home(p, column, row, desc).Some?
      ensures Home(p, column, row, desc).value in PrunePartitions(p, Some(filter))
    {
      EqualityHolds(h, filter, row, desc);
      if Pinned(p, Some(filter)).None? {
        HomeIsListed(p, column, row, desc);
      }
    }
  }

  lemma HomeIsListed(p: Partitioning, column: string, row: Row, desc: Option<Columns>)
    requires Home(p, column, row, desc).Some?
    ensures Home(p, column, row, desc).value in Oids(p.entries)
  {
    hide ColumnValue, Accepts;
    var value := ColumnValue(column, row, desc).value;
    var i :| 0 <= i < |p.entries| && p.entries[i] == FindPartition(p, value).value;
    assert Oids(p.entries)[i] == p.entries[i].oid;
  }

  /** The literals an equality can pin, and their text. */
  predicate Pinnable(l: Literal) {
    l.Text? || l.Number?
  }

  /** A row with the literal in the pinned field and a value with another home in the routing one. */
  lemma HarmfulRow(h: Host, p: Partitioning, column: string, other: string, l: Literal, fields: Columns) returns (row: Row)
    requires other in p.columns && Pinnable(l) && !Harmless(p, column, other, LiteralText(l), fields)
    requires FieldIndex(fields, column) < |fields| && FieldIndex(fields, other) < |fields|
    ensures var filter := BinaryOp(Identifier(other), Equals, Lit(l)); var desc := Some(fields);
      && EvaluateWhere(h, filter, row, desc) && Home(p, column, row, desc).Some?
      && Home(p, column, row, desc).value !in PrunePartitions(p, Some(filter))
  {
    hide Route, FieldIndex, EvaluateWhere;
    var filter := BinaryOp(Identifier(other), Equals, Lit(l));
    var i, j := FieldIndex(fields, column), FieldIndex(fields, other);
    var oid := FindPartition(p, LiteralText(l)).value.oid;
    var value: string :| FindPartition(p, value).Some? && FindPartition(p, value).value.oid != oid;
    row := TwoFields(|fields|, i, value, j, LiteralText(l));
    EqualsHolds(h, filter.left, filter.right, row, Some(fields));
    assert PrunePartitions(p, Some(filter)) == [oid];
  }

  /** For a plain equality that is exact: `other = literal` is pruned safely if and only if it is harmless. */
  lemma PruningByOtherColumn(
    h: Host, p: Partitioning, column: string, other: string, l: Literal, fields: Columns)
    requires other in p.columns && Pinnable(l)
    requires FieldIndex(fields, column) < |fields| && FieldIndex(fields, other) < |fields|
    ensures PruningIsSafe(h, p, column, BinaryOp(Identifier(other), Equals, Lit(l)), Some(fields))
       <==> Harmless(p, column, other, LiteralText(l), fields)
  {
    hide FieldIndex, EvaluateWhere, Harmless, PrunePartitions, Home;
    var filter := BinaryOp(Identifier(other), Equals, Lit(l));
    assert EqualityPredicate(filter) == Some((other, LiteralText(l)));
    if Harmless(p, column, other, LiteralText(l), fields) {
      HarmlessPruningIsSafe(h, p, column, filter, fields);
    } else {
      var row := HarmfulRow(h, p, column, other, l, fields);
    }
  }

  function TwoLists(): Partitioning {
    Partitioning(List, ["a", "b"], [Entry(1, ListBounds([["x"]])), Entry(2, ListBounds([["y"]]))])
  }

  lemma TwoListsRoute()
    ensures FindPartition(TwoLists(), "x") == Some(Entry(1, ListBounds([["x"]])))
    ensures FindPartition(TwoLists(), "y") == Some(Entry(2, ListBounds([["y"]])))
  {
    var (first, second) := (Entry(1, ListBounds([["x"]])), Entry(2, ListBounds([["y"]])));
    assert ["x"] in first.bound.lists && ["y"] in second.bound.lists;
    assert !Accepts(List, first, "y");
    assert [first, second][1..] == [second];
  }

  /** Two list partitions routed by `a`: the row a = 'x', b = 'y' lives in the first, and the filter
      b = 'y' leaves only the second. */
  lemma PruningLosesRow(h: Host)
    ensures var filter := BinaryOp(Identifier("b"), Equals, Lit(Text("y")));
      var (row, desc) := (["x", "y"], Some(["a", "b"]));
      && EvaluateWhere(h, filter, row, desc)
      && Home(TwoLists(), "a", row, desc) == Some(1) && PrunePartitions(TwoLists(), Some(filter)) == [2]
  {
    hide EvaluateWhere, FindPartition, FieldIndex;
    var filter := BinaryOp(Identifier("b"), Equals, Lit(Text("y")));
    EqualsHolds(h, filter.left, filter.right, ["x", "y"], Some(["a", "b"]));
    FieldsOfTwo();
    TwoListsRoute();
  }

  lemma FieldsOfTwo()
    ensures FieldIndex(["a", "b"], "a") == 0 && FieldIndex(["a", "b"], "b") == 1
  {
    assert EqIgnoreAsciiCase("a", "a") && EqIgnoreAsciiCase("b", "b");
    assert Lower("a"[0]) != Lower("b"[0]);
    assert ["a", "b"][1..] == ["b"];
  }

  // ---- the manager object ---------------------------------------------------

  class PartitionManager {
    const strategy: Strategy
    const columns: seq<string>
    var partitions: seq<Entry>

    function View(): Partitioning
      reads this
    {
      Partitioning(strategy, columns, partitions)
    }

    constructor (strategy: Strategy, columns: seq<string>)
      ensures View() == Partitioning(strategy, columns, [])
    {
      this.strategy, this.columns, partitions := strategy, columns, [];
    }

    method AddPartition(entry: Entry)
      modifies this
      ensures View() == old(View()).(entries := old(partitions) + [entry])
    {
      partitions := partitions + [entry];
    }

    /** Wrapping at every byte is cutting down once at the end. */
    static method HashValue(value: string) returns (hash: nat)
      ensures hash == HashOf(value)
    {
      var bytes := Utf8(value);
      hash := 0;
      for i := 0 to |bytes|
        invariant hash == Base31(bytes[..i]) % U32
      {
        assert bytes[..i + 1][..i] == bytes[..i];
        WrapStep(Base31(bytes[..i]), bytes[i]);
        hash := (hash * 31 % U32 + bytes[i]) % U32;
      }
      assert bytes[..|bytes|] == bytes;
    }

    method FindPartitionForValue(value: string) returns (found: Option<Entry>)
      requires strategy == Hash ==> NeverDividesByZero(partitions, value)
      ensures found == FindPartition(View(), value)
    {
      hide HashOf, BelowBound;
      var hash := 0;
      if strategy == Hash {
        hash := HashValue(value);
      }
      for i := 0 to |partitions|
        invariant FindPartition(View(), value) == Route(strategy, partitions[i..], value)
        invariant strategy == Hash ==> NeverDividesByZero(partitions[i..], value)
      {
        var bound := partitions[i].bound;
        var accepted := match strategy
          case Range => bound.RangeBounds? && exists b :: b in bound.ranges && BelowBound(b, value)
          case List => bound.ListBounds? && exists values :: values in bound.lists && value in values
          case Hash => bound.HashBound? && hash % bound.modulus == bound.remainder;
        assert accepted == Accepts(strategy, partitions[i], value);
        if accepted {
          return Some(partitions[i]);
        }
        assert partitions[i..][1..] == partitions[i + 1..];
      }
      found := None;
    }
  }

  lemma {:induction false} WrapStep(n: nat, b: byte)
    ensures (n % U32 * 31 % U32 + b) % U32 == (31 * n + b) % U32
  {
    var q, r := n / U32, n % U32;
    assert n == q * U32 + r;
    var s, t := (r * 31) / U32, (r * 31) % U32;
    assert r * 31 == s * U32 + t;
    assert 31 * n + b == (31 * q + s) * U32 + (t + b);
    WrapMultiple(31 * q + s, t + b);
  }

  lemma WrapMultiple(k: nat, n: nat)
    ensures (k * U32 + n) % U32 == n % U32
  {}
}
