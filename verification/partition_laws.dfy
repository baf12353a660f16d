/** Which values a partition accepts, and what a WHERE clause pins (src/executor/partition/mod.rs,
    src/executor/partition/pruning.rs). */
module PartitionLaws {
  import opened Wrappers
  import opened Ast
  import opened Order
  import opened Evaluation
  import opened ByteCodec
  import opened Partitions

  // ---- the hash of a text ------------------------------------------------------

  /** How many bytes a UTF-8 character takes, by its first byte (section 3 of RFC 3629). */
  function Length(first: byte): nat {
    if first < 0x80 then 1
    else if 0xC0 <= first < 0xE0 then 2
    else if 0xE0 <= first < 0xF0 then 3
    else if 0xF0 <= first < 0xF8 then 4
    else 0
  }

  predicate Continuation(b: byte) {
    0x80 <= b < 0xC0
  }

  function CodePoint(bytes: Bytes): int
    requires 1 <= |bytes| <= 4
  {
    match |bytes|
    case 1 => bytes[0] as int
    case 2 => (bytes[0] as int - 0xC0) * 0x40 + (bytes[1] as int - 0x80)
    case 3 => (bytes[0] as int - 0xE0) * 0x1000 + (bytes[1] as int - 0x80) * 0x40 + (bytes[2] as int - 0x80)
    case _ =>
      (bytes[0] as int - 0xF0) * 0x4_0000 + (bytes[1] as int - 0x80) * 0x1000 + (bytes[2] as int - 0x80) * 0x40
      + (bytes[3] as int - 0x80)
  }

  function Decoded(bytes: Bytes): Option<seq<int>> {
    if bytes == [] then Some([])
    else
      var n := Length(bytes[0]);
      if n == 0 || |bytes| < n || exists i :: 1 <= i < n && !Continuation(bytes[i]) then None
      else
        match Decoded(bytes[n..])
        case None => None
        case Some(more) => Some([CodePoint(bytes[..n])] + more)
  }

  lemma BaseSixtyFour(n: nat)
    ensures n == n / 0x40 * 0x40 + n % 0x40
    ensures n / 0x40 == n / 0x1000 * 0x40 + n / 0x40 % 0x40
    ensures n / 0x1000 == n / 0x4_0000 * 0x40 + n / 0x1000 % 0x40
  {
    assert n / 0x40 / 0x40 == n / 0x1000 && n / 0x1000 / 0x40 == n / 0x4_0000;
  }

  /** One character: its length is in its first byte, and its code point is read back. */
  lemma CharDecodes(c: char)
    ensures var bytes := Utf8Char(c);
      && bytes != [] && Length(bytes[0]) == |bytes| && CodePoint(bytes) == c as int
      && (forall i :: 1 <= i < |bytes| ==> Continuation(bytes[i]))
  {
    var (n, bytes) := (c as int, Utf8Char(c));
    BaseSixtyFour(n);
    if n < 0x80 {
    } else if n < 0x800 {
      assert n / 0x40 < 0x20;
    } else if n < 0x1_0000 {
      assert n / 0x1000 < 0x10;
    } else {
      assert n / 0x4_0000 < 8;
    }
  }

  /** The bytes hashed are the UTF-8 form of the text: they decode to it. */
  lemma {:induction false} Utf8Decodes(s: string)
    ensures Decoded(Utf8(s)) == Some(Codes(s))
  {
    if s == [] {
      assert Codes(s) == [];
    } else {
      CharDecodes(s[0]);
      Utf8Decodes(s[1..]);
      var bytes := Utf8(s);
      assert bytes[..|Utf8Char(s[0])|] == Utf8Char(s[0]) && bytes[|Utf8Char(s[0])|..] == Utf8(s[1..]);
      assert Codes(s) == [s[0] as int] + Codes(s[1..]);
    }
  }

  function Power31(n: nat): nat {
    if n == 0 then 1 else 31 * Power31(n - 1)
  }

  /** The sum of the first `n` bytes, each multiplied by 31 as often as there are bytes after it. */
  function Weighted(bytes: Bytes, n: nat): nat
    requires n <= |bytes|
  {
    if n == 0 then 0 else Weighted(bytes, n - 1) + bytes[n - 1] * Power31(|bytes| - n)
  }

  lemma {:induction false} WeightedSnoc(bytes: Bytes, b: byte, n: nat)
    requires n <= |bytes|
    ensures Weighted(bytes + [b], n) == 31 * Weighted(bytes, n)
  {
    if n > 0 {
      WeightedSnoc(bytes, b, n - 1);
      var (x, k) := (bytes[n - 1], |bytes| - n);
      assert (bytes + [b])[n - 1] == x && Power31(|bytes + [b]| - n) == 31 * Power31(k);
      assert x * (31 * Power31(k)) == 31 * (x * Power31(k));
    }
  }

  lemma {:induction false} Base31IsWeighted(bytes: Bytes)
    ensures Base31(bytes) == Weighted(bytes, |bytes|)
  {
    if bytes != [] {
      var n := |bytes| - 1;
      Base31IsWeighted(bytes[..n]);
      WeightedSnoc(bytes[..n], bytes[n], n);
      assert bytes == bytes[..n] + [bytes[n]];
    }
  }

  lemma HashIs(value: string)
    ensures HashOf(value) == Weighted(Utf8(value), |Utf8(value)|) % 0x1_0000_0000
  {
    Base31IsWeighted(Utf8(value));
  }

  // ---- bounds --------------------------------------------------------------------

  /** A range bound takes what comes before its first value, and that value itself if it is inclusive. */
  ghost predicate Within(b: RangeBound, value: string) {
    var limit := if |b.values| > 0 then b.values[0] else "";
    TextBefore(value, limit) || (b.inclusive && value == limit)
  }

  lemma RangeAccepts(entry: Entry, value: string)
    ensures Accepts(Range, entry, value) <==>
      entry.bound.RangeBounds? && exists i :: 0 <= i < |entry.bound.ranges| && Within(entry.bound.ranges[i], value)
  {
    forall b: RangeBound
      ensures BelowBound(b, value) <==> Within(b, value)
    {
      TextOrder(value, if |b.values| > 0 then b.values[0] else "");
    }
  }

  lemma ListAccepts(entry: Entry, value: string)
    ensures Accepts(List, entry, value) <==>
      entry.bound.ListBounds? && exists i :: 0 <= i < |entry.bound.lists| && Listed(entry.bound.lists[i], value)
  {
    if Accepts(List, entry, value) {
      var values :| values in entry.bound.lists && value in values;
      var i :| 0 <= i < |entry.bound.lists| && entry.bound.lists[i] == values;
      assert Listed(entry.bound.lists[i], value);
    }
    if entry.bound.ListBounds? {
      forall i | 0 <= i < |entry.bound.lists| && Listed(entry.bound.lists[i], value)
        ensures entry.bound.lists[i] in entry.bound.lists && value in entry.bound.lists[i]
      {}
    }
  }

  predicate Listed(values: seq<string>, value: string) {
    exists k :: 0 <= k < |values| && values[k] == value
  }

  lemma HashAccepts(entry: Entry, value: string)
    ensures Accepts(Hash, entry, value) <==>
      && entry.bound.HashBound? && entry.bound.modulus > 0
      && Weighted(Utf8(value), |Utf8(value)|) % 0x1_0000_0000 % entry.bound.modulus == entry.bound.remainder
  {
    HashIs(value);
  }

  /** A value goes to the first partition that accepts it, and nowhere if none does. */
  lemma RoutedTo(p: Partitioning, value: string, i: nat)
    requires i <= |p.entries| && (i < |p.entries| ==> Accepts(p.strategy, p.entries[i], value))
    requires forall k :: 0 <= k < i ==> !Accepts(p.strategy, p.entries[k], value)
    ensures FindPartition(p, value) == if i < |p.entries| then Some(p.entries[i]) else None
  {
    hide Accepts;
    if FindPartition(p, value).Some? {
      var k :| 0 <= k < |p.entries| && p.entries[k] == FindPartition(p, value).value
        && FirstAccepting(p.strategy, p.entries, value, k);
      assert k == i;
    }
  }

  // ---- what a WHERE clause pins ----------------------------------------------------

  /** The conditions joined by AND, left to right. */
  function Conjuncts(e: Expr): (list: seq<Expr>)
    ensures list != []
  {
    if e.BinaryOp? && e.op == And then Conjuncts(e.left) + Conjuncts(e.right) else [e]
  }

  /** The condition is `column = literal` with a text or a number. */
  predicate Pins(e: Expr, column: string, value: string) {
    e == BinaryOp(Identifier(column), Equals, Lit(Text(value))) || e == BinaryOp(Identifier(column), Equals, Lit(Number(value)))
  }

  ghost predicate PinsSomething(e: Expr) {
    exists column, value :: Pins(e, column, value)
  }

  ghost predicate FirstPin(list: seq<Expr>, k: nat, column: string, value: string) {
    k < |list| && Pins(list[k], column, value) && forall i :: 0 <= i < k ==> !PinsSomething(list[i])
  }

  lemma PinOfOne(e: Expr, column: string, value: string)
    requires !(e.BinaryOp? && e.op == And)
    ensures EqualityPredicate(e) == Some((column, value)) <==> Pins(e, column, value)
    ensures EqualityPredicate(e).None? <==> !PinsSomething(e)
  {
    if EqualityPredicate(e).Some? {
      assert Pins(e, EqualityPredicate(e).value.0, EqualityPredicate(e).value.1);
    }
  }

  ghost predicate HasPin(list: seq<Expr>, column: string, value: string) {
    exists k: nat :: FirstPin(list, k, column, value)
  }

  lemma PinsJoin(a: seq<Expr>, b: seq<Expr>, column: string, value: string)
    ensures HasPin(a, column, value) ==> HasPin(a + b, column, value)
    ensures (forall i :: 0 <= i < |a| ==> !PinsSomething(a[i])) && HasPin(b, column, value) ==> HasPin(a + b, column, value)
  {
    if HasPin(a, column, value) {
      var k: nat :| FirstPin(a, k, column, value);
      assert FirstPin(a + b, k, column, value);
    }
    if (forall i :: 0 <= i < |a| ==> !PinsSomething(a[i])) && HasPin(b, column, value) {
      var k: nat :| FirstPin(b, k, column, value);
      assert FirstPin(a + b, |a| + k, column, value);
    }
  }

  /** What is found is the first such condition, if there is any. */
  lemma {:induction false} PinnedIsFirst(e: Expr)
    ensures match EqualityPredicate(e)
      case Some(pin) => HasPin(Conjuncts(e), pin.0, pin.1)
      case None => forall i :: 0 <= i < |Conjuncts(e)| ==> !PinsSomething(Conjuncts(e)[i])
  {
    hide PinsSomething, HasPin;
    if e.BinaryOp? && e.op == And {
      PinnedIsFirst(e.left);
      PinnedIsFirst(e.right);
      var found := EqualityPredicate(e);
      if found.Some? {
        PinsJoin(Conjuncts(e.left), Conjuncts(e.right), found.value.0, found.value.1);
      }
    } else {
      PinOnlyOne(e);
    }
  }

  lemma PinOnlyOne(e: Expr)
    requires !(e.BinaryOp? && e.op == And)
    ensures Conjuncts(e) == [e]
    ensures match EqualityPredicate(e)
      case Some(pin) => HasPin([e], pin.0, pin.1)
      case None => !PinsSomething(e)
  {
    PinOfOne(e, "", "");
    if EqualityPredicate(e).Some? {
      var pin := EqualityPredicate(e).value;
      PinOfOne(e, pin.0, pin.1);
      assert FirstPin([e], 0, pin.0, pin.1);
    }
  }

  /** One partition is left if the first pinned column is a partition column and its value is accepted
      somewhere; otherwise all are, in order. */
  lemma PrunedTo(p: Partitioning, filter: Expr, column: string, value: string, i: nat)
    requires EqualityPredicate(filter) == Some((column, value)) && column in p.columns
    requires i < |p.entries| && FirstAccepting(p.strategy, p.entries, value, i)
    ensures PrunePartitions(p, Some(filter)) == [p.entries[i].oid]
  {
    hide Accepts;
    RoutedTo(p, value, i);
  }

  lemma NotPruned(p: Partitioning, filter: Option<Expr>)
    requires filter.Some? && EqualityPredicate(filter.value).Some? ==>
      var pin := EqualityPredicate(filter.value).value;
      pin.0 in p.columns ==> forall k :: 0 <= k < |p.entries| ==> !Accepts(p.strategy, p.entries[k], pin.1)
    ensures |PrunePartitions(p, filter)| == |p.entries|
    ensures forall k :: 0 <= k < |p.entries| ==> PrunePartitions(p, filter)[k] == p.entries[k].oid
  {
    hide Accepts;
    if filter.Some? && EqualityPredicate(filter.value).Some? && EqualityPredicate(filter.value).value.0 in p.columns {
      RoutedTo(p, EqualityPredicate(filter.value).value.1, |p.entries|);
    }
  }
}
