/** Writing undoes parsing: whatever is read is a text of the expression returned, so the parser accepts
    exactly the texts. */
module ParserImage {
  import opened Wrappers
  import opened Ast
  import opened Grammar
  import opened Texts
  import opened RoundTrips

  /** Does an arithmetic or bitwise operator come next? */
  predicate Continues(rest: seq<Token>) {
    BIT_OR <= Binding(Peek(rest)) <= MULTIPLICATIVE
  }

  /** What was read, up to where reading stopped, is this text. */
  ghost predicate Read(t: Text, level: nat, ts: seq<Token>, r: Parsed<Expr>) {
    r.Ok? && Yield(t) + r.rest == ts && Meaning(t) == r.value && Fits(t, level, Continues(r.rest))
  }

  /** Operands are read as far as they go. */
  predicate StopsAt(level: nat, rest: seq<Token>) {
    && (Continues(rest) && OPERAND <= level ==> Binding(Peek(rest)) < level)
    && (OPERAND <= level <= POSTFIX ==> !AtTimeZoneWords(rest))
  }

  // ---- levels ---------------------------------------------------------------

  lemma {:induction false} ReadAt(level: nat, ts: seq<Token>) returns (t: Text)
    requires level <= PRIMARY && ParseAt(level, ts).Ok?
    ensures Read(t, level, ts, ParseAt(level, ts)) && StopsAt(level, ParseAt(level, ts).rest)
    decreases |ts|, 1, PRIMARY - level
  {
    hide Read, StopsAt, Fits, Yield, Meaning, ParseTail, ParseComparisonTail, ParseZones, ParsePrimary, AtTimeZoneWords, Binding;
    if InfixLevel(level) {
      t := ReadAt(level + 1, ts);
      t := ReadTail(level, t, ts, ParseAt(level + 1, ts));
    } else if level == NOT_LEVEL {
      if At(NOT, ts) {
        t := ReadAt(COMPARISON, ts[1..]);
        t := Prefixed(Not, t, ts, ParseAt(COMPARISON, ts[1..]));
        LowLevel(level, ParseAt(level, ts).rest);
      } else {
        t := ReadAt(COMPARISON, ts);
        Unnegated(t, ts, ParseAt(COMPARISON, ts));
      }
    } else if level == COMPARISON {
      t := ReadAt(OPERAND, ts);
      t := ReadComparisonTail(t, ts, ParseAt(OPERAND, ts));
      LowLevel(level, ParseAt(level, ts).rest);
    } else if level == OPERAND {
      t := ReadAt(BIT_OR, ts);
      LevelDown(BIT_OR, t, ts, ParseAt(BIT_OR, ts));
    } else if level == UNARY {
      if UnaryAt(Peek(ts)).Some? {
        t := ReadAt(POSTFIX, ts[1..]);
        StopsDown(POSTFIX, ParseAt(POSTFIX, ts[1..]).rest);
        t := Prefixed(UnaryAt(Peek(ts)).value, t, ts, ParseAt(POSTFIX, ts[1..]));
      } else {
        t := ReadAt(POSTFIX, ts);
        LevelDown(POSTFIX, t, ts, ParseAt(POSTFIX, ts));
      }
    } else if level == POSTFIX {
      t := ReadAt(PRIMARY, ts);
      t := ReadZones(t, ts, ParseAt(PRIMARY, ts));
    } else {
      t := ReadPrimaryText(ts);
      Primary(ParseAt(level, ts).rest);
    }
  }

  lemma LowLevel(level: nat, rest: seq<Token>)
    requires level < OPERAND
    ensures StopsAt(level, rest)
  {}

  lemma Primary(rest: seq<Token>)
    ensures StopsAt(PRIMARY, rest)
  {}

  /** Where no operator of its own level comes next, an operand stops one level down as well. */
  lemma StopsDown(level: nat, rest: seq<Token>)
    requires level == BIT_OR || level == POSTFIX
    requires StopsAt(level, rest)
    ensures StopsAt(level - 1, rest)
  {
    hide AtTimeZoneWords;
  }

  lemma LevelDown(level: nat, t: Text, ts: seq<Token>, r: Parsed<Expr>)
    requires level == BIT_OR || level == POSTFIX
    requires Read(t, level, ts, r) && StopsAt(level, r.rest)
    ensures Read(t, level - 1, ts, r) && StopsAt(level - 1, r.rest)
  {
    hide Yield, Meaning, Proper;
    StopsDown(level, r.rest);
  }

  /** What is read without a NOT does not begin with one. */
  lemma Unnegated(t: Text, ts: seq<Token>, r: Parsed<Expr>)
    requires Read(t, COMPARISON, ts, r) && !At(NOT, ts)
    ensures Read(t, NOT_LEVEL, ts, r) && StopsAt(NOT_LEVEL, r.rest)
  {
    hide Yield, Meaning, Proper, Binding;
    FirstToken(t, Continues(r.rest), r.rest);
  }

  function WrittenAs(t: Token): string {
    if t.Keyword? then t.written else ""
  }

  lemma Prefixed(op: UnaryOperator, x: Text, ts: seq<Token>, r: Parsed<Expr>) returns (t: Text)
    requires ts != [] && if op == Not then At(NOT, ts) else UnaryAt(ts[0]) == Some(op)
    requires Read(x, if op == Not then COMPARISON else POSTFIX, ts[1..], r)
    ensures r.Ok? && Read(t, if op == Not then NOT_LEVEL else UNARY, ts, Ok(UnaryOp(op, r.value), r.rest))
  {
    hide Binding, Fits;
    t := PrefixText(op, WrittenAs(ts[0]), x);
    assert ts == [ts[0]] + ts[1..];
    assert UnaryToken(op, WrittenAs(ts[0])) == ts[0];
    ProperPrefix(t, Continues(r.rest));
  }

  lemma ProperPrefix(t: Text, closed: bool)
    requires t.PrefixText? && Fits(t.operand, if t.unary == Not then COMPARISON else POSTFIX, closed)
    ensures Fits(t, if t.unary == Not then NOT_LEVEL else UNARY, closed)
  {}

  /** Two texts with words between them. */
  lemma Glue(left: seq<Token>, words: seq<Token>, right: seq<Token>, tail: seq<Token>, rest: seq<Token>)
    requires |words| <= |tail| && tail[..|words|] == words && right + rest == tail[|words|..]
    ensures left + words + right + rest == left + tail
  {
    assert tail == words + tail[|words|..];
  }

  lemma ProperFits(t: Text, level: nat, closed: bool)
    requires NOT_LEVEL < level <= Level(t) && Proper(t, closed)
    ensures Fits(t, level, closed)
  {}

  lemma Closing(before: seq<Token>, inner: seq<Token>, close: Token, ts: seq<Token>, rest: seq<Token>)
    requires inner + rest == ts && rest != [] && rest[0] == close
    ensures before + inner + [close] + rest[1..] == before + ts
  {
    assert rest == [close] + rest[1..];
  }

  // ---- operators --------------------------------------------------------------

  /** The token of an infix operator, and how tightly it binds. */
  lemma InfixToken(level: nat, ts: seq<Token>)
    requires InfixLevel(level) && InfixAt(level, Peek(ts)).Some?
    ensures ts != []
    ensures var op := InfixAt(level, Peek(ts)).value;
      Infix(op) && OperatorLevel(op) == level && OperatorToken(op, WrittenAs(ts[0])) == ts[0]
    ensures Continues(ts) <==> BIT_OR <= level
  {}

  lemma InfixFits(level: nat, left: Text, op: BinaryOperator, written: string, right: Text, closed: bool)
    requires Infix(op) && OperatorLevel(op) == level
    requires Fits(left, level, BIT_OR <= level) && Fits(right, level + 1, closed)
    ensures Fits(InfixText(left, op, written, right), level, closed)
  {}

  lemma TailStopsAt(level: nat, rest: seq<Token>)
    requires InfixLevel(level) && InfixAt(level, Peek(rest)).None? && StopsAt(level + 1, rest)
    ensures StopsAt(level, rest)
  {
    hide AtTimeZoneWords;
  }

  /** What has been read so far is a text on the left of an operator. */
  lemma {:induction false} ReadTail(level: nat, left: Text, ts: seq<Token>, r: Parsed<Expr>) returns (t: Text)
    requires InfixLevel(level) && r.Ok? && |r.rest| < |ts|
    requires Read(left, level + 1, ts, r) || Read(left, level, ts, r)
    requires StopsAt(level + 1, r.rest) && ParseTail(level, r.value, r.rest).Ok?
    ensures Read(t, level, ts, ParseTail(level, r.value, r.rest))
    ensures StopsAt(level, ParseTail(level, r.value, r.rest).rest)
    decreases |r.rest|, 0
  {
    hide Read, Fits, Yield, Meaning, ParseAt, StopsAt, InfixAt, Continues;
    var op := InfixAt(level, Peek(r.rest));
    Lowered(level, left, ts, r);
    if op.None? {
      TailStopsAt(level, r.rest);
      t := left;
    } else {
      InfixToken(level, r.rest);
      var right := ReadAt(level + 1, r.rest[1..]);
      var r' := ParseAt(level + 1, r.rest[1..]);
      t := Operated(level, left, right, ts, r, r');
      t := ReadTail(level, t, ts, Ok(BinaryOp(r.value, op.value, r'.value), r'.rest));
    }
  }

  lemma Lowered(level: nat, left: Text, ts: seq<Token>, r: Parsed<Expr>)
    requires InfixLevel(level)
    requires Read(left, level + 1, ts, r) || Read(left, level, ts, r)
    ensures Read(left, level, ts, r)
  {
    hide Yield, Meaning, Proper, Continues;
  }

  lemma Operated(level: nat, left: Text, right: Text, ts: seq<Token>, r: Parsed<Expr>, r': Parsed<Expr>) returns (t: Text)
    requires InfixLevel(level) && r.Ok? && InfixAt(level, Peek(r.rest)).Some? && r.rest != []
    requires Read(left, level, ts, r) && Read(right, level + 1, r.rest[1..], r')
    ensures r'.Ok? && Read(t, level, ts, Ok(BinaryOp(r.value, InfixAt(level, Peek(r.rest)).value, r'.value), r'.rest))
  {
    hide Fits, InfixAt, Continues, OperatorToken, Infix, OperatorLevel;
    InfixToken(level, r.rest);
    var op := InfixAt(level, Peek(r.rest)).value;
    t := InfixText(left, op, WrittenAs(r.rest[0]), right);
    InfixFits(level, left, op, WrittenAs(r.rest[0]), right, Continues(r'.rest));
    Glue(Yield(left), [r.rest[0]], Yield(right), r.rest, r'.rest);
  }

  // ---- AT TIME ZONE -----------------------------------------------------------

  lemma {:induction false} ReadZones(x: Text, ts: seq<Token>, r: Parsed<Expr>) returns (t: Text)
    requires Read(x, PRIMARY, ts, r) && |r.rest| < |ts| && ParseZones(r.value, r.rest).Ok?
    ensures Read(t, POSTFIX, ts, ParseZones(r.value, r.rest)) && StopsAt(POSTFIX, ParseZones(r.value, r.rest).rest)
    decreases |r.rest|, 0
  {
    hide Yield, Meaning, ParseAt, Proper, Binding;
    if AtTimeZoneWords(r.rest) {
      var zone := ReadAt(BIT_OR, r.rest[3..]);
      var r' := ParseAt(BIT_OR, r.rest[3..]);
      assert !AtTimeZoneWords(r'.rest) && !Continues(r'.rest);
      t := Zoned(x, zone, ts, r, r');
    } else {
      t := x;
    }
  }

  lemma ZoneFits(t: Text, closed: bool)
    requires t.ZoneText? && Fits(t.operand, PRIMARY, closed) && Fits(t.zone, BIT_OR, false)
    ensures Fits(t, POSTFIX, false)
  {
    assert Fits(t.operand, PRIMARY, true) && Fits(t.zone, OPERAND, false);
  }

  lemma Zoned(x: Text, zone: Text, ts: seq<Token>, r: Parsed<Expr>, r': Parsed<Expr>) returns (t: Text)
    requires Read(x, PRIMARY, ts, r) && AtTimeZoneWords(r.rest)
    requires Read(zone, BIT_OR, r.rest[3..], r') && !Continues(r'.rest)
    ensures Read(t, POSTFIX, ts, Ok(AtTimeZone(r.value, r'.value), r'.rest))
  {
    hide Continues, Fits, Yield, Proper, Level;
    var rest := r.rest;
    t := ZoneText(x, rest[0].written, rest[1].written, rest[2].written, zone);
    ZoneFits(t, Continues(rest));
    ZoneTokens(t, ts, rest, r'.rest);
  }

  lemma ZoneTokens(t: Text, ts: seq<Token>, tail: seq<Token>, rest: seq<Token>)
    requires t.ZoneText? && AtTimeZoneWords(tail)
    requires t.atWord == tail[0].written && t.timeWord == tail[1].written && t.zoneWord == tail[2].written
    requires Yield(t.operand) + tail == ts && Yield(t.zone) + rest == tail[3..]
    ensures Yield(t) + rest == ts
  {
    Glue(Yield(t.operand), tail[..3], Yield(t.zone), tail, rest);
    assert tail[..3] == [Keyword(AT, t.atWord), Keyword(TIME, t.timeWord), Keyword(ZONE, t.zoneWord)];
  }

  // ---- comparisons ----------------------------------------------------------

  lemma ComparisonToken(ts: seq<Token>)
    requires ComparisonAt(Peek(ts)).Some?
    ensures ts != [] && Comparison(ComparisonAt(Peek(ts)).value) && OperatorToken(ComparisonAt(Peek(ts)).value, "") == ts[0]
    ensures OperatorToken(ComparisonAt(Peek(ts)).value, WrittenAs(ts[0])) == ts[0]
    ensures !Continues(ts)
  {}

  lemma WordDoesNotContinue(w: Word, ts: seq<Token>)
    requires At(w, ts)
    ensures !Continues(ts)
  {}

  /** The operand read so far, and what comes after the operator's token. */
  ghost predicate ComparesWith(left: Text, ts: seq<Token>, r: Parsed<Expr>) {
    Read(left, OPERAND, ts, r) && !Continues(r.rest) && r.rest != []
  }

  lemma {:induction false} ReadComparisonTail(left: Text, ts: seq<Token>, r: Parsed<Expr>) returns (t: Text)
    requires Read(left, OPERAND, ts, r) && |r.rest| < |ts| && ParseComparisonTail(r.value, r.rest).Ok?
    ensures Read(t, COMPARISON, ts, ParseComparisonTail(r.value, r.rest))
    decreases |r.rest|, 1
  {
    hide Read, ParseAt, ComparisonAt, Comparison, ParseOperandOf, ParseInList, ParseBetween, ParseIsNull, Continues, OperatorToken;
    ReadOk(left, OPERAND, ts, r);
    var (x, rest) := (r.value, r.rest);
    var op := ComparisonAt(Peek(rest));
    if op.Some? {
      ComparisonToken(rest);
      if At(ANY, rest[1..]) || At(SOME, rest[1..]) {
        var right := ReadAt(PRIMARY, rest[2..]);
        t := Quantified(left, right, ts, r, ParseAt(PRIMARY, rest[2..]));
      } else {
        t := ReadOperandOf(left, op.value, ts, r);
      }
    } else if At(LIKE, rest) {
      WordDoesNotContinue(LIKE, rest);
      LikeTokens(rest);
      t := ReadOperandOf(left, Like, ts, r);
    } else if At(ILIKE, rest) {
      WordDoesNotContinue(ILIKE, rest);
      LikeTokens(rest);
      t := ReadOperandOf(left, ILike, ts, r);
    } else if At(IN, rest) {
      WordDoesNotContinue(IN, rest);
      t := ReadInList(left, ts, r);
    } else if At(BETWEEN, rest) {
      WordDoesNotContinue(BETWEEN, rest);
      t := ReadBetweenText(left, ts, r);
    } else if At(IS, rest) {
      WordDoesNotContinue(IS, rest);
      t := ReadIsNull(left, ts, r);
    } else {
      OperandAlone(left, ts, r);
      t := left;
    }
  }

  lemma LikeTokens(ts: seq<Token>)
    ensures At(LIKE, ts) ==> OperatorToken(Like, WrittenAs(ts[0])) == ts[0]
    ensures At(ILIKE, ts) ==> OperatorToken(ILike, WrittenAs(ts[0])) == ts[0]
    ensures !Comparison(Like) && !Comparison(ILike)
  {}

  lemma ReadOk(t: Text, level: nat, ts: seq<Token>, r: Parsed<Expr>)
    requires Read(t, level, ts, r)
    ensures r.Ok? && Yield(t) + r.rest == ts
  {}

  lemma OperandAlone(left: Text, ts: seq<Token>, r: Parsed<Expr>)
    requires Read(left, OPERAND, ts, r)
    ensures Read(left, COMPARISON, ts, r)
  {
    hide Yield, Meaning, Proper, Continues;
  }

  lemma {:induction false} ReadOperandOf(left: Text, op: BinaryOperator, ts: seq<Token>, r: Parsed<Expr>) returns (t: Text)
    requires ComparesWith(left, ts, r) && |r.rest| < |ts|
    requires Comparison(op) || op == Like || op == ILike
    requires OperatorToken(op, WrittenAs(r.rest[0])) == r.rest[0]
    requires Comparison(op) ==> !At(ANY, r.rest[1..]) && !At(SOME, r.rest[1..])
    requires ParseOperandOf(r.value, op, r.rest[1..]).Ok?
    ensures Read(t, COMPARISON, ts, ParseOperandOf(r.value, op, r.rest[1..]))
    decreases |r.rest|, 0
  {
    hide ParseAt, Continues, Comparison, Fits, OperatorToken, OperatorLevel, StopsAt;
    var after := r.rest[1..];
    OperandIsBitOr(after);
    var right := ReadAt(OPERAND, after);
    var r' := ParseAt(OPERAND, after);
    t := InfixText(left, op, WrittenAs(r.rest[0]), right);
    OperandStart(right, after, r');
    ComparisonFits(left, op, WrittenAs(r.rest[0]), right, Continues(r'.rest));
    Glue(Yield(left), [r.rest[0]], Yield(right), r.rest, r'.rest);
  }

  lemma OperandStart(x: Text, ts: seq<Token>, r: Parsed<Expr>)
    requires Read(x, OPERAND, ts, r)
    ensures forall w :: At(w, Yield(x)) <==> At(w, ts)
  {
    hide Yield, Meaning, Proper, Continues;
    FirstToken(x, Continues(r.rest), r.rest);
  }

  lemma ComparisonFits(left: Text, op: BinaryOperator, written: string, right: Text, closed: bool)
    requires Comparison(op) || op == Like || op == ILike
    requires Fits(left, OPERAND, false) && Fits(right, OPERAND, closed)
    requires Comparison(op) ==> !At(ANY, Yield(right)) && !At(SOME, Yield(right))
    ensures Fits(InfixText(left, op, written, right), COMPARISON, closed)
  {}

  lemma Quantified(left: Text, right: Text, ts: seq<Token>, r: Parsed<Expr>, r': Parsed<Expr>) returns (t: Text)
    requires ComparesWith(left, ts, r) && ComparisonAt(Peek(r.rest)).Some?
    requires At(ANY, r.rest[1..]) || At(SOME, r.rest[1..])
    requires Read(right, PRIMARY, r.rest[2..], r')
    ensures var op := ComparisonAt(Peek(r.rest)).value;
      r'.Ok? && Read(t, COMPARISON, ts, Ok(
        if At(SOME, r.rest[1..]) then SomeComparison(r.value, op, r'.value) else AnyComparison(r.value, op, r'.value), r'.rest))
  {
    hide ComparisonAt, Continues, OperatorToken, Comparison, Fits, Proper, Level, Yield;
    ComparisonToken(r.rest);
    var word := r.rest[1];
    t := QuantifiedText(left, ComparisonAt(Peek(r.rest)).value, At(SOME, r.rest[1..]), word.written, right);
    assert word == Keyword(if t.some then SOME else ANY, word.written);
    QuantifiedTokens(t, ts, r.rest, r'.rest);
    QuantifiedFits(t, Continues(r'.rest));
  }

  lemma QuantifiedFits(t: Text, closed: bool)
    requires t.QuantifiedText? && Comparison(t.op) && Fits(t.left, OPERAND, false) && Fits(t.right, PRIMARY, closed)
    ensures Fits(t, COMPARISON, closed)
  {}

  lemma QuantifiedTokens(t: Text, ts: seq<Token>, tail: seq<Token>, rest: seq<Token>)
    requires t.QuantifiedText? && |tail| >= 2 && Yield(t.left) + tail == ts && Yield(t.right) + rest == tail[2..]
    requires tail[0] == OperatorToken(t.op, "") && tail[1] == Keyword(if t.some then SOME else ANY, t.written)
    ensures Yield(t) + rest == ts
  {
    hide OperatorToken;
    Glue(Yield(t.left), [tail[0], tail[1]], Yield(t.right), tail, rest);
  }

  lemma {:induction false} ReadInList(left: Text, ts: seq<Token>, r: Parsed<Expr>) returns (t: Text)
    requires ComparesWith(left, ts, r) && |r.rest| < |ts| && At(IN, r.rest) && ParseInList(r.value, r.rest[1..]).Ok?
    ensures Read(t, COMPARISON, ts, ParseInList(r.value, r.rest[1..]))
    decreases |r.rest|, 0
  {
    hide ParseList, Fits, ProperList, YieldList, Meanings, Continues, Yield;
    var after := r.rest[2..];
    assert r.rest[1..][1..] == after;
    CommaDoesNotContinue(ParseList(after).rest);
    var items := ReadList(after);
    var rest := ParseList(after).rest;
    ItemsStart(items, rest);
    t := InText(left, r.rest[0].written, items);
    InTokens(t, ts, r.rest, rest);
    ProperFits(t, COMPARISON, Continues(rest[1..]));
  }

  lemma InTokens(t: Text, ts: seq<Token>, tail: seq<Token>, rest: seq<Token>)
    requires t.InText? && |tail| >= 2 && tail[..2] == [Keyword(IN, t.inWord), LParen]
    requires Yield(t.left) + tail == ts && YieldList(t.items) + rest == tail[2..] && rest != [] && rest[0] == RParen
    ensures Yield(t) + rest[1..] == ts
  {
    Glue(Yield(t.left), tail[..2], YieldList(t.items), tail, rest);
    Closing(Yield(t.left) + tail[..2], YieldList(t.items), RParen, tail[2..], rest);
    assert Yield(t.left) + tail[..2] + tail[2..] == Yield(t.left) + tail;
  }

  lemma ItemsStart(items: seq<Text>, rest: seq<Token>)
    requires ProperList(items)
    ensures forall w :: At(w, YieldList(items) + rest) <==> At(w, YieldList(items))
  {
    ListStarts(items, rest);
  }

  lemma {:induction false} ReadBetweenText(left: Text, ts: seq<Token>, r: Parsed<Expr>) returns (t: Text)
    requires ComparesWith(left, ts, r) && |r.rest| < |ts| && At(BETWEEN, r.rest) && ParseBetween(r.value, r.rest[1..]).Ok?
    ensures Read(t, COMPARISON, ts, ParseBetween(r.value, r.rest[1..]))
    decreases |r.rest|, 0
  {
    hide ParseAt, Fits, Proper, Level, Yield, Continues, StopsAt;
    var after := r.rest[1..];
    OperandIsBitOr(after);
    var low := ReadAt(OPERAND, after);
    var rest := ParseAt(OPERAND, after).rest;
    WordDoesNotContinue(AND, rest);
    OperandIsBitOr(rest[1..]);
    var high := ReadAt(OPERAND, rest[1..]);
    var rest' := ParseAt(OPERAND, rest[1..]).rest;
    t := BetweenText(left, r.rest[0].written, low, rest[0].written, high);
    BetweenFits(t, Continues(rest'));
    BetweenTokens(t, ts, r.rest, rest, rest');
  }

  lemma BetweenFits(t: Text, closed: bool)
    requires t.BetweenText?
    requires Fits(t.operand, OPERAND, false) && Fits(t.low, OPERAND, false) && Fits(t.high, OPERAND, closed)
    ensures Fits(t, COMPARISON, closed)
  {}

  lemma BetweenTokens(t: Text, ts: seq<Token>, tail: seq<Token>, rest: seq<Token>, rest': seq<Token>)
    requires t.BetweenText?
    requires Yield(t.operand) + tail == ts
    requires tail != [] && tail[0] == Keyword(BETWEEN, t.betweenWord) && Yield(t.low) + rest == tail[1..]
    requires rest != [] && rest[0] == Keyword(AND, t.andWord) && Yield(t.high) + rest' == rest[1..]
    ensures Yield(t) + rest' == ts
  {
    var before := Yield(t.operand) + [tail[0]] + Yield(t.low);
    Glue(Yield(t.operand), [tail[0]], Yield(t.low), tail, rest);
    Glue(before, [rest[0]], Yield(t.high), rest, rest');
  }

  lemma ReadIsNull(left: Text, ts: seq<Token>, r: Parsed<Expr>) returns (t: Text)
    requires ComparesWith(left, ts, r) && At(IS, r.rest) && ParseIsNull(r.value, r.rest[1..]).Ok?
    ensures Read(t, COMPARISON, ts, ParseIsNull(r.value, r.rest[1..]))
  {
    hide Fits, Proper, Continues, Yield;
    var rest := r.rest;
    if At(NULL, rest[1..]) {
      t := NullText(left, rest[0].written, None, rest[1].written);
      NullTokens(t, ts, rest, 2);
    } else {
      t := NullText(left, rest[0].written, Some(rest[1].written), rest[2].written);
      NullTokens(t, ts, rest, 3);
    }
    NullFits(t, Continues(ParseIsNull(r.value, r.rest[1..]).rest));
  }

  lemma NullFits(t: Text, closed: bool)
    requires t.NullText? && Fits(t.operand, OPERAND, false)
    ensures Fits(t, COMPARISON, closed)
  {}

  lemma NullTokens(t: Text, ts: seq<Token>, tail: seq<Token>, n: nat)
    requires t.NullText? && Yield(t.operand) + tail == ts && n <= |tail|
    requires NullWords(t.isWord, t.not, t.nullWord) == tail[..n]
    ensures Yield(t) + tail[n..] == ts
  {
    Glue(Yield(t.operand), tail[..n], [], tail, tail[n..]);
  }

  // ---- lists ------------------------------------------------------------------

  lemma {:induction false} ReadList(ts: seq<Token>) returns (items: seq<Text>)
    requires ParseList(ts).Ok? && !Continues(ParseList(ts).rest)
    ensures ProperList(items) && Meanings(items) == ParseList(ts).value && YieldList(items) + ParseList(ts).rest == ts
    decreases |ts|, 2
  {
    hide ParseAt, Fits, Yield, Meaning, Continues, StopsAt;
    var x := ReadAt(OR_LEVEL, ts);
    var rest := ParseAt(OR_LEVEL, ts).rest;
    if Peek(rest) == Comma {
      CommaDoesNotContinue(rest);
      var more := ReadList(rest[1..]);
      items := [x] + more;
      ListTokens(x, more, rest, ParseList(rest[1..]).rest);
    } else {
      items := [x];
      assert items[1..] == [] && Meanings(items[1..]) == [];
    }
  }

  lemma CommaDoesNotContinue(rest: seq<Token>)
    requires Peek(rest) == Comma || Peek(rest) == RParen || Peek(rest) == RBracket
    ensures rest != [] && !Continues(rest)
  {}

  lemma ListTokens(x: Text, more: seq<Text>, rest: seq<Token>, rest': seq<Token>)
    requires rest != [] && rest[0] == Comma && YieldList(more) + rest' == rest[1..] && more != []
    ensures YieldList([x] + more) + rest' == Yield(x) + rest
    ensures Meanings([x] + more) == [Meaning(x)] + Meanings(more)
  {
    hide Yield, Meaning;
    var items := [x] + more;
    assert items[1..] == more;
    assert rest == [Comma] + (YieldList(more) + rest');
  }

  // ---- primaries ------------------------------------------------------------

  /** What was read is a primary text, allowed whatever follows. */
  ghost predicate ReadAs(t: Text, ts: seq<Token>, r: Parsed<Expr>) {
    r.Ok? && Yield(t) + r.rest == ts && Meaning(t) == r.value && Level(t) >= PRIMARY && Proper(t, true) && Proper(t, false)
  }

  lemma {:induction false} ReadPrimaryText(ts: seq<Token>) returns (t: Text)
    requires ParsePrimary(ts).Ok?
    ensures Read(t, PRIMARY, ts, ParsePrimary(ts))
    decreases |ts|, 0, 5
  {
    hide ParseAt, ParseParenthesised, ParseArray, ParseNamed, ParseWord, ReadAs, Read, Yield, Meaning, Proper;
    match ts[0] {
      case LParen => t := ReadParenthesised(ts);
      case LBracket => t := ReadBracketed(ts);
      case Ident(_) => t := ReadNamed(ts);
      case Keyword(_, _) => t := ReadWord(ts);
      case _ => t := ReadLiteral(ts);
    }
    PrimaryRead(t, ts, ParsePrimary(ts));
  }

  lemma PrimaryRead(t: Text, ts: seq<Token>, r: Parsed<Expr>)
    requires ReadAs(t, ts, r)
    ensures Read(t, PRIMARY, ts, r)
  {
    hide Yield, Meaning, Proper;
  }

  lemma ReadLiteral(ts: seq<Token>) returns (t: Text)
    requires ts != [] && (ts[0].NumberToken? || ts[0].StringToken?)
    ensures ReadAs(t, ts, ParsePrimary(ts))
  {
    hide ParseAt;
    t := Atom(ts[0]);
    assert ts == [ts[0]] + ts[1..];
  }

  lemma {:induction false} ReadParenthesised(ts: seq<Token>) returns (t: Text)
    requires ts != [] && ts[0] == LParen && ParseParenthesised(ts[1..]).Ok?
    ensures ReadAs(t, ts, ParseParenthesised(ts[1..]))
    decreases |ts|, 0, 2
  {
    hide ParseAt, Fits, Continues, StopsAt;
    var inner := ReadAt(OR_LEVEL, ts[1..]);
    var rest := ParseAt(OR_LEVEL, ts[1..]).rest;
    CommaDoesNotContinue(rest);
    TextStart(inner, ts[1..], ParseAt(OR_LEVEL, ts[1..]));
    t := Parens(inner);
    assert rest == [RParen] + rest[1..] && ts == [LParen] + ts[1..];
    assert Yield(t) + rest[1..] == [LParen] + (Yield(inner) + rest);
  }

  lemma TextStart(x: Text, ts: seq<Token>, r: Parsed<Expr>)
    requires Read(x, OR_LEVEL, ts, r)
    ensures forall w :: At(w, Yield(x)) <==> At(w, ts)
  {
    hide Yield, Meaning, Proper, Continues;
    FirstToken(x, Continues(r.rest), r.rest);
  }

  lemma {:induction false} ReadElements(ts: seq<Token>) returns (items: seq<Text>)
    requires ParseArray(ts).Ok?
    ensures ProperList(items) && ParseArray(ts).value == Array(Meanings(items))
    ensures YieldList(items) + [RBracket] + ParseArray(ts).rest == ts
    decreases |ts|, 3
  {
    hide ParseList, YieldList, Meanings, ProperList;
    var rest := ParseList(ts).rest;
    CommaDoesNotContinue(rest);
    items := ReadList(ts);
    assert rest == [RBracket] + rest[1..];
  }

  lemma {:induction false} ReadBracketed(ts: seq<Token>) returns (t: Text)
    requires ts != [] && ts[0] == LBracket && ParseArray(ts[1..]).Ok?
    ensures ReadAs(t, ts, ParseArray(ts[1..]))
    decreases |ts|, 0, 2
  {
    hide ParseArray, YieldList, Meanings, ProperList;
    var items := ReadElements(ts[1..]);
    t := Brackets(items);
    assert ts == [LBracket] + ts[1..];
  }

  lemma NameIsAtom(ts: seq<Token>)
    requires ts != [] && IsName(ts[0])
    ensures ReadAs(Atom(ts[0]), ts, Ok(Identifier(NameOf(ts[0])), ts[1..]))
  {
    assert ts == [ts[0]] + ts[1..];
  }

  lemma {:induction false} ReadNamed(ts: seq<Token>) returns (t: Text)
    requires ts != [] && IsName(ts[0]) && ParseNamed(NameOf(ts[0]), ts[1..]).Ok?
    ensures ReadAs(t, ts, ParseNamed(NameOf(ts[0]), ts[1..]))
    decreases |ts|, 0, 3
  {
    hide ParseCall, ParseArray, EqIgnoreAsciiCase, ReadAs;
    var (name, after) := (NameOf(ts[0]), ts[1..]);
    NameIsAtom(ts);
    assert |ts| >= 2 ==> after[1..] == ts[2..];
    assert |ts| >= 3 ==> after[2..] == ts[3..];
    match Peek(after) {
      case LParen => t := ReadCallText(ts);
      case LBracket =>
        if EqIgnoreAsciiCase(name, "ARRAY") {
          t := ReadArrayText(ts);
        } else {
          t := Atom(ts[0]);
        }
      case Dot => t := ReadDottedText(ts);
      case _ => t := Atom(ts[0]);
    }
  }

  lemma ReadDottedText(ts: seq<Token>) returns (t: Text)
    requires |ts| >= 3 && IsName(ts[0]) && ts[1] == Dot && (ts[2].Ident? || ts[2].Keyword?)
    ensures ReadAs(t, ts, Ok(QualifiedIdentifier(NameOf(ts[0]), NameOf(ts[2])), ts[3..]))
  {
    t := Dotted(ts[0], ts[2]);
    assert ts == [ts[0], Dot, ts[2]] + ts[3..];
  }

  lemma {:induction false} ReadArrayText(ts: seq<Token>) returns (t: Text)
    requires |ts| >= 2 && IsName(ts[0]) && ts[1] == LBracket && EqIgnoreAsciiCase(NameOf(ts[0]), "ARRAY")
    requires ParseArray(ts[2..]).Ok?
    ensures ReadAs(t, ts, ParseArray(ts[2..]))
    decreases |ts|, 0, 2
  {
    hide ParseArray, YieldList, Meanings, ProperList, EqIgnoreAsciiCase;
    var items := ReadElements(ts[2..]);
    t := ArrayText(ts[0], items);
    assert ts == [ts[0], LBracket] + ts[2..];
  }

  // ---- calls ------------------------------------------------------------------

  lemma {:induction false} ReadArgumentsText(ts: seq<Token>) returns (arguments: ArgumentsText)
    requires ParseArguments(ts).Ok? && !Continues(ParseArguments(ts).rest)
    ensures ProperArguments(arguments) && MeaningOfArguments(arguments) == ParseArguments(ts).value
    ensures YieldArguments(arguments) + ParseArguments(ts).rest == ts
    decreases |ts|, 3
  {
    hide ParseList, YieldList, Meanings, ProperList;
    if Peek(ts) == Star {
      arguments := StarText;
      assert ts == [Star] + ts[1..];
    } else {
      var items := ReadList(ts);
      arguments := ListText(items);
    }
  }

  lemma {:induction false} ReadClosed(ts: seq<Token>) returns (distinct: Option<string>, arguments: ArgumentsText)
    requires ParseClosedArguments(ts).Ok?
    ensures ProperArguments(arguments) && MeaningOfArguments(arguments) == ParseClosedArguments(ts).value
    ensures distinct.None? ==> !At(DISTINCT, YieldArguments(arguments))
    ensures YieldDistinct(distinct) + YieldArguments(arguments) + [RParen] + ParseClosedArguments(ts).rest == ts
    decreases |ts|, 4
  {
    hide ParseArguments, ProperArguments, YieldArguments, MeaningOfArguments, Continues;
    var ts' := if At(DISTINCT, ts) then ts[1..] else ts;
    var rest := ParseArguments(ts').rest;
    CommaDoesNotContinue(rest);
    arguments := ReadArgumentsText(ts');
    ArgumentsStart(arguments, rest);
    if At(DISTINCT, ts) {
      distinct := Some(ts[0].written);
      assert ts == [ts[0]] + ts';
    } else {
      distinct := None;
    }
    Closing(YieldDistinct(distinct), YieldArguments(arguments), RParen, ts', rest);
  }

  lemma {:induction false} ReadFilterText(ts: seq<Token>) returns (filter: FilterText)
    requires ParseFilter(ts).Ok?
    ensures filter.FilterText? ==> Fits(filter.cond, OR_LEVEL, false)
    ensures MeaningOfFilter(filter) == ParseFilter(ts).value && YieldFilter(filter) + ParseFilter(ts).rest == ts
    decreases |ts|, 0
  {
    hide ParseAt, Fits, Yield, Meaning, Continues, StopsAt;
    if At(FILTER, ts) {
      assert ts[2..][1..] == ts[3..];
      var cond := ReadAt(OR_LEVEL, ts[3..]);
      var rest := ParseAt(OR_LEVEL, ts[3..]).rest;
      CommaDoesNotContinue(rest);
      filter := FilterText(ts[0].written, ts[2].written, cond);
      FilterTokens(filter, ts, rest);
    } else {
      filter := NoFilter;
    }
  }

  lemma FilterTokens(filter: FilterText, ts: seq<Token>, rest: seq<Token>)
    requires filter.FilterText? && |ts| >= 3 && rest != [] && rest[0] == RParen
    requires ts[..3] == [Keyword(FILTER, filter.filterWord), LParen, Keyword(WHERE, filter.whereWord)]
    requires Yield(filter.cond) + rest == ts[3..]
    ensures YieldFilter(filter) + rest[1..] == ts
  {
    assert rest == [RParen] + rest[1..];
    assert ts == ts[..3] + ts[3..];
  }

  lemma {:induction false} ReadCallText(ts: seq<Token>) returns (t: Text)
    requires |ts| >= 2 && IsName(ts[0]) && ts[1] == LParen && ParseCall(NameOf(ts[0]), ts[2..]).Ok?
    ensures ReadAs(t, ts, ParseCall(NameOf(ts[0]), ts[2..]))
    decreases |ts|, 0, 2
  {
    hide ParseClosedArguments, ParseFilter, ProperArguments, YieldArguments, YieldFilter, YieldDistinct,
      MeaningOfArguments, MeaningOfFilter, Fits, IsName, NameOf;
    var distinct, arguments := ReadClosed(ts[2..]);
    var rest := ParseClosedArguments(ts[2..]).rest;
    var filter := ReadFilterText(rest);
    t := CallText(ts[0], distinct, arguments, filter);
    assert ts == [ts[0], LParen] + ts[2..];
  }

  // ---- keywords -----------------------------------------------------------------

  lemma {:induction false} ReadWord(ts: seq<Token>) returns (t: Text)
    requires ts != [] && ts[0].Keyword? && ParseWord(ts[0].word, ts[0].written, ts[1..]).Ok?
    ensures ReadAs(t, ts, ParseWord(ts[0].word, ts[0].written, ts[1..]))
    decreases |ts|, 0, 4
  {
    hide ParseCase, ParseNamed, ParseNow, ReadAs, Special, IsAtom;
    var word := ts[0].word;
    if word == CASE {
      t := ReadCaseText(ts);
    } else if word == NOW {
      t := ReadNowText(ts);
    } else if IsName(ts[0]) {
      NameWord(ts);
      t := ReadNamed(ts);
    } else {
      t := Atom(ts[0]);
      SpecialWord(ts);
    }
  }

  lemma NameWord(ts: seq<Token>)
    requires ts != [] && ts[0].Keyword? && IsName(ts[0])
    ensures ParseWord(ts[0].word, ts[0].written, ts[1..]) == ParseNamed(NameOf(ts[0]), ts[1..])
  {
    hide ParseNamed;
  }

  lemma SpecialWord(ts: seq<Token>)
    requires ts != [] && ts[0].Keyword? && !IsName(ts[0]) && ts[0].word != CASE && ts[0].word != NOW
    requires ParseWord(ts[0].word, ts[0].written, ts[1..]).Ok?
    ensures ReadAs(Atom(ts[0]), ts, ParseWord(ts[0].word, ts[0].written, ts[1..]))
  {
    hide ParseNamed, ParseCase, ParseNow;
    assert ts == [ts[0]] + ts[1..];
  }

  lemma ReadNowText(ts: seq<Token>) returns (t: Text)
    requires At(NOW, ts) && ParseNow(ts[1..]).Ok?
    ensures ReadAs(t, ts, ParseNow(ts[1..]))
  {
    t := NowText(ts[0].written);
    assert ts == [ts[0], LParen, RParen] + ts[3..];
    assert ts[1..][2..] == ts[3..];
  }

  // ---- CASE -----------------------------------------------------------------

  predicate WordNext(rest: seq<Token>) {
    rest != [] && rest[0].Keyword? && (rest[0].word == WHEN || rest[0].word == ELSE || rest[0].word == END)
  }

  lemma WordNextDoesNotContinue(rest: seq<Token>)
    requires WordNext(rest)
    ensures !Continues(rest)
  {}

  lemma {:induction false} ReadCaseText(ts: seq<Token>) returns (t: Text)
    requires At(CASE, ts) && ParseCase(ts[1..]).Ok?
    ensures ReadAs(t, ts, ParseCase(ts[1..]))
    decreases |ts|, 0, 2
  {
    hide Fits, ParseScrutinee, ParseWhens, ParseElse, YieldOptional, YieldWhens, YieldElse,
      MeaningOfWhens, MeaningOfElse, Continues, Proper, Yield;
    var rest := ParseScrutinee(ts[1..]).rest;
    var rest' := ParseWhens(rest).rest;
    var rest'' := ParseElse(rest').rest;
    NextAfterWhens(rest');
    NextAfterScrutinee(rest);
    WordNextDoesNotContinue(rest);
    WordNextDoesNotContinue(rest');
    WordNextDoesNotContinue(rest'');
    var scrutinee := ReadScrutineeText(ts[1..]);
    var whens := ReadWhensText(rest);
    var otherwise := ReadElseText(rest');
    ScrutineeOrWhens(ts[1..]);
    WhensEmptyIff(whens);
    t := CaseText(ts[0].written, scrutinee, whens, otherwise, rest''[0].written);
    CaseTokens(t, ts, rest, rest', rest'');
    ProperCase(t);
  }

  lemma ProperCase(t: Text)
    requires t.CaseText? && ProperWhens(t.whens) && (t.scrutinee.None? ==> t.whens != [])
    requires t.scrutinee.Some? ==> Fits(t.scrutinee.value, OR_LEVEL, false) && !At(WHEN, Yield(t.scrutinee.value))
    requires t.otherwise.ElseText? ==> Fits(t.otherwise.result, OR_LEVEL, false)
    ensures Proper(t, true) && Proper(t, false)
  {}

  lemma NextAfterWhens(rest': seq<Token>)
    requires ParseElse(rest').Ok? && At(END, ParseElse(rest').rest)
    ensures WordNext(rest')
  {
    hide ParseAt;
  }

  lemma NextAfterScrutinee(rest: seq<Token>)
    requires ParseWhens(rest).Ok? && WordNext(ParseWhens(rest).rest)
    ensures WordNext(rest)
  {
    hide ParseWhen;
  }

  /** CASE without an operand has a WHEN. */
  lemma ScrutineeOrWhens(ts: seq<Token>)
    requires ParseScrutinee(ts).Ok? && ParseWhens(ParseScrutinee(ts).rest).Ok?
    ensures ParseScrutinee(ts).value.None? ==> ParseWhens(ParseScrutinee(ts).rest).value != []
  {
    hide ParseAt, ParseWhen;
  }

  lemma WhensEmptyIff(whens: seq<WhenText>)
    ensures whens == [] <==> MeaningOfWhens(whens) == []
  {}

  lemma CaseTokens(t: Text, ts: seq<Token>, rest: seq<Token>, rest': seq<Token>, rest'': seq<Token>)
    requires t.CaseText? && ts != [] && rest'' != []
    requires ts[0] == Keyword(CASE, t.caseWord) && rest''[0] == Keyword(END, t.endWord)
    requires YieldOptional(t.scrutinee) + rest == ts[1..]
    requires YieldWhens(t.whens) + rest' == rest && YieldElse(t.otherwise) + rest'' == rest'
    ensures Yield(t) + rest''[1..] == ts
  {
    hide YieldOptional, YieldWhens, YieldElse;
    assert rest'' == [rest''[0]] + rest''[1..] && ts == [ts[0]] + ts[1..];
    var (a, b, c) := (YieldOptional(t.scrutinee), YieldWhens(t.whens), YieldElse(t.otherwise));
    assert Yield(t) + rest''[1..] == [ts[0]] + (a + (b + (c + ([rest''[0]] + rest''[1..]))));
  }

  lemma {:induction false} ReadScrutineeText(ts: seq<Token>) returns (x: Option<Text>)
    requires ParseScrutinee(ts).Ok? && !Continues(ParseScrutinee(ts).rest)
    ensures x.Some? ==> Fits(x.value, OR_LEVEL, false) && !At(WHEN, Yield(x.value))
    ensures MeaningOfOptional(x) == ParseScrutinee(ts).value && YieldOptional(x) + ParseScrutinee(ts).rest == ts
    decreases |ts|, 2
  {
    hide ParseAt, Fits, Continues, StopsAt;
    if At(WHEN, ts) {
      x := None;
    } else {
      var t := ReadAt(OR_LEVEL, ts);
      TextStart(t, ts, ParseAt(OR_LEVEL, ts));
      x := Some(t);
    }
  }

  ghost predicate ProperWhens(whens: seq<WhenText>) {
    forall w :: w in whens ==> Fits(w.cond, OR_LEVEL, false) && Fits(w.result, OR_LEVEL, false)
  }

  lemma {:induction false} ReadWhensText(ts: seq<Token>) returns (whens: seq<WhenText>)
    requires ParseWhens(ts).Ok? && WordNext(ParseWhens(ts).rest)
    ensures ProperWhens(whens) && MeaningOfWhens(whens) == ParseWhens(ts).value && YieldWhens(whens) + ParseWhens(ts).rest == ts
    decreases |ts|, 2
  {
    hide Fits, Yield, Meaning, ParseWhen, Continues;
    if At(WHEN, ts) {
      var rest := ParseWhen(ts[1..]).rest;
      NextAfterScrutinee(rest);
      WordNextDoesNotContinue(rest);
      var w := ReadWhenText(ts);
      var more := ReadWhensText(rest);
      whens := [w] + more;
      WhensTokens(w, more, ParseWhens(ts).rest);
    } else {
      whens := [];
    }
  }

  lemma WhensTokens(w: WhenText, more: seq<WhenText>, rest: seq<Token>)
    ensures YieldWhens([w] + more) + rest == YieldWhen(w) + (YieldWhens(more) + rest)
    ensures MeaningOfWhens([w] + more) == [WhenClause(Meaning(w.cond), Meaning(w.result))] + MeaningOfWhens(more)
  {
    hide Yield, Meaning, YieldWhen;
    assert ([w] + more)[1..] == more;
  }

  lemma {:induction false} ReadWhenText(ts: seq<Token>) returns (w: WhenText)
    requires At(WHEN, ts) && ParseWhen(ts[1..]).Ok? && !Continues(ParseWhen(ts[1..]).rest)
    ensures Fits(w.cond, OR_LEVEL, false) && Fits(w.result, OR_LEVEL, false)
    ensures WhenClause(Meaning(w.cond), Meaning(w.result)) == ParseWhen(ts[1..]).value
    ensures YieldWhen(w) + ParseWhen(ts[1..]).rest == ts
    decreases |ts|, 1
  {
    hide ParseAt, Fits, Yield, Meaning, Continues, StopsAt;
    var cond := ReadAt(OR_LEVEL, ts[1..]);
    var rest := ParseAt(OR_LEVEL, ts[1..]).rest;
    WordDoesNotContinue(THEN, rest);
    var result := ReadAt(OR_LEVEL, rest[1..]);
    w := WhenText(ts[0].written, cond, rest[0].written, result);
    WhenTokens(w, ts, rest, ParseAt(OR_LEVEL, rest[1..]).rest);
  }

  lemma WhenTokens(w: WhenText, ts: seq<Token>, rest: seq<Token>, rest': seq<Token>)
    requires ts != [] && rest != [] && ts[0] == Keyword(WHEN, w.whenWord) && rest[0] == Keyword(THEN, w.thenWord)
    requires Yield(w.cond) + rest == ts[1..] && Yield(w.result) + rest' == rest[1..]
    ensures YieldWhen(w) + rest' == ts
  {
    hide Yield;
    var (a, b) := (Yield(w.cond), Yield(w.result));
    assert rest == [rest[0]] + (b + rest') && ts == [ts[0]] + (a + rest);
    assert YieldWhen(w) + rest' == [ts[0]] + (a + ([rest[0]] + (b + rest')));
  }

  lemma {:induction false} ReadElseText(ts: seq<Token>) returns (otherwise: ElseText)
    requires ParseElse(ts).Ok? && !Continues(ParseElse(ts).rest)
    ensures otherwise.ElseText? ==> Fits(otherwise.result, OR_LEVEL, false)
    ensures MeaningOfElse(otherwise) == ParseElse(ts).value && YieldElse(otherwise) + ParseElse(ts).rest == ts
    decreases |ts|, 0
  {
    hide ParseAt, Fits, Yield, Meaning, Continues, StopsAt;
    if At(ELSE, ts) {
      var result := ReadAt(OR_LEVEL, ts[1..]);
      otherwise := ElseText(ts[0].written, result);
      assert ts == [ts[0]] + ts[1..];
    } else {
      otherwise := NoElse;
    }
  }

  // ---- the theorems ---------------------------------------------------------

  /** A text allowed before an operator is allowed elsewhere. */
  lemma {:induction false} Weaker(t: Text, level: nat, closed: bool)
    requires Fits(t, level, closed)
    ensures Fits(t, level, false)
    decreases t
  {
    hide Yield;
    match t {
      case PrefixText(unary, _, operand) => Weaker(operand, if unary == Not then COMPARISON else POSTFIX, closed);
      case InfixText(_, op, _, right) => Weaker(right, if Infix(op) then OperatorLevel(op) + 1 else OPERAND, closed);
      case QuantifiedText(_, _, _, _, right) => Weaker(right, PRIMARY, closed);
      case BetweenText(_, _, _, _, high) => Weaker(high, OPERAND, closed);
      case _ =>
    }
  }

  /** Whatever is accepted is, up to where reading stopped, a text of the expression returned. */
  lemma ParsedIsText(ts: seq<Token>)
    requires ParseExpr(ts).Ok?
    ensures exists c :: c + ParseExpr(ts).rest == ts && Denotes(c, ParseExpr(ts).value)
  {
    hide ParseAt, Yield, Meaning, Proper, Continues, StopsAt;
    var t := ReadAt(OR_LEVEL, ts);
    Weaker(t, OR_LEVEL, Continues(ParseExpr(ts).rest));
    assert Denotes(Yield(t), ParseExpr(ts).value);
  }

  /** A whole input is accepted, as this expression, exactly if it is a text of it. */
  lemma AcceptedIff(ts: seq<Token>, e: Expr)
    ensures ParseExpr(ts + [Eof]) == Ok(e, [Eof]) <==> Denotes(ts, e)
  {
    hide ParseExpr, Denotes;
    var input := ts + [Eof];
    if ParseExpr(input) == Ok(e, [Eof]) {
      ParsedIsText(input);
      var c :| c + ParseExpr(input).rest == input && Denotes(c, e);
      assert (c + [Eof])[..|c|] == c && input[..|ts|] == ts;
    }
    if Denotes(ts, e) {
      ParseUndoesWriting(ts, e, [Eof]);
    }
  }

  // ---- forms the printer does not use -----------------------------------------

  /** A keyword after the dot is the column, and the name before it the table. */
  lemma KeywordColumn(table: Token, word: Word, written: string)
    requires IsName(table) && table != Keyword(NOT, NameOf(table))
    ensures Denotes([table, Dot, Keyword(word, written)], QualifiedIdentifier(NameOf(table), written))
  {
    var t := Dotted(table, Keyword(word, written));
    assert Yield(t) == [table, Dot, Keyword(word, written)] && Fits(t, OR_LEVEL, false);
  }

  /** A keyword without a meaning of its own is a name, spelled as written. */
  lemma KeywordName(word: Word, written: string)
    requires !Special(word) && word != NOT
    ensures Denotes([Keyword(word, written)], Identifier(written))
  {
    hide Special, AtomMeaning;
    var token := Keyword(word, written);
    NameMeaning(token);
    assert Yield(Atom(token)) == [token] && Meaning(Atom(token)) == AtomMeaning(token);
    Witness(Atom(token));
  }

  lemma NameMeaning(t: Token)
    requires IsName(t)
    ensures AtomMeaning(t) == Identifier(NameOf(t))
  {}

  /** Parentheses may be added around any expression. */
  lemma RedundantParentheses(ts: seq<Token>, e: Expr)
    requires Denotes(ts, e) && !At(SELECT, ts)
    ensures Denotes([LParen] + ts + [RParen], e)
  {
    var inner :| Yield(inner) == ts && Meaning(inner) == e && Fits(inner, OR_LEVEL, false);
    hide Yield, Meaning;
    ParensDenote(inner);
  }

  lemma ParensDenote(inner: Text)
    requires Fits(inner, OR_LEVEL, false) && !At(SELECT, Yield(inner))
    ensures Denotes([LParen] + Yield(inner) + [RParen], Meaning(inner))
  {
    var t := Parens(inner);
    assert Yield(t) == [LParen] + Yield(inner) + [RParen] && Meaning(t) == Meaning(inner);
    assert Fits(t, OR_LEVEL, false);
  }

  /** The word ARRAY, in upper or lower case, may stand before the bracket. */
  lemma ArrayWord(name: Token, items: seq<Text>)
    requires IsName(name) && !At(NOT, [name]) && EqIgnoreAsciiCase(NameOf(name), "ARRAY") && ProperList(items)
    ensures Denotes([LBracket] + YieldList(items) + [RBracket], Array(Meanings(items)))
    ensures Denotes([name, LBracket] + YieldList(items) + [RBracket], Array(Meanings(items)))
  {
    hide EqIgnoreAsciiCase, YieldList, Meanings, ProperList;
    var (t, u) := (Brackets(items), ArrayText(name, items));
    assert Yield(t) == [LBracket] + YieldList(items) + [RBracket] && Fits(t, OR_LEVEL, false);
    assert Yield(u) == [name, LBracket] + YieldList(items) + [RBracket] && Fits(u, OR_LEVEL, false);
    assert Meaning(t) == Array(Meanings(items)) == Meaning(u);
  }

  /** DISTINCT in a call is read and forgotten. */
  lemma DistinctForgotten(name: Token, distinct: string, items: seq<Text>)
    requires IsName(name) && !At(NOT, [name]) && ProperList(items)
    ensures Denotes([name, LParen, Keyword(DISTINCT, distinct)] + YieldList(items) + [RParen],
                    Function(NameOf(name), ExprArgs(Meanings(items)), None))
  {
    hide Yield, Meaning, Proper, ProperList;
    var t := CallText(name, Some(distinct), ListText(items), NoFilter);
    DistinctYield(t);
    DistinctProper(t);
    Witness(t);
  }

  lemma Witness(t: Text)
    requires Proper(t, false) && (NOT_LEVEL < Level(t) ==> !At(NOT, Yield(t)))
    ensures Denotes(Yield(t), Meaning(t))
  {
    hide Yield, Meaning, Proper;
    assert Fits(t, OR_LEVEL, false);
  }

  lemma DistinctYield(t: Text)
    requires t.CallText? && t.distinct.Some? && t.filter.NoFilter? && t.arguments.ListText?
    ensures Yield(t) == [t.name, LParen, Keyword(DISTINCT, t.distinct.value)] + YieldList(t.arguments.items) + [RParen]
    ensures Meaning(t) == Function(NameOf(t.name), ExprArgs(Meanings(t.arguments.items)), None)
  {
    hide YieldList, Meanings;
  }

  lemma DistinctProper(t: Text)
    requires t.CallText? && IsName(t.name) && t.distinct.Some? && t.filter.NoFilter?
    requires t.arguments.ListText? && ProperList(t.arguments.items)
    ensures Proper(t, false)
  {
    assert ProperArguments(t.arguments);
  }

  /** Of two operators the tighter one takes the name between them; equally tight ones associate to the left. */
  lemma TighterFirst(a: string, b: string, c: string, op: BinaryOperator, op': BinaryOperator, w: string, w': string)
    requires Infix(op) && Infix(op')
    ensures Denotes([Ident(a), OperatorToken(op, w), Ident(b), OperatorToken(op', w'), Ident(c)],
      if OperatorLevel(op) < OperatorLevel(op') then BinaryOp(Identifier(a), op, BinaryOp(Identifier(b), op', Identifier(c)))
      else BinaryOp(BinaryOp(Identifier(a), op, Identifier(b)), op', Identifier(c)))
  {
    hide Fits, OperatorToken, OperatorLevel;
    var (x, y, z) := (Atom(Ident(a)), Atom(Ident(b)), Atom(Ident(c)));
    var (k, k') := (OperatorLevel(op), OperatorLevel(op'));
    LevelBound(op);
    LevelBound(op');
    forall level: nat, closed | level <= PRIMARY
      ensures Fits(x, level, closed) && Fits(y, level, closed) && Fits(z, level, closed)
    {
      NameFits(a, level, closed);
      NameFits(b, level, closed);
      NameFits(c, level, closed);
    }
    if k < k' {
      var right := InfixText(y, op', w', z);
      InfixFits(k', y, op', w', z, false);
      FitsLower(right, k' , k + 1, false);
      InfixFits(k, x, op, w, right, false);
      FitsLower(InfixText(x, op, w, right), k, OR_LEVEL, false);
      InfixTokens(x, op, w, right);
      InfixTokens(y, op', w', z);
    } else {
      var left := InfixText(x, op, w, y);
      InfixFits(k, x, op, w, y, BIT_OR <= k');
      FitsLower(left, k, k', BIT_OR <= k');
      InfixFits(k', left, op', w', z, false);
      FitsLower(InfixText(left, op', w', z), k', OR_LEVEL, false);
      InfixTokens(left, op', w', z);
      InfixTokens(x, op, w, y);
    }
  }

  lemma InfixTokens(left: Text, op: BinaryOperator, written: string, right: Text)
    ensures Yield(InfixText(left, op, written, right)) == Yield(left) + [OperatorToken(op, written)] + Yield(right)
    ensures Meaning(InfixText(left, op, written, right)) == BinaryOp(Meaning(left), op, Meaning(right))
  {}

  lemma LevelBound(op: BinaryOperator)
    requires Infix(op)
    ensures OperatorLevel(op) < UNARY
  {}

  lemma NameFits(name: string, level: nat, closed: bool)
    requires level <= PRIMARY
    ensures Fits(Atom(Ident(name)), level, closed) && Yield(Atom(Ident(name))) == [Ident(name)]
    ensures Meaning(Atom(Ident(name))) == Identifier(name)
  {}

  lemma FitsLower(t: Text, high: nat, low: nat, closed: bool)
    requires low <= high && Fits(t, high, closed) && Yield(t) != [] && Yield(t)[0].Ident?
    ensures Fits(t, low, closed)
  {
    hide Yield, Proper;
  }
}
