/** Parsing undoes writing: every text of an expression is read as that expression. */
module RoundTrips {
  import opened Wrappers
  import opened Ast
  import opened Grammar
  import opened Texts

  /** How tightly a token would bind to an expression ending just before it; -1 if it cannot
      continue one. */
  function Binding(t: Token): int {
    match t
    case Keyword(w, _) =>
      (match w
       case OR => OR_LEVEL
       case AND => AND_LEVEL
       case IN => COMPARISON
       case BETWEEN => COMPARISON
       case LIKE => COMPARISON
       case ILIKE => COMPARISON
       case IS => COMPARISON
       case AT => POSTFIX
       case FILTER => PRIMARY
       case OVER => PRIMARY
       case _ => -1)
    case Eq => COMPARISON
    case Neq => COMPARISON
    case Lt => COMPARISON
    case Gt => COMPARISON
    case LtEq => COMPARISON
    case GtEq => COMPARISON
    case Pipe => BIT_OR
    case Caret => BIT_XOR
    case Ampersand => BIT_AND
    case LtLt => SHIFT
    case GtGt => SHIFT
    case PlusSign => ADDITIVE
    case MinusSign => ADDITIVE
    case Star => MULTIPLICATIVE
    case Slash => MULTIPLICATIVE
    case Percent => MULTIPLICATIVE
    case Colon => POSTFIX
    case LParen => PRIMARY
    case LBracket => PRIMARY
    case Dot => PRIMARY
    case _ => -1
  }

  /** May an expression parsed at `level` be followed by these tokens? */
  predicate Follows(level: nat, rest: seq<Token>) {
    Binding(Peek(rest)) < level
  }

  /** No operator that a zone at the end of a text would swallow. */
  predicate Clear(closed: bool, rest: seq<Token>) {
    closed || Follows(BIT_OR, rest)
  }

  // ---- first tokens ---------------------------------------------------------

  /** Tokens a text of at least this level can start with. */
  predicate Starts(level: nat, t: Token) {
    match t
    case NumberToken(_) => true
    case StringToken(_) => true
    case Ident(_) => true
    case Keyword(_, _) => true
    case LParen => true
    case LBracket => true
    case _ => UnaryAt(t).Some? && level <= UNARY
  }

  lemma {:induction false} TextStarts(t: Text, closed: bool)
    requires Proper(t, closed)
    ensures Yield(t) != [] && Starts(Level(t), Yield(t)[0])
    decreases t
  {
    hide YieldList, YieldArguments, YieldFilter, YieldDistinct, YieldWhens, YieldOptional, YieldElse, ProperList, ProperArguments;
    match t {
      case InfixText(left, op, _, _) =>
        TextStarts(left, Infix(op) && BIT_OR <= OperatorLevel(op));
      case QuantifiedText(left, _, _, _, _) => TextStarts(left, false);
      case NullText(operand, _, _, _) => TextStarts(operand, false);
      case InText(left, _, _) => TextStarts(left, false);
      case BetweenText(operand, _, _, _, _) => TextStarts(operand, false);
      case ZoneText(operand, _, _, _, _) => TextStarts(operand, true);
      case _ =>
    }
  }

  /** What follows a text does not change its first token. */
  lemma FirstToken(t: Text, closed: bool, rest: seq<Token>)
    requires Proper(t, closed)
    ensures Yield(t) + rest != [] && (Yield(t) + rest)[0] == Yield(t)[0]
    ensures Starts(Level(t), (Yield(t) + rest)[0])
    ensures forall w :: At(w, Yield(t) + rest) <==> At(w, Yield(t))
  {
    TextStarts(t, closed);
  }

  // ---- one level at a time --------------------------------------------------

  lemma TailStops(level: nat, e: Expr, rest: seq<Token>)
    requires InfixLevel(level) && Follows(level, rest)
    ensures ParseTail(level, e, rest) == Ok(e, rest)
  {}

  lemma ComparisonStops(e: Expr, rest: seq<Token>)
    requires Follows(COMPARISON, rest)
    ensures ParseComparisonTail(e, rest) == Ok(e, rest)
  {
    hide ParseAt;
  }

  lemma ZonesStop(e: Expr, rest: seq<Token>)
    requires Follows(POSTFIX, rest)
    ensures ParseZones(e, rest) == Ok(e, rest)
  {}

  /** What is parsed above the binary operators is parsed at each of their levels, if nothing follows on. */
  lemma {:induction false} LiftInfix(ts: seq<Token>, e: Expr, rest: seq<Token>, level: nat)
    requires BIT_OR <= level <= UNARY && Follows(BIT_OR, rest)
    requires ParseAt(UNARY, ts) == Ok(e, rest)
    ensures ParseAt(level, ts) == Ok(e, rest)
    decreases UNARY - level
  {
    if level < UNARY {
      LiftInfix(ts, e, rest, level + 1);
      TailStops(level, e, rest);
    }
  }

  // ---- the main induction ---------------------------------------------------

  /** A text is read as its meaning, and reading stops right after it, whatever follows, as long as
      what follows does not bind to an expression of that level. */
  lemma {:induction false} ReadText(t: Text, level: nat, closed: bool, rest: seq<Token>)
    requires Fits(t, level, closed) && level <= PRIMARY && Follows(level, rest) && Clear(closed, rest)
    ensures ParseAt(level, Yield(t) + rest) == Ok(Meaning(t), rest)
    decreases t, PRIMARY - level, 2
  {
    hide ParseTail, ParseComparisonTail, ParseZones, ParsePrimary, ParseAt, Yield, Meaning, Proper;
    if InfixLevel(level) {
      ReadChain(t, level, closed, rest);
      TailStops(level, Meaning(t), rest);
    } else if level == PRIMARY {
      ReadPrimary(t, closed, rest);
    } else if Level(t) == level {
      if level == NOT_LEVEL || level == UNARY {
        ReadPrefix(t, closed, rest);
      } else if level == COMPARISON {
        ReadComparison(t, closed, rest);
      } else {
        ZoneIsOpen(t, closed);
        ReadZone(t, rest);
      }
    } else {
      ReadText(t, level + 1, closed, rest);
      FirstToken(t, closed, rest);
      PassThrough(level, Yield(t) + rest, Meaning(t), rest);
    }
  }

  /** A level whose own syntax is not used passes on what the next level parsed. */
  lemma PassThrough(level: nat, ts: seq<Token>, e: Expr, rest: seq<Token>)
    requires level < PRIMARY && !InfixLevel(level) && Follows(level, rest)
    requires ts != [] && Starts(level + 1, ts[0]) && (level == NOT_LEVEL ==> !At(NOT, ts))
    requires ParseAt(level + 1, ts) == Ok(e, rest)
    ensures ParseAt(level, ts) == Ok(e, rest)
  {
    hide ParseTail, ParseComparisonTail, ParseZones, ParsePrimary;
    if level == COMPARISON {
      ComparisonStops(e, rest);
    } else if level == POSTFIX {
      ZonesStop(e, rest);
    }
  }

  /** At an operator's level the left operand is read, then the loop takes over. */
  lemma {:induction false} ReadChain(t: Text, level: nat, closed: bool, rest: seq<Token>)
    requires InfixLevel(level) && Fits(t, level, closed) && Follows(level + 1, rest) && Clear(closed, rest)
    ensures ParseAt(level, Yield(t) + rest) == ParseTail(level, Meaning(t), rest)
    decreases t, PRIMARY - level, 0
  {
    hide ParseTail, ParsePrimary, ParseComparisonTail, ParseZones, Yield, Meaning, Proper, ParseAt;
    if Level(t) == level {
      ReadOperator(t, closed, rest);
    } else {
      ReadText(t, level + 1, closed, rest);
      HandOver(level, Yield(t) + rest, Meaning(t), rest);
    }
  }

  lemma HandOver(level: nat, ts: seq<Token>, e: Expr, rest: seq<Token>)
    requires InfixLevel(level) && ParseAt(level + 1, ts) == Ok(e, rest)
    ensures ParseAt(level, ts) == ParseTail(level, e, rest)
  {
    hide ParseTail;
  }

  lemma InfixTokenAt(op: BinaryOperator, written: string)
    requires Infix(op)
    ensures InfixAt(OperatorLevel(op), OperatorToken(op, written)) == Some(op)
    ensures Binding(OperatorToken(op, written)) == OperatorLevel(op)
  {}

  lemma {:induction false} ReadOperator(t: Text, closed: bool, rest: seq<Token>)
    requires t.InfixText? && Infix(t.op) && Proper(t, closed) && Follows(Level(t) + 1, rest) && Clear(closed, rest)
    ensures ParseAt(Level(t), Yield(t) + rest) == ParseTail(Level(t), Meaning(t), rest)
    decreases t, 0, 0
  {
    hide ParseAt, ParseTail, Fits, OperatorToken, InfixAt, Binding;
    var (level, token) := (Level(t), OperatorToken(t.op, t.written));
    InfixTokenAt(t.op, t.written);
    var after := Yield(t.right) + rest;
    assert Yield(t) + rest == Yield(t.left) + ([token] + after);
    ReadChain(t.left, level, BIT_OR <= level, [token] + after);
    ReadText(t.right, level + 1, closed, rest);
    TailSteps(level, Meaning(t.left), t.op, t.written, Meaning(t.right), after, rest);
  }

  lemma TailSteps(level: nat, l: Expr, op: BinaryOperator, written: string, r: Expr, after: seq<Token>, rest: seq<Token>)
    requires InfixLevel(level) && InfixAt(level, OperatorToken(op, written)) == Some(op)
    requires ParseAt(level + 1, after) == Ok(r, rest)
    ensures ParseTail(level, l, [OperatorToken(op, written)] + after) == ParseTail(level, BinaryOp(l, op, r), rest)
  {
    hide ParseAt;
    assert ([OperatorToken(op, written)] + after)[1..] == after;
  }

  lemma {:induction false} ReadPrefix(t: Text, closed: bool, rest: seq<Token>)
    requires t.PrefixText? && Proper(t, closed) && Follows(Level(t), rest) && Clear(closed, rest)
    ensures ParseAt(Level(t), Yield(t) + rest) == Ok(Meaning(t), rest)
    decreases t, 0, 0
  {
    hide ParseAt, Fits, Binding, UnaryToken;
    ReadText(t.operand, if t.unary == Not then COMPARISON else POSTFIX, closed, rest);
    PrefixSteps(t.unary, t.notWord, Meaning(t.operand), Yield(t.operand) + rest, rest);
    assert Yield(t) + rest == [UnaryToken(t.unary, t.notWord)] + (Yield(t.operand) + rest);
  }

  lemma PrefixSteps(op: UnaryOperator, written: string, x: Expr, after: seq<Token>, rest: seq<Token>)
    requires ParseAt(if op == Not then COMPARISON else POSTFIX, after) == Ok(x, rest)
    ensures ParseAt(if op == Not then NOT_LEVEL else UNARY, [UnaryToken(op, written)] + after) == Ok(UnaryOp(op, x), rest)
  {
    hide ParsePrimary, ParseZones, ParseComparisonTail, ParseTail;
    assert ([UnaryToken(op, written)] + after)[1..] == after;
  }

  // ---- AT TIME ZONE ---------------------------------------------------------

  lemma {:induction false} ReadZone(t: Text, rest: seq<Token>)
    requires t.ZoneText? && Proper(t, false) && Follows(BIT_OR, rest)
    ensures ParseAt(POSTFIX, Yield(t) + rest) == Ok(Meaning(t), rest)
    decreases t, 0, 0
  {
    hide ParseAt, ParseZones, ParsePrimary, Fits;
    var words := [Keyword(AT, t.atWord), Keyword(TIME, t.timeWord), Keyword(ZONE, t.zoneWord)];
    var after := Yield(t.zone) + rest;
    assert Yield(t) + rest == Yield(t.operand) + (words + after);
    ReadText(t.operand, PRIMARY, true, words + after);
    ReadText(t.zone, OPERAND, false, rest);
    ZoneSteps(Meaning(t.operand), words, Meaning(t.zone), after, rest);
    PostfixOf(Yield(t.operand) + (words + after), Meaning(t.operand), words + after, Meaning(t), rest);
  }

  lemma ZoneIsOpen(t: Text, closed: bool)
    requires Level(t) == POSTFIX && Proper(t, closed)
    ensures t.ZoneText? && !closed
  {
    hide Fits;
  }

  lemma OperandIsBitOr(ts: seq<Token>)
    ensures ParseAt(OPERAND, ts) == ParseAt(BIT_OR, ts)
  {}

  lemma ZoneSteps(x: Expr, words: seq<Token>, zone: Expr, after: seq<Token>, rest: seq<Token>)
    requires |words| == 3 && AtTimeZoneWords(words)
    requires ParseAt(OPERAND, after) == Ok(zone, rest) && Follows(OPERAND, rest)
    ensures ParseZones(x, words + after) == Ok(AtTimeZone(x, zone), rest)
  {
    hide ParseAt;
    OperandIsBitOr(after);
    ZonesStop(AtTimeZone(x, zone), rest);
    var ts := words + after;
    assert ts[3..] == after;
    assert ts[1..][0] == words[1] && ts[2..][0] == words[2];
  }

  lemma PostfixOf(ts: seq<Token>, x: Expr, zones: seq<Token>, e: Expr, rest: seq<Token>)
    requires ParseAt(PRIMARY, ts) == Ok(x, zones) && ParseZones(x, zones) == Ok(e, rest)
    requires Peek(zones) != Colon
    ensures ParseAt(POSTFIX, ts) == Ok(e, rest)
  {
    hide ParseZones, ParsePrimary;
  }

  // ---- comparisons ----------------------------------------------------------

  lemma {:induction false} ReadComparison(t: Text, closed: bool, rest: seq<Token>)
    requires Level(t) == COMPARISON && Proper(t, closed) && Follows(COMPARISON, rest)
    ensures ParseAt(COMPARISON, Yield(t) + rest) == Ok(Meaning(t), rest)
    decreases t, 0, 1
  {
    hide ParseAt, ParseComparisonTail, Fits, Yield, Meaning;
    match t {
      case InfixText(_, _, _, _) => ReadBinaryComparison(t, closed, rest);
      case QuantifiedText(_, _, _, _, _) => ReadQuantified(t, closed, rest);
      case NullText(_, _, _, _) => ReadNull(t, rest);
      case InText(_, _, _) => ReadIn(t, rest);
      case BetweenText(_, _, _, _, _) => ReadBetween(t, closed, rest);
    }
  }

  /** The left operand is read first; the comparison sees everything after it. */
  lemma {:induction false} ComparisonLeft(x: Text, tail: seq<Token>)
    requires Fits(x, OPERAND, false) && Binding(Peek(tail)) == COMPARISON
    ensures ParseAt(COMPARISON, Yield(x) + tail) == ParseComparisonTail(Meaning(x), tail)
    decreases x, PRIMARY, 2
  {
    hide ParseComparisonTail, Yield;
    ReadText(x, OPERAND, false, tail);
  }

  lemma {:induction false} ReadBinaryComparison(t: Text, closed: bool, rest: seq<Token>)
    requires t.InfixText? && !Infix(t.op) && Proper(t, closed) && Follows(COMPARISON, rest)
    ensures ParseAt(COMPARISON, Yield(t) + rest) == Ok(Meaning(t), rest)
    decreases t, 0, 0
  {
    hide ParseAt, ParseComparisonTail, Fits;
    var token := OperatorToken(t.op, t.written);
    var after := Yield(t.right) + rest;
    assert Yield(t) + rest == Yield(t.left) + ([token] + after);
    ComparisonLeft(t.left, [token] + after);
    ReadText(t.right, OPERAND, closed, rest);
    OperandIsBitOr(after);
    FitsProper(t.right, OPERAND, closed);
    FirstToken(t.right, closed, rest);
    ComparisonSteps(Meaning(t.left), t.op, t.written, Meaning(t.right), after, rest);
  }

  lemma FitsProper(t: Text, level: nat, closed: bool)
    requires Fits(t, level, closed)
    ensures Proper(t, closed) && Level(t) >= level
    ensures level <= NOT_LEVEL < Level(t) ==> !At(NOT, Yield(t))
  {}

  lemma ComparisonSteps(l: Expr, op: BinaryOperator, written: string, r: Expr, after: seq<Token>, rest: seq<Token>)
    requires Comparison(op) || op == Like || op == ILike
    requires Comparison(op) ==> !At(ANY, after) && !At(SOME, after)
    requires ParseAt(BIT_OR, after) == Ok(r, rest)
    ensures ParseComparisonTail(l, [OperatorToken(op, written)] + after) == Ok(BinaryOp(l, op, r), rest)
  {
    hide ParseAt, ParseInList, ParseBetween, ParseIsNull;
    assert ([OperatorToken(op, written)] + after)[1..] == after;
  }

  lemma NullSteps(x: Expr, isWord: string, not: Option<string>, nullWord: string, rest: seq<Token>)
    ensures ParseComparisonTail(x, NullWords(isWord, not, nullWord) + rest)
         == Ok(if not.Some? then IsNotNull(x) else IsNull(x), rest)
  {
    hide ParseComparisonTail;
    var body := NullWords(isWord, not, nullWord)[1..] + rest;
    assert NullWords(isWord, not, nullWord) + rest == [Keyword(IS, isWord)] + body;
    IsSteps(x, isWord, body);
    if not.Some? {
      assert body[1..] == [Keyword(NULL, nullWord)] + rest && body[2..] == rest;
    } else {
      assert body[1..] == rest;
    }
  }

  lemma IsSteps(x: Expr, isWord: string, body: seq<Token>)
    ensures ParseComparisonTail(x, [Keyword(IS, isWord)] + body) == ParseIsNull(x, body)
  {
    hide ParseAt, ParseIsNull, ParseInList, ParseBetween, ParseOperandOf;
    assert ([Keyword(IS, isWord)] + body)[1..] == body;
  }

  lemma {:induction false} ReadNull(t: Text, rest: seq<Token>)
    requires t.NullText? && Proper(t, false) && Follows(COMPARISON, rest)
    ensures ParseAt(COMPARISON, Yield(t) + rest) == Ok(Meaning(t), rest)
    decreases t, 0, 0
  {
    hide ParseAt, ParseComparisonTail, Fits;
    var tail := NullWords(t.isWord, t.not, t.nullWord) + rest;
    assert Yield(t) + rest == Yield(t.operand) + tail;
    ComparisonLeft(t.operand, tail);
    NullSteps(Meaning(t.operand), t.isWord, t.not, t.nullWord, rest);
  }

  lemma {:induction false} ReadIn(t: Text, rest: seq<Token>)
    requires t.InText? && Proper(t, false) && Follows(COMPARISON, rest)
    ensures ParseAt(COMPARISON, Yield(t) + rest) == Ok(Meaning(t), rest)
    decreases t, 0, 0
  {
    hide ParseAt, ParseList, YieldList, ParseComparisonTail, Fits, Meanings;
    var items := YieldList(t.items) + ([RParen] + rest);
    var tail := [Keyword(IN, t.inWord), LParen] + items;
    assert Yield(t) + rest == Yield(t.left) + tail;
    ComparisonLeft(t.left, tail);
    ListStarts(t.items, [RParen] + rest);
    ReadList(t.items, [RParen] + rest);
    InSteps(Meaning(t.left), t.inWord, Meanings(t.items), items, rest);
  }

  lemma InSteps(x: Expr, inWord: string, list: seq<Expr>, items: seq<Token>, rest: seq<Token>)
    requires ParseList(items) == Ok(list, [RParen] + rest) && !At(SELECT, items)
    ensures ParseComparisonTail(x, [Keyword(IN, inWord), LParen] + items) == Ok(InList(x, false, list), rest)
  {
    hide ParseAt, ParseList;
    var tail := [Keyword(IN, inWord), LParen] + items;
    assert tail[1..] == [LParen] + items && tail[1..][1..] == items;
    assert ([RParen] + rest)[1..] == rest;
  }

  lemma {:induction false} ReadBetween(t: Text, closed: bool, rest: seq<Token>)
    requires t.BetweenText? && Proper(t, closed) && Follows(COMPARISON, rest)
    ensures ParseAt(COMPARISON, Yield(t) + rest) == Ok(Meaning(t), rest)
    decreases t, 0, 0
  {
    hide ParseAt, ParseComparisonTail, Fits;
    var afterAnd := Yield(t.high) + rest;
    var after := Yield(t.low) + ([Keyword(AND, t.andWord)] + afterAnd);
    var tail := [Keyword(BETWEEN, t.betweenWord)] + after;
    assert Yield(t) + rest == Yield(t.operand) + tail;
    ComparisonLeft(t.operand, tail);
    ReadText(t.low, OPERAND, false, [Keyword(AND, t.andWord)] + afterAnd);
    ReadText(t.high, OPERAND, closed, rest);
    BetweenSteps(t, after, afterAnd, rest);
  }

  lemma BetweenSteps(t: Text, after: seq<Token>, afterAnd: seq<Token>, rest: seq<Token>)
    requires t.BetweenText?
    requires ParseAt(OPERAND, after) == Ok(Meaning(t.low), [Keyword(AND, t.andWord)] + afterAnd)
    requires ParseAt(OPERAND, afterAnd) == Ok(Meaning(t.high), rest)
    ensures ParseComparisonTail(Meaning(t.operand), [Keyword(BETWEEN, t.betweenWord)] + after) == Ok(Meaning(t), rest)
  {
    hide ParseComparisonTail;
    BetweenBody(t, after, afterAnd, rest);
    BetweenLeads(Meaning(t.operand), t.betweenWord, after);
  }

  lemma BetweenLeads(x: Expr, betweenWord: string, after: seq<Token>)
    ensures ParseComparisonTail(x, [Keyword(BETWEEN, betweenWord)] + after) == ParseBetween(x, after)
  {
    hide ParseAt, ParseInList, ParseIsNull, ParseOperandOf, ParseBetween;
    assert ([Keyword(BETWEEN, betweenWord)] + after)[1..] == after;
  }

  lemma BetweenBody(t: Text, after: seq<Token>, afterAnd: seq<Token>, rest: seq<Token>)
    requires t.BetweenText?
    requires ParseAt(OPERAND, after) == Ok(Meaning(t.low), [Keyword(AND, t.andWord)] + afterAnd)
    requires ParseAt(OPERAND, afterAnd) == Ok(Meaning(t.high), rest)
    ensures ParseBetween(Meaning(t.operand), after) == Ok(Meaning(t), rest)
  {
    OperandIsBitOr(after);
    OperandIsBitOr(afterAnd);
    hide ParseAt, Yield;
    assert ([Keyword(AND, t.andWord)] + afterAnd)[1..] == afterAnd;
  }

  lemma {:induction false} ReadQuantified(t: Text, closed: bool, rest: seq<Token>)
    requires t.QuantifiedText? && Proper(t, closed) && Follows(COMPARISON, rest)
    ensures ParseAt(COMPARISON, Yield(t) + rest) == Ok(Meaning(t), rest)
    decreases t, 0, 0
  {
    hide ParseAt, ParseComparisonTail, Fits, OperatorToken;
    var after := Yield(t.right) + rest;
    var tail := QuantifiedWords(t) + after;
    assert Yield(t) + rest == Yield(t.left) + tail;
    ComparisonBinding(t.op);
    ComparisonLeft(t.left, tail);
    FitsProper(t.right, PRIMARY, closed);
    ReadPrimary(t.right, closed, rest);
    QuantifiedSteps(t, after, rest);
  }

  function QuantifiedWords(t: Text): seq<Token>
    requires t.QuantifiedText?
  {
    [OperatorToken(t.op, ""), Keyword(if t.some then SOME else ANY, t.written)]
  }

  lemma ComparisonBinding(op: BinaryOperator)
    requires Comparison(op)
    ensures Binding(OperatorToken(op, "")) == COMPARISON && ComparisonAt(OperatorToken(op, "")) == Some(op)
  {}

  lemma QuantifiedSteps(t: Text, after: seq<Token>, rest: seq<Token>)
    requires t.QuantifiedText? && Comparison(t.op)
    requires ParseAt(PRIMARY, after) == Ok(Meaning(t.right), rest)
    ensures ParseComparisonTail(Meaning(t.left), QuantifiedWords(t) + after) == Ok(Meaning(t), rest)
  {
    hide ParseAt;
    ComparisonBinding(t.op);
    var tail := QuantifiedWords(t) + after;
    assert tail[1..] == [QuantifiedWords(t)[1]] + after && tail[2..] == after;
  }

  // ---- lists ----------------------------------------------------------------

  lemma ListStarts(items: seq<Text>, rest: seq<Token>)
    requires ProperList(items)
    ensures YieldList(items) != [] && Starts(OR_LEVEL, Peek(YieldList(items) + rest))
    ensures forall w :: At(w, YieldList(items) + rest) <==> At(w, YieldList(items))
  {
    hide Yield;
    FitsProper(items[0], OR_LEVEL, false);
    TextStarts(items[0], false);
    assert (YieldList(items) + rest)[0] == Yield(items[0])[0];
  }

  lemma {:induction false} ReadList(items: seq<Text>, rest: seq<Token>)
    requires ProperList(items)
    requires Peek(rest) == RParen || Peek(rest) == RBracket
    ensures ParseList(YieldList(items) + rest) == Ok(Meanings(items), rest)
    decreases items, 0, 0
  {
    hide ParseAt, Yield, Fits, Meaning;
    assert items[0] in items;
    if |items| == 1 {
      ReadText(items[0], OR_LEVEL, false, rest);
      assert YieldList(items) == Yield(items[0]);
      assert items[1..] == [] && Meanings(items[1..]) == [];
      assert Meanings(items) == [Meaning(items[0])];
    } else {
      var more := YieldList(items[1..]) + rest;
      assert YieldList(items) + rest == Yield(items[0]) + ([Comma] + more);
      ReadText(items[0], OR_LEVEL, false, [Comma] + more);
      ReadList(items[1..], rest);
      assert ([Comma] + more)[1..] == more;
    }
  }

  // ---- primaries ------------------------------------------------------------

  lemma {:induction false} ReadPrimary(t: Text, closed: bool, rest: seq<Token>)
    requires Level(t) >= PRIMARY && Proper(t, closed) && Follows(PRIMARY, rest)
    ensures ParseAt(PRIMARY, Yield(t) + rest) == Ok(Meaning(t), rest)
    decreases t, 0, 1
  {
    hide ParsePrimary, Yield, Meaning, Fits;
    match t {
      case Atom(_) => ReadAtom(t, rest);
      case Dotted(_, _) => ReadDotted(t, rest);
      case NowText(_) => ReadNow(t, rest);
      case Parens(_) => ReadParens(t, rest);
      case Brackets(_) => ReadBrackets(t, rest);
      case ArrayText(_, _) => ReadArray(t, rest);
      case CallText(_, _, _, _) => ReadCall(t, rest);
      case CaseText(_, _, _, _, _) => ReadCase(t, rest);
      case _ =>
    }
  }

  /** A name, whether an identifier or a keyword used as one, leads to the part of the grammar about names. */
  lemma NameLeads(name: Token, after: seq<Token>)
    requires IsName(name)
    ensures ParsePrimary([name] + after) == ParseNamed(NameOf(name), after)
  {
    hide ParseNamed, ParseAt;
    assert ([name] + after)[1..] == after;
  }

  lemma ReadAtom(t: Text, rest: seq<Token>)
    requires t.Atom? && Proper(t, true) && Follows(PRIMARY, rest)
    ensures ParsePrimary(Yield(t) + rest) == Ok(Meaning(t), rest)
  {
    hide ParseAt, ParsePrimary;
    if IsName(t.token) {
      NameLeads(t.token, rest);
    } else {
      SpecialAtom(t.token, rest);
    }
  }

  lemma SpecialAtom(token: Token, rest: seq<Token>)
    requires IsAtom(token) && !IsName(token)
    ensures ParsePrimary([token] + rest) == Ok(AtomMeaning(token), rest)
  {
    hide ParseAt, ParseNamed, ParseCase, ParseNow;
    assert ([token] + rest)[1..] == rest;
  }

  lemma ReadDotted(t: Text, rest: seq<Token>)
    requires t.Dotted? && Proper(t, true)
    ensures ParsePrimary(Yield(t) + rest) == Ok(Meaning(t), rest)
  {
    hide ParsePrimary, ParseAt;
    var after := [Dot, t.column] + rest;
    assert Yield(t) + rest == [t.table] + after;
    NameLeads(t.table, after);
    assert after[2..] == rest;
  }

  lemma ReadNow(t: Text, rest: seq<Token>)
    requires t.NowText?
    ensures ParsePrimary(Yield(t) + rest) == Ok(Meaning(t), rest)
  {
    hide ParseAt;
    var ts := Yield(t) + rest;
    assert ts[1..] == [LParen, RParen] + rest && ts[1..][1..] == [RParen] + rest && ts[1..][2..] == rest;
  }

  lemma {:induction false} ReadParens(t: Text, rest: seq<Token>)
    requires t.Parens? && Proper(t, true)
    ensures ParsePrimary(Yield(t) + rest) == Ok(Meaning(t), rest)
    decreases t, 0, 0
  {
    hide ParseAt, Fits;
    var inner := Yield(t.inner) + ([RParen] + rest);
    ReadText(t.inner, OR_LEVEL, false, [RParen] + rest);
    FitsProper(t.inner, OR_LEVEL, false);
    FirstToken(t.inner, false, [RParen] + rest);
    assert Yield(t) + rest == [LParen] + inner;
    assert ([RParen] + rest)[1..] == rest && ([LParen] + inner)[1..] == inner;
    assert ParsePrimary([LParen] + inner) == ParseParenthesised(inner);
  }

  lemma {:induction false} ReadItems(items: seq<Text>, rest: seq<Token>)
    requires ProperList(items)
    ensures ParseArray(YieldList(items) + ([RBracket] + rest)) == Ok(Array(Meanings(items)), rest)
    decreases items, 0, 1
  {
    hide ParseAt, ParseList, YieldList, Meanings;
    ReadList(items, [RBracket] + rest);
    assert ([RBracket] + rest)[1..] == rest;
  }

  lemma {:induction false} ReadBrackets(t: Text, rest: seq<Token>)
    requires t.Brackets? && Proper(t, true)
    ensures ParsePrimary(Yield(t) + rest) == Ok(Meaning(t), rest)
    decreases t, 0, 0
  {
    hide ParseAt, ParseArray, YieldList, Meanings, Fits;
    var items := YieldList(t.items) + ([RBracket] + rest);
    assert Yield(t) + rest == [LBracket] + items;
    assert ([LBracket] + items)[1..] == items;
    ReadItems(t.items, rest);
  }

  lemma {:induction false} ReadArray(t: Text, rest: seq<Token>)
    requires t.ArrayText? && Proper(t, true)
    ensures ParsePrimary(Yield(t) + rest) == Ok(Meaning(t), rest)
    decreases t, 0, 0
  {
    hide ParseAt, ParseArray, ParsePrimary, YieldList, Meanings, Fits, EqIgnoreAsciiCase;
    var items := YieldList(t.items) + ([RBracket] + rest);
    assert Yield(t) + rest == [t.name] + ([LBracket] + items);
    NameLeads(t.name, [LBracket] + items);
    assert ([LBracket] + items)[1..] == items;
    ReadItems(t.items, rest);
  }

  // ---- calls ----------------------------------------------------------------

  lemma {:induction false} ReadCall(t: Text, rest: seq<Token>)
    requires t.CallText? && Proper(t, true) && Follows(PRIMARY, rest)
    ensures ParsePrimary(Yield(t) + rest) == Ok(Meaning(t), rest)
    decreases t, 0, 0
  {
    hide ParseAt, ParseArguments, ParseFilter, ParseClosedArguments, ParseNamed, Yield, YieldArguments, YieldFilter, YieldDistinct,
      ParsePrimary, Fits, ProperArguments, MeaningOfArguments, MeaningOfFilter;
    var afterParen := YieldFilter(t.filter) + rest;
    var arguments := YieldArguments(t.arguments) + ([RParen] + afterParen);
    var inner := YieldDistinct(t.distinct) + arguments;
    CallTokens(t, rest, inner);
    ArgumentsStart(t.arguments, [RParen] + afterParen);
    ReadArguments(t.arguments, [RParen] + afterParen);
    ReadFilter(t.filter, rest);
    NameLeads(t.name, [LParen] + inner);
    ClosedSteps(t.distinct, arguments, MeaningOfArguments(t.arguments), afterParen);
    CallSteps(NameOf(t.name), inner, MeaningOfArguments(t.arguments), afterParen, MeaningOfFilter(t.filter), rest);
  }

  lemma CallTokens(t: Text, rest: seq<Token>, inner: seq<Token>)
    requires t.CallText?
    requires inner == YieldDistinct(t.distinct) + (YieldArguments(t.arguments) + ([RParen] + (YieldFilter(t.filter) + rest)))
    ensures Yield(t) + rest == [t.name] + ([LParen] + inner)
  {
    hide YieldDistinct, YieldArguments, YieldFilter;
  }

  lemma ClosedSteps(distinct: Option<string>, arguments: seq<Token>, args: FunctionArgs, afterParen: seq<Token>)
    requires distinct.None? ==> !At(DISTINCT, arguments)
    requires ParseArguments(arguments) == Ok(args, [RParen] + afterParen)
    ensures ParseClosedArguments(YieldDistinct(distinct) + arguments) == Ok(args, afterParen)
  {
    hide ParseArguments;
    assert ([RParen] + afterParen)[1..] == afterParen;
    if distinct.None? {
      assert YieldDistinct(distinct) + arguments == arguments;
    } else {
      assert (YieldDistinct(distinct) + arguments)[1..] == arguments;
    }
  }

  lemma CallSteps(name: string, inner: seq<Token>, args: FunctionArgs, afterParen: seq<Token>, filter: Option<Expr>, rest: seq<Token>)
    requires !At(OVER, rest)
    requires ParseClosedArguments(inner) == Ok(args, afterParen)
    requires ParseFilter(afterParen) == Ok(filter, rest)
    ensures ParseNamed(name, [LParen] + inner) == Ok(Function(name, args, filter), rest)
  {
    hide ParseAt, ParseClosedArguments, ParseFilter;
    assert ([LParen] + inner)[1..] == inner;
  }

  lemma ArgumentsStart(arguments: ArgumentsText, rest: seq<Token>)
    requires ProperArguments(arguments)
    ensures arguments.ListText? ==> Peek(YieldArguments(arguments) + rest) != Star
    ensures forall w :: At(w, YieldArguments(arguments) + rest) <==> At(w, YieldArguments(arguments))
  {
    hide Yield, YieldList;
    if arguments.ListText? {
      ListStarts(arguments.items, rest);
    }
  }

  lemma {:induction false} ReadArguments(arguments: ArgumentsText, rest: seq<Token>)
    requires ProperArguments(arguments) && Peek(rest) == RParen
    ensures ParseArguments(YieldArguments(arguments) + rest) == Ok(MeaningOfArguments(arguments), rest)
    decreases arguments, 0, 0
  {
    hide ParseList, YieldList, Meanings;
    ArgumentsStart(arguments, rest);
    match arguments {
      case StarText => assert ([Star] + rest)[1..] == rest;
      case ListText(items) => ReadList(items, rest);
    }
  }

  lemma {:induction false} ReadFilter(filter: FilterText, rest: seq<Token>)
    requires (filter.FilterText? ==> Fits(filter.cond, OR_LEVEL, false)) && Follows(PRIMARY, rest)
    ensures ParseFilter(YieldFilter(filter) + rest) == Ok(MeaningOfFilter(filter), rest)
    decreases filter, 0, 0
  {
    hide ParseAt, Yield, ParseFilter, Fits;
    match filter {
      case NoFilter =>
        assert [] + rest == rest;
        FilterStops(rest);
      case FilterText(filterWord, whereWord, cond) =>
        var inner := Yield(cond) + ([RParen] + rest);
        var words := [Keyword(FILTER, filterWord), LParen, Keyword(WHERE, whereWord)];
        assert YieldFilter(filter) + rest == words + inner;
        ReadText(cond, OR_LEVEL, false, [RParen] + rest);
        FilterSteps(words, Meaning(cond), inner, rest);
    }
  }

  lemma FilterStops(rest: seq<Token>)
    requires Follows(PRIMARY, rest)
    ensures ParseFilter(rest) == Ok(None, rest)
  {
    hide ParseAt;
  }

  lemma FilterSteps(words: seq<Token>, x: Expr, inner: seq<Token>, rest: seq<Token>)
    requires |words| == 3 && At(FILTER, words) && words[1] == LParen && At(WHERE, words[2..])
    requires ParseAt(OR_LEVEL, inner) == Ok(x, [RParen] + rest)
    ensures ParseFilter(words + inner) == Ok(Some(x), rest)
  {
    hide ParseAt;
    var ts := words + inner;
    assert ts[1..][0] == LParen && ts[2..][0] == words[2] && ts[2..][1..] == inner;
    assert ([RParen] + rest)[1..] == rest;
  }

  // ---- CASE -----------------------------------------------------------------

  lemma {:induction false} ReadCase(t: Text, rest: seq<Token>)
    requires t.CaseText? && Proper(t, true)
    ensures ParsePrimary(Yield(t) + rest) == Ok(Meaning(t), rest)
    decreases t, 0, 0
  {
    hide ParseAt, ParseWhens, ParseElse, ParseScrutinee, ParsePrimary, YieldWhens, YieldOptional, YieldElse, Fits,
      MeaningOfWhens, MeaningOfOptional, MeaningOfElse;
    var end := [Keyword(END, t.endWord)] + rest;
    var afterWhens := YieldElse(t.otherwise) + end;
    var afterScrutinee := YieldWhens(t.whens) + afterWhens;
    var inner := YieldOptional(t.scrutinee) + afterScrutinee;
    assert Yield(t) + rest == [Keyword(CASE, t.caseWord)] + inner;
    ElseStart(t.otherwise, end);
    WhensStart(t.whens, afterWhens);
    ReadScrutinee(t.scrutinee, afterScrutinee);
    ReadWhens(t.whens, afterWhens);
    ReadElse(t.otherwise, end);
    CaseSteps(t, inner, afterScrutinee, afterWhens, rest);
  }

  lemma {:induction false} CaseSteps(t: Text, inner: seq<Token>, afterScrutinee: seq<Token>, afterWhens: seq<Token>, rest: seq<Token>)
    requires t.CaseText?
    requires ParseScrutinee(inner) == Ok(MeaningOfOptional(t.scrutinee), afterScrutinee)
    requires ParseWhens(afterScrutinee) == Ok(MeaningOfWhens(t.whens), afterWhens)
    requires ParseElse(afterWhens) == Ok(MeaningOfElse(t.otherwise), [Keyword(END, t.endWord)] + rest)
    ensures ParsePrimary([Keyword(CASE, t.caseWord)] + inner) == Ok(Meaning(t), rest)
  {
    hide ParseAt, ParseWhens, ParseElse, ParseScrutinee, MeaningOfWhens, MeaningOfOptional, MeaningOfElse;
    var ts := [Keyword(CASE, t.caseWord)] + inner;
    assert ts[1..] == inner && ([Keyword(END, t.endWord)] + rest)[1..] == rest;
    assert ParsePrimary(ts) == ParseCase(inner);
  }

  lemma ElseStart(otherwise: ElseText, end: seq<Token>)
    requires At(END, end)
    ensures !At(WHEN, YieldElse(otherwise) + end) && Follows(OR_LEVEL, YieldElse(otherwise) + end)
  {
    hide Yield;
    if otherwise.NoElse? {
      assert [] + end == end;
    }
  }

  lemma WhensStart(whens: seq<WhenText>, after: seq<Token>)
    requires Follows(OR_LEVEL, after)
    ensures Follows(OR_LEVEL, YieldWhens(whens) + after)
    ensures whens != [] ==> At(WHEN, YieldWhens(whens) + after)
  {
    hide Yield;
    if whens == [] {
      assert [] + after == after;
    }
  }

  lemma {:induction false} ReadScrutinee(x: Option<Text>, after: seq<Token>)
    requires x.Some? ==> Fits(x.value, OR_LEVEL, false) && !At(WHEN, Yield(x.value))
    requires x.None? ==> At(WHEN, after)
    requires Follows(OR_LEVEL, after)
    ensures ParseScrutinee(YieldOptional(x) + after) == Ok(MeaningOfOptional(x), after)
    decreases x, 0, 0
  {
    hide ParseAt, Yield, Fits, Binding;
    match x {
      case None => assert [] + after == after;
      case Some(t) =>
        FitsProper(t, OR_LEVEL, false);
        FirstToken(t, false, after);
        FollowsMore(after);
        ReadText(t, OR_LEVEL, false, after);
    }
  }

  lemma FollowsMore(rest: seq<Token>)
    requires Follows(OR_LEVEL, rest)
    ensures Follows(BIT_OR, rest)
  {
    hide Binding;
  }

  lemma {:induction false} ReadWhens(whens: seq<WhenText>, after: seq<Token>)
    requires forall w :: w in whens ==> Fits(w.cond, OR_LEVEL, false) && Fits(w.result, OR_LEVEL, false)
    requires Follows(OR_LEVEL, after) && !At(WHEN, after)
    ensures ParseWhens(YieldWhens(whens) + after) == Ok(MeaningOfWhens(whens), after)
    decreases whens, 0, 0
  {
    hide ParseWhen, Yield, ParseWhens, Fits, Binding, Meaning;
    if whens == [] {
      assert [] + after == after;
      NoWhens(after);
    } else {
      var more := YieldWhens(whens[1..]) + after;
      ReadWhens(whens[1..], after);
      WhensStart(whens[1..], after);
      ReadWhen(whens[0], more);
      var body := YieldWhen(whens[0])[1..] + more;
      WhensTokens(whens, after, body);
      WhensSteps(whens, body, more, after);
    }
  }

  lemma WhensTokens(whens: seq<WhenText>, after: seq<Token>, body: seq<Token>)
    requires whens != [] && body == YieldWhen(whens[0])[1..] + (YieldWhens(whens[1..]) + after)
    ensures YieldWhens(whens) + after == [Keyword(WHEN, whens[0].whenWord)] + body
  {
    hide Yield;
    Regroup(YieldWhen(whens[0]), YieldWhens(whens[1..]), after);
  }

  lemma Regroup(first: seq<Token>, more: seq<Token>, after: seq<Token>)
    requires first != []
    ensures first + more + after == [first[0]] + (first[1..] + (more + after))
  {}

  lemma NoWhens(after: seq<Token>)
    requires !At(WHEN, after)
    ensures ParseWhens(after) == Ok([], after)
  {
    hide ParseWhen;
  }

  lemma WhensSteps(whens: seq<WhenText>, body: seq<Token>, more: seq<Token>, after: seq<Token>)
    requires whens != []
    requires ParseWhen(body) == Ok(WhenClause(Meaning(whens[0].cond), Meaning(whens[0].result)), more)
    requires ParseWhens(more) == Ok(MeaningOfWhens(whens[1..]), after)
    ensures ParseWhens([Keyword(WHEN, whens[0].whenWord)] + body) == Ok(MeaningOfWhens(whens), after)
  {
    hide ParseWhen;
    assert ([Keyword(WHEN, whens[0].whenWord)] + body)[1..] == body;
  }

  lemma {:induction false} ReadWhen(w: WhenText, more: seq<Token>)
    requires Fits(w.cond, OR_LEVEL, false) && Fits(w.result, OR_LEVEL, false) && Follows(OR_LEVEL, more)
    ensures ParseWhen(YieldWhen(w)[1..] + more) == Ok(WhenClause(Meaning(w.cond), Meaning(w.result)), more)
    decreases w, 0, 0
  {
    hide ParseAt, Yield, Fits;
    var result := Yield(w.result) + more;
    assert YieldWhen(w)[1..] + more == Yield(w.cond) + ([Keyword(THEN, w.thenWord)] + result);
    FollowsMore(more);
    ReadText(w.cond, OR_LEVEL, false, [Keyword(THEN, w.thenWord)] + result);
    ReadText(w.result, OR_LEVEL, false, more);
    assert ([Keyword(THEN, w.thenWord)] + result)[1..] == result;
  }

  lemma {:induction false} ReadElse(otherwise: ElseText, end: seq<Token>)
    requires (otherwise.ElseText? ==> Fits(otherwise.result, OR_LEVEL, false)) && At(END, end)
    ensures ParseElse(YieldElse(otherwise) + end) == Ok(MeaningOfElse(otherwise), end)
    decreases otherwise, 0, 0
  {
    hide ParseAt, Yield, Fits;
    match otherwise {
      case NoElse => assert [] + end == end;
      case ElseText(elseWord, result) =>
        ReadText(result, OR_LEVEL, false, end);
        var body := Yield(result) + end;
        assert YieldElse(otherwise) + end == [Keyword(ELSE, elseWord)] + body;
        assert ([Keyword(ELSE, elseWord)] + body)[1..] == body;
    }
  }

  // ---- the theorem ----------------------------------------------------------

  /** `parse_expr` reads every text as its meaning, before any follower that cannot continue it. */
  lemma ParseUndoesWriting(ts: seq<Token>, e: Expr, rest: seq<Token>)
    requires Denotes(ts, e) && Follows(OR_LEVEL, rest)
    ensures ParseExpr(ts + rest) == Ok(e, rest)
  {
    hide Yield, Meaning, Fits, ParseAt;
    var t :| Yield(t) == ts && Meaning(t) == e && Fits(t, OR_LEVEL, false);
    FollowsMore(rest);
    ReadText(t, OR_LEVEL, false, rest);
  }

  /** The same tokens are never a text of two expressions. */
  lemma TextsAreUnambiguous(ts: seq<Token>, e: Expr, f: Expr)
    requires Denotes(ts, e) && Denotes(ts, f)
    ensures e == f
  {
    hide ParseExpr, Denotes;
    ParseUndoesWriting(ts, e, [Eof]);
    ParseUndoesWriting(ts, f, [Eof]);
  }
}
