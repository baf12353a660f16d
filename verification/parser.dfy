/** The parser object of src/sql/parser.rs and src/sql/parser/expr.rs: a token list and a
    cursor that the methods move, each method proved to compute its grammar function. */
module Parsers {
  import opened Wrappers
  import opened Ast
  import opened Grammar
  import opened Printer
  import opened RoundTrips
  import opened Texts
  import opened ParserImage

  datatype Result<+T> = Success(value: T) | Failure(error: ParseError)

  class Parser {
    const tokens: seq<Token>
    var pos: nat

    constructor (tokens: seq<Token>)
      ensures this.tokens == tokens && pos == 0
    {
      this.tokens := tokens;
      pos := 0;
    }

    ghost predicate Valid()
      reads this
    {
      pos <= |tokens|
    }

    ghost function Rest(): seq<Token>
      reads this
      requires Valid()
    {
      tokens[pos..]
    }

    /** The method returned what the grammar function says, with the cursor where it says. */
    ghost predicate Agrees<T(!new)>(r: Result<T>, spec: Parsed<T>)
      reads this
      requires Valid()
    {
      match spec
      case Ok(x, rest) => r == Success(x) && Rest() == rest
      case Fail(e) => r == Failure(e)
    }

    method PeekToken() returns (t: Token)
      requires Valid()
      ensures t == Peek(Rest())
    {
      t := if pos < |tokens| then tokens[pos] else Eof;
    }

    method AtWord(w: Word) returns (b: bool)
      requires Valid()
      ensures b == At(w, Rest())
    {
      b := pos < |tokens| && tokens[pos].Keyword? && tokens[pos].word == w;
    }

    method Advance() returns (t: Token)
      requires Valid()
      modifies this`pos
      ensures Valid() && t == old(Peek(Rest()))
      ensures Rest() == if old(Rest()) == [] then [] else old(Rest())[1..]
      ensures old(Rest()) != [] ==> pos == old(pos) + 1
      ensures pos >= old(pos)
    {
      t := if pos < |tokens| then tokens[pos] else Eof;
      if pos < |tokens| {
        pos := pos + 1;
      }
    }

    method Expect(expected: Token) returns (r: Result<()>)
      requires Valid()
      modifies this`pos
      ensures Valid() && pos >= old(pos)
      ensures r.Success? <==> old(Peek(Rest())) == expected
      ensures old(Rest()) != [] ==> Rest() == old(Rest())[1..] && pos == old(pos) + 1
      ensures old(Rest()) == [] ==> Rest() == []
      ensures r.Failure? ==> r.error == ExpectedToken(expected)
    {
      var t := Advance();
      r := if t == expected then Success(()) else Failure(ExpectedToken(expected));
    }

    method ExpectKeyword(w: Word) returns (r: Result<()>)
      requires Valid()
      modifies this`pos
      ensures Valid() && pos >= old(pos)
      ensures r.Success? <==> old(At(w, Rest()))
      ensures r.Success? ==> Rest() == old(Rest())[1..] && pos == old(pos) + 1
      ensures r.Failure? ==> r.error == ExpectedKeyword(w)
    {
      var t := Advance();
      r := if t.Keyword? && t.word == w then Success(()) else Failure(ExpectedKeyword(w));
    }

    // ---- precedence levels --------------------------------------------------

    method ParseExpression() returns (r: Result<Expr>)
      requires Valid()
      modifies this`pos
      ensures Valid() && pos >= old(pos)
      ensures Agrees(r, ParseExpr(old(Rest())))
      decreases |tokens| - pos, 1, PRIMARY + 1
    {
      r := ParseInfix(OR_LEVEL);
    }

    /** One left-associative level: OR, AND, the bitwise levels, shifts, sums and products.
        The source spells the same loop out once per level. */
    method ParseInfix(level: nat) returns (r: Result<Expr>)
      requires Valid() && InfixLevel(level)
      modifies this`pos
      ensures Valid() && pos >= old(pos)
      ensures Agrees(r, ParseAt(level, old(Rest())))
      decreases |tokens| - pos, 1, PRIMARY - level
    {
      hide ParseAt, ParseTail, InfixAt;
      ghost var start, spec := pos, ParseAt(level, Rest());
      InfixUnfolds(level, Rest());
      r := ParseAbove(level);
      if r.Failure? {
        return;
      }
      var left := r.value;
      var t := PeekToken();
      assert pos > start;
      while InfixAt(level, t).Some?
        invariant Valid() && pos > start
        invariant t == Peek(Rest())
        invariant spec == ParseTail(level, left, Rest())
        decreases |tokens| - pos
      {
        TailUnfolds(level, left, Rest());
        NoOperatorAtEnd(level);
        var _ := Advance();
        r := ParseAbove(level);
        if r.Failure? {
          return;
        }
        left := BinaryOp(left, InfixAt(level, t).value, r.value);
        t := PeekToken();
      }
      TailUnfolds(level, left, Rest());
      r := Success(left);
    }

    /** The next level up from a left-associative one. */
    method ParseAbove(level: nat) returns (r: Result<Expr>)
      requires Valid() && InfixLevel(level)
      modifies this`pos
      ensures Valid() && pos >= old(pos)
      ensures Agrees(r, ParseAt(level + 1, old(Rest())))
      ensures r.Success? ==> pos > old(pos)
      decreases |tokens| - pos, 1, PRIMARY - level, 0
    {
      ghost var before := Rest();
      if level == AND_LEVEL {
        r := ParseNot();
      } else if level == MULTIPLICATIVE {
        r := ParseUnary();
      } else {
        r := ParseInfix(level + 1);
      }
      assert r.Success? ==> |Rest()| < |before|;
    }

    method ParseNot() returns (r: Result<Expr>)
      requires Valid()
      modifies this`pos
      ensures Valid() && pos >= old(pos)
      ensures Agrees(r, ParseAt(NOT_LEVEL, old(Rest())))
      decreases |tokens| - pos, 1, PRIMARY - NOT_LEVEL
    {
      var negated := AtWord(NOT);
      if negated {
        var _ := Advance();
        r := ParseComparison();
        if r.Success? {
          r := Success(UnaryOp(Not, r.value));
        }
      } else {
        r := ParseComparison();
      }
    }

    method ParseComparison() returns (r: Result<Expr>)
      requires Valid()
      modifies this`pos
      ensures Valid() && pos >= old(pos)
      ensures Agrees(r, ParseAt(COMPARISON, old(Rest())))
      decreases |tokens| - pos, 1, PRIMARY - COMPARISON
    {
      hide ParseComparisonTail;
      r := ParseOperand();
      if r.Success? {
        r := ParseComparisonRest(r.value);
      }
    }

    /** `parse_bitwise_or`, which is how the source reads every comparison operand. */
    method ParseOperand() returns (r: Result<Expr>)
      requires Valid()
      modifies this`pos
      ensures Valid() && pos >= old(pos)
      ensures Agrees(r, ParseAt(OPERAND, old(Rest()))) && Agrees(r, ParseAt(BIT_OR, old(Rest())))
      ensures r.Success? ==> pos > old(pos)
      decreases |tokens| - pos, 1, PRIMARY - OPERAND
    {
      ghost var before := Rest();
      r := ParseInfix(BIT_OR);
      assert r.Success? ==> |Rest()| < |before|;
    }

    method ParseComparisonRest(left: Expr) returns (r: Result<Expr>)
      requires Valid()
      modifies this`pos
      ensures Valid() && pos >= old(pos)
      ensures Agrees(r, ParseComparisonTail(left, old(Rest())))
      decreases |tokens| - pos, 0
    {
      hide ParseAt;
      ghost var before := Rest();
      var t := PeekToken();
      var op := ComparisonAt(t);
      if op.Some? {
        var _ := Advance();
        r := ParseComparisonOperand(left, op.value);
        return;
      }
      var like := AtWord(LIKE);
      var ilike := AtWord(ILIKE);
      if like || ilike {
        var _ := Advance();
        r := ParseRightOperand(left, if like then Like else ILike);
        return;
      }
      var isIn := AtWord(IN);
      var between := AtWord(BETWEEN);
      var isWord := AtWord(IS);
      if isIn {
        var _ := Advance();
        r := ParseInRest(left);
      } else if between {
        var _ := Advance();
        r := ParseBetweenRest(left);
      } else if isWord {
        var _ := Advance();
        r := ParseIsRest(left);
      } else {
        r := Success(left);
      }
    }

    /** After one of the six comparison operators. */
    method ParseComparisonOperand(left: Expr, op: BinaryOperator) returns (r: Result<Expr>)
      requires Valid()
      modifies this`pos
      ensures Valid() && pos >= old(pos)
      ensures var ts := old(Rest());
        if At(ANY, ts) || At(SOME, ts) then
          Agrees(r, match ParseAt(PRIMARY, ts[1..])
                    case Fail(e) => Fail(e)
                    case Ok(right, rest) =>
                      Ok(if At(SOME, ts) then SomeComparison(left, op, right) else AnyComparison(left, op, right), rest))
        else Agrees(r, ParseOperandOf(left, op, ts))
      decreases |tokens| - pos, 3
    {
      hide ParseAt;
      var isAny := AtWord(ANY);
      var isSome := AtWord(SOME);
      if isAny || isSome {
        var _ := Advance();
        r := ParsePrimaryExpr();
        if r.Success? {
          r := Success(if isSome then SomeComparison(left, op, r.value) else AnyComparison(left, op, r.value));
        }
      } else {
        r := ParseRightOperand(left, op);
      }
    }

    method ParseRightOperand(left: Expr, op: BinaryOperator) returns (r: Result<Expr>)
      requires Valid()
      modifies this`pos
      ensures Valid() && pos >= old(pos)
      ensures Agrees(r, ParseOperandOf(left, op, old(Rest())))
      decreases |tokens| - pos, 2
    {
      hide ParseAt;
      r := ParseOperand();
      if r.Success? {
        r := Success(BinaryOp(left, op, r.value));
      }
    }

    method ParseInRest(left: Expr) returns (r: Result<Expr>)
      requires Valid()
      modifies this`pos
      ensures Valid() && pos >= old(pos)
      ensures Agrees(r, ParseInList(left, old(Rest())))
      decreases |tokens| - pos, 0
    {
      hide ParseAt, ParseList;
      var t := PeekToken();
      if t != LParen {
        return Failure(ExpectedToken(LParen));
      }
      var _ := Advance();
      var select := AtWord(SELECT);
      if select {
        return Failure(NotModelled);
      }
      var list := ParseCommaList();
      if list.Failure? {
        return Failure(list.error);
      }
      var closed := Expect(RParen);
      r := if closed.Failure? then Failure(closed.error) else Success(InList(left, false, list.value));
    }

    method ParseBetweenRest(left: Expr) returns (r: Result<Expr>)
      requires Valid()
      modifies this`pos
      ensures Valid() && pos >= old(pos)
      ensures Agrees(r, ParseBetween(left, old(Rest())))
      decreases |tokens| - pos, 2
    {
      hide ParseAt;
      var low := ParseOperand();
      if low.Failure? {
        return low;
      }
      var conjunction := ExpectKeyword(AND);
      if conjunction.Failure? {
        return Failure(conjunction.error);
      }
      r := ParseOperand();
      if r.Success? {
        r := Success(Between(left, false, low.value, r.value));
      }
    }

    method ParseIsRest(left: Expr) returns (r: Result<Expr>)
      requires Valid()
      modifies this`pos
      ensures Valid() && pos >= old(pos)
      ensures Agrees(r, ParseIsNull(left, old(Rest())))
    {
      var isNull := AtWord(NULL);
      if isNull {
        var _ := Advance();
        return Success(IsNull(left));
      }
      var negation := ExpectKeyword(NOT);
      if negation.Failure? {
        return Failure(negation.error);
      }
      var last := ExpectKeyword(NULL);
      r := if last.Failure? then Failure(last.error) else Success(IsNotNull(left));
    }

    method ParseUnary() returns (r: Result<Expr>)
      requires Valid()
      modifies this`pos
      ensures Valid() && pos >= old(pos)
      ensures Agrees(r, ParseAt(UNARY, old(Rest())))
      decreases |tokens| - pos, 1, PRIMARY - UNARY
    {
      hide ParseZones, ParsePrimary;
      var t := PeekToken();
      var op := UnaryAt(t);
      if op.Some? {
        var _ := Advance();
        r := ParsePostfix();
        if r.Success? {
          r := Success(UnaryOp(op.value, r.value));
        }
      } else {
        r := ParsePostfix();
      }
    }

    method ParsePostfix() returns (r: Result<Expr>)
      requires Valid()
      modifies this`pos
      ensures Valid() && pos >= old(pos)
      ensures Agrees(r, ParseAt(POSTFIX, old(Rest())))
      decreases |tokens| - pos, 1, PRIMARY - POSTFIX
    {
      hide ParseZones, ParsePrimary;
      r := ParsePrimaryExpr();
      if r.Failure? {
        return;
      }
      var t := PeekToken();
      if t == Colon {
        var saved := pos;
        var _ := Advance();
        t := PeekToken();
        if t == Colon {
          return Failure(NotModelled);
        }
        pos := saved;
      }
      r := ParseZoneLoop(r.value);
    }

    /** The head of the loop: the three words, or the cursor put back where it was. */
    method AdvanceOverZoneWords() returns (found: bool)
      requires Valid()
      modifies this`pos
      ensures Valid() && found == AtTimeZoneWords(old(Rest()))
      ensures found ==> Rest() == old(Rest())[3..] && pos > old(pos)
      ensures !found ==> pos == old(pos)
    {
      var saved := pos;
      found := AtWord(AT);
      if !found {
        return;
      }
      var _ := Advance();
      found := AtWord(TIME);
      if !found {
        pos := saved;
        return;
      }
      var _ := Advance();
      found := AtWord(ZONE);
      if !found {
        pos := saved;
        return;
      }
      var _ := Advance();
    }

    method ParseZoneLoop(first: Expr) returns (r: Result<Expr>)
      requires Valid()
      modifies this`pos
      ensures Valid() && pos >= old(pos)
      ensures Agrees(r, ParseZones(first, old(Rest())))
      decreases |tokens| - pos, 0
    {
      hide ParseAt, AtTimeZoneWords;
      ghost var start, spec := pos, ParseZones(first, Rest());
      var left := first;
      while true
        invariant Valid() && pos >= start
        invariant spec == ParseZones(left, Rest())
        decreases |tokens| - pos
      {
        var found := AdvanceOverZoneWords();
        if !found {
          break;
        }
        var zone := ParseOperand();
        if zone.Failure? {
          return zone;
        }
        left := AtTimeZone(left, zone.value);
      }
      r := Success(left);
    }

    // ---- primaries ----------------------------------------------------------

    method ParsePrimaryExpr() returns (r: Result<Expr>)
      requires Valid()
      modifies this`pos
      ensures Valid() && pos >= old(pos)
      ensures Agrees(r, ParseAt(PRIMARY, old(Rest()))) && Agrees(r, ParsePrimary(old(Rest())))
      ensures r.Success? ==> pos > old(pos)
      decreases |tokens| - pos, 1, 0
    {
      hide ParseZones, ParseWord, ParseNamed, ParseParenthesised, ParseArray, ParseComparisonTail, ParseTail;
      ghost var before := Rest();
      var t := PeekToken();
      match t {
        case NumberToken(n) =>
          var _ := Advance();
          r := Success(Lit(Number(n)));
        case StringToken(s) =>
          var _ := Advance();
          r := Success(Lit(Text(s)));
        case LParen =>
          var _ := Advance();
          r := ParseParenthesisRest();
        case LBracket =>
          var _ := Advance();
          r := ParseArrayRest();
        case Question =>
          r := Failure(NotModelled);
        case Ident(s) =>
          var _ := Advance();
          r := ParseNamedRest(s);
        case Keyword(word, written) =>
          var _ := Advance();
          r := ParseWordRest(word, written);
        case _ =>
          r := Failure(UnexpectedToken(t));
      }
      assert r.Success? ==> |Rest()| < |before|;
    }

    method ParseParenthesisRest() returns (r: Result<Expr>)
      requires Valid()
      modifies this`pos
      ensures Valid() && pos >= old(pos)
      ensures Agrees(r, ParseParenthesised(old(Rest())))
      decreases |tokens| - pos, 2
    {
      hide ParseAt;
      var select := AtWord(SELECT);
      if select {
        return Failure(NotModelled);
      }
      r := ParseExpression();
      if r.Failure? {
        return;
      }
      var closed := Expect(RParen);
      if closed.Failure? {
        r := Failure(closed.error);
      }
    }

    method ParseArrayRest() returns (r: Result<Expr>)
      requires Valid()
      modifies this`pos
      ensures Valid() && pos >= old(pos)
      ensures Agrees(r, ParseArray(old(Rest())))
      decreases |tokens| - pos, 3
    {
      hide ParseAt, ParseList;
      var list := ParseCommaList();
      if list.Failure? {
        return Failure(list.error);
      }
      var closed := Expect(RBracket);
      r := if closed.Failure? then Failure(closed.error) else Success(Array(list.value));
    }

    /** One or more expressions separated by commas. */
    method ParseCommaList() returns (r: Result<seq<Expr>>)
      requires Valid()
      modifies this`pos
      ensures Valid() && pos >= old(pos)
      ensures Agrees(r, ParseList(old(Rest())))
      ensures r.Success? ==> pos > old(pos)
      decreases |tokens| - pos, 2
    {
      hide ParseAt;
      ghost var start, spec := pos, ParseList(Rest());
      var list: seq<Expr> := [];
      var more := true;
      PrependNothing(spec);
      while more
        invariant Valid() && pos >= start
        invariant more ==> spec == Prepend(list, ParseList(Rest()))
        invariant more ==> (pos == start || pos > start)
        invariant !more ==> spec == Ok(list, Rest()) && pos > start
        decreases more, |tokens| - pos
      {
        ghost var before := Rest();
        var x := ParseExpression();
        if x.Failure? {
          return Failure(x.error);
        }
        assert |Rest()| < |before|;
        var t := PeekToken();
        if t == Comma {
          PrependTwice(list, x.value, ParseList(Rest()[1..]));
          var _ := Advance();
        } else {
          more := false;
        }
        list := list + [x.value];
      }
      r := Success(list);
    }

    method ParseWordRest(word: Word, written: string) returns (r: Result<Expr>)
      requires Valid()
      modifies this`pos
      ensures Valid() && pos >= old(pos)
      ensures Agrees(r, ParseWord(word, written, old(Rest())))
      decreases |tokens| - pos, 4
    {
      hide ParseAt, ParseNamed, ParseCase, ParseNow;
      match word {
        case TRUE => r := Success(Lit(Bool(true)));
        case FALSE => r := Success(Lit(Bool(false)));
        case NULL => r := Success(Lit(Null));
        case CASE => r := ParseCaseRest();
        case CAST => r := Failure(NotModelled);
        case EXTRACT => r := Failure(NotModelled);
        case DATE_TRUNC => r := Failure(NotModelled);
        case DATE_PART => r := Failure(NotModelled);
        case NOW => r := ParseNowRest();
        case CURRENT_DATE => r := Success(Name("CURRENT_DATE"));
        case CURRENT_TIME => r := Success(Name("CURRENT_TIME"));
        case CURRENT_TIMESTAMP => r := Success(Name("CURRENT_TIMESTAMP"));
        case LOCALTIME => r := Success(Name("LOCALTIME"));
        case LOCALTIMESTAMP => r := Success(Name("LOCALTIMESTAMP"));
        case _ => r := ParseNamedRest(written);
      }
    }

    method ParseNowRest() returns (r: Result<Expr>)
      requires Valid()
      modifies this`pos
      ensures Valid() && pos >= old(pos)
      ensures Agrees(r, ParseNow(old(Rest())))
    {
      var open := Expect(LParen);
      if open.Failure? {
        return Failure(open.error);
      }
      var closed := Expect(RParen);
      r := if closed.Failure? then Failure(closed.error) else Success(Name("NOW"));
    }

    method ParseNamedRest(name: string) returns (r: Result<Expr>)
      requires Valid()
      modifies this`pos
      ensures Valid() && pos >= old(pos)
      ensures Agrees(r, ParseNamed(name, old(Rest())))
      decreases |tokens| - pos, 3
    {
      hide ParseAt, ParseCall, ParseArray;
      var t := PeekToken();
      if t == LParen {
        var _ := Advance();
        r := ParseCallRest(name);
      } else if t == LBracket && EqIgnoreAsciiCase(name, "ARRAY") {
        var _ := Advance();
        r := ParseArrayRest();
      } else if t == Dot {
        var _ := Advance();
        var column := Advance();
        match column {
          case Ident(id) => r := Success(QualifiedIdentifier(name, id));
          case Keyword(_, written) => r := Success(QualifiedIdentifier(name, written));
          case _ => r := Failure(UnexpectedToken(column));
        }
      } else {
        r := Success(Identifier(name));
      }
    }

    method ParseArgumentList() returns (r: Result<FunctionArgs>)
      requires Valid()
      modifies this`pos
      ensures Valid() && pos >= old(pos)
      ensures Agrees(r, ParseArguments(old(Rest())))
      decreases |tokens| - pos, 3
    {
      hide ParseAt, ParseList;
      var t := PeekToken();
      if t == Star {
        var _ := Advance();
        return Success(StarArg);
      }
      var list := ParseCommaList();
      r := if list.Failure? then Failure(list.error) else Success(ExprArgs(list.value));
    }

    method ParseFilterClause() returns (r: Result<Option<Expr>>)
      requires Valid()
      modifies this`pos
      ensures Valid() && pos >= old(pos)
      ensures Agrees(r, ParseFilter(old(Rest())))
      decreases |tokens| - pos, 0
    {
      hide ParseAt, ParseFilterBody;
      ghost var before := Rest();
      var filtered := AtWord(FILTER);
      if !filtered {
        return Success(None);
      }
      var _ := Advance();
      var open := Expect(LParen);
      if open.Failure? {
        return Failure(open.error);
      }
      assert Rest() == before[2..];
      r := ParseFilterRest();
    }

    /** After FILTER and the parenthesis. */
    method ParseFilterRest() returns (r: Result<Option<Expr>>)
      requires Valid()
      modifies this`pos
      ensures Valid() && pos >= old(pos)
      ensures Agrees(r, ParseFilterBody(old(Rest())))
      decreases |tokens| - pos, 0
    {
      hide ParseAt;
      var keyword := ExpectKeyword(WHERE);
      if keyword.Failure? {
        return Failure(keyword.error);
      }
      var x := ParseExpression();
      if x.Failure? {
        return Failure(x.error);
      }
      var closed := Expect(RParen);
      r := if closed.Failure? then Failure(closed.error) else Success(Some(x.value));
    }

    method ParseArgumentsRest() returns (r: Result<FunctionArgs>)
      requires Valid()
      modifies this`pos
      ensures Valid() && pos >= old(pos)
      ensures Agrees(r, ParseClosedArguments(old(Rest())))
      decreases |tokens| - pos, 4
    {
      hide ParseAt, ParseArguments;
      var distinct := AtWord(DISTINCT);
      if distinct {
        var _ := Advance();
      }
      var arguments := ParseArgumentList();
      if arguments.Failure? {
        return Failure(arguments.error);
      }
      var closed := Expect(RParen);
      r := if closed.Failure? then Failure(closed.error) else Success(arguments.value);
    }

    method ParseCallRest(name: string) returns (r: Result<Expr>)
      requires Valid()
      modifies this`pos
      ensures Valid() && pos >= old(pos)
      ensures Agrees(r, ParseCall(name, old(Rest())))
      decreases |tokens| - pos, 5
    {
      hide ParseAt, ParseClosedArguments, ParseFilter;
      var arguments := ParseArgumentsRest();
      if arguments.Failure? {
        return Failure(arguments.error);
      }
      var filter := ParseFilterClause();
      if filter.Failure? {
        return Failure(filter.error);
      }
      var over := AtWord(OVER);
      r := if over then Failure(NotModelled) else Success(Function(name, arguments.value, filter.value));
    }

    // ---- CASE ---------------------------------------------------------------

    method ParseCaseRest() returns (r: Result<Expr>)
      requires Valid()
      modifies this`pos
      ensures Valid() && pos >= old(pos)
      ensures Agrees(r, ParseCase(old(Rest())))
      decreases |tokens| - pos, 3
    {
      hide ParseAt, ParseWhens, ParseElse;
      var scrutinee: Option<Expr> := None;
      var when := AtWord(WHEN);
      if !when {
        var x := ParseExpression();
        if x.Failure? {
          return Failure(x.error);
        }
        scrutinee := Some(x.value);
      }
      var whens := ParseWhenLoop();
      if whens.Failure? {
        return Failure(whens.error);
      }
      var otherwise := ParseElseClause();
      if otherwise.Failure? {
        return Failure(otherwise.error);
      }
      var end := ExpectKeyword(END);
      r := if end.Failure? then Failure(end.error) else Success(Case(scrutinee, whens.value, otherwise.value));
    }

    method ParseWhenLoop() returns (r: Result<seq<WhenClause>>)
      requires Valid()
      modifies this`pos
      ensures Valid() && pos >= old(pos)
      ensures Agrees(r, ParseWhens(old(Rest())))
      decreases |tokens| - pos, 2
    {
      hide ParseAt, ParseWhen;
      ghost var start, spec := pos, ParseWhens(Rest());
      var whens: seq<WhenClause> := [];
      PrependNothing(spec);
      var when := AtWord(WHEN);
      while when
        invariant Valid() && pos >= start
        invariant when == At(WHEN, Rest())
        invariant spec == Prepend(whens, ParseWhens(Rest()))
        decreases |tokens| - pos
      {
        var _ := Advance();
        var clause := ParseWhenClause();
        if clause.Failure? {
          return Failure(clause.error);
        }
        PrependTwice(whens, clause.value, ParseWhens(Rest()));
        whens := whens + [clause.value];
        when := AtWord(WHEN);
      }
      assert whens + [] == whens;
      r := Success(whens);
    }

    method ParseWhenClause() returns (r: Result<WhenClause>)
      requires Valid()
      modifies this`pos
      ensures Valid() && pos >= old(pos)
      ensures Agrees(r, ParseWhen(old(Rest())))
      decreases |tokens| - pos, 2
    {
      hide ParseAt;
      var cond := ParseExpression();
      if cond.Failure? {
        return Failure(cond.error);
      }
      var keyword := ExpectKeyword(THEN);
      if keyword.Failure? {
        return Failure(keyword.error);
      }
      var result := ParseExpression();
      r := if result.Failure? then Failure(result.error) else Success(WhenClause(cond.value, result.value));
    }

    method ParseElseClause() returns (r: Result<Option<Expr>>)
      requires Valid()
      modifies this`pos
      ensures Valid() && pos >= old(pos)
      ensures Agrees(r, ParseElse(old(Rest())))
      decreases |tokens| - pos, 0
    {
      hide ParseAt;
      var otherwise := AtWord(ELSE);
      if !otherwise {
        return Success(None);
      }
      var _ := Advance();
      var x := ParseExpression();
      r := if x.Failure? then Failure(x.error) else Success(Some(x.value));
    }
  }

  lemma InfixUnfolds(level: nat, ts: seq<Token>)
    requires InfixLevel(level)
    ensures ParseAt(level, ts) == match ParseAt(level + 1, ts)
                                  case Fail(e) => Fail(e)
                                  case Ok(left, rest) => ParseTail(level, left, rest)
  {
    hide ParseTail, ParseZones, ParsePrimary, ParseComparisonTail;
  }

  lemma TailUnfolds(level: nat, left: Expr, ts: seq<Token>)
    requires InfixLevel(level)
    ensures ParseTail(level, left, ts) ==
      var op := InfixAt(level, Peek(ts));
      if op.None? then Ok(left, ts)
      else
        match ParseAt(level + 1, ts[1..])
        case Fail(e) => Fail(e)
        case Ok(right, rest) => ParseTail(level, BinaryOp(left, op.value, right), rest)
  {
    hide ParseAt, InfixAt;
  }

  lemma NoOperatorAtEnd(level: nat)
    ensures InfixAt(level, Eof).None?
  {}

  lemma PrependNothing<T>(r: Parsed<seq<T>>)
    ensures Prepend([], r) == r
  {
    if r.Ok? {
      assert [] + r.value == r.value;
    }
  }

  lemma PrependTwice<T>(list: seq<T>, x: T, r: Parsed<seq<T>>)
    ensures Prepend(list, Prepend([x], r)) == Prepend(list + [x], r)
  {
    if r.Ok? {
      assert list + ([x] + r.value) == (list + [x]) + r.value;
    }
  }

  /** Printing an expression and running the parser on it gives it back,
      with the cursor on the token that follows. */
  method ParsePrinted(e: Expr, follower: seq<Token>) returns (parsed: Result<Expr>, left: nat)
    requires Printable(e) && Follows(OR_LEVEL, follower)
    ensures parsed == Success(e) && left == |follower|
  {
    var parser := new Parser(Print(e, OR_LEVEL) + follower);
    ParseUndoesPrint(e, follower);
    assert parser.Rest() == Print(e, OR_LEVEL) + follower;
    parsed := parser.ParseExpression();
    left := |parser.tokens| - parser.pos;
    assert left == |parser.Rest()|;
  }

  /** Running the parser on a whole input: it succeeds and leaves nothing but the end mark exactly if the
      input is a text of some expression, which is then the one returned. */
  method ParseWhole(ts: seq<Token>) returns (parsed: Result<Expr>, left: nat)
    ensures forall e :: parsed == Success(e) && left == 1 <==> Denotes(ts, e)
  {
    hide Denotes, ParseExpr;
    var parser := new Parser(ts + [Eof]);
    assert parser.Rest() == ts + [Eof];
    parsed := parser.ParseExpression();
    left := |parser.tokens| - parser.pos;
    assert parser.pos == |ts| ==> parser.Rest() == [Eof];
    assert left == |parser.Rest()|;
    forall e
      ensures parsed == Success(e) && left == 1 <==> Denotes(ts, e)
    {
      AcceptedIff(ts, e);
    }
  }
}
