/** What the recursive-descent expression parser of src/sql/parser/expr.rs computes, as
    functions from the remaining tokens to an expression and the tokens left over.  Levels are
    numbered by how tightly they bind; level 4 is the operand of a comparison. */
module Grammar {
  import opened Wrappers
  import opened Ast

  datatype ParseError =
    | UnexpectedToken(found: Token)
    | ExpectedToken(wanted: Token)
    | ExpectedKeyword(keyword: Word)
    | NotModelled

  datatype Parsed<+T> = Ok(value: T, rest: seq<Token>) | Fail(error: ParseError)

  const OR_LEVEL: nat := 0
  const AND_LEVEL: nat := 1
  const NOT_LEVEL: nat := 2
  const COMPARISON: nat := 3
  const OPERAND: nat := 4
  const BIT_OR: nat := 5
  const BIT_XOR: nat := 6
  const BIT_AND: nat := 7
  const SHIFT: nat := 8
  const ADDITIVE: nat := 9
  const MULTIPLICATIVE: nat := 10
  const UNARY: nat := 11
  const POSTFIX: nat := 12
  const PRIMARY: nat := 13

  predicate InfixLevel(level: nat) {
    level == OR_LEVEL || level == AND_LEVEL || BIT_OR <= level <= MULTIPLICATIVE
  }

  function Peek(ts: seq<Token>): Token {
    if ts == [] then Eof else ts[0]
  }

  predicate At(word: Word, ts: seq<Token>) {
    ts != [] && ts[0].Keyword? && ts[0].word == word
  }

  /** The left-associative operator a token denotes at a level, if any. */
  function InfixAt(level: nat, t: Token): Option<BinaryOperator> {
    match level
    case 0 => if t.Keyword? && t.word == OR then Some(Or) else None
    case 1 => if t.Keyword? && t.word == AND then Some(And) else None
    case 5 => if t == Pipe then Some(BitwiseOr) else None
    case 6 => if t == Caret then Some(BitwiseXor) else None
    case 7 => if t == Ampersand then Some(BitwiseAnd) else None
    case 8 => if t == LtLt then Some(BitwiseShiftLeft) else if t == GtGt then Some(BitwiseShiftRight) else None
    case 9 => if t == PlusSign then Some(Plus) else if t == MinusSign then Some(Minus) else None
    case 10 =>
      if t == Star then Some(Multiply) else if t == Slash then Some(Divide)
      else if t == Percent then Some(Modulo) else None
    case _ => None
  }

  function ComparisonAt(t: Token): Option<BinaryOperator> {
    match t
    case Eq => Some(Equals)
    case Neq => Some(NotEquals)
    case Lt => Some(LessThan)
    case Gt => Some(GreaterThan)
    case LtEq => Some(LessOrEqual)
    case GtEq => Some(GreaterOrEqual)
    case _ => None
  }

  function UnaryAt(t: Token): Option<UnaryOperator> {
    match t
    case MinusSign => Some(UnaryMinus)
    case PlusSign => Some(UnaryPlus)
    case Tilde => Some(BitwiseNot)
    case _ => None
  }

  function Name(name: string): Expr {
    Function(name, ExprArgs([]), None)
  }

  function ParseAt(level: nat, ts: seq<Token>): (r: Parsed<Expr>)
    requires level <= PRIMARY
    ensures r.Ok? ==> |r.rest| < |ts|
    decreases |ts|, 1, PRIMARY - level
  {
    if InfixLevel(level) then
      match ParseAt(level + 1, ts)
      case Fail(e) => Fail(e)
      case Ok(left, rest) => ParseTail(level, left, rest)
    else if level == NOT_LEVEL then
      if At(NOT, ts) then
        match ParseAt(COMPARISON, ts[1..])
        case Fail(e) => Fail(e)
        case Ok(x, rest) => Ok(UnaryOp(Not, x), rest)
      else
        ParseAt(COMPARISON, ts)
    else if level == COMPARISON then
      match ParseAt(OPERAND, ts)
      case Fail(e) => Fail(e)
      case Ok(left, rest) => ParseComparisonTail(left, rest)
    else if level == OPERAND then ParseAt(BIT_OR, ts)
    else if level == UNARY then
      if UnaryAt(Peek(ts)).Some? then
        match ParseAt(POSTFIX, ts[1..])
        case Fail(e) => Fail(e)
        case Ok(x, rest) => Ok(UnaryOp(UnaryAt(Peek(ts)).value, x), rest)
      else
        ParseAt(POSTFIX, ts)
    else if level == POSTFIX then
      match ParseAt(PRIMARY, ts)
      case Fail(e) => Fail(e)
      case Ok(x, rest) =>
        // a double colon starts a type cast
        if |rest| >= 2 && rest[0] == Colon && rest[1] == Colon then Fail(NotModelled)
        else ParseZones(x, rest)
    else ParsePrimary(ts)
  }

  /** The `while` loop of a left-associative level. */
  function ParseTail(level: nat, left: Expr, ts: seq<Token>): (r: Parsed<Expr>)
    requires InfixLevel(level)
    ensures r.Ok? ==> |r.rest| <= |ts|
    decreases |ts|, 0
  {
    var op := InfixAt(level, Peek(ts));
    if op.None? then Ok(left, ts)
    else
      match ParseAt(level + 1, ts[1..])
      case Fail(e) => Fail(e)
      case Ok(right, rest) => ParseTail(level, BinaryOp(left, op.value, right), rest)
  }

  predicate AtTimeZoneWords(ts: seq<Token>) {
    At(AT, ts) && At(TIME, ts[1..]) && At(ZONE, ts[2..])
  }

  /** The AT TIME ZONE loop; a partial match leaves the cursor where it was. */
  function ParseZones(left: Expr, ts: seq<Token>): (r: Parsed<Expr>)
    ensures r.Ok? ==> |r.rest| <= |ts|
    decreases |ts|, 0
  {
    if AtTimeZoneWords(ts) then
      match ParseAt(BIT_OR, ts[3..])
      case Fail(e) => Fail(e)
      case Ok(zone, rest) => ParseZones(AtTimeZone(left, zone), rest)
    else Ok(left, ts)
  }

  function ParseComparisonTail(left: Expr, ts: seq<Token>): (r: Parsed<Expr>)
    ensures r.Ok? ==> |r.rest| <= |ts|
    decreases |ts|, 0
  {
    var op := ComparisonAt(Peek(ts));
    if op.Some? then
      if At(ANY, ts[1..]) || At(SOME, ts[1..]) then
        match ParseAt(PRIMARY, ts[2..])
        case Fail(e) => Fail(e)
        case Ok(right, rest) =>
          Ok(if At(SOME, ts[1..]) then SomeComparison(left, op.value, right) else AnyComparison(left, op.value, right), rest)
      else ParseOperandOf(left, op.value, ts[1..])
    else if At(LIKE, ts) then ParseOperandOf(left, Like, ts[1..])
    else if At(ILIKE, ts) then ParseOperandOf(left, ILike, ts[1..])
    else if At(IN, ts) then ParseInList(left, ts[1..])
    else if At(BETWEEN, ts) then ParseBetween(left, ts[1..])
    else if At(IS, ts) then ParseIsNull(left, ts[1..])
    else Ok(left, ts)
  }

  function ParseOperandOf(left: Expr, op: BinaryOperator, ts: seq<Token>): (r: Parsed<Expr>)
    ensures r.Ok? ==> |r.rest| < |ts|
    decreases |ts|, 2
  {
    match ParseAt(BIT_OR, ts)
    case Fail(e) => Fail(e)
    case Ok(right, rest) => Ok(BinaryOp(left, op, right), rest)
  }

  function ParseInList(left: Expr, ts: seq<Token>): (r: Parsed<Expr>)
    ensures r.Ok? ==> |r.rest| < |ts|
    decreases |ts|, 0
  {
    if Peek(ts) != LParen then Fail(ExpectedToken(LParen))
    else if At(SELECT, ts[1..]) then Fail(NotModelled)
    else
      match ParseList(ts[1..])
      case Fail(e) => Fail(e)
      case Ok(list, rest) =>
        if Peek(rest) != RParen then Fail(ExpectedToken(RParen)) else Ok(InList(left, false, list), rest[1..])
  }

  function ParseBetween(left: Expr, ts: seq<Token>): (r: Parsed<Expr>)
    ensures r.Ok? ==> |r.rest| < |ts|
    decreases |ts|, 2
  {
    match ParseAt(BIT_OR, ts)
    case Fail(e) => Fail(e)
    case Ok(low, rest) =>
      if !At(AND, rest) then Fail(ExpectedKeyword(AND))
      else
        match ParseAt(BIT_OR, rest[1..])
        case Fail(e) => Fail(e)
        case Ok(high, rest') => Ok(Between(left, false, low, high), rest')
  }

  function ParseIsNull(left: Expr, ts: seq<Token>): (r: Parsed<Expr>)
    ensures r.Ok? ==> |r.rest| < |ts|
  {
    if At(NULL, ts) then Ok(IsNull(left), ts[1..])
    else if !At(NOT, ts) then Fail(ExpectedKeyword(NOT))
    else if !At(NULL, ts[1..]) then Fail(ExpectedKeyword(NULL))
    else Ok(IsNotNull(left), ts[2..])
  }

  /** One or more expressions separated by commas. */
  function ParseList(ts: seq<Token>): (r: Parsed<seq<Expr>>)
    ensures r.Ok? ==> |r.rest| < |ts|
    decreases |ts|, 2
  {
    match ParseAt(OR_LEVEL, ts)
    case Fail(e) => Fail(e)
    case Ok(x, rest) => if Peek(rest) == Comma then Prepend([x], ParseList(rest[1..])) else Ok([x], rest)
  }

  function Prepend<T>(first: seq<T>, r: Parsed<seq<T>>): Parsed<seq<T>> {
    match r
    case Fail(e) => Fail(e)
    case Ok(list, rest) => Ok(first + list, rest)
  }

  function ParsePrimary(ts: seq<Token>): (r: Parsed<Expr>)
    ensures r.Ok? ==> |r.rest| < |ts|
    decreases |ts|, 0
  {
    if ts == [] then Fail(UnexpectedToken(Eof))
    else
      match ts[0]
      case NumberToken(n) => Ok(Lit(Number(n)), ts[1..])
      case StringToken(s) => Ok(Lit(Text(s)), ts[1..])
      case LParen => ParseParenthesised(ts[1..])
      case LBracket => ParseArray(ts[1..])
      case Question => Fail(NotModelled)
      case Ident(s) => ParseNamed(s, ts[1..])
      case Keyword(word, written) => ParseWord(word, written, ts[1..])
      case _ => Fail(UnexpectedToken(ts[0]))
  }

  function ParseWord(word: Word, written: string, ts: seq<Token>): (r: Parsed<Expr>)
    ensures r.Ok? ==> |r.rest| <= |ts|
    decreases |ts|, 4
  {
    match word
    case TRUE => Ok(Lit(Bool(true)), ts)
    case FALSE => Ok(Lit(Bool(false)), ts)
    case NULL => Ok(Lit(Null), ts)
    case CASE => ParseCase(ts)
    case CAST => Fail(NotModelled)
    case EXTRACT => Fail(NotModelled)
    case DATE_TRUNC => Fail(NotModelled)
    case DATE_PART => Fail(NotModelled)
    case NOW => ParseNow(ts)
    case CURRENT_DATE => Ok(Name("CURRENT_DATE"), ts)
    case CURRENT_TIME => Ok(Name("CURRENT_TIME"), ts)
    case CURRENT_TIMESTAMP => Ok(Name("CURRENT_TIMESTAMP"), ts)
    case LOCALTIME => Ok(Name("LOCALTIME"), ts)
    case LOCALTIMESTAMP => Ok(Name("LOCALTIMESTAMP"), ts)
    case _ => ParseNamed(written, ts)
  }

  function ParseNow(ts: seq<Token>): (r: Parsed<Expr>)
    ensures r.Ok? ==> |r.rest| <= |ts|
  {
    if Peek(ts) != LParen then Fail(ExpectedToken(LParen))
    else if Peek(ts[1..]) != RParen then Fail(ExpectedToken(RParen))
    else Ok(Name("NOW"), ts[2..])
  }

  function ParseParenthesised(ts: seq<Token>): (r: Parsed<Expr>)
    ensures r.Ok? ==> |r.rest| < |ts|
    decreases |ts|, 2
  {
    if At(SELECT, ts) then Fail(NotModelled)
    else
      match ParseAt(OR_LEVEL, ts)
      case Fail(e) => Fail(e)
      case Ok(x, rest) => if Peek(rest) != RParen then Fail(ExpectedToken(RParen)) else Ok(x, rest[1..])
  }

  function ParseArray(ts: seq<Token>): (r: Parsed<Expr>)
    ensures r.Ok? ==> |r.rest| < |ts|
    decreases |ts|, 3
  {
    match ParseList(ts)
    case Fail(e) => Fail(e)
    case Ok(list, rest) => if Peek(rest) != RBracket then Fail(ExpectedToken(RBracket)) else Ok(Array(list), rest[1..])
  }

  /** After an identifier, or a keyword read as one. */
  function ParseNamed(name: string, ts: seq<Token>): (r: Parsed<Expr>)
    ensures r.Ok? ==> |r.rest| <= |ts|
    decreases |ts|, 3
  {
    match Peek(ts)
    case LParen => ParseCall(name, ts[1..])
    case LBracket => if EqIgnoreAsciiCase(name, "ARRAY") then ParseArray(ts[1..]) else Ok(Identifier(name), ts)
    case Dot =>
      if |ts| >= 2 && ts[1].Ident? then Ok(QualifiedIdentifier(name, ts[1].id), ts[2..])
      else if |ts| >= 2 && ts[1].Keyword? then Ok(QualifiedIdentifier(name, ts[1].written), ts[2..])
      else Fail(UnexpectedToken(Peek(ts[1..])))
    case _ => Ok(Identifier(name), ts)
  }

  function ParseArguments(ts: seq<Token>): (r: Parsed<FunctionArgs>)
    ensures r.Ok? ==> |r.rest| < |ts|
    decreases |ts|, 3
  {
    if Peek(ts) == Star then Ok(StarArg, ts[1..])
    else
      match ParseList(ts)
      case Fail(e) => Fail(e)
      case Ok(list, rest) => Ok(ExprArgs(list), rest)
  }

  /** The arguments of a call up to its closing parenthesis; DISTINCT is read and forgotten. */
  function ParseClosedArguments(ts: seq<Token>): (r: Parsed<FunctionArgs>)
    ensures r.Ok? ==> |r.rest| < |ts|
    decreases |ts|, 4
  {
    match ParseArguments(if At(DISTINCT, ts) then ts[1..] else ts)
    case Fail(e) => Fail(e)
    case Ok(arguments, rest) => if Peek(rest) != RParen then Fail(ExpectedToken(RParen)) else Ok(arguments, rest[1..])
  }

  function ParseCall(name: string, ts: seq<Token>): (r: Parsed<Expr>)
    ensures r.Ok? ==> |r.rest| < |ts|
    decreases |ts|, 5
  {
    match ParseClosedArguments(ts)
    case Fail(e) => Fail(e)
    case Ok(arguments, rest) =>
      match ParseFilter(rest)
      case Fail(e) => Fail(e)
      case Ok(filter, rest') =>
        if At(OVER, rest') then Fail(NotModelled) else Ok(Function(name, arguments, filter), rest')
  }

  function ParseFilter(ts: seq<Token>): (r: Parsed<Option<Expr>>)
    ensures r.Ok? ==> |r.rest| <= |ts|
    decreases |ts|, 0
  {
    if !At(FILTER, ts) then Ok(None, ts)
    else if Peek(ts[1..]) != LParen then Fail(ExpectedToken(LParen))
    else ParseFilterBody(ts[2..])
  }

  /** After FILTER and the parenthesis. */
  function ParseFilterBody(ts: seq<Token>): (r: Parsed<Option<Expr>>)
    ensures r.Ok? ==> |r.rest| <= |ts|
    decreases |ts|, 0
  {
    if !At(WHERE, ts) then Fail(ExpectedKeyword(WHERE))
    else
      match ParseAt(OR_LEVEL, ts[1..])
      case Fail(e) => Fail(e)
      case Ok(x, rest) => if Peek(rest) != RParen then Fail(ExpectedToken(RParen)) else Ok(Some(x), rest[1..])
  }

  /** After CASE. */
  function ParseCase(ts: seq<Token>): (r: Parsed<Expr>)
    ensures r.Ok? ==> |r.rest| < |ts|
    decreases |ts|, 3
  {
    match ParseScrutinee(ts)
    case Fail(e) => Fail(e)
    case Ok(scrutinee, rest) =>
      match ParseWhens(rest)
      case Fail(e) => Fail(e)
      case Ok(whens, rest') =>
        match ParseElse(rest')
        case Fail(e) => Fail(e)
        case Ok(otherwise, rest'') =>
          if !At(END, rest'') then Fail(ExpectedKeyword(END)) else Ok(Case(scrutinee, whens, otherwise), rest''[1..])
  }

  function ParseScrutinee(ts: seq<Token>): (r: Parsed<Option<Expr>>)
    ensures r.Ok? ==> |r.rest| <= |ts|
    decreases |ts|, 2
  {
    if At(WHEN, ts) then Ok(None, ts)
    else
      match ParseAt(OR_LEVEL, ts)
      case Fail(e) => Fail(e)
      case Ok(x, rest) => Ok(Some(x), rest)
  }

  function ParseWhens(ts: seq<Token>): (r: Parsed<seq<WhenClause>>)
    ensures r.Ok? ==> |r.rest| <= |ts|
    decreases |ts|, 2
  {
    if !At(WHEN, ts) then Ok([], ts)
    else
      match ParseWhen(ts[1..])
      case Fail(e) => Fail(e)
      case Ok(clause, rest) => Prepend([clause], ParseWhens(rest))
  }

  /** After WHEN. */
  function ParseWhen(ts: seq<Token>): (r: Parsed<WhenClause>)
    ensures r.Ok? ==> |r.rest| < |ts|
    decreases |ts|, 2
  {
    match ParseAt(OR_LEVEL, ts)
    case Fail(e) => Fail(e)
    case Ok(cond, rest) =>
      if !At(THEN, rest) then Fail(ExpectedKeyword(THEN))
      else
        match ParseAt(OR_LEVEL, rest[1..])
        case Fail(e) => Fail(e)
        case Ok(result, rest') => Ok(WhenClause(cond, result), rest')
  }

  function ParseElse(ts: seq<Token>): (r: Parsed<Option<Expr>>)
    ensures r.Ok? ==> |r.rest| <= |ts|
    decreases |ts|, 0
  {
    if !At(ELSE, ts) then Ok(None, ts)
    else
      match ParseAt(OR_LEVEL, ts[1..])
      case Fail(e) => Fail(e)
      case Ok(x, rest) => Ok(Some(x), rest)
  }

  /** `parse_expr`. */
  function ParseExpr(ts: seq<Token>): Parsed<Expr> {
    ParseAt(OR_LEVEL, ts)
  }
}
