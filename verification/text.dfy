/** The texts of expressions (src/sql/parser/expr.rs): every way the grammar lets one be written down, the
    tokens it consists of and the expression it stands for.  Written without the parser, it says what the
    parser ought to read. */
module Texts {
  import opened Wrappers
  import opened Ast
  import opened Grammar

  /** Keywords may be written in upper or lower case, so a text keeps them as written.  Keywords with no
      meaning of their own may be used as names. */
  datatype Text =
    | Atom(token: Token)
    | Dotted(table: Token, column: Token)
    | NowText(now: string)
    | Parens(inner: Text)
    | Brackets(items: seq<Text>)
    | ArrayText(name: Token, items: seq<Text>)
    | CallText(name: Token, distinct: Option<string>, arguments: ArgumentsText, filter: FilterText)
    | CaseText(caseWord: string, scrutinee: Option<Text>, whens: seq<WhenText>, otherwise: ElseText, endWord: string)
    | PrefixText(unary: UnaryOperator, notWord: string, operand: Text)
    | InfixText(left: Text, op: BinaryOperator, written: string, right: Text)
    | QuantifiedText(left: Text, op: BinaryOperator, some: bool, written: string, right: Text)
    | NullText(operand: Text, isWord: string, not: Option<string>, nullWord: string)
    | InText(left: Text, inWord: string, items: seq<Text>)
    | BetweenText(operand: Text, betweenWord: string, low: Text, andWord: string, high: Text)
    | ZoneText(operand: Text, atWord: string, timeWord: string, zoneWord: string, zone: Text)

  datatype ArgumentsText = StarText | ListText(items: seq<Text>)

  datatype FilterText = NoFilter | FilterText(filterWord: string, whereWord: string, cond: Text)

  datatype WhenText = WhenText(whenWord: string, cond: Text, thenWord: string, result: Text)

  datatype ElseText = NoElse | ElseText(elseWord: string, result: Text)

  // ---- operators and names ----------------------------------------------------

  function OperatorLevel(op: BinaryOperator): nat {
    match op
    case Or => OR_LEVEL
    case And => AND_LEVEL
    case BitwiseOr => BIT_OR
    case BitwiseXor => BIT_XOR
    case BitwiseAnd => BIT_AND
    case BitwiseShiftLeft => SHIFT
    case BitwiseShiftRight => SHIFT
    case Plus => ADDITIVE
    case Minus => ADDITIVE
    case Multiply => MULTIPLICATIVE
    case Divide => MULTIPLICATIVE
    case Modulo => MULTIPLICATIVE
    case _ => COMPARISON
  }

  function OperatorToken(op: BinaryOperator, written: string): Token {
    match op
    case Or => Keyword(OR, written)
    case And => Keyword(AND, written)
    case BitwiseOr => Pipe
    case BitwiseXor => Caret
    case BitwiseAnd => Ampersand
    case BitwiseShiftLeft => LtLt
    case BitwiseShiftRight => GtGt
    case Plus => PlusSign
    case Minus => MinusSign
    case Multiply => Star
    case Divide => Slash
    case Modulo => Percent
    case Equals => Eq
    case NotEquals => Neq
    case LessThan => Lt
    case GreaterThan => Gt
    case LessOrEqual => LtEq
    case GreaterOrEqual => GtEq
    case Like => Keyword(LIKE, written)
    case ILike => Keyword(ILIKE, written)
    case _ => Bang
  }

  function UnaryToken(op: UnaryOperator, written: string): Token {
    match op
    case Not => Keyword(NOT, written)
    case UnaryMinus => MinusSign
    case UnaryPlus => PlusSign
    case BitwiseNot => Tilde
  }

  predicate Infix(op: BinaryOperator) {
    InfixLevel(OperatorLevel(op))
  }

  predicate Comparison(op: BinaryOperator) {
    op == Equals || op == NotEquals || op == LessThan || op == GreaterThan || op == LessOrEqual || op == GreaterOrEqual
  }

  /** The keywords that stand for a call without arguments; NOW takes parentheses. */
  predicate IsTimeWord(w: Word) {
    w == NOW || w == CURRENT_DATE || w == CURRENT_TIME || w == CURRENT_TIMESTAMP || w == LOCALTIME || w == LOCALTIMESTAMP
  }

  /** The keywords an expression gives a meaning to, so that they cannot be names. */
  predicate Special(w: Word) {
    || IsTimeWord(w) || w == TRUE || w == FALSE || w == NULL || w == CASE
    || w == CAST || w == EXTRACT || w == DATE_TRUNC || w == DATE_PART
  }

  predicate IsName(t: Token) {
    t.Ident? || (t.Keyword? && !Special(t.word))
  }

  function NameOf(t: Token): string {
    match t
    case Ident(id) => id
    case Keyword(_, written) => written
    case _ => ""
  }

  predicate IsAtom(t: Token) {
    || t.NumberToken? || t.StringToken? || IsName(t)
    || (t.Keyword? && (t.word == TRUE || t.word == FALSE || t.word == NULL || (IsTimeWord(t.word) && t.word != NOW)))
  }

  function AtomMeaning(t: Token): Expr {
    match t
    case NumberToken(digits) => Lit(Number(digits))
    case StringToken(chars) => Lit(Text(chars))
    case Keyword(TRUE, _) => Lit(Bool(true))
    case Keyword(FALSE, _) => Lit(Bool(false))
    case Keyword(NULL, _) => Lit(Null)
    case Keyword(CURRENT_DATE, _) => Function("CURRENT_DATE", ExprArgs([]), None)
    case Keyword(CURRENT_TIME, _) => Function("CURRENT_TIME", ExprArgs([]), None)
    case Keyword(CURRENT_TIMESTAMP, _) => Function("CURRENT_TIMESTAMP", ExprArgs([]), None)
    case Keyword(LOCALTIME, _) => Function("LOCALTIME", ExprArgs([]), None)
    case Keyword(LOCALTIMESTAMP, _) => Function("LOCALTIMESTAMP", ExprArgs([]), None)
    case _ => Identifier(NameOf(t))
  }

  // ---- the tokens of a text -----------------------------------------------------

  function Yield(t: Text): seq<Token> {
    match t
    case Atom(token) => [token]
    case Dotted(table, column) => [table, Dot, column]
    case NowText(now) => [Keyword(NOW, now), LParen, RParen]
    case Parens(inner) => [LParen] + Yield(inner) + [RParen]
    case Brackets(items) => [LBracket] + YieldList(items) + [RBracket]
    case ArrayText(name, items) => [name, LBracket] + YieldList(items) + [RBracket]
    case CallText(name, distinct, arguments, filter) =>
      [name, LParen] + YieldDistinct(distinct) + YieldArguments(arguments) + [RParen] + YieldFilter(filter)
    case CaseText(caseWord, scrutinee, whens, otherwise, endWord) =>
      [Keyword(CASE, caseWord)] + YieldOptional(scrutinee) + YieldWhens(whens) + YieldElse(otherwise) + [Keyword(END, endWord)]
    case PrefixText(unary, notWord, operand) => [UnaryToken(unary, notWord)] + Yield(operand)
    case InfixText(left, op, written, right) => Yield(left) + [OperatorToken(op, written)] + Yield(right)
    case QuantifiedText(left, op, some, written, right) =>
      Yield(left) + [OperatorToken(op, ""), Keyword(if some then SOME else ANY, written)] + Yield(right)
    case NullText(operand, isWord, not, nullWord) => Yield(operand) + NullWords(isWord, not, nullWord)
    case InText(left, inWord, items) => Yield(left) + [Keyword(IN, inWord), LParen] + YieldList(items) + [RParen]
    case BetweenText(operand, betweenWord, low, andWord, high) =>
      Yield(operand) + [Keyword(BETWEEN, betweenWord)] + Yield(low) + [Keyword(AND, andWord)] + Yield(high)
    case ZoneText(operand, atWord, timeWord, zoneWord, zone) =>
      Yield(operand) + [Keyword(AT, atWord), Keyword(TIME, timeWord), Keyword(ZONE, zoneWord)] + Yield(zone)
  }

  function NullWords(isWord: string, not: Option<string>, nullWord: string): seq<Token> {
    if not.Some? then [Keyword(IS, isWord), Keyword(NOT, not.value), Keyword(NULL, nullWord)]
    else [Keyword(IS, isWord), Keyword(NULL, nullWord)]
  }

  function YieldList(items: seq<Text>): seq<Token> {
    if items == [] then []
    else if |items| == 1 then Yield(items[0])
    else Yield(items[0]) + [Comma] + YieldList(items[1..])
  }

  function YieldDistinct(distinct: Option<string>): seq<Token> {
    if distinct.Some? then [Keyword(DISTINCT, distinct.value)] else []
  }

  function YieldArguments(arguments: ArgumentsText): seq<Token> {
    match arguments
    case StarText => [Star]
    case ListText(items) => YieldList(items)
  }

  function YieldFilter(filter: FilterText): seq<Token> {
    match filter
    case NoFilter => []
    case FilterText(filterWord, whereWord, cond) =>
      [Keyword(FILTER, filterWord), LParen, Keyword(WHERE, whereWord)] + Yield(cond) + [RParen]
  }

  function YieldOptional(x: Option<Text>): seq<Token> {
    match x
    case None => []
    case Some(t) => Yield(t)
  }

  function YieldWhens(whens: seq<WhenText>): seq<Token> {
    if whens == [] then [] else YieldWhen(whens[0]) + YieldWhens(whens[1..])
  }

  function YieldWhen(w: WhenText): seq<Token> {
    [Keyword(WHEN, w.whenWord)] + Yield(w.cond) + [Keyword(THEN, w.thenWord)] + Yield(w.result)
  }

  function YieldElse(otherwise: ElseText): seq<Token> {
    match otherwise
    case NoElse => []
    case ElseText(elseWord, result) => [Keyword(ELSE, elseWord)] + Yield(result)
  }

  // ---- the expression a text stands for -------------------------------------------

  function Meaning(t: Text): Expr {
    match t
    case Atom(token) => AtomMeaning(token)
    case Dotted(table, column) => QualifiedIdentifier(NameOf(table), NameOf(column))
    case NowText(_) => Function("NOW", ExprArgs([]), None)
    case Parens(inner) => Meaning(inner)
    case Brackets(items) => Array(Meanings(items))
    case ArrayText(_, items) => Array(Meanings(items))
    case CallText(name, _, arguments, filter) =>
      Function(NameOf(name), MeaningOfArguments(arguments), MeaningOfFilter(filter))
    case CaseText(_, scrutinee, whens, otherwise, _) =>
      Case(MeaningOfOptional(scrutinee), MeaningOfWhens(whens), MeaningOfElse(otherwise))
    case PrefixText(unary, _, operand) => UnaryOp(unary, Meaning(operand))
    case InfixText(left, op, _, right) => BinaryOp(Meaning(left), op, Meaning(right))
    case QuantifiedText(left, op, some, _, right) =>
      if some then SomeComparison(Meaning(left), op, Meaning(right)) else AnyComparison(Meaning(left), op, Meaning(right))
    case NullText(operand, _, not, _) => if not.Some? then IsNotNull(Meaning(operand)) else IsNull(Meaning(operand))
    case InText(left, _, items) => InList(Meaning(left), false, Meanings(items))
    case BetweenText(operand, _, low, _, high) => Between(Meaning(operand), false, Meaning(low), Meaning(high))
    case ZoneText(operand, _, _, _, zone) => AtTimeZone(Meaning(operand), Meaning(zone))
  }

  function Meanings(items: seq<Text>): seq<Expr> {
    if items == [] then [] else [Meaning(items[0])] + Meanings(items[1..])
  }

  function MeaningOfArguments(arguments: ArgumentsText): FunctionArgs {
    match arguments
    case StarText => StarArg
    case ListText(items) => ExprArgs(Meanings(items))
  }

  function MeaningOfFilter(filter: FilterText): Option<Expr> {
    match filter
    case NoFilter => None
    case FilterText(_, _, cond) => Some(Meaning(cond))
  }

  function MeaningOfOptional(x: Option<Text>): Option<Expr> {
    match x
    case None => None
    case Some(t) => Some(Meaning(t))
  }

  function MeaningOfWhens(whens: seq<WhenText>): seq<WhenClause> {
    if whens == [] then [] else [WhenClause(Meaning(whens[0].cond), Meaning(whens[0].result))] + MeaningOfWhens(whens[1..])
  }

  function MeaningOfElse(otherwise: ElseText): Option<Expr> {
    match otherwise
    case NoElse => None
    case ElseText(_, result) => Some(Meaning(result))
  }

  // ---- which texts are allowed where ------------------------------------------------

  /** How tightly a text's own syntax binds. */
  function Level(t: Text): nat {
    match t
    case PrefixText(unary, _, _) => if unary == Not then NOT_LEVEL else UNARY
    case InfixText(_, op, _, _) => OperatorLevel(op)
    case QuantifiedText(_, _, _, _, _) => COMPARISON
    case NullText(_, _, _, _) => COMPARISON
    case InText(_, _, _) => COMPARISON
    case BetweenText(_, _, _, _, _) => COMPARISON
    case ZoneText(_, _, _, _, _) => POSTFIX
    case _ => PRIMARY
  }

  /** May the text stand where something binding at least as tightly as `level` is expected?  It is closed
      if an arithmetic or bitwise operator may follow, which a zone at its end would swallow.  Where NOT
      may negate, a name cannot be spelled that way. */
  predicate Fits(t: Text, level: nat, closed: bool)
    decreases t, 1
  {
    Level(t) >= level && (level <= NOT_LEVEL < Level(t) ==> !At(NOT, Yield(t))) && Proper(t, closed)
  }

  predicate Proper(t: Text, closed: bool)
    decreases t, 0
  {
    match t
    case Atom(token) => IsAtom(token)
    case Dotted(table, column) => IsName(table) && (column.Ident? || column.Keyword?)
    case NowText(_) => true
    case Parens(inner) => Fits(inner, OR_LEVEL, false) && !At(SELECT, Yield(inner))
    case Brackets(items) => ProperList(items)
    case ArrayText(name, items) => IsName(name) && EqIgnoreAsciiCase(NameOf(name), "ARRAY") && ProperList(items)
    case CallText(name, distinct, arguments, filter) =>
      && IsName(name)
      && ProperArguments(arguments)
      && (distinct.None? ==> !At(DISTINCT, YieldArguments(arguments)))
      && (filter.FilterText? ==> Fits(filter.cond, OR_LEVEL, false))
    case CaseText(_, scrutinee, whens, otherwise, _) =>
      && (scrutinee.Some? ==> Fits(scrutinee.value, OR_LEVEL, false) && !At(WHEN, Yield(scrutinee.value)))
      && (scrutinee.None? ==> whens != [])
      && (forall w :: w in whens ==> Fits(w.cond, OR_LEVEL, false) && Fits(w.result, OR_LEVEL, false))
      && (otherwise.ElseText? ==> Fits(otherwise.result, OR_LEVEL, false))
    case PrefixText(unary, _, operand) => if unary == Not then Fits(operand, COMPARISON, closed) else Fits(operand, POSTFIX, closed)
    case InfixText(left, op, _, right) =>
      if Infix(op) then Fits(left, OperatorLevel(op), BIT_OR <= OperatorLevel(op)) && Fits(right, OperatorLevel(op) + 1, closed)
      else
        && (Comparison(op) || op == Like || op == ILike)
        && Fits(left, OPERAND, false) && Fits(right, OPERAND, closed)
        && (Comparison(op) ==> !At(ANY, Yield(right)) && !At(SOME, Yield(right)))
    case QuantifiedText(left, op, _, _, right) => Comparison(op) && Fits(left, OPERAND, false) && Fits(right, PRIMARY, closed)
    case NullText(operand, _, _, _) => Fits(operand, OPERAND, false)
    case InText(left, _, items) => Fits(left, OPERAND, false) && ProperList(items) && !At(SELECT, YieldList(items))
    case BetweenText(operand, _, low, _, high) =>
      Fits(operand, OPERAND, false) && Fits(low, OPERAND, false) && Fits(high, OPERAND, closed)
    case ZoneText(operand, _, _, _, zone) => !closed && Fits(operand, PRIMARY, true) && Fits(zone, OPERAND, false)
  }

  predicate ProperList(items: seq<Text>)
    decreases items, 0
  {
    items != [] && forall x :: x in items ==> Fits(x, OR_LEVEL, false)
  }

  predicate ProperArguments(arguments: ArgumentsText)
    decreases arguments, 1
  {
    arguments.ListText? ==> ProperList(arguments.items)
  }

  /** The tokens are a text of the expression. */
  ghost predicate Denotes(ts: seq<Token>, e: Expr) {
    exists t :: Yield(t) == ts && Meaning(t) == e && Fits(t, OR_LEVEL, false)
  }
}
