/** SQL expressions and tokens (src/sql/ast.rs, src/sql/parser/token.rs). */
module Ast {
  import opened Wrappers

  datatype BinaryOperator =
    | Plus | Minus | Multiply | Divide | Modulo
    | Equals | NotEquals | LessThan | GreaterThan | LessOrEqual | GreaterOrEqual
    | And | Or
    | BitwiseAnd | BitwiseOr | BitwiseXor | BitwiseShiftLeft | BitwiseShiftRight
    | Like | ILike
    | SimilarTo | Regex | RegexCaseInsensitive | NotRegex | NotRegexCaseInsensitive

  datatype UnaryOperator = UnaryPlus | UnaryMinus | Not | BitwiseNot

  /** `Other` stands for the literal kinds the expression parser never builds (dates, JSON, bits
      and so on) and carries the text they evaluate to. */
  datatype Literal = Number(digits: string) | Text(chars: string) | Bool(b: bool) | Null | Other(shown: string)

  datatype FunctionArgs = StarArg | ExprArgs(args: seq<Expr>)

  datatype WhenClause = WhenClause(cond: Expr, result: Expr)

  /** `Unevaluated` stands for the constructs `evaluate_expr` has no case for
      (subqueries, parameters, rows, collations and date functions). */
  datatype Expr =
    | Identifier(name: string)
    | QualifiedIdentifier(table: string, column: string)
    | Lit(literal: Literal)
    | IsNull(operand: Expr)
    | IsNotNull(operand: Expr)
    | InList(operand: Expr, negated: bool, list: seq<Expr>)
    | Between(operand: Expr, negated: bool, low: Expr, high: Expr)
    | BinaryOp(left: Expr, op: BinaryOperator, right: Expr)
    | UnaryOp(unary: UnaryOperator, operand: Expr)
    | Function(functionName: string, arguments: FunctionArgs, filter: Option<Expr>)
    | Array(elements: seq<Expr>)
    | TypeCast(operand: Expr, dataType: string)
    | Case(scrutinee: Option<Expr>, whens: seq<WhenClause>, otherwise: Option<Expr>)
    | AnyComparison(left: Expr, op: BinaryOperator, right: Expr)
    | SomeComparison(left: Expr, op: BinaryOperator, right: Expr)
    | AtTimeZone(operand: Expr, zone: Expr)
    | Unevaluated(construct: nat)

  /** The keywords the expression parser tests for; every other one is `OTHER`. */
  datatype Word =
    | OR | AND | NOT | ANY | SOME | IN | SELECT | BETWEEN | LIKE | ILIKE | IS | NULL
    | AT | TIME | ZONE | TRUE | FALSE | CASE | WHEN | THEN | ELSE | END
    | CAST | EXTRACT | DATE_TRUNC | DATE_PART
    | NOW | CURRENT_DATE | CURRENT_TIME | CURRENT_TIMESTAMP | LOCALTIME | LOCALTIMESTAMP
    | DISTINCT | FILTER | WHERE | OVER | OTHER

  /** A keyword token carries the word its upper-case spelling denotes and the text as written. */
  datatype Token =
    | Keyword(word: Word, written: string)
    | Ident(id: string)
    | NumberToken(digits: string)
    | StringToken(chars: string)
    | LParen | RParen | LBracket | RBracket | Comma | Dot | Semicolon | Colon
    | Eq | Neq | Lt | Gt | LtEq | GtEq
    | PlusSign | MinusSign | Star | Slash | Percent | Ampersand | Pipe | Caret | Tilde
    | Bang | Question | LtLt | GtGt | Eof

  function Spelling(w: Word): string {
    match w
    case OR => "OR"
    case AND => "AND"
    case NOT => "NOT"
    case ANY => "ANY"
    case SOME => "SOME"
    case IN => "IN"
    case SELECT => "SELECT"
    case BETWEEN => "BETWEEN"
    case LIKE => "LIKE"
    case ILIKE => "ILIKE"
    case IS => "IS"
    case NULL => "NULL"
    case AT => "AT"
    case TIME => "TIME"
    case ZONE => "ZONE"
    case TRUE => "TRUE"
    case FALSE => "FALSE"
    case CASE => "CASE"
    case WHEN => "WHEN"
    case THEN => "THEN"
    case ELSE => "ELSE"
    case END => "END"
    case CAST => "CAST"
    case EXTRACT => "EXTRACT"
    case DATE_TRUNC => "DATE_TRUNC"
    case DATE_PART => "DATE_PART"
    case NOW => "NOW"
    case CURRENT_DATE => "CURRENT_DATE"
    case CURRENT_TIME => "CURRENT_TIME"
    case CURRENT_TIMESTAMP => "CURRENT_TIMESTAMP"
    case LOCALTIME => "LOCALTIME"
    case LOCALTIMESTAMP => "LOCALTIMESTAMP"
    case DISTINCT => "DISTINCT"
    case FILTER => "FILTER"
    case WHERE => "WHERE"
    case OVER => "OVER"
    case OTHER => ""
  }

  function Lower(c: char): char {
    if 'A' <= c <= 'Z' then ((c as int) + 32) as char else c
  }

  predicate EqIgnoreAsciiCase(a: string, b: string) {
    |a| == |b| && forall i :: 0 <= i < |a| ==> Lower(a[i]) == Lower(b[i])
  }
}
