/** Expression evaluation on a row (src/server/eval.rs). */
module Evaluation {
  import opened Wrappers
  import opened Ast
  import opened Order

  /** What the evaluator takes from the language runtime: floating-point and integer arithmetic on
      decimal texts (nothing when an operand is not a number, or on division by zero), the numeric
      reading of BETWEEN (nothing unless all three are numbers), and text functions. */
  datatype Host = Host(
    binary: (BinaryOperator, string, string) -> Option<string>,
    unary: (UnaryOperator, string) -> Option<string>,
    within: (string, string, string) -> Option<bool>,
    upper: string -> string,
    lower: string -> string,
    trim: string -> string,
    call: (string, Option<string>, Option<string>, Option<string>) -> Option<string>)

  type Row = seq<string>
  type Columns = seq<string>

  function BoolText(b: bool): string {
    if b then "true" else "false"
  }

  function ParseBool(s: string): Option<bool> {
    if s == "true" then Some(true) else if s == "false" then Some(false) else None
  }

  function LiteralText(l: Literal): string {
    match l
    case Number(n) => n
    case Text(s) => s
    case Bool(b) => BoolText(b)
    case Null => "NULL"
    case Other(shown) => shown
  }

  /** The first field of that name, ignoring ASCII case. */
  function FieldIndex(fields: Columns, name: string): (i: nat)
    ensures i <= |fields|
    ensures i < |fields| ==> EqIgnoreAsciiCase(fields[i], name)
    ensures forall k :: 0 <= k < i ==> !EqIgnoreAsciiCase(fields[k], name)
  {
    if fields == [] || EqIgnoreAsciiCase(fields[0], name) then 0 else 1 + FieldIndex(fields[1..], name)
  }

  function ColumnValue(name: string, row: Row, desc: Option<Columns>): Option<string> {
    if desc.None? then None
    else
      var i := FieldIndex(desc.value, name);
      if i < |desc.value| && i < |row| then Some(row[i]) else None
  }

  function WithoutPercent(s: string): string {
    if s == [] then [] else (if s[0] == '%' then [] else [s[0]]) + WithoutPercent(s[1..])
  }

  predicate Contains(s: string, part: string) {
    exists i :: 0 <= i <= |s| - |part| && s[i..][..|part|] == part
  }

  predicate IsNullText(h: Host, s: string) {
    var t := h.trim(s);
    t == "" || EqIgnoreAsciiCase(t, "NULL")
  }

  function Binary(h: Host, op: BinaryOperator, l: string, r: string): Option<string> {
    match op
    case Equals => Some(BoolText(l == r))
    case NotEquals => Some(BoolText(l != r))
    case LessThan => Some(BoolText(TextLess(l, r)))
    case LessOrEqual => Some(BoolText(TextAtMost(l, r)))
    case GreaterThan => Some(BoolText(TextLess(r, l)))
    case GreaterOrEqual => Some(BoolText(TextAtMost(r, l)))
    case And =>
      if ParseBool(l).None? || ParseBool(r).None? then None
      else Some(BoolText(ParseBool(l).value && ParseBool(r).value))
    case Or =>
      if ParseBool(l).None? || ParseBool(r).None? then None
      else Some(BoolText(ParseBool(l).value || ParseBool(r).value))
    case Plus => h.binary(op, l, r)
    case Minus => h.binary(op, l, r)
    case Multiply => h.binary(op, l, r)
    case Divide => h.binary(op, l, r)
    case Modulo => h.binary(op, l, r)
    case Like => Some(BoolText(Contains(l, WithoutPercent(r))))
    case ILike => Some(BoolText(Contains(h.lower(l), h.lower(WithoutPercent(r)))))
    case _ => None
  }

  /** How the WHEN arms of a CASE came out. */
  datatype Arms = Stopped | Chosen(value: Option<string>) | Exhausted

  function Evaluate(h: Host, e: Expr, row: Row, desc: Option<Columns>): Option<string>
    decreases e, 0
  {
    match e
    case Lit(l) => Some(LiteralText(l))
    case Identifier(name) => ColumnValue(name, row, desc)
    case QualifiedIdentifier(_, column) => ColumnValue(column, row, desc)
    case BinaryOp(left, op, right) =>
      var l := Evaluate(h, left, row, desc);
      var r := Evaluate(h, right, row, desc);
      if l.None? || r.None? then None else Binary(h, op, l.value, r.value)
    case UnaryOp(op, operand) =>
      var v := Evaluate(h, operand, row, desc);
      if v.None? then None
      else if op == Not then
        if ParseBool(v.value).None? then None else Some(BoolText(!ParseBool(v.value).value))
      else h.unary(op, v.value)
    case IsNull(operand) =>
      var v := Evaluate(h, operand, row, desc);
      if v.None? then None else Some(BoolText(IsNullText(h, v.value)))
    case IsNotNull(operand) =>
      var v := Evaluate(h, operand, row, desc);
      if v.None? then None else Some(BoolText(!IsNullText(h, v.value)))
    case TypeCast(operand, _) => Evaluate(h, operand, row, desc)
    case Case(scrutinee, whens, otherwise) =>
      var subject := if scrutinee.None? then None else Evaluate(h, scrutinee.value, row, desc);
      match EvaluateArms(h, whens, subject, row, desc) {
        case Stopped => None
        case Chosen(v) => v
        case Exhausted => if otherwise.Some? then Evaluate(h, otherwise.value, row, desc) else Some("NULL")
      }
    case Function(name, arguments, _) =>
      var values := match arguments
        case StarArg => [Some("*")]
        case ExprArgs(list) => EvaluateAll(h, list, row, desc);
      Call(h, h.upper(name), values)
    case Between(operand, negated, low, high) =>
      var v := Evaluate(h, operand, row, desc);
      var l := Evaluate(h, low, row, desc);
      var u := Evaluate(h, high, row, desc);
      if v.None? || l.None? || u.None? then None
      else
        var numeric := h.within(v.value, l.value, u.value);
        var inside :=
          if numeric.Some? then numeric.value
          else TextAtMost(l.value, v.value) && TextAtMost(v.value, u.value);
        Some(BoolText(inside != negated))
    case InList(operand, negated, list) =>
      var v := Evaluate(h, operand, row, desc);
      if v.None? then None else Some(BoolText((v in EvaluateAll(h, list, row, desc)) != negated))
    case _ => None
  }

  function EvaluateAll(h: Host, list: seq<Expr>, row: Row, desc: Option<Columns>): (values: seq<Option<string>>)
    ensures |values| == |list|
    decreases list, 1
  {
    if list == [] then [] else [Evaluate(h, list[0], row, desc)] + EvaluateAll(h, list[1..], row, desc)
  }

  /** A WHEN that has no value stops the whole CASE. */
  function EvaluateArms(h: Host, whens: seq<WhenClause>, subject: Option<string>, row: Row, desc: Option<Columns>): Arms
    decreases whens, 1
  {
    if whens == [] then Exhausted
    else
      var condition := EvaluateWhen(h, whens[0], row, desc);
      if condition.None? then Stopped
      else if (if subject.Some? then condition == subject else Holds(condition)) then
        Chosen(EvaluateThen(h, whens[0], row, desc))
      else EvaluateArms(h, whens[1..], subject, row, desc)
  }

  function EvaluateWhen(h: Host, w: WhenClause, row: Row, desc: Option<Columns>): Option<string>
    decreases w, 0
  {
    Evaluate(h, w.cond, row, desc)
  }

  function EvaluateThen(h: Host, w: WhenClause, row: Row, desc: Option<Columns>): Option<string>
    decreases w, 0
  {
    Evaluate(h, w.result, row, desc)
  }

  function Call(h: Host, name: string, values: seq<Option<string>>): Option<string> {
    var first := if |values| > 0 then values[0] else None;
    if name == "COUNT" then Some("1")
    else if name == "CONCAT" then Some(Joined(values))
    else if name in ["LENGTH", "UPPER", "LOWER", "TRIM", "SUBSTRING"] then
      h.call(name, first, if |values| > 1 then values[1] else None, if |values| > 2 then values[2] else None)
    else first
  }

  function Joined(values: seq<Option<string>>): string {
    if values == [] then "" else (if values[0].Some? then values[0].value else "") + Joined(values[1..])
  }

  predicate Holds(v: Option<string>) {
    v == Some("true") || v == Some("t")
  }

  predicate EvaluateWhere(h: Host, e: Expr, row: Row, desc: Option<Columns>) {
    Holds(Evaluate(h, e, row, desc))
  }

  function ApplyWhere(h: Host, e: Expr, rows: seq<Row>, desc: Option<Columns>): seq<Row> {
    if rows == [] then []
    else (if EvaluateWhere(h, e, rows[0], desc) then [rows[0]] else []) + ApplyWhere(h, e, rows[1..], desc)
  }

  // ---- what the truth of a conjunction or an equality says -------------------

  lemma BinaryAnd(h: Host, l: string, r: string)
    ensures Holds(Binary(h, And, l, r)) <==> l == "true" && r == "true"
  {
    BoolTexts();
  }

  lemma BinaryEquals(h: Host, l: string, r: string)
    ensures Holds(Binary(h, Equals, l, r)) <==> l == r
  {
    BoolTexts();
  }

  lemma BoolTexts()
    ensures BoolText(true) == "true" && BoolText(false) != "true" && BoolText(false) != "t"
  {
    assert |BoolText(false)| == 5;
  }

  lemma BinaryUnfolds(h: Host, left: Expr, op: BinaryOperator, right: Expr, row: Row, desc: Option<Columns>)
    ensures Evaluate(h, BinaryOp(left, op, right), row, desc) ==
      var (l, r) := (Evaluate(h, left, row, desc), Evaluate(h, right, row, desc));
      if l.None? || r.None? then None else Binary(h, op, l.value, r.value)
  {
    hide Binary;
  }

  /** AND is strict: it holds exactly when both sides evaluate to "true", and then neither may be
      the "t" that `evaluate_where` also accepts. */
  lemma AndHolds(h: Host, left: Expr, right: Expr, row: Row, desc: Option<Columns>)
    ensures EvaluateWhere(h, BinaryOp(left, And, right), row, desc) <==>
      Evaluate(h, left, row, desc) == Some("true") && Evaluate(h, right, row, desc) == Some("true")
  {
    hide Evaluate, Binary;
    BinaryUnfolds(h, left, And, right, row, desc);
    var l, r := Evaluate(h, left, row, desc), Evaluate(h, right, row, desc);
    if l.Some? && r.Some? {
      BinaryAnd(h, l.value, r.value);
    }
  }

  lemma EqualsHolds(h: Host, left: Expr, right: Expr, row: Row, desc: Option<Columns>)
    ensures EvaluateWhere(h, BinaryOp(left, Equals, right), row, desc) <==>
      Evaluate(h, left, row, desc).Some? && Evaluate(h, left, row, desc) == Evaluate(h, right, row, desc)
  {
    hide Evaluate, Binary;
    BinaryUnfolds(h, left, Equals, right, row, desc);
    var l, r := Evaluate(h, left, row, desc), Evaluate(h, right, row, desc);
    if l.Some? && r.Some? {
      BinaryEquals(h, l.value, r.value);
    }
  }
}
