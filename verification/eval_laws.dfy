/** What each kind of condition means to `evaluate_where` (src/server/eval.rs). */
module EvaluationLaws {
  import opened Wrappers
  import opened Ast
  import opened Order
  import opened Evaluation
  import opened Selections

  /** The two truth values, as the evaluator writes them. */
  function Truth(b: bool): Option<string> {
    if b then Some("true") else Some("false")
  }

  lemma TruthIs(b: bool)
    ensures Some(BoolText(b)) == Truth(b) && (Holds(Truth(b)) <==> b) && Truth(true) != Truth(false)
    ensures forall s :: ParseBool(s) == Some(b) <==> Some(s) == Truth(b)
  {
    assert |"false"| == 5 && |"true"| == 4;
  }

  // ---- logic ------------------------------------------------------------------

  /** Both logical operators and NOT work on "true" and "false" only; on anything else they have no value. */
  lemma LogicValue(h: Host, left: Expr, right: Expr, row: Row, desc: Option<Columns>, x: bool, y: bool)
    requires Evaluate(h, left, row, desc) == Truth(x) && Evaluate(h, right, row, desc) == Truth(y)
    ensures Evaluate(h, BinaryOp(left, And, right), row, desc) == Truth(x && y)
    ensures Evaluate(h, BinaryOp(left, Or, right), row, desc) == Truth(x || y)
    ensures Evaluate(h, UnaryOp(Not, left), row, desc) == Truth(!x)
  {
    TruthIs(x);
    TruthIs(y);
    NotUnfolds(h, left, row, desc);
    BinaryUnfolds(h, left, And, right, row, desc);
    BinaryUnfolds(h, left, Or, right, row, desc);
    hide Evaluate, ParseBool;
  }

  predicate IsTruth(v: Option<string>) {
    v == Truth(true) || v == Truth(false)
  }

  lemma NoLogicValue(h: Host, left: Expr, right: Expr, row: Row, desc: Option<Columns>)
    requires !IsTruth(Evaluate(h, left, row, desc)) || !IsTruth(Evaluate(h, right, row, desc))
    ensures Evaluate(h, BinaryOp(left, And, right), row, desc) == None
    ensures Evaluate(h, BinaryOp(left, Or, right), row, desc) == None
    ensures !IsTruth(Evaluate(h, left, row, desc)) ==> Evaluate(h, UnaryOp(Not, left), row, desc) == None
  {
    TruthIs(true);
    TruthIs(false);
    NotUnfolds(h, left, row, desc);
    BinaryUnfolds(h, left, And, right, row, desc);
    BinaryUnfolds(h, left, Or, right, row, desc);
    hide Evaluate;
  }

  lemma NotUnfolds(h: Host, x: Expr, row: Row, desc: Option<Columns>)
    ensures Evaluate(h, UnaryOp(Not, x), row, desc) ==
      var v := Evaluate(h, x, row, desc);
      if v.None? || ParseBool(v.value).None? then None else Some(BoolText(!ParseBool(v.value).value))
  {
    hide ParseBool, BoolText;
  }

  lemma OrHolds(h: Host, left: Expr, right: Expr, row: Row, desc: Option<Columns>)
    ensures var (l, r) := (Evaluate(h, left, row, desc), Evaluate(h, right, row, desc));
      EvaluateWhere(h, BinaryOp(left, Or, right), row, desc) <==>
        IsTruth(l) && IsTruth(r) && (l == Some("true") || r == Some("true"))
  {
    var (l, r) := (Evaluate(h, left, row, desc), Evaluate(h, right, row, desc));
    TruthIs(true);
    TruthIs(false);
    if IsTruth(l) && IsTruth(r) {
      LogicValue(h, left, right, row, desc, l == Truth(true), r == Truth(true));
    } else {
      NoLogicValue(h, left, right, row, desc);
    }
    hide Evaluate;
  }

  // ---- comparisons --------------------------------------------------------------

  /** Values are compared as texts: equal, or ordered by their first difference. */
  lemma ComparisonsHold(h: Host, left: Expr, right: Expr, row: Row, desc: Option<Columns>, l: string, r: string)
    requires Evaluate(h, left, row, desc) == Some(l) && Evaluate(h, right, row, desc) == Some(r)
    ensures Evaluate(h, BinaryOp(left, Equals, right), row, desc) == Truth(l == r)
    ensures Evaluate(h, BinaryOp(left, NotEquals, right), row, desc) == Truth(l != r)
    ensures Evaluate(h, BinaryOp(left, LessThan, right), row, desc) == Truth(TextBefore(l, r))
    ensures Evaluate(h, BinaryOp(left, GreaterThan, right), row, desc) == Truth(TextBefore(r, l))
    ensures Evaluate(h, BinaryOp(left, LessOrEqual, right), row, desc) == Truth(TextBefore(l, r) || l == r)
    ensures Evaluate(h, BinaryOp(left, GreaterOrEqual, right), row, desc) == Truth(TextBefore(r, l) || l == r)
  {
    TextOrder(l, r);
    TextOrder(r, l);
    TruthIs(true);
    TruthIs(false);
    hide Evaluate, TextLess, TextBefore;
    forall op: BinaryOperator
      ensures Evaluate(h, BinaryOp(left, op, right), row, desc) == Binary(h, op, l, r)
    {
      BinaryUnfolds(h, left, op, right, row, desc);
    }
  }

  /** An operator whose operand has no value has none either. */
  lemma NoOperand(h: Host, left: Expr, op: BinaryOperator, right: Expr, row: Row, desc: Option<Columns>)
    requires Evaluate(h, left, row, desc).None? || Evaluate(h, right, row, desc).None?
    ensures Evaluate(h, BinaryOp(left, op, right), row, desc) == None
  {
    BinaryUnfolds(h, left, op, right, row, desc);
  }

  // ---- LIKE -----------------------------------------------------------------------

  /** LIKE only asks whether the pattern, its percent signs taken out, occurs somewhere. */
  ghost predicate Occurs(s: string, part: string) {
    exists i: nat, j: nat :: i <= j <= |s| && s[i..j] == part
  }

  lemma ContainsIsOccurs(s: string, part: string)
    ensures Evaluation.Contains(s, part) <==> Occurs(s, part)
  {
    if Evaluation.Contains(s, part) {
      var i :| 0 <= i <= |s| - |part| && s[i..][..|part|] == part;
      assert s[i..i + |part|] == part;
    }
    if Occurs(s, part) {
      var i: nat, j: nat :| i <= j <= |s| && s[i..j] == part;
      assert s[i..][..|part|] == part;
    }
  }

  /** Taking the percent signs out keeps all other characters, in order. */
  lemma {:induction false} PercentsGo(s: string) returns (ps: seq<nat>)
    ensures Increasing(ps) && Taken(WithoutPercent(s), s, ps)
    ensures forall i: nat :: i in ps <==> i < |s| && s[i] != '%'
  {
    if s == [] {
      ps := [];
    } else {
      var n := |s| - 1;
      ps := PercentsGo(s[..n]);
      assert s == s[..n] + [s[n]];
      WithoutPercentSnoc(s[..n], s[n]);
      TakenSnoc(WithoutPercent(s[..n]), s[..n], ps, s[n]);
      if s[n] != '%' {
        ps := ps + [n];
      }
    }
  }

  lemma {:induction false} WithoutPercentSnoc(s: string, c: char)
    ensures WithoutPercent(s + [c]) == WithoutPercent(s) + if c == '%' then [] else [c]
    decreases |s|
  {
    if s == [] {
      assert ([] + [c])[1..] == [] && WithoutPercent([]) == [];
    } else {
      WithoutPercentSnoc(s[1..], c);
      assert (s + [c])[1..] == s[1..] + [c];
      var (first, more, last) := (if s[0] == '%' then [] else [s[0]], WithoutPercent(s[1..]), if c == '%' then [] else [c]);
      assert WithoutPercent(s) == first + more && WithoutPercent(s + [c]) == first + (more + last);
      hide WithoutPercent;
      assert first + (more + last) == (first + more) + last;
    }
  }

  lemma LikeHolds(h: Host, left: Expr, right: Expr, row: Row, desc: Option<Columns>, l: string, r: string)
    requires Evaluate(h, left, row, desc) == Some(l) && Evaluate(h, right, row, desc) == Some(r)
    ensures Evaluate(h, BinaryOp(left, Like, right), row, desc) == Truth(Occurs(l, WithoutPercent(r)))
    ensures Evaluate(h, BinaryOp(left, ILike, right), row, desc) == Truth(Occurs(h.lower(l), h.lower(WithoutPercent(r))))
  {
    ContainsIsOccurs(l, WithoutPercent(r));
    ContainsIsOccurs(h.lower(l), h.lower(WithoutPercent(r)));
    TruthIs(true);
    TruthIs(false);
    BinaryUnfolds(h, left, Like, right, row, desc);
    BinaryUnfolds(h, left, ILike, right, row, desc);
    hide Evaluate, Evaluation.Contains, Occurs;
  }

  // ---- NULL, IN, BETWEEN ----------------------------------------------------------

  /** A value is NULL if nothing but NULL, in upper or lower case, or nothing at all is left of it
      when it is trimmed. */
  lemma NullHolds(h: Host, x: Expr, row: Row, desc: Option<Columns>)
    ensures var v := Evaluate(h, x, row, desc);
      v.None? ==> Evaluate(h, IsNull(x), row, desc) == None == Evaluate(h, IsNotNull(x), row, desc)
    ensures forall s :: Evaluate(h, x, row, desc) == Some(s) ==>
      var nothing := h.trim(s) == "" || EqIgnoreAsciiCase(h.trim(s), "null");
      Evaluate(h, IsNull(x), row, desc) == Truth(nothing) && Evaluate(h, IsNotNull(x), row, desc) == Truth(!nothing)
  {
    TruthIs(true);
    TruthIs(false);
    assert "NULL"[0] == 'N' && "null"[0] == 'n';
    forall t: string
      ensures EqIgnoreAsciiCase(t, "NULL") <==> EqIgnoreAsciiCase(t, "null")
    {
      assert forall i :: 0 <= i < 4 ==> Lower("NULL"[i]) == Lower("null"[i]);
    }
  }

  lemma {:induction false} EvaluateAllAt(h: Host, list: seq<Expr>, row: Row, desc: Option<Columns>, k: nat)
    requires k < |list|
    ensures EvaluateAll(h, list, row, desc)[k] == Evaluate(h, list[k], row, desc)
  {
    hide Evaluate;
    if k > 0 {
      EvaluateAllAt(h, list[1..], row, desc, k - 1);
    }
  }

  ghost predicate Listed(h: Host, v: Option<string>, list: seq<Expr>, row: Row, desc: Option<Columns>) {
    exists k :: 0 <= k < |list| && Evaluate(h, list[k], row, desc) == v
  }

  /** A value is in a list if it is the value of one of its expressions. */
  lemma InHolds(h: Host, x: Expr, negated: bool, list: seq<Expr>, row: Row, desc: Option<Columns>)
    ensures var v := Evaluate(h, x, row, desc);
      Evaluate(h, InList(x, negated, list), row, desc) == if v.None? then None else Truth(Listed(h, v, list, row, desc) != negated)
  {
    var v := Evaluate(h, x, row, desc);
    var values := EvaluateAll(h, list, row, desc);
    forall k | 0 <= k < |list|
      ensures values[k] == Evaluate(h, list[k], row, desc)
    {
      EvaluateAllAt(h, list, row, desc, k);
    }
    InUnfolds(h, x, negated, list, row, desc);
    TruthIs(true);
    TruthIs(false);
    hide Evaluate, EvaluateAll;
    if v in values {
      var k :| 0 <= k < |values| && values[k] == v;
      assert Evaluate(h, list[k], row, desc) == v;
    }
  }

  lemma InUnfolds(h: Host, x: Expr, negated: bool, list: seq<Expr>, row: Row, desc: Option<Columns>)
    ensures Evaluate(h, InList(x, negated, list), row, desc) ==
      var v := Evaluate(h, x, row, desc);
      if v.None? then None else Some(BoolText((v in EvaluateAll(h, list, row, desc)) != negated))
  {}

  /** BETWEEN includes both ends; texts are compared as texts unless all three are numbers. */
  lemma BetweenHolds(h: Host, x: Expr, negated: bool, low: Expr, high: Expr, row: Row, desc: Option<Columns>,
                     v: string, l: string, u: string)
    requires Evaluate(h, x, row, desc) == Some(v)
    requires Evaluate(h, low, row, desc) == Some(l) && Evaluate(h, high, row, desc) == Some(u)
    ensures var inside := match h.within(v, l, u) case Some(b) => b case None => !TextBefore(v, l) && !TextBefore(u, v);
      Evaluate(h, Between(x, negated, low, high), row, desc) == Truth(if negated then !inside else inside)
  {
    TextOrder(v, l);
    TextOrder(u, v);
    TruthIs(true);
    TruthIs(false);
    BetweenUnfolds(h, x, negated, low, high, row, desc);
    hide Evaluate, TextLess, TextBefore;
  }

  lemma BetweenUnfolds(h: Host, x: Expr, negated: bool, low: Expr, high: Expr, row: Row, desc: Option<Columns>)
    ensures var (v, l, u) := (Evaluate(h, x, row, desc), Evaluate(h, low, row, desc), Evaluate(h, high, row, desc));
      v.Some? && l.Some? && u.Some? ==>
        Evaluate(h, Between(x, negated, low, high), row, desc) ==
        var numeric := h.within(v.value, l.value, u.value);
        Some(BoolText((if numeric.Some? then numeric.value
                       else TextAtMost(l.value, v.value) && TextAtMost(v.value, u.value)) != negated))
  {
    hide TextAtMost;
  }

  // ---- CASE -----------------------------------------------------------------------

  /** The operand of CASE, unless it has no value or there is none. */
  function Subject(h: Host, scrutinee: Option<Expr>, row: Row, desc: Option<Columns>): Option<string> {
    match scrutinee
    case None => None
    case Some(e) => Evaluate(h, e, row, desc)
  }

  /** An arm is taken if its condition equals the operand, or is true where there is no operand. */
  predicate Takes(subject: Option<string>, condition: Option<string>) {
    match subject
    case Some(s) => condition == Some(s)
    case None => condition == Some("true") || condition == Some("t")
  }

  /** The arms before `k` have a value and are not taken. */
  ghost predicate Passed(h: Host, whens: seq<WhenClause>, k: nat, subject: Option<string>, row: Row, desc: Option<Columns>)
    requires k <= |whens|
  {
    forall i :: 0 <= i < k ==>
      Evaluate(h, whens[i].cond, row, desc).Some? && !Takes(subject, Evaluate(h, whens[i].cond, row, desc))
  }

  lemma {:induction false} ArmsPassed(h: Host, whens: seq<WhenClause>, k: nat, subject: Option<string>, row: Row, desc: Option<Columns>)
    requires k <= |whens| && Passed(h, whens, k, subject, row, desc)
    ensures EvaluateArms(h, whens, subject, row, desc) == EvaluateArms(h, whens[k..], subject, row, desc)
    decreases k
  {
    hide Evaluate;
    if k == 0 {
      assert whens[0..] == whens;
    } else {
      assert !Takes(subject, Evaluate(h, whens[0].cond, row, desc));
      ArmsPassed(h, whens[1..], k - 1, subject, row, desc);
      assert whens[1..][k - 1..] == whens[k..];
    }
  }

  lemma CaseUnfolds(h: Host, scrutinee: Option<Expr>, whens: seq<WhenClause>, otherwise: Option<Expr>, row: Row, desc: Option<Columns>)
    ensures Evaluate(h, Case(scrutinee, whens, otherwise), row, desc) ==
      match EvaluateArms(h, whens, Subject(h, scrutinee, row, desc), row, desc) {
        case Stopped => None
        case Chosen(v) => v
        case Exhausted => if otherwise.Some? then Evaluate(h, otherwise.value, row, desc) else Some("NULL")
      }
  {
    hide EvaluateArms;
  }

  /** CASE is the result of the first arm taken. */
  lemma CaseTakes(h: Host, scrutinee: Option<Expr>, whens: seq<WhenClause>, otherwise: Option<Expr>, row: Row, desc: Option<Columns>, k: nat)
    requires k < |whens| && Passed(h, whens, k, Subject(h, scrutinee, row, desc), row, desc)
    requires Takes(Subject(h, scrutinee, row, desc), Evaluate(h, whens[k].cond, row, desc))
    ensures Evaluate(h, Case(scrutinee, whens, otherwise), row, desc) == Evaluate(h, whens[k].result, row, desc)
  {
    CaseUnfolds(h, scrutinee, whens, otherwise, row, desc);
    ArmsPassed(h, whens, k, Subject(h, scrutinee, row, desc), row, desc);
    hide Evaluate;
  }

  /** An arm that has no value leaves the CASE without one. */
  lemma CaseStops(h: Host, scrutinee: Option<Expr>, whens: seq<WhenClause>, otherwise: Option<Expr>, row: Row, desc: Option<Columns>, k: nat)
    requires k < |whens| && Passed(h, whens, k, Subject(h, scrutinee, row, desc), row, desc)
    requires Evaluate(h, whens[k].cond, row, desc).None?
    ensures Evaluate(h, Case(scrutinee, whens, otherwise), row, desc) == None
  {
    CaseUnfolds(h, scrutinee, whens, otherwise, row, desc);
    ArmsPassed(h, whens, k, Subject(h, scrutinee, row, desc), row, desc);
    hide Evaluate;
  }

  /** When no arm is taken it is the ELSE, or NULL. */
  lemma CaseElse(h: Host, scrutinee: Option<Expr>, whens: seq<WhenClause>, otherwise: Option<Expr>, row: Row, desc: Option<Columns>)
    requires Passed(h, whens, |whens|, Subject(h, scrutinee, row, desc), row, desc)
    ensures Evaluate(h, Case(scrutinee, whens, otherwise), row, desc) ==
      match otherwise case Some(e) => Evaluate(h, e, row, desc) case None => Some("NULL")
  {
    CaseUnfolds(h, scrutinee, whens, otherwise, row, desc);
    ArmsPassed(h, whens, |whens|, Subject(h, scrutinee, row, desc), row, desc);
    hide Evaluate;
  }

  // ---- columns and rows -------------------------------------------------------------

  /** A column, qualified or not, is the row's value at the first field of that name. */
  lemma ColumnIs(h: Host, table: string, column: string, row: Row, fields: Columns, i: nat)
    requires i < |fields| && EqIgnoreAsciiCase(fields[i], column)
    requires forall k :: 0 <= k < i ==> !EqIgnoreAsciiCase(fields[k], column)
    ensures var value := if i < |row| then Some(row[i]) else None;
      Evaluate(h, Identifier(column), row, Some(fields)) == value == Evaluate(h, QualifiedIdentifier(table, column), row, Some(fields))
  {
    hide EqIgnoreAsciiCase;
    assert FieldIndex(fields, column) == i;
    hide FieldIndex;
  }

  /** Filtering keeps exactly the rows for which the condition holds, in their order. */
  lemma {:induction false} FilterKeeps(h: Host, e: Expr, rows: seq<Row>, desc: Option<Columns>) returns (ps: seq<nat>)
    ensures Increasing(ps) && Taken(ApplyWhere(h, e, rows, desc), rows, ps)
    ensures forall i: nat :: i in ps <==> i < |rows| && EvaluateWhere(h, e, rows[i], desc)
  {
    hide EvaluateWhere;
    if rows == [] {
      ps := [];
    } else {
      var n := |rows| - 1;
      ps := FilterKeeps(h, e, rows[..n], desc);
      assert rows == rows[..n] + [rows[n]];
      FilterSnoc(h, e, rows[..n], rows[n], desc);
      TakenSnoc(ApplyWhere(h, e, rows[..n], desc), rows[..n], ps, rows[n]);
      if EvaluateWhere(h, e, rows[n], desc) {
        ps := ps + [n];
      }
    }
  }

  lemma {:induction false} FilterSnoc(h: Host, e: Expr, rows: seq<Row>, row: Row, desc: Option<Columns>)
    ensures ApplyWhere(h, e, rows + [row], desc) == ApplyWhere(h, e, rows, desc) + if EvaluateWhere(h, e, row, desc) then [row] else []
    decreases |rows|
  {
    hide EvaluateWhere;
    if rows == [] {
      assert ([] + [row])[1..] == [] && ApplyWhere(h, e, [], desc) == [];
    } else {
      assert (rows + [row])[1..] == rows[1..] + [row];
      FilterSnoc(h, e, rows[1..], row, desc);
    }
  }

  // ---- calls ------------------------------------------------------------------------

  lemma CallUnfolds(h: Host, name: string, list: seq<Expr>, filter: Option<Expr>, row: Row, desc: Option<Columns>)
    ensures Evaluate(h, Function(name, ExprArgs(list), filter), row, desc)
         == Call(h, h.upper(name), EvaluateAll(h, list, row, desc))
  {
    hide Call;
  }

  /** COUNT of a row is 1; an aggregate, and any function not known, is its first argument. */
  lemma FirstArgument(h: Host, name: string, list: seq<Expr>, filter: Option<Expr>, row: Row, desc: Option<Columns>)
    ensures h.upper(name) == "COUNT" ==> Evaluate(h, Function(name, ExprArgs(list), filter), row, desc) == Some("1")
    ensures h.upper(name) !in ["COUNT", "CONCAT", "LENGTH", "UPPER", "LOWER", "TRIM", "SUBSTRING"] ==>
      Evaluate(h, Function(name, ExprArgs(list), filter), row, desc) == if list == [] then None else Evaluate(h, list[0], row, desc)
  {
    CallUnfolds(h, name, list, filter, row, desc);
    if list != [] {
      EvaluateAllAt(h, list, row, desc, 0);
    }
    hide Evaluate, EvaluateAll;
  }

  /** CONCAT appends the values of its arguments, leaving out those without one. */
  lemma ConcatAppends(h: Host, name: string, list: seq<Expr>, last: Expr, filter: Option<Expr>, row: Row, desc: Option<Columns>)
    requires h.upper(name) == "CONCAT"
    ensures Evaluate(h, Function(name, ExprArgs([]), filter), row, desc) == Some("")
    ensures var before := Evaluate(h, Function(name, ExprArgs(list), filter), row, desc);
      before.Some? && Evaluate(h, Function(name, ExprArgs(list + [last]), filter), row, desc) ==
        Some(before.value + match Evaluate(h, last, row, desc) case Some(v) => v case None => "")
  {
    CallUnfolds(h, name, [], filter, row, desc);
    CallUnfolds(h, name, list, filter, row, desc);
    CallUnfolds(h, name, list + [last], filter, row, desc);
    EvaluateAllSnoc(h, list, last, row, desc);
    JoinedSnoc(EvaluateAll(h, list, row, desc), Evaluate(h, last, row, desc));
    assert EvaluateAll(h, [], row, desc) == [];
    hide Evaluate, EvaluateAll;
  }

  lemma {:induction false} EvaluateAllSnoc(h: Host, list: seq<Expr>, last: Expr, row: Row, desc: Option<Columns>)
    ensures EvaluateAll(h, list + [last], row, desc) == EvaluateAll(h, list, row, desc) + [Evaluate(h, last, row, desc)]
    decreases |list|
  {
    hide Evaluate;
    if list == [] {
      assert ([] + [last])[1..] == [] && EvaluateAll(h, [], row, desc) == [];
    } else {
      assert (list + [last])[1..] == list[1..] + [last];
      EvaluateAllSnoc(h, list[1..], last, row, desc);
    }
  }

  lemma {:induction false} JoinedSnoc(values: seq<Option<string>>, last: Option<string>)
    ensures Joined(values + [last]) == Joined(values) + if last.Some? then last.value else ""
    decreases |values|
  {
    if values == [] {
      assert ([] + [last])[1..] == [] && Joined([]) == "";
    } else {
      assert (values + [last])[1..] == values[1..] + [last];
      JoinedSnoc(values[1..], last);
    }
  }

  /** The text functions get their arguments in order, nothing for one that is missing. */
  lemma TextFunction(h: Host, name: string, list: seq<Expr>, filter: Option<Expr>, row: Row, desc: Option<Columns>)
    requires h.upper(name) in ["LENGTH", "UPPER", "LOWER", "TRIM", "SUBSTRING"]
    ensures Evaluate(h, Function(name, ExprArgs(list), filter), row, desc) ==
      h.call(h.upper(name), ArgumentAt(h, list, 0, row, desc), ArgumentAt(h, list, 1, row, desc), ArgumentAt(h, list, 2, row, desc))
  {
    CallUnfolds(h, name, list, filter, row, desc);
    forall k: nat | k < |list|
      ensures EvaluateAll(h, list, row, desc)[k] == Evaluate(h, list[k], row, desc)
    {
      EvaluateAllAt(h, list, row, desc, k);
    }
    assert h.upper(name) != "COUNT" && h.upper(name) != "CONCAT";
    hide Evaluate, EvaluateAll;
  }

  function ArgumentAt(h: Host, list: seq<Expr>, k: nat, row: Row, desc: Option<Columns>): Option<string> {
    if k < |list| then Evaluate(h, list[k], row, desc) else None
  }

  // ---- arithmetic, casts, literals ----------------------------------------------------

  /** Arithmetic gets its operands in order; a cast changes nothing. */
  lemma ArithmeticIs(h: Host, left: Expr, op: BinaryOperator, right: Expr, sign: UnaryOperator, dataType: string, row: Row,
                     desc: Option<Columns>, l: string, r: string)
    requires Evaluate(h, left, row, desc) == Some(l) && Evaluate(h, right, row, desc) == Some(r) && sign != Not
    ensures op in [Plus, Minus, Multiply, Divide, Modulo] ==> Evaluate(h, BinaryOp(left, op, right), row, desc) == h.binary(op, l, r)
    ensures Evaluate(h, UnaryOp(sign, left), row, desc) == h.unary(sign, l)
    ensures Evaluate(h, TypeCast(left, dataType), row, desc) == Some(l)
  {
    BinaryUnfolds(h, left, op, right, row, desc);
  }

  lemma LiteralIs(h: Host, l: Literal, row: Row, desc: Option<Columns>)
    ensures Evaluate(h, Lit(l), row, desc) == match l
      case Number(n) => Some(n)
      case Text(s) => Some(s)
      case Bool(b) => Truth(b)
      case Null => Some("NULL")
      case Other(shown) => Some(shown)
  {
    TruthIs(true);
    TruthIs(false);
  }
}
