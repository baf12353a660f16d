/** A precedence-aware printer: parentheses are written only where an operand binds less tightly than its
    position requires.  What it prints is read back, and it prints whatever can be read. */
module Printer {
  import opened Wrappers
  import opened Ast
  import opened Grammar
  import opened Texts
  import opened RoundTrips
  import opened ParserImage

  function TimeWord(name: string): (w: Option<Word>)
    ensures w.Some? ==> IsTimeWord(w.value) && name == Spelling(w.value)
  {
    if name == Spelling(NOW) then Some(NOW)
    else if name == Spelling(CURRENT_DATE) then Some(CURRENT_DATE)
    else if name == Spelling(CURRENT_TIME) then Some(CURRENT_TIME)
    else if name == Spelling(CURRENT_TIMESTAMP) then Some(CURRENT_TIMESTAMP)
    else if name == Spelling(LOCALTIME) then Some(LOCALTIME)
    else if name == Spelling(LOCALTIMESTAMP) then Some(LOCALTIMESTAMP)
    else None
  }

  /** The expressions this grammar can write down, which are the ones `parse_expr` builds: negated IN
      and BETWEEN, regular-expression operators, type casts and other calls without arguments have no
      syntax here. */
  predicate Printable(e: Expr) {
    match e
    case Identifier(_) => true
    case QualifiedIdentifier(_, _) => true
    case Lit(l) => !l.Other?
    case IsNull(x) => Printable(x)
    case IsNotNull(x) => Printable(x)
    case InList(x, negated, list) => Printable(x) && !negated && list != [] && forall y :: y in list ==> Printable(y)
    case Between(x, negated, low, high) => Printable(x) && !negated && Printable(low) && Printable(high)
    case BinaryOp(l, op, r) =>
      Printable(l) && Printable(r) && (Infix(op) || Comparison(op) || op == Like || op == ILike)
    case UnaryOp(_, x) => Printable(x)
    case Function(name, arguments, filter) =>
      && (match arguments
          case StarArg => true
          case ExprArgs(list) =>
            && (list == [] ==> TimeWord(name).Some? && filter.None?)
            && forall y :: y in list ==> Printable(y))
      && (filter.Some? ==> Printable(filter.value))
    case Array(list) => list != [] && forall y :: y in list ==> Printable(y)
    case Case(scrutinee, whens, otherwise) =>
      && (scrutinee.Some? ==> Printable(scrutinee.value))
      && (scrutinee.None? ==> whens != [])
      && (forall w :: w in whens ==> Printable(w.cond) && Printable(w.result))
      && (otherwise.Some? ==> Printable(otherwise.value))
    case AnyComparison(l, op, r) => Printable(l) && Printable(r) && Comparison(op)
    case SomeComparison(l, op, r) => Printable(l) && Printable(r) && Comparison(op)
    case AtTimeZone(x, zone) => Printable(x) && Printable(zone)
    case TypeCast(_, _) => false
    case Unevaluated(_) => false
  }

  /** How tightly an expression's own syntax binds when written by `Bare`; a zone swallows what follows. */
  function Tightness(e: Expr): nat {
    match e
    case BinaryOp(_, op, _) => OperatorLevel(op)
    case UnaryOp(op, _) => if op == Not then NOT_LEVEL else UNARY
    case IsNull(_) => COMPARISON
    case IsNotNull(_) => COMPARISON
    case InList(_, _, _) => COMPARISON
    case Between(_, _, _, _) => COMPARISON
    case AnyComparison(_, _, _) => COMPARISON
    case SomeComparison(_, _, _) => COMPARISON
    case AtTimeZone(_, _) => OPERAND
    case _ => PRIMARY
  }

  function OperatorWord(op: BinaryOperator): string {
    match op
    case Or => "OR"
    case And => "AND"
    case Like => "LIKE"
    case ILike => "ILIKE"
    case _ => ""
  }

  /** `e` written where the grammar expects something binding at least as tightly as `level`. */
  function Written(e: Expr, level: nat): Text
    decreases e, 1
  {
    if Tightness(e) < level then Parens(Bare(e)) else Bare(e)
  }

  function Bare(e: Expr): Text
    decreases e, 0
  {
    match e
    case Identifier(name) => Atom(Ident(name))
    case QualifiedIdentifier(table, column) => Dotted(Ident(table), Ident(column))
    case Lit(l) => Atom(LiteralToken(l))
    case IsNull(x) => NullText(Written(x, OPERAND), "IS", None, "NULL")
    case IsNotNull(x) => NullText(Written(x, OPERAND), "IS", Some("NOT"), "NULL")
    case InList(x, _, list) => InText(Written(x, OPERAND), "IN", WrittenList(list))
    case Between(x, _, low, high) => BetweenText(Written(x, OPERAND), "BETWEEN", Written(low, OPERAND), "AND", Written(high, OPERAND))
    case BinaryOp(l, op, r) =>
      if Infix(op) then InfixText(Written(l, OperatorLevel(op)), op, OperatorWord(op), Written(r, OperatorLevel(op) + 1))
      else InfixText(Written(l, OPERAND), op, OperatorWord(op), Written(r, OPERAND))
    case UnaryOp(op, x) => PrefixText(op, if op == Not then "NOT" else "", Written(x, if op == Not then COMPARISON else POSTFIX))
    case Function(name, arguments, filter) =>
      if arguments == ExprArgs([]) then WrittenName(name)
      else CallText(Ident(name), None, WrittenArguments(arguments), WrittenFilter(filter))
    case Array(list) => Brackets(WrittenList(list))
    case Case(scrutinee, whens, otherwise) =>
      CaseText("CASE", WrittenOptional(scrutinee), WrittenWhens(whens), WrittenElse(otherwise), "END")
    case AnyComparison(l, op, r) => QuantifiedText(Written(l, OPERAND), op, false, "ANY", Written(r, PRIMARY))
    case SomeComparison(l, op, r) => QuantifiedText(Written(l, OPERAND), op, true, "SOME", Written(r, PRIMARY))
    case AtTimeZone(x, zone) => ZoneText(Written(x, PRIMARY), "AT", "TIME", "ZONE", Written(zone, OPERAND))
    case TypeCast(_, _) => Brackets([])
    case Unevaluated(_) => Brackets([])
  }

  /** A call without arguments is its keyword. */
  function WrittenName(name: string): Text {
    match TimeWord(name)
    case None => Brackets([])
    case Some(word) => if word == NOW then NowText("NOW") else Atom(Keyword(word, Spelling(word)))
  }

  function LiteralToken(l: Literal): Token {
    match l
    case Number(n) => NumberToken(n)
    case Text(s) => StringToken(s)
    case Bool(b) => if b then Keyword(TRUE, "TRUE") else Keyword(FALSE, "FALSE")
    case Null => Keyword(NULL, "NULL")
    case Other(s) => StringToken(s)
  }

  function WrittenList(list: seq<Expr>): seq<Text>
    decreases list, 2
  {
    if list == [] then [] else [Written(list[0], OR_LEVEL)] + WrittenList(list[1..])
  }

  function WrittenArguments(arguments: FunctionArgs): ArgumentsText
    decreases arguments, 2
  {
    match arguments
    case StarArg => StarText
    case ExprArgs(list) => ListText(WrittenList(list))
  }

  function WrittenOptional(x: Option<Expr>): Option<Text>
    decreases x, 2
  {
    match x
    case None => None
    case Some(e) => Some(Written(e, OR_LEVEL))
  }

  function WrittenFilter(x: Option<Expr>): FilterText
    decreases x, 2
  {
    match x
    case None => NoFilter
    case Some(e) => FilterText("FILTER", "WHERE", Written(e, OR_LEVEL))
  }

  function WrittenElse(x: Option<Expr>): ElseText
    decreases x, 2
  {
    match x
    case None => NoElse
    case Some(e) => ElseText("ELSE", Written(e, OR_LEVEL))
  }

  function WrittenWhens(whens: seq<WhenClause>): seq<WhenText>
    decreases whens, 2
  {
    if whens == [] then [] else [WrittenWhen(whens[0])] + WrittenWhens(whens[1..])
  }

  function WrittenWhen(w: WhenClause): WhenText
    decreases w, 2
  {
    WhenText("WHEN", Written(w.cond, OR_LEVEL), "THEN", Written(w.result, OR_LEVEL))
  }

  /** The tokens printed. */
  function Print(e: Expr, level: nat): seq<Token> {
    Yield(Written(e, level))
  }

  // ---- what is written is a text of the expression --------------------------------

  /** Keywords a written expression can start with. */
  predicate Opens(level: nat, t: Token) {
    t.Keyword? ==> t.word == TRUE || t.word == FALSE || t.word == NULL || t.word == CASE || IsTimeWord(t.word) || (t.word == NOT && level <= NOT_LEVEL)
  }

  lemma {:induction false} WrittenOpens(e: Expr, level: nat)
    requires Printable(e)
    ensures Yield(Written(e, level)) != [] && Opens(level, Yield(Written(e, level))[0])
    decreases e, 1
  {
    hide Printable, Bare, Opens, Tightness;
    BareOpens(e);
    if Tightness(e) >= level {
      OpensDown(Tightness(e), level, Yield(Bare(e))[0]);
    } else {
      ParenOpens(Bare(e), level);
    }
  }

  lemma ParenOpens(t: Text, level: nat)
    ensures Opens(level, Yield(Parens(t))[0])
  {}

  lemma OpensDown(high: nat, low: nat, t: Token)
    requires low <= high && Opens(high, t)
    ensures Opens(low, t)
  {}

  lemma {:induction false} BareOpens(e: Expr)
    requires Printable(e)
    ensures Yield(Bare(e)) != [] && Opens(Tightness(e), Yield(Bare(e))[0])
    decreases e, 0
  {
    hide Bare, Yield, Opens, Printable;
    if e.IsNull? || e.IsNotNull? || e.InList? || e.Between? {
      OperandOpens(e);
    } else if e.BinaryOp? || e.AnyComparison? || e.SomeComparison? || e.AtTimeZone? {
      LeftOpens(e);
    } else {
      OtherOpens(e);
    }
  }

  lemma {:induction false} OperandOpens(e: Expr)
    requires Printable(e) && (e.IsNull? || e.IsNotNull? || e.InList? || e.Between?)
    ensures Yield(Bare(e)) != [] && Opens(COMPARISON, Yield(Bare(e))[0])
    decreases e, 0, 0
  {
    hide Written, WrittenList, YieldList, Opens;
    WrittenOpens(e.operand, OPERAND);
    OpensDown(OPERAND, COMPARISON, Yield(Written(e.operand, OPERAND))[0]);
  }

  lemma {:induction false} LeftOpens(e: Expr)
    requires Printable(e) && (e.BinaryOp? || e.AnyComparison? || e.SomeComparison? || e.AtTimeZone?)
    ensures Yield(Bare(e)) != [] && Opens(Tightness(e), Yield(Bare(e))[0])
    decreases e, 0, 0
  {
    hide Written, Opens, OperatorWord;
    var x := if e.AtTimeZone? then e.operand else e.left;
    var level := if e.AtTimeZone? then PRIMARY else if e.BinaryOp? && Infix(e.op) then OperatorLevel(e.op) else OPERAND;
    WrittenOpens(x, level);
    OpensDown(level, Tightness(e), Yield(Written(x, level))[0]);
  }

  lemma OtherOpens(e: Expr)
    requires Printable(e) && Tightness(e) != COMPARISON && !e.BinaryOp? && !e.AtTimeZone?
    ensures Yield(Bare(e)) != [] && Opens(Tightness(e), Yield(Bare(e))[0])
  {
    hide Written, WrittenList, WrittenArguments, WrittenFilter, WrittenOptional, WrittenWhens, WrittenElse, TimeWord, Spelling;
    hide YieldList, YieldArguments, YieldFilter, YieldOptional, YieldWhens, YieldElse;
  }

  /** What is written stands for the expression, and may stand where it is written. */
  lemma {:induction false} WrittenFits(e: Expr, level: nat, closed: bool)
    requires Printable(e) && level <= PRIMARY && (closed ==> BIT_OR <= level)
    ensures Meaning(Written(e, level)) == e && Fits(Written(e, level), level, closed)
    decreases e, 1
  {
    hide Printable, Bare, Yield, Proper, Meaning;
    BareOpens(e);
    if Tightness(e) >= level {
      BareFits(e, closed);
    } else {
      BareFits(e, false);
      ParensFit(Bare(e), level, closed);
    }
  }

  lemma ParensFit(t: Text, level: nat, closed: bool)
    requires Proper(t, false) && level <= PRIMARY && Yield(t) != [] && !At(SELECT, Yield(t))
    requires NOT_LEVEL < Level(t) ==> !At(NOT, Yield(t))
    ensures Fits(Parens(t), level, closed) && Meaning(Parens(t)) == Meaning(t)
  {
    assert Fits(t, OR_LEVEL, false);
  }

  lemma {:induction false} BareFits(e: Expr, closed: bool)
    requires Printable(e) && (closed ==> BIT_OR <= Tightness(e))
    ensures Meaning(Bare(e)) == e && Proper(Bare(e), closed)
    ensures Level(Bare(e)) == if e.AtTimeZone? then POSTFIX else Tightness(e)
    decreases e, 0
  {
    hide Bare, Proper, Meaning, Printable;
    if e.BinaryOp? {
      BinaryFits(e, closed);
    } else if e.Function? {
      FunctionFits(e, closed);
    } else if e.Case? {
      CaseFits(e, closed);
    } else if Tightness(e) == COMPARISON {
      ComparisonWrittenFits(e);
    } else {
      OtherFits(e, closed);
    }
  }

  lemma {:induction false} BinaryFits(e: Expr, closed: bool)
    requires e.BinaryOp? && Printable(e) && (closed ==> BIT_OR <= Tightness(e))
    ensures Meaning(Bare(e)) == e && Proper(Bare(e), closed) && Level(Bare(e)) == Tightness(e)
    decreases e, 0, 0
  {
    hide Fits, Written, Yield;
    var (l, op, r) := (e.left, e.op, e.right);
    if Infix(op) {
      WrittenFits(l, OperatorLevel(op), BIT_OR <= OperatorLevel(op));
      WrittenFits(r, OperatorLevel(op) + 1, closed);
    } else {
      WrittenFits(l, OPERAND, false);
      WrittenFits(r, OPERAND, false);
      WrittenOpens(r, OPERAND);
    }
  }

  lemma {:induction false} ComparisonWrittenFits(e: Expr)
    requires Tightness(e) == COMPARISON && !e.BinaryOp? && Printable(e)
    ensures Meaning(Bare(e)) == e && Proper(Bare(e), false) && Level(Bare(e)) == COMPARISON
    decreases e, 0, 1
  {
    hide Bare, Proper, Meaning, Printable;
    if e.InList? {
      InListFits(e);
    } else if e.AnyComparison? || e.SomeComparison? {
      QuantifiedWrittenFits(e);
    } else {
      OperandFits(e);
    }
  }

  lemma {:induction false} OperandFits(e: Expr)
    requires (e.IsNull? || e.IsNotNull? || e.Between?) && Printable(e)
    ensures Meaning(Bare(e)) == e && Proper(Bare(e), false) && Level(Bare(e)) == COMPARISON
    decreases e, 0, 0
  {
    hide Fits, Written, Yield;
    WrittenFits(e.operand, OPERAND, false);
    if e.Between? {
      WrittenFits(e.low, OPERAND, false);
      WrittenFits(e.high, OPERAND, false);
    }
  }

  lemma {:induction false} InListFits(e: Expr)
    requires e.InList? && Printable(e)
    ensures Meaning(Bare(e)) == e && Proper(Bare(e), false) && Level(Bare(e)) == COMPARISON
    decreases e, 0, 0
  {
    hide Fits, Written, WrittenList, Meanings, ProperList, Yield, YieldList;
    WrittenFits(e.operand, OPERAND, false);
    ListFits(e.list);
    ListOpens(WrittenList(e.list));
  }

  lemma {:induction false} QuantifiedWrittenFits(e: Expr)
    requires (e.AnyComparison? || e.SomeComparison?) && Printable(e)
    ensures Meaning(Bare(e)) == e && Proper(Bare(e), false) && Level(Bare(e)) == COMPARISON
    decreases e, 0, 0
  {
    hide Fits, Written, Yield;
    WrittenFits(e.left, OPERAND, false);
    WrittenFits(e.right, PRIMARY, false);
  }

  lemma {:induction false} OtherFits(e: Expr, closed: bool)
    requires Tightness(e) != COMPARISON && !e.BinaryOp? && !e.Function? && !e.Case?
    requires Printable(e) && (closed ==> BIT_OR <= Tightness(e))
    ensures Meaning(Bare(e)) == e && Proper(Bare(e), closed)
    ensures Level(Bare(e)) == if e.AtTimeZone? then POSTFIX else Tightness(e)
    decreases e, 0, 1
  {
    hide Fits, Written, WrittenList, Meanings, ProperList, Yield;
    if e.UnaryOp? {
      WrittenFits(e.operand, if e.unary == Not then COMPARISON else POSTFIX, closed);
    } else if e.AtTimeZone? {
      ZoneWrittenFits(e);
    } else if e.Array? {
      ListFits(e.elements);
    }
  }

  lemma {:induction false} ZoneWrittenFits(e: Expr)
    requires e.AtTimeZone? && Printable(e)
    ensures Meaning(Bare(e)) == e && Proper(Bare(e), false) && Level(Bare(e)) == POSTFIX
    decreases e, 0, 0
  {
    hide Fits, Written, Yield, Proper, Meaning;
    WrittenFits(e.operand, PRIMARY, true);
    WrittenFits(e.zone, OPERAND, false);
    ZoneMeans(Bare(e));
  }

  lemma ZoneMeans(t: Text)
    requires t.ZoneText? && Fits(t.operand, PRIMARY, true) && Fits(t.zone, OPERAND, false)
    ensures Proper(t, false) && Meaning(t) == AtTimeZone(Meaning(t.operand), Meaning(t.zone))
  {
    hide Fits, Yield;
  }

  lemma {:induction false} ListFits(list: seq<Expr>)
    requires forall x :: x in list ==> Printable(x)
    ensures Meanings(WrittenList(list)) == list && (list != [] ==> ProperList(WrittenList(list)))
    ensures list != [] ==> WrittenList(list) != [] && Yield(WrittenList(list)[0]) != []
    ensures list != [] ==> Opens(OR_LEVEL, Yield(WrittenList(list)[0])[0])
    decreases list, 2
  {
    hide Fits, Written, Yield, Opens;
    if list != [] {
      WrittenFits(list[0], OR_LEVEL, false);
      WrittenOpens(list[0], OR_LEVEL);
      ListFits(list[1..]);
      assert WrittenList(list)[1..] == WrittenList(list[1..]);
    }
  }

  lemma ListOpens(items: seq<Text>)
    requires items != [] && Yield(items[0]) != []
    ensures YieldList(items) != [] && YieldList(items)[0] == Yield(items[0])[0]
  {
    hide Yield;
  }

  lemma {:induction false} FunctionFits(e: Expr, closed: bool)
    requires e.Function? && Printable(e)
    ensures Meaning(Bare(e)) == e && Proper(Bare(e), closed) && Level(Bare(e)) == PRIMARY
    decreases e, 0, 0
  {
    hide Fits, Written, WrittenList, Meanings, ProperList, Yield, YieldList;
    if e.arguments == ExprArgs([]) {
      NameFits(e.functionName, closed);
    } else {
      if e.arguments.ExprArgs? {
        ListFits(e.arguments.args);
        ListOpens(WrittenList(e.arguments.args));
      }
      if e.filter.Some? {
        WrittenFits(e.filter.value, OR_LEVEL, false);
      }
    }
  }

  lemma NameFits(name: string, closed: bool)
    requires TimeWord(name).Some?
    ensures Meaning(WrittenName(name)) == Function(name, ExprArgs([]), None)
    ensures Proper(WrittenName(name), closed) && Level(WrittenName(name)) == PRIMARY
  {
    var word := TimeWord(name).value;
    hide TimeWord;
  }

  lemma {:induction false} OptionalFits(x: Option<Expr>)
    requires x.Some? ==> Printable(x.value)
    ensures MeaningOfOptional(WrittenOptional(x)) == x
    ensures x.Some? ==> WrittenOptional(x).Some? && Fits(WrittenOptional(x).value, OR_LEVEL, false)
    ensures x.Some? ==> !At(WHEN, Yield(WrittenOptional(x).value))
    decreases x, 2
  {
    hide Fits, Yield, Meaning, Printable;
    if x.Some? {
      WrittenFits(x.value, OR_LEVEL, false);
      WrittenOpens(x.value, OR_LEVEL);
    }
  }

  lemma {:induction false} ElseFits(x: Option<Expr>)
    requires x.Some? ==> Printable(x.value)
    ensures MeaningOfElse(WrittenElse(x)) == x
    ensures x.Some? ==> WrittenElse(x).ElseText? && Fits(WrittenElse(x).result, OR_LEVEL, false)
    decreases x, 2
  {
    hide Fits, Yield, Meaning, Printable;
    if x.Some? {
      WrittenFits(x.value, OR_LEVEL, false);
    }
  }

  lemma {:induction false} CaseFits(e: Expr, closed: bool)
    requires e.Case? && Printable(e)
    ensures Meaning(Bare(e)) == e && Proper(Bare(e), closed) && Level(Bare(e)) == PRIMARY
    decreases e, 0, 0
  {
    hide Fits, Yield, WrittenOptional, WrittenElse, WrittenWhens, MeaningOfOptional, MeaningOfElse, MeaningOfWhens;
    OptionalFits(e.scrutinee);
    WhensFit(e.whens);
    ElseFits(e.otherwise);
    NoScrutinee(e.scrutinee);
    NoElseWritten(e.otherwise);
    ProperCase(Bare(e));
  }

  lemma NoScrutinee(x: Option<Expr>)
    ensures WrittenOptional(x).None? <==> x.None?
  {}

  lemma NoElseWritten(x: Option<Expr>)
    ensures WrittenElse(x).NoElse? <==> x.None?
  {}

  lemma {:induction false} WhenFits(w: WhenClause)
    requires Printable(w.cond) && Printable(w.result)
    ensures Fits(WrittenWhen(w).cond, OR_LEVEL, false) && Fits(WrittenWhen(w).result, OR_LEVEL, false)
    ensures WhenClause(Meaning(WrittenWhen(w).cond), Meaning(WrittenWhen(w).result)) == w
    decreases w, 2
  {
    hide Fits, Written, Meaning, Printable;
    WrittenFits(w.cond, OR_LEVEL, false);
    WrittenFits(w.result, OR_LEVEL, false);
  }

  lemma {:induction false} WhensFit(whens: seq<WhenClause>)
    requires forall w :: w in whens ==> Printable(w.cond) && Printable(w.result)
    ensures MeaningOfWhens(WrittenWhens(whens)) == whens && ProperWhens(WrittenWhens(whens))
    ensures whens != [] ==> WrittenWhens(whens) != []
    decreases whens, 2
  {
    hide Fits, Written, Yield, Meaning, Printable;
    if whens != [] {
      WhenFits(whens[0]);
      WhensFit(whens[1..]);
      assert WrittenWhens(whens)[1..] == WrittenWhens(whens[1..]);
    }
  }

  /** Whatever a text stands for can be written down. */
  lemma {:induction false} MeaningPrintable(t: Text, closed: bool)
    requires Proper(t, closed)
    ensures Printable(Meaning(t))
    decreases t, 1
  {
    hide Yield, Printable, Meaning, Proper;
    if t.InfixText? {
      InfixPrintable(t, closed);
    } else if t.CallText? {
      CallPrintable(t, closed);
    } else if t.CaseText? {
      CasePrintable(t, closed);
    } else if Level(t) < PRIMARY {
      OperationPrintable(t, closed);
    } else {
      PrimaryPrintable(t, closed);
    }
  }

  lemma {:induction false} PrimaryPrintable(t: Text, closed: bool)
    requires Proper(t, closed) && Level(t) >= PRIMARY && !t.InfixText? && !t.CallText? && !t.CaseText?
    ensures Printable(Meaning(t))
    decreases t, 0, 1
  {
    hide Yield, EqIgnoreAsciiCase, TimeWord, Fits, ProperList, Meanings, AtomMeaning, IsAtom, IsName;
    if t.Atom? {
      AtomPrintable(t.token);
    } else if t.NowText? {
      TimePrintable(NOW);
    } else if t.Parens? {
      FitsProper(t.inner, OR_LEVEL, false);
      MeaningPrintable(t.inner, false);
    } else if t.Brackets? || t.ArrayText? {
      ArrayPrintable(t);
    }
  }

  lemma {:induction false} ArrayPrintable(t: Text)
    requires (t.Brackets? || t.ArrayText?) && ProperList(t.items)
    ensures Printable(Meaning(t))
    decreases t, 0, 0
  {
    hide Yield, ProperList, Meanings;
    ListPrintable(t.items);
  }

  lemma {:induction false} OperationPrintable(t: Text, closed: bool)
    requires Proper(t, closed) && Level(t) < PRIMARY && !t.InfixText?
    ensures Printable(Meaning(t))
    decreases t, 0
  {
    hide Yield, Fits, ProperList, Meanings;
    match t {
      case PrefixText(unary, _, operand) =>
        FitsProper(operand, if unary == Not then COMPARISON else POSTFIX, closed);
        MeaningPrintable(operand, closed);
      case QuantifiedText(left, _, _, _, right) =>
        FitsProper(right, PRIMARY, closed);
        OperandPrintable(left);
        MeaningPrintable(right, closed);
      case NullText(operand, _, _, _) => OperandPrintable(operand);
      case InText(left, _, items) =>
        OperandPrintable(left);
        ListPrintable(items);
      case BetweenText(operand, _, low, _, high) =>
        FitsProper(high, OPERAND, closed);
        OperandPrintable(operand);
        OperandPrintable(low);
        MeaningPrintable(high, closed);
      case ZoneText(operand, _, _, _, zone) =>
        FitsProper(operand, PRIMARY, true);
        MeaningPrintable(operand, true);
        OperandPrintable(zone);
    }
  }

  lemma {:induction false} OperandPrintable(t: Text)
    requires Fits(t, OPERAND, false)
    ensures Printable(Meaning(t))
    decreases t, 2
  {
    hide Yield, Printable, Meaning, Proper;
    MeaningPrintable(t, false);
  }

  lemma {:induction false} InfixPrintable(t: Text, closed: bool)
    requires t.InfixText? && Proper(t, closed)
    ensures Printable(Meaning(t))
    decreases t, 0
  {
    hide Yield, Fits;
    var (level, closes) := if Infix(t.op) then (OperatorLevel(t.op), BIT_OR <= OperatorLevel(t.op)) else (OPERAND, false);
    FitsProper(t.left, level, closes);
    FitsProper(t.right, if Infix(t.op) then level + 1 else OPERAND, closed);
    MeaningPrintable(t.left, closes);
    MeaningPrintable(t.right, closed);
  }

  lemma {:induction false} CallPrintable(t: Text, closed: bool)
    requires t.CallText? && Proper(t, closed)
    ensures Printable(Meaning(t))
    decreases t, 0
  {
    hide Yield, Fits, TimeWord, Meanings, ProperList;
    if t.arguments.ListText? {
      ListPrintable(t.arguments.items);
    }
    if t.filter.FilterText? {
      FitsProper(t.filter.cond, OR_LEVEL, false);
      MeaningPrintable(t.filter.cond, false);
    }
  }

  lemma {:induction false} CasePrintable(t: Text, closed: bool)
    requires t.CaseText? && Proper(t, closed)
    ensures Printable(Meaning(t))
    decreases t, 0
  {
    hide Yield, Fits, MeaningOfWhens;
    if t.scrutinee.Some? {
      FitsProper(t.scrutinee.value, OR_LEVEL, false);
      MeaningPrintable(t.scrutinee.value, false);
    }
    WhensPrintable(t.whens);
    if t.otherwise.ElseText? {
      FitsProper(t.otherwise.result, OR_LEVEL, false);
      MeaningPrintable(t.otherwise.result, false);
    }
  }

  lemma TimePrintable(w: Word)
    requires IsTimeWord(w)
    ensures Printable(Function(Spelling(w), ExprArgs([]), None))
  {}

  lemma AtomPrintable(token: Token)
    requires IsAtom(token)
    ensures Printable(AtomMeaning(token))
  {
    if token.Keyword? && IsTimeWord(token.word) {
      TimePrintable(token.word);
    }
  }

  lemma {:induction false} ListPrintable(items: seq<Text>)
    requires ProperList(items)
    ensures Meanings(items) != [] && forall y :: y in Meanings(items) ==> Printable(y)
    decreases items, 1
  {
    hide Printable, Yield, Meaning, Proper;
    assert items[0] in items;
    MeaningPrintable(items[0], false);
    if items[1..] != [] {
      ListPrintable(items[1..]);
    }
  }

  lemma {:induction false} WhensPrintable(whens: seq<WhenText>)
    requires ProperWhens(whens)
    ensures |MeaningOfWhens(whens)| == |whens|
    ensures forall w :: w in MeaningOfWhens(whens) ==> Printable(w.cond) && Printable(w.result)
    decreases whens, 1
  {
    hide Fits, Printable, Yield, Meaning;
    if whens != [] {
      var w := whens[0];
      FitsProper(w.cond, OR_LEVEL, false);
      FitsProper(w.result, OR_LEVEL, false);
      MeaningPrintable(w.cond, false);
      MeaningPrintable(w.result, false);
      WhensPrintable(whens[1..]);
    }
  }

  // ---- the theorems ---------------------------------------------------------

  lemma PrintDenotes(e: Expr)
    requires Printable(e)
    ensures Denotes(Print(e, OR_LEVEL), e)
  {
    hide Written, Printable, Yield, Fits, Meaning;
    WrittenFits(e, OR_LEVEL, false);
  }

  /** `parse_expr` undoes the printer before any follower that cannot continue an expression. */
  lemma ParseUndoesPrint(e: Expr, rest: seq<Token>)
    requires Printable(e) && Follows(OR_LEVEL, rest)
    ensures ParseExpr(Print(e, OR_LEVEL) + rest) == Ok(e, rest)
  {
    hide ParseExpr, Print, Denotes, Printable, Follows;
    PrintDenotes(e);
    ParseUndoesWriting(Print(e, OR_LEVEL), e, rest);
  }

  /** Two expressions that print alike are the same expression. */
  lemma PrintInjective(e: Expr, f: Expr)
    requires Printable(e) && Printable(f) && Print(e, OR_LEVEL) == Print(f, OR_LEVEL)
    ensures e == f
  {
    hide ParseExpr, Print, Printable, Denotes;
    PrintDenotes(e);
    PrintDenotes(f);
    TextsAreUnambiguous(Print(e, OR_LEVEL), e, f);
  }

  ghost predicate Parses(ts: seq<Token>, e: Expr) {
    ParseExpr(ts).Ok? && ParseExpr(ts).value == e
  }

  /** The printable expressions are exactly those some text parses to. */
  lemma PrintableIffParsed(e: Expr)
    ensures Printable(e) <==> exists ts :: Parses(ts, e)
  {
    hide Printable, Print, ParseExpr, Denotes;
    if Printable(e) {
      ParseUndoesPrint(e, [Eof]);
      assert Parses(Print(e, OR_LEVEL) + [Eof], e);
    }
    forall ts | Parses(ts, e)
      ensures Printable(e)
    {
      ParsedIsPrintable(ts);
    }
  }

  lemma ParsedIsPrintable(ts: seq<Token>)
    requires ParseExpr(ts).Ok?
    ensures Printable(ParseExpr(ts).value)
  {
    hide Printable, ParseExpr, Yield, Meaning, Proper;
    ParsedIsText(ts);
    var e := ParseExpr(ts).value;
    var c :| c + ParseExpr(ts).rest == ts && Denotes(c, e);
    var t :| Yield(t) == c && Meaning(t) == e && Fits(t, OR_LEVEL, false);
    MeaningPrintable(t, false);
  }

  /** Whatever text is accepted, the printed form of its expression parses to the same expression. */
  lemma ReprintIsSame(ts: seq<Token>, rest: seq<Token>)
    requires ParseExpr(ts).Ok? && Follows(OR_LEVEL, rest)
    ensures ParseExpr(Print(ParseExpr(ts).value, OR_LEVEL) + rest) == Ok(ParseExpr(ts).value, rest)
  {
    hide Printable, Print, ParseExpr, Follows;
    ParsedIsPrintable(ts);
    ParseUndoesPrint(ParseExpr(ts).value, rest);
  }
}
