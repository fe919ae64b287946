/** The fragment of SQL the search queries use: tokens, a parser with SQL's precedence, and its meaning. */
module Sql {
  import opened Text
  import opened Tables
  import opened SqlLike

  /** Columns of `entries e` and of the inner `attributes a`. */
  datatype Column =
    | EntryId | EntryDn | EntryParentDn | EntryObjectClass | EntryCreatedAt | EntryUpdatedAt
    | AttrEntryId | AttrName | AttrValue

  datatype Token =
    | LeftParen | RightParen | KwAnd | KwOr | KwNot
    | ExistsSelect               // EXISTS, whose parenthesis opens SELECT 1 FROM attributes a WHERE
    | Equals | NotEquals | AtLeast | AtMost
    | IsNotNull                  // IS NOT NULL
    | LikeEscape                 // LIKE ... ESCAPE '\'
    | Col(column: Column)
    | LowerCol(column: Column)   // LOWER(column)
    | Number(value: int)
    | Quoted(text: string)
    | Param                      // ?
    | LowerParam                 // LOWER(?)

  datatype Value = IntValue(n: int) | TextValue(s: string)

  datatype Operand =
    | ColumnOperand(column: Column, lowered: bool)
    | Literal(literal: Value)
    | ParamOperand(index: nat, lowered: bool)

  datatype CompareOp = OpEquals | OpNotEquals | OpAtLeast | OpAtMost | OpLike

  datatype Expr =
    | AndExpr(left: Expr, right: Expr)
    | OrExpr(left: Expr, right: Expr)
    | NotExpr(inner: Expr)
    | ExistsExpr(inner: Expr)
    | NotNullExpr(operand: Operand)
    | CompareExpr(op: CompareOp, lhs: Operand, rhs: Operand)

  // ---- Parsing: comparison over NOT over AND over OR; the n-th ? is parameter n ----

  datatype Parsed = NoParse | Parsed(expr: Expr, rest: seq<Token>, params: nat)

  function ParseOr(ts: seq<Token>, params: nat): (r: Parsed)
    ensures r.Parsed? ==> |r.rest| < |ts|
    decreases |ts|, 3
  {
    match ParseAnd(ts, params)
    case NoParse => NoParse
    case Parsed(left, rest, n) =>
      if rest != [] && rest[0] == KwOr then
        match ParseOr(rest[1..], n)
        case NoParse => NoParse
        case Parsed(right, rest', n') => Parsed(OrExpr(left, right), rest', n')
      else Parsed(left, rest, n)
  }

  function ParseAnd(ts: seq<Token>, params: nat): (r: Parsed)
    ensures r.Parsed? ==> |r.rest| < |ts|
    decreases |ts|, 2
  {
    match ParseNot(ts, params)
    case NoParse => NoParse
    case Parsed(left, rest, n) =>
      if rest != [] && rest[0] == KwAnd then
        match ParseAnd(rest[1..], n)
        case NoParse => NoParse
        case Parsed(right, rest', n') => Parsed(AndExpr(left, right), rest', n')
      else Parsed(left, rest, n)
  }

  function ParseNot(ts: seq<Token>, params: nat): (r: Parsed)
    ensures r.Parsed? ==> |r.rest| < |ts|
    decreases |ts|, 1
  {
    if ts != [] && ts[0] == KwNot then
      match ParseNot(ts[1..], params)
      case NoParse => NoParse
      case Parsed(inner, rest, n) => Parsed(NotExpr(inner), rest, n)
    else ParsePrimary(ts, params)
  }

  function ParsePrimary(ts: seq<Token>, params: nat): (r: Parsed)
    ensures r.Parsed? ==> |r.rest| < |ts|
    decreases |ts|, 0
  {
    if ts == [] then NoParse
    else if ts[0] == LeftParen then
      match ParseOr(ts[1..], params)
      case NoParse => NoParse
      case Parsed(inner, rest, n) =>
        if rest != [] && rest[0] == RightParen then Parsed(inner, rest[1..], n) else NoParse
    else if ts[0] == ExistsSelect then
      match ParseOr(ts[1..], params)
      case NoParse => NoParse
      case Parsed(inner, rest, n) =>
        if rest != [] && rest[0] == RightParen then Parsed(ExistsExpr(inner), rest[1..], n) else NoParse
    else ParseComparison(ts, params)
  }

  predicate IsOperand(t: Token) {
    t.Col? || t.LowerCol? || t.Number? || t.Quoted? || t.Param? || t.LowerParam?
  }

  predicate IsParam(t: Token) {
    t.Param? || t.LowerParam?
  }

  function OperandOf(t: Token, params: nat): Operand
    requires IsOperand(t)
  {
    match t
    case Col(c) => ColumnOperand(c, false)
    case LowerCol(c) => ColumnOperand(c, true)
    case Number(n) => Literal(IntValue(n))
    case Quoted(s) => Literal(TextValue(s))
    case Param => ParamOperand(params, false)
    case LowerParam => ParamOperand(params, true)
  }

  predicate IsCompareOp(t: Token) {
    t.Equals? || t.NotEquals? || t.AtLeast? || t.AtMost? || t.LikeEscape?
  }

  function CompareOpOf(t: Token): CompareOp
    requires IsCompareOp(t)
  {
    match t
    case Equals => OpEquals
    case NotEquals => OpNotEquals
    case AtLeast => OpAtLeast
    case AtMost => OpAtMost
    case LikeEscape => OpLike
  }

  function ParamCount(t: Token): nat {
    if IsParam(t) then 1 else 0
  }

  function ParseComparison(ts: seq<Token>, params: nat): (r: Parsed)
    ensures r.Parsed? ==> |r.rest| < |ts|
  {
    if |ts| < 2 || !IsOperand(ts[0]) then NoParse
    else
      var n := params + ParamCount(ts[0]);
      if ts[1].IsNotNull? then Parsed(NotNullExpr(OperandOf(ts[0], params)), ts[2..], n)
      else if |ts| < 3 || !IsCompareOp(ts[1]) || !IsOperand(ts[2]) then NoParse
      else Parsed(CompareExpr(CompareOpOf(ts[1]), OperandOf(ts[0], params), OperandOf(ts[2], n)),
                  ts[3..], n + ParamCount(ts[2]))
  }

  // ---- Meaning ----

  /** A stored time as the database's text `YYYY-MM-DD HH:MM:SS`. */
  function SqlDateTime(t: Timestamp): string {
    if |t| != 14 then t
    else t[0..4] + "-" + (t[4..6] + "-" + (t[6..8] + " " + (t[8..10] + ":" + (t[10..12] + ":" + t[12..14]))))
  }

  /** The row of `e` and, inside EXISTS, the row of `a`. */
  datatype Scope = Scope(e: EntryRow, a: AttrRow)

  const NO_ATTR := AttrRow(0, "", "")

  function ColumnValue(c: Column, s: Scope): Value {
    match c
    case EntryId => IntValue(s.e.id)
    case EntryDn => TextValue(s.e.dn)
    case EntryParentDn => TextValue(s.e.parentDn)
    case EntryObjectClass => TextValue(s.e.objectClass)
    case EntryCreatedAt => TextValue(SqlDateTime(s.e.createdAt))
    case EntryUpdatedAt => TextValue(SqlDateTime(s.e.updatedAt))
    case AttrEntryId => IntValue(s.a.entryId)
    case AttrName => TextValue(s.a.name)
    case AttrValue => TextValue(s.a.value)
  }

  function LowerValue(v: Value, lowered: bool): Value {
    if lowered && v.TextValue? then TextValue(Lower(v.s)) else v
  }

  function OperandValue(o: Operand, s: Scope, args: seq<string>): Value {
    match o
    case ColumnOperand(c, lowered) => LowerValue(ColumnValue(c, s), lowered)
    case Literal(v) => v
    case ParamOperand(i, lowered) => LowerValue(TextValue(if i < |args| then args[i] else ""), lowered)
  }

  predicate Compare(op: CompareOp, l: Value, r: Value) {
    match op
    case OpEquals => l == r
    case OpNotEquals => l != r
    case OpAtLeast => l.TextValue? && r.TextValue? && StringLe(r.s, l.s)
    case OpAtMost => l.TextValue? && r.TextValue? && StringLe(l.s, r.s)
    case OpLike => l.TextValue? && r.TextValue? && Like(r.s, l.s)
  }

  /** Rows hold no NULL, so two truth values are enough. */
  predicate Eval(x: Expr, s: Scope, attributes: seq<AttrRow>, args: seq<string>) {
    match x
    case AndExpr(l, r) => Eval(l, s, attributes, args) && Eval(r, s, attributes, args)
    case OrExpr(l, r) => Eval(l, s, attributes, args) || Eval(r, s, attributes, args)
    case NotExpr(y) => !Eval(y, s, attributes, args)
    case ExistsExpr(y) => exists a :: a in attributes && Eval(y, Scope(s.e, a), attributes, args)
    case NotNullExpr(_) => true
    case CompareExpr(op, l, r) => Compare(op, OperandValue(l, s, args), OperandValue(r, s, args))
  }

  /** How many ? stand in a text. */
  function CountParams(ts: seq<Token>): nat {
    if ts == [] then 0 else ParamCount(ts[0]) + CountParams(ts[1..])
  }

  lemma {:induction false} CountParamsConcat(a: seq<Token>, b: seq<Token>)
    ensures CountParams(a + b) == CountParams(a) + CountParams(b)
  {
    if a == [] {
      assert a + b == b;
    } else {
      assert (a + b)[1..] == a[1..] + b;
      CountParamsConcat(a[1..], b);
    }
  }

  /** A time is stored as YYYY-MM-DD hh:mm:ss. */
  lemma SqlDateTimeShape(t: Timestamp)
    requires |t| == 14
    ensures var s := SqlDateTime(t);
      && |s| == 19 && s[4] == '-' && s[7] == '-' && s[10] == ' ' && s[13] == ':' && s[16] == ':'
      && s[0..4] == t[0..4] && s[5..7] == t[4..6] && s[8..10] == t[6..8]
      && s[11..13] == t[8..10] && s[14..16] == t[10..12] && s[17..19] == t[12..14]
  {
  }
}
