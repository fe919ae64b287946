/** Compilation of LDAP filters to SQL WHERE clauses. */
module SqlCompiler {
  import opened Text
  import opened Filters
  import opened Sql
  import SqlLike

  datatype Compiled = Compiled(clause: seq<Token>, args: seq<string>) | Rejected

  predicate IsComputedAttribute(attribute: string) {
    Lower(attribute) == "memberof"
  }

  predicate CanCompileToSql(f: Filter) {
    match f
    case Equality(attribute, _) => !IsComputedAttribute(attribute)
    case Present(attribute) => !IsComputedAttribute(attribute)
    case Substrings(attribute, value) => !IsComputedAttribute(attribute) && '*' in value
    case GreaterOrEqual(attribute, _) => IsTimestampAttribute(attribute)
    case LessOrEqual(attribute, _) => IsTimestampAttribute(attribute)
    case And(filters) => forall g :: g in filters ==> CanCompileToSql(g)
    case Or(filters) => forall g :: g in filters ==> CanCompileToSql(g)
    case Not(filters) => |filters| == 1 && CanCompileToSql(filters[0])
    case Approx(_, _) => false
  }

  // ---- Leaves ----

  /** EXISTS (SELECT 1 FROM attributes a WHERE a.entry_id = e.id AND LOWER(a.name) = LOWER(?) ...) */
  const ATTRIBUTE_EXISTS: seq<Token> :=
    [ExistsSelect, Col(AttrEntryId), Equals, Col(EntryId), KwAnd, LowerCol(AttrName), Equals, LowerParam]

  function CompileEquality(attribute: string, value: string): Compiled {
    if Lower(attribute) == "objectclass" then
      Compiled([LowerCol(EntryObjectClass), Equals, LowerParam], [value])
    else
      Compiled(ATTRIBUTE_EXISTS + [KwAnd, LowerCol(AttrValue), Equals, LowerParam, RightParen], [attribute, value])
  }

  function CompilePresent(attribute: string): Compiled {
    if Lower(attribute) == "objectclass" then
      Compiled([Col(EntryObjectClass), IsNotNull, KwAnd, Col(EntryObjectClass), NotEquals, Quoted("")], [])
    else
      Compiled(ATTRIBUTE_EXISTS + [RightParen], [attribute])
  }

  function CompileSubstring(attribute: string, value: string): Compiled {
    if Lower(attribute) == "objectclass" then Rejected
    else
      Compiled(ATTRIBUTE_EXISTS + [KwAnd, LowerCol(AttrValue), LikeEscape, LowerParam, RightParen],
               [attribute, SqlLike.ToLike(value)])
  }

  /** convertLDAPTimestampToSQLite: only 14 characters after the zone letter is gone. */
  function CompileTimestamp(attribute: string, value: string, op: Token): Compiled {
    if |StripZone(value)| != 14 then Rejected
    else if Lower(attribute) == "createtimestamp" then
      Compiled([Col(EntryCreatedAt), op, Param], [SqlDateTime(StripZone(value))])
    else if Lower(attribute) == "modifytimestamp" then
      Compiled([Col(EntryUpdatedAt), op, Param], [SqlDateTime(StripZone(value))])
    else Rejected
  }

  // ---- Trees ----

  function CompileToSql(f: Filter): Compiled
    decreases f, 1
  {
    match f
    case And(filters) =>
      if filters == [] then Compiled([Number(1), Equals, Number(1)], []) else CompileJoined(filters, KwAnd)
    case Or(filters) =>
      if filters == [] then Compiled([Number(1), Equals, Number(0)], []) else CompileJoined(filters, KwOr)
    case Not(filters) =>
      if |filters| != 1 then Rejected
      else
        (match CompileToSql(filters[0])
         case Rejected => Rejected
         case Compiled(clause, args) => Compiled([KwNot, LeftParen] + clause + [RightParen], args))
    case Equality(attribute, value) => CompileEquality(attribute, value)
    case Present(attribute) => CompilePresent(attribute)
    case Substrings(attribute, value) => CompileSubstring(attribute, value)
    case GreaterOrEqual(attribute, value) => CompileTimestamp(attribute, value, AtLeast)
    case LessOrEqual(attribute, value) => CompileTimestamp(attribute, value, AtMost)
    case Approx(_, _) => Rejected
  }

  /** `(c1) joiner (c2) joiner ... (cn)` */
  function CompileJoined(filters: seq<Filter>, joiner: Token): Compiled
    requires filters != []
    decreases filters, 0
  {
    match CompileToSql(filters[0])
    case Rejected => Rejected
    case Compiled(clause, args) =>
      var group := [LeftParen] + clause + [RightParen];
      if |filters| == 1 then Compiled(group, args)
      else
        match CompileJoined(filters[1..], joiner)
        case Rejected => Rejected
        case Compiled(more, moreArgs) => Compiled(group + [joiner] + more, args + moreArgs)
  }

  /** strings.Join on clauses */
  function Join(clauses: seq<seq<Token>>, joiner: Token): seq<Token> {
    if clauses == [] then []
    else if |clauses| == 1 then clauses[0]
    else clauses[0] + [joiner] + Join(clauses[1..], joiner)
  }

  /** The clauses of a prefix, and then what is still to come, make up the whole. */
  ghost predicate JoinsTo(clauses: seq<seq<Token>>, args: seq<string>, rest: seq<Filter>, joiner: Token, whole: Compiled) {
    if rest == [] then whole == Compiled(Join(clauses, joiner), args)
    else match CompileJoined(rest, joiner)
      case Rejected => whole == Rejected
      case Compiled(more, moreArgs) => whole == Compiled(Join(clauses + [more], joiner), args + moreArgs)
  }

  lemma {:induction false} JoinExtend(clauses: seq<seq<Token>>, c: seq<Token>, more: seq<Token>, joiner: Token)
    ensures Join(clauses + [c, more], joiner) == Join(clauses + [c + [joiner] + more], joiner)
  {
    if clauses != [] {
      var a, b := clauses + [c, more], clauses + [c + [joiner] + more];
      assert a[1..] == clauses[1..] + [c, more] && b[1..] == clauses[1..] + [c + [joiner] + more];
      JoinExtend(clauses[1..], c, more, joiner);
    } else {
      assert [c, more][1..] == [more];
    }
  }

  /** One more clause: what is joined to the rest stays the whole. */
  lemma JoinsStep(clauses: seq<seq<Token>>, args: seq<string>, rest: seq<Filter>, joiner: Token, whole: Compiled)
    requires rest != [] && JoinsTo(clauses, args, rest, joiner, whole)
    ensures match CompileToSql(rest[0])
      case Rejected => whole == Rejected
      case Compiled(clause, more) =>
        JoinsTo(clauses + [[LeftParen] + clause + [RightParen]], args + more, rest[1..], joiner, whole)
  {
    hide Join, CompileToSql;
    var c := CompileToSql(rest[0]);
    if c.Compiled? && |rest| > 1 {
      var group, next := [LeftParen] + c.clause + [RightParen], CompileJoined(rest[1..], joiner);
      if next.Compiled? {
        JoinExtend(clauses, group, next.clause, joiner);
        assert clauses + [group, next.clause] == (clauses + [group]) + [next.clause];
        assert args + (c.args + next.args) == (args + c.args) + next.args;
      }
    }
  }

  lemma JoinsStart(filters: seq<Filter>, joiner: Token)
    requires filters != []
    ensures JoinsTo([], [], filters, joiner, CompileJoined(filters, joiner))
  {
    hide CompileJoined;
    var whole := CompileJoined(filters, joiner);
    if whole.Compiled? {
      assert [] + [whole.clause] == [whole.clause];
      assert [] + whole.args == whole.args;
    }
  }

  method CompileMany(filters: seq<Filter>, joiner: Token) returns (r: Compiled)
    requires filters != []
    ensures r == CompileJoined(filters, joiner)
    decreases filters, 0
  {
    hide CompileToSql, JoinsTo, Join;
    var clauses, allArgs := [], [];
    ghost var whole := CompileJoined(filters, joiner);
    assert filters[0..] == filters;
    JoinsStart(filters, joiner);
    for i := 0 to |filters|
      invariant JoinsTo(clauses, allArgs, filters[i..], joiner, whole)
    {
      assert filters[i..][0] == filters[i] && filters[i..][1..] == filters[i + 1..];
      JoinsStep(clauses, allArgs, filters[i..], joiner, whole);
      var c := CompileFilter(filters[i]);
      if c.Rejected? {
        return Rejected;
      }
      clauses := clauses + [[LeftParen] + c.clause + [RightParen]];
      allArgs := allArgs + c.args;
    }
    assert filters[|filters|..] == [];
    JoinsEnd(clauses, allArgs, joiner, whole);
    r := Compiled(Join(clauses, joiner), allArgs);
  }

  lemma JoinsEnd(clauses: seq<seq<Token>>, args: seq<string>, joiner: Token, whole: Compiled)
    requires JoinsTo(clauses, args, [], joiner, whole)
    ensures whole == Compiled(Join(clauses, joiner), args)
  {
  }

  /** FilterCompiler.CompileToSQL with its loops over sub-filters. */
  method CompileFilter(f: Filter) returns (r: Compiled)
    ensures r == CompileToSql(f)
    decreases f, 1
  {
    match f
    case And(filters) =>
      if filters == [] {
        return Compiled([Number(1), Equals, Number(1)], []);
      }
      r := CompileMany(filters, KwAnd);
    case Or(filters) =>
      if filters == [] {
        return Compiled([Number(1), Equals, Number(0)], []);
      }
      r := CompileMany(filters, KwOr);
    case Not(filters) =>
      if |filters| != 1 {
        return Rejected;
      }
      var inner := CompileFilter(filters[0]);
      if inner.Rejected? {
        return Rejected;
      }
      r := Compiled([KwNot, LeftParen] + inner.clause + [RightParen], inner.args);
    case Equality(attribute, value) => r := CompileEquality(attribute, value);
    case Present(attribute) => r := CompilePresent(attribute);
    case Substrings(attribute, value) => r := CompileSubstring(attribute, value);
    case GreaterOrEqual(attribute, value) => r := CompileTimestamp(attribute, value, AtLeast);
    case LessOrEqual(attribute, value) => r := CompileTimestamp(attribute, value, AtMost);
    case Approx(_, _) => r := Rejected;
  }

  // ---- The expression a clause is meant to be; parameters start at index k ----

  const OF_ENTRY := CompareExpr(OpEquals, ColumnOperand(AttrEntryId, false), ColumnOperand(EntryId, false))

  function NameIs(k: nat): Expr {
    CompareExpr(OpEquals, ColumnOperand(AttrName, true), ParamOperand(k, true))
  }

  function Intended(f: Filter, k: nat): Expr
    decreases f, 1
  {
    match f
    case And(filters) =>
      if filters == [] then CompareExpr(OpEquals, Operand.Literal(IntValue(1)), Operand.Literal(IntValue(1)))
      else IntendedJoined(filters, KwAnd, k)
    case Or(filters) =>
      if filters == [] then CompareExpr(OpEquals, Operand.Literal(IntValue(1)), Operand.Literal(IntValue(0)))
      else IntendedJoined(filters, KwOr, k)
    case Not(filters) => if filters == [] then NotExpr(OF_ENTRY) else NotExpr(Intended(filters[0], k))
    case Equality(attribute, value) =>
      if Lower(attribute) == "objectclass" then
        CompareExpr(OpEquals, ColumnOperand(EntryObjectClass, true), ParamOperand(k, true))
      else
        ExistsExpr(AndExpr(OF_ENTRY, AndExpr(NameIs(k),
          CompareExpr(OpEquals, ColumnOperand(AttrValue, true), ParamOperand(k + 1, true)))))
    case Present(attribute) =>
      if Lower(attribute) == "objectclass" then
        AndExpr(NotNullExpr(ColumnOperand(EntryObjectClass, false)),
                CompareExpr(OpNotEquals, ColumnOperand(EntryObjectClass, false), Operand.Literal(TextValue(""))))
      else ExistsExpr(AndExpr(OF_ENTRY, NameIs(k)))
    case Substrings(attribute, value) =>
      ExistsExpr(AndExpr(OF_ENTRY, AndExpr(NameIs(k),
        CompareExpr(OpLike, ColumnOperand(AttrValue, true), ParamOperand(k + 1, true)))))
    case GreaterOrEqual(attribute, value) => CompareExpr(OpAtLeast, TimestampColumn(attribute), ParamOperand(k, false))
    case LessOrEqual(attribute, value) => CompareExpr(OpAtMost, TimestampColumn(attribute), ParamOperand(k, false))
    case Approx(_, _) => OF_ENTRY
  }

  function TimestampColumn(attribute: string): Operand {
    ColumnOperand(if Lower(attribute) == "createtimestamp" then EntryCreatedAt else EntryUpdatedAt, false)
  }

  function ArgCount(f: Filter): nat {
    match CompileToSql(f)
    case Rejected => 0
    case Compiled(_, args) => |args|
  }

  function IntendedJoined(filters: seq<Filter>, joiner: Token, k: nat): Expr
    requires filters != []
    decreases filters, 0
  {
    var x := Intended(filters[0], k);
    if |filters| == 1 then x
    else
      var y := IntendedJoined(filters[1..], joiner, k + ArgCount(filters[0]));
      if joiner == KwAnd then AndExpr(x, y) else OrExpr(x, y)
  }

  // ---- Re-parsing a clause gives the intended expression ----

  predicate Closed(rest: seq<Token>) {
    rest == [] || rest[0] == RightParen
  }

  predicate NoAnd(rest: seq<Token>) {
    rest == [] || rest[0] != KwAnd
  }

  predicate NoOr(rest: seq<Token>) {
    rest == [] || rest[0] != KwOr
  }

  lemma NotAsAnd(ts: seq<Token>, k: nat)
    requires ParseNot(ts, k).Parsed? && NoAnd(ParseNot(ts, k).rest)
    ensures ParseAnd(ts, k) == ParseNot(ts, k)
  {
  }

  lemma AndAsOr(ts: seq<Token>, k: nat)
    requires ParseAnd(ts, k).Parsed? && NoOr(ParseAnd(ts, k).rest)
    ensures ParseOr(ts, k) == ParseAnd(ts, k)
  {
  }

  lemma ComparisonParses(l: Token, op: Token, r: Token, rest: seq<Token>, k: nat)
    requires IsOperand(l) && IsCompareOp(op) && IsOperand(r)
    ensures ParseNot([l, op, r] + rest, k)
      == Parsed(CompareExpr(CompareOpOf(op), OperandOf(l, k), OperandOf(r, k + ParamCount(l))),
                rest, k + ParamCount(l) + ParamCount(r))
  {
    var ts := [l, op, r] + rest;
    assert ts[3..] == rest;
    assert ParseNot(ts, k) == ParsePrimary(ts, k) == ParseComparison(ts, k);
  }

  lemma AndParses(left: seq<Token>, right: seq<Token>, x: Expr, y: Expr, rest: seq<Token>, k: nat, m: nat, n: nat)
    requires ParseNot(left + ([KwAnd] + right + rest), k) == Parsed(x, [KwAnd] + right + rest, m)
    requires ParseAnd(right + rest, m) == Parsed(y, rest, n)
    ensures ParseAnd(left + [KwAnd] + right + rest, k) == Parsed(AndExpr(x, y), rest, n)
  {
    assert left + [KwAnd] + right + rest == left + ([KwAnd] + right + rest);
    assert ([KwAnd] + right + rest)[1..] == right + rest;
  }

  lemma OrParses(left: seq<Token>, right: seq<Token>, x: Expr, y: Expr, rest: seq<Token>, k: nat, m: nat, n: nat)
    requires ParseAnd(left + ([KwOr] + right + rest), k) == Parsed(x, [KwOr] + right + rest, m)
    requires ParseOr(right + rest, m) == Parsed(y, rest, n)
    ensures ParseOr(left + [KwOr] + right + rest, k) == Parsed(OrExpr(x, y), rest, n)
  {
    assert left + [KwOr] + right + rest == left + ([KwOr] + right + rest);
    assert ([KwOr] + right + rest)[1..] == right + rest;
  }

  lemma GroupParses(clause: seq<Token>, x: Expr, rest: seq<Token>, k: nat, n: nat)
    requires ParseOr(clause + ([RightParen] + rest), k) == Parsed(x, [RightParen] + rest, n)
    ensures ParseNot([LeftParen] + clause + [RightParen] + rest, k) == Parsed(x, rest, n)
  {
    var ts := [LeftParen] + clause + [RightParen] + rest;
    assert ts[1..] == clause + ([RightParen] + rest);
    assert ([RightParen] + rest)[1..] == rest;
    assert ParseNot(ts, k) == ParsePrimary(ts, k);
  }

  lemma ExistsParses(inner: seq<Token>, x: Expr, rest: seq<Token>, k: nat, n: nat)
    requires ParseOr(inner + ([RightParen] + rest), k) == Parsed(x, [RightParen] + rest, n)
    ensures ParseNot([ExistsSelect] + inner + [RightParen] + rest, k) == Parsed(ExistsExpr(x), rest, n)
  {
    var ts := [ExistsSelect] + inner + [RightParen] + rest;
    assert ts[1..] == inner + ([RightParen] + rest);
    assert ([RightParen] + rest)[1..] == rest;
    assert ParseNot(ts, k) == ParsePrimary(ts, k);
  }

  lemma TermAsOr(ts: seq<Token>, k: nat)
    requires ParseNot(ts, k).Parsed? && Closed(ParseNot(ts, k).rest)
    ensures ParseOr(ts, k) == ParseNot(ts, k)
  {
    NotAsAnd(ts, k);
    AndAsOr(ts, k);
  }

  const OF_ENTRY_TOKENS: seq<Token> := [Col(AttrEntryId), Equals, Col(EntryId)]
  const NAME_TOKENS: seq<Token> := [LowerCol(AttrName), Equals, LowerParam]

  /** The attribute sub-query, with a further condition on the value. */
  /** The tests on name and value, up to the closing parenthesis. */
  lemma NameAndValueParse(op: Token, close: seq<Token>, k: nat)
    requires op == Equals || op == LikeEscape
    requires Closed(close)
    ensures ParseAnd(NAME_TOKENS + [KwAnd] + [LowerCol(AttrValue), op, LowerParam] + close, k) ==
      Parsed(AndExpr(NameIs(k), CompareExpr(CompareOpOf(op), ColumnOperand(AttrValue, true), ParamOperand(k + 1, true))), close, k + 2)
  {
    hide ParseOr, ParseAnd, ParseNot, ParsePrimary, ParseComparison;
    var value := [LowerCol(AttrValue), op, LowerParam];
    ComparisonParses(LowerCol(AttrValue), op, LowerParam, close, k + 1);
    NotAsAnd(value + close, k + 1);
    ComparisonParses(LowerCol(AttrName), Equals, LowerParam, [KwAnd] + value + close, k);
    AndParses(NAME_TOKENS, value, NameIs(k), ParseNot(value + close, k + 1).expr, close, k, k + 1, k + 2);
  }

  lemma ValueExistsParses(op: Token, rest: seq<Token>, k: nat)
    requires op == Equals || op == LikeEscape
    requires Closed(rest)
    ensures ParseOr(ATTRIBUTE_EXISTS + [KwAnd, LowerCol(AttrValue), op, LowerParam, RightParen] + rest, k)
      == Parsed(ExistsExpr(AndExpr(OF_ENTRY, AndExpr(NameIs(k),
           CompareExpr(CompareOpOf(op), ColumnOperand(AttrValue, true), ParamOperand(k + 1, true))))), rest, k + 2)
  {
    hide ParseOr, ParseAnd, ParseNot, ParsePrimary, ParseComparison;
    var value, close := [LowerCol(AttrValue), op, LowerParam], [RightParen] + rest;
    NameAndValueParse(op, close, k);
    var inner := NAME_TOKENS + [KwAnd] + value;
    ComparisonParses(Col(AttrEntryId), Equals, Col(EntryId), [KwAnd] + inner + close, k);
    AndParses(OF_ENTRY_TOKENS, inner, OF_ENTRY, ParseAnd(inner + close, k).expr, close, k, k, k + 2);
    var whole := OF_ENTRY_TOKENS + [KwAnd] + inner;
    AndAsOr(whole + close, k);
    ExistsParses(whole, ParseAnd(whole + close, k).expr, rest, k, k + 2);
    ExistsText(op, rest);
    TermAsOr([ExistsSelect] + whole + [RightParen] + rest, k);
  }

  lemma ExistsText(op: Token, rest: seq<Token>)
    ensures ATTRIBUTE_EXISTS + [KwAnd, LowerCol(AttrValue), op, LowerParam, RightParen] + rest ==
      [ExistsSelect] + (OF_ENTRY_TOKENS + [KwAnd] + (NAME_TOKENS + [KwAnd] + [LowerCol(AttrValue), op, LowerParam])) + [RightParen] + rest
  {
    assert ATTRIBUTE_EXISTS + [KwAnd, LowerCol(AttrValue), op, LowerParam, RightParen] ==
      [ExistsSelect] + (OF_ENTRY_TOKENS + [KwAnd] + (NAME_TOKENS + [KwAnd] + [LowerCol(AttrValue), op, LowerParam])) + [RightParen];
  }

  lemma NameExistsParses(rest: seq<Token>, k: nat)
    requires Closed(rest)
    ensures ParseOr(ATTRIBUTE_EXISTS + [RightParen] + rest, k)
      == Parsed(ExistsExpr(AndExpr(OF_ENTRY, NameIs(k))), rest, k + 1)
  {
    hide ParseOr, ParseAnd, ParseNot, ParsePrimary, ParseComparison;
    var close := [RightParen] + rest;
    ComparisonParses(LowerCol(AttrName), Equals, LowerParam, close, k);
    NotAsAnd(NAME_TOKENS + close, k);
    ComparisonParses(Col(AttrEntryId), Equals, Col(EntryId), [KwAnd] + NAME_TOKENS + close, k);
    AndParses(OF_ENTRY_TOKENS, NAME_TOKENS, OF_ENTRY, NameIs(k), close, k, k, k + 1);
    var whole := OF_ENTRY_TOKENS + [KwAnd] + NAME_TOKENS;
    AndAsOr(whole + close, k);
    ExistsParses(whole, ParseAnd(whole + close, k).expr, rest, k, k + 1);
    assert ATTRIBUTE_EXISTS + [RightParen] + rest == [ExistsSelect] + whole + [RightParen] + rest;
    TermAsOr([ExistsSelect] + whole + [RightParen] + rest, k);
  }

  lemma PresentClassParses(rest: seq<Token>, k: nat)
    requires Closed(rest)
    ensures ParseOr([Col(EntryObjectClass), IsNotNull, KwAnd, Col(EntryObjectClass), NotEquals, Quoted("")] + rest, k)
      == Parsed(Intended(Present("objectClass"), k), rest, k)
  {
    var left, right := [Col(EntryObjectClass), IsNotNull], [Col(EntryObjectClass), NotEquals, Quoted("")];
    var ts := left + ([KwAnd] + right + rest);
    assert ts[2..] == [KwAnd] + right + rest;
    assert ParseNot(ts, k) == ParsePrimary(ts, k) == ParseComparison(ts, k);
    ComparisonParses(Col(EntryObjectClass), NotEquals, Quoted(""), rest, k);
    NotAsAnd(right + rest, k);
    AndParses(left, right, ParseNot(ts, k).expr, ParseNot(right + rest, k).expr, rest, k, k, k);
    assert left + [KwAnd] + right + rest
      == [Col(EntryObjectClass), IsNotNull, KwAnd, Col(EntryObjectClass), NotEquals, Quoted("")] + rest;
    AndAsOr(left + [KwAnd] + right + rest, k);
    assert Lower("objectClass") == "objectclass";
  }

  lemma NotGroupParses(clause: seq<Token>, x: Expr, rest: seq<Token>, k: nat, n: nat)
    requires ParseOr(clause + ([RightParen] + rest), k) == Parsed(x, [RightParen] + rest, n) && Closed(rest)
    ensures ParseOr([KwNot, LeftParen] + clause + [RightParen] + rest, k) == Parsed(NotExpr(x), rest, n)
  {
    hide ParseOr, ParseAnd, ParseNot, ParsePrimary;
    GroupParses(clause, x, rest, k, n);
    var group := [LeftParen] + clause + [RightParen] + rest;
    var ts := [KwNot, LeftParen] + clause + [RightParen] + rest;
    assert ts == [KwNot] + group;
    NotParses(group, x, rest, k, n);
    TermAsOr(ts, k);
  }

  lemma NotParses(group: seq<Token>, x: Expr, rest: seq<Token>, k: nat, n: nat)
    requires ParseNot(group, k) == Parsed(x, rest, n)
    ensures ParseNot([KwNot] + group, k) == Parsed(NotExpr(x), rest, n)
  {
    hide ParsePrimary;
    assert ([KwNot] + group)[1..] == group;
  }

  predicate IsLeaf(f: Filter) {
    !f.And? && !f.Or? && !f.Not?
  }

  lemma LeafParses(f: Filter, rest: seq<Token>, k: nat)
    requires IsLeaf(f) && CompileToSql(f).Compiled? && Closed(rest)
    ensures ParseOr(CompileToSql(f).clause + rest, k) == Parsed(Intended(f, k), rest, k + |CompileToSql(f).args|)
  {
    hide ParseOr, ParseAnd, ParseNot, ParsePrimary, ParseComparison, Lower, SqlLike.ToLike, ATTRIBUTE_EXISTS;
    var clause := CompileToSql(f).clause;
    match f
    case Equality(attribute, value) =>
      if Lower(attribute) == "objectclass" {
        ComparisonParses(LowerCol(EntryObjectClass), Equals, LowerParam, rest, k);
        TermAsOr(clause + rest, k);
      } else {
        ValueExistsParses(Equals, rest, k);
      }
    case Present(attribute) =>
      if Lower(attribute) == "objectclass" {
        PresentClassParses(rest, k);
      } else {
        NameExistsParses(rest, k);
      }
    case Substrings(attribute, value) =>
      ValueExistsParses(LikeEscape, rest, k);
    case GreaterOrEqual(attribute, value) =>
      TimestampParses(attribute, value, AtLeast, rest, k);
    case LessOrEqual(attribute, value) =>
      TimestampParses(attribute, value, AtMost, rest, k);
  }

  lemma TimestampParses(attribute: string, value: string, op: Token, rest: seq<Token>, k: nat)
    requires op == AtLeast || op == AtMost
    requires CompileTimestamp(attribute, value, op).Compiled? && Closed(rest)
    ensures ParseOr(CompileTimestamp(attribute, value, op).clause + rest, k)
      == Parsed(CompareExpr(CompareOpOf(op), TimestampColumn(attribute), ParamOperand(k, false)), rest, k + 1)
  {
    hide ParseOr, ParseAnd, ParseNot, ParsePrimary, ParseComparison;
    var clause := CompileTimestamp(attribute, value, op).clause;
    ComparisonParses(clause[0], op, Param, rest, k);
    TermAsOr(clause + rest, k);
  }

  /** Whatever the nesting, the emitted parentheses make SQL read a clause as intended, with its arguments in order. */
  lemma {:induction false} ClauseParses(f: Filter, rest: seq<Token>, k: nat)
    requires CompileToSql(f).Compiled? && Closed(rest)
    ensures ParseOr(CompileToSql(f).clause + rest, k) == Parsed(Intended(f, k), rest, k + |CompileToSql(f).args|)
    decreases f, 1
  {
    hide ParseOr, ParseAnd, ParseNot, ParsePrimary, ParseComparison;
    var clause := CompileToSql(f).clause;
    if IsLeaf(f) {
      LeafParses(f, rest, k);
    } else if f.Not? {
      var g := f.filters[0];
      var inner := CompileToSql(g);
      ClauseParses(g, [RightParen] + rest, k);
      NotGroupParses(inner.clause, Intended(g, k), rest, k, k + |inner.args|);
    } else if f.filters == [] {
      ComparisonParses(Number(1), Equals, clause[2], rest, k);
      TermAsOr(clause + rest, k);
    } else {
      JoinedParses(f.filters, if f.And? then KwAnd else KwOr, rest, k);
      if f.And? {
        AndAsOr(clause + rest, k);
      }
    }
  }

  lemma {:induction false} JoinedParses(filters: seq<Filter>, joiner: Token, rest: seq<Token>, k: nat)
    requires filters != [] && CompileJoined(filters, joiner).Compiled? && Closed(rest)
    requires joiner == KwAnd || joiner == KwOr
    ensures var c := CompileJoined(filters, joiner);
      var target := Parsed(IntendedJoined(filters, joiner, k), rest, k + |c.args|);
      if joiner == KwAnd then ParseAnd(c.clause + rest, k) == target else ParseOr(c.clause + rest, k) == target
    decreases filters, 0
  {
    hide ParseOr, ParseAnd, ParseNot, ParsePrimary, ParseComparison, CompileToSql, Intended;
    var first := CompileToSql(filters[0]);
    var group, m := [LeftParen] + first.clause + [RightParen], k + |first.args|;
    var x := Intended(filters[0], k);
    if |filters| == 1 {
      ClauseParses(filters[0], [RightParen] + rest, k);
      GroupParses(first.clause, x, rest, k, m);
      NotAsAnd(group + rest, k);
      AndAsOr(group + rest, k);
    } else {
      var more := CompileJoined(filters[1..], joiner);
      JoinedParses(filters[1..], joiner, rest, m);
      var after := [joiner] + more.clause + rest;
      ClauseParses(filters[0], [RightParen] + after, k);
      GroupParses(first.clause, x, after, k, m);
      var y := IntendedJoined(filters[1..], joiner, m);
      if joiner == KwAnd {
        AndParses(group, more.clause, x, y, rest, k, m, m + |more.args|);
      } else {
        NotAsAnd(group + after, k);
        OrParses(group, more.clause, x, y, rest, k, m, m + |more.args|);
      }
    }
  }

  lemma CountThree(a: Token, b: Token, c: Token)
    ensures CountParams([a, b, c]) == ParamCount(a) + ParamCount(b) + ParamCount(c)
    ensures CountParams([a]) == ParamCount(a)
  {
    assert [c][1..] == [] && CountParams([c]) == ParamCount(c);
    assert [b, c][1..] == [c] && CountParams([b, c]) == ParamCount(b) + ParamCount(c);
    assert [a, b, c][1..] == [b, c];
  }

  lemma AttributeExistsParams(op: Token)
    requires op == Equals || op == LikeEscape
    ensures CountParams(ATTRIBUTE_EXISTS) == 1
    ensures CountParams([KwAnd, LowerCol(AttrValue), op, LowerParam, RightParen]) == 1
  {
    hide CountParams;
    CountThree(Col(AttrEntryId), Equals, Col(EntryId));
    CountThree(LowerCol(AttrName), Equals, LowerParam);
    CountThree(LowerCol(AttrValue), op, LowerParam);
    CountThree(ExistsSelect, KwAnd, KwAnd);
    CountThree(KwAnd, KwAnd, KwAnd);
    CountThree(RightParen, KwAnd, KwAnd);
    var value := [LowerCol(AttrValue), op, LowerParam];
    CountParamsConcat([ExistsSelect], OF_ENTRY_TOKENS);
    CountParamsConcat([ExistsSelect] + OF_ENTRY_TOKENS, [KwAnd]);
    CountParamsConcat([ExistsSelect] + OF_ENTRY_TOKENS + [KwAnd], NAME_TOKENS);
    CountParamsConcat([KwAnd], value);
    CountParamsConcat([KwAnd] + value, [RightParen]);
    assert ATTRIBUTE_EXISTS == [ExistsSelect] + OF_ENTRY_TOKENS + [KwAnd] + NAME_TOKENS;
    assert [KwAnd, LowerCol(AttrValue), op, LowerParam, RightParen] == [KwAnd] + value + [RightParen];
  }

  lemma ExistsParams(clause: seq<Token>, tail: seq<Token>)
    requires clause == ATTRIBUTE_EXISTS + tail
    ensures CountParams(clause) == 1 + CountParams(tail)
  {
    hide CountParams;
    AttributeExistsParams(Equals);
    CountParamsConcat(ATTRIBUTE_EXISTS, tail);
  }

  lemma ClassPresentParams()
    ensures CountParams([Col(EntryObjectClass), IsNotNull, KwAnd, Col(EntryObjectClass), NotEquals, Quoted("")]) == 0
  {
    hide CountParams;
    var a, b := [Col(EntryObjectClass), IsNotNull, KwAnd], [Col(EntryObjectClass), NotEquals, Quoted("")];
    CountThree(a[0], a[1], a[2]);
    CountThree(b[0], b[1], b[2]);
    CountParamsConcat(a, b);
    assert a + b == [Col(EntryObjectClass), IsNotNull, KwAnd, Col(EntryObjectClass), NotEquals, Quoted("")];
  }

  lemma LeafParams(f: Filter)
    requires IsLeaf(f) && CompileToSql(f).Compiled?
    ensures CountParams(CompileToSql(f).clause) == |CompileToSql(f).args|
  {
    hide CountParams, Lower, ATTRIBUTE_EXISTS, SqlLike.ToLike, StripZone, SqlDateTime;
    AttributeExistsParams(Equals);
    AttributeExistsParams(LikeEscape);
    CountThree(RightParen, RightParen, RightParen);
    ClassPresentParams();
    var clause := CompileToSql(f).clause;
    match f
    case Equality(attribute, _) =>
      if Lower(attribute) == "objectclass" {
        CountThree(clause[0], clause[1], clause[2]);
      } else {
        ExistsParams(clause, [KwAnd, LowerCol(AttrValue), Equals, LowerParam, RightParen]);
      }
    case Present(attribute) =>
      if Lower(attribute) != "objectclass" {
        ExistsParams(clause, [RightParen]);
      }
    case Substrings(_, _) => ExistsParams(clause, [KwAnd, LowerCol(AttrValue), LikeEscape, LowerParam, RightParen]);
    case GreaterOrEqual(_, _) => CountThree(clause[0], clause[1], clause[2]);
    case LessOrEqual(_, _) => CountThree(clause[0], clause[1], clause[2]);
  }

  /** Every clause has as many ? as arguments. */
  lemma {:induction false} ClauseParams(f: Filter)
    requires CompileToSql(f).Compiled?
    ensures CountParams(CompileToSql(f).clause) == |CompileToSql(f).args|
    decreases f, 1
  {
    hide CountParams;
    var clause := CompileToSql(f).clause;
    if IsLeaf(f) {
      LeafParams(f);
    } else if f.Not? {
      var inner := CompileToSql(f.filters[0]).clause;
      ClauseParams(f.filters[0]);
      CountParamsConcat([KwNot, LeftParen], inner);
      CountParamsConcat([KwNot, LeftParen] + inner, [RightParen]);
      CountThree(RightParen, KwNot, KwNot);
      CountThree(KwNot, LeftParen, RightParen);
      CountParamsConcat([KwNot, LeftParen], [RightParen]);
      assert [KwNot, LeftParen] + [RightParen] == [KwNot, LeftParen, RightParen];
    } else if f.filters == [] {
      CountThree(clause[0], clause[1], clause[2]);
    } else {
      JoinedParams(f.filters, if f.And? then KwAnd else KwOr);
    }
  }

  lemma GroupParams(clause: seq<Token>)
    ensures CountParams([LeftParen] + clause + [RightParen]) == CountParams(clause)
  {
    hide CountParams;
    CountThree(LeftParen, LeftParen, LeftParen);
    CountThree(RightParen, RightParen, RightParen);
    CountParamsConcat([LeftParen], clause);
    CountParamsConcat([LeftParen] + clause, [RightParen]);
  }

  lemma {:induction false} JoinedParams(filters: seq<Filter>, joiner: Token)
    requires filters != [] && CompileJoined(filters, joiner).Compiled?
    requires joiner == KwAnd || joiner == KwOr
    ensures CountParams(CompileJoined(filters, joiner).clause) == |CompileJoined(filters, joiner).args|
    decreases filters, 0
  {
    hide CountParams, CompileToSql;
    var first := CompileToSql(filters[0]);
    ClauseParams(filters[0]);
    GroupParams(first.clause);
    if |filters| > 1 {
      var group, more := [LeftParen] + first.clause + [RightParen], CompileJoined(filters[1..], joiner);
      JoinedParams(filters[1..], joiner);
      CountThree(joiner, joiner, joiner);
      CountParamsConcat(group, [joiner]);
      CountParamsConcat(group + [joiner], more.clause);
    }
  }

  // ---- Which filters compile ----

  /** `g` is `f`, or stands somewhere inside it. */
  ghost predicate IsPartOf(g: Filter, f: Filter) {
    g == f || match f
      case And(filters) => exists h :: h in filters && IsPartOf(g, h)
      case Or(filters) => exists h :: h in filters && IsPartOf(g, h)
      case Not(filters) => exists h :: h in filters && IsPartOf(g, h)
      case _ => false
  }

  /** What every part has to be: tests SQL can make, and negations of one filter. */
  predicate PartCompiles(g: Filter) {
    match g
    case And(_) => true
    case Or(_) => true
    case Not(filters) => |filters| == 1
    case Equality(attribute, _) => Lower(attribute) != "memberof"
    case Present(attribute) => Lower(attribute) != "memberof"
    case Substrings(attribute, value) => Lower(attribute) != "memberof" && Lower(attribute) != "objectclass" && '*' in value
    case GreaterOrEqual(attribute, value) => Lower(attribute) in {"createtimestamp", "modifytimestamp"} && |StripZone(value)| == 14
    case LessOrEqual(attribute, value) => Lower(attribute) in {"createtimestamp", "modifytimestamp"} && |StripZone(value)| == 14
    case Approx(_, _) => false
  }

  lemma LeafCompiles(f: Filter)
    requires IsLeaf(f)
    ensures CanCompileToSql(f) && CompileToSql(f).Compiled? <==> PartCompiles(f)
  {
    hide Lower, StripZone;
  }

  lemma JoinedStep(filters: seq<Filter>, joiner: Token)
    requires |filters| > 1
    ensures CompileJoined(filters, joiner).Compiled? <==>
      CompileToSql(filters[0]).Compiled? && CompileJoined(filters[1..], joiner).Compiled?
  {
  }

  lemma {:induction false} JoinedCompiles(filters: seq<Filter>, joiner: Token)
    requires filters != []
    ensures CompileJoined(filters, joiner).Compiled? <==> forall g :: g in filters ==> CompileToSql(g).Compiled?
  {
    hide CompileEquality, CompilePresent, CompileSubstring, CompileTimestamp;
    assert filters == [filters[0]] + filters[1..];
    assert forall g :: g in filters <==> g == filters[0] || g in filters[1..];
    if |filters| > 1 {
      JoinedCompiles(filters[1..], joiner);
      JoinedStep(filters, joiner);
    } else {
      assert filters[1..] == [];
      JoinedOne(filters, joiner);
    }
  }

  lemma JoinedOne(filters: seq<Filter>, joiner: Token)
    requires |filters| == 1
    ensures CompileJoined(filters, joiner).Compiled? <==> CompileToSql(filters[0]).Compiled?
  {
  }

  /** A filter compiles if and only if all its parts do. */
  lemma {:induction false} CompilesExact(f: Filter)
    ensures CanCompileToSql(f) && CompileToSql(f).Compiled? <==> forall g :: IsPartOf(g, f) ==> PartCompiles(g)
    decreases f
  {
    hide PartCompiles, CompileJoined;
    match f
    case And(filters) =>
      forall g | g in filters { CompilesExact(g); }
      if filters != [] { JoinedCompiles(filters, KwAnd); }
      GroupCompiles(f);
      PartsOfGroup(f, filters);
    case Or(filters) =>
      forall g | g in filters { CompilesExact(g); }
      if filters != [] { JoinedCompiles(filters, KwOr); }
      GroupCompiles(f);
      PartsOfGroup(f, filters);
    case Not(filters) =>
      forall g | g in filters { CompilesExact(g); }
      GroupCompiles(f);
      PartsOfGroup(f, filters);
    case _ =>
      LeafCompiles(f);
      PartsOfLeaf(f);
  }

  lemma GroupCompiles(f: Filter)
    requires !IsLeaf(f)
    ensures PartCompiles(f) <==> (f.Not? ==> |f.filters| == 1)
  {
  }

  lemma PartsOfLeaf(f: Filter)
    requires IsLeaf(f)
    ensures forall g :: IsPartOf(g, f) <==> g == f
  {
  }

  lemma PartsOfGroup(f: Filter, filters: seq<Filter>)
    requires !IsLeaf(f) && f.filters == filters
    ensures (forall g :: IsPartOf(g, f) ==> PartCompiles(g)) <==>
      PartCompiles(f) && forall h :: h in filters ==> forall g :: IsPartOf(g, h) ==> PartCompiles(g)
  {
    hide PartCompiles;
    assert IsPartOf(f, f);
    forall g ensures IsPartOf(g, f) <==> g == f || exists h :: h in filters && IsPartOf(g, h) {
    }
  }
}
