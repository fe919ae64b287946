/** The SQL query of a search: its text, its arguments, and the rows it selects. */
module SearchQuery {
  import opened Text
  import opened Tables
  import opened Filters
  import opened Sql
  import opened SqlCompiler
  import opened SqlMeaning
  import opened Scope

  datatype SearchScope = BaseObject | SingleLevel | WholeSubtree

  /** The condition of the recursive part, the WHERE condition, and the arguments in text order. */
  datatype Query = Query(start: seq<Token>, where: seq<Token>, args: seq<string>)

  function ColumnIs(c: Column): seq<Token> {
    [LowerCol(c), Equals, LowerParam]
  }

  /** searchEntriesQuery */
  function BuildQuery(scope: SearchScope, clause: seq<Token>, base: string, filterArgs: seq<string>): Query {
    var group := [LeftParen] + clause + [RightParen];
    match scope
    case BaseObject => Query([], group + [KwAnd] + ColumnIs(EntryDn), filterArgs + [base])
    case SingleLevel => Query([], group + [KwAnd] + ColumnIs(EntryParentDn), filterArgs + [base])
    case WholeSubtree => Query(ColumnIs(EntryDn), group, [base] + filterArgs)
  }

  /** `row` is emitted at depth n by the recursive part whose start condition is `x`. */
  predicate EmittedAt(t: Tables, x: Expr, args: seq<string>, n: nat, row: EntryRow)
    decreases n
  {
    if n == 0 then Eval(x, Scope(row, NO_ATTR), t.attributes, args)
    else exists s :: s in t.entries && EmittedAt(t, x, args, n - 1, s) && EqualFold(row.parentDn, s.dn)
  }

  /** The rows a query selects; its parameters are numbered through the whole text, the recursive part first. */
  predicate Selects(t: Tables, q: Query, row: EntryRow) {
    var start, where := ParseOr(q.start, 0), ParseOr(q.where, CountParams(q.start));
    && where.Parsed? && where.rest == [] && Eval(where.expr, Scope(row, NO_ATTR), t.attributes, q.args)
    && (q.start == [] ||
        (start.Parsed? && start.rest == [] && exists n :: 0 <= n <= MAX_LEVEL && EmittedAt(t, start.expr, q.args, n, row)))
  }

  /** The scope test as SQL makes it. */
  predicate InSqlScope(t: Tables, scope: SearchScope, base: string, row: EntryRow) {
    match scope
    case BaseObject => EqualFold(row.dn, base)
    case SingleLevel => EqualFold(row.parentDn, base)
    case WholeSubtree => InSubtree(t.entries, base, row)
  }

  // ---- Every ? gets its own argument ----

  lemma ColumnIsParams(c: Column)
    ensures CountParams(ColumnIs(c)) == 1
  {
    CountThree(LowerCol(c), Equals, LowerParam);
  }

  /** Argument alignment: as many arguments as ?; the base DN first for a subtree search, last otherwise. */
  lemma ArgumentsAligned(f: Filter, scope: SearchScope, base: string)
    requires CompileToSql(f).Compiled?
    ensures var c := CompileToSql(f); var q := BuildQuery(scope, c.clause, base, c.args);
      && CountParams(q.start) + CountParams(q.where) == |q.args|
      && (if scope == WholeSubtree then CountParams(q.start) == 1 && q.args[0] == base && q.args[1..] == c.args
          else q.start == [] && q.args[|q.args| - 1] == base && q.args[..|q.args| - 1] == c.args)
  {
    hide CompileToSql, CountParams;
    var c := CompileToSql(f);
    ClauseParams(f);
    ColumnIsParams(EntryDn);
    ColumnIsParams(EntryParentDn);
    CountThree(LeftParen, KwAnd, KwAnd);
    CountThree(RightParen, KwAnd, KwAnd);
    CountThree(KwAnd, KwAnd, KwAnd);
    CountParamsConcat([LeftParen], c.clause);
    CountParamsConcat([LeftParen] + c.clause, [RightParen]);
    var group := [LeftParen] + c.clause + [RightParen];
    CountParamsConcat(group, [KwAnd]);
    CountParamsConcat(group + [KwAnd], ColumnIs(EntryDn));
    CountParamsConcat(group + [KwAnd], ColumnIs(EntryParentDn));
    NoParams();
  }

  lemma NoParams()
    ensures CountParams([]) == 0
  {
  }

  // ---- What the query selects ----

  lemma {:induction false} EmittedIsLevel(t: Tables, x: Expr, args: seq<string>, base: string, n: nat, row: EntryRow)
    requires forall r :: Eval(x, Scope(r, NO_ATTR), t.attributes, args) <==> EqualFold(r.dn, base)
    ensures EmittedAt(t, x, args, n, row) <==> InLevel(t.entries, base, n, row)
    decreases n
  {
    if n > 0 {
      forall s | s in t.entries ensures EmittedAt(t, x, args, n - 1, s) <==> InLevel(t.entries, base, n - 1, s) {
        EmittedIsLevel(t, x, args, base, n - 1, s);
      }
    }
  }

  function ColumnTest(c: Column, k: nat): Expr {
    CompareExpr(OpEquals, ColumnOperand(c, true), ParamOperand(k, true))
  }

  lemma ColumnIsParses(c: Column, k: nat)
    ensures ParseOr(ColumnIs(c), k) == Parsed(ColumnTest(c, k), [], k + 1)
    ensures ParseAnd(ColumnIs(c), k) == Parsed(ColumnTest(c, k), [], k + 1)
  {
    ComparisonParses(LowerCol(c), Equals, LowerParam, [], k);
    assert ColumnIs(c) + [] == ColumnIs(c);
    NotAsAnd(ColumnIs(c), k);
    AndAsOr(ColumnIs(c), k);
  }

  /** A clause in its parentheses, alone or before the test of a column. */
  lemma WhereParses(clause: seq<Token>, x: Expr, k: nat, n: nat, c: Column)
    requires ParseOr(clause + [RightParen], k) == Parsed(x, [RightParen], n)
    requires ParseOr(clause + ([RightParen] + [KwAnd] + ColumnIs(c)), k) == Parsed(x, [RightParen] + [KwAnd] + ColumnIs(c), n)
    ensures var group := [LeftParen] + clause + [RightParen];
      && ParseOr(group, k) == Parsed(x, [], n)
      && ParseOr(group + [KwAnd] + ColumnIs(c), k) == Parsed(AndExpr(x, ColumnTest(c, n)), [], n + 1)
  {
    hide ParseOr, ParseAnd, ParseNot, ParsePrimary, ParseComparison;
    var group, test := [LeftParen] + clause + [RightParen], ColumnIs(c);
    assert [RightParen] + [] == [RightParen] && group + [] == group;
    GroupParses(clause, x, [], k, n);
    TermAsOr(group, k);
    var rest := [KwAnd] + test;
    assert [RightParen] + rest == [RightParen] + [KwAnd] + test;
    GroupParses(clause, x, rest, k, n);
    ColumnIsParses(c, n);
    assert test + [] == test && [KwAnd] + test + [] == rest;
    AndParses(group, test, x, ColumnTest(c, n), [], k, n, n + 1);
    assert group + [KwAnd] + test + [] == group + [KwAnd] + test;
    AndAsOr(group + [KwAnd] + test, k);
  }

  /** What a query with any well-read clause selects: the scope test and the clause. */
  lemma QuerySelects(t: Tables, scope: SearchScope, clause: seq<Token>, base: string, filterArgs: seq<string>, x: Expr,
                     row: EntryRow)
    requires var k := if scope == WholeSubtree then 1 else 0;
      forall rest :: Closed(rest) ==> ParseOr(clause + rest, k) == Parsed(x, rest, k + |filterArgs|)
    ensures var q := BuildQuery(scope, clause, base, filterArgs);
      Selects(t, q, row) <==> InSqlScope(t, scope, base, row) && Eval(x, Scope(row, NO_ATTR), t.attributes, q.args)
  {
    hide ParseOr, ParseAnd, ParseNot, ParsePrimary, ParseComparison, CountParams, EmittedAt, InLevel;
    var k := if scope == WholeSubtree then 1 else 0;
    var c := if scope == SingleLevel then EntryParentDn else EntryDn;
    var q := BuildQuery(scope, clause, base, filterArgs);
    WhereParses(clause, x, k, k + |filterArgs|, c);
    NoParams();
    ColumnIsParams(EntryDn);
    if scope == WholeSubtree {
      ColumnIsParses(EntryDn, 0);
      assert q.args[0] == base;
      forall n: nat ensures EmittedAt(t, ColumnTest(EntryDn, 0), q.args, n, row) <==> InLevel(t.entries, base, n, row) {
        EmittedIsLevel(t, ColumnTest(EntryDn, 0), q.args, base, n, row);
      }
    } else {
      var test := ColumnTest(c, |filterArgs|);
      assert q.args[|filterArgs|] == base;
      assert Eval(AndExpr(x, test), Scope(row, NO_ATTR), t.attributes, q.args)
        <==> Eval(x, Scope(row, NO_ATTR), t.attributes, q.args) && Eval(test, Scope(row, NO_ATTR), t.attributes, q.args);
      ColumnTestMeans(t, c, |filterArgs|, row, q.args);
      assert ParseOr(q.where, 0) == Parsed(AndExpr(x, test), [], |filterArgs| + 1);
    }
  }

  lemma ColumnTestMeans(t: Tables, c: Column, k: nat, row: EntryRow, args: seq<string>)
    requires k < |args| && (c == EntryDn || c == EntryParentDn)
    ensures Eval(ColumnTest(c, k), Scope(row, NO_ATTR), t.attributes, args)
      <==> EqualFold(if c == EntryDn then row.dn else row.parentDn, args[k])
  {
  }

  /** A compiled search selects the rows in scope whose entry matches the filter, its tests on times blinded. */
  lemma CompiledSelects(t: Tables, f: Filter, scope: SearchScope, base: string, row: EntryRow, e: Entry)
    requires CanCompileToSql(f) && CompileToSql(f).Compiled?
    requires IsLoaded(e, t, row) && NamedAttributes(t.attributes) && GoodRow(row)
    ensures var c := CompileToSql(f);
      Selects(t, BuildQuery(scope, c.clause, base, c.args), row) <==> InSqlScope(t, scope, base, row) && Matches(Blind(f), e)
  {
    hide CompileToSql, CanCompileToSql, Blind, Matches, Selects, ParseOr, Eval, InSqlScope, IsLoaded, GoodRow;
    var c, k := CompileToSql(f), if scope == WholeSubtree then 1 else 0;
    forall rest | Closed(rest) ensures ParseOr(c.clause + rest, k) == Parsed(Intended(f, k), rest, k + |c.args|) {
      ClauseParses(f, rest, k);
    }
    QuerySelects(t, scope, c.clause, base, c.args, Intended(f, k), row);
    var q := BuildQuery(scope, c.clause, base, c.args);
    assert q.args[k..k + |c.args|] == c.args;
    IntendedMeans(f, k, t, row, e, q.args);
  }

  const ALWAYS_TRUE: seq<Token> := [Number(1), Equals, Number(1)]

  /** Without a compiled filter the query selects the scope. */
  lemma UnfilteredSelects(t: Tables, scope: SearchScope, base: string, row: EntryRow)
    ensures Selects(t, BuildQuery(scope, ALWAYS_TRUE, base, []), row) <==> InSqlScope(t, scope, base, row)
  {
    hide Selects, ParseOr, InSqlScope;
    var k := if scope == WholeSubtree then 1 else 0;
    forall rest | Closed(rest) ensures ParseOr(ALWAYS_TRUE + rest, k) == Parsed(Intended(And([]), k), rest, k + 0) {
      ComparisonParses(Number(1), Equals, Number(1), rest, k);
      TermAsOr(ALWAYS_TRUE + rest, k);
    }
    QuerySelects(t, scope, ALWAYS_TRUE, base, [], Intended(And([]), k), row);
  }
}
