/** The compiled WHERE clause means what the filter means. */
module SqlMeaning {
  import opened Text
  import opened Tables
  import opened Filters
  import opened Sql
  import opened SqlCompiler
  import SqlLike

  // ---- Times ----

  /** Texts with heads of equal length compare by their heads first. */
  lemma {:induction false} StringLeHeads(p: string, q: string, a: string, b: string)
    requires |p| == |q|
    ensures StringLe(p + a, q + b) == if p == q then StringLe(a, b) else StringLe(p, q)
  {
    if p == [] {
      assert p + a == a && q + b == b;
    } else {
      var x, y := p + a, q + b;
      assert x[1..] == p[1..] + a && y[1..] == q[1..] + b;
      assert p == q <==> p[0] == q[0] && p[1..] == q[1..] by {
        assert p == [p[0]] + p[1..] && q == [q[0]] + q[1..];
      }
      StringLeHeads(p[1..], q[1..], a, b);
    }
  }

  /** Putting the same separator after heads of equal length keeps the order. */
  lemma SeparatorKeepsOrder(p: string, q: string, sep: string, a: string, b: string, x: string, y: string)
    requires |p| == |q| && StringLe(a, b) == StringLe(x, y)
    ensures StringLe(p + a, q + b) == StringLe(p + sep + x, q + sep + y)
  {
    hide StringLe;
    StringLeHeads(p, q, a, b);
    StringLeHeads(p, q, sep + x, sep + y);
    StringLeHeads(sep, sep, x, y);
    assert p + sep + x == p + (sep + x) && q + sep + y == q + (sep + y);
  }

  /** The separator after the i-th field of a time. */
  function TimeSeparator(i: nat): string {
    if i <= 1 then "-" else if i == 2 then " " else ":"
  }

  function FieldStart(i: nat): nat {
    if i == 0 then 0 else 2 * i + 2
  }

  /** The text of a time from its i-th field on. */
  function TimeTail(t: string, i: nat): string
    requires |t| == 14 && i <= 5
    decreases 5 - i
  {
    if i == 5 then t[12..14] else t[FieldStart(i)..FieldStart(i + 1)] + TimeSeparator(i) + TimeTail(t, i + 1)
  }

  lemma SqlDateTimeIsTail(t: string)
    requires |t| == 14
    ensures SqlDateTime(t) == TimeTail(t, 0)
  {
    assert TimeTail(t, 5) == t[12..14];
    assert TimeTail(t, 4) == t[10..12] + ":" + TimeTail(t, 5);
    assert TimeTail(t, 3) == t[8..10] + ":" + TimeTail(t, 4);
    assert TimeTail(t, 2) == t[6..8] + " " + TimeTail(t, 3);
    assert TimeTail(t, 1) == t[4..6] + "-" + TimeTail(t, 2);
    assert TimeTail(t, 0) == t[0..4] + "-" + TimeTail(t, 1);
  }

  lemma {:induction false} TimeTailOrder(s: string, t: string, i: nat)
    requires |s| == |t| == 14 && i <= 5
    ensures StringLe(s[FieldStart(i)..], t[FieldStart(i)..]) == StringLe(TimeTail(s, i), TimeTail(t, i))
    decreases 5 - i
  {
    hide StringLe;
    if i == 5 {
      assert s[12..] == s[12..14] && t[12..] == t[12..14];
    } else {
      TimeTailOrder(s, t, i + 1);
      var k, l := FieldStart(i), FieldStart(i + 1);
      assert s[k..] == s[k..l] + s[l..] && t[k..] == t[k..l] + t[l..];
      SeparatorKeepsOrder(s[k..l], t[k..l], TimeSeparator(i), s[l..], t[l..], TimeTail(s, i + 1), TimeTail(t, i + 1));
    }
  }

  /** The punctuated SQL text of a time sorts as the LDAP digits do. */
  lemma SqlDateTimeOrder(s: string, t: string)
    requires |s| == |t| == 14
    ensures StringLe(SqlDateTime(s), SqlDateTime(t)) == StringLe(s, t)
  {
    SqlDateTimeIsTail(s);
    SqlDateTimeIsTail(t);
    TimeTailOrder(s, t, 0);
    assert s[0..] == s && t[0..] == t;
  }

  // ---- What the rows must look like ----

  predicate IsTimestamp(t: Timestamp) {
    |t| == 14 && t != ZERO_TIME && forall c :: c in t ==> '0' <= c <= '9'
  }

  /** A row the store writes: with an object class and real times. */
  predicate GoodRow(row: EntryRow) {
    row.objectClass != "" && IsTimestamp(row.createdAt) && IsTimestamp(row.updatedAt)
  }

  /** Rows have names, and times are not among them. */
  predicate NamedAttributes(attributes: seq<AttrRow>) {
    forall a :: a in attributes ==> a.name != "" && !IsTimestampAttribute(a.name)
  }

  /** The entry of a row, possibly with memberOf projected onto it. */
  predicate IsLoaded(e: Entry, t: Tables, row: EntryRow) {
    e == LoadEntry(t, row).(computed := e.computed) && e.computed.Keys <= {"memberof"}
  }

  /** An equality, presence or substring test on a time, which is not an attribute row. */
  predicate IsTimeTest(f: Filter) {
    (f.Equality? || f.Present? || f.Substrings?) && IsTimestampAttribute(f.attribute)
  }

  /** The filter the rows can answer: a test on a time finds nothing. */
  function Blind(f: Filter): Filter
    decreases f, 1
  {
    match f
    case And(filters) => And(BlindAll(filters))
    case Or(filters) => Or(BlindAll(filters))
    case Not(filters) => Not(BlindAll(filters))
    case _ => if IsTimeTest(f) then Or([]) else f
  }

  function BlindAll(filters: seq<Filter>): (r: seq<Filter>)
    ensures |r| == |filters| && forall i :: 0 <= i < |filters| ==> r[i] == Blind(filters[i])
    decreases filters, 0
  {
    if filters == [] then [] else [Blind(filters[0])] + BlindAll(filters[1..])
  }

  /** Nowhere in the filter is there such a test. */
  predicate NoTimeTest(f: Filter) {
    match f
    case And(filters) => forall g :: g in filters ==> NoTimeTest(g)
    case Or(filters) => forall g :: g in filters ==> NoTimeTest(g)
    case Not(filters) => forall g :: g in filters ==> NoTimeTest(g)
    case _ => !IsTimeTest(f)
  }

  /** The rows answer the filter itself if and only if it has no such test. */
  lemma {:induction false} BlindIsSame(f: Filter)
    ensures Blind(f) == f <==> NoTimeTest(f)
    decreases f, 1
  {
    hide IsTimestampAttribute;
    match f
    case And(filters) => BlindAllIsSame(filters);
    case Or(filters) => BlindAllIsSame(filters);
    case Not(filters) => BlindAllIsSame(filters);
    case _ =>
  }

  lemma {:induction false} BlindAllIsSame(filters: seq<Filter>)
    ensures BlindAll(filters) == filters <==> forall g :: g in filters ==> NoTimeTest(g)
    decreases filters, 0
  {
    hide Blind, NoTimeTest, BlindAll;
    var r := BlindAll(filters);
    forall i | 0 <= i < |filters| ensures r[i] == filters[i] <==> NoTimeTest(filters[i]) {
      BlindIsSame(filters[i]);
    }
    if forall g :: g in filters ==> NoTimeTest(g) {
      forall i | 0 <= i < |filters| ensures r[i] == filters[i] {
        assert filters[i] in filters;
      }
    }
  }

  /** The blinded sub-filters match as each on its own. */
  lemma BlindJoined(filters: seq<Filter>, e: Entry)
    ensures Matches(And(BlindAll(filters)), e) <==> forall g :: g in filters ==> Matches(Blind(g), e)
    ensures Matches(Or(BlindAll(filters)), e) <==> exists g :: g in filters && Matches(Blind(g), e)
    ensures filters != [] ==> (Matches(Not(BlindAll(filters)), e) <==> !Matches(Blind(filters[0]), e))
  {
    hide Blind;
    var r := BlindAll(filters);
    forall i | 0 <= i < |filters| ensures r[i] == Blind(filters[i]) && r[i] in r && filters[i] in filters {
    }
  }

  // ---- Leaves ----

  ghost predicate RowHolds(attributes: seq<AttrRow>, id: nat, attribute: string, value: string) {
    exists a :: a in attributes && a.entryId == id && Lower(a.name) == Lower(attribute) && a.value == value
  }

  lemma StoredValues(e: Entry, t: Tables, row: EntryRow, attribute: string, value: string)
    requires IsLoaded(e, t, row) && NamedAttributes(t.attributes)
    requires !IsComputedAttribute(attribute) && !IsTimestampAttribute(attribute) && Lower(attribute) != "objectclass"
    ensures value in FilterAttributeValues(e, attribute) <==> RowHolds(t.attributes, row.id, attribute, value)
  {
    hide Collect;
    CollectIn(t.attributes, row.id, Lower(attribute), value);
    var stored := ValuesFor(e.attributes, Lower(attribute));
    assert FilterAttributeValues(e, attribute) == stored + [];
    if RowHolds(t.attributes, row.id, attribute, value) {
      var a :| a in t.attributes && a.entryId == row.id && Lower(a.name) == Lower(attribute) && a.value == value;
      assert a.name != "";
    }
  }

  lemma AttributeRowEval(row: EntryRow, a: AttrRow, attributes: seq<AttrRow>, args: seq<string>, k: nat)
    requires k < |args|
    ensures Eval(AndExpr(OF_ENTRY, NameIs(k)), Scope(row, a), attributes, args)
      <==> a.entryId == row.id && Lower(a.name) == Lower(args[k])
  {
  }

  lemma ValueRowEval(row: EntryRow, a: AttrRow, attributes: seq<AttrRow>, args: seq<string>, k: nat, op: CompareOp)
    requires k + 1 < |args| && (op == OpEquals || op == OpLike)
    ensures
      var value := CompareExpr(op, ColumnOperand(AttrValue, true), ParamOperand(k + 1, true));
      Eval(AndExpr(OF_ENTRY, AndExpr(NameIs(k), value)), Scope(row, a), attributes, args) ==
      (a.entryId == row.id && Lower(a.name) == Lower(args[k]) &&
       if op == OpEquals then Lower(a.value) == Lower(args[k + 1]) else SqlLike.Like(Lower(args[k + 1]), Lower(a.value)))
  {
    hide SqlLike.Like, Lower;
    var s := Scope(row, a);
    var value := CompareExpr(op, ColumnOperand(AttrValue, true), ParamOperand(k + 1, true));
    assert Eval(value, s, attributes, args) ==
      if op == OpEquals then Lower(a.value) == Lower(args[k + 1]) else SqlLike.Like(Lower(args[k + 1]), Lower(a.value));
    assert Eval(AndExpr(NameIs(k), value), s, attributes, args) ==
      (Lower(a.name) == Lower(args[k]) && Eval(value, s, attributes, args));
  }

  lemma EqualityMeans(f: Filter, k: nat, t: Tables, row: EntryRow, e: Entry, args: seq<string>)
    requires f.Equality? && CanCompileToSql(f) && !IsTimeTest(f)
    requires IsLoaded(e, t, row) && NamedAttributes(t.attributes) && GoodRow(row)
    requires k + |CompileToSql(f).args| <= |args| && args[k..k + |CompileToSql(f).args|] == CompileToSql(f).args
    ensures Eval(Intended(f, k), Scope(row, NO_ATTR), t.attributes, args) == Matches(f, e)
  {
    hide Collect, LowerChar, ATTRIBUTE_EXISTS;
    var own := CompileToSql(f).args;
    assert own[0] == args[k..k + |own|][0] == args[k];
    if Lower(f.attribute) != "objectclass" {
      assert own[1] == args[k..k + |own|][1] == args[k + 1];
      forall a ensures Eval(Intended(f, k).inner, Scope(row, a), t.attributes, args)
        <==> a.entryId == row.id && Lower(a.name) == Lower(f.attribute) && Lower(a.value) == Lower(f.value)
      {
        ValueRowEval(row, a, t.attributes, args, k, OpEquals);
      }
      forall v ensures v in FilterAttributeValues(e, f.attribute) <==> RowHolds(t.attributes, row.id, f.attribute, v) {
        StoredValues(e, t, row, f.attribute, v);
      }
    }
  }

  lemma SubstringsMeans(f: Filter, k: nat, t: Tables, row: EntryRow, e: Entry, args: seq<string>)
    requires f.Substrings? && CanCompileToSql(f) && !IsTimeTest(f) && CompileToSql(f).Compiled?
    requires IsLoaded(e, t, row) && NamedAttributes(t.attributes) && GoodRow(row)
    requires k + |CompileToSql(f).args| <= |args| && args[k..k + |CompileToSql(f).args|] == CompileToSql(f).args
    ensures Eval(Intended(f, k), Scope(row, NO_ATTR), t.attributes, args) == Matches(f, e)
  {
    hide Collect, LowerChar, ATTRIBUTE_EXISTS, SqlLike.Like, MatchSubstring;
    var own := CompileToSql(f).args;
    assert own[0] == args[k..k + |own|][0] == args[k];
    assert own[1] == args[k..k + |own|][1] == args[k + 1];
    forall a ensures Eval(Intended(f, k).inner, Scope(row, a), t.attributes, args)
      <==> a.entryId == row.id && Lower(a.name) == Lower(f.attribute) && MatchSubstring(a.value, f.value)
    {
      ValueRowEval(row, a, t.attributes, args, k, OpLike);
      SqlLike.LikeAgreesWithMatchSubstring(a.value, f.value);
    }
    forall v ensures v in FilterAttributeValues(e, f.attribute) <==> RowHolds(t.attributes, row.id, f.attribute, v) {
      StoredValues(e, t, row, f.attribute, v);
    }
  }

  lemma PresentMeans(f: Filter, k: nat, t: Tables, row: EntryRow, e: Entry, args: seq<string>)
    requires f.Present? && CanCompileToSql(f) && !IsTimeTest(f)
    requires IsLoaded(e, t, row) && NamedAttributes(t.attributes) && GoodRow(row)
    requires k + |CompileToSql(f).args| <= |args| && args[k..k + |CompileToSql(f).args|] == CompileToSql(f).args
    ensures Eval(Intended(f, k), Scope(row, NO_ATTR), t.attributes, args) == Matches(f, e)
  {
    hide Collect, LowerChar, ATTRIBUTE_EXISTS;
    if Lower(f.attribute) == "objectclass" {
      var s := Scope(row, NO_ATTR);
      assert Eval(Intended(f, k).left, s, t.attributes, args) && Eval(Intended(f, k).right, s, t.attributes, args);
    } else {
      var own := CompileToSql(f).args;
      assert own[0] == args[k..k + |own|][0] == args[k];
      forall a ensures Eval(Intended(f, k).inner, Scope(row, a), t.attributes, args)
        <==> a.entryId == row.id && Lower(a.name) == Lower(f.attribute)
      {
        AttributeRowEval(row, a, t.attributes, args, k);
      }
      var values := FilterAttributeValues(e, f.attribute);
      if values != [] {
        StoredValues(e, t, row, f.attribute, values[0]);
      }
      if a :| a in t.attributes && a.entryId == row.id && Lower(a.name) == Lower(f.attribute) {
        StoredValues(e, t, row, f.attribute, a.value);
        assert RowHolds(t.attributes, row.id, f.attribute, a.value);
      }
    }
  }

  /** No row is named as a time. */
  lemma TimeTestFindsNothing(f: Filter, k: nat, t: Tables, row: EntryRow, args: seq<string>)
    requires IsTimeTest(f) && CompileToSql(f).Compiled? && NamedAttributes(t.attributes)
    requires k + |CompileToSql(f).args| <= |args| && args[k..k + |CompileToSql(f).args|] == CompileToSql(f).args
    ensures !Eval(Intended(f, k), Scope(row, NO_ATTR), t.attributes, args)
  {
    hide Lower, SqlLike.Like, ATTRIBUTE_EXISTS;
    var own := CompileToSql(f).args;
    TimeNames(f.attribute);
    assert own[0] == args[k..k + |own|][0] == args[k];
    forall a | a in t.attributes ensures !Eval(Intended(f, k).inner, Scope(row, a), t.attributes, args) {
      assert Lower(a.name) != Lower(f.attribute);
      if f.Present? {
        AttributeRowEval(row, a, t.attributes, args, k);
      } else {
        assert |own| == 2;
        ValueRowEval(row, a, t.attributes, args, k, if f.Equality? then OpEquals else OpLike);
      }
    }
  }

  lemma TimeNames(attribute: string)
    ensures IsTimestampAttribute(attribute) ==> Lower(attribute) != "objectclass"
  {
    assert "createtimestamp"[0] == 'c' && "modifytimestamp"[0] == 'm' && "objectclass"[0] == 'o';
    hide Lower;
  }

  lemma TimestampMeans(f: Filter, k: nat, t: Tables, row: EntryRow, e: Entry, args: seq<string>)
    requires (f.GreaterOrEqual? || f.LessOrEqual?) && CanCompileToSql(f) && CompileToSql(f).Compiled?
    requires IsLoaded(e, t, row) && GoodRow(row)
    requires k + |CompileToSql(f).args| <= |args| && args[k..k + |CompileToSql(f).args|] == CompileToSql(f).args
    ensures Eval(Intended(f, k), Scope(row, NO_ATTR), t.attributes, args) == Matches(f, e)
  {
    hide Collect, Lower, StringLe, SqlDateTime, StripZone, IsTimestamp;
    var own := CompileToSql(f).args;
    assert own[0] == args[k..k + |own|][0] == args[k];
    var bound, ts := StripZone(f.value), if Lower(f.attribute) == "createtimestamp" then row.createdAt else row.updatedAt;
    TimeIsStripped(ts);
    SqlDateTimeOrder(bound, ts);
    SqlDateTimeOrder(ts, bound);
    assert FilterAttributeValues(e, f.attribute) == [FormatLdapTimestamp(ts)];
  }

  lemma TimeIsStripped(ts: Timestamp)
    requires IsTimestamp(ts)
    ensures |ts| == 14 && ts != ZERO_TIME && StripZone(FormatLdapTimestamp(ts)) == ts
  {
    assert ts[13] in ts;
  }

  lemma LeafMeans(f: Filter, k: nat, t: Tables, row: EntryRow, e: Entry, args: seq<string>)
    requires CanCompileToSql(f) && CompileToSql(f).Compiled? && !f.And? && !f.Or? && !f.Not?
    requires IsLoaded(e, t, row) && NamedAttributes(t.attributes) && GoodRow(row)
    requires k + |CompileToSql(f).args| <= |args| && args[k..k + |CompileToSql(f).args|] == CompileToSql(f).args
    ensures Eval(Intended(f, k), Scope(row, NO_ATTR), t.attributes, args) == Matches(Blind(f), e)
  {
    hide IsLoaded, NamedAttributes, GoodRow, Eval, Intended, Lower, CompileToSql, IsComputedAttribute, IsTimestampAttribute;
    if IsTimeTest(f) {
      TimeTestFindsNothing(f, k, t, row, args);
    } else {
      match f
      case Equality(_, _) => EqualityMeans(f, k, t, row, e, args);
      case Present(_) => PresentMeans(f, k, t, row, e, args);
      case Substrings(_, _) => SubstringsMeans(f, k, t, row, e, args);
      case GreaterOrEqual(_, _) => TimestampMeans(f, k, t, row, e, args);
      case LessOrEqual(_, _) => TimestampMeans(f, k, t, row, e, args);
    }
  }

  /**
   For every compilable filter, however nested, the clause evaluated on a row gives the answer
   Matches gives on the entry of that row, with the tests on times blinded.
   */
  lemma {:induction false} IntendedMeans(f: Filter, k: nat, t: Tables, row: EntryRow, e: Entry, args: seq<string>)
    requires CanCompileToSql(f) && CompileToSql(f).Compiled?
    requires IsLoaded(e, t, row) && NamedAttributes(t.attributes) && GoodRow(row)
    requires k + |CompileToSql(f).args| <= |args| && args[k..k + |CompileToSql(f).args|] == CompileToSql(f).args
    ensures Eval(Intended(f, k), Scope(row, NO_ATTR), t.attributes, args) == Matches(Blind(f), e)
    decreases f, 1
  {
    hide IsLoaded, NamedAttributes, GoodRow, Matches;
    match f
    case And(filters) =>
      BlindJoined(filters, e);
      if filters != [] { JoinedMeans(filters, KwAnd, k, t, row, e, args); }
    case Or(filters) =>
      BlindJoined(filters, e);
      if filters != [] { JoinedMeans(filters, KwOr, k, t, row, e, args); }
    case Not(filters) =>
      BlindJoined(filters, e);
      IntendedMeans(filters[0], k, t, row, e, args);
    case _ => LeafMeans(f, k, t, row, e, args);
  }

  lemma {:induction false} JoinedMeans(filters: seq<Filter>, joiner: Token, k: nat, t: Tables, row: EntryRow, e: Entry,
                                       args: seq<string>)
    requires filters != [] && (joiner == KwAnd || joiner == KwOr)
    requires forall g :: g in filters ==> CanCompileToSql(g)
    requires CompileJoined(filters, joiner).Compiled?
    requires IsLoaded(e, t, row) && NamedAttributes(t.attributes) && GoodRow(row)
    requires var own := CompileJoined(filters, joiner).args; k + |own| <= |args| && args[k..k + |own|] == own
    ensures Eval(IntendedJoined(filters, joiner, k), Scope(row, NO_ATTR), t.attributes, args) ==
      if joiner == KwAnd then (forall g :: g in filters ==> Matches(Blind(g), e))
      else (exists g :: g in filters && Matches(Blind(g), e))
    decreases filters, 0
  {
    hide Matches, Blind, Intended, CanCompileToSql, CompileToSql, IsLoaded, NamedAttributes, GoodRow;
    var own, first := CompileJoined(filters, joiner).args, CompileToSql(filters[0]).args;
    var rest := filters[1..];
    SliceStart(args, k, own, |first|);
    IntendedMeans(filters[0], k, t, row, e, args);
    assert filters == [filters[0]] + rest;
    if |filters| > 1 {
      SliceEnd(args, k, own, |first|);
      JoinedMeans(rest, joiner, k + |first|, t, row, e, args);
    }
  }

  lemma SliceStart(args: seq<string>, k: nat, own: seq<string>, n: nat)
    requires n <= |own| && k + |own| <= |args| && args[k..k + |own|] == own
    ensures args[k..k + n] == own[..n]
  {
    var x := args[k..k + |own|];
    assert args[k..k + n] == x[..n];
  }

  lemma SliceEnd(args: seq<string>, k: nat, own: seq<string>, n: nat)
    requires n <= |own| && k + |own| <= |args| && args[k..k + |own|] == own
    ensures args[k + n..k + |own|] == own[n..]
  {
    var x := args[k..k + |own|];
    assert args[k + n..k + |own|] == x[n..];
  }

  /** On any row at all, presence of the class is that it is not empty. */
  lemma ClassPresence(k: nat, attributes: seq<AttrRow>, row: EntryRow, args: seq<string>)
    ensures Eval(Intended(Present("objectClass"), k), Scope(row, NO_ATTR), attributes, args) <==> row.objectClass != ""
  {
    assert Lower("objectClass") == "objectclass";
    hide Lower;
  }
}
