/** SearchEntriesWithOptions: whichever route it takes, the answer is the naive one. */
module Search {
  import opened Text
  import opened Dn
  import opened Tables
  import opened Filters
  import opened FilterParser
  import opened SqlCompiler
  import opened SqlMeaning
  import opened DirectoryInvariant
  import opened Membership
  import opened Scope
  import opened SearchQuery
  import opened SearchScan
  import opened SearchRoutes

  datatype Options = Options(base: string, filter: string, scope: SearchScope, includeMemberOf: bool)

  datatype Answer = ParseFailed | Entries(entries: seq<Entry>)

  // ---- What a search must return ----

  /** The entries in scope that the filter matches. */
  ghost function Expected(t: Tables, f: Filter, scope: SearchScope, base: string): set<nat> {
    set row | row in t.entries && InSearchScope(scope, base, row.dn, row.parentDn) && SpecMatches(t, row, f) :: row.id
  }

  /** Exactly these entries, each once, with all their values and with memberOf as asked for. */
  ghost predicate IsAnswer(t: Tables, entries: seq<Entry>, ids: set<nat>, includeMemberOf: bool) {
    && DistinctIds(entries)
    && (forall e :: e in entries ==> exists row :: IsEntryOf(t, row, e, includeMemberOf))
    && (forall id :: id in ids <==> ListsId(entries, id))
  }

  ghost predicate IsEntryOf(t: Tables, row: EntryRow, e: Entry, populated: bool) {
    if populated then FullEntry(t, row, e) else Represents(t, row, e)
  }

  /** The searches whose scope the two scope tests agree on. */
  ghost predicate ScopeInReach(t: Tables, directoryBase: string, scope: SearchScope, base: string) {
    && DnsTrimmed(t) && Trimmed(base)
    && (scope == WholeSubtree ==> !AboveDirectory(base, directoryBase) && forall e :: e in t.entries ==> WithinReach(e, base))
  }

  // ---- The queries ----

  function SelectedIds(t: Tables, q: Query, rows: seq<EntryRow>): set<nat> {
    set row | row in rows && Selects(t, q, row) :: row.id
  }

  /** SELECT ... GROUP BY e.id: one result for each selected row. */
  method QueryEntries(t: Tables, q: Query) returns (entries: seq<Entry>)
    requires IdsOrdered(t)
    ensures Lists(t, entries, SelectedIds(t, q, t.entries))
  {
    hide Selects, Lists, Collect;
    entries := [];
    NothingListed(t);
    assert SelectedIds(t, q, t.entries[..0]) == {};
    for i := 0 to |t.entries|
      invariant Lists(t, entries, SelectedIds(t, q, t.entries[..i]))
    {
      var row := t.entries[i];
      ghost var before := SelectedIds(t, q, t.entries[..i]);
      assert t.entries[..i + 1] == t.entries[..i] + [row];
      assert row.id !in before;
      assert SelectedIds(t, q, t.entries[..i + 1]) == if Selects(t, q, row) then before + {row.id} else before;
      if Selects(t, q, row) {
        ListsMore(t, entries, before, row);
        entries := entries + [LoadEntry(t, row)];
      }
    }
    assert t.entries[..|t.entries|] == t.entries;
  }

  lemma NothingListed(t: Tables)
    ensures Lists(t, [], {})
  {
  }

  lemma ListsMore(t: Tables, entries: seq<Entry>, chosen: set<nat>, row: EntryRow)
    requires Lists(t, entries, chosen) && row in t.entries && row.id !in chosen
    ensures Lists(t, entries + [LoadEntry(t, row)], chosen + {row.id})
  {
    hide Represents, Collect;
    LoadedRepresents(t, row);
    var after := entries + [LoadEntry(t, row)];
    assert after[|entries|].id == row.id;
    forall id | id in chosen ensures exists e :: e in after && e.id == id {
      var e :| e in entries && e.id == id;
      assert e in after;
    }
  }

  /** SELECT ... LEFT JOIN attributes ... ORDER BY e.id, for the chosen entries. */
  method QueryJoined(t: Tables, chosen: set<nat>) returns (rows: seq<JoinRow>)
    requires IdsOrdered(t)
    ensures JoinsChosen(t, chosen, rows)
  {
    hide InLeftJoin;
    rows := [];
    for i := 0 to |t.entries|
      invariant Sorted(rows)
      invariant forall r :: r in rows <==> r.row in t.entries[..i] && r.row.id in chosen && InLeftJoin(t.attributes, r)
    {
      var row := t.entries[i];
      assert t.entries[..i + 1] == t.entries[..i] + [row];
      if row.id in chosen {
        var own := JoinEntry(t, row);
        SortedMore(rows, own, row);
        rows := rows + own;
      }
    }
    assert t.entries[..|t.entries|] == t.entries;
  }

  lemma SortedMore(rows: seq<JoinRow>, own: seq<JoinRow>, row: EntryRow)
    requires Sorted(rows) && (forall r :: r in rows ==> r.row.id <= row.id) && forall r :: r in own ==> r.row == row
    ensures Sorted(rows + own)
  {
  }

  method JoinEntry(t: Tables, row: EntryRow) returns (rows: seq<JoinRow>)
    ensures forall r :: r in rows <==> r.row == row && InLeftJoin(t.attributes, r)
  {
    rows := [];
    for i := 0 to |t.attributes|
      invariant forall r :: r in rows <==>
        r.row == row && r.joined.Joined? && r.joined.attribute in t.attributes[..i] && r.joined.attribute.entryId == row.id
    {
      assert t.attributes[..i + 1] == t.attributes[..i] + [t.attributes[i]];
      if t.attributes[i].entryId == row.id {
        rows := rows + [JoinRow(row, Joined(t.attributes[i]))];
      }
    }
    assert t.attributes[..|t.attributes|] == t.attributes;
    if rows == [] {
      forall a | a in t.attributes ensures a.entryId != row.id {
        assert a.entryId == row.id ==> JoinRow(row, Joined(a)) in rows;
      }
      rows := [JoinRow(row, NoAttribute)];
    } else {
      assert rows[0] in rows;
    }
  }

  // ---- The two scope tests ----

  lemma TrimmedEqual(a: string, b: string)
    requires Trimmed(a) && Trimmed(b)
    ensures Equal(a, b) <==> EqualFold(a, b)
  {
    hide TrimSpace, Lower;
  }

  lemma SqlScopeAgrees(t: Tables, directoryBase: string, scope: SearchScope, base: string, row: EntryRow)
    requires Placed(t, directoryBase) && row in t.entries && ScopeInReach(t, directoryBase, scope, base)
    ensures InSqlScope(t, scope, base, row) <==> InSearchScope(scope, base, row.dn, row.parentDn)
  {
    hide InSubtree, Equal, EqualFold, WithinBase, AboveDirectory, Placed, Trimmed;
    match scope
    case BaseObject => TrimmedEqual(row.dn, base);
    case SingleLevel =>
      ParentTrimmed(t, directoryBase, row);
      TrimmedEqual(row.parentDn, base);
    case WholeSubtree => SubtreeAgrees(t, directoryBase, base, row);
  }

  lemma ParentTrimmed(t: Tables, directoryBase: string, row: EntryRow)
    requires Placed(t, directoryBase) && row in t.entries
    ensures Trimmed(row.parentDn)
  {
    hide Equal, WithinBase, Trimmed;
    var i: int :| 0 <= i < |t.entries| && t.entries[i] == row;
    assert RowPlaced(t.entries, directoryBase, row);
    assert Trimmed("") by { NothingTrimmed(); }
  }

  lemma NothingTrimmed()
    ensures Trimmed("")
  {
  }

  // ---- From lists to answers ----

  lemma ListsAnswer(t: Tables, entries: seq<Entry>, ids: set<nat>)
    ensures Lists(t, entries, ids) <==> IsAnswer(t, entries, ids, false)
  {
    hide Represents, FullEntry, DistinctIds;
    if Lists(t, entries, ids) {
      forall e | e in entries ensures exists row :: IsEntryOf(t, row, e, false) {
        var row :| Represents(t, row, e);
        assert IsEntryOf(t, row, e, false);
      }
    }
    if IsAnswer(t, entries, ids, false) {
      forall e | e in entries ensures exists row :: Represents(t, row, e) {
        var row :| IsEntryOf(t, row, e, false);
      }
    }
  }

  lemma PopulatedId(t: Tables, before: Entry, after: Entry)
    requires Populated(t, before, after)
    ensures after.id == before.id
  {
  }

  lemma PopulatedAnswer(t: Tables, before: seq<Entry>, after: seq<Entry>, ids: set<nat>)
    requires IsAnswer(t, before, ids, false) && |after| == |before|
    requires forall i :: 0 <= i < |before| ==>
      if Shadowed(before, i) && WantsMemberOf(before[i]) then after[i] == before[i] else Populated(t, before[i], after[i])
    ensures IsAnswer(t, after, ids, true)
  {
    hide Represents, Populated;
    assert forall i :: 0 <= i < |before| ==> !Shadowed(before, i);
    forall i | 0 <= i < |before| ensures after[i].id == before[i].id {
      PopulatedId(t, before[i], after[i]);
    }
    forall e | e in after ensures exists row :: IsEntryOf(t, row, e, true) {
      var i: int :| 0 <= i < |after| && after[i] == e;
      assert before[i] in before;
      var row :| IsEntryOf(t, row, before[i], false);
      assert FullEntry(t, row, e);
      assert IsEntryOf(t, row, e, true);
    }
    SameIds(before, after);
  }

  lemma SameIds(before: seq<Entry>, after: seq<Entry>)
    requires |after| == |before| && forall i :: 0 <= i < |before| ==> after[i].id == before[i].id
    ensures forall id :: ListsId(before, id) <==> ListsId(after, id)
  {
    forall id ensures ListsId(before, id) <==> ListsId(after, id) {
      if e :| e in before && e.id == id {
        var i: int :| 0 <= i < |before| && before[i] == e;
        assert after[i] in after;
      }
      if e :| e in after && e.id == id {
        var i: int :| 0 <= i < |after| && after[i] == e;
        assert before[i] in before;
      }
    }
  }

  function ClearComputed(e: Entry): Entry {
    e.(computed := e.computed - {"memberof"})
  }

  lemma ClearedAnswer(t: Tables, before: seq<Entry>, after: seq<Entry>, ids: set<nat>)
    requires IdsOrdered(t) && IsAnswer(t, before, ids, true)
    requires |after| == |before| && forall i :: 0 <= i < |before| ==> after[i] == ClearComputed(before[i])
    ensures IsAnswer(t, after, ids, false)
  {
    hide Represents, Populated;
    forall e | e in after ensures exists row :: IsEntryOf(t, row, e, false) {
      var i: int :| 0 <= i < |after| && after[i] == e;
      assert before[i] in before;
      var row :| IsEntryOf(t, row, before[i], true);
      var loaded :| Represents(t, row, loaded) && Populated(t, loaded, before[i]);
      PopulatedHasMemberOf(t, row, loaded, before[i]);
      RepresentsColumns(t, row, loaded);
      assert e == loaded;
      assert IsEntryOf(t, row, e, false);
    }
    SameIds(before, after);
  }

  /** Matching the listed entries leaves the expected ones. */
  lemma KeepAnswer(t: Tables, entries: seq<Entry>, f: Filter, scope: SearchScope, base: string, populated: bool)
    requires IdsOrdered(t) && AttributesClean(t)
    requires IsAnswer(t, entries, IdsInScope(t, scope, base), populated) && (populated || !UsesComputed(f))
    ensures IsAnswer(t, Keep(entries, MatchTest(f)), Expected(t, f, scope, base), populated)
  {
    hide IdsOrdered, AttributesClean, IsEntryOf, Matches, Keep, Expected, IdsInScope, DistinctIds, ListsId;
    KeepDistinct(entries, MatchTest(f));
    var kept, ids := Keep(entries, MatchTest(f)), Expected(t, f, scope, base);
    forall e | e in entries ensures Matches(f, e) <==> e.id in ids {
      var row :| IsEntryOf(t, row, e, populated);
      AnswerRow(t, row, e, populated);
      EntryOfDecides(t, row, f, e, populated);
      assert e.id in IdsInScope(t, scope, base) by { ListsOwnId(entries, e); }
      ExpectedRow(t, f, scope, base, row);
    }
    forall id ensures id in ids <==> ListsId(kept, id) {
      if id in ids {
        ExpectedInScope(t, f, scope, base, id);
        ListedId(entries, id);
        var e :| e in entries && e.id == id;
        ListsOwnId(kept, e);
      }
      if ListsId(kept, id) {
        ListedId(kept, id);
      }
    }
  }

  lemma ListsOwnId(entries: seq<Entry>, e: Entry)
    requires e in entries
    ensures ListsId(entries, e.id)
  {
  }

  lemma EntryOfDecides(t: Tables, row: EntryRow, f: Filter, e: Entry, populated: bool)
    requires IdsOrdered(t) && AttributesClean(t) && IsEntryOf(t, row, e, populated) && (populated || !UsesComputed(f))
    ensures Matches(f, e) <==> SpecMatches(t, row, f)
  {
    hide IdsOrdered, AttributesClean, FullEntry, Represents, Matches, SpecMatches, UsesComputed;
    FullEntryDecides(t, row, f, e);
  }

  lemma ExpectedRow(t: Tables, f: Filter, scope: SearchScope, base: string, row: EntryRow)
    requires IdsOrdered(t) && row in t.entries && row.id in IdsInScope(t, scope, base)
    ensures row.id in Expected(t, f, scope, base) <==> SpecMatches(t, row, f)
  {
    hide IdsOrdered, SpecMatches, InSearchScope;
    OneIdOneRow(t, row);
  }

  lemma ExpectedInScope(t: Tables, f: Filter, scope: SearchScope, base: string, id: nat)
    requires id in Expected(t, f, scope, base)
    ensures id in IdsInScope(t, scope, base)
  {
    hide SpecMatches, InSearchScope;
  }

  lemma AnswerRow(t: Tables, row: EntryRow, e: Entry, populated: bool)
    requires IsEntryOf(t, row, e, populated)
    ensures row in t.entries && e.id == row.id
  {
    if populated {
      var loaded :| Represents(t, row, loaded) && Populated(t, loaded, e);
      PopulatedId(t, loaded, e);
    }
  }

  lemma OneIdOneRow(t: Tables, row: EntryRow)
    requires IdsOrdered(t) && row in t.entries
    ensures forall other :: other in t.entries && other.id == row.id ==> other == row
  {
    forall other | other in t.entries && other.id == row.id ensures other == row {
      SameIdSameRow(t, row, other);
    }
  }

  function MatchTest(f: Filter): Entry -> bool {
    (e: Entry) => Matches(f, e)
  }

  // ---- The routes ----

  /** What both shortcuts do with their rows. */
  method ScanInScope(t: Tables, rows: seq<JoinRow>, options: Options, ghost chosen: set<nat>) returns (entries: seq<Entry>)
    requires IdsOrdered(t) && AttributesClean(t) && JoinsChosen(t, chosen, rows)
    requires forall id :: id in chosen ==> HasId(t.entries, id)
    ensures IsAnswer(t, entries, chosen * IdsInScope(t, options.scope, options.base), options.includeMemberOf)
  {
    hide IdsOrdered, AttributesClean, JoinsChosen, Lists, IsAnswer, IdsInScope, Keep, Populated;
    var scanned := ScanRows(rows);
    ScanLists(t, chosen, rows);
    InScopeLists(t, scanned, chosen, options.scope, options.base);
    var buffer := new Entry[|scanned|](i requires 0 <= i < |scanned| => scanned[i]);
    assert buffer[..] == scanned;
    var kept := FilterEntriesByScope(buffer, options.base, options.scope);
    entries := buffer[..kept];
    ghost var ids := chosen * IdsInScope(t, options.scope, options.base);
    ListsAnswer(t, entries, ids);
    if options.includeMemberOf {
      var populated := PopulateMemberOf(t, entries);
      PopulatedAnswer(t, entries, populated, ids);
      entries := populated;
    }
  }

  /** An exact shortcut, cut down to the scope, gives the expected entries. */
  lemma ExpectedFrom(t: Tables, f: Filter, scope: SearchScope, base: string, chosen: set<nat>)
    requires IdsOrdered(t)
    requires forall row :: row in t.entries ==> (row.id in chosen <==> SpecMatches(t, row, f))
    ensures chosen * IdsInScope(t, scope, base) == Expected(t, f, scope, base)
  {
    hide IdsOrdered, SpecMatches, InSearchScope;
    forall row | row in t.entries {
      OneIdOneRow(t, row);
    }
  }

  method SearchByMemberOf(t: Tables, groupDn: string, options: Options) returns (entries: seq<Entry>)
    requires IdsOrdered(t) && AttributesClean(t) && MembersMatch(t)
    ensures IsAnswer(t, entries, Expected(t, Equality("memberOf", groupDn), options.scope, options.base), options.includeMemberOf)
  {
    hide IdsOrdered, AttributesClean, IsAnswer, Expected, FoundBelow, SpecMatches;
    assert GroupsOwnMembers(t);
    hide MembersMatch, GroupsOwnMembers;
    ghost var f := Equality("memberOf", groupDn);
    var found := FindBelow(t, groupDn);
    var chosen := set row | row in t.entries && row.id in found && row.objectClass == INET_ORG_PERSON :: row.id;
    var rows := QueryJoined(t, chosen);
    forall row | row in t.entries ensures row.id in chosen <==> SpecMatches(t, row, f) {
      OneIdOneRow(t, row);
      var e := FullEntryExists(t, row);
      MemberOfTestMeans(t, row, f, e);
      FullEntryDecides(t, row, f, e);
    }
    ExpectedFrom(t, f, options.scope, options.base, chosen);
    entries := ScanInScope(t, rows, options, chosen);
  }

  method SearchByAttribute(t: Tables, f: Filter, options: Options) returns (entries: seq<Entry>)
    requires IdsOrdered(t) && AttributesClean(t) && IsSimpleEquality(f)
    ensures IsAnswer(t, entries, Expected(t, Blind(f), options.scope, options.base), options.includeMemberOf)
  {
    hide IdsOrdered, AttributesClean, IsAnswer, Expected, SpecMatches, Lower, Collect, Blind, Matches, NamedAttributes;
    var chosen := MatchedIds(t, f.attribute, f.value);
    var rows := QueryJoined(t, chosen);
    CleanAreNamed(t);
    SimpleEqualityCompiles(f);
    forall row | row in t.entries ensures row.id in chosen <==> SpecMatches(t, row, Blind(f)) {
      var e := LoadEntry(t, row);
      LoadedRepresents(t, row);
      AttributeRouteExact(t, row, f, e);
      FullEntryDecides(t, row, Blind(f), e);
    }
    assert forall id :: id in chosen ==> HasId(t.entries, id) by { MatchedHaveIds(t, f.attribute, f.value); }
    ExpectedFrom(t, Blind(f), options.scope, options.base, chosen);
    entries := ScanInScope(t, rows, options, chosen);
  }

  /** No attribute row is named as a time. */
  lemma CleanAreNamed(t: Tables)
    requires AttributesClean(t)
    ensures NamedAttributes(t.attributes)
  {
    hide HasId, Lower;
  }

  lemma MatchedHaveIds(t: Tables, attribute: string, value: string)
    requires AttributesClean(t)
    ensures forall id :: id in MatchedIds(t, attribute, value) ==> HasId(t.entries, id)
  {
    hide HasId;
  }

  /** A compiled query answers on its own, its tests on times blinded. */
  lemma CompiledAnswer(t: Tables, directoryBase: string, f: Filter, scope: SearchScope, base: string)
    requires Invariant(t, directoryBase) && ScopeInReach(t, directoryBase, scope, base) && Compiles(f)
    ensures var c := CompileToSql(f);
      SelectedIds(t, BuildQuery(scope, c.clause, base, c.args), t.entries) == Expected(t, Blind(f), scope, base)
  {
    hide CompileToSql, Compiles, Selects, InSearchScope, SpecMatches, BuildQuery, ScopeInReach, Invariant, Blind;
    assert CompileToSql(f).Compiled? by { CompilesToClause(f); }
    forall row | row in t.entries {
      CompiledRow(t, directoryBase, f, scope, base, row);
    }
  }

  lemma CompilesToClause(f: Filter)
    requires Compiles(f)
    ensures CanCompileToSql(f) && CompileToSql(f).Compiled?
  {
  }

  lemma CompiledRow(t: Tables, directoryBase: string, f: Filter, scope: SearchScope, base: string, row: EntryRow)
    requires Invariant(t, directoryBase) && ScopeInReach(t, directoryBase, scope, base) && row in t.entries && Compiles(f)
    ensures var c := CompileToSql(f);
      Selects(t, BuildQuery(scope, c.clause, base, c.args), row) <==>
        (InSearchScope(scope, base, row.dn, row.parentDn) && SpecMatches(t, row, Blind(f)))
  {
    hide CompileToSql, CanCompileToSql, Selects, InSqlScope, InSearchScope, SpecMatches, BuildQuery, ScopeInReach, Blind;
    hide Invariant, Represents, LoadEntry, Matches, NamedAttributes, GoodRow, UsesComputed, FullEntry, IsLoaded, Compiles;
    hide IdsOrdered, AttributesClean, Placed, MembersMatch;
    CompilesToClause(f);
    LoadedIsLoaded(t, row);
    BlindUsesNoComputed(f);
    InvariantParts(t, directoryBase, row);
    LoadedRepresents(t, row);
    CompiledSelects(t, f, scope, base, row, LoadEntry(t, row));
    SqlScopeAgrees(t, directoryBase, scope, base, row);
    FullEntryDecides(t, row, Blind(f), LoadEntry(t, row));
  }

  lemma LoadedIsLoaded(t: Tables, row: EntryRow)
    ensures IsLoaded(LoadEntry(t, row), t, row)
  {
  }

  lemma InvariantParts(t: Tables, directoryBase: string, row: EntryRow)
    requires Invariant(t, directoryBase) && row in t.entries
    ensures IdsOrdered(t) && AttributesClean(t) && Placed(t, directoryBase) && MembersMatch(t)
    ensures NamedAttributes(t.attributes) && GoodRow(row)
  {
    hide IdsOrdered, Placed, MembersMatch, GoodRow, AttributesClean, NamedAttributes;
    CleanAreNamed(t);
  }

  lemma ScopeAnswer(t: Tables, directoryBase: string, scope: SearchScope, base: string)
    requires Placed(t, directoryBase) && ScopeInReach(t, directoryBase, scope, base)
    ensures SelectedIds(t, BuildQuery(scope, ALWAYS_TRUE, base, []), t.entries) == IdsInScope(t, scope, base)
  {
    hide Selects, InSqlScope, InSearchScope, BuildQuery, ScopeInReach, Placed;
    forall row | row in t.entries
      ensures Selects(t, BuildQuery(scope, ALWAYS_TRUE, base, []), row) <==> InSearchScope(scope, base, row.dn, row.parentDn)
    {
      UnfilteredSelects(t, scope, base, row);
      SqlScopeAgrees(t, directoryBase, scope, base, row);
    }
  }

  method KeepMatching(entries: seq<Entry>, f: Filter) returns (r: seq<Entry>)
    ensures r == Keep(entries, MatchTest(f))
  {
    hide Matches, Keep;
    r := [];
    assert entries[..0] == [];
    for i := 0 to |entries|
      invariant r == Keep(entries[..i], MatchTest(f))
    {
      KeepOneMore(entries, i, MatchTest(f));
      if Matches(f, entries[i]) {
        r := r + [entries[i]];
      }
    }
    assert entries[..|entries|] == entries;
  }

  /** The general route: one query, then matching and populating in the cheaper order. */
  method SearchByQuery(t: Tables, f: Filter, options: Options, ghost directoryBase: string) returns (entries: seq<Entry>)
    requires Invariant(t, directoryBase) && ScopeInReach(t, directoryBase, options.scope, options.base)
    ensures IsAnswer(t, entries, Expected(t, if Compiles(f) then Blind(f) else f, options.scope, options.base),
                     options.includeMemberOf)
  {
    hide IdsOrdered, AttributesClean, Placed, MembersMatch, OneUuid, DnsUnique, RowsGood, ScopeInReach, IsAnswer, Expected, Lists;
    hide UsesComputed, CanCompileToSql, CompileToSql, Keep, Populated, SelectedIds, IdsInScope, BuildQuery, Blind;
    var scope, base := options.scope, options.base;
    ghost var answered := if Compiles(f) then Blind(f) else f;
    var clause, args, inMemory := ALWAYS_TRUE, [], true;
    if CanCompileToSql(f) && CompileToSql(f).Compiled? {
      clause, args, inMemory := CompileToSql(f).clause, CompileToSql(f).args, false;
      CompiledAnswer(t, directoryBase, f, scope, base);
      CompilableUsesNoComputed(f);
    } else {
      ScopeAnswer(t, directoryBase, scope, base);
    }
    var all := QueryEntries(t, BuildQuery(scope, clause, base, args));
    ListsAnswer(t, all, if inMemory then IdsInScope(t, scope, base) else Expected(t, answered, scope, base));
    if inMemory && UsesComputed(f) {
      var populated := PopulateMemberOf(t, all);
      PopulatedAnswer(t, all, populated, IdsInScope(t, scope, base));
      entries := KeepMatching(populated, f);
      KeepAnswer(t, populated, f, scope, base, true);
    } else {
      entries := all;
      if inMemory {
        entries := KeepMatching(all, f);
        KeepAnswer(t, all, f, scope, base, false);
      }
      if options.includeMemberOf {
        var populated := PopulateMemberOf(t, entries);
        PopulatedAnswer(t, entries, populated, Expected(t, answered, scope, base));
        entries := populated;
      }
    }
    if UsesComputed(f) && !options.includeMemberOf {
      var cleared := ClearAll(entries);
      ClearedAnswer(t, entries, cleared, Expected(t, answered, scope, base));
      entries := cleared;
    }
  }

  method ClearAll(entries: seq<Entry>) returns (r: seq<Entry>)
    ensures |r| == |entries| && forall i :: 0 <= i < |entries| ==> r[i] == ClearComputed(entries[i])
  {
    r := [];
    for i := 0 to |entries|
      invariant |r| == i && forall j :: 0 <= j < i ==> r[j] == ClearComputed(entries[j])
    {
      r := r + [ClearComputed(entries[i])];
    }
  }

  /**
   SearchEntriesWithOptions: on a directory that keeps its invariant, whichever of the four routes answers,
   the result is exactly the entries in scope whose full entry matches the filter that is answered, each once.
   */
  method SearchEntries(t: Tables, options: Options, ghost directoryBase: string) returns (answer: Answer)
    requires Invariant(t, directoryBase) && ScopeInReach(t, directoryBase, options.scope, options.base)
    ensures answer.ParseFailed? <==> ParseFilter(options.filter).NoItem?
    ensures answer.Entries? ==>
      IsAnswer(t, answer.entries, Expected(t, Answered(ParseFilter(options.filter).filter), options.scope, options.base),
               options.includeMemberOf)
  {
    hide IdsOrdered, AttributesClean, Placed, MembersMatch, OneUuid, DnsUnique, RowsGood, ScopeInReach, IsAnswer, Expected;
    hide ParseFilter, MemberOfEqualityValue, Blind, Compiles;
    match ParseFilter(options.filter) {
      case NoItem => return ParseFailed;
      case Item(f) =>
        var entries: seq<Entry>;
        var group := FindMemberOfValue(f);
        if group.Simple? {
          entries := SearchByMemberOf(t, group.groupDn, options);
        } else if IsSimpleEquality(f) {
          SimpleEqualityCompiles(f);
          entries := SearchByAttribute(t, f, options);
        } else {
          entries := SearchByQuery(t, f, options, directoryBase);
        }
        return Entries(entries);
    }
  }
}
