/** When the filter that is answered is the filter that was asked. */
module SearchLimits {
  import opened Text
  import opened Dn
  import opened Tables
  import opened Filters
  import opened SqlCompiler
  import opened SqlMeaning
  import opened Recursion
  import opened Directory
  import opened DirectoryInvariant
  import opened Membership
  import opened Scope
  import opened SearchQuery
  import opened SearchScan
  import opened SearchRoutes
  import opened Search
  import DnParts

  /** A store as its operations leave it, without outer space around its DNs. */
  ghost predicate GoodStore(t: Tables, base: string) {
    Invariant(t, base) && DnsTrimmed(t)
  }

  /** On every such store, what is answered is what was asked. */
  ghost predicate AlwaysRight(f: Filter) {
    forall t, base, row :: GoodStore(t, base) && row in t.entries ==> (SpecMatches(t, row, Answered(f)) <==> SpecMatches(t, row, f))
  }

  lemma WrongOnce(f: Filter, t: Tables, base: string, row: EntryRow)
    requires GoodStore(t, base) && row in t.entries && SpecMatches(t, row, Answered(f)) != SpecMatches(t, row, f)
    ensures !AlwaysRight(f)
  {
  }

  // ---- Two small stores ----

  const SOME_TIME: Timestamp := "20240101000000"

  /** The base entry alone. */
  function BaseStore(dn: string, time: Timestamp): Tables {
    Tables([EntryRow(1, dn, "", TOP, time, time)], [AttrRow(1, ENTRY_UUID, "a")], [], map[], 2)
  }

  function UserDn(dn: string): string {
    "u," + dn
  }

  /** A group, and below it the user who is its member. */
  function GroupStore(dn: string): Tables {
    Tables([EntryRow(1, dn, "", GROUP_OF_NAMES, SOME_TIME, SOME_TIME), EntryRow(2, UserDn(dn), dn, INET_ORG_PERSON, SOME_TIME, SOME_TIME)],
           [AttrRow(1, ENTRY_UUID, "a"), AttrRow(1, "member", UserDn(dn)), AttrRow(2, ENTRY_UUID, "b")],
           [MemberRow(1, 2)], map[], 3)
  }

  lemma OneMore(rows: seq<AttrRow>, row: AttrRow, id: nat, name: string)
    ensures RowValues(rows + [row], id, name) ==
      RowValues(rows, id, name) + (if row.entryId == id && row.name == name then [row.value] else [])
  {
    RowValuesExtend(rows, row, id, name);
  }

  lemma BaseValues(dn: string, time: Timestamp, name: string)
    ensures RowValues(BaseStore(dn, time).attributes, 1, name) == if name == ENTRY_UUID then ["a"] else []
  {
    OneMore([], AttrRow(1, ENTRY_UUID, "a"), 1, name);
  }

  lemma GroupValues(dn: string, id: nat, name: string)
    ensures RowValues(GroupStore(dn).attributes, id, name) ==
      if id == 1 && name == ENTRY_UUID then ["a"] else if id == 1 && name == "member" then [UserDn(dn)]
      else if id == 2 && name == ENTRY_UUID then ["b"] else []
  {
    hide RowValues;
    var a, b, c := AttrRow(1, ENTRY_UUID, "a"), AttrRow(1, "member", UserDn(dn)), AttrRow(2, ENTRY_UUID, "b");
    OneMore([], a, id, name);
    OneMore([a], b, id, name);
    OneMore([a, b], c, id, name);
    assert [] + [a] == [a] && [a] + [b] == [a, b] && [a, b] + [c] == [a, b, c];
    NoRows(id);
  }

  lemma IsOwnBase(dn: string)
    requires Trimmed(dn) && dn != ""
    ensures TrimSpace(dn) == dn && WithinBase(dn, dn) && Equal(dn, dn)
  {
    hide TrimSpace;
    assert |Lower(dn)| == |dn|;
  }

  lemma BaseStoreGood(dn: string, time: Timestamp)
    requires Trimmed(dn) && dn != "" && IsTimestamp(time)
    ensures GoodStore(BaseStore(dn, time), dn)
  {
    hide WithinBase, Equal, TrimSpace, Trimmed, IsTimestamp, RowValues, Lower, IsGenericStored;
    var t := BaseStore(dn, time);
    IsOwnBase(dn);
    BaseValues(dn, time, ENTRY_UUID);
    StoredNames();
    assert t.entries[0] in t.entries;
    assert RowPlaced(t.entries, dn, t.entries[0]);
  }

  lemma UserPlaced(dn: string)
    requires Trimmed(dn) && dn != ""
    ensures Parent(UserDn(dn)) == dn && WithinBase(UserDn(dn), dn) && !Equal(UserDn(dn), dn)
    ensures !EqualFold(UserDn(dn), dn) && Trimmed(UserDn(dn))
  {
    hide TrimSpace, FirstUnescaped, Lower;
    var u := UserDn(dn);
    assert u[..1] == "u" && u[1..] == "," + dn && "u" + "," + dn == u;
    assert Trimmed("u") && DnParts.Closed("u", ',') by { OneLetter(); }
    DnParts.SplitOfJoined("u", dn);
    DnParts.SplitParent(u);
    assert |Lower(u)| == |u| && |Lower(dn)| == |dn|;
    assert TrimSpace(u) == u && TrimSpace(dn) == dn;
    assert AncestorOrSelf(dn, dn) by { IsOwnBase(dn); }
  }

  lemma OneLetter()
    ensures Trimmed("u") && DnParts.Closed("u", ',')
  {
    assert !IsCut("u", ',', 0);
  }

  lemma GroupStorePlaced(dn: string)
    requires Trimmed(dn) && dn != ""
    ensures Placed(GroupStore(dn), dn) && DnsUnique(GroupStore(dn)) && DnsTrimmed(GroupStore(dn))
  {
    hide WithinBase, Equal, TrimSpace, Trimmed, Lower, Parent;
    var t := GroupStore(dn);
    IsOwnBase(dn);
    UserPlaced(dn);
    assert t.entries[0] in t.entries;
    assert RowPlaced(t.entries, dn, t.entries[0]) && RowPlaced(t.entries, dn, t.entries[1]);
  }

  lemma GroupStoreMembers(dn: string)
    requires Trimmed(dn) && dn != ""
    ensures MembersMatch(GroupStore(dn))
  {
    hide Lower, RowValues, Trimmed, TrimSpace;
    var t, u := GroupStore(dn), UserDn(dn);
    UserPlaced(dn);
    GroupValues(dn, 1, "member");
    assert t.entries[..1] == [t.entries[0]] && t.entries[0] in t.entries && t.entries[1] in t.entries;
    assert ResolveMember(t.entries, u) == 2;
    assert forall id: nat :: MemberRow(1, id) in t.members <==> exists d :: d in [u] && ResolveMember(t.entries, d) == id;
    assert GroupMatches(t, t.entries[0]);
  }

  lemma GroupStoreGood(dn: string)
    requires Trimmed(dn) && dn != ""
    ensures GoodStore(GroupStore(dn), dn)
  {
    hide RowValues, Lower, IsGenericStored, MembersMatch, DnsUnique, Placed, DnsTrimmed, UserDn;
    var t := GroupStore(dn);
    GroupStorePlaced(dn);
    GroupStoreMembers(dn);
    GroupValues(dn, 1, ENTRY_UUID);
    GroupValues(dn, 2, ENTRY_UUID);
    StoredNames();
    assert t.entries[0] in t.entries && t.entries[1] in t.entries;
  }

  // ---- The group shortcut ----

  /** In that store the user is below the group. */
  lemma UserIsBelow(dn: string)
    ensures UserBelow(GroupStore(dn), dn, GroupStore(dn).entries[1])
  {
    hide Lower, UserDn;
    var t := GroupStore(dn);
    assert t.entries[0] in t.entries && t.entries[0].dn == dn;
    assert 1 in IdsWithDn(t.entries, dn);
    assert 2 in WalkFrom(t, 1)(1);
    assert IsChain(WalkFrom(t, 1), 1, 2, 1, [1, 2]);
    assert Chain(WalkFrom(t, 1), 1, 2, 1);
    assert Reaches(WalkFrom(t, 1), 1, 2);
  }

  /** No trimmed DN is a text with outer space. */
  lemma NobodyBelowUntrimmed(t: Tables, dn: string, row: EntryRow)
    requires DnsTrimmed(t) && !Trimmed(dn)
    ensures !UserBelow(t, dn, row)
  {
    hide Reaches, WalkFrom, Lower;
    forall g | g in t.entries ensures !EqualFold(g.dn, dn) {
      if EqualFold(g.dn, dn) {
        FoldKeepsTrimmed(g.dn, dn);
      }
    }
  }

  lemma FoldKeepsTrimmed(a: string, b: string)
    requires EqualFold(a, b) && Trimmed(a)
    ensures Trimmed(b)
  {
    assert |Lower(a)| == |a| && |Lower(b)| == |b|;
    if a != "" {
      assert LowerChar(a[0]) == LowerChar(b[0]) && LowerChar(a[|a| - 1]) == LowerChar(b[|a| - 1]);
      SpaceFolds(a[0], b[0]);
      SpaceFolds(a[|a| - 1], b[|a| - 1]);
    }
  }

  lemma SpaceFolds(x: char, y: char)
    requires LowerChar(x) == LowerChar(y)
    ensures IsSpace(x) == IsSpace(y)
  {
    LowerKeepsSpace(x);
    LowerKeepsSpace(y);
  }

  /**
   A filter that takes the group shortcut is answered rightly on every store if and only if it hides no empty memberOf
   test, or names a group with outer space, which no entry can be.
   */
  lemma GroupShortcutRight(f: Filter)
    requires MemberOfEqualityValue(f).Simple?
    ensures AlwaysRight(f) <==> !HidesEmptyMemberOf(f) || !Trimmed(MemberOfEqualityValue(f).groupDn)
  {
    hide GoodStore, SpecMatches, UserBelow, MemberOfEqualityValue, HidesEmptyMemberOf, Trimmed;
    var dn := MemberOfEqualityValue(f).groupDn;
    if !HidesEmptyMemberOf(f) || !Trimmed(dn) {
      forall t, base, row | GoodStore(t, base) && row in t.entries ensures SpecMatches(t, row, Answered(f)) <==> SpecMatches(t, row, f) {
        GroupAnswerRight(f, t, base, row);
      }
    } else {
      GroupNotEmpty(f);
      GroupStoreGood(dn);
      var t, row := GroupStore(dn), GroupStore(dn).entries[1];
      assert row in t.entries;
      UserIsBelow(dn);
      GroupAnswer(f, t, dn, row);
      GroupAnswerHidden(f, t, dn, row);
      WrongOnce(f, t, dn, row);
    }
  }

  lemma GroupNotEmpty(f: Filter)
    requires HidesEmptyMemberOf(f)
    ensures MemberOfEqualityValue(f).Simple? && MemberOfEqualityValue(f).groupDn != ""
  {
    MemberOfFromMeans(f.filters, "");
  }

  lemma GoodParts(t: Tables, base: string)
    requires GoodStore(t, base)
    ensures IdsOrdered(t) && AttributesClean(t) && GroupsOwnMembers(t) && Placed(t, base) && DnsTrimmed(t)
  {
    hide IdsOrdered, AttributesClean, DnsUnique, Placed, OneUuid, RowsGood, DnsTrimmed;
  }

  /** What the group shortcut answers. */
  lemma GroupAnswer(f: Filter, t: Tables, base: string, row: EntryRow)
    requires MemberOfEqualityValue(f).Simple? && GoodStore(t, base) && row in t.entries
    ensures SpecMatches(t, row, Answered(f)) <==> UserBelow(t, MemberOfEqualityValue(f).groupDn, row)
  {
    hide GoodStore, SpecMatches, UserBelow, MemberOfEqualityValue, FullEntry, IdsOrdered, AttributesClean, GroupsOwnMembers, Placed, DnsTrimmed;
    GoodParts(t, base);
    var e := FullEntryExists(t, row);
    MemberOfTestMeans(t, row, Answered(f), e);
    FullEntryDecides(t, row, Answered(f), e);
  }

  lemma GroupAnswerHidden(f: Filter, t: Tables, base: string, row: EntryRow)
    requires HidesEmptyMemberOf(f) && GoodStore(t, base)
    ensures !SpecMatches(t, row, f)
  {
    hide GoodStore, SpecMatches, HidesEmptyMemberOf, IdsOrdered, AttributesClean, GroupsOwnMembers, Placed, DnsTrimmed;
    GoodParts(t, base);
    HiddenTestMatchesNothing(t, base, f, row);
  }

  lemma GroupAnswerRight(f: Filter, t: Tables, base: string, row: EntryRow)
    requires MemberOfEqualityValue(f).Simple? && GoodStore(t, base) && row in t.entries
    requires !HidesEmptyMemberOf(f) || !Trimmed(MemberOfEqualityValue(f).groupDn)
    ensures SpecMatches(t, row, Answered(f)) <==> SpecMatches(t, row, f)
  {
    hide GoodStore, SpecMatches, UserBelow, MemberOfEqualityValue, HidesEmptyMemberOf, Trimmed, FullEntry, Answered;
    hide IdsOrdered, AttributesClean, GroupsOwnMembers, Placed, DnsTrimmed;
    GoodParts(t, base);
    GroupAnswer(f, t, base, row);
    if HidesEmptyMemberOf(f) {
      GroupAnswerHidden(f, t, base, row);
      NobodyBelowUntrimmed(t, MemberOfEqualityValue(f).groupDn, row);
    } else {
      var e := FullEntryExists(t, row);
      MemberOfRouteExact(t, row, f, e);
      FullEntryDecides(t, row, f, e);
    }
  }

  // ---- Tests on times ----

  /** The test on a time read as the filter has it. */
  predicate TimeTestHolds(f: Filter, time: Timestamp)
    requires IsTimeTest(f)
  {
    match f
    case Equality(_, value) => EqualFold(FormatLdapTimestamp(time), value)
    case Present(_) => true
    case Substrings(_, value) => MatchSubstring(FormatLdapTimestamp(time), value)
  }

  function TimeOf(e: Entry, attribute: string): Timestamp {
    if Lower(attribute) == "createtimestamp" then e.createdAt else e.updatedAt
  }

  lemma TimeTestMatches(f: Filter, e: Entry)
    requires IsTimeTest(f) && IsTimestamp(e.createdAt) && IsTimestamp(e.updatedAt)
    ensures Matches(f, e) <==> TimeTestHolds(f, TimeOf(e, f.attribute))
  {
    TimeNames(f.attribute);
    hide Lower, MatchSubstring;
    assert FilterAttributeValues(e, f.attribute) == [FormatLdapTimestamp(TimeOf(e, f.attribute))];
  }

  /** Blinding the tests on times changes what the filter says of an entry. */
  ghost predicate Notices(f: Filter, e: Entry) {
    match f
    case And(filters) =>
      if Matches(f, e) then exists g :: g in filters && Notices(g, e) else forall g :: g in filters ==> Matches(g, e) != Notices(g, e)
    case Or(filters) =>
      if Matches(f, e) then forall g :: g in filters ==> Matches(g, e) == Notices(g, e) else exists g :: g in filters && Notices(g, e)
    case Not(filters) => filters != [] && Notices(filters[0], e)
    case _ => IsTimeTest(f) && TimeTestHolds(f, TimeOf(e, f.attribute))
  }

  lemma {:induction false} BlindDiffers(f: Filter, e: Entry)
    requires IsTimestamp(e.createdAt) && IsTimestamp(e.updatedAt)
    ensures Matches(Blind(f), e) == (Matches(f, e) != Notices(f, e))
    decreases f
  {
    hide IsTimestamp, TimeTestHolds, IsTimestampAttribute, IsTimeTest, FilterAttributeValues, TimeOf, MatchSubstring;
    match f
    case And(filters) =>
      forall g | g in filters ensures Matches(Blind(g), e) == (Matches(g, e) != Notices(g, e)) { BlindDiffers(g, e); }
      JoinedDiffer(filters, e);
    case Or(filters) =>
      forall g | g in filters ensures Matches(Blind(g), e) == (Matches(g, e) != Notices(g, e)) { BlindDiffers(g, e); }
      JoinedDiffer(filters, e);
    case Not(filters) =>
      BlindJoined(filters, e);
      if filters != [] { BlindDiffers(filters[0], e); }
    case _ => LeafDiffers(f, e);
  }

  lemma LeafDiffers(f: Filter, e: Entry)
    requires !f.And? && !f.Or? && !f.Not? && IsTimestamp(e.createdAt) && IsTimestamp(e.updatedAt)
    ensures Matches(Blind(f), e) == (Matches(f, e) != Notices(f, e))
  {
    hide IsTimestamp, TimeTestHolds, IsTimestampAttribute, FilterAttributeValues, TimeOf, MatchSubstring;
    if IsTimeTest(f) {
      TimeTestMatches(f, e);
    }
  }

  lemma JoinedDiffer(filters: seq<Filter>, e: Entry)
    requires forall g :: g in filters ==> Matches(Blind(g), e) == (Matches(g, e) != Notices(g, e))
    ensures Matches(Blind(And(filters)), e) == (Matches(And(filters), e) != Notices(And(filters), e))
    ensures Matches(Blind(Or(filters)), e) == (Matches(Or(filters), e) != Notices(Or(filters), e))
  {
    BlindJoined(filters, e);
    AnyOf(filters, e);
    hide Matches, Blind, BlindAll, Notices;
    assert Blind(And(filters)) == And(BlindAll(filters)) && Blind(Or(filters)) == Or(BlindAll(filters)) by { BlindUnfolds(filters); }
    NoticesUnfolds(filters, e);
  }

  lemma BlindUnfolds(filters: seq<Filter>)
    ensures Blind(And(filters)) == And(BlindAll(filters)) && Blind(Or(filters)) == Or(BlindAll(filters))
  {
  }

  lemma AnyOf(filters: seq<Filter>, e: Entry)
    ensures Matches(And(filters), e) <==> forall g :: g in filters ==> Matches(g, e)
    ensures Matches(Or(filters), e) <==> exists g :: g in filters && Matches(g, e)
  {
  }

  lemma NoticesUnfolds(filters: seq<Filter>, e: Entry)
    ensures Notices(And(filters), e) == if Matches(And(filters), e) then exists g :: g in filters && Notices(g, e)
      else forall g :: g in filters ==> Matches(g, e) != Notices(g, e)
    ensures Notices(Or(filters), e) == if Matches(Or(filters), e) then forall g :: g in filters ==> Matches(g, e) == Notices(g, e)
      else exists g :: g in filters && Notices(g, e)
  {
  }

  /** On a stored entry a filter that does not use memberOf says what it says of the loaded entry. */
  lemma LoadedDecides(t: Tables, base: string, row: EntryRow, f: Filter)
    requires GoodStore(t, base) && row in t.entries && !UsesComputed(f)
    ensures SpecMatches(t, row, f) <==> Matches(f, LoadEntry(t, row))
    ensures IsTimestamp(row.createdAt) && IsTimestamp(row.updatedAt)
  {
    hide Matches, SpecMatches, UsesComputed, FullEntry, Represents, LoadEntry, IsTimestamp, Invariant, IdsOrdered, AttributesClean;
    InvariantParts(t, base, row);
    LoadedRepresents(t, row);
    FullEntryDecides(t, row, f, LoadEntry(t, row));
  }

  /**
   A compiled search is right on a store if and only if no entry in scope is one whose times the filter notices;
   with no test on a time in the filter there are none.
   */
  lemma CompiledSearchRight(t: Tables, base: string, f: Filter, scope: SearchScope, searchBase: string)
    requires GoodStore(t, base) && Compiles(f) && MemberOfEqualityValue(f).NotSimple?
    ensures Expected(t, Answered(f), scope, searchBase) == Expected(t, f, scope, searchBase) <==>
      forall row :: row in t.entries && InSearchScope(scope, searchBase, row.dn, row.parentDn) ==> !Notices(f, LoadEntry(t, row))
    ensures NoTimeTest(f) ==> Answered(f) == f
  {
    hide GoodStore, Blind, Matches, SpecMatches, InSearchScope, LoadEntry, Notices, NoTimeTest, MemberOfEqualityValue, CanCompileToSql;
    hide Expected, CompileToSql, IdsOrdered;
    BlindIsSame(f);
    CompilableUsesNoComputed(f);
    BlindUsesNoComputed(f);
    assert IdsOrdered(t) by { GoodParts(t, base); }
    forall row | row in t.entries
      ensures SpecMatches(t, row, Blind(f)) == (SpecMatches(t, row, f) != Notices(f, LoadEntry(t, row)))
    {
      LoadedDecides(t, base, row, f);
      LoadedDecides(t, base, row, Blind(f));
      LoadedTimes(t, row);
      BlindDiffers(f, LoadEntry(t, row));
    }
    ExpectedDiffer(t, Blind(f), f, scope, searchBase);
  }

  lemma LoadedTimes(t: Tables, row: EntryRow)
    ensures LoadEntry(t, row).createdAt == row.createdAt && LoadEntry(t, row).updatedAt == row.updatedAt
  {
  }

  lemma ExpectedDiffer(t: Tables, f: Filter, g: Filter, scope: SearchScope, base: string)
    requires IdsOrdered(t)
    ensures Expected(t, f, scope, base) == Expected(t, g, scope, base) <==>
      forall row :: row in t.entries && InSearchScope(scope, base, row.dn, row.parentDn) ==>
        (SpecMatches(t, row, f) <==> SpecMatches(t, row, g))
  {
    hide IdsOrdered, SpecMatches, InSearchScope, Expected, IdsInScope;
    forall row | row in t.entries && InSearchScope(scope, base, row.dn, row.parentDn)
      ensures (row.id in Expected(t, f, scope, base) <==> SpecMatches(t, row, f))
        && (row.id in Expected(t, g, scope, base) <==> SpecMatches(t, row, g))
    {
      InIdsInScope(t, scope, base, row);
      ExpectedRow(t, f, scope, base, row);
      ExpectedRow(t, g, scope, base, row);
    }
    if forall row :: row in t.entries && InSearchScope(scope, base, row.dn, row.parentDn) ==>
        (SpecMatches(t, row, f) <==> SpecMatches(t, row, g))
    {
      SameExpected(t, f, g, scope, base);
    }
  }

  lemma InIdsInScope(t: Tables, scope: SearchScope, base: string, row: EntryRow)
    requires row in t.entries && InSearchScope(scope, base, row.dn, row.parentDn)
    ensures row.id in IdsInScope(t, scope, base)
  {
    hide InSearchScope;
  }

  lemma SameExpected(t: Tables, f: Filter, g: Filter, scope: SearchScope, base: string)
    requires forall row :: row in t.entries && InSearchScope(scope, base, row.dn, row.parentDn) ==>
        (SpecMatches(t, row, f) <==> SpecMatches(t, row, g))
    ensures Expected(t, f, scope, base) == Expected(t, g, scope, base)
  {
    hide SpecMatches, InSearchScope;
  }

  lemma TimeTestAnswer(f: Filter)
    requires IsTimeTest(f) && Compiles(f)
    ensures Answered(f) == Or([]) && MemberOfEqualityValue(f).NotSimple? && !UsesComputed(f)
  {
    assert Lower("memberOf") == "memberof";
    assert "createtimestamp"[0] == 'c' && "modifytimestamp"[1] == 'o' && "memberof"[0] == 'm' && "memberof"[1] == 'e';
    hide Lower;
  }

  /** A single test on a time is answered rightly on every store if and only if no time satisfies it. */
  lemma TimeTestRight(f: Filter)
    requires IsTimeTest(f) && Compiles(f)
    ensures AlwaysRight(f) <==> forall time :: IsTimestamp(time) ==> !TimeTestHolds(f, time)
  {
    hide GoodStore, SpecMatches, TimeTestHolds, IsTimestamp, Answered, IsTimeTest, Compiles;
    TimeTestAnswer(f);
    if time :| IsTimestamp(time) && TimeTestHolds(f, time) {
      var t := BaseStore("dc=b", time);
      assert Trimmed("dc=b");
      BaseStoreGood("dc=b", time);
      assert t.entries[0] in t.entries;
      TimeTestOnRow(t, "dc=b", t.entries[0], f);
      WrongOnce(f, t, "dc=b", t.entries[0]);
    } else {
      forall t, base, row | GoodStore(t, base) && row in t.entries ensures SpecMatches(t, row, Answered(f)) <==> SpecMatches(t, row, f) {
        TimeTestOnRow(t, base, row, f);
      }
    }
  }

  /** What is asked and what is answered on one row. */
  lemma TimeTestOnRow(t: Tables, base: string, row: EntryRow, f: Filter)
    requires GoodStore(t, base) && row in t.entries && IsTimeTest(f) && Compiles(f)
    ensures var time := if Lower(f.attribute) == "createtimestamp" then row.createdAt else row.updatedAt;
      IsTimestamp(time) && (SpecMatches(t, row, f) <==> TimeTestHolds(f, time)) && !SpecMatches(t, row, Answered(f))
  {
    hide GoodStore, SpecMatches, TimeTestHolds, IsTimestamp, Answered, Compiles, IsTimestampAttribute, LoadEntry, Lower;
    TimeTestAnswer(f);
    LoadedDecides(t, base, row, f);
    LoadedDecides(t, base, row, Or([]));
    LoadedTimes(t, row);
    TimeTestMatches(f, LoadEntry(t, row));
  }

  /** A value that is a time with its zone letter. */
  predicate NamesTime(value: string) {
    |value| == 15 && IsTimestamp(value[..14]) && (value[14] == 'Z' || value[14] == 'z')
  }

  lemma DigitsFold(s: string, t: string)
    requires EqualFold(s, t) && forall c :: c in s ==> '0' <= c <= '9'
    ensures s == t
  {
    assert |Lower(s)| == |s| && |Lower(t)| == |t|;
    forall i | 0 <= i < |s| ensures s[i] == t[i] {
      assert s[i] in s && LowerChar(s[i]) == LowerChar(t[i]);
    }
  }

  lemma NamesTimeExact(value: string)
    ensures NamesTime(value) <==> exists time :: IsTimestamp(time) && EqualFold(FormatLdapTimestamp(time), value)
  {
    hide Lower;
    if NamesTime(value) {
      var time := value[..14];
      assert value == time + [value[14]];
      LowerConcat(time, "Z");
      LowerConcat(time, [value[14]]);
      assert Lower("Z") == Lower("z") by { ZoneFolds(); }
      assert EqualFold(FormatLdapTimestamp(time), value);
    }
    if time :| IsTimestamp(time) && EqualFold(FormatLdapTimestamp(time), value) {
      assert |Lower(value)| == |value| && |Lower(time + "Z")| == 15;
      LowerSlice(value, 0, 14);
      LowerSlice(time + "Z", 0, 14);
      LowerSlice(value, 14, 15);
      LowerSlice(time + "Z", 14, 15);
      assert (time + "Z")[0..14] == time && (time + "Z")[14..15] == "Z" && value[0..14] == value[..14];
      DigitsFold(time, value[..14]);
      assert value[14..15] == [value[14]];
      ZoneLetter(value[14]);
    }
  }

  lemma ZoneFolds()
    ensures Lower("Z") == Lower("z")
  {
  }

  lemma ZoneLetter(c: char)
    requires Lower([c]) == Lower("Z")
    ensures c == 'Z' || c == 'z'
  {
    assert Lower([c])[0] == LowerChar(c) && Lower("Z")[0] == LowerChar('Z');
  }

  /** An equality test on a time is answered rightly on every store if and only if its value is not a time. */
  lemma TimeEqualityRight(attribute: string, value: string)
    requires IsTimestampAttribute(attribute)
    ensures AlwaysRight(Equality(attribute, value)) <==> !NamesTime(value)
  {
    hide AlwaysRight, NamesTime, IsTimestamp, IsTimestampAttribute, FormatLdapTimestamp, EqualFold;
    var f := Equality(attribute, value);
    TimeTestCompiles(f);
    TimeTestRight(f);
    NamesTimeExact(value);
    assert forall time :: TimeTestHolds(f, time) <==> EqualFold(FormatLdapTimestamp(time), value);
  }

  /** A presence test on a time never is. */
  lemma TimePresenceWrong(attribute: string)
    requires IsTimestampAttribute(attribute)
    ensures !AlwaysRight(Present(attribute))
  {
    hide AlwaysRight, IsTimestampAttribute;
    var f := Present(attribute);
    TimeTestCompiles(f);
    TimeTestRight(f);
    assert IsTimestamp(SOME_TIME) && TimeTestHolds(f, SOME_TIME) by { SomeTimeIsTime(); }
  }

  lemma SomeTimeIsTime()
    ensures IsTimestamp(SOME_TIME)
  {
    assert SOME_TIME[0] == '2' && ZERO_TIME[0] == '0';
  }

  lemma TimeTestCompiles(f: Filter)
    requires IsTimeTest(f) && (f.Equality? || f.Present?)
    ensures Compiles(f)
  {
    assert "createtimestamp"[0] == 'c' && "modifytimestamp"[1] == 'o' && "memberof"[0] == 'm' && "memberof"[1] == 'e';
    TimeNames(f.attribute);
    hide Lower;
  }
}
