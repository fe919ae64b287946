/** The shortcuts of a search: which filters take them, and what the filter then means. */
module SearchRoutes {
  import opened Text
  import opened Tables
  import opened Filters
  import opened SqlCompiler
  import opened SqlMeaning
  import opened Recursion
  import opened DirectoryInvariant
  import opened Membership
  import opened SearchScan
  import Scope

  // ---- Choosing a route ----

  datatype GroupTest = NotSimple | Simple(groupDn: string)

  predicate IsMemberOfTest(f: Filter) {
    f.Equality? && EqualFold(f.attribute, "memberOf")
  }

  predicate IsUserTest(f: Filter) {
    f.Equality? && !IsMemberOfTest(f) && EqualFold(f.attribute, "objectClass") && EqualFold(f.value, INET_ORG_PERSON)
  }

  /** The group a conjunction tests, given the one its earlier filters name; "" stands for none. */
  function MemberOfFrom(filters: seq<Filter>, found: string): GroupTest {
    if filters == [] then (if found == "" then NotSimple else Simple(found))
    else
      var f := filters[0];
      if IsMemberOfTest(f) then
        if found != "" && !EqualFold(found, f.value) then NotSimple else MemberOfFrom(filters[1..], f.value)
      else if IsUserTest(f) then MemberOfFrom(filters[1..], found)
      else NotSimple
  }

  function MemberOfEqualityValue(f: Filter): GroupTest {
    if IsMemberOfTest(f) then Simple(f.value)
    else if f.And? then MemberOfFrom(f.filters, "")
    else NotSimple
  }

  /** MemberOfEqualityValue, as the loop it is. */
  method FindMemberOfValue(f: Filter) returns (r: GroupTest)
    ensures r == MemberOfEqualityValue(f)
  {
    if IsMemberOfTest(f) {
      return Simple(f.value);
    }
    if !f.And? {
      return NotSimple;
    }
    var value := "";
    for i := 0 to |f.filters|
      invariant MemberOfFrom(f.filters, "") == MemberOfFrom(f.filters[i..], value)
    {
      var sub := f.filters[i];
      assert f.filters[i..][1..] == f.filters[i + 1..];
      if !sub.Equality? {
        return NotSimple;
      }
      if EqualFold(sub.attribute, "memberOf") {
        if value != "" && !EqualFold(value, sub.value) {
          return NotSimple;
        }
        value := sub.value;
      } else if !(EqualFold(sub.attribute, "objectClass") && EqualFold(sub.value, INET_ORG_PERSON)) {
        return NotSimple;
      }
    }
    r := if value == "" then NotSimple else Simple(value);
  }

  /** SimpleAttributeEquality */
  predicate IsSimpleEquality(f: Filter) {
    f.Equality? && !IsComputedAttribute(f.attribute) && !EqualFold(f.attribute, "objectClass")
  }

  /** FilterUsesComputedAttributes */
  predicate UsesComputed(f: Filter) {
    match f
    case And(filters) => exists g :: g in filters && UsesComputed(g)
    case Or(filters) => exists g :: g in filters && UsesComputed(g)
    case Not(filters) => filters != [] && UsesComputed(filters[0])
    case Equality(attribute, _) => IsComputedAttribute(attribute)
    case Present(attribute) => IsComputedAttribute(attribute)
    case Approx(attribute, _) => IsComputedAttribute(attribute)
    case GreaterOrEqual(attribute, _) => IsComputedAttribute(attribute)
    case LessOrEqual(attribute, _) => IsComputedAttribute(attribute)
    case Substrings(attribute, _) => IsComputedAttribute(attribute)
  }

  lemma {:induction false} CompilableUsesNoComputed(f: Filter)
    requires CanCompileToSql(f)
    ensures !UsesComputed(f)
    decreases f
  {
    hide Lower;
    match f
    case And(filters) => forall g | g in filters ensures !UsesComputed(g) { CompilableUsesNoComputed(g); }
    case Or(filters) => forall g | g in filters ensures !UsesComputed(g) { CompilableUsesNoComputed(g); }
    case Not(filters) => CompilableUsesNoComputed(filters[0]);
    case GreaterOrEqual(_, _) => assert "createtimestamp"[0] == 'c' && "memberof"[0] == 'm' && "modifytimestamp"[1] == 'o';
    case LessOrEqual(_, _) => assert "createtimestamp"[0] == 'c' && "memberof"[0] == 'm' && "modifytimestamp"[1] == 'o';
    case _ =>
  }

  // ---- The specification of a search ----

  /** The entry of a row with its attributes loaded and memberOf populated. */
  ghost predicate FullEntry(t: Tables, row: EntryRow, e: Entry) {
    exists loaded :: Represents(t, row, loaded) && Populated(t, loaded, e)
  }

  /** The naive reading of a filter: build the whole entry, then match. */
  ghost predicate SpecMatches(t: Tables, row: EntryRow, f: Filter) {
    exists e :: FullEntry(t, row, e) && Matches(f, e)
  }

  // ---- Matching sees only which values there are ----

  /** The same columns, and the same values of every attribute (memberOf included if `computed`). */
  ghost predicate SameValues(a: Entry, b: Entry, computed: bool) {
    && a.objectClass == b.objectClass && a.createdAt == b.createdAt && a.updatedAt == b.updatedAt
    && forall name, value :: computed || Lower(name) != "memberof" ==>
        (value in a.GetAttributes(name) <==> value in b.GetAttributes(name))
  }

  lemma SameFilterValues(a: Entry, b: Entry, computed: bool, attribute: string)
    requires SameValues(a, b, computed) && (computed || !IsComputedAttribute(attribute))
    ensures forall v :: v in FilterAttributeValues(a, attribute) <==> v in FilterAttributeValues(b, attribute)
    ensures IsTimestampAttribute(attribute) ==> FilterAttributeValues(a, attribute) == FilterAttributeValues(b, attribute)
  {
    hide Entry.GetAttributes, Lower;
  }

  /** The order and repetition of values do not matter, nor memberOf to a filter that does not use it. */
  lemma {:induction false} SameValuesMatch(f: Filter, a: Entry, b: Entry, computed: bool)
    requires SameValues(a, b, computed) && (computed || !UsesComputed(f))
    ensures Matches(f, a) == Matches(f, b)
    decreases f
  {
    hide SameValues, FilterAttributeValues, MatchSubstring, StringLe, Lower, IsComputedAttribute, IsTimestampAttribute;
    match f
    case And(filters) => forall g | g in filters ensures Matches(g, a) == Matches(g, b) { SameValuesMatch(g, a, b, computed); }
    case Or(filters) => forall g | g in filters ensures Matches(g, a) == Matches(g, b) { SameValuesMatch(g, a, b, computed); }
    case Not(filters) => if filters != [] { SameValuesMatch(filters[0], a, b, computed); }
    case Present(attribute) =>
      SameFilterValues(a, b, computed, attribute);
      SameEmptiness(FilterAttributeValues(a, attribute), FilterAttributeValues(b, attribute));
    case _ => SameFilterValues(a, b, computed, f.attribute);
  }

  lemma SameEmptiness(a: seq<string>, b: seq<string>)
    requires forall v :: v in a <==> v in b
    ensures a == [] <==> b == []
  {
    if a != [] {
      assert a[0] in b;
    }
    if b != [] {
      assert b[0] in a;
    }
  }

  // ---- Two entries of one row ----

  /** The memberOf values of an entry are the DNs of the groups it is nested in. */
  ghost predicate HasMemberOf(t: Tables, row: EntryRow, e: Entry) {
    forall d :: d in ValuesFor(e.computed, "memberof") <==>
      row.objectClass == INET_ORG_PERSON && exists g :: g in t.entries && g.dn == d && Reaches(Listed(t), row.id, g.id)
  }

  lemma PopulatedHasMemberOf(t: Tables, row: EntryRow, loaded: Entry, e: Entry)
    requires IdsOrdered(t) && Represents(t, row, loaded) && Populated(t, loaded, e)
    ensures HasMemberOf(t, row, e) && e == loaded.(computed := e.computed) && e.computed.Keys <= {"memberof"}
  {
    hide Reaches, Listed;
    var dns :| IsMemberOfList(t, loaded.id, dns) && e == if WantsMemberOf(loaded) then WithMemberOf(loaded, dns) else loaded;
    assert loaded.id > 0;
  }

  lemma LoadedSame(t: Tables, row: EntryRow, a: Entry, b: Entry)
    requires AttributesClean(t) && Represents(t, row, a) && Represents(t, row, b)
    ensures forall name, value :: value in ValuesFor(a.attributes, name) <==> value in ValuesFor(b.attributes, name)
    ensures ValuesFor(a.attributes, "memberof") == []
  {
    assert Lower("memberof") == "memberof";
    hide Lower, ValuesFor;
    assert forall r :: r in t.attributes ==> Lower(r.name) != "memberof";
    SameEmptiness(ValuesFor(a.attributes, "memberof"), []);
  }

  lemma FullEntriesSame(t: Tables, row: EntryRow, a: Entry, b: Entry)
    requires IdsOrdered(t) && AttributesClean(t) && FullEntry(t, row, a) && FullEntry(t, row, b)
    ensures SameValues(a, b, true)
  {
    hide IdsOrdered, AttributesClean, Represents, Populated, ValuesFor, Lower;
    var la :| Represents(t, row, la) && Populated(t, la, a);
    var lb :| Represents(t, row, lb) && Populated(t, lb, b);
    PopulatedHasMemberOf(t, row, la, a);
    PopulatedHasMemberOf(t, row, lb, b);
    LoadedSame(t, row, la, lb);
    RepresentsColumns(t, row, la);
    RepresentsColumns(t, row, lb);
    forall name | name != "memberof" ensures ValuesFor(a.computed, name) == [] && ValuesFor(b.computed, name) == [] {
      NoOtherComputed(a, name);
      NoOtherComputed(b, name);
    }
  }

  lemma NoOtherComputed(e: Entry, name: string)
    requires e.computed.Keys <= {"memberof"} && name != "memberof"
    ensures ValuesFor(e.computed, name) == []
  {
  }

  lemma RepresentsColumns(t: Tables, row: EntryRow, e: Entry)
    requires Represents(t, row, e)
    ensures row in t.entries && e == BareEntry(row).(attributes := e.attributes)
  {
  }

  lemma LoadedSameAsFull(t: Tables, row: EntryRow, loaded: Entry, e: Entry)
    requires IdsOrdered(t) && AttributesClean(t) && Represents(t, row, loaded) && FullEntry(t, row, e)
    ensures SameValues(loaded, e, false)
  {
    hide IdsOrdered, AttributesClean, Represents, Populated, ValuesFor, Lower;
    var l :| Represents(t, row, l) && Populated(t, l, e);
    PopulatedHasMemberOf(t, row, l, e);
    LoadedSame(t, row, loaded, l);
    RepresentsColumns(t, row, loaded);
    RepresentsColumns(t, row, l);
    forall name | name != "memberof" ensures ValuesFor(loaded.computed, name) == [] && ValuesFor(e.computed, name) == [] {
      NoOtherComputed(loaded, name);
      NoOtherComputed(e, name);
    }
  }

  lemma FullEntryExists(t: Tables, row: EntryRow) returns (e: Entry)
    requires row in t.entries
    ensures FullEntry(t, row, e) && (exists computed :: e == LoadEntry(t, row).(computed := computed))
  {
    hide Represents, IsMemberOfList, Collect;
    LoadedRepresents(t, row);
    var loaded := LoadEntry(t, row);
    MemberOfListExists(t, loaded.id);
    var dns :| IsMemberOfList(t, loaded.id, dns);
    e := if WantsMemberOf(loaded) then WithMemberOf(loaded, dns) else loaded;
    assert Populated(t, loaded, e);
    assert e == loaded.(computed := e.computed);
  }

  /** Matching a populated entry, or an unpopulated one when memberOf is not used, is the naive reading. */
  lemma FullEntryDecides(t: Tables, row: EntryRow, f: Filter, e: Entry)
    requires IdsOrdered(t) && AttributesClean(t)
    requires FullEntry(t, row, e) || (Represents(t, row, e) && !UsesComputed(f))
    ensures Matches(f, e) <==> SpecMatches(t, row, f)
  {
    hide FullEntry, Represents, SameValues, Matches, IdsOrdered, AttributesClean, UsesComputed;
    if FullEntry(t, row, e) {
      forall x | FullEntry(t, row, x) ensures Matches(f, x) == Matches(f, e) {
        FullEntriesSame(t, row, x, e);
        SameValuesMatch(f, x, e, true);
      }
    } else {
      RepresentsColumns(t, row, e);
      var full := FullEntryExists(t, row);
      forall x | FullEntry(t, row, x) ensures Matches(f, x) == Matches(f, e) {
        LoadedSameAsFull(t, row, e, x);
        SameValuesMatch(f, e, x, false);
      }
    }
  }

  // ---- The memberOf route ----

  /** The entries the memberOf query returns. */
  ghost predicate UserBelow(t: Tables, groupDn: string, row: EntryRow) {
    row.objectClass == INET_ORG_PERSON && FoundBelow(t, groupDn, row.id)
  }

  /** A memberOf test on a full entry is the downward walk from that group. */
  lemma MemberOfTestMeans(t: Tables, row: EntryRow, f: Filter, e: Entry)
    requires IdsOrdered(t) && AttributesClean(t) && GroupsOwnMembers(t) && FullEntry(t, row, e) && IsMemberOfTest(f)
    ensures Matches(f, e) <==> UserBelow(t, f.value, row)
  {
    hide IdsOrdered, AttributesClean, Represents, Populated, Reaches, Up, Listed, Lower, FoundBelow, ValuesFor, GroupsOwnMembers;
    hide HasMemberOf;
    var loaded :| Represents(t, row, loaded) && Populated(t, loaded, e);
    PopulatedHasMemberOf(t, row, loaded, e);
    LoadedSame(t, row, loaded, loaded);
    MemberOfValuesDecide(f, e);
    MemberOfNames(t, row, f.value, e);
  }

  /** A memberOf test looks at the projected values alone. */
  lemma MemberOfValuesDecide(f: Filter, e: Entry)
    requires IsMemberOfTest(f) && ValuesFor(e.attributes, "memberof") == []
    ensures Matches(f, e) <==> exists v :: v in ValuesFor(e.computed, "memberof") && EqualFold(v, f.value)
  {
    assert Lower("memberOf") == "memberof";
    hide Lower, ValuesFor;
    var dns := ValuesFor(e.computed, "memberof");
    assert FilterAttributeValues(e, f.attribute) == [] + dns == dns;
  }

  /** They name a group if and only if the entry is a user below it. */
  lemma MemberOfNames(t: Tables, row: EntryRow, groupDn: string, e: Entry)
    requires HasMemberOf(t, row, e) && GroupsOwnMembers(t)
    ensures (exists v :: v in ValuesFor(e.computed, "memberof") && EqualFold(v, groupDn)) <==> UserBelow(t, groupDn, row)
  {
    hide Reaches, Up, Listed, EqualFold, FoundBelow, ValuesFor, GroupsOwnMembers;
    UpDownDuality(t, groupDn, row.id);
  }

  /** A conjunct memberOf= that a later memberOf test hides from the shortcut. */
  predicate HidesEmptyMemberOf(f: Filter) {
    f.And? && MemberOfEqualityValue(f).Simple? && exists g :: g in f.filters && IsMemberOfTest(g) && g.value == ""
  }

  lemma {:induction false} MemberOfFromMeans(filters: seq<Filter>, found: string)
    requires MemberOfFrom(filters, found).Simple?
    ensures var dn := MemberOfFrom(filters, found).groupDn;
      && dn != "" && (found == "" || EqualFold(found, dn))
      && (forall g :: g in filters ==> IsUserTest(g) || (IsMemberOfTest(g) && (g.value == "" || EqualFold(g.value, dn))))
      && (found == "" ==> exists g :: g in filters && IsMemberOfTest(g) && g.value != "")
  {
    if filters != [] {
      assert filters == [filters[0]] + filters[1..];
      if IsMemberOfTest(filters[0]) {
        MemberOfFromMeans(filters[1..], filters[0].value);
      } else {
        MemberOfFromMeans(filters[1..], found);
      }
    }
  }

  lemma SameGroupBelow(t: Tables, a: string, b: string, row: EntryRow)
    requires EqualFold(a, b)
    ensures UserBelow(t, a, row) <==> UserBelow(t, b, row)
  {
    hide Reaches, WalkFrom, Lower;
    assert forall id :: id in IdsWithDn(t.entries, a) <==> id in IdsWithDn(t.entries, b);
  }

  lemma UserTestMeans(t: Tables, row: EntryRow, f: Filter, e: Entry)
    requires FullEntry(t, row, e) && IsUserTest(f) && row.objectClass == INET_ORG_PERSON && IdsOrdered(t)
    ensures Matches(f, e)
  {
    assert Lower("objectClass") == "objectclass";
    hide IdsOrdered, Represents, Populated, Lower;
    var loaded :| Represents(t, row, loaded) && Populated(t, loaded, e);
    PopulatedHasMemberOf(t, row, loaded, e);
    RepresentsColumns(t, row, loaded);
    assert FilterAttributeValues(e, f.attribute) == [INET_ORG_PERSON];
  }

  /** The shortcut is right on every filter that takes it, unless an empty memberOf test is hidden. */
  lemma MemberOfRouteExact(t: Tables, row: EntryRow, f: Filter, e: Entry)
    requires IdsOrdered(t) && AttributesClean(t) && GroupsOwnMembers(t) && FullEntry(t, row, e)
    requires MemberOfEqualityValue(f).Simple? && !HidesEmptyMemberOf(f)
    ensures Matches(f, e) <==> UserBelow(t, MemberOfEqualityValue(f).groupDn, row)
  {
    hide IdsOrdered, AttributesClean, FullEntry, UserBelow, EqualFold, MemberOfFrom, Matches, GroupsOwnMembers;
    if IsMemberOfTest(f) {
      MemberOfTestMeans(t, row, f, e);
    } else {
      var dn := MemberOfEqualityValue(f).groupDn;
      MemberOfFromMeans(f.filters, "");
      AndMatches(f, e);
      forall g | g in f.filters && IsMemberOfTest(g) ensures Matches(g, e) <==> UserBelow(t, dn, row) {
        MemberOfTestMeans(t, row, g, e);
        SameGroupBelow(t, g.value, dn, row);
      }
      if UserBelow(t, dn, row) {
        UserBelowIsUser(t, dn, row);
        forall g | g in f.filters && IsUserTest(g) ensures Matches(g, e) {
          UserTestMeans(t, row, g, e);
        }
      }
    }
  }

  lemma AndMatches(f: Filter, e: Entry)
    requires f.And?
    ensures Matches(f, e) <==> forall g :: g in f.filters ==> Matches(g, e)
  {
  }

  lemma UserBelowIsUser(t: Tables, dn: string, row: EntryRow)
    requires UserBelow(t, dn, row)
    ensures row.objectClass == INET_ORG_PERSON
  {
  }

  lemma NoGroupNamedNothing(t: Tables, base: string, row: EntryRow)
    requires Placed(t, base)
    ensures !UserBelow(t, "", row)
  {
    hide Placed, Lower;
    forall g | g in t.entries ensures !EqualFold(g.dn, "") {
      Scope.PlacedDnNotEmpty(t, base, g);
    }
  }

  /** With a hidden empty test the filter itself matches no entry. */
  lemma HiddenTestMatchesNothing(t: Tables, base: string, f: Filter, row: EntryRow)
    requires IdsOrdered(t) && AttributesClean(t) && GroupsOwnMembers(t) && Placed(t, base) && HidesEmptyMemberOf(f)
    ensures !SpecMatches(t, row, f)
  {
    hide IdsOrdered, AttributesClean, FullEntry, UserBelow, EqualFold, MemberOfEqualityValue, Placed, GroupsOwnMembers;
    var g :| g in f.filters && IsMemberOfTest(g) && g.value == "";
    forall e | FullEntry(t, row, e) ensures !Matches(f, e) {
      MemberOfTestMeans(t, row, g, e);
      NoGroupNamedNothing(t, base, row);
    }
  }

  // ---- The attribute route ----

  /** The entries with a matching attribute row. */
  function MatchedIds(t: Tables, attribute: string, value: string): set<nat> {
    set a | a in t.attributes && EqualFold(a.name, attribute) && EqualFold(a.value, value) :: a.entryId
  }

  /** The shortcut finds an entry if and only if its attribute rows match; a time is in no such row. */
  lemma AttributeRouteExact(t: Tables, row: EntryRow, f: Filter, e: Entry)
    requires NamedAttributes(t.attributes) && IsLoaded(e, t, row) && IsSimpleEquality(f)
    ensures Matches(Blind(f), e) <==> row.id in MatchedIds(t, f.attribute, f.value)
  {
    assert Lower("objectClass") == "objectclass";
    hide FilterAttributeValues, IsLoaded, Lower;
    if !IsTimeTest(f) {
      forall v ensures v in FilterAttributeValues(e, f.attribute) <==> RowHolds(t.attributes, row.id, f.attribute, v) {
        StoredValues(e, t, row, f.attribute, v);
      }
      if row.id in MatchedIds(t, f.attribute, f.value) {
        var a :| a in t.attributes && EqualFold(a.name, f.attribute) && EqualFold(a.value, f.value) && a.entryId == row.id;
        assert RowHolds(t.attributes, row.id, f.attribute, a.value);
      }
    }
  }

  // ---- What is answered ----

  predicate Compiles(f: Filter) {
    CanCompileToSql(f) && CompileToSql(f).Compiled?
  }

  /** The filter a search really answers: the group it found, what the rows can say, or the filter itself. */
  function Answered(f: Filter): Filter {
    match MemberOfEqualityValue(f)
    case Simple(groupDn) => Equality("memberOf", groupDn)
    case NotSimple => if Compiles(f) then Blind(f) else f
  }

  lemma SimpleEqualityCompiles(f: Filter)
    requires IsSimpleEquality(f)
    ensures Compiles(f) && !UsesComputed(f) && !UsesComputed(Blind(f))
  {
    hide Lower;
  }

  lemma {:induction false} BlindUsesNoComputed(f: Filter)
    requires CanCompileToSql(f)
    ensures !UsesComputed(Blind(f))
    decreases f
  {
    hide Lower;
    match f
    case And(filters) => forall g | g in filters ensures !UsesComputed(Blind(g)) { BlindUsesNoComputed(g); }
    case Or(filters) => forall g | g in filters ensures !UsesComputed(Blind(g)) { BlindUsesNoComputed(g); }
    case Not(filters) => BlindUsesNoComputed(filters[0]);
    case _ => CompilableUsesNoComputed(f);
  }

  // ---- Exactly which filters take the group shortcut ----

  /** The values of the memberOf tests of a conjunction, in order. */
  function TestedGroups(filters: seq<Filter>): seq<string> {
    if filters == [] then []
    else (if IsMemberOfTest(filters[0]) then [filters[0].value] else []) + TestedGroups(filters[1..])
  }

  /** Each conjunct tests memberOf, or asks for users. */
  predicate OnlyGroupTests(filters: seq<Filter>) {
    forall g :: g in filters ==> TestsGroupOrUser(g)
  }

  predicate TestsGroupOrUser(g: Filter) {
    g.Equality? &&
    (EqualFold(g.attribute, "memberOf") || (EqualFold(g.attribute, "objectClass") && EqualFold(g.value, "inetOrgPerson")))
  }

  /** After `k` empty values, all are the same group, whose name is not empty. */
  predicate OneGroup(values: seq<string>, k: int) {
    0 <= k < |values| && (forall i :: 0 <= i < k ==> values[i] == "")
    && forall i :: k <= i < |values| ==> values[i] != "" && EqualFold(values[i], values[k])
  }

  ghost predicate NamesOneGroup(values: seq<string>) {
    exists k :: OneGroup(values, k)
  }

  lemma FoldEmpty(a: string, b: string)
    requires EqualFold(a, b)
    ensures a == "" <==> b == ""
  {
    assert |Lower(a)| == |a| && |Lower(b)| == |b|;
  }

  lemma OnlyGroupTestsStep(filters: seq<Filter>)
    requires filters != []
    ensures OnlyGroupTests(filters) <==> (IsMemberOfTest(filters[0]) || IsUserTest(filters[0])) && OnlyGroupTests(filters[1..])
  {
    hide Lower;
    assert forall g :: g in filters <==> g == filters[0] || g in filters[1..];
    assert TestsGroupOrUser(filters[0]) <==> IsMemberOfTest(filters[0]) || IsUserTest(filters[0]);
  }

  lemma {:induction false} FoundGoesOn(filters: seq<Filter>, found: string)
    requires found != ""
    ensures MemberOfFrom(filters, found).Simple? <==>
      OnlyGroupTests(filters) && forall v :: v in TestedGroups(filters) ==> v != "" && EqualFold(v, found)
    ensures MemberOfFrom(filters, found).Simple? ==>
      MemberOfFrom(filters, found).groupDn == var values := TestedGroups(filters); if values == [] then found else values[|values| - 1]
  {
    hide EqualFold, IsMemberOfTest, IsUserTest, OnlyGroupTests;
    if filters == [] {
      assert OnlyGroupTests([]) by { NoTests(); }
    } else {
      var f := filters[0];
      OnlyGroupTestsStep(filters);
      UserIsNoGroupTest(f);
      if IsMemberOfTest(f) {
        FoldIsSame(found, f.value);
        SelfFold(f.value);
        var more := TestedGroups(filters[1..]);
        assert TestedGroups(filters) == [f.value] + more;
        assert forall v :: v in [f.value] + more <==> v == f.value || v in more;
        if f.value != "" {
          FoundGoesOn(filters[1..], f.value);
        }
      } else {
        FoundGoesOn(filters[1..], found);
        assert TestedGroups(filters) == TestedGroups(filters[1..]);
      }
    }
  }

  lemma NoTests()
    ensures OnlyGroupTests([])
  {
  }

  lemma UserIsNoGroupTest(f: Filter)
    ensures IsUserTest(f) ==> !IsMemberOfTest(f)
    ensures IsMemberOfTest(f) ==> f.Equality?
  {
  }

  lemma SelfFold(a: string)
    ensures EqualFold(a, a) && forall b :: EqualFold(a, b) == EqualFold(b, a)
  {
  }

  lemma FoldIsSame(a: string, b: string)
    ensures EqualFold(a, b) ==> (a == "" <==> b == "") && forall v :: EqualFold(v, a) <==> EqualFold(v, b)
  {
    if EqualFold(a, b) {
      FoldEmpty(a, b);
    }
  }

  lemma {:induction false} NothingFoundYet(filters: seq<Filter>)
    ensures MemberOfFrom(filters, "").Simple? <==> OnlyGroupTests(filters) && NamesOneGroup(TestedGroups(filters))
    ensures MemberOfFrom(filters, "").Simple? ==>
      var values := TestedGroups(filters); values != [] && MemberOfFrom(filters, "").groupDn == values[|values| - 1]
  {
    hide EqualFold, IsMemberOfTest, IsUserTest, OnlyGroupTests, NamesOneGroup;
    if filters == [] {
      NoGroupNamed();
    } else {
      var f, rest := filters[0], filters[1..];
      OnlyGroupTestsStep(filters);
      UserIsNoGroupTest(f);
      var values, more := TestedGroups(filters), TestedGroups(rest);
      if IsMemberOfTest(f) {
        assert values == [f.value] + more;
        if f.value == "" {
          NothingFoundYet(rest);
          EmptyFirst(more);
          assert values == [""] + more && MemberOfFrom(filters, "") == MemberOfFrom(rest, "");
          assert more != [] ==> values[|values| - 1] == more[|more| - 1];
          assert OnlyGroupTests(filters) == OnlyGroupTests(rest);
        } else {
          FoundGoesOn(rest, f.value);
          GroupFirst(f.value, more);
          assert MemberOfFrom(filters, "") == MemberOfFrom(rest, f.value);
        }
      } else {
        NothingFoundYet(rest);
        assert values == more;
        assert MemberOfFrom(filters, "") == if IsUserTest(f) then MemberOfFrom(rest, "") else NotSimple;
      }
    }
  }

  lemma NoGroupNamed()
    ensures !NamesOneGroup(TestedGroups([]))
  {
  }

  lemma EmptyFirst(more: seq<string>)
    ensures NamesOneGroup([""] + more) <==> NamesOneGroup(more)
  {
    hide EqualFold;
    var values := [""] + more;
    if k :| OneGroup(values, k) {
      assert values[0] == "" && forall i :: 0 <= i < |more| ==> more[i] == values[i + 1];
      assert OneGroup(more, k - 1);
    }
    if k :| OneGroup(more, k) {
      assert forall i :: 0 < i < |values| ==> values[i] == more[i - 1];
      assert OneGroup(values, k + 1);
    }
  }

  lemma GroupFirst(value: string, more: seq<string>)
    requires value != ""
    ensures NamesOneGroup([value] + more) <==> forall v :: v in more ==> v != "" && EqualFold(v, value)
  {
    hide Lower;
    var values := [value] + more;
    if k :| OneGroup(values, k) {
      assert values[0] == value;
      assert k == 0;
      assert forall i :: 0 <= i < |more| ==> more[i] == values[i + 1];
    }
    if forall v :: v in more ==> v != "" && EqualFold(v, value) {
      assert forall i :: 0 < i < |values| ==> values[i] == more[i - 1] && more[i - 1] in more;
      assert OneGroup(values, 0);
    }
  }

  /**
   A filter takes the group shortcut if and only if it tests memberOf, or is a conjunction of such tests and tests for
   users in which, after any empty ones, all name one group; the name of the last test is used.
   */
  lemma ShortcutExact(f: Filter)
    ensures MemberOfEqualityValue(f).Simple? <==>
      (f.Equality? && EqualFold(f.attribute, "memberOf"))
      || (f.And? && OnlyGroupTests(f.filters) && NamesOneGroup(TestedGroups(f.filters)))
    ensures MemberOfEqualityValue(f).Simple? ==>
      MemberOfEqualityValue(f).groupDn == if f.Equality? then f.value else
        var values := TestedGroups(f.filters); if values == [] then "" else values[|values| - 1]
  {
    hide EqualFold, OnlyGroupTests, NamesOneGroup;
    if f.And? {
      NothingFoundYet(f.filters);
    }
  }
}
