/** What a filter says of a stored entry, read straight from the tables, with no entry built. */
module SearchMeaning {
  import opened Text
  import opened Dn
  import opened Tables
  import opened Filters
  import opened SqlMeaning
  import opened Recursion
  import opened DirectoryInvariant
  import opened Membership
  import opened SearchQuery
  import opened SearchScan
  import opened SearchRoutes
  import opened Search

  // ---- The order of texts, character by character ----

  /** At position `i` the two texts differ for the first time, and `v` has the greater character. */
  predicate GreaterAt(v: string, bound: string, i: int) {
    0 <= i < |v| && i < |bound| && v[..i] == bound[..i] && v[i] > bound[i]
  }

  /** `v` is `bound`, extends it, or has the greater character at the first place where they differ. */
  ghost predicate AtOrAfter(v: string, bound: string) {
    bound <= v || exists i :: GreaterAt(v, bound, i)
  }

  lemma GreaterAtCons(x: char, y: char, v: string, bound: string)
    ensures (exists i :: GreaterAt([x] + v, [y] + bound, i)) <==> x > y || (x == y && exists i :: GreaterAt(v, bound, i))
  {
    var a, b := [x] + v, [y] + bound;
    if i: int :| GreaterAt(a, b, i) {
      if i > 0 {
        assert a[0] == a[..i][0] && b[0] == b[..i][0];
        assert v[..i - 1] == a[..i][1..] && bound[..i - 1] == b[..i][1..];
        assert GreaterAt(v, bound, i - 1);
      }
    }
    if x > y {
      assert GreaterAt(a, b, 0);
    }
    if x == y {
      if i: int :| GreaterAt(v, bound, i) {
        assert a[..i + 1] == [x] + v[..i] && b[..i + 1] == [y] + bound[..i];
        assert GreaterAt(a, b, i + 1);
      }
    }
  }

  lemma {:induction false} StringLeExact(bound: string, v: string)
    ensures StringLe(bound, v) <==> AtOrAfter(v, bound)
  {
    if bound != [] && v != [] {
      StringLeExact(bound[1..], v[1..]);
      assert v == [v[0]] + v[1..] && bound == [bound[0]] + bound[1..];
      GreaterAtCons(v[0], bound[0], v[1..], bound[1..]);
      assert bound <= v <==> bound[0] == v[0] && bound[1..] <= v[1..];
    }
  }

  // ---- The values of a stored entry ----

  /** A chain of 1 to 101 memberships leads from one entry up to another. */
  ghost predicate NestedIn(t: Tables, id: nat, group: nat) {
    exists w: seq<nat> :: IsMemberChain(t, id, group, w)
  }

  predicate IsMemberChain(t: Tables, id: nat, group: nat, w: seq<nat>) {
    2 <= |w| <= 102 && w[0] == id && w[|w| - 1] == group && forall i :: 0 <= i < |w| - 1 ==> MemberRow(w[i + 1], w[i]) in t.members
  }

  lemma NestedIsReaches(t: Tables, id: nat, group: nat)
    requires GroupsOwnMembers(t)
    ensures NestedIn(t, id, group) <==> Reaches(Listed(t), id, group)
  {
    UpIsListed(t, id, group);
    hide Listed, GroupsOwnMembers;
    if w: seq<nat> :| IsMemberChain(t, id, group, w) {
      assert forall i :: 0 <= i < |w| - 1 ==> w[i + 1] in Up(t)(w[i]);
      assert IsChain(Up(t), id, group, |w| - 1, w);
      assert Chain(Up(t), id, group, |w| - 1);
    }
    if k: nat :| 1 <= k <= MAX_DEPTH + 1 && Chain(Up(t), id, group, k) {
      var w :| IsChain(Up(t), id, group, k, w);
      assert forall i :: 0 <= i < |w| - 1 ==> w[i + 1] in Up(t)(w[i]);
      assert IsMemberChain(t, id, group, w);
    }
  }

  /** The value `v` of an attribute, from the columns, the attribute rows or the member rows. */
  ghost predicate HasValue(t: Tables, row: EntryRow, attribute: string, v: string) {
    if EqualFold(attribute, "objectClass") then v == row.objectClass
    else if EqualFold(attribute, "createTimestamp") then v == row.createdAt + "Z"
    else if EqualFold(attribute, "modifyTimestamp") then v == row.updatedAt + "Z"
    else if EqualFold(attribute, "memberOf") then
      row.objectClass == "inetOrgPerson" && exists g :: g in t.entries && g.dn == v && NestedIn(t, row.id, g.id)
    else exists a :: a in t.attributes && a.entryId == row.id && EqualFold(a.name, attribute) && a.value == v
  }

  /** What a filter says of the entry of a row. */
  ghost predicate Satisfies(t: Tables, row: EntryRow, f: Filter) {
    match f
    case And(filters) => forall g :: g in filters ==> Satisfies(t, row, g)
    case Or(filters) => exists g :: g in filters && Satisfies(t, row, g)
    case Not(filters) => filters == [] || !Satisfies(t, row, filters[0])
    case Present(attribute) => exists v :: HasValue(t, row, attribute, v)
    case Equality(attribute, value) => exists v :: HasValue(t, row, attribute, v) && EqualFold(v, value)
    case Substrings(attribute, value) => exists v :: HasValue(t, row, attribute, v) && MatchSubstring(v, value)
    case Approx(attribute, value) => HasValue(t, row, attribute, value)
    case GreaterOrEqual(attribute, value) =>
      if EqualFold(attribute, "createTimestamp") then AtOrAfter(row.createdAt, StripZone(value))
      else if EqualFold(attribute, "modifyTimestamp") then AtOrAfter(row.updatedAt, StripZone(value))
      else exists v :: HasValue(t, row, attribute, v) && AtOrAfter(v, value)
    case LessOrEqual(attribute, value) =>
      if EqualFold(attribute, "createTimestamp") then AtOrAfter(StripZone(value), row.createdAt)
      else if EqualFold(attribute, "modifyTimestamp") then AtOrAfter(StripZone(value), row.updatedAt)
      else exists v :: HasValue(t, row, attribute, v) && AtOrAfter(value, v)
  }

  lemma SuffixDropped(s: string, c: char)
    ensures TrimSuffixChar(s + [c], c) == s
    ensures s == "" || s[|s| - 1] != c ==> TrimSuffixChar(s, c) == s
  {
    assert (s + [c])[..|s|] == s;
  }

  lemma OtherLetterStays(s: string, c: char, d: char)
    requires c != d
    ensures TrimSuffixChar(s + [c], d) == s + [c]
  {
    assert (s + [c])[|s|] == c;
  }

  /** A bound with its zone letter, either case, or without it. */
  lemma ZoneIsStripped(digits: string)
    requires forall c :: c in digits ==> '0' <= c <= '9'
    ensures StripZone(digits) == digits && StripZone(digits + "Z") == digits && StripZone(digits + "z") == digits
    ensures StripZone(digits + "zZ") == digits && StripZone(digits + "Zz") == digits + "Z"
  {
    hide TrimSuffixChar;
    assert digits != "" ==> digits[|digits| - 1] in digits;
    SuffixDropped(digits, 'Z');
    SuffixDropped(digits, 'z');
    SuffixDropped(digits + "z", 'Z');
    SuffixDropped(digits + "Z", 'z');
    OtherLetterStays(digits, 'z', 'Z');
    OtherLetterStays(digits + "Z", 'z', 'Z');
    assert digits + "z" + ['Z'] == digits + "zZ" && digits + "Z" + ['z'] == digits + "Zz";
    assert ['Z'] == "Z" && ['z'] == "z";
  }

  // ---- The two readings agree ----

  lemma NamesOfColumns()
    ensures Lower("objectClass") == "objectclass" && Lower("createTimestamp") == "createtimestamp"
    ensures Lower("modifyTimestamp") == "modifytimestamp" && Lower("memberOf") == "memberof"
    ensures Lower("memberof") == "memberof"
    ensures "objectclass" != "createtimestamp" && "objectclass" != "modifytimestamp" && "objectclass" != "memberof"
    ensures "createtimestamp" != "modifytimestamp" && "createtimestamp" != "memberof" && "modifytimestamp" != "memberof"
  {
    assert "objectclass"[0] == 'o' && "createtimestamp"[0] == 'c' && "modifytimestamp"[1] == 'o' && "memberof"[1] == 'e';
    assert "memberof"[0] == 'm';
  }

  lemma FullValues(t: Tables, base: string, row: EntryRow, e: Entry, attribute: string, v: string)
    requires Invariant(t, base) && row in t.entries && FullEntry(t, row, e)
    ensures v in FilterAttributeValues(e, attribute) <==> HasValue(t, row, attribute, v)
  {
    hide Invariant, IdsOrdered, AttributesClean, Placed, MembersMatch, Represents, Populated, IsTimestamp, Lower, HasMemberOf, Reaches;
    hide GroupsOwnMembers, Listed, NestedIn;
    InvariantParts(t, base, row);
    assert GroupsOwnMembers(t) by { OwnedByGroups(t); }
    NamesOfColumns();
    var loaded :| Represents(t, row, loaded) && Populated(t, loaded, e);
    PopulatedHasMemberOf(t, row, loaded, e);
    RepresentsColumns(t, row, loaded);
    assert e.objectClass == row.objectClass != "" && e.createdAt == row.createdAt && e.updatedAt == row.updatedAt;
    assert row.createdAt != ZERO_TIME && row.updatedAt != ZERO_TIME by { TimeIsNotZero(row); }
    if Lower(attribute) == "memberof" {
      LoadedSame(t, row, loaded, loaded);
      MemberOfValue(t, row, e, attribute, v);
    } else if Lower(attribute) != "objectclass" && Lower(attribute) != "createtimestamp" && Lower(attribute) != "modifytimestamp" {
      StoredValue(t, row, loaded, e, attribute, v);
    }
  }

  lemma TimeIsNotZero(row: EntryRow)
    requires GoodRow(row)
    ensures row.createdAt != ZERO_TIME && row.updatedAt != ZERO_TIME
  {
  }

  lemma OwnedByGroups(t: Tables)
    requires MembersMatch(t)
    ensures GroupsOwnMembers(t)
  {
    hide GroupMatches;
  }

  lemma MemberOfValue(t: Tables, row: EntryRow, e: Entry, attribute: string, v: string)
    requires GroupsOwnMembers(t) && HasMemberOf(t, row, e) && ValuesFor(e.attributes, "memberof") == []
    requires EqualFold(attribute, "memberOf") && Lower(attribute) == "memberof"
    ensures v in FilterAttributeValues(e, attribute) <==>
      row.objectClass == "inetOrgPerson" && exists g :: g in t.entries && g.dn == v && NestedIn(t, row.id, g.id)
  {
    NamesOfColumns();
    hide Lower, ValuesFor, NestedIn, Reaches, Listed, GroupsOwnMembers;
    var dns := ValuesFor(e.computed, "memberof");
    assert FilterAttributeValues(e, attribute) == [] + dns == dns;
    forall g | g in t.entries ensures NestedIn(t, row.id, g.id) <==> Reaches(Listed(t), row.id, g.id) {
      NestedIsReaches(t, row.id, g.id);
    }
  }

  lemma StoredValue(t: Tables, row: EntryRow, loaded: Entry, e: Entry, attribute: string, v: string)
    requires AttributesClean(t) && Represents(t, row, loaded) && e == loaded.(computed := e.computed) && e.computed.Keys <= {"memberof"}
    requires Lower(attribute) != "memberof" && Lower(attribute) != "objectclass"
    requires Lower(attribute) != "createtimestamp" && Lower(attribute) != "modifytimestamp"
    ensures v in FilterAttributeValues(e, attribute) <==>
      exists a :: a in t.attributes && a.entryId == row.id && EqualFold(a.name, attribute) && a.value == v
  {
    hide Lower, ValuesFor, HasId;
    NoOtherComputed(e, Lower(attribute));
    var stored := ValuesFor(e.attributes, Lower(attribute));
    assert FilterAttributeValues(e, attribute) == stored + [] == stored;
  }

  lemma {:induction false} MatchesIsSatisfies(t: Tables, row: EntryRow, e: Entry, f: Filter)
    requires forall attribute, v :: v in FilterAttributeValues(e, attribute) <==> HasValue(t, row, attribute, v)
    requires e.createdAt == row.createdAt && e.updatedAt == row.updatedAt && GoodRow(row)
    ensures Matches(f, e) <==> Satisfies(t, row, f)
    decreases f
  {
    hide FilterAttributeValues, HasValue, MatchSubstring, AtOrAfter, StringLe, CompareTimestamp, Lower, GoodRow;
    match f
    case And(filters) => forall g | g in filters ensures Matches(g, e) <==> Satisfies(t, row, g) { MatchesIsSatisfies(t, row, e, g); }
    case Or(filters) => forall g | g in filters ensures Matches(g, e) <==> Satisfies(t, row, g) { MatchesIsSatisfies(t, row, e, g); }
    case Not(filters) =>
      if filters != [] {
        MatchesIsSatisfies(t, row, e, filters[0]);
      }
    case Present(attribute) => SomeValue(FilterAttributeValues(e, attribute));
    case GreaterOrEqual(attribute, value) =>
      NamesOfColumns();
      TimeCompares(e, row, attribute, value, true);
      forall v { StringLeExact(value, v); }
    case LessOrEqual(attribute, value) =>
      NamesOfColumns();
      TimeCompares(e, row, attribute, value, false);
      forall v { StringLeExact(v, value); }
    case _ =>
  }

  lemma SomeValue(values: seq<string>)
    ensures values != [] <==> exists v :: v in values
  {
    if values != [] {
      assert values[0] in values;
    }
  }

  lemma TimeCompares(e: Entry, row: EntryRow, attribute: string, value: string, atLeast: bool)
    requires e.createdAt == row.createdAt && e.updatedAt == row.updatedAt && GoodRow(row)
    ensures IsTimestampAttribute(attribute) ==>
      var time := if Lower(attribute) == "createtimestamp" then row.createdAt else row.updatedAt;
      CompareTimestamp(e, attribute, value, atLeast) <==>
        if atLeast then AtOrAfter(time, StripZone(value)) else AtOrAfter(StripZone(value), time)
  {
    NamesOfColumns();
    hide Lower, AtOrAfter, StripZone, StringLe;
    if IsTimestampAttribute(attribute) {
      var time := if Lower(attribute) == "createtimestamp" then row.createdAt else row.updatedAt;
      ZoneIsStripped(time);
      assert FilterAttributeValues(e, attribute) == [time + "Z"];
      StringLeExact(StripZone(value), time);
      StringLeExact(time, StripZone(value));
    }
  }

  /** On every store that keeps its invariant, building an entry and matching it says what the tables say. */
  lemma SatisfiesExact(t: Tables, base: string, row: EntryRow, f: Filter)
    requires Invariant(t, base) && row in t.entries
    ensures SpecMatches(t, row, f) <==> Satisfies(t, row, f)
  {
    hide Invariant, Satisfies, Matches, FilterAttributeValues, HasValue, IdsOrdered, AttributesClean, Placed, MembersMatch, FullEntry;
    hide SpecMatches, GoodRow;
    InvariantParts(t, base, row);
    var e := FullEntryExists(t, row);
    forall attribute, v ensures v in FilterAttributeValues(e, attribute) <==> HasValue(t, row, attribute, v) {
      FullValues(t, base, row, e, attribute, v);
    }
    MatchesIsSatisfies(t, row, e, f);
    FullEntryDecides(t, row, f, e);
  }

  /** So a search finds the entries in scope of which the tables satisfy the filter that is answered. */
  lemma SearchFinds(t: Tables, base: string, f: Filter, scope: SearchScope, searchBase: string, id: nat)
    requires Invariant(t, base)
    ensures id in Expected(t, f, scope, searchBase) <==>
      exists row :: row in t.entries && row.id == id && InSearchScope(scope, searchBase, row.dn, row.parentDn) && Satisfies(t, row, f)
  {
    hide Invariant, Satisfies, SpecMatches, InSearchScope;
    forall row | row in t.entries ensures SpecMatches(t, row, f) <==> Satisfies(t, row, f) {
      SatisfiesExact(t, base, row, f);
    }
  }

  /** An entry that was never stored may lack its class and its times; then it has no value of these attributes. */
  lemma MissingColumns(e: Entry)
    ensures FilterAttributeValues(e, "objectClass") == [] <==> e.objectClass == ""
    ensures FilterAttributeValues(e, "createTimestamp") == [] <==> e.createdAt == "00010101000000"
    ensures FilterAttributeValues(e, "modifyTimestamp") == [] <==> e.updatedAt == "00010101000000"
  {
    NamesOfColumns();
    hide Lower;
  }

  /** White space around a base or a DN does not change which entries are in scope. */
  lemma ScopeIgnoresSpace(scope: SearchScope, base: string, dn: string, parentDn: string)
    ensures InSearchScope(scope, TrimSpace(base), TrimSpace(dn), TrimSpace(parentDn)) == InSearchScope(scope, base, dn, parentDn)
  {
    hide TrimSpace, Lower, AncestorOrSelf;
  }
}
