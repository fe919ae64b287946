/** What every run of create and update steps keeps true of the directory. */
module DirectoryInvariant {
  import opened Text
  import opened Dn
  import opened Tables
  import opened Directory
  import opened SqlMeaning

  // ---- The invariant ----

  /** Ids grow with the table and are below the next one. */
  ghost predicate IdsOrdered(t: Tables) {
    && (forall i :: 0 <= i < |t.entries| ==> 1 <= t.entries[i].id < t.nextId)
    && (forall i, j :: 0 <= i < j < |t.entries| ==> t.entries[i].id < t.entries[j].id)
    && t.nextId >= 1
  }

  /** No two entries have the same DN ignoring case. */
  ghost predicate DnsUnique(t: Tables) {
    forall i, j :: 0 <= i < j < |t.entries| ==> !EqualFold(t.entries[i].dn, t.entries[j].dn)
  }

  ghost predicate RowPlaced(entries: seq<EntryRow>, base: string, row: EntryRow) {
    WithinBase(row.dn, TrimSpace(base)) &&
    if Equal(row.dn, TrimSpace(base)) then row.parentDn == ""
    else row.parentDn != "" && row.parentDn == Parent(row.dn) && EntryExists(entries, row.parentDn)
  }

  /** Every entry is under the base; every entry but the base one has its parent in the table. */
  ghost predicate Placed(t: Tables, base: string) {
    forall i :: 0 <= i < |t.entries| ==> RowPlaced(t.entries, base, t.entries[i])
  }

  /** Every attribute row belongs to an entry, has a lower-case name and is not server-managed. */
  ghost predicate AttributesClean(t: Tables) {
    forall a :: a in t.attributes ==>
      a.name != "" && Lower(a.name) == a.name && IsGenericStored(a.name) && HasId(t.entries, a.entryId)
  }

  ghost predicate HasId(entries: seq<EntryRow>, id: nat) {
    exists e :: e in entries && e.id == id
  }

  /** Every entry has exactly one stable id. */
  ghost predicate OneUuid(t: Tables) {
    forall e :: e in t.entries ==> IsOneUuid(RowValues(t.attributes, e.id, ENTRY_UUID))
  }

  ghost predicate IsOneUuid(values: seq<string>) {
    |values| == 1 && values[0] != ""
  }

  /** The member rows of a group are what its member values resolve to, all of which exist. */
  ghost predicate GroupMatches(t: Tables, group: EntryRow) {
    var dns := RowValues(t.attributes, group.id, "member");
    MembersResolve(t.entries, dns) &&
    forall id: nat :: MemberRow(group.id, id) in t.members <==> exists d :: d in dns && ResolveMember(t.entries, d) == id
  }

  /** Member rows belong to groups only, match their member values, and none is repeated. */
  ghost predicate MembersMatch(t: Tables) {
    && (forall m :: m in t.members ==> exists e :: e in t.entries && e.id == m.group && e.objectClass == GROUP_OF_NAMES)
    && (forall e :: e in t.entries && e.objectClass == GROUP_OF_NAMES ==> GroupMatches(t, e))
    && NoRepeats(t.members)
  }

  ghost predicate NoRepeats(rows: seq<MemberRow>) {
    forall i, j :: 0 <= i < j < |rows| ==> rows[i] != rows[j]
  }

  ghost predicate RowsGood(t: Tables) {
    forall e :: e in t.entries ==> GoodRow(e)
  }

  /** All but the member rows: no update whatever endangers this part. */
  ghost predicate Core(t: Tables, base: string) {
    IdsOrdered(t) && DnsUnique(t) && Placed(t, base) && AttributesClean(t) && OneUuid(t) && RowsGood(t)
  }

  ghost predicate Invariant(t: Tables, base: string) {
    Core(t, base) && MembersMatch(t)
  }

  // ---- What the callers hand in ----

  /** An entry as NewEntry, AddAttribute and SetAttribute build it: lower-case names and the parent of its DN. */
  ghost predicate WellBuilt(e: Entry, base: string) {
    && (forall name :: name in e.attributes ==> name != "" && Lower(name) == name)
    && e.computed.Keys <= {"memberof"}
    && IsTimestamp(e.createdAt) && IsTimestamp(e.updatedAt)
    && (e.parentDn == Parent(e.dn) || (e.parentDn == "" && Equal(e.dn, TrimSpace(base))))
  }

  lemma MemberValues(e: Entry, base: string, uuid: string)
    requires WellBuilt(e, base)
    ensures e.GetAttributes("member") == ValuesFor(e.attributes, "member")
    ensures ValuesFor(WithUuid(e, uuid).attributes, "member") == e.GetAttributes("member")
    ensures IsGenericStored("member") && IsGenericStored(ENTRY_UUID)
  {
    StoredNames();
    hide Lower, IsGenericStored, IsTimestamp, Parent, Equal;
    assert ValuesFor(e.computed, "member") == [];
    assert ValuesFor(e.attributes, "member") + [] == ValuesFor(e.attributes, "member");
  }

  lemma StoredNames()
    ensures Lower("member") == "member" && Lower(ENTRY_UUID) == ENTRY_UUID
    ensures IsGenericStored("member") && IsGenericStored(ENTRY_UUID)
  {
    assert Lower("member") == "member" && Lower(ENTRY_UUID) == ENTRY_UUID;
    hide Lower;
  }

  // ---- Attribute rows of different entries do not meet ----

  lemma {:induction false} RowValuesConcat(a: seq<AttrRow>, b: seq<AttrRow>, id: nat, name: string)
    ensures RowValues(a + b, id, name) == RowValues(a, id, name) + RowValues(b, id, name)
  {
    if b == [] {
      assert a + b == a;
    } else {
      var init, last := b[..|b| - 1], b[|b| - 1];
      assert a + b == (a + init) + [last];
      RowValuesExtend(a + init, last, id, name);
      RowValuesConcat(a, init, id, name);
    }
  }

  lemma {:induction false} RowValuesNone(rows: seq<AttrRow>, id: nat, name: string)
    requires forall a :: a in rows ==> a.entryId != id
    ensures RowValues(rows, id, name) == []
  {
    if rows != [] {
      var init, last := rows[..|rows| - 1], rows[|rows| - 1];
      assert rows == init + [last] && last in rows;
      RowValuesNone(init, id, name);
    }
  }

  lemma {:induction false} RowValuesWithout(rows: seq<AttrRow>, gone: nat, id: nat, name: string)
    ensures RowValues(WithoutAttributes(rows, gone), id, name) == if id == gone then [] else RowValues(rows, id, name)
  {
    if rows != [] {
      var init, last := rows[..|rows| - 1], rows[|rows| - 1];
      RowValuesWithout(init, gone, id, name);
      if last.entryId == gone {
        assert WithoutAttributes(init, gone) + [] == WithoutAttributes(init, gone);
      } else {
        RowValuesExtend(WithoutAttributes(init, gone), last, id, name);
      }
    }
  }

  /** Rows written for one entry leave the values of every other entry alone. */
  lemma OtherValuesKept(before: seq<AttrRow>, added: seq<AttrRow>, id: nat, other: nat, name: string, attributes: Values)
    requires HoldsAttributes(added, id, attributes) && other != id
    ensures RowValues(before + added, other, name) == RowValues(before, other, name)
  {
    hide IsGenericStored;
    RowValuesConcat(before, added, other, name);
    RowValuesNone(added, other, name);
    assert RowValues(before, other, name) + [] == RowValues(before, other, name);
  }

  lemma OwnValuesWritten(before: seq<AttrRow>, added: seq<AttrRow>, id: nat, name: string, attributes: Values)
    requires HoldsAttributes(added, id, attributes)
    requires forall a :: a in before ==> a.entryId != id
    ensures RowValues(before + added, id, name) == if IsGenericStored(name) then ValuesFor(attributes, name) else []
  {
    hide IsGenericStored;
    RowValuesConcat(before, added, id, name);
    RowValuesNone(before, id, name);
    assert [] + RowValues(added, id, name) == RowValues(added, id, name);
  }

  /** A DN that resolves keeps resolving to the same entry when an entry with another DN is added. */
  lemma ResolveAfterInsert(entries: seq<EntryRow>, row: EntryRow, d: string)
    requires EntryExists(entries, d) && !EntryExists(entries, row.dn)
    ensures ResolveMember(entries + [row], d) == ResolveMember(entries, d) && EntryExists(entries + [row], d)
  {
    assert (entries + [row])[..|entries|] == entries;
    assert !EqualFold(row.dn, d) by {
      var e :| e in entries && EqualFold(e.dn, d);
      assert !EqualFold(e.dn, row.dn);
    }
    ResolveMemberExists(entries + [row], d);
  }

  lemma ResolveMemberExists(entries: seq<EntryRow>, d: string)
    ensures ResolveMember(entries, d) >= 0 <==> EntryExists(entries, d)
  {
  }

  // ---- Create ----

  lemma CreateKeepsUnique(before: Tables, row: EntryRow, after: Tables)
    requires DnsUnique(before) && !EntryExists(before.entries, row.dn) && after.entries == before.entries + [row]
    ensures DnsUnique(after)
  {
    hide EqualFold;
    forall i, j | 0 <= i < j < |after.entries| ensures !EqualFold(after.entries[i].dn, after.entries[j].dn) {
      if j == |before.entries| {
        assert before.entries[i] in before.entries;
      }
    }
  }

  lemma CreateKeepsIds(before: Tables, row: EntryRow, after: Tables)
    requires IdsOrdered(before) && RowsGood(before) && GoodRow(row) && row.id == before.nextId
    requires after.entries == before.entries + [row] && after.nextId == before.nextId + 1
    ensures IdsOrdered(after) && RowsGood(after)
  {
    hide GoodRow;
  }

  lemma CreateKeepsRows(before: Tables, base: string, e: Entry, uuid: string, after: Tables)
    requires Core(before, base) && WellBuilt(e, base) && Created(before, base, e, uuid, after, Done)
    ensures IdsOrdered(after) && DnsUnique(after) && RowsGood(after)
  {
    hide IdsOrdered, RowsGood, EntryExists, IsTimestamp, HoldsAttributes, DnsUnique, Placed, AttributesClean, OneUuid, MembersMatch;
    hide NewMembers, ValidatePlacement, HasRequiredAttributes, MembersResolve, Entry.GetAttributes, Entry.GetAttribute;
    CreateKeepsUnique(before, NewRow(before, e), after);
    CreateKeepsIds(before, NewRow(before, e), after);
  }

  lemma CreateKeepsPlaced(before: Tables, base: string, e: Entry, uuid: string, after: Tables)
    requires Core(before, base) && WellBuilt(e, base) && Created(before, base, e, uuid, after, Done)
    ensures Placed(after, base)
  {
    hide EqualFold, IsTimestamp, HoldsAttributes, IdsOrdered, AttributesClean, OneUuid, MembersMatch, NewMembers, Equal, WithinBase;
    forall i | 0 <= i < |after.entries| ensures RowPlaced(after.entries, base, after.entries[i]) {
      var row := after.entries[i];
      if i < |before.entries| {
        assert RowPlaced(before.entries, base, row);
        assert row.parentDn != "" ==> EntryExists(after.entries, row.parentDn) by {
          EntryExistsGrows(before.entries, NewRow(before, e), row.parentDn);
        }
      } else {
        EntryExistsGrows(before.entries, NewRow(before, e), row.parentDn);
      }
    }
  }

  lemma EntryExistsGrows(entries: seq<EntryRow>, row: EntryRow, d: string)
    ensures EntryExists(entries, d) ==> EntryExists(entries + [row], d)
  {
    if e :| e in entries && EqualFold(e.dn, d) {
      assert e in entries + [row];
    }
  }

  lemma FreshId(t: Tables)
    requires IdsOrdered(t) && AttributesClean(t)
    ensures forall e :: e in t.entries ==> e.id != t.nextId
    ensures forall a :: a in t.attributes ==> a.entryId != t.nextId
  {
    hide IsGenericStored, Lower;
    forall a | a in t.attributes ensures a.entryId != t.nextId {
      var e :| e in t.entries && e.id == a.entryId;
    }
  }

  lemma CreateKeepsClean(before: Tables, base: string, e: Entry, uuid: string, after: Tables)
    requires Core(before, base) && WellBuilt(e, base) && Created(before, base, e, uuid, after, Done)
    ensures AttributesClean(after)
  {
    hide EqualFold, IsTimestamp, Placed, MembersMatch, NewMembers, CreateOutcome, IsGenericStored, Lower, RowValues, OneUuid;
    var id, row := before.nextId, NewRow(before, e);
    var added :| Appended(before.attributes, added, after.attributes)
      && HoldsAttributes(added, id, WithUuid(e, uuid).attributes);
    assert row in after.entries && row.id == id;
    assert Lower(ENTRY_UUID) == ENTRY_UUID by { UuidNameLower(); }
    forall a | a in before.attributes ensures HasId(after.entries, a.entryId) {
      var x :| x in before.entries && x.id == a.entryId;
      assert x in after.entries;
    }
  }

  lemma CreateKeepsUuids(before: Tables, base: string, e: Entry, uuid: string, after: Tables)
    requires Core(before, base) && WellBuilt(e, base) && uuid != "" && Created(before, base, e, uuid, after, Done)
    ensures OneUuid(after)
  {
    hide EqualFold, IsTimestamp, Placed, MembersMatch, NewMembers, CreateOutcome, IsGenericStored, Lower, RowValues, HoldsAttributes;
    var id, attributes := before.nextId, WithUuid(e, uuid).attributes;
    var added :| Appended(before.attributes, added, after.attributes) && HoldsAttributes(added, id, attributes);
    MemberValues(e, base, uuid);
    FreshId(before);
    forall x | x in after.entries ensures IsOneUuid(RowValues(after.attributes, x.id, ENTRY_UUID)) {
      if x in before.entries {
        OtherValuesKept(before.attributes, added, id, x.id, ENTRY_UUID, attributes);
      } else {
        OwnValuesWritten(before.attributes, added, id, ENTRY_UUID, attributes);
      }
    }
  }

  lemma UuidNameLower()
    ensures Lower(ENTRY_UUID) == ENTRY_UUID
  {
  }

  lemma CreateKeepsOtherGroup(before: Tables, base: string, e: Entry, uuid: string, after: Tables, g: EntryRow)
    requires Invariant(before, base) && WellBuilt(e, base) && Created(before, base, e, uuid, after, Done)
    requires g in before.entries && g.objectClass == GROUP_OF_NAMES
    ensures GroupMatches(after, g)
  {
    hide EntryExists, Placed, AttributesClean, OneUuid, ResolveMember, RowValues, RowsGood, WellBuilt, NewMembers, WithUuid;
    hide DnsUnique, HoldsAttributes, ValidatePlacement, HasRequiredAttributes, Entry.GetAttributes, Entry.GetAttribute;
    FreshId(before);
    NewMembersOwned(before, e);
    var id, attributes := before.nextId, WithUuid(e, uuid).attributes;
    var added :| Appended(before.attributes, added, after.attributes) && HoldsAttributes(added, id, attributes);
    OtherValuesKept(before.attributes, added, id, g.id, "member", attributes);
    var dns := RowValues(before.attributes, g.id, "member");
    forall d | d in dns ensures ResolveMember(after.entries, d) == ResolveMember(before.entries, d) && EntryExists(after.entries, d) {
      ResolveAfterInsert(before.entries, NewRow(before, e), d);
    }
    forall m: nat ensures MemberRow(g.id, m) in after.members <==> MemberRow(g.id, m) in before.members {
    }
  }

  /** No member row carries the id the next entry will get. */
  lemma FreshMemberId(t: Tables)
    requires IdsOrdered(t) && MembersMatch(t)
    ensures forall m :: m in t.members ==> m.group != t.nextId
  {
    hide GroupMatches;
    forall m | m in t.members ensures m.group != t.nextId {
      var e :| e in t.entries && e.id == m.group && e.objectClass == GROUP_OF_NAMES;
    }
  }

  lemma CreateMatchesNewGroup(before: Tables, base: string, e: Entry, uuid: string, after: Tables)
    requires Invariant(before, base) && WellBuilt(e, base) && Created(before, base, e, uuid, after, Done) && e.IsGroup()
    ensures GroupMatches(after, NewRow(before, e))
  {
    hide EqualFold, IsTimestamp, Placed, OneUuid, IsGenericStored, ResolveMember, RowValues, MembersResolve, MemberIds;
    hide HoldsAttributes, MembersMatch, AttributesClean, Entry.GetAttributes, WithUuid;
    var id, attributes := before.nextId, WithUuid(e, uuid).attributes;
    var added :| Appended(before.attributes, added, after.attributes) && HoldsAttributes(added, id, attributes);
    MemberValues(e, base, uuid);
    FreshId(before);
    FreshMemberId(before);
    OwnValuesWritten(before.attributes, added, id, "member", attributes);
    var dns := e.GetAttributes("member");
    forall m: nat ensures MemberRow(id, m) in after.members <==> exists d :: d in dns && ResolveMember(after.entries, d) == m {
      MemberIdsIn(after.entries, dns, m);
      MemberRowIn(id, MemberIds(after.entries, dns), m);
    }
  }

  lemma MemberRowIn(group: nat, ids: seq<nat>, m: nat)
    ensures MemberRow(group, m) in MemberRows(group, ids) <==> m in ids
  {
    var rows := MemberRows(group, ids);
    if m in ids {
      var i :| 0 <= i < |ids| && ids[i] == m;
      assert rows[i] == MemberRow(group, m);
    }
  }

  lemma NewMembersOwned(t: Tables, e: Entry)
    ensures forall m :: m in NewMembers(t, e) ==> m.group == t.nextId && e.IsGroup()
    ensures NoRepeats(NewMembers(t, e))
  {
    hide MembersResolve, Entry.GetAttributes;
  }

  lemma CreateKeepsMembers(before: Tables, base: string, e: Entry, uuid: string, after: Tables)
    requires Invariant(before, base) && WellBuilt(e, base) && Created(before, base, e, uuid, after, Done)
    ensures MembersMatch(after)
  {
    hide EqualFold, IsTimestamp, Placed, AttributesClean, OneUuid, GroupMatches, HoldsAttributes, NewMembers, CreateOutcome;
    var id, row := before.nextId, NewRow(before, e);
    NewMembersOwned(before, e);
    FreshMemberId(before);
    forall m | m in after.members ensures exists x :: x in after.entries && x.id == m.group && x.objectClass == GROUP_OF_NAMES {
      if m in before.members {
        var x :| x in before.entries && x.id == m.group && x.objectClass == GROUP_OF_NAMES;
        assert x in after.entries;
      } else {
        assert row in after.entries && row.id == m.group;
      }
    }
    forall g | g in after.entries && g.objectClass == GROUP_OF_NAMES ensures GroupMatches(after, g) {
      if g in before.entries {
        CreateKeepsOtherGroup(before, base, e, uuid, after, g);
      } else {
        CreateMatchesNewGroup(before, base, e, uuid, after);
      }
    }
    ConcatDistinct(before.members, NewMembers(before, e));
  }

  lemma ConcatDistinct(a: seq<MemberRow>, b: seq<MemberRow>)
    requires NoRepeats(a) && NoRepeats(b)
    requires forall x, y :: x in a && y in b ==> x.group != y.group
    ensures NoRepeats(a + b)
  {
    forall i, j | 0 <= i < j < |a + b| ensures (a + b)[i] != (a + b)[j] {
      if i < |a| <= j {
        assert a[i] in a && b[j - |a|] in b;
      }
    }
  }

  lemma CreateKeepsCore(before: Tables, base: string, e: Entry, uuid: string, after: Tables, outcome: Outcome)
    requires Core(before, base) && WellBuilt(e, base) && uuid != "" && Created(before, base, e, uuid, after, outcome)
    ensures Core(after, base)
  {
    hide Created, WellBuilt, IdsOrdered, DnsUnique, Placed, AttributesClean, OneUuid, RowsGood;
    if outcome == Done {
      CreateKeepsRows(before, base, e, uuid, after);
      CreateKeepsPlaced(before, base, e, uuid, after);
      CreateKeepsClean(before, base, e, uuid, after);
      CreateKeepsUuids(before, base, e, uuid, after);
    } else {
      FailedCreate(before, base, e, uuid, after, outcome);
    }
  }

  lemma CreateKeepsInvariant(before: Tables, base: string, e: Entry, uuid: string, after: Tables, outcome: Outcome)
    requires Invariant(before, base) && WellBuilt(e, base) && uuid != "" && Created(before, base, e, uuid, after, outcome)
    ensures Invariant(after, base)
  {
    hide Created, WellBuilt, Core, MembersMatch;
    CreateKeepsCore(before, base, e, uuid, after, outcome);
    if outcome == Done {
      CreateKeepsMembers(before, base, e, uuid, after);
    } else {
      FailedCreate(before, base, e, uuid, after, outcome);
    }
  }

  lemma FailedCreate(before: Tables, base: string, e: Entry, uuid: string, after: Tables, outcome: Outcome)
    requires Created(before, base, e, uuid, after, outcome) && outcome != Done
    ensures after == before
  {
  }

  // ---- Update ----

  /** The member values the update carries are the ones the member rows already show. */
  ghost predicate StillMatches(t: Tables, e: Entry, group: EntryRow) {
    var dns := e.GetAttributes("member");
    MembersResolve(t.entries, dns) &&
    forall id: nat :: MemberRow(group.id, id) in t.members <==> exists d :: d in dns && ResolveMember(t.entries, d) == id
  }

  /** Only a group row may be given members, and a group row updated as something else must keep its members. */
  ghost predicate RowSafe(t: Tables, e: Entry, row: EntryRow) {
    if e.IsGroup() then row.objectClass == GROUP_OF_NAMES || e.GetAttributes("member") == []
    else row.objectClass == GROUP_OF_NAMES ==> StillMatches(t, e, row)
  }

  /** What a caller of UpdateEntry has to see to. */
  ghost predicate UpdateSafe(t: Tables, e: Entry) {
    var row := FindRow(t.entries, e.dn);
    row >= 0 ==> RowSafe(t, e, t.entries[row])
  }

  /** An update that carries the stored class, as one of an entry just read does, is safe. */
  lemma SameClassIsSafe(t: Tables, e: Entry)
    requires EntryExists(t.entries, e.dn) ==> t.entries[FindRow(t.entries, e.dn)].objectClass == e.objectClass
    ensures UpdateSafe(t, e)
  {
    hide StillMatches;
  }

  lemma TouchKeepsExistence(entries: seq<EntryRow>, dn: string, time: Timestamp, d: string)
    ensures EntryExists(Touch(entries, dn, time), d) == EntryExists(entries, d)
    ensures ResolveMember(Touch(entries, dn, time), d) == ResolveMember(entries, d)
  {
    TouchResolve(entries, dn, time, d);
    ResolveMemberExists(entries, d);
    ResolveMemberExists(Touch(entries, dn, time), d);
  }

  lemma TouchIn(entries: seq<EntryRow>, dn: string, time: Timestamp, x: EntryRow) returns (y: EntryRow)
    requires x in Touch(entries, dn, time)
    ensures y in entries && y.id == x.id && y.objectClass == x.objectClass && y.dn == x.dn
    ensures x == y || x == y.(updatedAt := time)
  {
    var i :| 0 <= i < |entries| && Touch(entries, dn, time)[i] == x;
    y := entries[i];
  }

  lemma InTouch(entries: seq<EntryRow>, dn: string, time: Timestamp, y: EntryRow) returns (x: EntryRow)
    requires y in entries
    ensures x in Touch(entries, dn, time) && y.id == x.id && y.objectClass == x.objectClass && y.dn == x.dn
  {
    var i :| 0 <= i < |entries| && entries[i] == y;
    x := Touch(entries, dn, time)[i];
    assert x in Touch(entries, dn, time);
  }

  /** What a successful update leaves, with the added rows named. */
  ghost predicate UpdatedWith(before: Tables, e: Entry, uuid: string, after: Tables, id: nat, added: seq<AttrRow>) {
    && HasId(before.entries, id)
    && after.nextId == before.nextId
    && after.entries == Touch(before.entries, e.dn, e.updatedAt)
    && after.attributes == WithoutAttributes(before.attributes, id) + added
    && HoldsAttributes(added, id, WithUuid(e, KeptUuid(before, id, uuid)).attributes)
    && (e.IsGroup() ==> MembersResolve(before.entries, e.GetAttributes("member")))
    && after.members == (if e.IsGroup() then
          WithoutMembers(before.members, id) + MemberRows(id, MemberIds(before.entries, e.GetAttributes("member")))
        else before.members)
    && forall x :: x in before.entries && x.id == id && IdsOrdered(before) ==> (UpdateSafe(before, e) <==> RowSafe(before, e, x))
  }

  lemma UpdateUnfold(before: Tables, e: Entry, uuid: string, after: Tables) returns (id: nat, added: seq<AttrRow>)
    requires Updated(before, e, uuid, after, Done)
    ensures UpdatedWith(before, e, uuid, after, id, added)
    ensures EntryExists(before.entries, e.dn) && id == before.entries[FindRow(before.entries, e.dn)].id
  {
    hide EqualFold, HoldsAttributes, RowValues, Entry.GetAttributes, Entry.GetAttribute, MembersResolve, MemberIds, RowSafe;
    hide KeptUuid, WithUuid, ValidateEntry;
    var r := FindRow(before.entries, e.dn);
    id := before.entries[r].id;
    assert before.entries[r] in before.entries;
    added :| Appended(WithoutAttributes(before.attributes, id), added, after.attributes)
      && HoldsAttributes(added, id, WithUuid(e, KeptUuid(before, id, uuid)).attributes);
    if IdsOrdered(before) {
      forall x | x in before.entries && x.id == id ensures x == before.entries[r] {
        var i :| 0 <= i < |before.entries| && before.entries[i] == x;
      }
    }
  }

  lemma UpdateKeepsRows(before: Tables, base: string, e: Entry, after: Tables)
    requires IdsOrdered(before) && DnsUnique(before) && Placed(before, base) && RowsGood(before) && IsTimestamp(e.updatedAt)
    requires after.entries == Touch(before.entries, e.dn, e.updatedAt) && after.nextId == before.nextId
    ensures IdsOrdered(after) && DnsUnique(after) && Placed(after, base) && RowsGood(after)
  {
    hide EqualFold, IsTimestamp, WithinBase, Equal;
    forall i | 0 <= i < |after.entries| ensures RowPlaced(after.entries, base, after.entries[i]) && GoodRow(after.entries[i]) {
      assert RowPlaced(before.entries, base, before.entries[i]);
      assert before.entries[i] in before.entries;
      TouchKeepsExistence(before.entries, e.dn, e.updatedAt, after.entries[i].parentDn);
    }
  }

  /** Values after an update: untouched for other entries, the new ones for the updated entry. */
  lemma UpdatedValues(before: Tables, e: Entry, uuid: string, after: Tables, id: nat, added: seq<AttrRow>, x: nat, name: string)
    requires UpdatedWith(before, e, uuid, after, id, added)
    ensures x != id ==> RowValues(after.attributes, x, name) == RowValues(before.attributes, x, name)
    ensures RowValues(after.attributes, id, name) ==
      if IsGenericStored(name) then ValuesFor(WithUuid(e, KeptUuid(before, id, uuid)).attributes, name) else []
  {
    hide RowValues, HoldsAttributes, IsGenericStored, WithUuid, KeptUuid;
    var kept := WithoutAttributes(before.attributes, id);
    RowValuesWithout(before.attributes, id, x, name);
    if x != id {
      OtherValuesKept(kept, added, id, x, name, WithUuid(e, KeptUuid(before, id, uuid)).attributes);
    }
    OwnValuesWritten(kept, added, id, name, WithUuid(e, KeptUuid(before, id, uuid)).attributes);
  }

  /** An update never changes a stable id. */
  lemma UpdateKeepsUuidValues(before: Tables, base: string, e: Entry, uuid: string, after: Tables, id: nat, added: seq<AttrRow>, x: EntryRow)
    requires UpdatedWith(before, e, uuid, after, id, added) && WellBuilt(e, base) && OneUuid(before) && x in before.entries
    ensures RowValues(after.attributes, x.id, ENTRY_UUID) == RowValues(before.attributes, x.id, ENTRY_UUID)
  {
    hide RowValues, HoldsAttributes, IsGenericStored;
    UpdatedValues(before, e, uuid, after, id, added, x.id, ENTRY_UUID);
    MemberValues(e, base, uuid);
    assert IsOneUuid(RowValues(before.attributes, x.id, ENTRY_UUID));
  }

  lemma UpdateKeepsAttributes(before: Tables, base: string, e: Entry, uuid: string, after: Tables, id: nat, added: seq<AttrRow>)
    requires UpdatedWith(before, e, uuid, after, id, added) && WellBuilt(e, base)
    requires OneUuid(before) && AttributesClean(before)
    ensures OneUuid(after) && AttributesClean(after)
  {
    hide RowValues, IsGenericStored, Lower, KeptUuid, IsTimestamp;
    forall x | x in after.entries ensures IsOneUuid(RowValues(after.attributes, x.id, ENTRY_UUID)) {
      var y := TouchIn(before.entries, e.dn, e.updatedAt, x);
      UpdateKeepsUuidValues(before, base, e, uuid, after, id, added, y);
    }
    assert Lower(ENTRY_UUID) == ENTRY_UUID by { UuidNameLower(); }
    forall a | a in after.attributes ensures HasId(after.entries, a.entryId) {
      assert HasId(before.entries, a.entryId);
      var y :| y in before.entries && y.id == a.entryId;
      var x := InTouch(before.entries, e.dn, e.updatedAt, y);
    }
  }

  /** Which member rows an update leaves. */
  lemma UpdatedMembers(before: Tables, e: Entry, uuid: string, after: Tables, id: nat, added: seq<AttrRow>, x: nat, m: nat)
    requires UpdatedWith(before, e, uuid, after, id, added)
    ensures x != id || !e.IsGroup() ==> (MemberRow(x, m) in after.members <==> MemberRow(x, m) in before.members)
    ensures e.IsGroup() ==>
      (MemberRow(id, m) in after.members <==> exists d :: d in e.GetAttributes("member") && ResolveMember(before.entries, d) == m)
  {
    hide RowValues, HoldsAttributes, KeptUuid, Entry.GetAttributes, ResolveMember, MembersResolve;
    if e.IsGroup() {
      var dns := e.GetAttributes("member");
      MemberIdsIn(before.entries, dns, m);
      MemberRowIn(id, MemberIds(before.entries, dns), m);
    }
  }

  lemma UpdateMatchesOwnGroup(before: Tables, base: string, e: Entry, uuid: string, after: Tables, id: nat, added: seq<AttrRow>, g: EntryRow)
    requires UpdatedWith(before, e, uuid, after, id, added) && WellBuilt(e, base) && e.IsGroup() && g.id == id
    ensures GroupMatches(after, g)
  {
    hide RowValues, IsGenericStored, ResolveMember, MembersResolve, MemberIds, HoldsAttributes, KeptUuid, Entry.GetAttributes;
    hide WellBuilt;
    var dns := e.GetAttributes("member");
    UpdatedValues(before, e, uuid, after, id, added, g.id, "member");
    MemberValues(e, base, KeptUuid(before, id, uuid));
    ResolvesAfterTouch(before.entries, e.dn, e.updatedAt, dns);
    assert RowValues(after.attributes, id, "member") == dns;
    forall m: nat ensures MemberRow(id, m) in after.members <==> exists d :: d in dns && ResolveMember(after.entries, d) == m {
      UpdatedMembers(before, e, uuid, after, id, added, id, m);
    }
  }

  lemma UpdateMatchesOtherGroup(before: Tables, e: Entry, uuid: string, after: Tables, id: nat, added: seq<AttrRow>, g: EntryRow, y: EntryRow)
    requires UpdatedWith(before, e, uuid, after, id, added) && g.id == y.id != id && GroupMatches(before, y)
    ensures GroupMatches(after, g)
  {
    hide RowValues, IsGenericStored, ResolveMember, MembersResolve, MemberIds, HoldsAttributes, KeptUuid, Entry.GetAttributes;
    UpdatedValues(before, e, uuid, after, id, added, g.id, "member");
    ResolvesAfterTouch(before.entries, e.dn, e.updatedAt, RowValues(before.attributes, g.id, "member"));
    forall m: nat ensures MemberRow(g.id, m) in after.members <==> MemberRow(g.id, m) in before.members {
      UpdatedMembers(before, e, uuid, after, id, added, g.id, m);
    }
  }

  lemma UpdateMatchesGroup(before: Tables, base: string, e: Entry, uuid: string, after: Tables, id: nat, added: seq<AttrRow>, g: EntryRow)
    requires UpdatedWith(before, e, uuid, after, id, added) && WellBuilt(e, base)
    requires IdsOrdered(before) && MembersMatch(before) && UpdateSafe(before, e)
    requires g in after.entries && g.objectClass == GROUP_OF_NAMES
    ensures GroupMatches(after, g)
  {
    hide GroupMatches, HoldsAttributes, KeptUuid, WellBuilt, UpdateSafe, StillMatches, IdsOrdered, MembersResolve, MemberIds;
    hide Entry.GetAttributes;
    var y := TouchIn(before.entries, e.dn, e.updatedAt, g);
    if g.id == id && e.IsGroup() {
      UpdateMatchesOwnGroup(before, base, e, uuid, after, id, added, g);
    } else if g.id == id {
      UpdateMatchesIfStill(before, base, e, uuid, after, id, added, g);
      assert RowSafe(before, e, y);
      StillMatchesId(before, e, y, g);
    } else {
      UpdateMatchesOtherGroup(before, e, uuid, after, id, added, g, y);
    }
  }

  lemma StillMatchesId(t: Tables, e: Entry, x: EntryRow, y: EntryRow)
    requires x.id == y.id
    ensures StillMatches(t, e, x) <==> StillMatches(t, e, y)
  {
  }

  /** Updated as something else, a group matches its new member values if and only if its rows already showed them. */
  lemma UpdateMatchesIfStill(before: Tables, base: string, e: Entry, uuid: string, after: Tables, id: nat, added: seq<AttrRow>, g: EntryRow)
    requires UpdatedWith(before, e, uuid, after, id, added) && WellBuilt(e, base) && !e.IsGroup() && g.id == id
    ensures GroupMatches(after, g) <==> StillMatches(before, e, g)
  {
    hide RowValues, IsGenericStored, ResolveMember, MembersResolve, MemberIds, HoldsAttributes, KeptUuid, Entry.GetAttributes;
    hide WellBuilt;
    var dns := e.GetAttributes("member");
    UpdatedValues(before, e, uuid, after, id, added, id, "member");
    MemberValues(e, base, KeptUuid(before, id, uuid));
    ResolvesAfterTouch(before.entries, e.dn, e.updatedAt, dns);
    assert RowValues(after.attributes, id, "member") == dns;
  }

  lemma ResolvesAfterTouch(entries: seq<EntryRow>, dn: string, time: Timestamp, dns: seq<string>)
    ensures MembersResolve(Touch(entries, dn, time), dns) == MembersResolve(entries, dns)
    ensures forall d :: ResolveMember(Touch(entries, dn, time), d) == ResolveMember(entries, d)
  {
    hide ResolveMember, EntryExists, Touch;
    forall d ensures ResolveMember(Touch(entries, dn, time), d) == ResolveMember(entries, d)
      && EntryExists(Touch(entries, dn, time), d) == EntryExists(entries, d)
    {
      TouchKeepsExistence(entries, dn, time, d);
    }
  }

  lemma {:induction false} WithoutMembersDistinct(rows: seq<MemberRow>, group: nat)
    requires NoRepeats(rows)
    ensures NoRepeats(WithoutMembers(rows, group))
  {
    if rows != [] {
      var init, last := rows[..|rows| - 1], rows[|rows| - 1];
      WithoutMembersDistinct(init, group);
      var r := WithoutMembers(init, group);
      forall i | 0 <= i < |r| ensures r[i] != last {
        assert r[i] in r;
      }
    }
  }

  lemma UpdateKeepsOwners(before: Tables, e: Entry, uuid: string, after: Tables, id: nat, added: seq<AttrRow>, m: MemberRow)
    requires UpdatedWith(before, e, uuid, after, id, added)
    requires IdsOrdered(before) && MembersMatch(before) && UpdateSafe(before, e) && m in after.members
    ensures exists x :: x in after.entries && x.id == m.group && x.objectClass == GROUP_OF_NAMES
  {
    hide RowValues, HoldsAttributes, KeptUuid, Entry.GetAttributes, MemberIds, GroupMatches, MembersResolve, IdsOrdered, UpdateSafe;
    hide StillMatches;
    var y: EntryRow;
    if m in before.members {
      y :| y in before.entries && y.id == m.group && y.objectClass == GROUP_OF_NAMES;
    } else {
      y :| y in before.entries && y.id == id;
      assert RowSafe(before, e, y);
      NoMemberIds(before.entries);
      assert MemberRows(id, []) == [];
    }
    var x := InTouch(before.entries, e.dn, e.updatedAt, y);
  }

  lemma UpdateKeepsDistinct(before: Tables, e: Entry, uuid: string, after: Tables, id: nat, added: seq<AttrRow>)
    requires UpdatedWith(before, e, uuid, after, id, added) && MembersMatch(before)
    ensures NoRepeats(after.members)
  {
    hide RowValues, HoldsAttributes, KeptUuid, Entry.GetAttributes, MemberIds, GroupMatches, MembersResolve;
    if e.IsGroup() {
      WithoutMembersDistinct(before.members, id);
      ConcatDistinct(WithoutMembers(before.members, id), MemberRows(id, MemberIds(before.entries, e.GetAttributes("member"))));
    }
  }

  lemma UpdateKeepsMembers(before: Tables, base: string, e: Entry, uuid: string, after: Tables, id: nat, added: seq<AttrRow>)
    requires UpdatedWith(before, e, uuid, after, id, added) && WellBuilt(e, base)
    requires IdsOrdered(before) && MembersMatch(before) && UpdateSafe(before, e)
    ensures MembersMatch(after)
  {
    forall m | m in after.members ensures exists x :: x in after.entries && x.id == m.group && x.objectClass == GROUP_OF_NAMES {
      UpdateKeepsOwners(before, e, uuid, after, id, added, m);
    }
    forall g | g in after.entries && g.objectClass == GROUP_OF_NAMES ensures GroupMatches(after, g) {
      UpdateMatchesGroup(before, base, e, uuid, after, id, added, g);
    }
    UpdateKeepsDistinct(before, e, uuid, after, id, added);
    hide UpdatedWith, WellBuilt, GroupMatches;
  }

  /** Every update, safe or not, keeps all but the member rows. */
  lemma UpdateKeepsCore(before: Tables, base: string, e: Entry, uuid: string, after: Tables, outcome: Outcome)
    requires Core(before, base) && WellBuilt(e, base) && Updated(before, e, uuid, after, outcome)
    ensures Core(after, base)
  {
    hide Updated, IdsOrdered, DnsUnique, Placed, AttributesClean, OneUuid, RowsGood, HoldsAttributes;
    if outcome == Done {
      var id, added := UpdateUnfold(before, e, uuid, after);
      UpdateKeepsRows(before, base, e, after);
      UpdateKeepsAttributes(before, base, e, uuid, after, id, added);
    } else {
      FailedUpdate(before, e, uuid, after, outcome);
    }
  }

  lemma FailedUpdate(before: Tables, e: Entry, uuid: string, after: Tables, outcome: Outcome)
    requires Updated(before, e, uuid, after, outcome) && outcome != Done
    ensures after == before
  {
  }

  lemma UpdateKeepsInvariant(before: Tables, base: string, e: Entry, uuid: string, after: Tables, outcome: Outcome)
    requires Invariant(before, base) && WellBuilt(e, base) && Updated(before, e, uuid, after, outcome)
    requires outcome == Done ==> UpdateSafe(before, e)
    ensures Invariant(after, base)
  {
    hide Updated, IdsOrdered, DnsUnique, Placed, AttributesClean, OneUuid, MembersMatch, RowsGood, UpdateSafe, WellBuilt, UpdatedWith;
    UpdateKeepsCore(before, base, e, uuid, after, outcome);
    if outcome == Done {
      var id, added := UpdateUnfold(before, e, uuid, after);
      UpdateKeepsMembers(before, base, e, uuid, after, id, added);
    } else {
      FailedUpdate(before, e, uuid, after, outcome);
    }
  }

  /** An unsafe update, when it succeeds, leaves member rows that do not fit the groups. */
  lemma UnsafeUpdateBreaks(before: Tables, base: string, e: Entry, uuid: string, after: Tables)
    requires Core(before, base) && WellBuilt(e, base) && !UpdateSafe(before, e) && Updated(before, e, uuid, after, Done)
    ensures !MembersMatch(after)
  {
    hide Updated, IdsOrdered, DnsUnique, Placed, AttributesClean, OneUuid, RowsGood, UpdateSafe, HoldsAttributes, WellBuilt, MembersResolve;
    hide KeptUuid, MemberIds, Entry.GetAttributes, StillMatches, GroupMatches;
    var id, added := UpdateUnfold(before, e, uuid, after);
    var y :| y in before.entries && y.id == id;
    var x := InTouch(before.entries, e.dn, e.updatedAt, y);
    assert !RowSafe(before, e, y);
    if e.IsGroup() {
      var dns := e.GetAttributes("member");
      var m := FirstMember(before.entries, dns);
      UpdatedMembers(before, e, uuid, after, id, added, id, m);
      forall z | z in after.entries && z.id == id ensures z.objectClass != GROUP_OF_NAMES {
        var w := TouchIn(before.entries, e.dn, e.updatedAt, z);
        assert !RowSafe(before, e, w);
      }
      assert MemberRow(id, m) in after.members;
    } else {
      UpdateMatchesIfStill(before, base, e, uuid, after, id, added, x);
      StillMatchesId(before, e, y, x);
    }
  }

  lemma FirstMember(entries: seq<EntryRow>, dns: seq<string>) returns (m: nat)
    requires MembersResolve(entries, dns) && dns != []
    ensures exists d :: d in dns && ResolveMember(entries, d) == m
  {
    ResolveMemberExists(entries, dns[0]);
    m := ResolveMember(entries, dns[0]);
  }

  /** A successful update keeps the invariant if and only if it is safe. */
  lemma UpdateInvariantExact(before: Tables, base: string, e: Entry, uuid: string, after: Tables)
    requires Invariant(before, base) && WellBuilt(e, base) && Updated(before, e, uuid, after, Done)
    ensures Invariant(after, base) <==> UpdateSafe(before, e)
  {
    hide Updated, Core, UpdateSafe, WellBuilt, MembersMatch;
    if UpdateSafe(before, e) {
      UpdateKeepsInvariant(before, base, e, uuid, after, Done);
    } else {
      UnsafeUpdateBreaks(before, base, e, uuid, after);
    }
  }

  // ---- Runs ----

  datatype Step = CreateStep(entry: Entry, uuid: string) | UpdateStep(entry: Entry, uuid: string)

  /** One step, successful or failed. */
  ghost predicate Steps(before: Tables, base: string, step: Step, after: Tables) {
    WellBuilt(step.entry, base) &&
    match step
    case CreateStep(e, uuid) => uuid != "" && exists outcome :: Created(before, base, e, uuid, after, outcome)
    case UpdateStep(e, uuid) => exists outcome :: Updated(before, e, uuid, after, outcome)
  }

  /** Not a successful update that is unsafe. */
  ghost predicate SafeStep(before: Tables, step: Step) {
    step.UpdateStep? && UpdateOutcome(before, step.entry) == Done ==> UpdateSafe(before, step.entry)
  }

  ghost predicate IsRun(states: seq<Tables>, base: string, steps: seq<Step>) {
    |states| == |steps| + 1 && forall i :: 0 <= i < |steps| ==> Steps(states[i], base, steps[i], states[i + 1])
  }

  lemma StepKeepsCore(before: Tables, base: string, step: Step, after: Tables)
    requires Core(before, base) && Steps(before, base, step, after)
    ensures Core(after, base)
  {
    hide Core, Created, Updated, WellBuilt;
    match step
    case CreateStep(e, uuid) =>
      var outcome :| Created(before, base, e, uuid, after, outcome);
      CreateKeepsCore(before, base, e, uuid, after, outcome);
    case UpdateStep(e, uuid) =>
      var outcome :| Updated(before, e, uuid, after, outcome);
      UpdateKeepsCore(before, base, e, uuid, after, outcome);
  }

  lemma UpdatedOutcome(before: Tables, e: Entry, uuid: string, after: Tables, outcome: Outcome)
    requires Updated(before, e, uuid, after, outcome)
    ensures outcome == UpdateOutcome(before, e)
  {
  }

  /** From a good state, a step leads to a good state if and only if it is safe. */
  lemma StepInvariantExact(before: Tables, base: string, step: Step, after: Tables)
    requires Invariant(before, base) && Steps(before, base, step, after)
    ensures Invariant(after, base) <==> SafeStep(before, step)
  {
    hide Invariant, Created, Updated, WellBuilt, UpdateSafe, UpdateOutcome;
    match step
    case CreateStep(e, uuid) =>
      var outcome :| Created(before, base, e, uuid, after, outcome);
      CreateKeepsInvariant(before, base, e, uuid, after, outcome);
    case UpdateStep(e, uuid) =>
      var outcome :| Updated(before, e, uuid, after, outcome);
      UpdatedOutcome(before, e, uuid, after, outcome);
      if outcome == Done {
        UpdateInvariantExact(before, base, e, uuid, after);
      } else {
        UpdateKeepsInvariant(before, base, e, uuid, after, outcome);
      }
  }

  /** Every state of every run, whatever its updates, has unique placed DNs, clean attributes and one stable id each. */
  lemma {:induction false} RunKeepsCore(states: seq<Tables>, base: string, steps: seq<Step>, i: nat)
    requires IsRun(states, base, steps) && Core(states[0], base) && i < |states|
    ensures Core(states[i], base)
  {
    hide Core, Steps;
    if i > 0 {
      RunKeepsCore(states, base, steps, i - 1);
      StepKeepsCore(states[i - 1], base, steps[i - 1], states[i]);
    }
  }

  lemma {:induction false} SafeRunKeepsInvariant(states: seq<Tables>, base: string, steps: seq<Step>, i: nat)
    requires IsRun(states, base, steps) && Invariant(states[0], base) && i < |states|
    requires forall j :: 0 <= j < i ==> SafeStep(states[j], steps[j])
    ensures Invariant(states[i], base)
  {
    hide Invariant, Steps, SafeStep;
    if i > 0 {
      SafeRunKeepsInvariant(states, base, steps, i - 1);
      StepInvariantExact(states[i - 1], base, steps[i - 1], states[i]);
    }
  }

  /** All states of a run satisfy the whole invariant if and only if all its steps are safe. */
  lemma RunKeepsInvariant(states: seq<Tables>, base: string, steps: seq<Step>)
    requires IsRun(states, base, steps) && Invariant(states[0], base)
    ensures (forall i :: 0 <= i < |states| ==> Invariant(states[i], base))
      <==> forall i :: 0 <= i < |steps| ==> SafeStep(states[i], steps[i])
  {
    hide Invariant, Steps, SafeStep;
    if forall i :: 0 <= i < |steps| ==> SafeStep(states[i], steps[i]) {
      forall i | 0 <= i < |states| ensures Invariant(states[i], base) {
        SafeRunKeepsInvariant(states, base, steps, i);
      }
    }
    if forall i :: 0 <= i < |states| ==> Invariant(states[i], base) {
      forall i | 0 <= i < |steps| ensures SafeStep(states[i], steps[i]) {
        StepInvariantExact(states[i], base, steps[i], states[i + 1]);
      }
    }
  }

  /** The empty store a run starts from. */
  lemma EmptyStoreInvariant(base: string)
    ensures Invariant(Tables([], [], [], map[], 1), base)
  {
  }

  ghost predicate KeepsUuids(before: Tables, after: Tables) {
    forall x :: x in before.entries ==>
      HasId(after.entries, x.id) && RowValues(after.attributes, x.id, ENTRY_UUID) == RowValues(before.attributes, x.id, ENTRY_UUID)
  }

  /** No step, not even an unsafe update, changes the stable id of any entry. */
  lemma StepKeepsUuids(before: Tables, base: string, step: Step, after: Tables)
    requires Core(before, base) && Steps(before, base, step, after)
    ensures KeepsUuids(before, after)
  {
    hide RowValues, HoldsAttributes, Placed, CreateOutcome, UpdateOutcome, NewMembers, EqualFold;
    var e := step.entry;
    if after == before {
    } else if step.CreateStep? {
      FreshId(before);
      var id, attributes := before.nextId, WithUuid(e, step.uuid).attributes;
      var added :| Appended(before.attributes, added, after.attributes) && HoldsAttributes(added, id, attributes);
      forall x | x in before.entries ensures HasId(after.entries, x.id)
        && RowValues(after.attributes, x.id, ENTRY_UUID) == RowValues(before.attributes, x.id, ENTRY_UUID)
      {
        assert x in after.entries;
        OtherValuesKept(before.attributes, added, id, x.id, ENTRY_UUID, attributes);
      }
    } else {
      var id, added := UpdateUnfold(before, e, step.uuid, after);
      forall x | x in before.entries ensures HasId(after.entries, x.id)
        && RowValues(after.attributes, x.id, ENTRY_UUID) == RowValues(before.attributes, x.id, ENTRY_UUID)
      {
        var y := InTouch(before.entries, e.dn, e.updatedAt, x);
        UpdateKeepsUuidValues(before, base, e, step.uuid, after, id, added, x);
      }
    }
  }

  /** The stable id an entry has at some point of any run is the one it has at every later point. */
  lemma {:induction false} RunKeepsUuids(states: seq<Tables>, base: string, steps: seq<Step>, i: nat, j: nat)
    requires IsRun(states, base, steps) && Core(states[0], base) && i <= j < |states|
    ensures KeepsUuids(states[i], states[j])
    decreases j
  {
    hide Core, Steps, RowValues;
    if i < j {
      RunKeepsUuids(states, base, steps, i, j - 1);
      RunKeepsCore(states, base, steps, j - 1);
      StepKeepsUuids(states[j - 1], base, steps[j - 1], states[j]);
      forall x | x in states[i].entries ensures HasId(states[j].entries, x.id)
        && RowValues(states[j].attributes, x.id, ENTRY_UUID) == RowValues(states[i].attributes, x.id, ENTRY_UUID)
      {
        var y :| y in states[j - 1].entries && y.id == x.id;
      }
    } else {
      forall x | x in states[i].entries ensures HasId(states[j].entries, x.id) {
      }
    }
  }
}
