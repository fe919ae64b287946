/** The directory store: creating and updating entries over its tables, with rollback. */
module Directory {
  import opened Text
  import opened Dn
  import opened Tables

  datatype Error =
    | InvalidEntry            // no DN
    | ObjectClassViolation    // no object class, or a required attribute is missing
    | BaseNotConfigured
    | ConstraintViolation     // outside the base DN, or a group member does not exist
    | BaseHasParent
    | NoSuchObject            // no parent, or no entry to update
    | EntryAlreadyExists

  datatype Outcome = Done | Failed(error: Error)

  // ---- Queries ----

  /** EXISTS(SELECT 1 FROM entries WHERE LOWER(dn) = LOWER(?)) */
  predicate EntryExists(entries: seq<EntryRow>, dn: string) {
    exists e :: e in entries && EqualFold(e.dn, dn)
  }

  /** The position of the row with this DN, or -1. */
  function FindRow(entries: seq<EntryRow>, dn: string): (r: int)
    ensures -1 <= r < |entries|
    ensures r >= 0 ==> EqualFold(entries[r].dn, dn)
    ensures r == -1 <==> !EntryExists(entries, dn)
  {
    if entries == [] then -1
    else if EqualFold(entries[0].dn, dn) then 0
    else
      var r := FindRow(entries[1..], dn);
      assert entries == [entries[0]] + entries[1..];
      if r == -1 then -1 else r + 1
  }

  /** The values of one attribute of one entry, in row order. */
  function RowValues(rows: seq<AttrRow>, id: nat, name: string): seq<string> {
    if rows == [] then []
    else
      var last := rows[|rows| - 1];
      RowValues(rows[..|rows| - 1], id, name) + (if last.entryId == id && last.name == name then [last.value] else [])
  }

  function WithoutAttributes(rows: seq<AttrRow>, id: nat): (r: seq<AttrRow>)
    ensures forall a :: a in r <==> a in rows && a.entryId != id
  {
    if rows == [] then []
    else
      var init, last := rows[..|rows| - 1], rows[|rows| - 1];
      assert rows == init + [last];
      WithoutAttributes(init, id) + (if last.entryId == id then [] else [last])
  }

  function WithoutMembers(rows: seq<MemberRow>, group: nat): (r: seq<MemberRow>)
    ensures forall m :: m in r <==> m in rows && m.group != group
  {
    if rows == [] then []
    else
      var init, last := rows[..|rows| - 1], rows[|rows| - 1];
      assert rows == init + [last];
      WithoutMembers(init, group) + (if last.group == group then [] else [last])
  }

  // ---- Validation ----

  /** Entry.Validate as classified by the store. */
  function ValidateEntry(e: Entry): Outcome {
    if e.dn == "" then Failed(InvalidEntry)
    else if e.objectClass == "" then Failed(ObjectClassViolation)
    else Done
  }

  /** The required attributes of users, groups and organizational units. */
  predicate HasRequiredAttributes(e: Entry) {
    (e.IsUser() ==> e.GetAttribute("uid") != "" && e.GetAttribute("cn") != "" && e.GetAttribute("sn") != "")
    && (e.IsGroup() ==> e.GetAttribute("cn") != "" && e.GetAttributes("member") != [])
    && (e.IsOrganizationalUnit() ==> e.GetAttribute("ou") != "")
  }

  /** validateEntryPlacement */
  function ValidatePlacement(entries: seq<EntryRow>, base: string, e: Entry): Outcome {
    if TrimSpace(base) == "" then Failed(BaseNotConfigured)
    else if !WithinBase(e.dn, TrimSpace(base)) then Failed(ConstraintViolation)
    else if Equal(e.dn, TrimSpace(base)) then (if e.parentDn != "" then Failed(BaseHasParent) else Done)
    else if e.parentDn == "" then Failed(NoSuchObject)
    else if !EntryExists(entries, e.parentDn) then Failed(NoSuchObject)
    else Done
  }

  // ---- Attributes ----

  /** isGenericStoredAttribute: server-managed values live in other tables. */
  predicate IsGenericStored(name: string) {
    var n := Lower(name);
    n != "userpassword" && n != "objectclass" && n != "createtimestamp" && n != "modifytimestamp"
    && n != "memberof" && n != "uuid"
  }

  const ENTRY_UUID := "entryuuid"

  /** The rows of one entry hold exactly its generic attributes, each with its values in order. */
  ghost predicate HoldsAttributes(rows: seq<AttrRow>, id: nat, attributes: Values) {
    && (forall a :: a in rows ==> a.entryId == id && a.name in attributes && IsGenericStored(a.name))
    && forall name :: RowValues(rows, id, name) ==
        if name in attributes && IsGenericStored(name) then attributes[name] else []
  }

  predicate Appended(before: seq<AttrRow>, added: seq<AttrRow>, after: seq<AttrRow>) {
    after == before + added
  }

  /** The rows of one attribute. */
  function ValueRows(id: nat, name: string, values: seq<string>): (rows: seq<AttrRow>)
    ensures |rows| == |values| && forall i :: 0 <= i < |values| ==> rows[i] == AttrRow(id, name, values[i])
  {
    seq(|values|, i requires 0 <= i < |values| => AttrRow(id, name, values[i]))
  }

  lemma {:induction false} RowValuesOfValueRows(rows: seq<AttrRow>, id: nat, name: string, values: seq<string>, n: string)
    ensures RowValues(rows + ValueRows(id, name, values), id, n) == RowValues(rows, id, n) + (if n == name then values else [])
  {
    var all := rows + ValueRows(id, name, values);
    if values == [] {
      assert all == rows;
    } else {
      var init, last := values[..|values| - 1], values[|values| - 1];
      assert all == rows + ValueRows(id, name, init) + [AttrRow(id, name, last)];
      RowValuesExtend(rows + ValueRows(id, name, init), AttrRow(id, name, last), id, n);
      RowValuesOfValueRows(rows, id, name, init, n);
      assert values == init + [last];
    }
  }

  lemma RowValuesExtend(rows: seq<AttrRow>, row: AttrRow, id: nat, name: string)
    ensures RowValues(rows + [row], id, name) ==
      RowValues(rows, id, name) + (if row.entryId == id && row.name == name then [row.value] else [])
  {
    assert (rows + [row])[..|rows|] == rows;
  }

  /** What an entry is loaded with under a name: the values of its rows, in row order. */
  lemma {:induction false} CollectInOrder(rows: seq<AttrRow>, id: nat, name: string)
    requires forall r :: r in rows ==> r.name != "" && Lower(r.name) == r.name
    ensures ValuesFor(Collect(rows, id), name) == RowValues(rows, id, name)
  {
    hide Lower;
    if rows != [] {
      var init, last := rows[..|rows| - 1], rows[|rows| - 1];
      assert rows == init + [last];
      CollectInOrder(init, id, name);
    }
  }

  /** As HoldsAttributes, with the attributes named in `missing` still to come. */
  ghost predicate HoldsSome(rows: seq<AttrRow>, id: nat, attributes: Values, missing: set<string>) {
    && (forall a :: a in rows ==> a.entryId == id && a.name in attributes && IsGenericStored(a.name))
    && forall name :: RowValues(rows, id, name) ==
        if name in attributes && name !in missing && IsGenericStored(name) then attributes[name] else []
  }

  lemma NoRows(id: nat)
    ensures forall name :: RowValues([], id, name) == []
  {
  }

  lemma HoldsMore(rows: seq<AttrRow>, id: nat, attributes: Values, missing: set<string>, name: string)
    requires HoldsSome(rows, id, attributes, missing) && name in missing && name in attributes && IsGenericStored(name)
    ensures HoldsSome(rows + ValueRows(id, name, attributes[name]), id, attributes, missing - {name})
  {
    hide IsGenericStored, RowValues;
    var values := attributes[name];
    forall n ensures RowValues(rows + ValueRows(id, name, values), id, n) ==
        RowValues(rows, id, n) + (if n == name then values else [])
    {
      RowValuesOfValueRows(rows, id, name, values, n);
    }
  }

  // ---- Group members ----

  /** The id a member DN resolves to, or -1. */
  function ResolveMember(entries: seq<EntryRow>, dn: string): (r: int)
    ensures r == -1 || exists e :: e in entries && EqualFold(e.dn, dn) && e.id == r
    ensures r == -1 <==> !EntryExists(entries, dn)
  {
    if entries == [] then -1
    else
      var init, last := entries[..|entries| - 1], entries[|entries| - 1];
      assert entries == init + [last];
      if EqualFold(last.dn, dn) then last.id else ResolveMember(init, dn)
  }

  predicate MembersResolve(entries: seq<EntryRow>, dns: seq<string>) {
    forall d :: d in dns ==> EntryExists(entries, d)
  }

  /** The distinct ids the member DNs resolve to, in order of first mention. */
  function MemberIds(entries: seq<EntryRow>, dns: seq<string>): (ids: seq<nat>)
    requires MembersResolve(entries, dns)
    ensures forall i, j :: 0 <= i < j < |ids| ==> ids[i] != ids[j]
  {
    if dns == [] then []
    else
      var init, last := dns[..|dns| - 1], dns[|dns| - 1];
      assert dns == init + [last];
      var ids, id := MemberIds(entries, init), ResolveMember(entries, last);
      if id in ids then ids else ids + [id]
  }

  lemma {:induction false} MemberIdsIn(entries: seq<EntryRow>, dns: seq<string>, id: nat)
    requires MembersResolve(entries, dns)
    ensures id in MemberIds(entries, dns) <==> exists d :: d in dns && ResolveMember(entries, d) == id
  {
    hide ResolveMember, EntryExists;
    if dns != [] {
      var init, last := dns[..|dns| - 1], dns[|dns| - 1];
      assert dns == init + [last] && last in dns;
      MemberIdsIn(entries, init, id);
      if d :| d in dns && ResolveMember(entries, d) == id {
        assert d in init || d == last;
      }
      if d :| d in init && ResolveMember(entries, d) == id {
        assert d in dns;
      }
    }
  }

  lemma MemberIdsExtend(entries: seq<EntryRow>, dns: seq<string>, i: nat)
    requires i < |dns| && MembersResolve(entries, dns)
    ensures MembersResolve(entries, dns[..i]) && MembersResolve(entries, dns[..i + 1])
    ensures EntryExists(entries, dns[i]) && ResolveMember(entries, dns[i]) >= 0
    ensures MemberIds(entries, dns[..i + 1]) ==
      var ids, id := MemberIds(entries, dns[..i]), ResolveMember(entries, dns[i]); if id in ids then ids else ids + [id]
  {
    assert dns[..i + 1][..i] == dns[..i];
    assert dns[i] in dns;
  }

  function MemberRows(group: nat, ids: seq<nat>): (rows: seq<MemberRow>)
    ensures |rows| == |ids| && forall i :: 0 <= i < |ids| ==> rows[i] == MemberRow(group, ids[i])
  {
    seq(|ids|, i requires 0 <= i < |ids| => MemberRow(group, ids[i]))
  }

  // ---- What a step does to the tables ----

  function NewRow(t: Tables, e: Entry): EntryRow {
    EntryRow(t.nextId, e.dn, e.parentDn, e.objectClass, e.createdAt, e.updatedAt)
  }

  /** The member rows of a new entry; a group may name itself. */
  function NewMembers(t: Tables, e: Entry): seq<MemberRow> {
    var entries := t.entries + [NewRow(t, e)];
    if e.IsGroup() && MembersResolve(entries, e.GetAttributes("member")) then
      MemberRows(t.nextId, MemberIds(entries, e.GetAttributes("member")))
    else []
  }

  /** The attributes of an entry with its stable id set. */
  function WithUuid(e: Entry, uuid: string): Entry {
    e.(attributes := e.attributes[ENTRY_UUID := [uuid]])
  }

  /** The answer CreateEntry gives, with its checks in their order. */
  function CreateOutcome(t: Tables, base: string, e: Entry): Outcome {
    if ValidateEntry(e) != Done then ValidateEntry(e)
    else if ValidatePlacement(t.entries, base, e) != Done then ValidatePlacement(t.entries, base, e)
    else if EntryExists(t.entries, e.dn) then Failed(EntryAlreadyExists)
    else if !HasRequiredAttributes(e) then Failed(ObjectClassViolation)
    else if e.IsGroup() && !MembersResolve(t.entries + [NewRow(t, e)], e.GetAttributes("member")) then
      Failed(ConstraintViolation)
    else Done
  }

  /** A create step: a failure leaves the tables alone, a success adds exactly one entry with its rows. */
  ghost predicate Created(before: Tables, base: string, e: Entry, uuid: string, after: Tables, outcome: Outcome) {
    outcome == CreateOutcome(before, base, e) &&
    if outcome != Done then after == before
    else
      var id := before.nextId;
      && after.nextId == id + 1
      && after.entries == before.entries + [NewRow(before, e)]
      && (exists added :: Appended(before.attributes, added, after.attributes) && HoldsAttributes(added, id, WithUuid(e, uuid).attributes))
      && after.members == before.members + NewMembers(before, e)
      && after.passwords == if e.IsUser() then before.passwords[id := e.GetAttribute("userPassword")] else before.passwords
  }

  function UpdateOutcome(t: Tables, e: Entry): Outcome {
    if ValidateEntry(e) != Done then ValidateEntry(e)
    else if !EntryExists(t.entries, e.dn) then Failed(NoSuchObject)
    else if e.IsGroup() && !MembersResolve(t.entries, e.GetAttributes("member")) then Failed(ConstraintViolation)
    else Done
  }

  /** The stable id an update writes: the stored one, or a fresh one when none is stored. */
  function KeptUuid(t: Tables, id: nat, uuid: string): string {
    var stored := RowValues(t.attributes, id, ENTRY_UUID);
    if stored == [] || stored[0] == "" then uuid else stored[0]
  }

  function Touch(entries: seq<EntryRow>, dn: string, time: Timestamp): (r: seq<EntryRow>)
    ensures |r| == |entries|
    ensures forall i :: 0 <= i < |entries| ==>
      r[i] == if EqualFold(entries[i].dn, dn) then entries[i].(updatedAt := time) else entries[i]
  {
    seq(|entries|, i requires 0 <= i < |entries| =>
      if EqualFold(entries[i].dn, dn) then entries[i].(updatedAt := time) else entries[i])
  }

  /** An update step: a failure leaves the tables alone, a success replaces exactly one entry's rows. */
  ghost predicate Updated(before: Tables, e: Entry, uuid: string, after: Tables, outcome: Outcome) {
    outcome == UpdateOutcome(before, e) &&
    if outcome != Done then after == before
    else
      var row := FindRow(before.entries, e.dn);
      var id := before.entries[row].id;
      && after.nextId == before.nextId
      && after.entries == Touch(before.entries, e.dn, e.updatedAt)
      && (exists added :: Appended(WithoutAttributes(before.attributes, id), added, after.attributes)
                          && HoldsAttributes(added, id, WithUuid(e, KeptUuid(before, id, uuid)).attributes))
      && after.members == (if e.IsGroup() then
            WithoutMembers(before.members, id) + MemberRows(id, MemberIds(before.entries, e.GetAttributes("member")))
          else before.members)
      && after.passwords == if e.IsUser() && e.GetAttribute("userPassword") != "" && id in before.passwords
          then before.passwords[id := e.GetAttribute("userPassword")] else before.passwords
  }

  /** SQLiteStore; the tables are its database. */
  class Store {
    const baseDn: string
    var tables: Tables

    constructor (baseDn: string)
      ensures this.baseDn == baseDn
      ensures tables == Tables([], [], [], map[], 1)
    {
      this.baseDn := baseDn;
      tables := Tables([], [], [], map[], 1);
    }

    method InsertValues(id: nat, name: string, values: seq<string>)
      modifies this`tables
      ensures tables == old(tables).(attributes := old(tables).attributes + ValueRows(id, name, values))
    {
      for i := 0 to |values|
        invariant tables == old(tables).(attributes := old(tables).attributes + ValueRows(id, name, values[..i]))
      {
        assert ValueRows(id, name, values[..i + 1]) == ValueRows(id, name, values[..i]) + [AttrRow(id, name, values[i])];
        tables := tables.(attributes := tables.attributes + [AttrRow(id, name, values[i])]);
      }
      assert values[..|values|] == values;
    }

    /** insertGenericAttributes; a Go map has no order of its own. */
    method InsertGenericAttributes(id: nat, attributes: Values) returns (ghost added: seq<AttrRow>)
      modifies this`tables
      ensures tables == old(tables).(attributes := old(tables).attributes + added)
      ensures HoldsAttributes(added, id, attributes)
    {
      hide IsGenericStored, RowValues;
      added := [];
      NoRows(id);
      var names := attributes.Keys;
      while names != {}
        invariant names <= attributes.Keys
        invariant tables == old(tables).(attributes := old(tables).attributes + added)
        invariant HoldsSome(added, id, attributes, names)
        decreases names
      {
        var name :| name in names;
        if IsGenericStored(name) {
          InsertValues(id, name, attributes[name]);
          HoldsMore(added, id, attributes, names, name);
          added := added + ValueRows(id, name, attributes[name]);
        }
        names := names - {name};
      }
    }

    /** resolveMemberEntryIDs: one query for all DNs, then a look-up for each. */
    method ResolveMemberIds(dns: seq<string>) returns (ok: bool, ids: seq<nat>)
      ensures ok <==> MembersResolve(tables.entries, dns)
      ensures ok ==> |ids| == |dns| && forall i :: 0 <= i < |dns| ==> ids[i] == ResolveMember(tables.entries, dns[i])
    {
      hide Lower;
      var idsByLowerDn: map<string, nat> := map[];
      for i := 0 to |tables.entries|
        invariant forall d :: d in dns ==>
          (if Lower(d) in idsByLowerDn then ResolveMember(tables.entries[..i], d) == idsByLowerDn[Lower(d)]
           else ResolveMember(tables.entries[..i], d) == -1)
      {
        var row := tables.entries[i];
        assert tables.entries[..i + 1][..i] == tables.entries[..i];
        if exists d :: d in dns && Lower(d) == Lower(row.dn) {
          idsByLowerDn := idsByLowerDn[Lower(row.dn) := row.id];
        }
      }
      assert tables.entries[..|tables.entries|] == tables.entries;
      ids := [];
      for i := 0 to |dns|
        invariant |ids| == i
        invariant forall j :: 0 <= j < i ==> ResolveMember(tables.entries, dns[j]) == ids[j]
      {
        assert dns[i] in dns;
        if Lower(dns[i]) !in idsByLowerDn {
          return false, ids;
        }
        ids := ids + [idsByLowerDn[Lower(dns[i])]];
      }
      ok := true;
    }

    /** syncGroupMembers */
    method SyncGroupMembers(group: nat, dns: seq<string>, replace: bool) returns (ok: bool)
      modifies this`tables
      ensures ok <==> MembersResolve(old(tables).entries, dns)
      ensures !ok ==> tables == old(tables)
      ensures ok ==> tables == old(tables).(members :=
        (if replace then WithoutMembers(old(tables).members, group) else old(tables).members)
        + MemberRows(group, MemberIds(old(tables).entries, dns)))
    {
      hide ResolveMember;
      if dns == [] {
        assert MemberRows(group, []) == [];
        if replace {
          tables := tables.(members := WithoutMembers(tables.members, group));
        }
        assert tables.members + [] == tables.members;
        return true;
      }
      var ids;
      ok, ids := ResolveMemberIds(dns);
      if !ok {
        return;
      }
      if replace {
        tables := tables.(members := WithoutMembers(tables.members, group));
      }
      ghost var kept, entries := tables.members, tables.entries;
      InsertMembers(group, dns, ids);
    }

    /** The insertion loop of syncGroupMembers, skipping ids it has seen. */
    method InsertMembers(group: nat, ghost dns: seq<string>, ids: seq<nat>)
      requires MembersResolve(tables.entries, dns)
      requires |ids| == |dns| && forall i :: 0 <= i < |dns| ==> ids[i] == ResolveMember(tables.entries, dns[i])
      modifies this`tables
      ensures tables == old(tables).(members := old(tables).members + MemberRows(group, MemberIds(old(tables).entries, dns)))
    {
      hide MemberIds, ResolveMember, MembersResolve, MemberRows;
      ghost var start := tables;
      var seen: set<nat> := {};
      ghost var sofar: seq<nat> := [];
      NoMemberIds(start.entries);
      NoMemberRows(group, start.members);
      assert dns[..0] == [];
      for i := 0 to |ids|
        invariant MembersResolve(start.entries, dns[..i]) && sofar == MemberIds(start.entries, dns[..i])
        invariant forall id :: id in seen <==> id in sofar
        invariant tables == start.(members := start.members + MemberRows(group, sofar))
      {
        MemberIdsExtend(start.entries, dns, i);
        if ids[i] in seen {
          continue;
        }
        seen := seen + {ids[i]};
        OneMoreMemberRow(group, start.members, sofar, ids[i]);
        sofar := sofar + [ids[i]];
        tables := tables.(members := tables.members + [MemberRow(group, ids[i])]);
      }
      assert dns[..|ids|] == dns;
    }

    /** The rows of the users, groups and group_members tables, with the checks made before each. */
    method InsertSpecialized(id: nat, e: Entry) returns (outcome: Outcome)
      modifies this`tables
      ensures outcome ==
        if !HasRequiredAttributes(e) then Failed(ObjectClassViolation)
        else if e.IsGroup() && !MembersResolve(old(tables).entries, e.GetAttributes("member")) then Failed(ConstraintViolation)
        else Done
      ensures outcome == Done ==> tables == old(tables).(
        passwords := if e.IsUser() then old(tables).passwords[id := e.GetAttribute("userPassword")] else old(tables).passwords,
        members := old(tables).members +
          if e.IsGroup() then MemberRows(id, MemberIds(old(tables).entries, e.GetAttributes("member"))) else [])
    {
      hide MembersResolve, MemberIds, Entry.GetAttribute, Entry.GetAttributes;
      outcome := Done;
      assert tables.members + [] == tables.members;
      if e.IsUser() {
        if !HasRequiredAttributes(e) {
          return Failed(ObjectClassViolation);
        }
        tables := tables.(passwords := tables.passwords[id := e.GetAttribute("userPassword")]);
      } else if e.IsGroup() {
        if !HasRequiredAttributes(e) {
          return Failed(ObjectClassViolation);
        }
        var ok := SyncGroupMembers(id, e.GetAttributes("member"), false);
        if !ok {
          return Failed(ConstraintViolation);
        }
      } else if e.IsOrganizationalUnit() {
        if !HasRequiredAttributes(e) {
          return Failed(ObjectClassViolation);
        }
      }
    }

    /** CreateEntry, with its transaction: every failure after the first insert rolls back. */
    method CreateEntry(e0: Entry, uuid: string) returns (outcome: Outcome)
      modifies this`tables
      ensures Created(old(tables), baseDn, e0, uuid, tables, outcome)
    {
      hide Equal, WithinBase, EqualFold, HoldsAttributes, HasRequiredAttributes, MembersResolve, MemberIds, EntryExists;
      hide Entry.GetAttribute, Entry.GetAttributes;
      outcome := ValidateEntry(e0);
      if outcome != Done {
        return;
      }
      var rollback := tables;
      outcome := ValidatePlacement(tables.entries, baseDn, e0);
      if outcome != Done {
        return;
      }
      if EntryExists(tables.entries, e0.dn) {
        return Failed(EntryAlreadyExists);
      }
      var e := WithUuid(e0, uuid);
      UuidKeepsAttributes(e0, uuid);
      var id := tables.nextId;
      tables := tables.(entries := tables.entries + [NewRow(tables, e)], nextId := id + 1);
      ghost var added := InsertGenericAttributes(id, e.attributes);
      assert Appended(rollback.attributes, added, tables.attributes);
      outcome := InsertSpecialized(id, e);
      if outcome != Done {
        tables := rollback;
      }
    }

    /** UpdateEntry, with its transaction. */
    method UpdateEntry(e0: Entry, uuid: string) returns (outcome: Outcome)
      modifies this`tables
      ensures Updated(old(tables), e0, uuid, tables, outcome)
    {
      hide EqualFold, HoldsAttributes, HasRequiredAttributes, MembersResolve, MemberIds, EntryExists;
      hide Entry.GetAttribute, Entry.GetAttributes, RowValues;
      outcome := ValidateEntry(e0);
      if outcome != Done {
        return;
      }
      var rollback := tables;
      var row := FindRow(tables.entries, e0.dn);
      tables := tables.(entries := Touch(tables.entries, e0.dn, e0.updatedAt));
      if row == -1 {
        TouchNothing(rollback.entries, e0.dn, e0.updatedAt);
        return Failed(NoSuchObject);
      }
      var id := tables.entries[row].id;
      var kept := KeptUuid(tables, id, uuid);
      var e := WithUuid(e0, kept);
      UuidKeepsAttributes(e0, kept);
      tables := tables.(attributes := WithoutAttributes(tables.attributes, id));
      ghost var added := InsertGenericAttributes(id, e.attributes);
      assert Appended(WithoutAttributes(rollback.attributes, id), added, tables.attributes);
      if e.IsUser() {
        var password := e.GetAttribute("userPassword");
        if password != "" && id in tables.passwords {
          tables := tables.(passwords := tables.passwords[id := password]);
        }
      }
      if e.IsGroup() {
        TouchKeepsMembers(rollback.entries, e0.dn, e0.updatedAt, e.GetAttributes("member"));
        var ok := SyncGroupMembers(id, e.GetAttributes("member"), true);
        if !ok {
          tables := rollback;
          return Failed(ConstraintViolation);
        }
      }
    }
  }

  // ---- Lemmas the steps need ----

  /** Setting the stable id touches no attribute a check reads. */
  lemma UuidKeepsAttributes(e: Entry, uuid: string)
    ensures forall name :: Lower(name) != ENTRY_UUID ==> WithUuid(e, uuid).GetAttributes(name) == e.GetAttributes(name)
    ensures HasRequiredAttributes(WithUuid(e, uuid)) == HasRequiredAttributes(e)
    ensures WithUuid(e, uuid).GetAttributes("member") == e.GetAttributes("member")
    ensures WithUuid(e, uuid).GetAttribute("userPassword") == e.GetAttribute("userPassword")
  {
    hide Lower;
    RequiredNames();
  }

  lemma RequiredNames()
    ensures Lower("uid") == "uid" && Lower("cn") == "cn" && Lower("sn") == "sn" && Lower("ou") == "ou"
    ensures Lower("member") == "member" && Lower("userPassword") == "userpassword"
  {
  }

  lemma NoMemberRows(group: nat, members: seq<MemberRow>)
    ensures members + MemberRows(group, []) == members
  {
  }

  lemma OneMoreMemberRow(group: nat, members: seq<MemberRow>, ids: seq<nat>, id: nat)
    ensures members + MemberRows(group, ids + [id]) == members + MemberRows(group, ids) + [MemberRow(group, id)]
  {
    assert MemberRows(group, ids + [id]) == MemberRows(group, ids) + [MemberRow(group, id)];
  }

  lemma NoMemberIds(entries: seq<EntryRow>)
    ensures MembersResolve(entries, []) && MemberIds(entries, []) == []
  {
  }

  lemma TouchNothing(entries: seq<EntryRow>, dn: string, time: Timestamp)
    requires !EntryExists(entries, dn)
    ensures Touch(entries, dn, time) == entries
  {
    forall i | 0 <= i < |entries| ensures Touch(entries, dn, time)[i] == entries[i] {
      assert entries[i] in entries;
    }
  }

  lemma {:induction false} TouchResolve(entries: seq<EntryRow>, dn: string, time: Timestamp, d: string)
    ensures ResolveMember(Touch(entries, dn, time), d) == ResolveMember(entries, d)
  {
    var touched := Touch(entries, dn, time);
    if entries != [] {
      var init := entries[..|entries| - 1];
      assert touched[..|entries| - 1] == Touch(init, dn, time);
      TouchResolve(init, dn, time, d);
    }
  }

  lemma {:induction false} TouchKeepsMembers(entries: seq<EntryRow>, dn: string, time: Timestamp, dns: seq<string>)
    ensures MembersResolve(Touch(entries, dn, time), dns) == MembersResolve(entries, dns)
    ensures MembersResolve(entries, dns) ==> MemberIds(Touch(entries, dn, time), dns) == MemberIds(entries, dns)
  {
    forall d | d in dns ensures EntryExists(Touch(entries, dn, time), d) == EntryExists(entries, d) {
      TouchResolve(entries, dn, time, d);
    }
    if dns != [] && MembersResolve(entries, dns) {
      var init := dns[..|dns| - 1];
      assert dns == init + [dns[|dns| - 1]];
      TouchKeepsMembers(entries, dn, time, init);
      TouchResolve(entries, dn, time, dns[|dns| - 1]);
    }
  }
}
