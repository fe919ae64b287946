/** What creations and updates leave in the attribute rows and among the passwords, name by name. */
module StoredValues {
  import opened Text
  import opened Tables
  import opened Directory
  import opened DirectoryInvariant
  import opened SearchScan
  import opened ImportResult

  /** Names whose values are kept in other tables, in lower case. */
  const KEPT_ELSEWHERE: set<string> := {"userpassword", "objectclass", "createtimestamp", "modifytimestamp", "memberof", "uuid"}

  lemma GenericMeans(name: string)
    ensures IsGenericStored(name) <==> Lower(name) !in KEPT_ELSEWHERE
  {
    hide Lower;
  }

  /** In no state of any run from the empty store is there an attribute row with such a name, in any case. */
  lemma RunStoresNothingManaged(states: seq<Tables>, base: string, steps: seq<Step>, i: nat, a: AttrRow)
    requires IsRun(states, base, steps) && states[0] == Tables([], [], [], map[], 1)
    requires i < |states| && a in states[i].attributes
    ensures Lower(a.name) !in {"userpassword", "objectclass", "createtimestamp", "modifytimestamp", "memberof", "uuid"}
  {
    hide Steps, IsGenericStored, Lower, IdsOrdered, DnsUnique, Placed, OneUuid, RowsGood;
    EmptyStoreInvariant(base);
    RunKeepsCore(states, base, steps, i);
    GenericMeans(a.name);
  }

  /** The rows an entry should have under a lower-case name. */
  function OwnValues(e: Entry, uuid: string, name: string): seq<string> {
    if name in KEPT_ELSEWHERE then []
    else if name == "entryuuid" then [uuid]
    else if name in e.attributes then e.attributes[name] else []
  }

  lemma OwnValuesAre(e: Entry, uuid: string, name: string)
    requires Lower(name) == name
    ensures OwnValues(e, uuid, name) == if IsGenericStored(name) then ValuesFor(WithUuid(e, uuid).attributes, name) else []
  {
    GenericMeans(name);
    hide Lower, IsGenericStored;
  }

  /** After a creation: exactly its values under every name, and of a user the password beside them. */
  lemma CreatedValues(before: Tables, base: string, e: Entry, uuid: string, after: Tables, name: string)
    requires Core(before, base) && Created(before, base, e, uuid, after, Done) && Lower(name) == name
    ensures RowValues(after.attributes, before.nextId, name) == OwnValues(e, uuid, name)
    ensures forall x :: x in before.entries ==> RowValues(after.attributes, x.id, name) == RowValues(before.attributes, x.id, name)
    ensures after.passwords == if e.objectClass == "inetOrgPerson" then before.passwords[before.nextId := e.GetAttribute("userPassword")]
      else before.passwords
  {
    hide IdsOrdered, AttributesClean, RowValues, IsGenericStored, HoldsAttributes, CreateOutcome, NewMembers, Lower, Entry.GetAttribute, Placed;
    hide OwnValues;
    CoreIds(before, base);
    CreateStores(before, base, e, uuid, after);
    OwnValuesAre(e, uuid, name);
  }

  /** After an update: its new values with the stable id of before, nothing changed under other ids, and the row kept. */
  lemma UpdatedValuesExact(before: Tables, base: string, e: Entry, uuid: string, after: Tables, row: EntryRow, name: string)
    requires Core(before, base) && Updated(before, e, uuid, after, Done) && Lower(name) == name
    requires row in before.entries && EqualFold(row.dn, e.dn)
    ensures name == "entryuuid" || RowValues(after.attributes, row.id, name) == OwnValues(e, uuid, name)
    ensures RowValues(after.attributes, row.id, "entryuuid") == RowValues(before.attributes, row.id, "entryuuid")
    ensures forall x :: x in before.entries && x != row ==> RowValues(after.attributes, x.id, name) == RowValues(before.attributes, x.id, name)
    ensures row.(updatedAt := e.updatedAt) in after.entries
    ensures after.passwords ==
      if e.objectClass == "inetOrgPerson" && e.GetAttribute("userPassword") != "" && row.id in before.passwords
      then before.passwords[row.id := e.GetAttribute("userPassword")] else before.passwords
  {
    hide RowValues, IsGenericStored, HoldsAttributes, Lower, Entry.GetAttribute, Placed, AttributesClean, OwnValues, UpdatedWith;
    hide KeptUuid, RowsGood, EqualFold, UpdateOutcome, IdsOrdered, DnsUnique, Updated, OneUuid, IsOneUuid;
    var id, added := UpdateUnfold(before, e, uuid, after);
    OnlyRowWithDn(before, e.dn, row);
    UpdatedColumns(before, e, uuid, after, row);
    UpdatedValues(before, e, uuid, after, id, added, id, name);
    UpdatedValues(before, e, uuid, after, id, added, id, "entryuuid");
    forall x | x in before.entries && x != row ensures RowValues(after.attributes, x.id, name) == RowValues(before.attributes, x.id, name) {
      if x.id == row.id {
        SameIdSameRow(before, x, row);
      }
      UpdatedValues(before, e, uuid, after, id, added, x.id, name);
    }
    var kept := KeptUuid(before, id, uuid);
    OwnValuesAre(e, kept, name);
    OwnValuesAre(e, kept, "entryuuid");
    UuidName();
    StableIdIsKept(before, row, uuid);
    OwnUuid(e, uuid, kept, name);
  }

  lemma UuidName()
    ensures Lower("entryuuid") == "entryuuid" && "entryuuid" !in KEPT_ELSEWHERE
  {
    assert "entryuuid"[0] == 'e' && "userpassword"[0] == 'u' && "objectclass"[0] == 'o' && "createtimestamp"[0] == 'c';
    assert "modifytimestamp"[0] == 'm' && "memberof"[0] == 'm' && "uuid"[0] == 'u';
  }

  lemma OwnUuid(e: Entry, uuid: string, kept: string, name: string)
    ensures "entryuuid" !in KEPT_ELSEWHERE ==> OwnValues(e, kept, "entryuuid") == [kept]
    ensures name == "entryuuid" || OwnValues(e, uuid, name) == OwnValues(e, kept, name)
  {
  }

  lemma StableIdIsKept(t: Tables, row: EntryRow, uuid: string)
    requires OneUuid(t) && row in t.entries
    ensures RowValues(t.attributes, row.id, "entryuuid") == [KeptUuid(t, row.id, uuid)]
  {
    hide RowValues;
    assert IsOneUuid(RowValues(t.attributes, row.id, ENTRY_UUID));
  }

  lemma OnlyRowWithDn(t: Tables, dn: string, row: EntryRow)
    requires DnsUnique(t) && row in t.entries && EqualFold(row.dn, dn)
    ensures EntryExists(t.entries, dn) && t.entries[FindRow(t.entries, dn)] == row
  {
    hide Lower;
    var i: int :| 0 <= i < |t.entries| && t.entries[i] == row;
  }

  lemma UpdatedColumns(before: Tables, e: Entry, uuid: string, after: Tables, row: EntryRow)
    requires Updated(before, e, uuid, after, Done) && EqualFold(row.dn, e.dn)
    requires EntryExists(before.entries, e.dn) && before.entries[FindRow(before.entries, e.dn)] == row
    ensures row.(updatedAt := e.updatedAt) in after.entries
    ensures after.passwords ==
      if e.objectClass == "inetOrgPerson" && e.GetAttribute("userPassword") != "" && row.id in before.passwords
      then before.passwords[row.id := e.GetAttribute("userPassword")] else before.passwords
  {
    hide EqualFold, HoldsAttributes, Entry.GetAttribute, Entry.GetAttributes, UpdateOutcome, KeptUuid;
    var i := FindRow(before.entries, e.dn);
    assert after.entries[i] == row.(updatedAt := e.updatedAt);
  }

  // ---- Passwords ----

  /** Users, and no other entries, have a password. */
  ghost predicate UsersHavePasswords(t: Tables) {
    && (forall e :: e in t.entries ==> (e.id in t.passwords <==> e.objectClass == "inetOrgPerson"))
    && forall id :: id in t.passwords ==> HasId(t.entries, id)
  }

  lemma CreationKeepsPasswords(before: Tables, base: string, e: Entry, uuid: string, after: Tables)
    requires IdsOrdered(before) && UsersHavePasswords(before) && Created(before, base, e, uuid, after, Done)
    ensures UsersHavePasswords(after)
  {
    hide HoldsAttributes, CreateOutcome, NewMembers, EqualFold, Entry.GetAttribute, Entry.GetAttributes;
    var row := NewRow(before, e);
    assert row in after.entries && forall x :: x in before.entries ==> x.id < before.nextId;
    forall id | id in after.passwords ensures HasId(after.entries, id) {
      if id != before.nextId {
        var x :| x in before.entries && x.id == id;
        assert x in after.entries;
      }
    }
  }

  lemma UpdateKeepsPasswords(before: Tables, e: Entry, uuid: string, after: Tables)
    requires UsersHavePasswords(before) && Updated(before, e, uuid, after, Done)
    ensures UsersHavePasswords(after)
  {
    hide Updated, EqualFold, Entry.GetAttribute, Touch;
    UpdateTouches(before, e, uuid, after);
    forall x | x in after.entries ensures x.id in after.passwords <==> x.objectClass == "inetOrgPerson" {
      var y := TouchIn(before.entries, e.dn, e.updatedAt, x);
    }
    forall id | id in after.passwords ensures HasId(after.entries, id) {
      var y :| y in before.entries && y.id == id;
      var x := InTouch(before.entries, e.dn, e.updatedAt, y);
    }
  }

  /** An update keeps the rows and the ids that have passwords. */
  lemma UpdateTouches(before: Tables, e: Entry, uuid: string, after: Tables)
    requires Updated(before, e, uuid, after, Done)
    ensures after.entries == Touch(before.entries, e.dn, e.updatedAt) && after.passwords.Keys == before.passwords.Keys
  {
    hide HoldsAttributes, EqualFold, Entry.GetAttribute, Entry.GetAttributes, UpdateOutcome, KeptUuid, MemberIds;
    var id, added := UpdateUnfold(before, e, uuid, after);
  }

  lemma StepKeepsPasswords(before: Tables, base: string, step: Step, after: Tables)
    requires Core(before, base) && UsersHavePasswords(before) && Steps(before, base, step, after)
    ensures UsersHavePasswords(after)
  {
    hide Placed, AttributesClean, OneUuid, DnsUnique, RowsGood, WellBuilt, Created, Updated, UsersHavePasswords, IdsOrdered;
    match step
    case CreateStep(e, uuid) =>
      var outcome :| Created(before, base, e, uuid, after, outcome);
      if outcome == Done {
        CreationKeepsPasswords(before, base, e, uuid, after);
      } else {
        FailedCreate(before, base, e, uuid, after, outcome);
      }
    case UpdateStep(e, uuid) =>
      var outcome :| Updated(before, e, uuid, after, outcome);
      if outcome == Done {
        UpdateKeepsPasswords(before, e, uuid, after);
      } else {
        FailedUpdate(before, e, uuid, after, outcome);
      }
  }

  /** In every state of every run from the empty store users, and no other entries, have a password. */
  lemma {:induction false} RunKeepsPasswords(states: seq<Tables>, base: string, steps: seq<Step>, i: nat)
    requires IsRun(states, base, steps) && states[0] == Tables([], [], [], map[], 1) && i < |states|
    ensures UsersHavePasswords(states[i])
  {
    hide Core, Steps, UsersHavePasswords;
    if i == 0 {
      assert UsersHavePasswords(Tables([], [], [], map[], 1)) by { NoUsers(); }
    } else {
      RunKeepsPasswords(states, base, steps, i - 1);
      assert Core(states[0], base) by { EmptyIsCore(base); }
      RunKeepsCore(states, base, steps, i - 1);
      StepKeepsPasswords(states[i - 1], base, steps[i - 1], states[i]);
    }
  }

  lemma NoUsers()
    ensures UsersHavePasswords(Tables([], [], [], map[], 1))
  {
  }

  lemma EmptyIsCore(base: string)
    ensures Core(Tables([], [], [], map[], 1), base)
  {
    EmptyStoreInvariant(base);
  }

  /** An entry without a stable id, which no run makes, is given a new one by its next update. */
  lemma MissingUuidAssigned(before: Tables, e: Entry, uuid: string, after: Tables, row: EntryRow)
    requires DnsUnique(before) && Updated(before, e, uuid, after, Done) && row in before.entries && EqualFold(row.dn, e.dn)
    requires RowValues(before.attributes, row.id, "entryuuid") == []
    ensures RowValues(after.attributes, row.id, "entryuuid") == [uuid]
  {
    hide RowValues, IsGenericStored, HoldsAttributes, Lower, Entry.GetAttribute, OwnValues, UpdatedWith, EqualFold, UpdateOutcome, Updated;
    hide DnsUnique;
    var id, added := UpdateUnfold(before, e, uuid, after);
    OnlyRowWithDn(before, e.dn, row);
    UpdatedValues(before, e, uuid, after, id, added, id, "entryuuid");
    UuidName();
    OwnValuesAre(e, uuid, "entryuuid");
    OwnUuid(e, uuid, uuid, "entryuuid");
  }
}
