/** Exactly which records an import builds entries for, and the passwords it stores. */
module ImportPasswords {
  import opened Text
  import opened Dn
  import opened Tables
  import opened Directory
  import opened DirectoryInvariant
  import opened SearchScan
  import opened Records
  import opened ImportOrder
  import opened ImportPlan
  import opened ImportApply
  import opened ImportFit
  import opened ImportResult
  import opened StoreChecks
  import opened StoredValues

  // ---- Which records are built ----

  /** What one objectClass value says. */
  lemma StructuralExact(value: string)
    ensures Structural(value) ==
      if Equal(value, "inetOrgPerson") then "inetOrgPerson"
      else if Equal(value, "groupOfNames") then "groupOfNames"
      else if Equal(value, "organizationalUnit") then "organizationalUnit" else ""
    ensures IsTop(value) <==> Equal(value, "top")
  {
    ClassNames();
    hide TrimSpace, Lower;
  }

  lemma ClassNames()
    ensures TrimSpace("inetOrgPerson") == "inetOrgPerson" && Lower("inetOrgPerson") == "inetorgperson"
    ensures TrimSpace("groupOfNames") == "groupOfNames" && Lower("groupOfNames") == "groupofnames"
    ensures TrimSpace("organizationalUnit") == "organizationalUnit" && Lower("organizationalUnit") == "organizationalunit"
    ensures TrimSpace("top") == "top" && Lower("top") == "top"
    ensures "inetorgperson" != "groupofnames" && "inetorgperson" != "organizationalunit" && "groupofnames" != "organizationalunit"
  {
    hide Lower, TrimSpace;
    assert |"inetorgperson"| == 13 && |"groupofnames"| == 12 && |"organizationalunit"| == 18;
    UserClassName();
    GroupClassName();
    UnitClassName();
  }

  lemma UserClassName()
    ensures TrimSpace("inetOrgPerson") == "inetOrgPerson" && Lower("inetOrgPerson") == "inetorgperson"
  {
    hide TrimLeft, TrimRight;
    assert Trimmed("inetOrgPerson");
  }

  lemma GroupClassName()
    ensures TrimSpace("groupOfNames") == "groupOfNames" && Lower("groupOfNames") == "groupofnames"
  {
    hide TrimLeft, TrimRight;
    assert Trimmed("groupOfNames");
  }

  lemma UnitClassName()
    ensures TrimSpace("organizationalUnit") == "organizationalUnit" && Lower("organizationalUnit") == "organizationalunit"
    ensures TrimSpace("top") == "top" && Lower("top") == "top"
  {
    hide TrimLeft, TrimRight;
    assert Trimmed("organizationalUnit") && Trimmed("top");
  }

  /** The one class a record names: every other objectClass value is `top`. On the base entry `top` alone will do. */
  ghost predicate NamesClass(r: Record, base: string, name: string) {
    var values := ValuesOf(r.attributes, "objectClass");
    if name == "top" then Equal(r.dn, base) && values != [] && forall v :: v in values ==> Equal(v, "top")
    else name in {"inetOrgPerson", "groupOfNames", "organizationalUnit"} && exists i :: OnlyClassAt(values, name, i)
  }

  predicate OnlyClassAt(values: seq<string>, name: string, i: int) {
    0 <= i < |values| && Equal(values[i], name) && forall j :: 0 <= j < |values| && j != i ==> Equal(values[j], "top")
  }

  lemma {:induction false} CountIsZero(values: seq<string>)
    ensures StructuralCount(values) == 0 <==> forall v :: v in values ==> Structural(v) == ""
  {
    hide Structural;
    if values != [] {
      CountIsZero(values[1..]);
      assert values == [values[0]] + values[1..];
    }
  }

  lemma {:induction false} CountIsOne(values: seq<string>, i: nat)
    requires i < |values| && Structural(values[i]) != ""
    ensures StructuralCount(values) == 1 <==> forall j :: 0 <= j < |values| && j != i ==> Structural(values[j]) == ""
  {
    hide Structural;
    var rest := values[1..];
    assert values == [values[0]] + rest;
    CountIsZero(rest);
    if i > 0 {
      CountIsOne(rest, i - 1);
      if forall j :: 0 <= j < |values| && j != i ==> Structural(values[j]) == "" {
        assert forall j :: 0 <= j < |rest| && j != i - 1 ==> Structural(rest[j]) == Structural(values[j + 1]) == "";
      }
      if StructuralCount(values) == 1 {
        assert rest[i - 1] == values[i] && values[i] in rest;
        assert forall j :: 1 <= j < |values| && j != i ==> Structural(values[j]) == Structural(rest[j - 1]);
      }
    } else if forall j :: 0 <= j < |values| && j != i ==> Structural(values[j]) == "" {
      forall v | v in rest ensures Structural(v) == "" {
        var j: int :| 0 <= j < |rest| && rest[j] == v;
        assert values[j + 1] == v;
      }
    }
  }

  lemma OneClassNames(r: Record, base: string, name: string)
    requires var values := ValuesOf(r.attributes, "objectClass"); HasOneClass(values, Equal(r.dn, base))
    requires ClassFrom(ValuesOf(r.attributes, "objectClass"), "", Equal(r.dn, base)) == Class(name)
    ensures NamesClass(r, base, name)
  {
    hide Structural, IsTop, Equal, ClassFrom, ValuesOf, StructuralCount;
    var values := ValuesOf(r.attributes, "objectClass");
    PrimaryClassExact(values, Equal(r.dn, base));
    forall v { StructuralExact(v); }
    CountIsZero(values);
    if StructuralCount(values) == 1 {
      var v :| v in values && Structural(v) == name;
      var i: int :| 0 <= i < |values| && values[i] == v;
      CountIsOne(values, i);
      assert OnlyClassAt(values, name, i);
    }
  }

  lemma NamedIsOneClass(r: Record, base: string, name: string)
    requires NamesClass(r, base, name)
    ensures ClassFrom(ValuesOf(r.attributes, "objectClass"), "", Equal(r.dn, base)) == Class(name)
  {
    hide Structural, IsTop, Equal, ClassFrom, ValuesOf, StructuralCount;
    var values := ValuesOf(r.attributes, "objectClass");
    PrimaryClassExact(values, Equal(r.dn, base));
    forall v { StructuralExact(v); }
    forall v | Equal(v, "top") ensures Structural(v) == "" { TopIsNotStructural(v); }
    CountIsZero(values);
    if name != "top" {
      var i :| OnlyClassAt(values, name, i);
      FoldedClass(values[i], name);
      CountIsOne(values, i);
      var c := ClassFrom(values, "", Equal(r.dn, base)).name;
      var v :| v in values && Structural(v) == c;
      var j: int :| 0 <= j < |values| && values[j] == v;
    }
  }

  lemma FoldedClass(value: string, name: string)
    requires name in {"inetOrgPerson", "groupOfNames", "organizationalUnit"} && Equal(value, name)
    ensures Structural(value) == name
  {
    ClassNames();
    hide TrimSpace, Lower;
  }

  /** The password given once, or one generated if none is given and that is allowed, with its hash. */
  predicate HasPassword(r: Record, options: ImportPlan.Options, stored: string) {
    var given := ValuesOf(r.attributes, "userPassword");
    if given == [] then options.allowGenerated && options.hash(options.generate(r.dn)) == Hashed(stored)
    else |given| == 1 && options.hash(given[0]) == Hashed(stored)
  }

  /** Attributes a record may not set, in any case. */
  predicate SetsServerAttribute(r: Record) {
    exists a :: a in r.attributes &&
      Lower(a.name) in {"entryuuid", "uuid", "createtimestamp", "modifytimestamp", "memberof"}
  }

  /** The first value given under a name is not empty. */
  predicate RecordGives(r: Record, name: string) {
    var values := ValuesOf(r.attributes, name);
    values != [] && values[0] != ""
  }

  /** The record has what its class requires: a user one password, the others none. */
  ghost predicate SuitsClass(r: Record, options: ImportPlan.Options, name: string) {
    if name == "inetOrgPerson" then
      RecordGives(r, "uid") && RecordGives(r, "cn") && RecordGives(r, "sn") && exists p :: HasPassword(r, options, p)
    else
      && ValuesOf(r.attributes, "userPassword") == []
      && (name == "groupOfNames" ==> RecordGives(r, "cn") && ValuesOf(r.attributes, "member") != [])
      && (name == "organizationalUnit" ==> RecordGives(r, "ou"))
  }

  lemma PlainNames()
    ensures IsPlain("uid") && IsPlain("cn") && IsPlain("sn") && IsPlain("ou") && IsPlain("member")
  {
    OwnNames();
    assert |Lower("objectClass")| == 11 && |Lower("userPassword")| == 12;
    hide Lower;
  }

  /** A value under a plain name is there, first, in the built entry and in the record. */
  lemma GivenInRecord(r: Record, e: Entry, name: string)
    requires IsPlain(name) && Lower(name) == name && name != "memberof" && name != "userpassword" && e.computed == map[]
    requires ValuesFor(e.attributes, name) == ValuesFor(PlainAttributes(r.attributes), name)
    ensures e.GetAttributes(name) == ValuesOf(r.attributes, name)
    ensures e.GetAttribute(name) != "" <==> RecordGives(r, name)
  {
    hide PlainAttributes, IsPlain, Lower;
    PlainValues(r.attributes, name);
    OnlyAttributes(e, name);
  }

  lemma RequiredOfRecord(r: Record, e: Entry)
    requires e.computed == map[]
    requires forall name :: name != "userpassword" ==> ValuesFor(e.attributes, name) == ValuesFor(PlainAttributes(r.attributes), name)
    ensures HasRequiredAttributes(e) <==>
      && (e.IsUser() ==> RecordGives(r, "uid") && RecordGives(r, "cn") && RecordGives(r, "sn"))
      && (e.IsGroup() ==> RecordGives(r, "cn") && ValuesOf(r.attributes, "member") != [])
      && (e.IsOrganizationalUnit() ==> RecordGives(r, "ou"))
  {
    hide PlainAttributes, IsPlain, Lower, RecordGives, ValuesOf, Entry.GetAttribute, Entry.GetAttributes, ValuesFor;
    OwnNames();
    PlainNames();
    assert |"userpassword"| == 12;
    GivenInRecord(r, e, "uid");
    GivenInRecord(r, e, "cn");
    GivenInRecord(r, e, "sn");
    GivenInRecord(r, e, "ou");
    GivenInRecord(r, e, "member");
  }

  lemma ServerAttributes(r: Record)
    ensures (exists a :: a in r.attributes && IsProtected(a.name)) <==> SetsServerAttribute(r)
  {
    hide Lower;
  }

  lemma NotWithinNothing(dn: string, base: string)
    requires WithinBase(dn, base)
    ensures dn != ""
  {
    hide TrimSpace, FirstUnescaped;
    var b := TrimSpace(base);
    assert |Lower(b)| == |b|;
    assert TrimSpace("") == "" && Parent("") == "";
  }

  lemma PasswordExact(r: Record, options: ImportPlan.Options, p: string)
    ensures UserPassword(r.dn, ValuesOf(r.attributes, "userPassword"), options) == Hashed(p) <==> HasPassword(r, options, p)
  {
    hide ValuesOf;
  }

  /**
   A record is built if and only if it is within the base, sets no server attribute, names one class, and has what that
   class requires, for a user with a password that can be hashed.
   */
  lemma BuiltExact(r: Record, base: string, options: ImportPlan.Options)
    ensures EntryOf(r, base, options).Built? <==>
      WithinBase(r.dn, base) && !SetsServerAttribute(r) && exists name :: NamesClass(r, base, name) && SuitsClass(r, options, name)
  {
    hide PlainAttributes, ClassFrom, IsProtected, WithinBase, Equal, HasRequiredAttributes, UserPassword, ValuesOf, NamesClass, SuitsClass;
    hide SetsServerAttribute, HasOneClass;
    ServerAttributes(r);
    var given := ClassFrom(ValuesOf(r.attributes, "objectClass"), "", Equal(r.dn, base));
    PrimaryClassExact(ValuesOf(r.attributes, "objectClass"), Equal(r.dn, base));
    forall name | NamesClass(r, base, name) ensures given == Class(name) {
      NamedIsOneClass(r, base, name);
    }
    if given.Class? && WithinBase(r.dn, base) && !SetsServerAttribute(r) {
      OneClassNames(r, base, given.name);
      BuiltOfClass(r, base, options, given.name);
    }
  }

  lemma BuiltOfClass(r: Record, base: string, options: ImportPlan.Options, name: string)
    requires WithinBase(r.dn, base) && !exists a :: a in r.attributes && IsProtected(a.name)
    requires ClassFrom(ValuesOf(r.attributes, "objectClass"), "", Equal(r.dn, base)) == Class(name) && name != ""
    ensures EntryOf(r, base, options).Built? <==> SuitsClass(r, options, name)
  {
    hide PlainAttributes, ClassFrom, IsProtected, WithinBase, Equal, HasRequiredAttributes, UserPassword, ValuesOf, RecordGives;
    NotWithinNothing(r.dn, base);
    var plain := BareRecordEntry(r.dn, name, PlainAttributes(r.attributes), options.now);
    var password := UserPassword(r.dn, ValuesOf(r.attributes, "userPassword"), options);
    forall p { PasswordExact(r, options, p); }
    RequiredOfRecord(r, plain);
    if plain.IsUser() && password.Hashed? {
      RequiredOfRecord(r, plain.(attributes := plain.attributes["userpassword" := [password.hash]]));
    }
    DifferentClasses();
  }

  lemma DifferentClasses()
    ensures INET_ORG_PERSON != GROUP_OF_NAMES && INET_ORG_PERSON != ORGANIZATIONAL_UNIT && GROUP_OF_NAMES != ORGANIZATIONAL_UNIT
  {
    assert |INET_ORG_PERSON| == 13 && |GROUP_OF_NAMES| == 12 && |ORGANIZATIONAL_UNIT| == 18;
  }

  /** What is built: the record's columns, its class, the time of the import, and of a user the one password, hashed. */
  lemma BuiltMeans(r: Record, base: string, options: ImportPlan.Options)
    requires EntryOf(r, base, options).Built?
    ensures var e := EntryOf(r, base, options).entry;
      && e.dn == r.dn && e.parentDn == Parent(r.dn) && NamesClass(r, base, e.objectClass)
      && e.createdAt == options.now && e.updatedAt == options.now && e.computed == map[]
      && if e.objectClass == "inetOrgPerson"
         then HasPassword(r, options, e.GetAttribute("userPassword")) && e.GetAttributes("userPassword") == [e.GetAttribute("userPassword")]
         else ValuesOf(r.attributes, "userPassword") == [] && e.GetAttributes("userPassword") == []
  {
    hide PlainAttributes, ClassFrom, IsProtected, WithinBase, Equal, HasRequiredAttributes, UserPassword, ValuesOf, NamesClass, Parent;
    hide Lower, HasOneClass, HasPassword;
    var e := EntryOf(r, base, options).entry;
    PrimaryClassExact(ValuesOf(r.attributes, "objectClass"), Equal(r.dn, base));
    OneClassNames(r, base, e.objectClass);
    PasswordName();
    assert Lower("userPassword") == "userpassword" by { PasswordFolds(); }
    OnlyAttributes(e, "userpassword");
    NoPlainPassword(r.attributes);
    if e.IsUser() {
      PasswordExact(r, options, e.attributes["userpassword"][0]);
    }
  }

  lemma PasswordFolds()
    ensures Lower("userPassword") == "userpassword"
  {
  }

  lemma {:induction false} NoPlainPassword(attributes: seq<Attribute>)
    ensures "userpassword" !in PlainAttributes(attributes)
  {
    hide Lower;
    if attributes != [] {
      NoPlainPassword(attributes[..|attributes| - 1]);
      PasswordFolds();
    }
  }

  // ---- What an import stores ----

  /** The stored entry with this DN has this password. */
  ghost predicate HoldsPassword(t: Tables, dn: string, p: string) {
    exists row :: row in t.entries && EqualFold(row.dn, dn) && row.id in t.passwords && t.passwords[row.id] == p
  }

  lemma WriteStoresPassword(before: Tables, base: string, overwrite: bool, e: Entry, uuid: string, after: Tables)
    requires Core(before, base) && UsersHavePasswords(before) && Written(before, base, overwrite, e, uuid, after, Done)
    requires e.objectClass == "inetOrgPerson" && ClassKept(before, e)
    ensures e.GetAttribute("userPassword") != "" || !EntryExists(before.entries, e.dn) ==>
      HoldsPassword(after, e.dn, e.GetAttribute("userPassword"))
  {
    hide Core, Lower, Entry.GetAttribute, Created, Updated, EntryExists;
    if IsUpdate(before, e, overwrite) {
      var row := before.entries[FindRow(before.entries, e.dn)];
      assert row in before.entries && row.objectClass == e.objectClass;
      UpdatedColumns(before, e, uuid, after, row);
      assert EqualFold(row.(updatedAt := e.updatedAt).dn, e.dn);
    } else {
      CreatedPassword(before, base, e, uuid, after);
      assert NewRow(before, e) in after.entries && EqualFold(NewRow(before, e).dn, e.dn);
    }
  }

  lemma CreatedPassword(before: Tables, base: string, e: Entry, uuid: string, after: Tables)
    requires Created(before, base, e, uuid, after, Done)
    ensures after.entries == before.entries + [NewRow(before, e)]
    ensures after.passwords == if e.objectClass == "inetOrgPerson" then before.passwords[before.nextId := e.GetAttribute("userPassword")]
      else before.passwords
  {
    hide HoldsAttributes, CreateOutcome, Entry.GetAttribute;
  }

  lemma WriteKeepsPassword(before: Tables, base: string, overwrite: bool, e: Entry, uuid: string, after: Tables, dn: string, p: string)
    requires Core(before, base) && Written(before, base, overwrite, e, uuid, after, Done)
    requires HoldsPassword(before, dn, p) && !EqualFold(e.dn, dn)
    ensures HoldsPassword(after, dn, p)
  {
    hide Core, Lower, Entry.GetAttribute, Created, Updated, EntryExists;
    CoreIds(before, base);
    var row :| row in before.entries && EqualFold(row.dn, dn) && row.id in before.passwords && before.passwords[row.id] == p;
    if IsUpdate(before, e, overwrite) {
      var x := before.entries[FindRow(before.entries, e.dn)];
      assert x in before.entries;
      UpdatedColumns(before, e, uuid, after, x);
      if x.id == row.id {
        SameIdSameRow(before, x, row);
      }
      assert row in after.entries by { UntouchedStays(before, e, uuid, after, row); }
    } else {
      CreatedPassword(before, base, e, uuid, after);
      FreshId(before);
      assert row in after.entries;
    }
  }

  lemma UntouchedStays(before: Tables, e: Entry, uuid: string, after: Tables, row: EntryRow)
    requires Updated(before, e, uuid, after, Done) && row in before.entries && !EqualFold(row.dn, e.dn)
    ensures row in after.entries
  {
    hide EqualFold, HoldsAttributes, Entry.GetAttribute, Entry.GetAttributes, UpdateOutcome, KeptUuid;
    var i: int :| 0 <= i < |before.entries| && before.entries[i] == row;
    assert after.entries[i] == row;
  }

  lemma WriteKeepsUsers(before: Tables, base: string, overwrite: bool, e: Entry, uuid: string, after: Tables)
    requires Core(before, base) && UsersHavePasswords(before) && Written(before, base, overwrite, e, uuid, after, Done)
    requires WellBuilt(e, base) && uuid != ""
    ensures UsersHavePasswords(after)
  {
    hide Core, UsersHavePasswords, WellBuilt, Created, Updated;
    var step := if IsUpdate(before, e, overwrite) then UpdateStep(e, uuid) else CreateStep(e, uuid);
    assert Steps(before, base, step, after);
    StepKeepsPasswords(before, base, step, after);
  }

  /** In a finished import every user of the plan has its planned password, unless it is empty and would overwrite one. */
  lemma {:induction false} PlanPasswordsStored(t0: Tables, base: string, overwrite: bool, plan: seq<Entry>, uuids: seq<string>, i: nat,
                                               after: Tables)
    requires |plan| == |uuids| && i <= |plan| && Invariant(t0, base) && UsersHavePasswords(t0)
    requires forall k :: 0 <= k < |plan| ==> WellBuilt(plan[k], base) && uuids[k] != "" && ClassKept(t0, plan[k])
    requires forall j, k :: 0 <= j < k < |plan| ==> !EqualFold(plan[j].dn, plan[k].dn)
    requires Applied(t0, base, overwrite, plan[..i], uuids[..i], after)
    ensures UsersHavePasswords(after)
    ensures forall k :: 0 <= k < i && plan[k].objectClass == "inetOrgPerson" ==>
      var p := plan[k].GetAttribute("userPassword");
      (p != "" || !EntryExists(t0.entries, plan[k].dn) ==> HoldsPassword(after, plan[k].dn, p))
    decreases i
  {
    hide Invariant, Core, WellBuilt, Written, HoldsPassword, UsersHavePasswords, EntryExists, EqualFold, Entry.GetAttribute, ClassAt;
    if i > 0 {
      assert plan[..i][..i - 1] == plan[..i - 1] && uuids[..i][..i - 1] == uuids[..i - 1];
      var e, uuid := plan[i - 1], uuids[i - 1];
      var mid :| Applied(t0, base, overwrite, plan[..i - 1], uuids[..i - 1], mid) && Written(mid, base, overwrite, e, uuid, after, Done);
      PlanPasswordsStored(t0, base, overwrite, plan, uuids, i - 1, mid);
      ImportKeepsInvariant(t0, base, overwrite, plan, uuids, i - 1, mid);
      assert Core(mid, base) by { InvariantIsCore(mid, base); }
      AppliedExists(t0, base, overwrite, plan, uuids, i - 1, mid, e.dn);
      WriteKeepsUsers(mid, base, overwrite, e, uuid, after);
      if e.objectClass == "inetOrgPerson" {
        WriteStoresPassword(mid, base, overwrite, e, uuid, after);
      }
      forall k | 0 <= k < i - 1 && HoldsPassword(mid, plan[k].dn, plan[k].GetAttribute("userPassword"))
        ensures HoldsPassword(after, plan[k].dn, plan[k].GetAttribute("userPassword"))
      {
        FoldBothWays(plan[k].dn, e.dn);
        WriteKeepsPassword(mid, base, overwrite, e, uuid, after, plan[k].dn, plan[k].GetAttribute("userPassword"));
      }
    }
  }

  lemma FoldBothWays(a: string, b: string)
    ensures EqualFold(a, b) == EqualFold(b, a)
  {
  }

  lemma InvariantIsCore(t: Tables, base: string)
    requires Invariant(t, base)
    ensures Core(t, base)
  {
    hide Core, MembersMatch;
  }

  ghost predicate IsStoredAfter(t0: Tables, after: Tables, dn: string, p: string) {
    p != "" || !EntryExists(t0.entries, dn) ==> HoldsPassword(after, dn, p)
  }

  /**
   After an import every record of a user has its password stored: the one it gives, or the one generated for it, hashed.
   Only an empty hash does not replace a password that was there before.
   */
  lemma ImportedPasswords(t0: Tables, records: seq<Record>, options: ImportPlan.Options, plan: seq<Entry>, uuids: seq<string>,
                          after: Tables, r: Record)
    requires BatchAccepted(t0, records, options) && Prepared(records, options, uuids) && |plan| == |uuids| && r in records
    requires IsOrder(Entries(records, TrimSpace(options.base), options), RecordKeys(records), plan)
    requires Invariant(t0, options.base) && UsersHavePasswords(t0)
    requires Applied(t0, options.base, options.overwrite, plan, uuids, after)
    ensures if NamesClass(r, TrimSpace(options.base), "inetOrgPerson")
      then exists p :: HasPassword(r, options, p) && IsStoredAfter(t0, after, r.dn, p)
      else ValuesOf(r.attributes, "userPassword") == []
  {
    hide EntryOf, TrimSpace, EntryAccepted, EachReady, DistinctRecords, Applied, Invariant, UsersHavePasswords, HoldsPassword, HasPassword;
    hide NamesClass, WellBuilt, ClassKept, EntryExists, EqualFold, Prepared, Entry.GetAttribute, ValuesOf, RecordKeys;
    var base := TrimSpace(options.base);
    AcceptedFacts(t0, records, options, plan);
    forall k | 0 <= k < |plan| ensures WellBuilt(plan[k], options.base) && ClassKept(t0, plan[k]) && uuids[k] != "" {
      PlannedEntry(t0, records, options, plan, uuids, k);
      SomeUuid(records, options, uuids, k);
    }
    assert plan[..|plan|] == plan && uuids[..|plan|] == uuids;
    PlanPasswordsStored(t0, options.base, options.overwrite, plan, uuids, |plan|, after);
    var i := ToPlan(records, base, options, plan, r);
    BuiltMeans(r, base, options);
    OneNamedClass(r, base, plan[i].objectClass);
  }

  /** A record names at most one class. */
  lemma OneNamedClass(r: Record, base: string, name: string)
    requires NamesClass(r, base, name)
    ensures forall other :: NamesClass(r, base, other) ==> other == name
  {
    hide NamesClass, ClassFrom, ValuesOf, Equal;
    NamedIsOneClass(r, base, name);
    forall other | NamesClass(r, base, other) ensures other == name {
      NamedIsOneClass(r, base, other);
    }
  }
}
