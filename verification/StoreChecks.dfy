/** Exactly which entries are created or updated, and which error the others get. */
module StoreChecks {
  import opened Text
  import opened Dn
  import opened Tables
  import opened Directory
  import opened DirectoryInvariant

  /** The first value given under a name is not empty. */
  predicate Given(e: Entry, name: string) {
    name in e.attributes && e.attributes[name] != [] && e.attributes[name][0] != ""
  }

  /** What the class of an entry requires of its own values. */
  predicate HasItsAttributes(e: Entry) {
    && (e.objectClass == "inetOrgPerson" ==> Given(e, "uid") && Given(e, "cn") && Given(e, "sn"))
    && (e.objectClass == "groupOfNames" ==> Given(e, "cn") && "member" in e.attributes && e.attributes["member"] != [])
    && (e.objectClass == "organizationalUnit" ==> Given(e, "ou"))
  }

  /** Every member of a group is stored, or is the entry itself. */
  ghost predicate MembersAreThere(t: Tables, e: Entry, self: bool) {
    e.objectClass == "groupOfNames" && "member" in e.attributes ==>
      forall m :: m in e.attributes["member"] ==>
        (self && EqualFold(e.dn, m)) || exists row :: row in t.entries && EqualFold(row.dn, m)
  }

  ghost predicate IsStored(t: Tables, dn: string) {
    exists row :: row in t.entries && EqualFold(row.dn, dn)
  }

  /** The entry is the base entry and has no parent, or stands below it and its parent is stored. */
  ghost predicate HasItsPlace(t: Tables, base: string, e: Entry) {
    if Equal(e.dn, base) then e.parentDn == "" else e.parentDn != "" && IsStored(t, e.parentDn)
  }

  lemma TrimmedBase(base: string)
    ensures TrimSpace(TrimSpace(base)) == TrimSpace(base)
    ensures forall dn :: Equal(dn, TrimSpace(base)) == Equal(dn, base) && WithinBase(dn, TrimSpace(base)) == WithinBase(dn, base)
  {
    hide TrimSpace, Lower;
  }

  lemma OwnNames()
    ensures Lower("uid") == "uid" && Lower("cn") == "cn" && Lower("sn") == "sn" && Lower("ou") == "ou" && Lower("member") == "member"
    ensures "uid" != "memberof" && "cn" != "memberof" && "sn" != "memberof" && "ou" != "memberof" && "member" != "memberof"
  {
    RequiredNames();
    assert |"memberof"| == 8 && |"uid"| == 3 && |"cn"| == 2 && |"sn"| == 2 && |"ou"| == 2 && |"member"| == 6;
  }

  lemma OwnValuesOnly(e: Entry, name: string)
    requires e.computed.Keys <= {"memberof"} && name != "memberof" && Lower(name) == name
    ensures e.GetAttributes(name) == if name in e.attributes then e.attributes[name] else []
    ensures e.GetAttribute(name) != "" <==> Given(e, name)
  {
    assert ValuesFor(e.attributes, name) + [] == ValuesFor(e.attributes, name);
  }

  lemma RequiredExact(e: Entry)
    requires e.computed.Keys <= {"memberof"}
    ensures HasRequiredAttributes(e) <==> HasItsAttributes(e)
  {
    hide Entry.GetAttribute, Entry.GetAttributes, Lower, Given;
    OwnNames();
    OwnValuesOnly(e, "uid");
    OwnValuesOnly(e, "cn");
    OwnValuesOnly(e, "sn");
    OwnValuesOnly(e, "ou");
    OwnValuesOnly(e, "member");
  }

  lemma MembersExact(t: Tables, e: Entry)
    requires e.computed.Keys <= {"memberof"}
    ensures e.IsGroup() && !MembersResolve(t.entries + [NewRow(t, e)], e.GetAttributes("member")) <==> !MembersAreThere(t, e, true)
    ensures e.IsGroup() && !MembersResolve(t.entries, e.GetAttributes("member")) <==> !MembersAreThere(t, e, false)
  {
    hide Entry.GetAttributes, Lower;
    OwnNames();
    OwnValuesOnly(e, "member");
    var all, row := t.entries + [NewRow(t, e)], NewRow(t, e);
    assert row in all && row.dn == e.dn;
    forall m ensures EntryExists(all, m) <==> EqualFold(e.dn, m) || EntryExists(t.entries, m) {
      if x :| x in t.entries && EqualFold(x.dn, m) {
        assert x in all;
      }
    }
  }

  /**
   An entry is created if and only if it has a DN and a class, a base is set and contains it, it has its place, is new,
   and has what its class requires. Otherwise these conditions, in this order, decide the error.
   */
  lemma CreationExact(t: Tables, base: string, e: Entry)
    requires e.computed.Keys <= {"memberof"}
    ensures CreateOutcome(t, base, e) ==
      if e.dn == "" then Failed(InvalidEntry)
      else if e.objectClass == "" then Failed(ObjectClassViolation)
      else if TrimSpace(base) == "" then Failed(BaseNotConfigured)
      else if !WithinBase(e.dn, base) then Failed(ConstraintViolation)
      else if !HasItsPlace(t, base, e) then (if Equal(e.dn, base) then Failed(BaseHasParent) else Failed(NoSuchObject))
      else if IsStored(t, e.dn) then Failed(EntryAlreadyExists)
      else if !HasItsAttributes(e) then Failed(ObjectClassViolation)
      else if !MembersAreThere(t, e, true) then Failed(ConstraintViolation)
      else Done
  {
    hide TrimSpace, Equal, WithinBase, EqualFold, Entry.GetAttributes, MembersResolve, HasRequiredAttributes, HasItsAttributes;
    hide MembersAreThere, Lower;
    TrimmedBase(base);
    RequiredExact(e);
    MembersExact(t, e);
  }

  /** An update needs a DN, a class, the stored entry and its members; it checks no required attributes. */
  lemma UpdateExact(t: Tables, e: Entry)
    requires e.computed.Keys <= {"memberof"}
    ensures UpdateOutcome(t, e) ==
      if e.dn == "" then Failed(InvalidEntry)
      else if e.objectClass == "" then Failed(ObjectClassViolation)
      else if !IsStored(t, e.dn) then Failed(NoSuchObject)
      else if !MembersAreThere(t, e, false) then Failed(ConstraintViolation)
      else Done
  {
    hide EqualFold, Entry.GetAttributes, MembersResolve, MembersAreThere, Lower;
    MembersExact(t, e);
  }
}
