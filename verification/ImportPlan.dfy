/** Planning an LDIF import: which batches are accepted, and in what order. */
module ImportPlan {
  import opened Text
  import opened Dn
  import opened Tables
  import opened Directory
  import opened Records
  import opened ImportOrder

  datatype Hashed = Hashed(hash: string) | Unhashable

  /** Time, hashing and password generation are given from outside. */
  datatype Options = Options(base: string, overwrite: bool, allowGenerated: bool,
                             hash: string -> Hashed, generate: string -> string, now: Timestamp)

  // ---- The object class ----

  datatype ClassResult = BadClass | Class(name: string)

  function Structural(value: string): string {
    var v := Lower(TrimSpace(value));
    if v == "organizationalunit" then ORGANIZATIONAL_UNIT
    else if v == "inetorgperson" then INET_ORG_PERSON
    else if v == "groupofnames" then GROUP_OF_NAMES
    else ""
  }

  predicate IsTop(value: string) {
    Lower(TrimSpace(value)) == TOP
  }

  /** One more objectClass value on top of the class found so far. */
  function NextClass(primary: string, value: string, isBase: bool): ClassResult {
    if IsTop(value) then Class(if isBase && primary == "" then TOP else primary)
    else if Structural(value) == "" || (primary != "" && primary != TOP) then BadClass
    else Class(Structural(value))
  }

  function ClassFrom(values: seq<string>, primary: string, isBase: bool): ClassResult {
    if values == [] then (if primary == "" || (primary == TOP && !isBase) then BadClass else Class(primary))
    else match NextClass(primary, values[0], isBase)
      case BadClass => BadClass
      case Class(next) => ClassFrom(values[1..], next, isBase)
  }

  /** primaryObjectClass */
  method PrimaryObjectClass(values: seq<string>, isBase: bool) returns (r: ClassResult)
    ensures r == ClassFrom(values, "", isBase)
  {
    if values == [] {
      return BadClass;
    }
    var primary := "";
    for i := 0 to |values|
      invariant ClassFrom(values, "", isBase) == ClassFrom(values[i..], primary, isBase)
    {
      assert values[i..][1..] == values[i + 1..];
      var next := NextClass(primary, values[i], isBase);
      if next == BadClass {
        return BadClass;
      }
      primary := next.name;
    }
    r := if primary == "" || (primary == TOP && !isBase) then BadClass else Class(primary);
  }

  function StructuralCount(values: seq<string>): nat {
    if values == [] then 0 else (if Structural(values[0]) != "" then 1 else 0) + StructuralCount(values[1..])
  }

  /** Every value is known, and there is exactly one structural one, or none on a base entry that is `top`. */
  predicate HasOneClass(values: seq<string>, isBase: bool) {
    && (forall v :: v in values ==> IsTop(v) || Structural(v) != "")
    && (StructuralCount(values) == 1 || (StructuralCount(values) == 0 && isBase && values != []))
  }

  lemma TopIsNotStructural(value: string)
    requires IsTop(value)
    ensures Structural(value) == ""
  {
    assert TOP[0] == 't' && "organizationalunit"[0] == 'o' && "inetorgperson"[0] == 'i' && "groupofnames"[0] == 'g';
  }

  lemma StructuralIsReal(value: string)
    ensures Structural(value) != TOP
  {
    assert TOP[0] == 't' && ORGANIZATIONAL_UNIT[0] == 'o' && INET_ORG_PERSON[0] == 'i' && GROUP_OF_NAMES[0] == 'g';
  }

  /** What is still allowed once `primary` has been found. */
  lemma {:induction false} ClassFromExact(values: seq<string>, primary: string, isBase: bool)
    requires primary == TOP ==> isBase
    ensures ClassFrom(values, primary, isBase).Class? <==>
      && (forall v :: v in values ==> IsTop(v) || Structural(v) != "")
      && (if primary == "" then StructuralCount(values) == 1 || (StructuralCount(values) == 0 && isBase && values != [])
          else if primary == TOP then StructuralCount(values) <= 1 else StructuralCount(values) == 0)
    ensures ClassFrom(values, primary, isBase).Class? ==>
      var c := ClassFrom(values, primary, isBase).name;
      && c != "" && (StructuralCount(values) == 0 ==> c == if primary == "" then TOP else primary)
      && (StructuralCount(values) == 1 ==> exists v :: v in values && Structural(v) == c != "")
  {
    hide Structural, IsTop;
    if values != [] {
      var value, rest := values[0], values[1..];
      assert values == [value] + rest;
      if IsTop(value) {
        TopIsNotStructural(value);
      }
      StructuralIsReal(value);
      match NextClass(primary, value, isBase)
      case BadClass =>
      case Class(next) =>
        ClassFromExact(rest, next, isBase);
        assert forall v :: v in rest ==> v in values;
    }
  }

  /** A record is given a class if and only if its objectClass values name exactly one; then it is that one. */
  lemma PrimaryClassExact(values: seq<string>, isBase: bool)
    ensures ClassFrom(values, "", isBase).Class? <==> HasOneClass(values, isBase)
    ensures HasOneClass(values, isBase) ==>
      var c := ClassFrom(values, "", isBase).name;
      c != "" && if StructuralCount(values) == 1 then exists v :: v in values && Structural(v) == c else c == TOP
  {
    hide Structural, IsTop;
    ClassFromExact(values, "", isBase);
  }

  // ---- Building an entry ----

  predicate IsProtected(name: string) {
    Lower(name) == "entryuuid" || Lower(name) == "uuid" || Lower(name) == "createtimestamp"
    || Lower(name) == "modifytimestamp" || Lower(name) == "memberof"
  }

  predicate IsPlain(name: string) {
    !EqualFold(name, "objectClass") && !EqualFold(name, "userPassword")
  }

  /** The attribute map of a record, without its object classes and passwords. */
  function PlainAttributes(attributes: seq<Attribute>): Values {
    if attributes == [] then map[]
    else
      var m, last := PlainAttributes(attributes[..|attributes| - 1]), attributes[|attributes| - 1];
      if IsPlain(last.name) then AddValue(m, Lower(last.name), last.value) else m
  }

  datatype Built = Refused | Built(entry: Entry)

  /** The stored password of a user: given once, or generated when none is given and that is allowed. */
  function UserPassword(dn: string, passwords: seq<string>, options: Options): Hashed {
    if |passwords| > 1 || (passwords == [] && !options.allowGenerated) then Unhashable
    else options.hash(if passwords == [] then options.generate(dn) else passwords[0])
  }

  function BareRecordEntry(dn: string, objectClass: string, attributes: Values, now: Timestamp): Entry {
    Entry(0, dn, Parent(dn), objectClass, attributes, map[], now, now)
  }

  /** What entryFromRecord builds, or refuses. */
  function EntryOf(r: Record, base: string, options: Options): Built {
    var given := ClassFrom(ValuesOf(r.attributes, "objectClass"), "", Equal(r.dn, base));
    var passwords := ValuesOf(r.attributes, "userPassword");
    if !WithinBase(r.dn, base) || given.BadClass? || (exists a :: a in r.attributes && IsProtected(a.name)) then Refused
    else
      var plain := BareRecordEntry(r.dn, given.name, PlainAttributes(r.attributes), options.now);
      var password := UserPassword(r.dn, passwords, options);
      if plain.IsUser() && password.Unhashable? then Refused
      else if !plain.IsUser() && passwords != [] then Refused
      else
        var e := if plain.IsUser() then plain.(attributes := plain.attributes["userpassword" := [password.hash]]) else plain;
        if ValidateEntry(e) == Done && HasRequiredAttributes(e) then Built(e) else Refused
  }

  /** entryFromRecord */
  method EntryFromRecord(r: Record, base: string, options: Options) returns (built: Built)
    ensures built == EntryOf(r, base, options)
  {
    hide PlainAttributes, HasRequiredAttributes, WithinBase, Equal, ClassFrom, IsProtected, IsPlain, AddValue, UserPassword;
    if !WithinBase(r.dn, base) {
      return Refused;
    }
    var given := PrimaryObjectClass(ValuesOf(r.attributes, "objectClass"), Equal(r.dn, base));
    if given.BadClass? || exists a :: a in r.attributes && IsProtected(a.name) {
      return Refused;
    }
    var entry := BareRecordEntry(r.dn, given.name, map[], options.now);
    assert PlainAttributes([]) == map[] by { NoPlainAttributes(); }
    for i := 0 to |r.attributes|
      invariant entry == BareRecordEntry(r.dn, given.name, PlainAttributes(r.attributes[..i]), options.now)
    {
      PlainAttributesExtend(r.attributes, i);
      if !IsPlain(r.attributes[i].name) {
        continue;
      }
      entry := entry.(attributes := AddValue(entry.attributes, Lower(r.attributes[i].name), r.attributes[i].value));
    }
    assert r.attributes[..|r.attributes|] == r.attributes;
    var passwords := ValuesOf(r.attributes, "userPassword");
    if entry.IsUser() {
      var password := UserPassword(r.dn, passwords, options);
      if password.Unhashable? {
        return Refused;
      }
      entry := entry.(attributes := entry.attributes["userpassword" := [password.hash]]);
    } else if passwords != [] {
      return Refused;
    }
    if ValidateEntry(entry) != Done || !HasRequiredAttributes(entry) {
      return Refused;
    }
    return Built(entry);
  }

  lemma NoPlainAttributes()
    ensures PlainAttributes([]) == map[]
  {
  }

  lemma PlainAttributesExtend(attributes: seq<Attribute>, i: nat)
    requires i < |attributes|
    ensures PlainAttributes(attributes[..i + 1]) ==
      var m := PlainAttributes(attributes[..i]);
      if IsPlain(attributes[i].name) then AddValue(m, Lower(attributes[i].name), attributes[i].value) else m
  {
    assert attributes[..i + 1][..i] == attributes[..i];
  }

  // ---- Checking the batch against the store ----

  function RecordKeys(records: seq<Record>): set<string> {
    set r | r in records :: DnKey(r.dn)
  }

  ghost predicate DistinctRecords(records: seq<Record>) {
    && (forall r :: r in records ==> DnKey(r.dn) != "")
    && forall i, j :: 0 <= i < j < |records| ==> DnKey(records[i].dn) != DnKey(records[j].dn)
  }

  /** validateExistingEntry */
  predicate ExistingAllowed(t: Tables, e: Entry, overwrite: bool) {
    EntryExists(t.entries, e.dn) ==> overwrite && t.entries[FindRow(t.entries, e.dn)].objectClass == e.objectClass
  }

  /** In the batch, or in the store. */
  predicate Known(t: Tables, batch: set<string>, dn: string) {
    DnKey(dn) in batch || EntryExists(t.entries, dn)
  }

  /** validateParent */
  predicate ParentKnown(t: Tables, batch: set<string>, base: string, e: Entry) {
    Equal(e.dn, base) || (TrimSpace(e.parentDn) != "" && Known(t, batch, TrimSpace(e.parentDn)))
  }

  /** validateGroupMembers */
  predicate MembersKnown(t: Tables, batch: set<string>, e: Entry) {
    e.IsGroup() ==> forall m :: m in e.GetAttributes("member") ==> Known(t, batch, m)
  }

  predicate EntryAccepted(t: Tables, batch: set<string>, base: string, e: Entry, overwrite: bool) {
    ExistingAllowed(t, e, overwrite) && ParentKnown(t, batch, base, e) && MembersKnown(t, batch, e)
  }

  ghost predicate AllBuilt(records: seq<Record>, base: string, options: Options) {
    forall r :: r in records ==> EntryOf(r, base, options).Built?
  }

  function Entries(records: seq<Record>, base: string, options: Options): (entries: seq<Entry>)
    requires forall r :: r in records ==> EntryOf(r, base, options).Built?
    ensures |entries| == |records| && forall i :: 0 <= i < |records| ==> entries[i] == EntryOf(records[i], base, options).entry
  {
    seq(|records|, i requires 0 <= i < |records| => EntryOf(records[i], base, options).entry)
  }

  datatype Plan = Rejected | Plan(entries: seq<Entry>)

  /** The batches a plan is made for, apart from their order. */
  ghost predicate BatchAccepted(t: Tables, records: seq<Record>, options: Options) {
    var base := TrimSpace(options.base);
    && base != "" && DistinctRecords(records) && AllBuilt(records, base, options)
    && forall e :: e in Entries(records, base, options) ==>
        EntryAccepted(t, RecordKeys(records), base, e, options.overwrite)
  }

  /**
   PlanImport: a plan is made if and only if the records are distinct, can be built, fit the store and have an order;
   the plan is then such an order. The store is not touched.
   */
  method PlanImport(t: Tables, records: seq<Record>, options: Options) returns (plan: Plan)
    ensures plan.Plan? ==> BatchAccepted(t, records, options)
    ensures plan.Plan? ==> IsOrder(Entries(records, TrimSpace(options.base), options), RecordKeys(records), plan.entries)
    ensures plan.Rejected? && BatchAccepted(t, records, options) ==>
      forall p :: !IsOrder(Entries(records, TrimSpace(options.base), options), RecordKeys(records), p)
  {
    hide EntryOf, EntryAccepted, DnKey, TrimSpace, IsOrder;
    var base := TrimSpace(options.base);
    if base == "" {
      return Rejected;
    }
    var batch: set<string> := {};
    for i := 0 to |records|
      invariant forall k :: k in batch <==> exists j :: 0 <= j < i && DnKey(records[j].dn) == k
      invariant forall j :: 0 <= j < i ==> DnKey(records[j].dn) != ""
      invariant forall j, k :: 0 <= j < k < i ==> DnKey(records[j].dn) != DnKey(records[k].dn)
    {
      var key := DnKey(records[i].dn);
      if key == "" || key in batch {
        return Rejected;
      }
      batch := batch + {key};
    }
    assert batch == RecordKeys(records);
    var entries: seq<Entry> := [];
    for i := 0 to |records|
      invariant |entries| == i && forall j :: 0 <= j < i ==> EntryOf(records[j], base, options) == Built(entries[j])
    {
      var built := EntryFromRecord(records[i], base, options);
      if built.Refused? {
        return Rejected;
      }
      entries := entries + [built.entry];
    }
    assert entries == Entries(records, base, options);
    for i := 0 to |entries|
      invariant forall j :: 0 <= j < i ==> EntryAccepted(t, batch, base, entries[j], options.overwrite)
    {
      if !EntryAccepted(t, batch, base, entries[i], options.overwrite) {
        return Rejected;
      }
    }
    var ordered := OrderEntries(entries, batch);
    match ordered
    case Cyclic => return Rejected;
    case Ordered(p) => return Plan(p);
  }
}
