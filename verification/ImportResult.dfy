/** What an import leaves in the store: the old entries plus exactly the batch, and the invariant. */
module ImportResult {
  import opened Text
  import opened Dn
  import opened Tables
  import opened Directory
  import opened DirectoryInvariant
  import opened SqlMeaning
  import opened Records
  import opened ImportOrder
  import opened ImportPlan
  import opened ImportApply
  import opened ImportFit

  // ---- What a finished import leaves in the store ----

  /** The row and the attribute values of an imported entry. */
  ghost predicate Stored(t: Tables, row: EntryRow, e: Entry, uuid: string) {
    && row.dn == e.dn && row.parentDn == e.parentDn && row.objectClass == e.objectClass
    && row.createdAt == e.createdAt && row.updatedAt == e.updatedAt
    && forall name :: RowValues(t.attributes, row.id, name) ==
        if !IsGenericStored(name) then [] else if name == ENTRY_UUID then [uuid] else ValuesFor(e.attributes, name)
  }

  /** The old entries as they were, then one for each planned entry. */
  ghost predicate OldPlusBatch(t0: Tables, plan: seq<Entry>, uuids: seq<string>, after: Tables)
    requires |plan| == |uuids|
  {
    && |after.entries| == |t0.entries| + |plan| && after.entries[..|t0.entries|] == t0.entries
    && (forall row, name :: row in t0.entries ==>
        RowValues(after.attributes, row.id, name) == RowValues(t0.attributes, row.id, name))
    && forall i :: 0 <= i < |plan| ==> Stored(after, after.entries[|t0.entries| + i], plan[i], uuids[i])
  }

  /** A creation writes its own entry and leaves the values of all others alone. */
  lemma CreateStores(before: Tables, base: string, e: Entry, uuid: string, after: Tables)
    requires IdsOrdered(before) && AttributesClean(before) && Created(before, base, e, uuid, after, Done)
    ensures after.entries == before.entries + [NewRow(before, e)]
    ensures Stored(after, NewRow(before, e), e, uuid)
    ensures forall row, name :: row in before.entries ==>
      RowValues(after.attributes, row.id, name) == RowValues(before.attributes, row.id, name)
  {
    hide IdsOrdered, AttributesClean, RowValues, IsGenericStored, HoldsAttributes, CreateOutcome, NewMembers;
    StoredNames();
    FreshId(before);
    var id, attributes := before.nextId, WithUuid(e, uuid).attributes;
    var added :| Appended(before.attributes, added, after.attributes) && HoldsAttributes(added, id, attributes);
    forall name ensures RowValues(after.attributes, id, name) ==
        if !IsGenericStored(name) then [] else if name == ENTRY_UUID then [uuid] else ValuesFor(e.attributes, name)
    {
      OwnValuesWritten(before.attributes, added, id, name, attributes);
    }
    forall row, name | row in before.entries
      ensures RowValues(after.attributes, row.id, name) == RowValues(before.attributes, row.id, name)
    {
      OtherValuesKept(before.attributes, added, id, row.id, name, attributes);
    }
  }

  lemma BatchGrows(t0: Tables, plan: seq<Entry>, uuids: seq<string>, i: nat, mid: Tables, base: string, after: Tables)
    requires |plan| == |uuids| && i < |plan| && OldPlusBatch(t0, plan[..i], uuids[..i], mid)
    requires IdsOrdered(mid) && AttributesClean(mid) && Created(mid, base, plan[i], uuids[i], after, Done)
    ensures OldPlusBatch(t0, plan[..i + 1], uuids[..i + 1], after)
  {
    hide IdsOrdered, AttributesClean, RowValues, IsGenericStored, Created, ValuesFor;
    CreateStores(mid, base, plan[i], uuids[i], after);
    var n := |t0.entries|;
    assert after.entries[..n] == mid.entries[..n];
    forall row | row in t0.entries ensures row in mid.entries {
      assert row in mid.entries[..n];
    }
    forall k | 0 <= k < i + 1 ensures Stored(after, after.entries[n + k], plan[k], uuids[k]) {
      if k < i {
        assert Stored(mid, mid.entries[n + k], plan[..i][k], uuids[..i][k]);
        assert mid.entries[n + k] in mid.entries;
      }
    }
  }

  /** An import without overwriting leaves the old entries plus exactly the batch. */
  lemma {:induction false} ImportAddsBatch(t0: Tables, base: string, plan: seq<Entry>, uuids: seq<string>, i: nat, after: Tables)
    requires |plan| == |uuids| && i <= |plan| && Core(t0, base)
    requires forall k :: 0 <= k < |plan| ==> WellBuilt(plan[k], base) && uuids[k] != ""
    requires Applied(t0, base, false, plan[..i], uuids[..i], after)
    ensures OldPlusBatch(t0, plan[..i], uuids[..i], after) && Core(after, base)
    decreases i
  {
    hide Core, WellBuilt, Created, Stored, RowValues;
    if i == 0 {
      assert after == t0 && after.entries[..|t0.entries|] == t0.entries;
    } else {
      assert plan[..i][..i - 1] == plan[..i - 1] && uuids[..i][..i - 1] == uuids[..i - 1];
      var mid :| Applied(t0, base, false, plan[..i - 1], uuids[..i - 1], mid)
        && Written(mid, base, false, plan[i - 1], uuids[i - 1], after, Done);
      ImportAddsBatch(t0, base, plan, uuids, i - 1, mid);
      CreateKeepsCore(mid, base, plan[i - 1], uuids[i - 1], after, Done);
      CoreIds(mid, base);
      BatchGrows(t0, plan, uuids, i - 1, mid, base, after);
    }
  }

  lemma CoreIds(t: Tables, base: string)
    requires Core(t, base)
    ensures IdsOrdered(t) && AttributesClean(t)
  {
    hide IdsOrdered, AttributesClean, DnsUnique, Placed, OneUuid, RowsGood;
  }

  // ---- The invariant ----

  /** Entries of the old store keep their classes. */
  ghost predicate SameClasses(before: Tables, after: Tables) {
    forall d :: EntryExists(before.entries, d) ==> EntryExists(after.entries, d) && ClassAt(after, d) == ClassAt(before, d)
  }

  function ClassAt(t: Tables, dn: string): string
    requires EntryExists(t.entries, dn)
  {
    t.entries[FindRow(t.entries, dn)].objectClass
  }

  lemma {:induction false} FindTouched(entries: seq<EntryRow>, dn: string, time: Timestamp, d: string)
    ensures FindRow(Touch(entries, dn, time), d) == FindRow(entries, d)
  {
    hide EqualFold;
    if entries != [] {
      assert Touch(entries, dn, time)[1..] == Touch(entries[1..], dn, time);
      FindTouched(entries[1..], dn, time, d);
    }
  }

  lemma {:induction false} FindAppended(entries: seq<EntryRow>, row: EntryRow, d: string)
    requires EntryExists(entries, d)
    ensures FindRow(entries + [row], d) == FindRow(entries, d)
  {
    hide EqualFold;
    assert entries == [entries[0]] + entries[1..];
    if !EqualFold(entries[0].dn, d) {
      assert (entries + [row])[1..] == entries[1..] + [row];
      FindAppended(entries[1..], row, d);
    }
  }

  lemma WrittenKeepsClasses(before: Tables, base: string, overwrite: bool, e: Entry, uuid: string, after: Tables)
    requires Written(before, base, overwrite, e, uuid, after, Done)
    ensures SameClasses(before, after)
  {
    hide HoldsAttributes, UpdateOutcome, CreateOutcome, EqualFold, MemberIds, KeptUuid, NewMembers, EntryExists, Entry.GetAttributes, Entry.GetAttribute;
    forall d | EntryExists(before.entries, d)
      ensures EntryExists(after.entries, d) && ClassAt(after, d) == ClassAt(before, d)
    {
      WrittenExists(before, base, overwrite, e, uuid, after, d);
      if IsUpdate(before, e, overwrite) {
        FindTouched(before.entries, e.dn, e.updatedAt, d);
      } else {
        FindAppended(before.entries, NewRow(before, e), d);
      }
    }
  }

  /** The entry is new, or has the class it is stored with. */
  ghost predicate ClassKept(t: Tables, e: Entry) {
    EntryExists(t.entries, e.dn) ==> ClassAt(t, e.dn) == e.objectClass
  }

  /** Every part of an import, overwriting or not, keeps the store's invariant. */
  lemma {:induction false} ImportKeepsInvariant(t0: Tables, base: string, overwrite: bool, plan: seq<Entry>, uuids: seq<string>, i: nat,
                                                after: Tables)
    requires |plan| == |uuids| && i <= |plan| && Invariant(t0, base)
    requires forall k :: 0 <= k < |plan| ==> WellBuilt(plan[k], base) && uuids[k] != "" && ClassKept(t0, plan[k])
    requires forall j, k :: 0 <= j < k < |plan| ==> !EqualFold(plan[j].dn, plan[k].dn)
    requires Applied(t0, base, overwrite, plan[..i], uuids[..i], after)
    ensures Invariant(after, base) && SameClasses(t0, after)
    decreases i
  {
    hide Invariant, WellBuilt, Created, Updated, ClassAt, EntryExists, EqualFold;
    if i > 0 {
      assert plan[..i][..i - 1] == plan[..i - 1] && uuids[..i][..i - 1] == uuids[..i - 1];
      var mid :| Applied(t0, base, overwrite, plan[..i - 1], uuids[..i - 1], mid)
        && Written(mid, base, overwrite, plan[i - 1], uuids[i - 1], after, Done);
      ImportKeepsInvariant(t0, base, overwrite, plan, uuids, i - 1, mid);
      WrittenKeepsClasses(mid, base, overwrite, plan[i - 1], uuids[i - 1], after);
      AppliedExists(t0, base, overwrite, plan, uuids, i - 1, mid, plan[i - 1].dn);
      WriteKeepsInvariant(mid, base, overwrite, plan[i - 1], uuids[i - 1], after);
    }
  }

  lemma WriteKeepsInvariant(before: Tables, base: string, overwrite: bool, e: Entry, uuid: string, after: Tables)
    requires Written(before, base, overwrite, e, uuid, after, Done) && Invariant(before, base)
    requires WellBuilt(e, base) && uuid != "" && ClassKept(before, e)
    ensures Invariant(after, base)
  {
    hide Invariant, WellBuilt, Created, Updated, EntryExists, UpdateSafe;
    if IsUpdate(before, e, overwrite) {
      SameClassIsSafe(before, e);
      UpdateKeepsInvariant(before, base, e, uuid, after, Done);
    } else {
      CreateKeepsInvariant(before, base, e, uuid, after, Done);
    }
  }

  // ---- Planned entries are well built ----

  lemma {:induction false} PlainNames(attributes: seq<Attribute>)
    requires forall a :: a in attributes ==> a.name != ""
    ensures forall n :: n in PlainAttributes(attributes) ==> n != "" && Lower(n) == n
  {
    hide Lower, IsPlain;
    if attributes != [] {
      var init, last := attributes[..|attributes| - 1], attributes[|attributes| - 1];
      assert attributes == init + [last];
      PlainNames(init);
      LowerIdempotent(last.name);
      assert |Lower(last.name)| == |last.name|;
    }
  }

  lemma PasswordName()
    ensures Lower("userpassword") == "userpassword"
  {
  }

  lemma BuiltIsWellBuilt(r: Record, base: string, options: ImportPlan.Options)
    requires EntryOf(r, base, options).Built? && IsTimestamp(options.now)
    requires forall a :: a in r.attributes ==> a.name != ""
    ensures WellBuilt(EntryOf(r, base, options).entry, options.base)
  {
    hide PlainAttributes, ClassFrom, IsProtected, WithinBase, Equal, HasRequiredAttributes, UserPassword, Lower, IsTimestamp, Parent;
    PasswordName();
    PlainNames(r.attributes);
  }

  // ---- The whole import ----

  /** What the program hands in with the records: a real time, fresh ids, and names, which the parser never leaves empty. */
  ghost predicate Prepared(records: seq<Record>, options: ImportPlan.Options, uuids: seq<string>) {
    && IsTimestamp(options.now) && (forall u :: u in uuids ==> u != "")
    && forall r :: r in records ==> forall a :: a in r.attributes ==> a.name != ""
  }

  lemma PlannedEntry(t: Tables, records: seq<Record>, options: ImportPlan.Options, plan: seq<Entry>, uuids: seq<string>, i: nat)
    requires BatchAccepted(t, records, options) && Prepared(records, options, uuids) && i < |plan|
    requires multiset(plan) == multiset(Entries(records, TrimSpace(options.base), options))
    ensures WellBuilt(plan[i], options.base) && ClassKept(t, plan[i])
  {
    hide EntryOf, EntryExists, TrimSpace, WellBuilt, IsTimestamp, ParentKnown, MembersKnown, DistinctRecords, RecordKeys;
    var base := TrimSpace(options.base);
    var r := FromRecord(records, base, options, plan, i);
    BuiltIsWellBuilt(r, base, options);
    assert EntryAccepted(t, RecordKeys(records), base, plan[i], options.overwrite);
  }

  /**
   Planning and then applying. A plan is carried out without any failure if and only if the batch fits the store; the
   store then holds the old entries plus exactly the batch (or its new values, when overwriting), and keeps its
   invariant in any case.
   */
  method ImportRecords(store: Store, records: seq<Record>, options: ImportPlan.Options, uuids: seq<string>)
      returns (plan: Plan, outcome: Outcome)
    requires |uuids| == |records| && options.base == store.baseDn
    modifies store`tables
    ensures plan.Rejected? ==> store.tables == old(store.tables)
    ensures plan.Plan? ==> BatchAccepted(old(store.tables), records, options)
    ensures plan.Plan? ==> IsOrder(Entries(records, TrimSpace(options.base), options), RecordKeys(records), plan.entries)
    ensures plan.Plan? ==> (outcome == Done <==> Fits(old(store.tables), records, TrimSpace(options.base), options))
    ensures plan.Plan? ==> |plan.entries| == |uuids|
    ensures plan.Plan? && outcome == Done ==>
      Applied(old(store.tables), options.base, options.overwrite, plan.entries, uuids, store.tables)
    ensures Invariant(old(store.tables), options.base) && Prepared(records, options, uuids) ==> Invariant(store.tables, options.base)
    ensures plan.Plan? && outcome == Done && !options.overwrite && Core(old(store.tables), options.base) ==>
      (Prepared(records, options, uuids) ==> OldPlusBatch(old(store.tables), plan.entries, uuids, store.tables))
  {
    hide Applied, BatchAccepted, IsOrder, Fits, PlanReady, Invariant, Core, OldPlusBatch, EntryOf, TrimSpace, WellBuilt, Prepared;
    hide ClassKept, AllBuilt;
    ghost var t0 := store.tables;
    outcome := Done;
    plan := PlanImport(store.tables, records, options);
    if plan.Rejected? {
      return;
    }
    ghost var base := TrimSpace(options.base);
    AcceptedFacts(t0, records, options, plan.entries);
    var n;
    if Fits(t0, records, base, options) {
      FittingPlanReady(t0, records, options, plan.entries);
    }
    outcome, n := ApplyImport(store, plan.entries, options.overwrite, uuids);
    assert plan.entries[..|plan.entries|] == plan.entries && uuids[..|plan.entries|] == uuids;
    if outcome == Done {
      AppliedFits(t0, records, options, plan.entries, uuids, store.tables);
    }
    if Prepared(records, options, uuids) {
      forall k | 0 <= k < |plan.entries| ensures WellBuilt(plan.entries[k], options.base) && ClassKept(t0, plan.entries[k]) && uuids[k] != "" {
        PlannedEntry(t0, records, options, plan.entries, uuids, k);
        SomeUuid(records, options, uuids, k);
      }
      if Invariant(t0, options.base) {
        ImportKeepsInvariant(t0, options.base, options.overwrite, plan.entries, uuids, n, store.tables);
      }
      if outcome == Done && !options.overwrite && Core(t0, options.base) {
        ImportAddsBatch(t0, options.base, plan.entries, uuids, n, store.tables);
      }
    }
  }

  lemma SomeUuid(records: seq<Record>, options: ImportPlan.Options, uuids: seq<string>, k: nat)
    requires Prepared(records, options, uuids) && k < |uuids|
    ensures uuids[k] != ""
  {
    hide IsTimestamp;
    assert uuids[k] in uuids;
  }

  lemma AcceptedFacts(t: Tables, records: seq<Record>, options: ImportPlan.Options, plan: seq<Entry>)
    requires BatchAccepted(t, records, options)
    requires IsOrder(Entries(records, TrimSpace(options.base), options), RecordKeys(records), plan)
    ensures AllBuilt(records, TrimSpace(options.base), options) && |plan| == |records|
    ensures multiset(plan) == multiset(Entries(records, TrimSpace(options.base), options))
    ensures forall j, k :: 0 <= j < k < |plan| ==> !EqualFold(plan[j].dn, plan[k].dn)
  {
    hide EntryOf, TrimSpace, EntryAccepted, EachReady, EqualFold, DistinctRecords;
    var entries := Entries(records, TrimSpace(options.base), options);
    PlanDistinct(records, TrimSpace(options.base), options, plan);
    assert |multiset(plan)| == |plan| && |multiset(entries)| == |entries|;
  }
}
