/** Exactly which accepted batches are carried out. */
module ImportFit {
  import opened Text
  import opened Dn
  import opened Tables
  import opened Directory
  import opened DirectoryInvariant
  import opened Records
  import opened ImportOrder
  import opened ImportPlan
  import opened ImportApply

  // ---- An accepted plan is ready ----

  /** What entryFromRecord guarantees of the entry it builds. */
  lemma BuiltFacts(r: Record, base: string, options: ImportPlan.Options)
    requires EntryOf(r, base, options).Built?
    ensures var e := EntryOf(r, base, options).entry;
      && e.dn == r.dn && e.parentDn == Parent(r.dn) && ValidateEntry(e) == Done && HasRequiredAttributes(e)
      && WithinBase(r.dn, base) && e.computed == map[]
      && (forall name :: name != "userpassword" ==> ValuesFor(e.attributes, name) == ValuesFor(PlainAttributes(r.attributes), name))
  {
    hide PlainAttributes, ClassFrom, IsProtected, WithinBase, Equal, HasRequiredAttributes, UserPassword;
  }

  /** The attributes of an entry are those of its record, in record order. */
  lemma {:induction false} PlainValues(attributes: seq<Attribute>, name: string)
    requires IsPlain(name)
    ensures ValuesFor(PlainAttributes(attributes), Lower(name)) == ValuesOf(attributes, name)
  {
    hide IsPlain, Lower;
    if attributes != [] {
      var init, last := attributes[..|attributes| - 1], attributes[|attributes| - 1];
      PlainValues(init, name);
      PlainFold(name, last.name);
    }
  }

  lemma PlainFold(a: string, b: string)
    requires IsPlain(a)
    ensures EqualFold(a, b) ==> IsPlain(b)
  {
  }

  lemma MemberIsPlain()
    ensures Lower("member") == "member" && IsPlain("member")
  {
    assert Lower("objectClass")[0] == 'o' && Lower("userPassword")[0] == 'u' && "member"[0] == 'm';
    assert Lower("member") == "member";
  }

  lemma OnlyAttributes(e: Entry, name: string)
    requires e.computed == map[] && Lower(name) == name
    ensures e.GetAttributes(name) == ValuesFor(e.attributes, name)
  {
    assert ValuesFor(e.attributes, name) + [] == ValuesFor(e.attributes, name);
  }

  lemma MembersOfRecord(r: Record, base: string, options: ImportPlan.Options)
    requires EntryOf(r, base, options).Built?
    ensures EntryOf(r, base, options).entry.GetAttributes("member") == ValuesOf(r.attributes, "member")
  {
    hide EntryOf, PlainAttributes, Lower, IsPlain, ValuesFor, Entry.GetAttributes, ValuesOf;
    MemberIsPlain();
    BuiltFacts(r, base, options);
    PlainValues(r.attributes, "member");
    OnlyAttributes(EntryOf(r, base, options).entry, "member");
  }

  /** An entry of the plan comes from a record. */
  lemma FromRecord(records: seq<Record>, base: string, options: ImportPlan.Options, plan: seq<Entry>, i: nat) returns (r: Record)
    requires AllBuilt(records, base, options) && multiset(plan) == multiset(Entries(records, base, options)) && i < |plan|
    ensures r in records && EntryOf(r, base, options) == Built(plan[i]) && plan[i] in Entries(records, base, options)
  {
    hide EntryOf;
    var entries := Entries(records, base, options);
    assert plan[i] in multiset(plan);
    var k: int :| 0 <= k < |entries| && entries[k] == plan[i];
    r := records[k];
  }

  /** Every record has its entry in the plan. */
  lemma ToPlan(records: seq<Record>, base: string, options: ImportPlan.Options, plan: seq<Entry>, r: Record) returns (i: nat)
    requires AllBuilt(records, base, options) && multiset(plan) == multiset(Entries(records, base, options)) && r in records
    ensures i < |plan| && EntryOf(r, base, options) == Built(plan[i])
  {
    hide EntryOf;
    var entries := Entries(records, base, options);
    var k: int :| 0 <= k < |records| && records[k] == r;
    assert entries[k] in multiset(entries);
    assert entries[k] in multiset(plan);
    i :| 0 <= i < |plan| && plan[i] == entries[k];
  }

  /** An accepted batch is planned if and only if nothing in it waits, in a circle, for itself. */
  lemma PlannedUnlessCyclic(t: Tables, records: seq<Record>, options: ImportPlan.Options)
    requires BatchAccepted(t, records, options)
    ensures var entries := Entries(records, TrimSpace(options.base), options);
      (exists p :: IsOrder(entries, RecordKeys(records), p)) <==> !exists c :: IsCycle(entries, RecordKeys(records), c)
  {
    hide EntryOf, DnKey, TrimSpace, EntryAccepted, IsOrder, IsCycle;
    var base := TrimSpace(options.base);
    var entries := Entries(records, base, options);
    forall i | 0 <= i < |entries| ensures entries[i].dn == records[i].dn {
      BuiltFacts(records[i], base, options);
    }
    assert DistinctKeys(entries);
    forall k ensures k in Keys(entries) <==> k in RecordKeys(records) {
      if k in RecordKeys(records) {
        var i: int :| 0 <= i < |records| && DnKey(records[i].dn) == k;
        assert entries[i] in entries;
      }
    }
    OrderExistsExact(entries, RecordKeys(records));
  }

  lemma FoldSameKey(a: string, b: string)
    requires EqualFold(a, b)
    ensures DnKey(a) == DnKey(b)
  {
    hide TrimSpace, Lower;
    TrimSpaceLower(a);
    TrimSpaceLower(b);
  }

  lemma PlanDistinct(records: seq<Record>, base: string, options: ImportPlan.Options, plan: seq<Entry>)
    requires DistinctRecords(records) && AllBuilt(records, base, options)
    requires multiset(plan) == multiset(Entries(records, base, options))
    ensures DistinctKeys(plan) && forall i, j :: 0 <= i < j < |plan| ==> !EqualFold(plan[i].dn, plan[j].dn)
  {
    hide EntryOf, DnKey, EqualFold;
    var entries := Entries(records, base, options);
    forall i | 0 <= i < |entries| ensures entries[i].dn == records[i].dn {
      BuiltFacts(records[i], base, options);
    }
    PermutationDistinct(entries, plan);
    forall i, j | 0 <= i < j < |plan| ensures !EqualFold(plan[i].dn, plan[j].dn) {
      if EqualFold(plan[i].dn, plan[j].dn) {
        FoldSameKey(plan[i].dn, plan[j].dn);
      }
    }
  }

  // ---- Exactly when a plan is carried out ----

  /** In the store or in the batch, letter case aside: outer space counts, as it does for the store. */
  ghost predicate Named(t: Tables, records: seq<Record>, dn: string) {
    EntryExists(t.entries, dn) || exists r :: r in records && EqualFold(r.dn, dn)
  }

  ghost predicate RecordFits(t: Tables, records: seq<Record>, base: string, options: ImportPlan.Options, r: Record)
    requires EntryOf(r, base, options).Built?
  {
    && (!EntryExists(t.entries, r.dn) ==>
        if Equal(r.dn, base) then Parent(r.dn) == "" else Named(t, records, Parent(r.dn)))
    && (EntryOf(r, base, options).entry.IsGroup() ==>
        forall m :: m in ValuesOf(r.attributes, "member") ==> Named(t, records, m))
  }

  /** What a caller has to see to: parents and members are named as they are stored, and a new base entry has no parent. */
  ghost predicate Fits(t: Tables, records: seq<Record>, base: string, options: ImportPlan.Options)
    requires AllBuilt(records, base, options)
  {
    forall r :: r in records ==> RecordFits(t, records, base, options, r)
  }

  lemma NamedBecomesAvailable(t: Tables, records: seq<Record>, options: ImportPlan.Options, plan: seq<Entry>, i: nat, dn: string)
    requires BatchAccepted(t, records, options) && i < |plan| && Named(t, records, dn)
    requires IsOrder(Entries(records, TrimSpace(options.base), options), RecordKeys(records), plan)
    requires Settled(DnKey(dn), RecordKeys(records), Keys(plan[..i]))
    ensures Available(t, plan, i, dn)
  {
    hide EntryOf, EntryExists, DnKey, EqualFold, TrimSpace, EntryAccepted, EachReady;
    var base := TrimSpace(options.base);
    if r :| r in records && EqualFold(r.dn, dn) {
      FoldSameKey(r.dn, dn);
      var e :| e in plan[..i] && DnKey(e.dn) == DnKey(dn);
      var j: int :| 0 <= j < i && plan[j] == e;
      var k := ToPlan(records, base, options, plan, r);
      BuiltFacts(r, base, options);
      PlanDistinct(records, base, options, plan);
      assert DnKey(plan[k].dn) == DnKey(plan[j].dn);
      assert k == j;
    }
  }

  lemma FittingEntryReady(t: Tables, records: seq<Record>, options: ImportPlan.Options, plan: seq<Entry>, i: nat)
    requires BatchAccepted(t, records, options) && i < |plan|
    requires IsOrder(Entries(records, TrimSpace(options.base), options), RecordKeys(records), plan)
    requires Fits(t, records, TrimSpace(options.base), options)
    ensures EntryReady(t, options.base, options.overwrite, plan, i)
  {
    hide EntryOf, EntryExists, TrimSpace, HasRequiredAttributes, WithinBase, Equal, DnKey, Entry.GetAttributes, Parent, RecordKeys;
    hide Known, Settled, Named, Available;
    var base, batch, e := TrimSpace(options.base), RecordKeys(records), plan[i];
    var r := FromRecord(records, base, options, plan, i);
    BuiltFacts(r, base, options);
    MembersOfRecord(r, base, options);
    assert EntryAccepted(t, batch, base, e, options.overwrite) && RecordFits(t, records, base, options, r);
    assert Ready(e, batch, Keys(plan[..i]));
    if !EntryExists(t.entries, e.dn) && !Equal(e.dn, base) {
      TrimmedKey(e.parentDn);
      NamedBecomesAvailable(t, records, options, plan, i, e.parentDn);
    }
    if e.IsGroup() {
      forall m | m in e.GetAttributes("member") ensures Available(t, plan, i, m) {
        NamedBecomesAvailable(t, records, options, plan, i, m);
      }
    }
  }

  lemma TrimmedKey(dn: string)
    ensures TrimSpace(dn) != "" ==> dn != "" && DnKey(dn) != ""
  {
    hide TrimSpace;
    assert |Lower(TrimSpace(dn))| == |TrimSpace(dn)| && |TrimSpace(dn)| <= |dn|;
  }

  lemma FittingPlanReady(t: Tables, records: seq<Record>, options: ImportPlan.Options, plan: seq<Entry>)
    requires BatchAccepted(t, records, options) && Fits(t, records, TrimSpace(options.base), options)
    requires IsOrder(Entries(records, TrimSpace(options.base), options), RecordKeys(records), plan)
    ensures PlanReady(t, options.base, options.overwrite, plan)
  {
    hide EntryOf, TrimSpace, DnKey, EntryReady, EntryAccepted, RecordKeys, EqualFold, EachReady, Fits, DistinctRecords;
    PlanDistinct(records, TrimSpace(options.base), options, plan);
    forall i | 0 <= i < |plan| ensures EntryReady(t, options.base, options.overwrite, plan, i) {
      FittingEntryReady(t, records, options, plan, i);
    }
  }

  /** In a finished import, the state before the i-th write. */
  lemma {:induction false} AppliedStep(t0: Tables, base: string, overwrite: bool, plan: seq<Entry>, uuids: seq<string>, n: nat, i: nat,
                                       after: Tables) returns (mid: Tables)
    requires |plan| == |uuids| && i < n <= |plan| && Applied(t0, base, overwrite, plan[..n], uuids[..n], after)
    ensures Applied(t0, base, overwrite, plan[..i], uuids[..i], mid) && WriteOutcome(mid, base, overwrite, plan[i]) == Done
    decreases n
  {
    hide Written, WriteOutcome;
    assert plan[..n][..n - 1] == plan[..n - 1] && uuids[..n][..n - 1] == uuids[..n - 1];
    var before :| Applied(t0, base, overwrite, plan[..n - 1], uuids[..n - 1], before)
      && Written(before, base, overwrite, plan[n - 1], uuids[n - 1], after, Done);
    if i == n - 1 {
      mid := before;
      WrittenOutcome(mid, base, overwrite, plan[i], uuids[i], after, Done);
    } else {
      mid := AppliedStep(t0, base, overwrite, plan, uuids, n - 1, i, before);
    }
  }

  lemma AvailableIsNamed(t: Tables, records: seq<Record>, base: string, options: ImportPlan.Options, plan: seq<Entry>, i: nat, dn: string)
    requires AllBuilt(records, base, options) && multiset(plan) == multiset(Entries(records, base, options)) && i <= |plan|
    requires Available(t, plan, i, dn)
    ensures Named(t, records, dn)
  {
    hide EntryOf, EntryExists, EqualFold;
    if j :| 0 <= j < i && EqualFold(plan[j].dn, dn) {
      var r := FromRecord(records, base, options, plan, j);
      BuiltFacts(r, base, options);
    }
  }

  /** What the checks of one successful write say. */
  lemma DoneMeans(t: Tables, base: string, overwrite: bool, e: Entry)
    requires WriteOutcome(t, base, overwrite, e) == Done
    ensures !EntryExists(t.entries, e.dn) ==> if Equal(e.dn, TrimSpace(base)) then e.parentDn == "" else EntryExists(t.entries, e.parentDn)
    ensures e.IsGroup() ==> forall m :: m in e.GetAttributes("member") ==> EntryExists(t.entries, m) || EqualFold(e.dn, m)
  {
    hide EqualFold, Equal, WithinBase, TrimSpace, HasRequiredAttributes, Entry.GetAttributes;
    if e.IsGroup() && !IsUpdate(t, e, overwrite) {
      forall m | m in e.GetAttributes("member") ensures EntryExists(t.entries, m) || EqualFold(e.dn, m) {
        var x :| x in t.entries + [NewRow(t, e)] && EqualFold(x.dn, m);
      }
    }
  }

  lemma AppliedFits(t0: Tables, records: seq<Record>, options: ImportPlan.Options, plan: seq<Entry>, uuids: seq<string>, after: Tables)
    requires |plan| == |uuids| && BatchAccepted(t0, records, options)
    requires IsOrder(Entries(records, TrimSpace(options.base), options), RecordKeys(records), plan)
    requires Applied(t0, options.base, options.overwrite, plan, uuids, after)
    ensures Fits(t0, records, TrimSpace(options.base), options)
  {
    hide EntryOf, TrimSpace, EntryAccepted, EachReady, RecordFits, Applied, DistinctRecords;
    var base := TrimSpace(options.base);
    assert plan[..|plan|] == plan && uuids[..|plan|] == uuids;
    forall r | r in records ensures RecordFits(t0, records, base, options, r) {
      var i := ToPlan(records, base, options, plan, r);
      var mid := AppliedStep(t0, options.base, options.overwrite, plan, uuids, |plan|, i, after);
      PlanDistinct(records, base, options, plan);
      AppliedRecordFits(t0, records, options, plan, uuids, i, mid, r);
    }
  }

  lemma AppliedRecordFits(t0: Tables, records: seq<Record>, options: ImportPlan.Options, plan: seq<Entry>, uuids: seq<string>, i: nat,
                          mid: Tables, r: Record)
    requires |plan| == |uuids| && i < |plan| && r in records && AllBuilt(records, TrimSpace(options.base), options)
    requires multiset(plan) == multiset(Entries(records, TrimSpace(options.base), options))
    requires EntryOf(r, TrimSpace(options.base), options) == Built(plan[i])
    requires forall j, k :: 0 <= j < k < |plan| ==> !EqualFold(plan[j].dn, plan[k].dn)
    requires Applied(t0, options.base, options.overwrite, plan[..i], uuids[..i], mid)
    requires WriteOutcome(mid, options.base, options.overwrite, plan[i]) == Done
    ensures RecordFits(t0, records, TrimSpace(options.base), options, r)
  {
    hide EntryOf, EntryExists, TrimSpace, Equal, EqualFold, Parent, Applied, WriteOutcome, Entry.GetAttributes, Named;
    var base, e := TrimSpace(options.base), plan[i];
    BuiltFacts(r, base, options);
    MembersOfRecord(r, base, options);
    DoneMeans(mid, options.base, options.overwrite, e);
    forall d ensures EntryExists(mid.entries, d) ==> Named(t0, records, d) {
      AppliedExists(t0, options.base, options.overwrite, plan, uuids, i, mid, d);
      if Available(t0, plan, i, d) {
        AvailableIsNamed(t0, records, base, options, plan, i, d);
      }
    }
    AppliedExists(t0, options.base, options.overwrite, plan, uuids, i, mid, e.dn);
    assert EntryExists(mid.entries, e.dn) ==> EntryExists(t0.entries, e.dn);
    if e.IsGroup() {
      forall m | m in e.GetAttributes("member") ensures Named(t0, records, m) {
        if EqualFold(e.dn, m) {
          assert Named(t0, records, m) by { OwnRecordNamed(t0, records, r, m); }
        }
      }
    }
  }

  lemma OwnRecordNamed(t: Tables, records: seq<Record>, r: Record, dn: string)
    requires r in records && EqualFold(r.dn, dn)
    ensures Named(t, records, dn)
  {
  }

  // ---- Two conditions under which a batch fits, or does not ----

  /** DNs and member values without outer space. */
  ghost predicate RecordsTrimmed(records: seq<Record>) {
    forall r :: r in records ==> Trimmed(r.dn) && forall m :: m in ValuesOf(r.attributes, "member") ==> Trimmed(m)
  }

  lemma KeyFold(a: string, b: string)
    requires Trimmed(a) && Trimmed(b)
    ensures DnKey(a) == DnKey(b) <==> EqualFold(a, b)
  {
    hide TrimSpace, Lower;
  }

  lemma KnownIsNamed(t: Tables, records: seq<Record>, dn: string)
    requires RecordsTrimmed(records) && Trimmed(dn) && Known(t, RecordKeys(records), dn)
    ensures Named(t, records, dn)
  {
    hide EntryExists, DnKey, Trimmed, EqualFold;
    if DnKey(dn) in RecordKeys(records) {
      var r :| r in records && DnKey(r.dn) == DnKey(dn);
      KeyFold(r.dn, dn);
    }
  }

  /** An accepted batch without outer spaces fits, but for the base entry. */
  lemma TrimmedFits(t: Tables, records: seq<Record>, options: ImportPlan.Options, r: Record)
    requires BatchAccepted(t, records, options) && RecordsTrimmed(records) && r in records
    requires Equal(r.dn, TrimSpace(options.base)) ==> EntryExists(t.entries, r.dn) || Parent(r.dn) == ""
    ensures RecordFits(t, records, TrimSpace(options.base), options, r)
  {
    hide EntryOf, EntryExists, TrimSpace, Trimmed, Equal, DnKey, Entry.GetAttributes, Parent, RecordKeys, Known, Named, DistinctRecords;
    var base := TrimSpace(options.base);
    BuiltFacts(r, base, options);
    MembersOfRecord(r, base, options);
    var k: int :| 0 <= k < |records| && records[k] == r;
    var e := Entries(records, base, options)[k];
    assert e in Entries(records, base, options) && EntryAccepted(t, RecordKeys(records), base, e, options.overwrite);
    if !Equal(r.dn, base) {
      AlreadyTrimmed(e.parentDn);
      KnownIsNamed(t, records, e.parentDn);
    }
    if e.IsGroup() {
      forall m | m in ValuesOf(r.attributes, "member") ensures Named(t, records, m) {
        KnownIsNamed(t, records, m);
      }
    }
  }

  lemma AlreadyTrimmed(s: string)
    ensures Trimmed(s) ==> TrimSpace(s) == s
  {
  }

  ghost predicate HasBase(t: Tables, base: string) {
    exists e :: e in t.entries && Trimmed(e.dn) && Equal(e.dn, base)
  }

  lemma BaseExists(t: Tables, base: string, dn: string)
    requires HasBase(t, base) && Equal(dn, base) && Trimmed(dn)
    ensures EntryExists(t.entries, dn)
  {
    hide TrimSpace, Lower;
    var e :| e in t.entries && Trimmed(e.dn) && Equal(e.dn, base);
    assert EqualFold(e.dn, dn);
  }

  /** With the base entry present, an accepted batch without outer spaces fits. */
  lemma WithBaseFits(t: Tables, records: seq<Record>, options: ImportPlan.Options)
    requires BatchAccepted(t, records, options) && RecordsTrimmed(records) && HasBase(t, TrimSpace(options.base))
    ensures Fits(t, records, TrimSpace(options.base), options)
  {
    hide EntryOf, TrimSpace, RecordFits, EntryAccepted, DistinctRecords, HasBase, Equal, Trimmed, Parent;
    forall r | r in records ensures RecordFits(t, records, TrimSpace(options.base), options, r) {
      if Equal(r.dn, TrimSpace(options.base)) {
        BaseExists(t, TrimSpace(options.base), r.dn);
      }
      TrimmedFits(t, records, options, r);
    }
  }

  /** Climbing from any entry ends at the base entry. */
  lemma {:induction false} NoBaseNoRow(t: Tables, base: string, row: EntryRow)
    requires Placed(t, base) && row in t.entries && forall e :: e in t.entries ==> !Equal(e.dn, TrimSpace(base))
    ensures false
    decreases |row.dn|
  {
    hide WithinBase, Equal, TrimSpace, Parent, Placed;
    RowIsPlaced(t, base, row);
    var p :| p in t.entries && EqualFold(p.dn, row.parentDn);
    assert |Lower(p.dn)| == |p.dn| && |Lower(row.parentDn)| == |row.parentDn|;
    NoBaseNoRow(t, base, p);
  }

  lemma RowIsPlaced(t: Tables, base: string, row: EntryRow)
    requires Placed(t, base) && row in t.entries
    ensures RowPlaced(t.entries, base, row)
  {
    var i: int :| 0 <= i < |t.entries| && t.entries[i] == row;
  }

  lemma EqualParents(a: string, b: string)
    requires Equal(a, b) && Trimmed(a)
    ensures Parent(a) == "" <==> Parent(TrimSpace(b)) == ""
  {
    hide TrimSpace, Parent, Lower;
    var c := TrimSpace(b);
    assert TrimSpace(a) == a;
    ParentLower(a);
    ParentLower(c);
    assert |Lower(Parent(a))| == |Parent(a)| && |Lower(Parent(c))| == |Parent(c)|;
  }

  /** Without the base entry the first entry of a plan is the base. */
  lemma FirstIsBase(t: Tables, records: seq<Record>, options: ImportPlan.Options, plan: seq<Entry>) returns (r: Record)
    requires BatchAccepted(t, records, options) && records != [] && t.entries == []
    requires IsOrder(Entries(records, TrimSpace(options.base), options), RecordKeys(records), plan)
    ensures r in records && Equal(r.dn, TrimSpace(options.base))
  {
    hide EntryOf, TrimSpace, Equal, DnKey, Entry.GetAttributes, Parent, RecordKeys, DistinctRecords, Trimmed;
    var base := TrimSpace(options.base);
    var i := ToPlan(records, base, options, plan, records[0]);
    r := FromRecord(records, base, options, plan, 0);
    BuiltFacts(r, base, options);
    var e := plan[0];
    assert EntryAccepted(t, RecordKeys(records), base, e, options.overwrite);
    assert plan[..0] == [] && Ready(e, RecordKeys(records), Keys(plan[..0]));
    AlreadyTrimmed(e.parentDn);
    assert Trimmed(e.parentDn);
    TrimmedKey(e.parentDn);
    assert Keys([]) == {};
  }

  /**
   On a store without its base entry, which is then empty, an accepted batch without outer spaces fits if and only if
   it is empty or the base has no parent DN: the base entry is planned, but cannot be created.
   */
  lemma WithoutBaseFits(t: Tables, records: seq<Record>, options: ImportPlan.Options, plan: seq<Entry>)
    requires BatchAccepted(t, records, options) && RecordsTrimmed(records)
    requires IsOrder(Entries(records, TrimSpace(options.base), options), RecordKeys(records), plan)
    requires Placed(t, options.base) && forall e :: e in t.entries ==> !Equal(e.dn, TrimSpace(options.base))
    ensures t.entries == []
    ensures Fits(t, records, TrimSpace(options.base), options) <==> records == [] || Parent(TrimSpace(options.base)) == ""
  {
    hide EntryOf, TrimSpace, RecordFits, EntryAccepted, DistinctRecords, Equal, Trimmed, Parent, IsOrder, Placed;
    var base := TrimSpace(options.base);
    if t.entries != [] {
      NoBaseNoRow(t, options.base, t.entries[0]);
    }
    if Fits(t, records, base, options) && records != [] {
      var r := FirstIsBase(t, records, options, plan);
      assert RecordFits(t, records, base, options, r);
      FittingBase(t, records, options, r);
      BaseParent(options.base, r.dn);
    }
    if Parent(base) == "" {
      forall r | r in records ensures RecordFits(t, records, base, options, r) {
        if Equal(r.dn, base) {
          BaseParent(options.base, r.dn);
        }
        TrimmedFits(t, records, options, r);
      }
    }
  }

  lemma FittingBase(t: Tables, records: seq<Record>, options: ImportPlan.Options, r: Record)
    requires EntryOf(r, TrimSpace(options.base), options).Built? && RecordFits(t, records, TrimSpace(options.base), options, r)
    requires Equal(r.dn, TrimSpace(options.base)) && t.entries == []
    ensures Parent(r.dn) == ""
  {
    hide EntryOf, TrimSpace, Equal, Parent;
  }

  lemma BaseParent(base: string, dn: string)
    requires Equal(dn, TrimSpace(base)) && Trimmed(dn)
    ensures Parent(dn) == "" <==> Parent(TrimSpace(base)) == ""
  {
    hide Parent, Equal, TrimSpace;
    EqualParents(dn, TrimSpace(base));
    assert TrimSpace(TrimSpace(base)) == TrimSpace(base);
  }
}
