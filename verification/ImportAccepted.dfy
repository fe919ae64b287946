/** Exactly which batches are accepted, said of the records and the tables. */
module ImportAccepted {
  import opened Text
  import opened Dn
  import opened Tables
  import opened Directory
  import opened DirectoryInvariant
  import opened Records
  import opened ImportOrder
  import opened ImportPlan
  import opened ImportFit
  import opened StoreChecks
  import opened StoredValues
  import opened ImportPasswords

  /** In the batch, up to case and outer space, or stored, up to case. */
  ghost predicate InBatchOrStored(t: Tables, records: seq<Record>, dn: string) {
    (exists r :: r in records && Equal(r.dn, dn)) || exists row :: row in t.entries && EqualFold(row.dn, dn)
  }

  /** The record can be built as an entry of this class. */
  ghost predicate CanBeBuilt(r: Record, base: string, options: ImportPlan.Options, name: string) {
    WithinBase(r.dn, base) && !SetsServerAttribute(r) && NamesClass(r, base, name) && SuitsClass(r, options, name)
  }

  /**
   A record that suits the store and the batch: an entry it would replace may be overwritten and has the same class, its
   parent is there unless it is the base entry, and so are its members if it is a group.
   */
  ghost predicate RecordSuits(t: Tables, records: seq<Record>, base: string, options: ImportPlan.Options, r: Record, name: string) {
    && CanBeBuilt(r, base, options, name)
    && (forall row :: row in t.entries && EqualFold(row.dn, r.dn) ==> options.overwrite && row.objectClass == name)
    && (Equal(r.dn, base) || (Parent(r.dn) != "" && InBatchOrStored(t, records, Parent(r.dn))))
    && (name == "groupOfNames" ==> forall m :: m in ValuesOf(r.attributes, "member") ==> InBatchOrStored(t, records, m))
  }

  ghost predicate SuitsAsSome(t: Tables, records: seq<Record>, base: string, options: ImportPlan.Options, r: Record) {
    exists name :: RecordSuits(t, records, base, options, r, name)
  }

  lemma KnownExact(t: Tables, records: seq<Record>, dn: string)
    ensures Known(t, RecordKeys(records), dn) <==> InBatchOrStored(t, records, dn)
  {
    hide DnKey, Equal, EqualFold;
    forall r: Record { DnKeyExact(r.dn, dn); }
    if DnKey(dn) in RecordKeys(records) {
      var r :| r in records && DnKey(r.dn) == DnKey(dn);
    }
  }

  lemma ExistingExact(t: Tables, e: Entry, overwrite: bool)
    requires DnsUnique(t)
    ensures ExistingAllowed(t, e, overwrite) <==>
      forall row :: row in t.entries && EqualFold(row.dn, e.dn) ==> overwrite && row.objectClass == e.objectClass
  {
    hide EqualFold, DnsUnique;
    forall row | row in t.entries && EqualFold(row.dn, e.dn)
      ensures EntryExists(t.entries, e.dn) && t.entries[FindRow(t.entries, e.dn)] == row
    {
      OnlyRowWithDn(t, e.dn, row);
    }
    if EntryExists(t.entries, e.dn) {
      var row := t.entries[FindRow(t.entries, e.dn)];
      assert row in t.entries && EqualFold(row.dn, e.dn);
    }
  }

  lemma AlreadyTrimmedParent(dn: string)
    ensures TrimSpace(Parent(dn)) == Parent(dn)
  {
  }

  lemma RecordExact(t: Tables, records: seq<Record>, base: string, options: ImportPlan.Options, r: Record)
    requires DnsUnique(t)
    ensures EntryOf(r, base, options).Built?
        && EntryAccepted(t, RecordKeys(records), base, EntryOf(r, base, options).entry, options.overwrite)
      <==> SuitsAsSome(t, records, base, options, r)
  {
    hide EntryOf, DnsUnique, NamesClass, SuitsClass, WithinBase, SetsServerAttribute, Equal, EqualFold, Parent, ExistingAllowed, Known;
    hide InBatchOrStored, RecordKeys, Entry.GetAttributes, ValuesOf;
    BuiltExact(r, base, options);
    if EntryOf(r, base, options).Built? {
      var e := EntryOf(r, base, options).entry;
      BuiltMeans(r, base, options);
      MembersOfRecord(r, base, options);
      OneNamedClass(r, base, e.objectClass);
      ExistingExact(t, e, options.overwrite);
      AlreadyTrimmedParent(r.dn);
      forall dn { KnownExact(t, records, dn); }
      assert CanBeBuilt(r, base, options, e.objectClass);
      assert EntryAccepted(t, RecordKeys(records), base, e, options.overwrite) <==> RecordSuits(t, records, base, options, r, e.objectClass);
    }
  }

  /**
   A batch is accepted if and only if the base is set, no two records have one DN, and each record can be built and suits
   the store and the batch.
   */
  lemma AcceptedExact(t: Tables, records: seq<Record>, options: ImportPlan.Options)
    requires DnsUnique(t)
    ensures BatchAccepted(t, records, options) <==>
      && TrimSpace(options.base) != ""
      && (forall i, j :: 0 <= i < j < |records| ==> !Equal(records[i].dn, records[j].dn))
      && forall r :: r in records ==> SuitsAsSome(t, records, TrimSpace(options.base), options, r)
  {
    hide EntryOf, DnsUnique, EntryAccepted, Equal, TrimSpace, RecordKeys, RecordSuits, DnKey, SuitsAsSome;
    var base := TrimSpace(options.base);
    forall r: Record { RecordExact(t, records, base, options, r); }
    forall a: string, b: string { DnKeyExact(a, b); }
    forall r | r in records && SuitsAsSome(t, records, base, options, r) ensures DnKey(r.dn) != "" {
      SuitsHasKey(t, records, base, options, r);
    }
    if AllBuilt(records, base, options) {
      var entries := Entries(records, base, options);
      forall r | r in records ensures EntryOf(r, base, options).entry in entries {
        var i: int :| 0 <= i < |records| && records[i] == r;
        assert entries[i] in entries;
      }
      forall e | e in entries ensures exists r :: r in records && EntryOf(r, base, options).entry == e {
        var i: int :| 0 <= i < |entries| && entries[i] == e;
        assert records[i] in records;
      }
    }
  }

  lemma SuitsHasKey(t: Tables, records: seq<Record>, base: string, options: ImportPlan.Options, r: Record)
    requires SuitsAsSome(t, records, base, options, r)
    ensures DnKey(r.dn) != ""
  {
    hide NamesClass, SuitsClass, SetsServerAttribute, Equal, EqualFold, Parent, InBatchOrStored, TrimSpace, ValuesOf, AncestorOrSelf;
    assert WithinBase(r.dn, base);
    WithinHasText(r.dn, base);
    assert |Lower(TrimSpace(r.dn))| == |TrimSpace(r.dn)|;
  }

  lemma WithinHasText(dn: string, base: string)
    requires WithinBase(dn, base)
    ensures TrimSpace(dn) != ""
  {
    hide TrimSpace, FirstUnescaped;
    assert |Lower(TrimSpace(base))| == |TrimSpace(base)| && Parent("") == "";
  }
}
