/** Applying an import plan, and the plans of which no write fails. */
module ImportApply {
  import opened Text
  import opened Dn
  import opened Tables
  import opened Directory
  import opened DirectoryInvariant

  // ---- Applying ----

  predicate IsUpdate(t: Tables, e: Entry, overwrite: bool) {
    overwrite && EntryExists(t.entries, e.dn)
  }

  /** One write of ApplyImport: an update of an existing entry, or a creation. */
  ghost predicate Written(before: Tables, base: string, overwrite: bool, e: Entry, uuid: string, after: Tables, outcome: Outcome) {
    if IsUpdate(before, e, overwrite) then Updated(before, e, uuid, after, outcome)
    else Created(before, base, e, uuid, after, outcome)
  }

  /** All the writes of a list of entries, none failing. */
  ghost predicate Applied(before: Tables, base: string, overwrite: bool, plan: seq<Entry>, uuids: seq<string>, after: Tables)
    requires |plan| == |uuids|
  {
    if plan == [] then after == before
    else
      var n := |plan| - 1;
      exists mid :: Applied(before, base, overwrite, plan[..n], uuids[..n], mid)
        && Written(mid, base, overwrite, plan[n], uuids[n], after, Done)
  }

  lemma AppliedMore(t0: Tables, base: string, overwrite: bool, plan: seq<Entry>, uuids: seq<string>, i: nat, mid: Tables, after: Tables)
    requires |plan| == |uuids| && i < |plan|
    requires Applied(t0, base, overwrite, plan[..i], uuids[..i], mid)
    requires Written(mid, base, overwrite, plan[i], uuids[i], after, Done)
    ensures Applied(t0, base, overwrite, plan[..i + 1], uuids[..i + 1], after)
  {
    hide Written;
    assert plan[..i + 1][..i] == plan[..i] && uuids[..i + 1][..i] == uuids[..i];
  }

  /** ApplyImport stops at the first failure, keeping what it wrote before; a ready plan has none. */
  method ApplyImport(store: Store, plan: seq<Entry>, overwrite: bool, uuids: seq<string>) returns (outcome: Outcome, n: nat)
    requires |plan| == |uuids|
    modifies store`tables
    ensures n <= |plan| && (outcome == Done <==> n == |plan|)
    ensures Applied(old(store.tables), store.baseDn, overwrite, plan[..n], uuids[..n], store.tables)
    ensures PlanReady(old(store.tables), store.baseDn, overwrite, plan) ==> outcome == Done
  {
    hide Created, Updated, Applied, PlanReady, EntryExists, CreateOutcome, UpdateOutcome;
    ghost var t0, base := store.tables, store.baseDn;
    n := 0;
    NothingApplied(t0, base, overwrite, plan, uuids);
    while n < |plan|
      invariant n <= |plan| && Applied(t0, base, overwrite, plan[..n], uuids[..n], store.tables)
    {
      ghost var before := store.tables;
      var update := IsUpdate(store.tables, plan[n], overwrite);
      if PlanReady(t0, base, overwrite, plan) {
        NextWriteSucceeds(t0, base, overwrite, plan, uuids, n, before);
      }
      if update {
        outcome := store.UpdateEntry(plan[n], uuids[n]);
      } else {
        outcome := store.CreateEntry(plan[n], uuids[n]);
      }
      assert Written(before, base, overwrite, plan[n], uuids[n], store.tables, outcome);
      WrittenOutcome(before, base, overwrite, plan[n], uuids[n], store.tables, outcome);
      if outcome != Done {
        return;
      }
      AppliedMore(t0, base, overwrite, plan, uuids, n, before, store.tables);
      n := n + 1;
    }
    outcome := Done;
  }

  lemma NothingApplied(t0: Tables, base: string, overwrite: bool, plan: seq<Entry>, uuids: seq<string>)
    requires |plan| == |uuids|
    ensures Applied(t0, base, overwrite, plan[..0], uuids[..0], t0)
  {
  }

  function WriteOutcome(t: Tables, base: string, overwrite: bool, e: Entry): Outcome {
    if IsUpdate(t, e, overwrite) then UpdateOutcome(t, e) else CreateOutcome(t, base, e)
  }

  lemma WrittenOutcome(before: Tables, base: string, overwrite: bool, e: Entry, uuid: string, after: Tables, outcome: Outcome)
    requires Written(before, base, overwrite, e, uuid, after, outcome)
    ensures outcome == WriteOutcome(before, base, overwrite, e)
    ensures outcome != Done ==> after == before
  {
    hide CreateOutcome, UpdateOutcome, HoldsAttributes, EntryExists;
  }

  // ---- When no write fails ----

  /** In the store, or written earlier in the plan. */
  ghost predicate Available(t: Tables, plan: seq<Entry>, i: nat, dn: string)
    requires i <= |plan|
  {
    EntryExists(t.entries, dn) || exists j :: 0 <= j < i && EqualFold(plan[j].dn, dn)
  }

  ghost predicate EntryReady(t: Tables, base: string, overwrite: bool, plan: seq<Entry>, i: nat)
    requires i < |plan|
  {
    var e := plan[i];
    && ValidateEntry(e) == Done && HasRequiredAttributes(e) && WithinBase(e.dn, TrimSpace(base))
    && (if EntryExists(t.entries, e.dn) then overwrite
        else if Equal(e.dn, TrimSpace(base)) then e.parentDn == ""
        else e.parentDn != "" && Available(t, plan, i, e.parentDn))
    && (e.IsGroup() ==> forall m :: m in e.GetAttributes("member") ==> Available(t, plan, i, m))
  }

  ghost predicate PlanReady(t: Tables, base: string, overwrite: bool, plan: seq<Entry>) {
    && TrimSpace(base) != ""
    && (forall i, j :: 0 <= i < j < |plan| ==> !EqualFold(plan[i].dn, plan[j].dn))
    && forall i :: 0 <= i < |plan| ==> EntryReady(t, base, overwrite, plan, i)
  }

  /** A write makes its own DN available and no other. */
  lemma WrittenExists(before: Tables, base: string, overwrite: bool, e: Entry, uuid: string, after: Tables, d: string)
    requires Written(before, base, overwrite, e, uuid, after, Done)
    ensures EntryExists(after.entries, d) <==> EntryExists(before.entries, d) || EqualFold(e.dn, d)
  {
    hide HoldsAttributes, UpdateOutcome, CreateOutcome, Lower, HasRequiredAttributes, MembersResolve, MemberIds, KeptUuid;
    if IsUpdate(before, e, overwrite) {
      TouchKeepsExistence(before.entries, e.dn, e.updatedAt, d);
      if EqualFold(e.dn, d) {
        var x :| x in before.entries && EqualFold(x.dn, e.dn);
      }
    } else {
      assert after.entries == before.entries + [NewRow(before, e)];
      assert NewRow(before, e) in after.entries;
      forall x ensures x in after.entries <==> x in before.entries || x == NewRow(before, e) {
      }
    }
  }

  lemma {:induction false} AppliedExists(t0: Tables, base: string, overwrite: bool, plan: seq<Entry>, uuids: seq<string>, i: nat,
                                         t: Tables, d: string)
    requires |plan| == |uuids| && i <= |plan|
    requires Applied(t0, base, overwrite, plan[..i], uuids[..i], t)
    ensures EntryExists(t.entries, d) <==> Available(t0, plan, i, d)
    decreases i
  {
    hide EntryExists, Written, EqualFold;
    if i > 0 {
      assert plan[..i][..i - 1] == plan[..i - 1] && uuids[..i][..i - 1] == uuids[..i - 1];
      var mid :| Applied(t0, base, overwrite, plan[..i - 1], uuids[..i - 1], mid)
        && Written(mid, base, overwrite, plan[i - 1], uuids[i - 1], t, Done);
      AppliedExists(t0, base, overwrite, plan, uuids, i - 1, mid, d);
      WrittenExists(mid, base, overwrite, plan[i - 1], uuids[i - 1], t, d);
    }
  }

  /** After any part of a ready plan, the next write succeeds. */
  lemma NextWriteSucceeds(t0: Tables, base: string, overwrite: bool, plan: seq<Entry>, uuids: seq<string>, i: nat, t: Tables)
    requires |plan| == |uuids| && i < |plan| && PlanReady(t0, base, overwrite, plan)
    requires Applied(t0, base, overwrite, plan[..i], uuids[..i], t)
    ensures WriteOutcome(t, base, overwrite, plan[i]) == Done
  {
    hide EntryExists, Applied, HasRequiredAttributes, WithinBase, Equal, EqualFold, TrimSpace, Entry.GetAttributes, MembersResolve;
    var e := plan[i];
    assert EntryReady(t0, base, overwrite, plan, i);
    forall d ensures EntryExists(t.entries, d) <==> Available(t0, plan, i, d) {
      AppliedExists(t0, base, overwrite, plan, uuids, i, t, d);
    }
    assert EntryExists(t.entries, e.dn) <==> EntryExists(t0.entries, e.dn);
    if e.IsGroup() {
      ResolveEach(t.entries, e.GetAttributes("member"));
      ResolveEach(t.entries + [NewRow(t, e)], e.GetAttributes("member"));
      forall m | m in e.GetAttributes("member") {
        EntryExistsGrows(t.entries, NewRow(t, e), m);
      }
    }
  }

  lemma ResolveEach(entries: seq<EntryRow>, dns: seq<string>)
    ensures (forall d :: d in dns ==> EntryExists(entries, d)) ==> MembersResolve(entries, dns)
  {
    hide EntryExists;
  }
}
