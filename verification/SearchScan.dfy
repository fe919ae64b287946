/** Reading joined rows back into entries, and keeping the entries in scope. */
module SearchScan {
  import opened Text
  import opened Dn
  import opened Tables
  import opened DirectoryInvariant
  import opened SearchQuery

  datatype Joined = NoAttribute | Joined(attribute: AttrRow)

  /** A row of entries LEFT JOIN attributes. */
  datatype JoinRow = JoinRow(row: EntryRow, joined: Joined)

  predicate InLeftJoin(attributes: seq<AttrRow>, r: JoinRow) {
    match r.joined
    case NoAttribute => forall a :: a in attributes ==> a.entryId != r.row.id
    case Joined(a) => a in attributes && a.entryId == r.row.id
  }

  predicate Sorted(rows: seq<JoinRow>) {
    forall i, j :: 0 <= i < j < |rows| ==> rows[i].row.id <= rows[j].row.id
  }

  /** `rows` is a result of the join for the chosen entries: sorted by entry, otherwise in any order, with repetitions. */
  ghost predicate JoinsChosen(t: Tables, chosen: set<nat>, rows: seq<JoinRow>) {
    Sorted(rows) && forall r :: r in rows <==> r.row in t.entries && r.row.id in chosen && InLeftJoin(t.attributes, r)
  }

  // ---- Scanning ----

  function BareEntry(row: EntryRow): Entry {
    Entry(row.id, row.dn, row.parentDn, row.objectClass, map[], map[], row.createdAt, row.updatedAt)
  }

  function WithJoined(e: Entry, joined: Joined): Entry {
    match joined
    case NoAttribute => e
    case Joined(a) => e.(attributes := AddValue(e.attributes, a.name, a.value))
  }

  predicate StartsEntry(entries: seq<Entry>, r: JoinRow) {
    entries == [] || entries[|entries| - 1].id != r.row.id
  }

  /** The entries after one more row: a row with another id starts the next entry. */
  function ScanRow(entries: seq<Entry>, r: JoinRow): seq<Entry> {
    if StartsEntry(entries, r) then entries + [WithJoined(BareEntry(r.row), r.joined)]
    else entries[|entries| - 1 := WithJoined(entries[|entries| - 1], r.joined)]
  }

  function Scan(rows: seq<JoinRow>): seq<Entry> {
    if rows == [] then [] else ScanRow(Scan(rows[..|rows| - 1]), rows[|rows| - 1])
  }

  /** scanEntriesWithAttributeRows */
  method ScanRows(rows: seq<JoinRow>) returns (entries: seq<Entry>)
    ensures entries == Scan(rows)
  {
    entries := [];
    var current := -1;
    for i := 0 to |rows|
      invariant entries == Scan(rows[..i])
      invariant current == |entries| - 1
    {
      var r := rows[i];
      assert rows[..i + 1][..i] == rows[..i];
      if current == -1 || entries[current].id != r.row.id {
        entries := entries + [BareEntry(r.row)];
        current := |entries| - 1;
      }
      if r.joined.Joined? {
        var e := entries[current];
        entries := entries[current := e.(attributes := AddValue(e.attributes, r.joined.attribute.name, r.joined.attribute.value))];
      }
    }
    assert rows[..|rows|] == rows;
  }

  /** `e` shows the columns of `row` and, under each name, exactly the values joined to it. */
  ghost predicate Shows(rows: seq<JoinRow>, e: Entry, row: EntryRow) {
    && e == BareEntry(row).(attributes := e.attributes)
    && forall name, value :: value in ValuesFor(e.attributes, name)
        <==> exists a: AttrRow :: JoinRow(row, Joined(a)) in rows && a.name == name && a.value == value
  }

  /** The scan gives one entry for every entry id among the rows, in order. */
  ghost predicate Scanned(rows: seq<JoinRow>, entries: seq<Entry>) {
    Ascending(entries) && AllShown(rows, entries) && AllCovered(rows, entries)
  }

  ghost predicate AllShown(rows: seq<JoinRow>, entries: seq<Entry>) {
    forall e :: e in entries ==> exists r :: r in rows && Shows(rows, e, r.row)
  }

  ghost predicate AllCovered(rows: seq<JoinRow>, entries: seq<Entry>) {
    forall r :: r in rows ==> exists e :: e in entries && e.id == r.row.id
  }

  /** Rows with the same id are of the same entry. */
  ghost predicate OneRowPerId(rows: seq<JoinRow>) {
    forall r, s :: r in rows && s in rows && r.row.id == s.row.id ==> r.row == s.row
  }

  lemma AddValueIn(m: Values, n: string, v: string)
    ensures forall name, value ::
      value in ValuesFor(AddValue(m, n, v), name) <==> value in ValuesFor(m, name) || (name == n && value == v)
  {
  }

  lemma ShowsMore(rows: seq<JoinRow>, e: Entry, row: EntryRow, r: JoinRow)
    requires Shows(rows, e, row)
    ensures r.row == row ==> Shows(rows + [r], WithJoined(e, r.joined), row)
    ensures r.row != row ==> Shows(rows + [r], e, row)
  {
    hide AddValue, ValuesFor;
    if r.joined.Joined? {
      AddValueIn(e.attributes, r.joined.attribute.name, r.joined.attribute.value);
    }
    forall x ensures x in rows + [r] <==> x in rows || x == r {
    }
  }

  lemma ShowsNothing(rows: seq<JoinRow>, row: EntryRow)
    requires forall r :: r in rows ==> r.row != row
    ensures Shows(rows, BareEntry(row), row)
  {
  }

  lemma SortedStart(rows: seq<JoinRow>)
    requires Sorted(rows) && OneRowPerId(rows) && rows != []
    ensures Sorted(rows[..|rows| - 1]) && OneRowPerId(rows[..|rows| - 1])
  {
  }

  lemma NothingScanned()
    ensures Scanned([], Scan([]))
  {
  }

  lemma {:induction false} ScanIsScanned(rows: seq<JoinRow>)
    requires Sorted(rows) && OneRowPerId(rows)
    ensures Scanned(rows, Scan(rows))
    ensures rows != [] ==> LastIs(Scan(rows), rows[|rows| - 1].row.id)
  {
    hide Scanned, Sorted, OneRowPerId, ScanRow, LastIs;
    if rows == [] {
      NothingScanned();
    } else {
      var init, r := rows[..|rows| - 1], rows[|rows| - 1];
      assert rows == init + [r];
      SortedStart(rows);
      ScanIsScanned(init);
      NextRow(init, Scan(init), r);
    }
  }

  lemma NextRow(init: seq<JoinRow>, before: seq<Entry>, r: JoinRow)
    requires Sorted(init + [r]) && OneRowPerId(init + [r]) && Scanned(init, before)
    requires if init == [] then before == [] else LastIs(before, init[|init| - 1].row.id)
    ensures Scanned(init + [r], ScanRow(before, r)) && LastIs(ScanRow(before, r), r.row.id)
  {
    hide Scanned, Sorted, OneRowPerId, ScanRow, LastIs;
    if init == [] {
      FirstRow(r);
    } else {
      ScanRowKeeps(init, before, r);
    }
  }

  predicate LastIs(entries: seq<Entry>, id: nat) {
    entries != [] && entries[|entries| - 1].id == id
  }

  lemma FirstRow(r: JoinRow)
    ensures Scanned([] + [r], ScanRow([], r)) && LastIs(ScanRow([], r), r.row.id)
  {
    hide Shows, AddValue, WithJoined;
    var e := WithJoined(BareEntry(r.row), r.joined);
    assert ScanRow([], r) == [] + [e] == [e] && [] + [r] == [r];
    ShowsNothing([], r.row);
    ShowsMore([], BareEntry(r.row), r.row, r);
    OneEntryScanned(r, e);
  }

  lemma OneEntryScanned(r: JoinRow, e: Entry)
    requires Shows([r], e, r.row)
    ensures Scanned([r], [e]) && LastIs([e], r.row.id)
  {
    ShownId([r], e, r.row);
    hide Shows;
    assert r in [r] && e in [e];
  }

  ghost predicate Ascending(entries: seq<Entry>) {
    forall i, j :: 0 <= i < j < |entries| ==> entries[i].id < entries[j].id
  }

  lemma ScanRowAscends(before: seq<Entry>, r: JoinRow)
    requires Ascending(before) && before != [] && before[|before| - 1].id <= r.row.id
    ensures Ascending(ScanRow(before, r)) && LastIs(ScanRow(before, r), r.row.id)
    ensures forall rows :: AllCovered(rows, before) ==> AllCovered(rows + [r], ScanRow(before, r))
  {
    hide AddValue, WithJoined;
    WithJoinedId(r.joined);
    var after := ScanRow(before, r);
    forall rows, s | AllCovered(rows, before) && s in rows + [r] ensures exists x :: x in after && x.id == s.row.id {
      if s in rows {
        var k :| 0 <= k < |before| && before[k].id == s.row.id;
        assert after[k].id == s.row.id;
      } else {
        assert after[|after| - 1].id == s.row.id;
      }
    }
  }

  /** One more row either extends the last entry or starts a new one. */
  lemma ScanRowKeeps(init: seq<JoinRow>, before: seq<Entry>, r: JoinRow)
    requires Sorted(init + [r]) && OneRowPerId(init + [r]) && Scanned(init, before)
    requires init != [] && LastIs(before, init[|init| - 1].row.id)
    ensures Scanned(init + [r], ScanRow(before, r)) && LastIs(ScanRow(before, r), r.row.id)
  {
    hide Shows, OneRowPerId, ScanRow, Ascending, AllCovered;
    var rows, after := init + [r], ScanRow(before, r);
    assert rows[|init| - 1] == init[|init| - 1] && rows[|init|] == r;
    ScanRowAscends(before, r);
    forall e | e in after ensures exists s :: s in rows && Shows(rows, e, s.row) {
      ScanRowShows(init, before, r, e);
    }
  }

  lemma WithJoinedId(joined: Joined)
    ensures forall e :: WithJoined(e, joined).id == e.id
  {
  }

  lemma ScanRowShows(init: seq<JoinRow>, before: seq<Entry>, r: JoinRow, e: Entry)
    requires Sorted(init + [r]) && OneRowPerId(init + [r]) && Scanned(init, before)
    requires init != [] && LastIs(before, init[|init| - 1].row.id) && e in ScanRow(before, r)
    ensures var rows := init + [r]; exists s :: s in rows && Shows(rows, e, s.row)
  {
    hide Shows, AddValue, WithJoined, Scanned;
    var rows, k :| rows == init + [r] && 0 <= k < |ScanRow(before, r)| && ScanRow(before, r)[k] == e;
    assert r in rows;
    assert rows[|init| - 1] == init[|init| - 1] && rows[|init|] == r;
    if k < |before| {
      var s := ShownRow(init, before, r, k);
      ShowsMore(init, before[k], s.row, r);
    } else {
      NewRowId(init, before, r);
      ShowsNothing(init, r.row);
      ShowsMore(init, BareEntry(r.row), r.row, r);
    }
  }

  lemma ShownRow(init: seq<JoinRow>, before: seq<Entry>, r: JoinRow, k: nat) returns (s: JoinRow)
    requires OneRowPerId(init + [r]) && Scanned(init, before) && k < |before|
    requires before[|before| - 1].id <= r.row.id
    ensures s in init && s in init + [r] && Shows(init, before[k], s.row)
    ensures s.row == r.row <==> k == |before| - 1 && !StartsEntry(before, r)
  {
    hide Shows, AllCovered;
    assert before[k] in before;
    s :| s in init && Shows(init, before[k], s.row);
    ShownId(init, before[k], s.row);
    assert r in init + [r] && s in init + [r];
  }

  lemma ShownId(rows: seq<JoinRow>, e: Entry, row: EntryRow)
    requires Shows(rows, e, row)
    ensures e.id == row.id
  {
  }

  lemma NewRowId(init: seq<JoinRow>, before: seq<Entry>, r: JoinRow)
    requires Sorted(init + [r]) && init != [] && LastIs(before, init[|init| - 1].row.id)
    requires before[|before| - 1].id != r.row.id
    ensures forall s :: s in init ==> s.row != r.row
  {
    hide Shows;
    var rows := init + [r];
    assert rows[|init| - 1] == init[|init| - 1] && rows[|init|] == r;
    forall s | s in init ensures s.row.id < r.row.id {
      var k :| 0 <= k < |init| && init[k] == s;
      assert rows[k] == s;
    }
  }

  // ---- Lists of entries ----

  /** `e` is the entry of `row` with exactly its attribute values, and no memberOf yet. */
  ghost predicate Represents(t: Tables, row: EntryRow, e: Entry) {
    && row in t.entries && e == BareEntry(row).(attributes := e.attributes)
    && forall name, value :: value in ValuesFor(e.attributes, name) <==>
        exists a :: a in t.attributes && a.entryId == row.id && a.name != "" && Lower(a.name) == name && a.value == value
  }

  /** Exactly the chosen entries, each once. */
  ghost predicate Lists(t: Tables, entries: seq<Entry>, chosen: set<nat>) {
    && DistinctIds(entries)
    && (forall e :: e in entries ==> exists row :: Represents(t, row, e))
    && (forall id :: id in chosen <==> ListsId(entries, id))
  }

  ghost predicate ListsId(entries: seq<Entry>, id: nat) {
    exists e :: e in entries && e.id == id
  }

  lemma LoadedRepresents(t: Tables, row: EntryRow)
    requires row in t.entries
    ensures Represents(t, row, LoadEntry(t, row))
  {
    hide Collect, Lower;
    forall name, value {
      CollectIn(t.attributes, row.id, name, value);
    }
  }

  lemma ShownRepresents(t: Tables, chosen: set<nat>, rows: seq<JoinRow>, e: Entry, row: EntryRow)
    requires AttributesClean(t) && JoinsChosen(t, chosen, rows)
    requires Shows(rows, e, row) && row in t.entries && row.id in chosen
    ensures Represents(t, row, e)
  {
    hide Lower, ValuesFor;
    forall a: AttrRow ensures JoinRow(row, Joined(a)) in rows <==> a in t.attributes && a.entryId == row.id {
      assert InLeftJoin(t.attributes, JoinRow(row, Joined(a))) <==> a in t.attributes && a.entryId == row.id;
    }
    assert forall a :: a in t.attributes ==> a.name != "" && Lower(a.name) == a.name;
  }

  lemma SameIdSameRow(t: Tables, a: EntryRow, b: EntryRow)
    requires IdsOrdered(t) && a in t.entries && b in t.entries && a.id == b.id
    ensures a == b
  {
    var i: int :| 0 <= i < |t.entries| && t.entries[i] == a;
    var j: int :| 0 <= j < |t.entries| && t.entries[j] == b;
  }

  /** However the rows of one entry are ordered or repeated, the scan lists the chosen entries. */
  lemma ScanLists(t: Tables, chosen: set<nat>, rows: seq<JoinRow>)
    requires IdsOrdered(t) && AttributesClean(t) && JoinsChosen(t, chosen, rows)
    requires forall id :: id in chosen ==> HasId(t.entries, id)
    ensures Lists(t, Scan(rows), chosen)
  {
    hide IdsOrdered, AttributesClean, Sorted, InLeftJoin;
    forall r, s | r in rows && s in rows && r.row.id == s.row.id ensures r.row == s.row {
      SameIdSameRow(t, r.row, s.row);
    }
    ScanIsScanned(rows);
    ScannedLists(t, chosen, rows, Scan(rows));
  }

  lemma ScannedLists(t: Tables, chosen: set<nat>, rows: seq<JoinRow>, entries: seq<Entry>)
    requires AttributesClean(t) && JoinsChosen(t, chosen, rows) && Scanned(rows, entries)
    requires forall id :: id in chosen ==> HasId(t.entries, id)
    ensures Lists(t, entries, chosen)
  {
    hide AttributesClean, Shows, Sorted, InLeftJoin, Represents, AllShown, AllCovered, JoinsChosen, ListsId;
    forall e | e in entries ensures e.id in chosen && exists row :: Represents(t, row, e) {
      var r := ScannedRow(t, chosen, rows, entries, e);
    }
    forall id | ListsId(entries, id) ensures id in chosen {
      ListedId(entries, id);
    }
    forall id | id in chosen ensures ListsId(entries, id) {
      ScannedCovers(t, chosen, rows, entries, id);
    }
  }

  lemma ListedId(entries: seq<Entry>, id: nat)
    requires ListsId(entries, id)
    ensures exists e :: e in entries && e.id == id
  {
  }

  lemma ScannedRow(t: Tables, chosen: set<nat>, rows: seq<JoinRow>, entries: seq<Entry>, e: Entry) returns (row: EntryRow)
    requires AttributesClean(t) && JoinsChosen(t, chosen, rows) && AllShown(rows, entries) && e in entries
    ensures Represents(t, row, e) && e.id in chosen
  {
    hide AttributesClean, Shows, Sorted, InLeftJoin, Represents;
    var r :| r in rows && Shows(rows, e, r.row);
    row := r.row;
    ShownId(rows, e, row);
    ShownRepresents(t, chosen, rows, e, row);
  }

  lemma ScannedCovers(t: Tables, chosen: set<nat>, rows: seq<JoinRow>, entries: seq<Entry>, id: nat)
    requires JoinsChosen(t, chosen, rows) && AllCovered(rows, entries) && id in chosen && HasId(t.entries, id)
    ensures ListsId(entries, id)
  {
    hide Sorted, InLeftJoin;
    var row :| row in t.entries && row.id == id;
    var r := JoinedSomehow(t, row);
    assert r in rows;
  }

  /** LEFT JOIN keeps every entry. */
  lemma JoinedSomehow(t: Tables, row: EntryRow) returns (r: JoinRow)
    ensures r.row == row && InLeftJoin(t.attributes, r)
  {
    if a :| a in t.attributes && a.entryId == row.id {
      r := JoinRow(row, Joined(a));
    } else {
      r := JoinRow(row, NoAttribute);
    }
  }

  // ---- Keeping what is in scope ----

  /** entryInSearchScope */
  predicate InSearchScope(scope: SearchScope, base: string, dn: string, parentDn: string) {
    match scope
    case BaseObject => Equal(dn, base)
    case SingleLevel => Equal(parentDn, base)
    case WholeSubtree => WithinBase(dn, base)
  }

  function ScopeTest(scope: SearchScope, base: string): Entry -> bool {
    (e: Entry) => InSearchScope(scope, base, e.dn, e.parentDn)
  }

  /** The entries that pass a test, in order. */
  function Keep(entries: seq<Entry>, test: Entry -> bool): (r: seq<Entry>)
    ensures |r| <= |entries|
    ensures forall e :: e in r <==> e in entries && test(e)
  {
    if entries == [] then []
    else
      var init, last := entries[..|entries| - 1], entries[|entries| - 1];
      assert entries == init + [last];
      Keep(init, test) + if test(last) then [last] else []
  }

  lemma KeepOneMore(entries: seq<Entry>, i: nat, test: Entry -> bool)
    requires i < |entries|
    ensures Keep(entries[..i + 1], test) == Keep(entries[..i], test) + if test(entries[i]) then [entries[i]] else []
  {
    assert entries[..i + 1][..i] == entries[..i];
  }

  /** filterEntriesByScope, writing the kept entries over the front of its own input. */
  method FilterEntriesByScope(entries: array<Entry>, base: string, scope: SearchScope) returns (kept: nat)
    modifies entries
    ensures kept <= entries.Length && entries[..kept] == Keep(old(entries[..]), ScopeTest(scope, base))
  {
    hide InSearchScope, Keep;
    kept := 0;
    ghost var all := entries[..];
    assert all[..0] == [] && Keep([], ScopeTest(scope, base)) == [];
    for i := 0 to entries.Length
      invariant kept <= i
      invariant forall k :: i <= k < entries.Length ==> entries[k] == all[k]
      invariant entries[..kept] == Keep(all[..i], ScopeTest(scope, base))
    {
      var entry := entries[i];
      KeepOneMore(all, i, ScopeTest(scope, base));
      ghost var before := entries[..kept];
      if InSearchScope(scope, base, entry.dn, entry.parentDn) {
        entries[kept] := entry;
        kept := kept + 1;
        assert entries[..kept] == before + [entry];
      }
    }
    assert all[..entries.Length] == all;
  }

  ghost predicate DistinctIds(entries: seq<Entry>) {
    forall i, j :: 0 <= i < j < |entries| ==> entries[i].id != entries[j].id
  }

  lemma {:induction false} KeepDistinct(entries: seq<Entry>, test: Entry -> bool)
    requires DistinctIds(entries)
    ensures DistinctIds(Keep(entries, test))
  {
    if entries != [] {
      var init, last := entries[..|entries| - 1], entries[|entries| - 1];
      KeepDistinct(init, test);
      forall e | e in Keep(init, test) ensures e.id != last.id {
        var k :| 0 <= k < |init| && init[k] == e;
        assert entries[k] == e;
      }
    }
  }

  /** The ids of the rows in scope. */
  function IdsInScope(t: Tables, scope: SearchScope, base: string): set<nat> {
    set row | row in t.entries && InSearchScope(scope, base, row.dn, row.parentDn) :: row.id
  }

  lemma InScopeLists(t: Tables, entries: seq<Entry>, chosen: set<nat>, scope: SearchScope, base: string)
    requires IdsOrdered(t) && Lists(t, entries, chosen)
    ensures Lists(t, Keep(entries, ScopeTest(scope, base)), chosen * IdsInScope(t, scope, base))
  {
    hide InSearchScope, Keep, IdsOrdered, DistinctIds;
    KeepDistinct(entries, ScopeTest(scope, base));
    forall e | e in entries ensures e.id in IdsInScope(t, scope, base) <==> InSearchScope(scope, base, e.dn, e.parentDn) {
      var row :| Represents(t, row, e);
      if other :| other in t.entries && InSearchScope(scope, base, other.dn, other.parentDn) && other.id == e.id {
        SameIdSameRow(t, row, other);
      }
    }
  }
}
