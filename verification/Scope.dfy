/** Search scope: the recursive query over parent pointers against the ancestry of DN texts. */
module Scope {
  import opened Text
  import opened Dn
  import opened Tables
  import opened DirectoryInvariant

  /** The depth bound of the subtree query. */
  const MAX_LEVEL := 100

  /** `row` is emitted at depth `n` of the subtree query that starts at the entry named `base`. */
  predicate InLevel(entries: seq<EntryRow>, base: string, n: nat, row: EntryRow)
    decreases n
  {
    if n == 0 then EqualFold(row.dn, base)
    else exists s :: s in entries && InLevel(entries, base, n - 1, s) && EqualFold(row.parentDn, s.dn)
  }

  /** WITH RECURSIVE subtree */
  predicate InSubtree(entries: seq<EntryRow>, base: string, row: EntryRow) {
    exists n :: 0 <= n <= MAX_LEVEL && InLevel(entries, base, n, row)
  }

  /** DNs are stored without outer white space. */
  ghost predicate DnsTrimmed(t: Tables) {
    forall e :: e in t.entries ==> Trimmed(e.dn)
  }

  /** `base` lies strictly above the directory's own base DN. */
  predicate AboveDirectory(base: string, directoryBase: string) {
    WithinBase(directoryBase, base) && !Equal(directoryBase, base)
  }

  lemma {:induction false} ParentNFold(a: string, b: string, n: nat)
    requires EqualFold(a, b)
    ensures EqualFold(ParentN(a, n), ParentN(b, n))
    decreases n
  {
    hide Parent, Lower;
    if n > 0 {
      ParentLower(a);
      ParentLower(b);
      ParentNFold(Parent(a), Parent(b), n - 1);
    }
  }

  lemma PlacedDnNotEmpty(t: Tables, base: string, row: EntryRow)
    requires Placed(t, base) && row in t.entries
    ensures RowPlaced(t.entries, base, row) && row.dn != "" && !EqualFold(row.dn, "")
  {
    hide WithinBase;
    var i :| 0 <= i < |t.entries| && t.entries[i] == row;
    assert RowPlaced(t.entries, base, row);
    NotWithinIfEmpty(row.dn, TrimSpace(base));
    assert |Lower(row.dn)| == |row.dn| && |Lower("")| == 0;
  }

  lemma NotWithinIfEmpty(dn: string, base: string)
    requires WithinBase(dn, base)
    ensures dn != ""
  {
    assert TrimSpace("") == "" && Parent("") == "";
    assert |Lower(TrimSpace(base))| == |TrimSpace(base)| && |Lower("")| == 0;
  }

  /** A row at depth n of the query has the base as its n-th parent. */
  lemma {:induction false} LevelHasParent(t: Tables, directoryBase: string, base: string, n: nat, row: EntryRow)
    requires Placed(t, directoryBase) && row in t.entries && InLevel(t.entries, base, n, row)
    ensures EqualFold(ParentN(row.dn, n), base)
    decreases n
  {
    hide Parent, Lower, WithinBase, Equal, Placed, RowPlaced;
    if n > 0 {
      var s :| s in t.entries && InLevel(t.entries, base, n - 1, s) && EqualFold(row.parentDn, s.dn);
      PlacedDnNotEmpty(t, directoryBase, s);
      PlacedParent(t, directoryBase, row, s);
      LevelHasParent(t, directoryBase, base, n - 1, s);
      ParentNFold(Parent(row.dn), s.dn, n - 1);
    }
  }

  lemma PlacedParent(t: Tables, directoryBase: string, row: EntryRow, s: EntryRow)
    requires Placed(t, directoryBase) && row in t.entries && EqualFold(row.parentDn, s.dn) && !EqualFold(s.dn, "")
    ensures row.parentDn == Parent(row.dn)
  {
    hide Parent, WithinBase, Equal;
    var i :| 0 <= i < |t.entries| && t.entries[i] == row;
    assert RowPlaced(t.entries, directoryBase, row);
  }

  /** A row whose n-th parent is the base is emitted at depth n, when the base is not above the directory. */
  lemma {:induction false} ParentIsLevel(t: Tables, directoryBase: string, base: string, n: nat, row: EntryRow)
    requires Placed(t, directoryBase) && DnsTrimmed(t) && row in t.entries
    requires Trimmed(base) && base != "" && !AboveDirectory(base, directoryBase)
    requires EqualFold(ParentN(row.dn, n), base)
    ensures InLevel(t.entries, base, n, row)
    decreases n
  {
    hide Parent, Lower, WithinBase, Equal, Placed, AboveDirectory;
    if n > 0 {
      PlacedDnNotEmpty(t, directoryBase, row);
      if Equal(row.dn, TrimSpace(directoryBase)) {
        BaseRowHasNoAncestor(directoryBase, base, row.dn, n);
      }
      var s :| s in t.entries && EqualFold(s.dn, row.parentDn);
      ParentNFold(row.parentDn, s.dn, n - 1);
      ParentIsLevel(t, directoryBase, base, n - 1, s);
    }
  }

  lemma BaseRowHasNoAncestor(directoryBase: string, base: string, dn: string, n: nat)
    requires Equal(dn, TrimSpace(directoryBase)) && Trimmed(dn) && Trimmed(base) && base != "" && n > 0
    requires EqualFold(ParentN(dn, n), base)
    ensures dn == "" || AboveDirectory(base, directoryBase)
  {
    hide Parent, Lower, TrimSpace, Trimmed, AncestorOrSelf, ParentN;
    var d := TrimSpace(directoryBase);
    ParentNFold(dn, d, n);
    ParentNIsAncestor(d, base, n);
    if EqualFold(d, base) && dn != "" {
      ProperAncestorDiffers(d, base, n);
    }
  }

  /** No DN is its own n-th parent. */
  lemma {:induction false} ParentNShorter(dn: string, n: nat)
    requires n > 0
    ensures dn == "" || |ParentN(dn, n)| < |dn|
    decreases n
  {
    hide Parent;
    if n > 1 {
      ParentNShorter(Parent(dn), n - 1);
      if Parent(dn) == "" {
        ParentNOfEmpty(n - 1);
      }
    } else {
      assert ParentN(dn, 1) == ParentN(Parent(dn), 0) == Parent(dn);
    }
  }

  lemma ProperAncestorDiffers(dn: string, base: string, n: nat)
    requires n > 0 && EqualFold(ParentN(dn, n), base) && EqualFold(dn, base)
    ensures dn == ""
  {
    hide Parent;
    ParentNShorter(dn, n);
    assert |Lower(dn)| == |dn| && |Lower(ParentN(dn, n))| == |ParentN(dn, n)|;
  }

  /** The subtree query finds exactly the rows that have the base among their first 100 parents. */
  lemma SubtreeExact(t: Tables, directoryBase: string, base: string, row: EntryRow)
    requires Placed(t, directoryBase) && DnsTrimmed(t) && row in t.entries
    requires Trimmed(base) && base != "" && !AboveDirectory(base, directoryBase)
    ensures InSubtree(t.entries, base, row) <==> exists n: nat :: n <= 100 && EqualFold(ParentN(row.dn, n), base)
  {
    hide InLevel, ParentN, AboveDirectory, Placed, Lower;
    if n :| 0 <= n <= MAX_LEVEL && InLevel(t.entries, base, n, row) {
      LevelHasParent(t, directoryBase, base, n, row);
    }
    if n: nat :| n <= MAX_LEVEL && EqualFold(ParentN(row.dn, n), base) {
      ParentIsLevel(t, directoryBase, base, n, row);
    }
  }

  /** `row` lies at most 100 levels below `base`, if it is below it at all. */
  ghost predicate WithinReach(row: EntryRow, base: string) {
    base != "" ==> forall n: nat :: EqualFold(ParentN(row.dn, n), base) ==> n <= MAX_LEVEL
  }

  /** Within reach, following parent pointers and comparing DN texts select the same entries. */
  lemma SubtreeAgrees(t: Tables, directoryBase: string, base: string, row: EntryRow)
    requires Placed(t, directoryBase) && DnsTrimmed(t) && row in t.entries && WithinReach(row, base)
    requires Trimmed(base) && !AboveDirectory(base, directoryBase)
    ensures InSubtree(t.entries, base, row) <==> WithinBase(row.dn, base)
  {
    hide InLevel, AboveDirectory, Placed, Lower, AncestorOrSelf;
    if base == "" {
      EmptyBaseFindsNothing(t, directoryBase, row);
    } else {
      SubtreeExact(t, directoryBase, base, row);
      if WithinBase(row.dn, base) {
        var n := AncestorIsParentN(row.dn, base);
      }
      if n: nat :| n <= MAX_LEVEL && EqualFold(ParentN(row.dn, n), base) {
        ParentNIsAncestor(row.dn, base, n);
      }
    }
  }

  lemma EmptyBaseFindsNothing(t: Tables, directoryBase: string, row: EntryRow)
    requires Placed(t, directoryBase) && row in t.entries
    ensures !InSubtree(t.entries, "", row) && !WithinBase(row.dn, "")
  {
    hide Placed, Lower;
    forall n: nat ensures !InLevel(t.entries, "", n, row) {
      EmptyBaseLevel(t, directoryBase, n, row);
    }
  }

  lemma {:induction false} EmptyBaseLevel(t: Tables, directoryBase: string, n: nat, row: EntryRow)
    requires Placed(t, directoryBase) && row in t.entries
    ensures !InLevel(t.entries, "", n, row)
    decreases n
  {
    hide Placed, RowPlaced;
    if n == 0 {
      PlacedDnNotEmpty(t, directoryBase, row);
    } else {
      forall s | s in t.entries ensures !InLevel(t.entries, "", n - 1, s) {
        EmptyBaseLevel(t, directoryBase, n - 1, s);
      }
    }
  }

  /**
   The two scope tests agree on the whole directory if and only if the search base is not above the directory's
   base: above it, the DN texts say yes for every entry and the query, which has no row to start from, finds none.
   */
  lemma ScopesAgreeUnlessAbove(t: Tables, directoryBase: string, base: string, root: EntryRow)
    requires Placed(t, directoryBase) && DnsTrimmed(t) && Trimmed(base)
    requires root in t.entries && Equal(root.dn, directoryBase)
    requires forall e :: e in t.entries ==> WithinReach(e, base)
    ensures (forall e :: e in t.entries ==> (InSubtree(t.entries, base, e) <==> WithinBase(e.dn, base)))
      <==> !AboveDirectory(base, directoryBase)
  {
    hide InSubtree, WithinReach, Placed, WithinBase;
    if AboveDirectory(base, directoryBase) {
      RootOutsideSubtree(t, directoryBase, base, root);
    } else {
      forall e | e in t.entries ensures InSubtree(t.entries, base, e) <==> WithinBase(e.dn, base) {
        SubtreeAgrees(t, directoryBase, base, e);
      }
    }
  }

  lemma RootOutsideSubtree(t: Tables, directoryBase: string, base: string, root: EntryRow)
    requires Placed(t, directoryBase) && Trimmed(base) && AboveDirectory(base, directoryBase)
    requires root in t.entries && Equal(root.dn, directoryBase) && Trimmed(root.dn)
    ensures WithinBase(root.dn, base) && !InSubtree(t.entries, base, root)
  {
    hide Lower, AncestorOrSelf, InLevel, Placed, RowPlaced;
    AncestorOrSelfFold(root.dn, TrimSpace(directoryBase), base);
    assert Equal(root.dn, TrimSpace(directoryBase));
    forall n: nat ensures !InLevel(t.entries, base, n, root) {
      RootLevel(t, directoryBase, base, root, n);
    }
  }

  lemma RootLevel(t: Tables, directoryBase: string, base: string, root: EntryRow, n: nat)
    requires Placed(t, directoryBase) && Trimmed(base) && !Equal(directoryBase, base)
    requires root in t.entries && Equal(root.dn, TrimSpace(directoryBase)) && Trimmed(root.dn)
    ensures !InLevel(t.entries, base, n, root)
  {
    hide Lower, Placed, WithinBase;
    PlacedDnNotEmpty(t, directoryBase, root);
    if n > 0 {
      forall s | s in t.entries ensures !EqualFold(root.parentDn, s.dn) {
        PlacedDnNotEmpty(t, directoryBase, s);
      }
    }
  }
}
