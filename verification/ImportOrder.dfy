/** Ordering an import batch: every entry after the batch entries it depends on. */
module ImportOrder {
  import opened Text
  import opened Dn
  import opened Tables

  function DnKey(dn: string): string {
    Lower(TrimSpace(dn))
  }

  /** A dependency outside the batch is no obstacle here. */
  predicate Settled(key: string, batch: set<string>, emitted: set<string>) {
    key in batch ==> key in emitted
  }

  /** dependenciesSatisfied */
  predicate Ready(e: Entry, batch: set<string>, emitted: set<string>) {
    && (DnKey(e.parentDn) == "" || Settled(DnKey(e.parentDn), batch, emitted))
    && (e.IsGroup() ==> forall m :: m in e.GetAttributes("member") ==> Settled(DnKey(m), batch, emitted))
  }

  function Keys(entries: seq<Entry>): set<string> {
    set e | e in entries :: DnKey(e.dn)
  }

  ghost predicate EachReady(p: seq<Entry>, batch: set<string>) {
    forall i :: 0 <= i < |p| ==> Ready(p[i], batch, Keys(p[..i]))
  }

  /** `p` puts the entries in an order in which each comes after everything in the batch it depends on. */
  ghost predicate IsOrder(entries: seq<Entry>, batch: set<string>, p: seq<Entry>) {
    multiset(p) == multiset(entries) && EachReady(p, batch)
  }

  datatype Ordered = Ordered(entries: seq<Entry>) | Cyclic

  // ---- Why a stuck pass means there is no order ----

  lemma ReadyMonotone(e: Entry, batch: set<string>, few: set<string>, more: set<string>)
    requires Ready(e, batch, few) && few <= more
    ensures Ready(e, batch, more)
  {
    hide DnKey, Entry.GetAttributes;
  }

  lemma KeysExtend(p: seq<Entry>, e: Entry)
    ensures Keys(p + [e]) == Keys(p) + {DnKey(e.dn)}
  {
    hide DnKey;
  }

  lemma OrderExtends(p: seq<Entry>, batch: set<string>, e: Entry)
    requires EachReady(p, batch) && Ready(e, batch, Keys(p))
    ensures EachReady(p + [e], batch)
  {
    hide Ready, Keys;
    forall i | 0 <= i < |p| + 1 ensures Ready((p + [e])[i], batch, Keys((p + [e])[..i])) {
      assert (p + [e])[..i] == p[..i];
      assert p[..|p|] == p;
    }
  }

  /** The first entry of an order that is still missing from `done`. */
  lemma {:induction false} FirstMissing(p: seq<Entry>, done: seq<Entry>, n: nat) returns (i: nat)
    requires n <= |p| && exists k :: 0 <= k < n && p[k] !in done
    ensures i < n && p[i] !in done && forall k :: 0 <= k < i ==> p[k] in done
  {
    if k :| 0 <= k < n - 1 && p[k] !in done {
      i := FirstMissing(p, done, n - 1);
    } else {
      i := n - 1;
    }
  }

  /** If nothing left over is ready, no order exists. */
  lemma StuckMeansNoOrder(entries: seq<Entry>, batch: set<string>, done: seq<Entry>, left: seq<Entry>, p: seq<Entry>)
    requires multiset(done) + multiset(left) == multiset(entries) && left != []
    requires forall e :: e in left ==> !Ready(e, batch, Keys(done))
    ensures !IsOrder(entries, batch, p)
  {
    hide Ready, DnKey;
    if IsOrder(entries, batch, p) {
      if forall k :: 0 <= k < |p| ==> p[k] in done {
        SomeLeftInOrder(entries, done, left, p);
        assert Ready(left[0], batch, Keys(done)) by {
          var k: nat :| k < |p| && p[k] == left[0];
          KeysOfPrefix(p, k, done);
          ReadyMonotone(p[k], batch, Keys(p[..k]), Keys(done));
        }
      } else {
        var i := FirstMissing(p, done, |p|);
        KeysOfPrefix(p, i, done);
        InLeft(entries, done, left, p, i);
        ReadyMonotone(p[i], batch, Keys(p[..i]), Keys(done));
      }
    }
  }

  lemma SomeLeftInOrder(entries: seq<Entry>, done: seq<Entry>, left: seq<Entry>, p: seq<Entry>)
    requires multiset(done) + multiset(left) == multiset(entries) && left != [] && multiset(p) == multiset(entries)
    ensures left[0] in p
  {
    assert left[0] in multiset(left);
    assert left[0] in multiset(p);
  }

  lemma InLeft(entries: seq<Entry>, done: seq<Entry>, left: seq<Entry>, p: seq<Entry>, i: nat)
    requires multiset(done) + multiset(left) == multiset(entries) == multiset(p) && i < |p| && p[i] !in done
    ensures p[i] in left
  {
    assert p[i] in multiset(p);
  }

  lemma KeysOfPrefix(p: seq<Entry>, i: nat, done: seq<Entry>)
    requires i <= |p| && forall k :: 0 <= k < i ==> p[k] in done
    ensures Keys(p[..i]) <= Keys(done)
  {
    hide DnKey;
  }

  // ---- The passes ----

  /** What has been emitted and what is left make up the batch. */
  ghost predicate Parts(entries: seq<Entry>, batch: set<string>, ordered: seq<Entry>, emitted: set<string>, left: multiset<Entry>) {
    multiset(ordered) + left == multiset(entries) && EachReady(ordered, batch) && emitted == Keys(ordered)
  }

  lemma PartsEmit(entries: seq<Entry>, batch: set<string>, ordered: seq<Entry>, emitted: set<string>, left: multiset<Entry>, e: Entry)
    requires Parts(entries, batch, ordered, emitted, multiset{e} + left) && Ready(e, batch, emitted)
    ensures Parts(entries, batch, ordered + [e], emitted + {DnKey(e.dn)}, left)
  {
    hide Ready, Keys, DnKey;
    OrderExtends(ordered, batch, e);
    KeysExtend(ordered, e);
  }

  /** In a pass: what stays, in front, and what is still to be looked at make up what is left. */
  ghost predicate Passing(entries: seq<Entry>, batch: set<string>, ordered: seq<Entry>, emitted: set<string>, front: seq<Entry>,
                          back: seq<Entry>)
  {
    Parts(entries, batch, ordered, emitted, multiset(front) + multiset(back))
  }

  lemma PassEmits(entries: seq<Entry>, batch: set<string>, ordered: seq<Entry>, emitted: set<string>, front: seq<Entry>,
                  before: seq<Entry>, i: nat)
    requires i < |before| && Passing(entries, batch, ordered, emitted, front, before[i..]) && Ready(before[i], batch, emitted)
    ensures Passing(entries, batch, ordered + [before[i]], emitted + {DnKey(before[i].dn)}, front, before[i + 1..])
  {
    hide Parts, Ready, DnKey;
    assert before[i..] == [before[i]] + before[i + 1..];
    assert multiset(front) + multiset(before[i..]) == multiset{before[i]} + (multiset(front) + multiset(before[i + 1..]));
    PartsEmit(entries, batch, ordered, emitted, multiset(front) + multiset(before[i + 1..]), before[i]);
  }

  lemma PassKeeps(entries: seq<Entry>, batch: set<string>, ordered: seq<Entry>, emitted: set<string>, front: seq<Entry>,
                  before: seq<Entry>, i: nat)
    requires i < |before| && Passing(entries, batch, ordered, emitted, front, before[i..])
    ensures Passing(entries, batch, ordered, emitted, front + [before[i]], before[i + 1..])
  {
    hide Parts;
    assert before[i..] == [before[i]] + before[i + 1..];
    assert multiset(front) + multiset(before[i..]) == multiset(front + [before[i]]) + multiset(before[i + 1..]);
  }

  lemma PassStarts(entries: seq<Entry>, batch: set<string>, ordered: seq<Entry>, emitted: set<string>, before: seq<Entry>)
    requires Parts(entries, batch, ordered, emitted, multiset(before))
    ensures Passing(entries, batch, ordered, emitted, [], before[0..])
  {
    hide Parts;
    assert before[0..] == before;
    assert multiset([]) + multiset(before) == multiset(before);
  }

  lemma PassEnds(entries: seq<Entry>, batch: set<string>, ordered: seq<Entry>, emitted: set<string>, front: seq<Entry>)
    requires Passing(entries, batch, ordered, emitted, front, [])
    ensures Parts(entries, batch, ordered, emitted, multiset(front))
  {
    hide Parts;
    assert multiset(front) + multiset([]) == multiset(front);
  }

  /** One pass: emits what is ready and writes the rest over the front of the buffer. */
  method Pass(remaining: array<Entry>, left: nat, batch: set<string>, ordered0: seq<Entry>, emitted0: set<string>,
              ghost entries: seq<Entry>)
      returns (kept: nat, ordered: seq<Entry>, emitted: set<string>, progress: bool)
    requires left <= remaining.Length && Parts(entries, batch, ordered0, emitted0, multiset(remaining[..left]))
    modifies remaining
    ensures kept <= left && Parts(entries, batch, ordered, emitted, multiset(remaining[..kept]))
    ensures progress ==> kept < left
    ensures !progress ==> kept == left && forall k :: 0 <= k < left ==> !Ready(remaining[k], batch, emitted)
  {
    hide Ready, Parts, Passing, DnKey;
    kept, ordered, emitted, progress := 0, ordered0, emitted0, false;
    ghost var before := remaining[..left];
    ghost var front: seq<Entry> := [];
    PassStarts(entries, batch, ordered, emitted, before);
    for i := 0 to left
      invariant kept <= i && (progress <==> kept < i)
      invariant |front| == kept && forall k :: 0 <= k < kept ==> remaining[k] == front[k]
      invariant forall k :: i <= k < left ==> remaining[k] == before[k]
      invariant Passing(entries, batch, ordered, emitted, front, before[i..])
      invariant !progress ==> forall k :: 0 <= k < kept ==> !Ready(front[k], batch, emitted)
    {
      var e := remaining[i];
      if Ready(e, batch, emitted) {
        PassEmits(entries, batch, ordered, emitted, front, before, i);
        ordered := ordered + [e];
        emitted := emitted + {DnKey(e.dn)};
        progress := true;
        continue;
      }
      PassKeeps(entries, batch, ordered, emitted, front, before, i);
      remaining[kept] := e;
      kept := kept + 1;
      front := front + [e];
    }
    assert before[left..] == [];
    PassEnds(entries, batch, ordered, emitted, front);
    assert remaining[..kept] == front;
  }

  /**
   orderEntries: it succeeds if and only if the batch has an order, and then returns one.
   */
  method OrderEntries(entries: seq<Entry>, batch: set<string>) returns (r: Ordered)
    ensures r.Ordered? ==> IsOrder(entries, batch, r.entries)
    ensures r.Cyclic? ==> forall p :: !IsOrder(entries, batch, p)
  {
    hide Ready, Keys, DnKey;
    var ordered: seq<Entry> := [];
    var emitted: set<string> := {};
    var remaining := new Entry[|entries|](i requires 0 <= i < |entries| => entries[i]);
    var left: nat := |entries|;
    assert remaining[..left] == entries;
    NothingOrdered(batch);
    while left > 0
      invariant left <= remaining.Length && Parts(entries, batch, ordered, emitted, multiset(remaining[..left]))
      decreases left
    {
      var kept, progress;
      kept, ordered, emitted, progress := Pass(remaining, left, batch, ordered, emitted, entries);
      if !progress {
        forall p ensures !IsOrder(entries, batch, p) {
          StuckMeansNoOrder(entries, batch, ordered, remaining[..left], p);
        }
        return Cyclic;
      }
      left := kept;
    }
    assert remaining[..left] == [];
    return Ordered(ordered);
  }

  lemma NothingOrdered(batch: set<string>)
    ensures EachReady([], batch) && Keys([]) == {}
  {
  }

  // ---- Batches with distinct keys ----

  ghost predicate DistinctKeys(entries: seq<Entry>) {
    forall i, j :: 0 <= i < j < |entries| ==> DnKey(entries[i].dn) != DnKey(entries[j].dn)
  }

  lemma {:induction false} DistinctOnce(s: seq<Entry>, e: Entry)
    requires DistinctKeys(s)
    ensures multiset(s)[e] <= 1
  {
    hide DnKey;
    if s != [] {
      var init, last := s[..|s| - 1], s[|s| - 1];
      assert s == init + [last];
      DistinctOnce(init, e);
    }
  }

  lemma RepeatedTwice(s: seq<Entry>, i: nat, j: nat)
    requires i < j < |s| && s[i] == s[j]
    ensures multiset(s)[s[i]] >= 2
  {
    assert s == s[..j] + [s[j]] + s[j + 1..];
    assert s[i] in s[..j];
  }

  /** Reordering a batch keeps its keys distinct. */
  lemma PermutationDistinct(s: seq<Entry>, p: seq<Entry>)
    requires DistinctKeys(s) && multiset(p) == multiset(s)
    ensures DistinctKeys(p)
  {
    hide DnKey;
    forall i, j | 0 <= i < j < |p| ensures DnKey(p[i].dn) != DnKey(p[j].dn) {
      if p[i] == p[j] {
        RepeatedTwice(p, i, j);
        DistinctOnce(s, p[i]);
      } else {
        assert p[i] in multiset(p) && p[j] in multiset(p);
        var k: int :| 0 <= k < |s| && s[k] == p[i];
        var l: int :| 0 <= l < |s| && s[l] == p[j];
        assert k < l || l < k;
      }
    }
  }

  /** `e` must wait for the batch entry with this key. */
  predicate DependsOn(e: Entry, batch: set<string>, key: string) {
    key in batch && ((key != "" && key == DnKey(e.parentDn)) || (e.IsGroup() && exists m :: m in e.GetAttributes("member") && DnKey(m) == key))
  }

  /** The place after `i` in a circle of `k`. */
  function After(i: nat, k: nat): nat {
    if i + 1 == k then 0 else i + 1
  }

  /** Entries of the batch each of which waits for the next one, and the last for the first. */
  ghost predicate IsCycle(entries: seq<Entry>, batch: set<string>, c: seq<Entry>) {
    c != [] && forall i :: 0 <= i < |c| ==> c[i] in entries && DependsOn(c[i], batch, DnKey(c[After(i, |c|)].dn))
  }

  /** Going round the cycle goes back in the order. */
  lemma {:induction false} GoesBack(entries: seq<Entry>, batch: set<string>, c: seq<Entry>, p: seq<Entry>, start: nat, n: nat)
      returns (at: nat, i: nat)
    requires IsCycle(entries, batch, c) && EachReady(p, batch) && DistinctKeys(p) && (forall e :: e in entries ==> e in p)
    requires start < |p| && p[start] == c[0]
    ensures at + n <= start && i < |c| && p[at] == c[i]
  {
    hide DnKey, DependsOn, EachReady, DistinctKeys;
    if n == 0 {
      at, i := start, 0;
    } else {
      var before, j := GoesBack(entries, batch, c, p, start, n - 1);
      i := After(j, |c|);
      assert c[i] in entries;
      at :| 0 <= at < |p| && p[at] == c[i];
      assert DependsOn(c[j], batch, DnKey(c[i].dn));
      Earlier(p, batch, before, at);
    }
  }

  /** A cycle of any length, a group that is its own member included, rules out every order. */
  lemma CyclesHaveNoOrder(entries: seq<Entry>, batch: set<string>, c: seq<Entry>, p: seq<Entry>)
    requires DistinctKeys(entries) && IsCycle(entries, batch, c)
    ensures !IsOrder(entries, batch, p)
  {
    hide DnKey, DependsOn, EachReady;
    if IsOrder(entries, batch, p) {
      PermutationDistinct(entries, p);
      forall e | e in entries ensures e in p {
        assert e in multiset(entries);
        assert e in multiset(p);
      }
      var start: int :| 0 <= start < |p| && p[start] == c[0];
      var at, i := GoesBack(entries, batch, c, p, start, start + 1);
    }
  }

  lemma Earlier(p: seq<Entry>, batch: set<string>, i: nat, j: nat)
    requires EachReady(p, batch) && DistinctKeys(p) && i < |p| && j < |p| && DependsOn(p[i], batch, DnKey(p[j].dn))
    ensures j < i
  {
    hide DnKey, Entry.GetAttributes;
    assert Ready(p[i], batch, Keys(p[..i]));
    var e :| e in p[..i] && DnKey(e.dn) == DnKey(p[j].dn);
    var k: int :| 0 <= k < i && p[k] == e;
    assert k == j;
  }

  // ---- If there is no order there is a cycle ----

  /** What an entry that is not ready waits for. */
  lemma WaitsFor(e: Entry, batch: set<string>, emitted: set<string>) returns (key: string)
    requires !Ready(e, batch, emitted)
    ensures DependsOn(e, batch, key) && key !in emitted
  {
    hide DnKey, Entry.GetAttributes;
    if DnKey(e.parentDn) != "" && !Settled(DnKey(e.parentDn), batch, emitted) {
      key := DnKey(e.parentDn);
    } else {
      var m :| m in e.GetAttributes("member") && !Settled(DnKey(m), batch, emitted);
      key := DnKey(m);
    }
  }

  /** In a stuck pass every entry left over waits for another one left over. */
  lemma NextLeft(entries: seq<Entry>, batch: set<string>, done: seq<Entry>, left: seq<Entry>, e: Entry) returns (next: Entry)
    requires batch == Keys(entries) && multiset(done) + multiset(left) == multiset(entries)
    requires e in left && !Ready(e, batch, Keys(done))
    ensures next in left && next in entries && DependsOn(e, batch, DnKey(next.dn))
  {
    hide DnKey, Ready, DependsOn;
    var key := WaitsFor(e, batch, Keys(done));
    assert key in batch by { DependsInBatch(e, batch, key); }
    next :| next in entries && DnKey(next.dn) == key;
    assert next in multiset(entries);
  }

  lemma DependsInBatch(e: Entry, batch: set<string>, key: string)
    requires DependsOn(e, batch, key)
    ensures key in batch
  {
  }

  predicate NoTwice(s: seq<Entry>) {
    forall i, j :: 0 <= i < j < |s| ==> s[i] != s[j]
  }

  /** A walk that repeats nothing is no longer than what it walks in. */
  lemma {:induction false} WalkIsShort(walk: seq<Entry>, left: seq<Entry>)
    requires NoTwice(walk) && forall e :: e in walk ==> e in left
    ensures |walk| <= |left|
  {
    if walk != [] {
      var init, last := walk[..|walk| - 1], walk[|walk| - 1];
      assert walk == init + [last];
      assert last in walk;
      var k: int :| 0 <= k < |left| && left[k] == last;
      var rest := left[..k] + left[k + 1..];
      assert left == left[..k] + [last] + left[k + 1..];
      forall e | e in init ensures e in rest {
        assert e in left && e != last;
      }
      WalkIsShort(init, rest);
    }
  }

  lemma WalkCloses(entries: seq<Entry>, batch: set<string>, walk: seq<Entry>, j: nat)
    requires j < |walk| && forall e :: e in walk ==> e in entries
    requires forall i :: 0 <= i < |walk| - 1 ==> DependsOn(walk[i], batch, DnKey(walk[i + 1].dn))
    requires DependsOn(walk[|walk| - 1], batch, DnKey(walk[j].dn))
    ensures IsCycle(entries, batch, walk[j..])
  {
    hide DnKey, DependsOn;
    var c := walk[j..];
    forall i | 0 <= i < |c| ensures c[i] in entries && DependsOn(c[i], batch, DnKey(c[After(i, |c|)].dn)) {
      assert c[i] == walk[j + i];
      if i < |c| - 1 {
        assert c[i + 1] == walk[j + i + 1];
      }
    }
  }

  lemma WalkGrows(batch: set<string>, walk: seq<Entry>, next: Entry)
    requires walk != [] && NoTwice(walk) && next !in walk
    requires forall i :: 0 <= i < |walk| - 1 ==> DependsOn(walk[i], batch, DnKey(walk[i + 1].dn))
    requires DependsOn(walk[|walk| - 1], batch, DnKey(next.dn))
    ensures NoTwice(walk + [next])
    ensures var more := walk + [next]; forall i :: 0 <= i < |more| - 1 ==> DependsOn(more[i], batch, DnKey(more[i + 1].dn))
  {
    hide DnKey, DependsOn;
    var more := walk + [next];
    forall i | 0 <= i < |more| - 1 ensures DependsOn(more[i], batch, DnKey(more[i + 1].dn)) {
      assert more[i] == walk[i];
    }
  }

  /** Following what each waits for, the walk comes back to where it was. */
  lemma {:induction false} WalkToCycle(entries: seq<Entry>, batch: set<string>, done: seq<Entry>, left: seq<Entry>, walk: seq<Entry>)
      returns (c: seq<Entry>)
    requires batch == Keys(entries) && multiset(done) + multiset(left) == multiset(entries)
    requires forall e :: e in left ==> !Ready(e, batch, Keys(done))
    requires walk != [] && NoTwice(walk) && forall e :: e in walk ==> e in left && e in entries
    requires forall i :: 0 <= i < |walk| - 1 ==> DependsOn(walk[i], batch, DnKey(walk[i + 1].dn))
    ensures IsCycle(entries, batch, c)
    decreases |left| - |walk|
  {
    hide DnKey, Ready, DependsOn, Keys, IsCycle;
    var last := walk[|walk| - 1];
    var next := NextLeft(entries, batch, done, left, last);
    if j: int :| 0 <= j < |walk| && walk[j] == next {
      c := walk[j..];
      WalkCloses(entries, batch, walk, j);
    } else {
      var more := walk + [next];
      WalkGrows(batch, walk, next);
      WalkIsShort(more, left);
      c := WalkToCycle(entries, batch, done, left, more);
    }
  }

  lemma {:induction false} OrderOrCycle(entries: seq<Entry>, batch: set<string>, done: seq<Entry>, left: seq<Entry>)
    requires batch == Keys(entries) && Parts(entries, batch, done, Keys(done), multiset(left))
    ensures (exists p :: IsOrder(entries, batch, p)) || exists c :: IsCycle(entries, batch, c)
    decreases |left|
  {
    hide DnKey, Ready, IsCycle, EachReady, Keys;
    if left == [] {
      assert IsOrder(entries, batch, done);
    } else if i: int :| 0 <= i < |left| && Ready(left[i], batch, Keys(done)) {
      var rest := left[..i] + left[i + 1..];
      assert left == left[..i] + [left[i]] + left[i + 1..];
      assert multiset(left) == multiset{left[i]} + multiset(rest);
      PartsEmit(entries, batch, done, Keys(done), multiset(rest), left[i]);
      OrderOrCycle(entries, batch, done + [left[i]], rest);
    } else {
      var e := left[0];
      assert e in multiset(left) && e in multiset(entries);
      var c := WalkToCycle(entries, batch, done, left, [e]);
    }
  }

  /** A batch can be ordered if and only if nothing in it waits, in a circle, for itself. */
  lemma OrderExistsExact(entries: seq<Entry>, batch: set<string>)
    requires DistinctKeys(entries) && batch == Keys(entries)
    ensures (exists p :: IsOrder(entries, batch, p)) <==> !exists c :: IsCycle(entries, batch, c)
  {
    hide IsOrder, IsCycle, Keys, DistinctKeys;
    if c :| IsCycle(entries, batch, c) {
      forall p ensures !IsOrder(entries, batch, p) {
        CyclesHaveNoOrder(entries, batch, c, p);
      }
    } else {
      NothingOrdered(batch);
      NothingParts(entries, batch);
      OrderOrCycle(entries, batch, [], entries);
    }
  }

  lemma NothingParts(entries: seq<Entry>, batch: set<string>)
    ensures Parts(entries, batch, [], Keys([]), multiset(entries))
  {
    assert multiset([]) + multiset(entries) == multiset(entries);
  }

  /** Two DNs have one key if and only if they are equal up to case and outer space. */
  lemma DnKeyExact(a: string, b: string)
    ensures DnKey(a) == DnKey(b) <==> Equal(a, b)
  {
    hide TrimSpace, Lower;
  }
}
