/** Nested group membership: the three recursive queries over group_members. */
module Membership {
  import opened Text
  import opened Tables
  import opened Recursion

  // ---- The two directions of the membership graph ----

  /** The groups a member row puts `m` in. */
  function GroupsOf(members: seq<MemberRow>, m: nat): (r: seq<nat>)
    ensures forall g :: g in r <==> MemberRow(g, m) in members
  {
    if members == [] then []
    else
      var init, last := members[..|members| - 1], members[|members| - 1];
      assert members == init + [last];
      GroupsOf(init, m) + (if last.member == m then [last.group] else [])
  }

  function MembersOf(members: seq<MemberRow>, g: nat): (r: seq<nat>)
    ensures forall m :: m in r <==> MemberRow(g, m) in members
  {
    if members == [] then []
    else
      var init, last := members[..|members| - 1], members[|members| - 1];
      assert members == init + [last];
      MembersOf(init, g) + (if last.group == g then [last.member] else [])
  }

  /** From a member to the groups that contain it. */
  function Up(t: Tables): Graph {
    n => GroupsOf(t.members, n)
  }

  predicate HasRow(entries: seq<EntryRow>, id: nat) {
    exists e :: e in entries && e.id == id
  }

  function Among(entries: seq<EntryRow>, ids: seq<nat>): (r: seq<nat>)
    ensures forall id :: id in r <==> id in ids && HasRow(entries, id)
  {
    if ids == [] then []
    else
      var init, last := ids[..|ids| - 1], ids[|ids| - 1];
      assert ids == init + [last];
      Among(entries, init) + (if HasRow(entries, last) then [last] else [])
  }

  /** As Up, joined with the entries at every step. */
  function Listed(t: Tables): Graph {
    n => Among(t.entries, GroupsOf(t.members, n))
  }

  predicate IsGroupRow(entries: seq<EntryRow>, id: nat) {
    exists e :: e in entries && e.id == id && e.objectClass == GROUP_OF_NAMES
  }

  /** From a group to its members; only groupOfNames entries are expanded. */
  function Down(t: Tables): Graph {
    n => if IsGroupRow(t.entries, n) then MembersOf(t.members, n) else []
  }

  /** The base member of a query: one row for every neighbour of every origin. */
  function SeedsFrom(next: Graph, origins: seq<nat>): (seeds: seq<Row>)
    ensures AreSeeds(seeds)
    ensures forall s :: s in seeds ==> s.origin in origins
  {
    if origins == [] then []
    else SeedsOver(origins[0], next(origins[0])) + SeedsFrom(next, origins[1..])
  }

  function SeedsOver(origin: nat, targets: seq<nat>): (seeds: seq<Row>)
    ensures |seeds| == |targets| && forall i :: 0 <= i < |targets| ==> seeds[i] == Seed(origin, targets[i])
  {
    seq(|targets|, i requires 0 <= i < |targets| => Seed(origin, targets[i]))
  }

  lemma {:induction false} SeedsFromIn(next: Graph, origins: seq<nat>, origin: nat, v: nat)
    ensures Seed(origin, v) in SeedsFrom(next, origins) <==> origin in origins && v in next(origin)
  {
    hide Delimited, Decimal;
    if origins != [] {
      var o := origins[0];
      SeedsFromIn(next, origins[1..], origin, v);
      var seeds := SeedsOver(o, next(o));
      assert Seed(origin, v) in seeds <==> origin == o && v in next(o) by {
        if origin == o && v in next(o) {
          var i :| 0 <= i < |next(o)| && next(o)[i] == v;
          assert seeds[i] == Seed(o, v);
        }
      }
      assert origins == [o] + origins[1..];
    }
  }

  lemma SeedsFromOf(next: Graph, origins: seq<nat>, origin: nat)
    requires origin in origins
    ensures SeedsOf(next, SeedsFrom(next, origins), origin)
  {
    forall v: nat ensures Seed(origin, v) in SeedsFrom(next, origins) <==> v in next(origin) {
      SeedsFromIn(next, origins, origin, v);
    }
  }

  /** The ids of the entries with a DN. */
  function IdsWithDn(entries: seq<EntryRow>, dn: string): (ids: seq<nat>)
    ensures forall id :: id in ids <==> exists e :: e in entries && EqualFold(e.dn, dn) && e.id == id
  {
    if entries == [] then []
    else
      var init, last := entries[..|entries| - 1], entries[|entries| - 1];
      assert entries == init + [last];
      IdsWithDn(init, dn) + (if EqualFold(last.dn, dn) then [last.id] else [])
  }

  /** The rows of a run of a query are those of the bounded reachable nodes. */
  lemma RunReaches(next: Graph, origins: seq<nat>, rows: seq<Row>, origin: nat, node: nat)
    requires forall r :: r in rows <==> IsPathRow(next, SeedsFrom(next, origins), r)
    ensures (exists r :: r in rows && r.origin == origin && r.node == node) <==> origin in origins && Reaches(next, origin, node)
  {
    hide IsPathRow, Reaches;
    if origin in origins {
      SeedsFromOf(next, origins, origin);
      FindsExactlyReachable(next, SeedsFrom(next, origins), rows, origin, node);
    } else if r :| r in rows && r.origin == origin && r.node == node {
      PathRowOrigin(next, next, origins, r);
    }
  }

  lemma PathRowOrigin(next: Graph, base: Graph, origins: seq<nat>, r: Row)
    requires IsPathRow(next, SeedsFrom(base, origins), r)
    ensures r.origin in origins
  {
  }

  /** A chain of 1 to 101 memberships leads from an entry named `userDn` up to an entry named `groupDn`. */
  ghost predicate IsMember(t: Tables, userDn: string, groupDn: string) {
    exists u, g :: u in IdsWithDn(t.entries, userDn) && g in IdsWithDn(t.entries, groupDn) && Reaches(Up(t), u, g)
  }

  /** IsUserInGroup is exact on every graph, cyclic or not. */
  method IsUserInGroup(t: Tables, userDn: string, groupDn: string) returns (isMember: bool)
    ensures isMember <==> IsMember(t, userDn, groupDn)
  {
    hide IsPathRow, Reaches, Up;
    var next := Up(t);
    var users, groups := IdsWithDn(t.entries, userDn), IdsWithDn(t.entries, groupDn);
    var rows := RunRecursive(next, SeedsFrom(next, users));
    isMember := exists r :: r in rows && r.node in groups;
    forall u, g ensures (exists r :: r in rows && r.origin == u && r.node == g) <==> u in users && Reaches(next, u, g) {
      RunReaches(next, users, rows, u, g);
    }
    if r :| r in rows && r.node in groups {
      assert r.origin in users && Reaches(next, r.origin, r.node);
    }
    if IsMember(t, userDn, groupDn) {
      var u, g :| u in users && g in groups && Reaches(next, u, g);
      var r :| r in rows && r.origin == u && r.node == g;
    }
  }

  // ---- memberOf ----

  /** `dns` lists, without repetition, the DNs of the groups an entry is nested in. */
  ghost predicate IsMemberOfList(t: Tables, id: nat, dns: seq<string>) {
    && (forall i, j :: 0 <= i < j < |dns| ==> dns[i] != dns[j])
    && forall d :: d in dns <==> exists g :: g in t.entries && g.dn == d && Reaches(Listed(t), id, g.id)
  }

  predicate WantsMemberOf(e: Entry) {
    e.IsUser() && e.id > 0
  }

  function WithMemberOf(e: Entry, dns: seq<string>): Entry {
    if dns == [] then e else e.(computed := e.computed["memberof" := dns])
  }

  /** What populateMemberOf does to one entry. */
  ghost predicate Populated(t: Tables, before: Entry, after: Entry) {
    exists dns :: IsMemberOfList(t, before.id, dns) && after == if WantsMemberOf(before) then WithMemberOf(before, dns) else before
  }

  /** A later user with the same id takes the place of this one in the map by id. */
  predicate Shadowed(entries: seq<Entry>, i: nat)
    requires i < |entries|
  {
    exists j :: i < j < |entries| && WantsMemberOf(entries[j]) && entries[j].id == entries[i].id
  }

  /** SELECT DISTINCT user_id, group_dn: the DNs for one user. */
  method GroupDnsFor(t: Tables, rows: seq<Row>, id: nat, ghost users: seq<nat>) returns (dns: seq<string>)
    requires id in users
    requires forall r :: r in rows <==> IsPathRow(Listed(t), SeedsFrom(Listed(t), users), r)
    ensures IsMemberOfList(t, id, dns)
  {
    hide IsPathRow, Reaches, Listed, SeedsFrom;
    dns := [];
    for i := 0 to |t.entries|
      invariant forall i, j :: 0 <= i < j < |dns| ==> dns[i] != dns[j]
      invariant forall d :: d in dns <==> exists g :: g in t.entries[..i] && g.dn == d && Reaches(Listed(t), id, g.id)
    {
      var g := t.entries[i];
      assert t.entries[..i + 1] == t.entries[..i] + [g];
      RunReaches(Listed(t), users, rows, id, g.id);
      if (exists r :: r in rows && r.origin == id && r.node == g.id) && g.dn !in dns {
        dns := dns + [g.dn];
      }
    }
    assert t.entries[..|t.entries|] == t.entries;
  }

  /** The position the map by id holds for an id: that of the last user with it. */
  ghost predicate IsLastUser(entries: seq<Entry>, n: nat, id: nat, i: int) {
    0 <= i < n <= |entries| && WantsMemberOf(entries[i]) && entries[i].id == id
    && forall j :: i < j < n && WantsMemberOf(entries[j]) ==> entries[j].id != id
  }

  /** populateMemberOf: one query for all users among the entries, then one write for each id. */
  method PopulateMemberOf(t: Tables, entries: seq<Entry>) returns (r: seq<Entry>)
    ensures |r| == |entries|
    ensures forall i :: 0 <= i < |entries| ==> if Shadowed(entries, i) && WantsMemberOf(entries[i]) then r[i] == entries[i] else Populated(t, entries[i], r[i])
  {
    hide IsPathRow, Reaches, Listed, SeedsFrom, IsMemberOfList, WithMemberOf;
    var users: seq<nat> := [];
    var byId: map<nat, int> := map[];
    for i := 0 to |entries|
      invariant forall id :: id in byId ==> id in users && IsLastUser(entries, i, id, byId[id])
      invariant forall j :: 0 <= j < i && WantsMemberOf(entries[j]) ==> entries[j].id in byId
    {
      if WantsMemberOf(entries[i]) {
        users := users + [entries[i].id];
        byId := byId[entries[i].id := i];
      }
    }
    var rows := RunRecursive(Listed(t), SeedsFrom(Listed(t), users));
    r := entries;
    var ids := byId.Keys;
    while ids != {}
      invariant ids <= byId.Keys && |r| == |entries|
      invariant forall i :: 0 <= i < |entries| ==>
        if WantsMemberOf(entries[i]) && byId[entries[i].id] == i && entries[i].id !in ids then Populated(t, entries[i], r[i])
        else r[i] == entries[i]
      decreases ids
    {
      var id :| id in ids;
      var at := byId[id];
      var dns := GroupDnsFor(t, rows, id, users);
      assert Populated(t, entries[at], WithMemberOf(entries[at], dns));
      r := r[at := WithMemberOf(entries[at], dns)];
      ids := ids - {id};
    }
    forall i | 0 <= i < |entries|
      ensures if Shadowed(entries, i) && WantsMemberOf(entries[i]) then r[i] == entries[i] else Populated(t, entries[i], r[i])
    {
      if WantsMemberOf(entries[i]) {
        assert IsLastUser(entries, |entries|, entries[i].id, byId[entries[i].id]);
      } else {
        MemberOfListExists(t, entries[i].id);
      }
    }
  }

  lemma MemberOfListExists(t: Tables, id: nat)
    ensures exists dns :: IsMemberOfList(t, id, dns)
  {
    var dns := MemberOfUpTo(t, id, |t.entries|);
    assert t.entries[..|t.entries|] == t.entries;
    assert IsMemberOfList(t, id, dns);
  }

  lemma {:induction false} MemberOfUpTo(t: Tables, id: nat, n: nat) returns (dns: seq<string>)
    requires n <= |t.entries|
    ensures forall i, j :: 0 <= i < j < |dns| ==> dns[i] != dns[j]
    ensures forall d :: d in dns <==> exists g :: g in t.entries[..n] && g.dn == d && Reaches(Listed(t), id, g.id)
  {
    hide Reaches, Listed;
    if n == 0 {
      dns := [];
    } else {
      dns := MemberOfUpTo(t, id, n - 1);
      var g := t.entries[n - 1];
      assert t.entries[..n] == t.entries[..n - 1] + [g];
      if Reaches(Listed(t), id, g.id) && g.dn !in dns {
        dns := dns + [g.dn];
      }
    }
  }

  // ---- The downward query, and why it finds the same pairs ----

  /** All member rows, whoever owns them: the base member of the downward query does not check the class. */
  function BelowGraph(t: Tables): Graph {
    n => MembersOf(t.members, n)
  }

  /** The downward walk from `g`, which is expanded whatever its class. */
  function WalkFrom(t: Tables, g: nat): Graph {
    n => if n == g || IsGroupRow(t.entries, n) then MembersOf(t.members, n) else []
  }

  /** Some entry named `groupDn` reaches the entry going down through groupOfNames entries. */
  ghost predicate FoundBelow(t: Tables, groupDn: string, id: nat) {
    exists g :: g in IdsWithDn(t.entries, groupDn) && Reaches(WalkFrom(t, g), g, id)
  }

  /** A chain from `a` need not come back to `a`, except at its end. */
  lemma {:induction false} CutStart(next: Graph, a: nat, b: nat, w: seq<nat>) returns (v: seq<nat>)
    requires |w| >= 2 && IsChain(next, a, b, |w| - 1, w) && Distinct(w[1..])
    ensures 2 <= |v| <= |w| && IsChain(next, a, b, |v| - 1, v) && Distinct(v[1..])
    ensures forall i :: 1 <= i < |v| - 1 ==> v[i] != a
    decreases |w|
  {
    if i: int :| 1 <= i < |w| - 1 && w[i] == a {
      var u := w[i..];
      forall m | 0 <= m < |u| - 1 ensures u[m + 1] in next(u[m]) {
        assert w[i + m + 1] in next(w[i + m]);
      }
      assert u[1..] == w[1..][i..];
      v := CutStart(next, a, b, u);
    } else {
      v := w;
    }
  }

  /** A row with origin `g` records a walk from `g`. */
  lemma RowIsWalk(t: Tables, seeds: seq<Row>, g: nat, p: seq<nat>)
    requires SeedsOf(BelowGraph(t), seeds, g) && IsPath(Down(t), seeds, g, p)
    ensures Reaches(WalkFrom(t, g), g, p[|p| - 1])
  {
    var w, next := [g] + p, WalkFrom(t, g);
    forall i | 0 <= i < |w| - 1 ensures w[i + 1] in next(w[i]) {
      assert i > 0 ==> p[i - 1 + 1] in Down(t)(p[i - 1]);
    }
    assert IsChain(next, g, p[|p| - 1], |p|, w);
    assert Chain(next, g, p[|p| - 1], |p|);
  }

  lemma WalkHasPath(t: Tables, seeds: seq<Row>, g: nat, id: nat) returns (p: seq<nat>)
    requires SeedsOf(BelowGraph(t), seeds, g) && Reaches(WalkFrom(t, g), g, id)
    ensures p != [] && IsPath(Down(t), seeds, g, p) && p[|p| - 1] == id
  {
    hide WalkFrom, Down, SeedsOf;
    var next := WalkFrom(t, g);
    var k: nat :| 1 <= k <= MAX_DEPTH + 1 && Chain(next, g, id, k);
    var w :| IsChain(next, g, id, k, w);
    var u := CutLoops(next, g, id, w);
    var v := CutStart(next, g, id, u);
    WalkIsPath(t, seeds, g, id, v);
    p := v[1..];
  }

  /** The rows with origin `g` are those of the walk from `g`. */
  lemma WalkRows(t: Tables, groups: seq<nat>, rows: seq<Row>, g: nat, id: nat)
    requires forall r :: r in rows <==> IsPathRow(Down(t), SeedsFrom(BelowGraph(t), groups), r)
    requires g in groups
    ensures (exists r :: r in rows && r.origin == g && r.node == id) <==> Reaches(WalkFrom(t, g), g, id)
  {
    hide SeedsFrom, WalkFrom, Down, BelowGraph, IsPath, Reaches, SeedsOf;
    SeedsFromOf(BelowGraph(t), groups, g);
    var seeds := SeedsFrom(BelowGraph(t), groups);
    if r :| r in rows && r.origin == g && r.node == id {
      var p :| IsPath(Down(t), seeds, g, p) && r == RowOf(g, p);
      RowIsWalk(t, seeds, g, p);
    }
    if Reaches(WalkFrom(t, g), g, id) {
      var p := WalkHasPath(t, seeds, g, id);
      var r := RowOf(g, p);
      assert IsPathRow(Down(t), seeds, r);
      assert r in rows && r.origin == g && r.node == id;
    }
  }

  lemma WalkIsPath(t: Tables, seeds: seq<Row>, g: nat, id: nat, v: seq<nat>)
    requires SeedsOf(BelowGraph(t), seeds, g)
    requires 2 <= |v| <= MAX_DEPTH + 2 && IsChain(WalkFrom(t, g), g, id, |v| - 1, v) && Distinct(v[1..])
    requires forall i :: 1 <= i < |v| - 1 ==> v[i] != g
    ensures IsPath(Down(t), seeds, g, v[1..])
  {
    var p := v[1..];
    forall i | 0 <= i < |p| - 1 ensures p[i + 1] in Down(t)(p[i]) {
      assert v[i + 1 + 1] in WalkFrom(t, g)(v[i + 1]);
    }
    assert v[0 + 1] in WalkFrom(t, g)(v[0]);
  }

  /** The downward query: seeds from every entry with the DN, expansion through groupOfNames entries only. */
  method FindBelow(t: Tables, groupDn: string) returns (ids: set<nat>)
    ensures forall id :: id in ids <==> FoundBelow(t, groupDn, id)
  {
    hide IsPathRow, Reaches, Down, BelowGraph, SeedsFrom, WalkFrom;
    var groups := IdsWithDn(t.entries, groupDn);
    var rows := RunRecursive(Down(t), SeedsFrom(BelowGraph(t), groups));
    ids := set r | r in rows :: r.node;
    forall id ensures id in ids <==> FoundBelow(t, groupDn, id) {
      if id in ids {
        var r :| r in rows && r.node == id;
        PathRowOrigin(Down(t), BelowGraph(t), groups, r);
        WalkRows(t, groups, rows, r.origin, id);
      }
      if FoundBelow(t, groupDn, id) {
        var g :| g in groups && Reaches(WalkFrom(t, g), g, id);
        WalkRows(t, groups, rows, g, id);
        var r :| r in rows && r.origin == g && r.node == id;
      }
    }
  }

  // ---- The three queries agree ----

  /** Member rows belong to groupOfNames entries. */
  ghost predicate GroupsOwnMembers(t: Tables) {
    forall m :: m in t.members ==> IsGroupRow(t.entries, m.group)
  }

  /** Two graphs with the same edges reach the same nodes. */
  lemma SameEdgesReach(a: Graph, b: Graph, x: nat, y: nat)
    requires forall n, m :: m in a(n) <==> m in b(n)
    ensures Reaches(a, x, y) <==> Reaches(b, x, y)
  {
    forall k: nat, w ensures IsChain(a, x, y, k, w) <==> IsChain(b, x, y, k, w) {
    }
    forall k: nat ensures Chain(a, x, y, k) <==> Chain(b, x, y, k) {
    }
  }

  /** Where groups own the member rows, joining with the entries at every step changes nothing. */
  lemma UpIsListed(t: Tables, a: nat, b: nat)
    requires GroupsOwnMembers(t)
    ensures Reaches(Up(t), a, b) <==> Reaches(Listed(t), a, b)
  {
    forall n, m ensures m in Up(t)(n) <==> m in Listed(t)(n) {
      if m in Up(t)(n) {
        assert MemberRow(m, n) in t.members && IsGroupRow(t.entries, m);
      }
    }
    SameEdgesReach(Up(t), Listed(t), a, b);
  }

  lemma WalkIsBelow(t: Tables, g: nat, id: nat)
    requires GroupsOwnMembers(t)
    ensures Reaches(WalkFrom(t, g), g, id) <==> Reaches(BelowGraph(t), g, id)
  {
    forall n, m ensures m in WalkFrom(t, g)(n) <==> m in BelowGraph(t)(n) {
      if m in BelowGraph(t)(n) {
        assert MemberRow(n, m) in t.members && IsGroupRow(t.entries, n);
      }
    }
    SameEdgesReach(WalkFrom(t, g), BelowGraph(t), g, id);
  }

  lemma SameEdgesBothWays(t: Tables)
    ensures forall x, y :: y in Up(t)(x) <==> x in BelowGraph(t)(y)
  {
  }

  /**
   Up/down duality: the downward walk from a group finds an entry if and only if the upward walk from that entry
   finds a group with that DN, though the two walks guard against different repetitions.
   */
  lemma UpDownDuality(t: Tables, groupDn: string, id: nat)
    requires GroupsOwnMembers(t)
    ensures FoundBelow(t, groupDn, id) <==> exists g :: g in IdsWithDn(t.entries, groupDn) && Reaches(Listed(t), id, g)
    ensures FoundBelow(t, groupDn, id) <==> exists g :: g in IdsWithDn(t.entries, groupDn) && Reaches(Up(t), id, g)
  {
    hide Reaches;
    hide WalkFrom, Up, Listed;
    forall g: nat
      ensures Reaches(WalkFrom(t, g), g, id) == Reaches(Up(t), id, g) == Reaches(Listed(t), id, g)
    {
      SameEdgesBothWays(t);
      ReachesReversed(Up(t), BelowGraph(t), id, g);
      ReachesReversed(BelowGraph(t), Up(t), g, id);
      WalkIsBelow(t, g, id);
      UpIsListed(t, id, g);
    }
  }

  /** Entries that are no users, and users that were never stored, are left as they are. */
  lemma OthersStay(t: Tables, before: Entry, after: Entry)
    requires Populated(t, before, after) && (before.objectClass != "inetOrgPerson" || before.id == 0)
    ensures after == before
  {
    hide IsMemberOfList;
  }
}
