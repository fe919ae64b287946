/**
 The recursive queries behind nested group membership, run as SQLite runs them: a queue of
 rows (origin, node, depth, path) in which a row is taken out, reported, and expanded.
 The path is the comma-delimited text the query builds, and the guard is a text search in it.
 */
module Recursion {
  import opened Text

  /** The depth bound written into every recursive membership query. */
  const MAX_DEPTH := 100

  // ---- The path text ----

  /** printf('%d') of a row id. */
  function Decimal(n: nat): (s: string)
    ensures s != "" && forall i :: 0 <= i < |s| ==> '0' <= s[i] <= '9'
  {
    var digit := ['0' + (n % 10) as char];
    if n < 10 then digit else Decimal(n / 10) + digit
  }

  lemma {:induction false} DecimalInjective(m: nat, n: nat)
    requires Decimal(m) == Decimal(n)
    ensures m == n
  {
    var a, b := Decimal(m), Decimal(n);
    assert a[|a| - 1] == '0' + (m % 10) as char && b[|b| - 1] == '0' + (n % 10) as char;
    assert m % 10 == n % 10;
    assert m >= 10 ==> a[..|a| - 1] == Decimal(m / 10);
    assert n >= 10 ==> b[..|b| - 1] == Decimal(n / 10);
    if m >= 10 && n >= 10 {
      DecimalInjective(m / 10, n / 10);
    }
  }

  /** The delimited form of one id: `,id,`. */
  function Delimited(n: nat): (s: string)
    ensures |s| >= 3
  {
    "," + Decimal(n) + ","
  }

  /** The text of a path: `,` for no node, then `id,` for every node. */
  function PathText(p: seq<nat>): (s: string)
    ensures s != "" && s[|s| - 1] == ','
  {
    if p == [] then "," else PathText(p[..|p| - 1]) + Decimal(p[|p| - 1]) + ","
  }

  lemma PathTextExtend(p: seq<nat>, n: nat)
    ensures PathText(p + [n]) == PathText(p) + Decimal(n) + ","
  {
    assert (p + [n])[..|p|] == p;
  }

  /** A delimited id in an extended text lies in the old text or is the new id. */
  lemma DelimitedAtEnd(t: string, m: nat, n: nat, k: int)
    requires t != "" && t[|t| - 1] == ','
    requires OccursAt(t + Decimal(m) + ",", Delimited(n), k)
    ensures OccursAt(t, Delimited(n), k) || m == n
  {
    var s, d, needle := t + Decimal(m) + ",", Decimal(n), Delimited(n);
    var end := k + |needle| - 1;
    assert s[k..k + |needle|] == needle;
    assert s[k] == needle[0] && s[end] == needle[|needle| - 1];
    forall i | 0 <= i < |d| ensures s[k + 1 + i] == d[i] {
      assert s[k + 1 + i] == needle[1 + i];
    }
    if end < |t| {
      assert t[k..k + |needle|] == needle;
    } else {
      forall i | |t| <= i < |s| - 1 ensures s[i] != ',' {
        assert s[i] == Decimal(m)[i - |t|];
      }
      forall i | k < i < end ensures s[i] != ',' {
        assert s[i] == d[i - k - 1];
      }
      assert end == |s| - 1 && s[|t| - 1] == ',';
      assert k == |t| - 1;
      assert d == s[|t|..|s| - 1] == Decimal(m);
      DecimalInjective(m, n);
    }
  }

  lemma DelimitedKept(t: string, m: nat, n: nat, k: int)
    requires OccursAt(t, Delimited(n), k)
    ensures OccursAt(t + Decimal(m) + ",", Delimited(n), k)
  {
    var s, l := t + Decimal(m) + ",", |Delimited(n)|;
    assert s[k..k + l] == t[k..k + l];
  }

  lemma DelimitedAdded(t: string, n: nat)
    requires t != "" && t[|t| - 1] == ','
    ensures OccursAt(t + Decimal(n) + ",", Delimited(n), |t| - 1)
  {
    var s, k := t + Decimal(n) + ",", |t| - 1;
    assert s[k..k + |Delimited(n)|] == Delimited(n);
  }

  /** The text guard decides membership in the path exactly. */
  lemma {:induction false} PathTextMembership(p: seq<nat>, n: nat)
    ensures Index(PathText(p), Delimited(n)) >= 0 <==> n in p
  {
    hide Decimal, Delimited, Index;
    var s := PathText(p);
    if p == [] {
      assert !OccursAt(s, Delimited(n), Index(s, Delimited(n)));
    } else {
      var q, m := p[..|p| - 1], p[|p| - 1];
      var t := PathText(q);
      assert p == q + [m];
      PathTextMembership(q, n);
      if Index(s, Delimited(n)) >= 0 {
        DelimitedAtEnd(t, m, n, Index(s, Delimited(n)));
      }
      if n in q {
        DelimitedKept(t, m, n, Index(t, Delimited(n)));
      } else if n == m {
        DelimitedAdded(t, n);
      }
    }
  }

  // ---- The queue ----

  datatype Row = Row(origin: nat, node: nat, depth: nat, path: string)

  /** The edges the recursive member of a query follows out of a node. */
  type Graph = nat -> seq<nat>

  /** The row a base member emits for a direct neighbour. */
  function Seed(origin: nat, node: nat): Row {
    Row(origin, node, 0, Delimited(node))
  }

  /** The rows the recursive member emits for row `r` over the neighbours `targets`. */
  function ExpandOver(r: Row, targets: seq<nat>): (rows: seq<Row>)
    ensures rows != [] ==> r.depth < MAX_DEPTH
    ensures forall x :: x in rows ==> x.depth == r.depth + 1
  {
    if targets == [] then []
    else
      var v := targets[0];
      (if r.depth < MAX_DEPTH && Index(r.path, Delimited(v)) < 0
       then [Row(r.origin, v, r.depth + 1, r.path + Decimal(v) + ",")] else [])
      + ExpandOver(r, targets[1..])
  }

  lemma {:induction false} ExpandOverIn(r: Row, targets: seq<nat>, x: Row)
    ensures x in ExpandOver(r, targets) <==>
      x.node in targets && r.depth < MAX_DEPTH && Index(r.path, Delimited(x.node)) < 0
      && x == Row(r.origin, x.node, r.depth + 1, r.path + Decimal(x.node) + ",")
  {
    hide Decimal, Delimited, Index;
    if targets != [] {
      ExpandOverIn(r, targets[1..], x);
      assert targets == [targets[0]] + targets[1..];
    }
  }

  function Expand(next: Graph, r: Row): (rows: seq<Row>)
    ensures rows != [] ==> r.depth < MAX_DEPTH
    ensures forall x :: x in rows ==> x.depth == r.depth + 1
  {
    ExpandOver(r, next(r.node))
  }

  /** How many rows the queue will still report, when every row in it is at most `k` levels from the bound. */
  ghost function Pending(next: Graph, queue: seq<Row>, k: nat): nat
    requires forall r :: r in queue ==> r.depth + k >= MAX_DEPTH
    decreases k, |queue|
  {
    if queue == [] then 0
    else 1 + (if k == 0 then 0 else Pending(next, Expand(next, queue[0]), k - 1)) + Pending(next, queue[1..], k)
  }

  lemma {:induction false} PendingSplit(next: Graph, a: seq<Row>, b: seq<Row>, k: nat)
    requires forall r :: r in a + b ==> r.depth + k >= MAX_DEPTH
    ensures forall r :: r in a || r in b ==> r in a + b
    ensures Pending(next, a + b, k) == Pending(next, a, k) + Pending(next, b, k)
    decreases |a|
  {
    if a == [] {
      assert a + b == b;
    } else {
      assert (a + b)[1..] == a[1..] + b;
      assert forall r :: r in a[1..] + b ==> r in a + b;
      PendingSplit(next, a[1..], b, k);
    }
  }

  lemma {:induction false} PendingAtLevel(next: Graph, queue: seq<Row>, k: nat)
    requires forall r :: r in queue ==> r.depth + k >= MAX_DEPTH
    ensures Pending(next, queue, k) == Pending(next, queue, k + 1)
    decreases k, |queue|
  {
    hide Expand;
    if queue != [] {
      var more := Expand(next, queue[0]);
      assert queue[0] in queue;
      PendingAtLevel(next, queue[1..], k);
      if k == 0 {
        assert more == [];
      } else {
        PendingAtLevel(next, more, k - 1);
      }
    }
  }

  // ---- What the queue reports: the simple paths ----

  predicate Distinct(p: seq<nat>) {
    forall i, j :: 0 <= i < j < |p| ==> p[i] != p[j]
  }

  /** Every step of `p` follows an edge. */
  predicate IsWalk(next: Graph, p: seq<nat>) {
    forall i :: 0 <= i < |p| - 1 ==> p[i + 1] in next(p[i])
  }

  /** A path a query can record: it starts at a seed, repeats no node and respects the bound. */
  ghost predicate IsPath(next: Graph, seeds: seq<Row>, origin: nat, p: seq<nat>) {
    0 < |p| <= MAX_DEPTH + 1 && Seed(origin, p[0]) in seeds && IsWalk(next, p) && Distinct(p)
  }

  function RowOf(origin: nat, p: seq<nat>): Row
    requires p != []
  {
    Row(origin, p[|p| - 1], |p| - 1, PathText(p))
  }

  ghost predicate IsPathRow(next: Graph, seeds: seq<Row>, r: Row) {
    exists p :: IsPath(next, seeds, r.origin, p) && r == RowOf(r.origin, p)
  }

  predicate AreSeeds(seeds: seq<Row>) {
    forall r :: r in seeds ==> r == Seed(r.origin, r.node)
  }

  lemma SeedIsPathRow(next: Graph, seeds: seq<Row>, r: Row)
    requires AreSeeds(seeds) && r in seeds
    ensures IsPathRow(next, seeds, r)
  {
    var p := [r.node];
    PathTextExtend([], r.node);
    assert [] + [r.node] == p;
    assert IsPath(next, seeds, r.origin, p) && r == RowOf(r.origin, p);
  }

  lemma ExpandIsPathRow(next: Graph, seeds: seq<Row>, r: Row, x: Row)
    requires IsPathRow(next, seeds, r) && x in Expand(next, r)
    ensures IsPathRow(next, seeds, x)
  {
    var p :| IsPath(next, seeds, r.origin, p) && r == RowOf(r.origin, p);
    ExpandOverIn(r, next(r.node), x);
    PathTextMembership(p, x.node);
    PathTextExtend(p, x.node);
    var q := p + [x.node];
    assert IsWalk(next, q) by {
      forall i | 0 <= i < |q| - 1 ensures q[i + 1] in next(q[i]) {
        assert i + 1 < |p| ==> p[i + 1] in next(p[i]);
      }
    }
    assert IsPath(next, seeds, x.origin, q) && x == RowOf(x.origin, q);
  }

  /** A set of rows that holds the seeds and is closed under expansion holds every path's row. */
  lemma {:induction false} ClosedHoldsPaths(next: Graph, seeds: seq<Row>, rows: seq<Row>, origin: nat, p: seq<nat>)
    requires forall r :: r in seeds ==> r in rows
    requires forall r, x :: r in rows && x in Expand(next, r) ==> x in rows
    requires IsPath(next, seeds, origin, p)
    ensures RowOf(origin, p) in rows
    decreases |p|
  {
    var q, v := p[..|p| - 1], p[|p| - 1];
    assert p == q + [v];
    PathTextExtend(q, v);
    if q == [] {
      assert RowOf(origin, p) == Seed(origin, v);
    } else {
      assert IsWalk(next, q) by {
        forall i | 0 <= i < |q| - 1 ensures q[i + 1] in next(q[i]) {
          assert p[i + 1] in next(p[i]);
        }
      }
      ClosedHoldsPaths(next, seeds, rows, origin, q);
      PathTextMembership(q, v);
      assert p[|q| - 1 + 1] in next(p[|q| - 1]);
      ExpandOverIn(RowOf(origin, q), next(q[|q| - 1]), RowOf(origin, p));
      assert RowOf(origin, p) in Expand(next, RowOf(origin, q));
    }
  }

  lemma ClosedHoldsPathRow(next: Graph, seeds: seq<Row>, rows: seq<Row>, r: Row)
    requires forall r :: r in seeds ==> r in rows
    requires forall r, x :: r in rows && x in Expand(next, r) ==> x in rows
    requires IsPathRow(next, seeds, r)
    ensures r in rows
  {
    var p :| IsPath(next, seeds, r.origin, p) && r == RowOf(r.origin, p);
    ClosedHoldsPaths(next, seeds, rows, r.origin, p);
  }

  /** WITH RECURSIVE: it terminates and reports exactly one kind of row, those of the simple bounded paths. */
  method RunRecursive(next: Graph, seeds: seq<Row>) returns (rows: seq<Row>)
    requires AreSeeds(seeds)
    ensures forall r :: r in rows <==> IsPathRow(next, seeds, r)
  {
    hide IsPathRow, Expand, AreSeeds;
    rows := [];
    var queue := seeds;
    forall r | r in seeds ensures IsPathRow(next, seeds, r) {
      SeedIsPathRow(next, seeds, r);
    }
    while queue != []
      invariant forall r :: r in rows || r in queue ==> IsPathRow(next, seeds, r)
      invariant forall r :: r in seeds ==> r in rows || r in queue
      invariant forall r, x :: r in rows && x in Expand(next, r) ==> x in rows || x in queue
      decreases Pending(next, queue, MAX_DEPTH)
    {
      var r, rest, more := queue[0], queue[1..], Expand(next, queue[0]);
      PendingSplit(next, rest, more, MAX_DEPTH);
      PendingAtLevel(next, more, MAX_DEPTH - 1);
      forall x | x in more ensures IsPathRow(next, seeds, x) {
        ExpandIsPathRow(next, seeds, r, x);
      }
      assert queue == [r] + rest;
      queue := rest + more;
      rows := rows + [r];
    }
    forall r | IsPathRow(next, seeds, r) ensures r in rows {
      ClosedHoldsPathRow(next, seeds, rows, r);
    }
  }

  // ---- Simple paths are enough: bounded reachability ----

  /** A chain of exactly `k` edges leads from `a` to `b`. */
  ghost predicate Chain(next: Graph, a: nat, b: nat, k: nat) {
    exists w :: IsChain(next, a, b, k, w)
  }

  ghost predicate IsChain(next: Graph, a: nat, b: nat, k: nat, w: seq<nat>) {
    |w| == k + 1 && w[0] == a && w[k] == b && IsWalk(next, w)
  }

  /** A chain of 1 to 101 edges leads from `a` to `b`. */
  ghost predicate Reaches(next: Graph, a: nat, b: nat) {
    exists k: nat :: 1 <= k <= MAX_DEPTH + 1 && Chain(next, a, b, k)
  }

  /** Cutting the loops out of a chain keeps its ends and leaves no node twice after the first. */
  lemma {:induction false} CutLoops(next: Graph, a: nat, b: nat, w: seq<nat>) returns (v: seq<nat>)
    requires |w| >= 2 && IsChain(next, a, b, |w| - 1, w)
    ensures 2 <= |v| <= |w| && IsChain(next, a, b, |v| - 1, v) && Distinct(v[1..])
    decreases |w|
  {
    if i, j :| 1 <= i < j < |w| && w[i] == w[j] {
      var u := w[..i] + w[j..];
      forall m | 0 <= m < |u| - 1 ensures u[m + 1] in next(u[m]) {
        if m < i {
          assert w[m + 1] in next(w[m]);
        } else {
          assert w[m - i + j + 1] in next(w[m - i + j]);
        }
      }
      v := CutLoops(next, a, b, u);
    } else {
      v := w;
    }
  }

  /** The seeds are exactly the neighbours of `origin`. */
  ghost predicate SeedsOf(next: Graph, seeds: seq<Row>, origin: nat) {
    forall v: nat :: Seed(origin, v) in seeds <==> v in next(origin)
  }

  /** The query finds a node for an origin if and only if a chain of 1 to 101 edges leads there. */
  lemma FindsExactlyReachable(next: Graph, seeds: seq<Row>, rows: seq<Row>, origin: nat, node: nat)
    requires forall r :: r in rows <==> IsPathRow(next, seeds, r)
    requires SeedsOf(next, seeds, origin)
    ensures (exists r :: r in rows && r.origin == origin && r.node == node) <==> Reaches(next, origin, node)
    ensures Reaches(next, origin, node) <==> exists k: nat :: 1 <= k <= 101 && Chain(next, origin, node, k)
  {
    if r :| r in rows && r.origin == origin && r.node == node {
      var p :| IsPath(next, seeds, origin, p) && r == RowOf(origin, p);
      var w := [origin] + p;
      forall i | 0 <= i < |w| - 1 ensures w[i + 1] in next(w[i]) {
        assert i > 0 ==> p[i - 1 + 1] in next(p[i - 1]);
      }
      assert IsChain(next, origin, node, |p|, w);
      assert Chain(next, origin, node, |p|);
    }
    if Reaches(next, origin, node) {
      var k: nat :| 1 <= k <= MAX_DEPTH + 1 && Chain(next, origin, node, k);
      var w :| IsChain(next, origin, node, k, w);
      var v := CutLoops(next, origin, node, w);
      var p := v[1..];
      forall i | 0 <= i < |p| - 1 ensures p[i + 1] in next(p[i]) {
        assert v[i + 1 + 1] in next(v[i + 1]);
      }
      assert v[0 + 1] in next(v[0]);
      assert IsPath(next, seeds, origin, p);
      var r := RowOf(origin, p);
      assert IsPathRow(next, seeds, r);
      assert r in rows && r.origin == origin && r.node == node;
    }
  }

  function Reverse(w: seq<nat>): (r: seq<nat>)
    ensures |r| == |w| && forall i :: 0 <= i < |w| ==> r[i] == w[|w| - 1 - i]
  {
    seq(|w|, i requires 0 <= i < |w| => w[|w| - 1 - i])
  }

  /** Walking the reversed graph finds the same pairs, whatever the two walks guard against. */
  lemma ReachesReversed(up: Graph, down: Graph, a: nat, b: nat)
    requires forall x, y :: y in up(x) <==> x in down(y)
    ensures Reaches(up, a, b) ==> Reaches(down, b, a)
  {
    if Reaches(up, a, b) {
      var k: nat :| 1 <= k <= MAX_DEPTH + 1 && Chain(up, a, b, k);
      var w :| IsChain(up, a, b, k, w);
      var r := Reverse(w);
      forall i | 0 <= i < |r| - 1 ensures r[i + 1] in down(r[i]) {
        var j := |w| - 1 - i - 1;
        assert w[j + 1] in up(w[j]);
      }
      assert IsChain(down, b, a, k, r);
      assert Chain(down, b, a, k);
    }
  }
}
