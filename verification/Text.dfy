/** Go string operations on ASCII text, as the rest of the model uses them. */
module Text {

  function LowerChar(c: char): char {
    if 'A' <= c <= 'Z' then (c as int + 32) as char else c
  }

  /** strings.ToLower and SQL LOWER, which agree on ASCII. */
  function Lower(s: string): (r: string)
    ensures |r| == |s|
    ensures forall i :: 0 <= i < |s| ==> r[i] == LowerChar(s[i])
  {
    seq(|s|, i requires 0 <= i < |s| => LowerChar(s[i]))
  }

  lemma ConcatAssociative(a: string, b: string, c: string)
    ensures (a + b) + c == a + (b + c)
  {
  }

  predicate EqualFold(a: string, b: string) {
    Lower(a) == Lower(b)
  }

  predicate IsSpace(c: char) {
    c == ' ' || c == '\t' || c == '\n' || c == '\r' || c == '\U{0B}' || c == '\U{0C}'
  }

  function TrimLeft(s: string): (r: string)
    ensures |r| <= |s| && r == s[|s| - |r|..]
    ensures r == [] || !IsSpace(r[0])
    ensures forall i :: 0 <= i < |s| - |r| ==> IsSpace(s[i])
  {
    if s != [] && IsSpace(s[0]) then TrimLeft(s[1..]) else s
  }

  function TrimRight(s: string): (r: string)
    ensures |r| <= |s| && r == s[..|r|]
    ensures r == [] || !IsSpace(r[|r| - 1])
    ensures forall i :: |r| <= i < |s| ==> IsSpace(s[i])
  {
    if s != [] && IsSpace(s[|s| - 1]) then TrimRight(s[..|s| - 1]) else s
  }

  /** strings.TrimSpace */
  function TrimSpace(s: string): (r: string)
    ensures |r| <= |s| && Trimmed(r)
    ensures Trimmed(s) ==> r == s
  {
    TrimRight(TrimLeft(s))
  }

  predicate Trimmed(s: string) {
    s == [] || (!IsSpace(s[0]) && !IsSpace(s[|s| - 1]))
  }

  /** Where the trimmed text sits: everything around it is white space. */
  lemma TrimSpaceCut(s: string) returns (lo: nat, hi: nat)
    ensures lo <= hi <= |s| && TrimSpace(s) == s[lo..hi]
    ensures forall i :: 0 <= i < lo ==> IsSpace(s[i])
    ensures forall i :: hi <= i < |s| ==> IsSpace(s[i])
  {
    var t := TrimLeft(s);
    lo := |s| - |t|;
    hi := lo + |TrimRight(t)|;
    forall i | hi <= i < |s| ensures IsSpace(s[i]) {
      assert s[i] == t[i - lo];
    }
  }

  /** A text with its outer white space cut away has only one trimmed form. */
  lemma TrimSpaceUnique(s: string, lo: nat, hi: nat)
    requires lo <= hi <= |s| && Trimmed(s[lo..hi])
    requires forall i :: 0 <= i < lo ==> IsSpace(s[i])
    requires forall i :: hi <= i < |s| ==> IsSpace(s[i])
    ensures TrimSpace(s) == s[lo..hi]
  {
    hide TrimSpace, IsSpace;
    var a, b := TrimSpaceCut(s);
    var t, u := TrimSpace(s), s[lo..hi];
    assert a < b ==> t[0] == s[a] && t[|t| - 1] == s[b - 1];
    assert lo < hi ==> u[0] == s[lo] && u[|u| - 1] == s[hi - 1];
  }

  lemma LowerSlice(s: string, lo: nat, hi: nat)
    requires lo <= hi <= |s|
    ensures Lower(s[lo..hi]) == Lower(s)[lo..hi]
  {
  }

  lemma LowerDrop(s: string, lo: nat)
    requires lo <= |s|
    ensures Lower(s[lo..]) == Lower(s)[lo..]
  {
  }

  lemma LowerConcat(a: string, b: string)
    ensures Lower(a + b) == Lower(a) + Lower(b)
  {
  }

  lemma LowerIdempotent(s: string)
    ensures Lower(Lower(s)) == Lower(s)
  {
  }

  lemma LowerKeepsSpace(c: char)
    ensures IsSpace(LowerChar(c)) == IsSpace(c)
  {
  }

  lemma LowerKeepsTrimmed(t: string)
    ensures Trimmed(Lower(t)) == Trimmed(t)
  {
    if t != [] {
      LowerKeepsSpace(t[0]);
      LowerKeepsSpace(t[|t| - 1]);
    }
  }

  /** Trimming and lowering commute. */
  lemma TrimSpaceLower(s: string)
    ensures TrimSpace(Lower(s)) == Lower(TrimSpace(s))
  {
    var lo, hi := TrimSpaceCut(s);
    LowerSlice(s, lo, hi);
    LowerKeepsTrimmed(s[lo..hi]);
    forall i | 0 <= i < |s| && IsSpace(s[i]) ensures IsSpace(Lower(s)[i]) {
      LowerKeepsSpace(s[i]);
    }
    TrimSpaceUnique(Lower(s), lo, hi);
  }

  // ---- Case and space, character by character ----

  /** The same character, or the two cases of one letter. */
  predicate SameLetter(x: char, y: char) {
    x == y || ('A' <= x <= 'Z' && y as int == x as int + 32) || ('A' <= y <= 'Z' && x as int == y as int + 32)
  }

  lemma EqualFoldExact(a: string, b: string)
    ensures EqualFold(a, b) <==> |a| == |b| && forall i :: 0 <= i < |a| ==> SameLetter(a[i], b[i])
  {
    if EqualFold(a, b) {
      assert |Lower(a)| == |Lower(b)|;
      assert forall i :: 0 <= i < |a| ==> Lower(a)[i] == Lower(b)[i];
    }
    if |a| == |b| && forall i :: 0 <= i < |a| ==> SameLetter(a[i], b[i]) {
      assert forall i :: 0 <= i < |a| ==> LowerChar(a[i]) == LowerChar(b[i]);
    }
  }

  /** Tab, line feed, vertical tab, form feed, carriage return and space. */
  predicate IsBlank(c: char) {
    9 <= c as int <= 13 || c as int == 32
  }

  lemma BlankIsSpace()
    ensures forall c :: IsBlank(c) <==> IsSpace(c)
  {
  }

  /** Trimming cuts all blanks off both ends, and nothing else. */
  lemma TrimSpaceExact(s: string) returns (before: string, after: string)
    ensures s == before + TrimSpace(s) + after
    ensures forall c :: c in before || c in after ==> IsBlank(c)
    ensures var r := TrimSpace(s); r != "" ==> !IsBlank(r[0]) && !IsBlank(r[|r| - 1])
  {
    hide TrimSpace, IsSpace, IsBlank;
    BlankIsSpace();
    var lo, hi := TrimSpaceCut(s);
    before, after := s[..lo], s[hi..];
    assert s == s[..lo] + s[lo..hi] + s[hi..];
    assert Trimmed(TrimSpace(s));
  }

  /** strings.HasSuffix */
  predicate HasSuffix(s: string, suffix: string) {
    |suffix| <= |s| && s[|s| - |suffix|..] == suffix
  }

  /** `sub` stands in `s` at position `i`. */
  predicate OccursAt(s: string, sub: string, i: int) {
    0 <= i <= |s| - |sub| && s[i..i + |sub|] == sub
  }

  function IndexFrom(s: string, sub: string, i: nat): (r: int)
    requires i <= |s|
    ensures r == -1 || (i <= r && OccursAt(s, sub, r))
    ensures forall j :: i <= j && OccursAt(s, sub, j) ==> 0 <= r <= j
    decreases |s| - i
  {
    if OccursAt(s, sub, i) then i
    else if i == |s| then -1
    else IndexFrom(s, sub, i + 1)
  }

  /** strings.Index: the least position of `sub`, or -1. */
  function Index(s: string, sub: string): (r: int)
    ensures r == -1 || OccursAt(s, sub, r)
    ensures forall i :: OccursAt(s, sub, i) ==> 0 <= r <= i
  {
    IndexFrom(s, sub, 0)
  }

  /** strings.IndexByte */
  function IndexByte(s: string, c: char): (r: int)
    ensures -1 <= r < |s|
    ensures r == -1 ==> c !in s
    ensures r >= 0 ==> s[r] == c && forall j :: 0 <= j < r ==> s[j] != c
  {
    if s == [] then -1
    else if s[0] == c then 0
    else
      var r := IndexByte(s[1..], c);
      if r == -1 then -1 else r + 1
  }

  /** Byte-wise order of Go strings and of SQL's BINARY collation. */
  predicate StringLe(a: string, b: string) {
    a == [] || (b != [] && (a[0] < b[0] || (a[0] == b[0] && StringLe(a[1..], b[1..]))))
  }
}
