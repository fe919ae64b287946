/** Distinguished names as text: escaped commas, parents, ancestry. */
module Dn {
  import opened Text

  /** The character at `i` is escaped: an unescaped backslash stands right before it. */
  predicate Escaped(s: string, i: nat)
    requires i <= |s|
  {
    i > 0 && s[i - 1] == '\\' && !Escaped(s, i - 1)
  }

  /** An unescaped `target` stands at `i`. */
  predicate IsCut(s: string, target: char, i: int) {
    0 <= i < |s| && s[i] == target && target != '\\' && !Escaped(s, i)
  }

  function FirstUnescapedFrom(s: string, target: char, i: nat): (r: int)
    requires i <= |s|
    ensures r == -1 || (i <= r && IsCut(s, target, r))
    ensures forall j :: i <= j && IsCut(s, target, j) ==> 0 <= r <= j
    decreases |s| - i
  {
    if i == |s| then -1
    else if IsCut(s, target, i) then i
    else FirstUnescapedFrom(s, target, i + 1)
  }

  /** The least position of an unescaped `target`, or -1. */
  function FirstUnescaped(s: string, target: char): (r: int)
    ensures r == -1 || IsCut(s, target, r)
    ensures forall j :: IsCut(s, target, j) ==> 0 <= r <= j
  {
    FirstUnescapedFrom(s, target, 0)
  }

  method ScanFirstUnescaped(s: string, target: char) returns (r: int)
    ensures r == FirstUnescaped(s, target)
  {
    var escaped := false;
    for i := 0 to |s|
      invariant escaped == Escaped(s, i)
      invariant forall j :: j < i ==> !IsCut(s, target, j)
    {
      if escaped {
        escaped := false;
      } else if s[i] == '\\' {
        escaped := true;
      } else if s[i] == target {
        assert IsCut(s, target, i);
        return i;
      }
    }
    return -1;
  }

  function Parent(dn: string): (p: string)
    ensures Trimmed(p)
    ensures |p| <= |dn| && (|p| == |dn| ==> dn == "")
  {
    var i := FirstUnescaped(dn, ',');
    if i < 0 then "" else TrimSpace(dn[i + 1..])
  }

  /** ldapdn.Equal */
  predicate Equal(a: string, b: string) {
    EqualFold(TrimSpace(a), TrimSpace(b))
  }

  /** `base` is `dn` or one of its ancestors; both are trimmed already. */
  predicate AncestorOrSelf(dn: string, base: string)
    decreases |dn|
  {
    EqualFold(dn, base) || (Parent(dn) != "" && AncestorOrSelf(Parent(dn), base))
  }

  predicate WithinBase(dn: string, base: string) {
    TrimSpace(base) != "" && AncestorOrSelf(TrimSpace(dn), TrimSpace(base))
  }

  method ScanWithinBase(dn0: string, base0: string) returns (r: bool)
    ensures r == WithinBase(dn0, base0)
  {
    var dn, base := TrimSpace(dn0), TrimSpace(base0);
    if base == "" {
      return false;
    }
    if Equal(dn, base) {
      return true;
    }
    var parent := Parent(dn);
    while parent != ""
      invariant Trimmed(parent)
      invariant AncestorOrSelf(dn, base) == (parent != "" && AncestorOrSelf(parent, base))
      decreases |parent|
    {
      if Equal(parent, base) {
        return true;
      }
      parent := Parent(parent);
    }
    return false;
  }

  // ---- Ancestry is a matter of suffixes ----

  lemma EscapedPrefix(s: string, h: nat, i: nat)
    requires i <= h <= |s|
    ensures Escaped(s[..h], i) == Escaped(s, i)
  {
    if i > 0 {
      EscapedPrefix(s, h, i - 1);
    }
  }

  lemma EscapedSuffix(s: string, k: nat, i: nat)
    requires k <= i <= |s| && !Escaped(s, k)
    ensures Escaped(s[k..], i - k) == Escaped(s, i)
    decreases i
  {
    if i > k {
      EscapedSuffix(s, k, i - 1);
    }
  }

  lemma EscapedAfterSpaces(s: string, k: nat)
    requires k <= |s| && forall i :: 0 <= i < k ==> IsSpace(s[i])
    ensures !Escaped(s, k)
  {
    assert k > 0 ==> IsSpace(s[k - 1]);
  }

  /** Dropping white space at the end does not change what trimming leaves. */
  lemma TrimSpaceOfPrefix(s: string, h: nat)
    requires h <= |s| && forall j :: h <= j < |s| ==> IsSpace(s[j])
    ensures TrimSpace(s[..h]) == TrimSpace(s)
  {
    hide TrimSpace;
    var p := s[..h];
    var a, b := TrimSpaceCut(p);
    assert s[a..b] == p[a..b];
    forall i | 0 <= i < a || b <= i < |s| ensures IsSpace(s[i]) {
      assert i < h ==> p[i] == s[i];
    }
    TrimSpaceUnique(s, a, b);
  }

  /** Cutting away outer white space keeps the cuts. */
  lemma TrimKeepsCuts(s: string, lo: nat, hi: nat, i: int)
    requires lo <= hi <= |s|
    requires forall j :: 0 <= j < lo ==> IsSpace(s[j])
    requires forall j :: hi <= j < |s| ==> IsSpace(s[j])
    ensures IsCut(s[lo..hi], ',', i) <==> IsCut(s, ',', lo + i)
  {
    if 0 <= i < hi - lo {
      EscapedAfterSpaces(s, lo);
      EscapedSuffix(s, lo, lo + i);
      EscapedPrefix(s[lo..], hi - lo, i);
      assert s[lo..][..hi - lo] == s[lo..hi];
    }
  }

  lemma TrimKeepsSuffix(s: string, lo: nat, hi: nat, i: nat)
    requires lo + i < hi <= |s|
    requires forall j :: hi <= j < |s| ==> IsSpace(s[j])
    ensures TrimSpace(s[lo..hi][i + 1..]) == TrimSpace(s[lo + i + 1..])
  {
    hide TrimSpace;
    var whole := s[lo + i + 1..];
    assert s[lo..hi][i + 1..] == whole[..hi - lo - i - 1];
    TrimSpaceOfPrefix(whole, hi - lo - i - 1);
  }

  lemma CutsAfterCut(s: string, c: int, i: int)
    requires IsCut(s, ',', c)
    ensures IsCut(s[c + 1..], ',', i) <==> IsCut(s, ',', c + 1 + i) && i >= 0
  {
    if 0 <= i < |s| - c - 1 {
      EscapedSuffix(s, c + 1, c + 1 + i);
    }
  }

  /** Some suffix of `dn` after an unescaped comma equals `base`. */
  ghost predicate SuffixEquals(dn: string, base: string) {
    exists i :: SuffixEqualsAt(dn, base, i)
  }

  ghost predicate SuffixEqualsAt(dn: string, base: string, i: int) {
    IsCut(dn, ',', i) && Equal(dn[i + 1..], base)
  }

  lemma SuffixEqualsAtTrimmed(dn: string, lo: nat, hi: nat, base: string, i: int)
    requires lo <= hi <= |dn|
    requires forall j :: 0 <= j < lo ==> IsSpace(dn[j])
    requires forall j :: hi <= j < |dn| ==> IsSpace(dn[j])
    ensures SuffixEqualsAt(dn[lo..hi], base, i) == SuffixEqualsAt(dn, base, lo + i)
  {
    hide TrimSpace, Escaped;
    TrimKeepsCuts(dn, lo, hi, i);
    if IsCut(dn, ',', lo + i) && 0 <= i < hi - lo {
      TrimKeepsSuffix(dn, lo, hi, i);
    }
  }

  lemma SuffixEqualsTrimmed(dn: string, base: string)
    ensures SuffixEquals(TrimSpace(dn), base) == SuffixEquals(dn, base)
  {
    hide TrimSpace, SuffixEqualsAt;
    var lo, hi := TrimSpaceCut(dn);
    var d := dn[lo..hi];
    if i: int :| SuffixEqualsAt(d, base, i) {
      SuffixEqualsAtTrimmed(dn, lo, hi, base, i);
      assert SuffixEqualsAt(dn, base, lo + i);
    }
    if i: int :| SuffixEqualsAt(dn, base, i) {
      var j: int := i - lo;
      SuffixEqualsAtTrimmed(dn, lo, hi, base, j);
      assert SuffixEqualsAt(d, base, j);
    }
  }

  lemma SuffixEqualsStep(d: string, c: int, base: string)
    requires c == FirstUnescaped(d, ',') && c >= 0
    ensures SuffixEquals(d, base) <==> Equal(d[c + 1..], base) || SuffixEquals(d[c + 1..], base)
  {
    hide Equal, Escaped, FirstUnescaped;
    var p := d[c + 1..];
    if i: int :| SuffixEqualsAt(d, base, i) && i > c {
      var j := i - c - 1;
      CutsAfterCut(d, c, j);
      assert p[j + 1..] == d[i + 1..];
      assert SuffixEqualsAt(p, base, j);
    }
    if i: int :| SuffixEqualsAt(p, base, i) {
      var j := c + 1 + i;
      CutsAfterCut(d, c, i);
      assert p[i + 1..] == d[j + 1..];
      assert SuffixEqualsAt(d, base, j);
    }
    assert SuffixEqualsAt(d, base, c) == Equal(p, base);
  }

  /** WithinBase says exactly this: the base is the DN, or what follows one of its unescaped commas. */
  lemma {:induction false} WithinBaseIsSuffix(dn: string, base: string)
    requires TrimSpace(base) != ""
    ensures WithinBase(dn, base) <==> Equal(dn, base) || SuffixEquals(dn, base)
    decreases |dn|
  {
    var d := TrimSpace(dn);
    SuffixEqualsTrimmed(dn, base);
    var c := FirstUnescaped(d, ',');
    if c >= 0 {
      WithinBaseIsSuffix(d[c + 1..], base);
      SuffixEqualsStep(d, c, base);
      assert Parent(d) == TrimSpace(d[c + 1..]);
      if Parent(d) == "" {
        assert !WithinBase(d[c + 1..], base);
      }
    }
  }

  // ---- Ancestry ignores case ----

  lemma EscapedLower(s: string, i: nat)
    requires i <= |s|
    ensures Escaped(Lower(s), i) == Escaped(s, i)
  {
    if i > 0 {
      EscapedLower(s, i - 1);
    }
  }

  lemma FirstUnescapedLower(s: string)
    ensures FirstUnescaped(Lower(s), ',') == FirstUnescaped(s, ',')
  {
    forall i: int ensures IsCut(Lower(s), ',', i) == IsCut(s, ',', i) {
      if 0 <= i < |s| {
        EscapedLower(s, i);
      }
    }
    var a, b := FirstUnescaped(Lower(s), ','), FirstUnescaped(s, ',');
    assert IsCut(s, ',', a) == IsCut(Lower(s), ',', a) && IsCut(s, ',', b) == IsCut(Lower(s), ',', b);
  }

  lemma ParentLower(s: string)
    ensures Parent(Lower(s)) == Lower(Parent(s))
  {
    hide FirstUnescaped, TrimSpace;
    FirstUnescapedLower(s);
    var i := FirstUnescaped(s, ',');
    if i >= 0 {
      LowerDrop(s, i + 1);
      TrimSpaceLower(s[i + 1..]);
    }
  }

  lemma {:induction false} AncestorOrSelfFold(a: string, b: string, base: string)
    requires EqualFold(a, b)
    ensures AncestorOrSelf(a, base) == AncestorOrSelf(b, base)
    decreases |a|
  {
    ParentLower(a);
    ParentLower(b);
    assert |Parent(a)| == |Lower(Parent(a))| == |Parent(b)|;
    if Parent(a) != "" {
      AncestorOrSelfFold(Parent(a), Parent(b), base);
    }
  }

  lemma {:induction false} AncestorOrSelfTransitive(a: string, b: string, c: string)
    requires AncestorOrSelf(a, b) && AncestorOrSelf(b, c)
    ensures AncestorOrSelf(a, c)
    decreases |a|
  {
    if EqualFold(a, b) {
      AncestorOrSelfFold(a, b, c);
    } else {
      AncestorOrSelfTransitive(Parent(a), b, c);
    }
  }

  lemma WithinBaseTransitive(a: string, b: string, c: string)
    requires WithinBase(a, b) && WithinBase(b, c)
    ensures WithinBase(a, c)
  {
    AncestorOrSelfTransitive(TrimSpace(a), TrimSpace(b), TrimSpace(c));
  }

  lemma {:induction false} AncestorIsShorter(a: string, b: string)
    requires AncestorOrSelf(a, b)
    ensures EqualFold(a, b) || |b| < |a|
    decreases |a|
  {
    if EqualFold(a, b) {
    } else {
      AncestorIsShorter(Parent(a), b);
      assert EqualFold(Parent(a), b) ==> |Lower(Parent(a))| == |Lower(b)|;
    }
  }

  /** Two DNs within each other are the same DN. */
  lemma WithinBaseAntisymmetric(a: string, b: string)
    requires WithinBase(a, b) && WithinBase(b, a)
    ensures Equal(a, b)
  {
    AncestorIsShorter(TrimSpace(a), TrimSpace(b));
    AncestorIsShorter(TrimSpace(b), TrimSpace(a));
  }

  // ---- Ancestry counted in levels ----

  /** The n-th parent. */
  function ParentN(dn: string, n: nat): string
    decreases n
  {
    if n == 0 then dn else ParentN(Parent(dn), n - 1)
  }

  lemma {:induction false} ParentNOfEmpty(n: nat)
    ensures ParentN("", n) == ""
  {
    if n > 0 {
      assert Parent("") == "";
      ParentNOfEmpty(n - 1);
    }
  }

  lemma {:induction false} ParentNIsAncestor(dn: string, base: string, n: nat)
    requires base != "" && EqualFold(ParentN(dn, n), base)
    ensures AncestorOrSelf(dn, base)
    decreases n
  {
    hide Parent, Lower;
    if n > 0 {
      assert |Lower(base)| == |base| && |Lower("")| == 0;
      if Parent(dn) == "" {
        ParentNOfEmpty(n - 1);
      } else {
        ParentNIsAncestor(Parent(dn), base, n - 1);
      }
    }
  }

  lemma {:induction false} AncestorIsParentN(dn: string, base: string) returns (n: nat)
    requires AncestorOrSelf(dn, base)
    ensures EqualFold(ParentN(dn, n), base)
    ensures n > 0 ==> !EqualFold(dn, base)
    decreases |dn|
  {
    if EqualFold(dn, base) {
      n := 0;
    } else {
      n := AncestorIsParentN(Parent(dn), base);
      n := n + 1;
    }
  }
}
