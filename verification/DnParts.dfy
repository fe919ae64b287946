/** The first component of a DN and the rest of it. */
module DnParts {
  import opened Text
  import opened Dn

  datatype Parts = Parts(rdn: string, parent: string)

  /** Split */
  function Split(dn: string): Parts {
    var i := FirstUnescaped(dn, ',');
    if i < 0 then Parts(TrimSpace(dn), "") else Parts(TrimSpace(dn[..i]), TrimSpace(dn[i + 1..]))
  }

  datatype Pair = NoPair | Pair(name: string, value: string)

  /** SplitRDN */
  function SplitRdn(rdn: string): Pair {
    var i := FirstUnescaped(rdn, '=');
    if i < 0 || TrimSpace(rdn[..i]) == "" then NoPair else Pair(TrimSpace(rdn[..i]), TrimSpace(rdn[i + 1..]))
  }

  lemma SplitParent(dn: string)
    ensures Split(dn).parent == Parent(dn)
  {
  }

  /** `s` has no unescaped target and does not escape what follows it. */
  predicate Closed(s: string, target: char) {
    FirstUnescaped(s, target) == -1 && !Escaped(s, |s|)
  }

  /** The first cut of `head + target + tail` is after a closed head. */
  lemma CutAfterClosed(head: string, target: char, tail: string)
    requires Closed(head, target) && target != '\\'
    ensures FirstUnescaped(head + [target] + tail, target) == |head|
  {
    hide FirstUnescaped;
    var s := head + [target] + tail;
    assert s[..|head|] == head;
    forall i | 0 <= i <= |head| ensures Escaped(s, i) == Escaped(head, i) {
      EscapedPrefix(s, |head|, i);
    }
    assert IsCut(s, target, |head|);
    forall i | 0 <= i < |head| ensures !IsCut(s, target, i) {
      assert s[i] == head[i];
      assert IsCut(s, target, i) ==> IsCut(head, target, i);
    }
  }

  /** A DN put together from a component and a parent is split into them again. */
  lemma SplitOfJoined(rdn: string, parent: string)
    requires Closed(rdn, ',') && Trimmed(rdn) && Trimmed(parent)
    ensures Split(rdn + "," + parent) == Parts(rdn, parent)
  {
    hide FirstUnescaped, TrimSpace;
    CutAfterClosed(rdn, ',', parent);
    var s := rdn + [','] + parent;
    assert s == rdn + "," + parent && s[..|rdn|] == rdn && s[|rdn| + 1..] == parent;
  }

  /** As for a component made of a name and a value. */
  lemma SplitRdnOfJoined(name: string, value: string)
    requires Closed(name, '=') && Trimmed(name) && name != "" && Trimmed(value)
    ensures SplitRdn(name + "=" + value) == Pair(name, value)
  {
    hide FirstUnescaped, TrimSpace;
    CutAfterClosed(name, '=', value);
    var s := name + ['='] + value;
    assert s == name + "=" + value && s[..|name|] == name && s[|name| + 1..] == value;
  }

  /** The component of a DN has no unescaped comma, though trimming may leave a backslash at its end. */
  lemma RdnHasNoCut(dn: string)
    ensures FirstUnescaped(Split(dn).rdn, ',') == -1 && Trimmed(Split(dn).rdn)
  {
    hide FirstUnescaped, TrimSpace;
    var i := FirstUnescaped(dn, ',');
    var h := if i < 0 then |dn| else i;
    var front := dn[..h];
    var lo, hi := TrimSpaceCut(front);
    var rdn := front[lo..hi];
    assert dn[..|dn|] == dn && Split(dn).rdn == rdn;
    forall j | 0 <= j < |rdn| ensures !IsCut(rdn, ',', j) {
      CutOfTrimmed(dn, h, lo, hi, j);
    }
  }

  /** A cut in a trimmed front part is a cut of the whole. */
  lemma CutOfTrimmed(dn: string, h: nat, lo: nat, hi: nat, j: nat)
    requires lo <= hi <= h <= |dn| && j < hi - lo && forall i :: 0 <= i < lo ==> IsSpace(dn[..h][i])
    ensures IsCut(dn[..h][lo..hi], ',', j) ==> IsCut(dn, ',', lo + j)
  {
    var front, rdn := dn[..h][..hi], dn[..h][lo..hi];
    assert rdn == front[lo..] && front == dn[..hi];
    EscapedAfterSpaces(front, lo);
    EscapedSuffix(front, lo, lo + j);
    EscapedPrefix(dn, hi, lo + j);
    assert rdn[j] == dn[lo + j];
  }

  /**
   Splitting, joining and splitting again gives the same parts if and only if trimming left no escaping backslash
   at the end of the component, as it does when the component ended in an escaped space.
   */
  lemma SplitStable(dn: string)
    ensures var p := Split(dn); Split(p.rdn + "," + p.parent) == p <==> !Escaped(p.rdn, |p.rdn|)
  {
    hide FirstUnescaped, TrimSpace;
    var p := Split(dn);
    RdnHasNoCut(dn);
    if !Escaped(p.rdn, |p.rdn|) {
      assert Trimmed(p.parent) by { SplitParent(dn); }
      SplitOfJoined(p.rdn, p.parent);
    } else {
      EscapedCommaStays(p.rdn, p.parent);
    }
  }

  /** An escaped comma stays in the component. */
  lemma EscapedCommaStays(rdn: string, parent: string)
    requires Escaped(rdn, |rdn|) && Trimmed(rdn) && FirstUnescaped(rdn, ',') == -1
    ensures |Split(rdn + "," + parent).rdn| > |rdn|
  {
    hide FirstUnescaped, TrimSpace;
    var s := rdn + "," + parent;
    var i := FirstUnescaped(s, ',');
    var n := |rdn|;
    assert s[..n] == rdn;
    EscapedPrefix(s, n, n);
    forall j | 0 <= j <= n ensures !IsCut(s, ',', j) {
      if j < n {
        EscapedPrefix(s, n, j);
        assert s[j] == rdn[j];
        assert IsCut(s, ',', j) ==> IsCut(rdn, ',', j);
      }
    }
    var front := s[..if i < 0 then |s| else i];
    assert s[..|s|] == s && |front| > n && front[n] == ',' && front[0] == rdn[0];
    var lo, hi := TrimSpaceCut(front);
    assert lo == 0 && hi > n;
  }

  /** The case is real: an escaped space before the comma. */
  lemma SplitUnstableExample()
    ensures var p := Split("cn=a\\ ,dc=b"); Split(p.rdn + "," + p.parent) != p
  {
    hide FirstUnescaped, TrimSpace;
    var dn := "cn=a\\ ,dc=b";
    assert Escaped(dn, 5) && !Escaped(dn, 6) by {
      assert !Escaped(dn, 4);
    }
    assert dn == "cn=a\\ " + [','] + "dc=b";
    assert IsCut(dn, ',', 6);
    assert FirstUnescaped(dn, ',') == 6;
    var front := dn[..6];
    assert front == "cn=a\\ ";
    assert TrimSpace(front) == "cn=a\\" by {
      assert front[0..5] == "cn=a\\";
      TrimSpaceUnique(front, 0, 5);
    }
    var p := Split(dn);
    assert Escaped(p.rdn, 5) by {
      assert !Escaped("cn=a\\", 4);
    }
    SplitStable(dn);
  }

  /** A component is split if and only if it has an unescaped `=` with something but white space before it. */
  lemma SplitRdnExact(rdn: string)
    ensures SplitRdn(rdn).Pair? <==> exists i :: IsFirstEquals(rdn, i) && TrimSpace(rdn[..i]) != ""
    ensures forall i :: IsFirstEquals(rdn, i) && TrimSpace(rdn[..i]) != "" ==>
      SplitRdn(rdn) == Pair(TrimSpace(rdn[..i]), TrimSpace(rdn[i + 1..]))
  {
    hide TrimSpace, Escaped;
    var i := FirstUnescaped(rdn, '=');
    if i >= 0 {
      forall j | 0 <= j < i && rdn[j] == '=' ensures Escaped(rdn, j) {
        assert IsCut(rdn, '=', j) == !Escaped(rdn, j);
      }
      assert IsFirstEquals(rdn, i);
    }
    forall j | IsFirstEquals(rdn, j) ensures j == i {
      assert IsCut(rdn, '=', j);
    }
  }

  predicate IsFirstEquals(s: string, i: int) {
    0 <= i < |s| && s[i] == '=' && !Escaped(s, i) && forall j :: 0 <= j < i ==> s[j] == '=' ==> Escaped(s, j)
  }
}
