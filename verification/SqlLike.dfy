/** SQLite's LIKE, and the translation of LDAP substring patterns into it. */
module SqlLike {
  import opened Text
  import opened Filters

  /** `text LIKE pattern ESCAPE '\'`; LIKE itself ignores ASCII case. */
  predicate Like(pattern: string, text: string)
    decreases |pattern| + |text|
  {
    if pattern == [] then text == []
    else if pattern[0] == '\\' then
      |pattern| >= 2 && text != [] && LowerChar(text[0]) == LowerChar(pattern[1]) && Like(pattern[2..], text[1..])
    else if pattern[0] == '%' then
      Like(pattern[1..], text) || (text != [] && Like(pattern, text[1..]))
    else
      text != [] && (pattern[0] == '_' || LowerChar(text[0]) == LowerChar(pattern[0])) && Like(pattern[1..], text[1..])
  }

  function LikeChar(c: char): string {
    if c == '*' then "%"
    else if c == ESCAPED_ASTERISK then "*"
    else if c == '%' || c == '_' || c == '\\' then ['\\', c]
    else [c]
  }

  /** ldapSubstringToSQLLike */
  function ToLike(value: string): string {
    if value == [] then [] else LikeChar(value[0]) + ToLike(value[1..])
  }

  lemma ToLikeExtend(value: string, i: nat)
    requires i < |value|
    ensures ToLike(value[..i + 1]) == ToLike(value[..i]) + LikeChar(value[i])
  {
    assert value[..i + 1] == value[..i] + [value[i]];
    ToLikeConcat(value[..i], [value[i]]);
    assert [value[i]][1..] == [];
    assert ToLike([value[i]]) == LikeChar(value[i]);
  }

  method BuildLike(value: string) returns (pattern: string)
    ensures pattern == ToLike(value)
  {
    hide Lower;
    pattern := "";
    for i := 0 to |value|
      invariant pattern == ToLike(value[..i])
    {
      var r := value[i];
      ToLikeExtend(value, i);
      if r == '*' {
        pattern := pattern + "%";
      } else if r == ESCAPED_ASTERISK {
        pattern := pattern + "*";
      } else if r == '%' || r == '_' || r == '\\' {
        pattern := pattern + "\\" + [r];
      } else {
        pattern := pattern + [r];
      }
    }
    assert value[..|value|] == value;
  }

  lemma {:induction false} ToLikeConcat(a: string, b: string)
    ensures ToLike(a + b) == ToLike(a) + ToLike(b)
  {
    if a == [] {
      assert a + b == b;
    } else {
      assert (a + b)[1..] == a[1..] + b;
      ToLikeConcat(a[1..], b);
    }
  }

  lemma {:induction false} ToLikeLower(value: string)
    ensures Lower(ToLike(value)) == ToLike(Lower(value))
  {
    if value != [] {
      ToLikeLower(value[1..]);
      LowerConcat(LikeChar(value[0]), ToLike(value[1..]));
      LowerDrop(value, 1);
      assert Lower(LikeChar(value[0])) == LikeChar(Lower(value)[0]);
    }
  }

  predicate IsLower(s: string) {
    Lower(s) == s
  }

  lemma LowerParts(s: string, i: nat)
    requires i <= |s| && IsLower(s)
    ensures IsLower(s[i..]) && IsLower(s[..i])
  {
    LowerDrop(s, i);
    assert Lower(s[..i]) == Lower(s)[..i];
  }

  /** One pattern character without wildcard matches one character of the text. */
  lemma LikeOne(c: char, rest: string, text: string)
    requires c != '*' && LowerChar(c) == c && IsLower(text)
    ensures Like(LikeChar(c) + rest, text) <==> text != [] && text[0] == LiteralChar(c) && Like(rest, text[1..])
  {
    var p := LikeChar(c) + rest;
    assert p[|LikeChar(c)|..] == rest;
    assert text != [] ==> Lower(text)[0] == text[0];
  }

  /** The translated form of a piece without wildcard matches exactly its literal. */
  lemma {:induction false} LikeLiteral(piece: string, rest: string, text: string)
    requires '*' !in piece && IsLower(piece) && IsLower(text)
    ensures Like(ToLike(piece) + rest, text) <==> Literal(piece) <= text && Like(rest, text[|piece|..])
    decreases |piece|
  {
    hide Like;
    if piece == [] {
      assert ToLike(piece) + rest == rest;
    } else {
      var c, tail := piece[0], piece[1..];
      assert ToLike(piece) + rest == LikeChar(c) + (ToLike(tail) + rest);
      assert Lower(piece)[0] == c;
      LikeOne(c, ToLike(tail) + rest, text);
      if text != [] {
        LowerParts(piece, 1);
        LowerParts(text, 1);
        LikeLiteral(tail, rest, text[1..]);
        assert Literal(piece) == [LiteralChar(c)] + Literal(tail);
        assert text == [text[0]] + text[1..];
        assert Literal(piece) <= text ==> text[1..][|tail|..] == text[|piece|..];
      }
    }
  }

  lemma {:induction false} LikePercent(rest: string, text: string)
    ensures Like("%" + rest, text) <==> exists j: nat :: j <= |text| && Like(rest, text[j..])
    decreases |text|
  {
    var p := "%" + rest;
    assert p[1..] == rest;
    assert text[0..] == text;
    if text != [] {
      LikePercent(rest, text[1..]);
      if Like(p, text[1..]) {
        var j: nat :| j <= |text[1..]| && Like(rest, text[1..][j..]);
        assert text[1..][j..] == text[j + 1..];
      }
      if j: nat :| j <= |text| && Like(rest, text[j..]) && j > 0 {
        var i: nat := j - 1;
        assert text[1..][i..] == text[j..];
      }
    }
  }

  /** A text is the pieces in order, the first at its start, the last at its end. */
  ghost predicate PartsMatch(parts: seq<string>, text: string)
    requires parts != []
  {
    if |parts| == 1 then text == Literal(parts[0])
    else Literal(parts[0]) <= text && exists i: nat :: |parts[0]| <= i <= |text| && PartsMatch(parts[1..], text[i..])
  }

  lemma LikeGap(rest: string, text: string, k: nat)
    requires k <= |text|
    ensures Like("%" + rest, text[k..]) <==> exists j: nat :: k <= j <= |text| && Like(rest, text[j..])
  {
    var t := text[k..];
    LikePercent(rest, t);
    if j: nat :| j <= |t| && Like(rest, t[j..]) {
      assert t[j..] == text[k + j..];
    }
    if j: nat :| k <= j <= |text| && Like(rest, text[j..]) {
      var i: nat := j - k;
      assert t[i..] == text[j..];
    }
  }

  lemma {:induction false} LikeIsParts(pattern: string, text: string)
    requires IsLower(pattern) && IsLower(text)
    ensures Like(ToLike(pattern), text) <==> PartsMatch(Split(pattern, '*'), text)
    decreases |pattern|
  {
    hide Like, Literal, Lower, IndexByte, ToLike, PartsMatch, Split;
    var i := IndexByte(pattern, '*');
    if i < 0 {
      PartsWithoutAsterisk(pattern, text);
      LikeLiteral(pattern, [], text);
      assert ToLike(pattern) + [] == ToLike(pattern);
      if |pattern| <= |text| {
        LikeEmpty(text[|pattern|..]);
      }
    } else {
      var first, tail := pattern[..i], pattern[i + 1..];
      LowerParts(pattern, i);
      LowerParts(pattern, i + 1);
      ToLikeAtAsterisk(pattern, i);
      PartsAtAsterisk(pattern, i, text);
      LikeLiteral(first, "%" + ToLike(tail), text);
      if |first| <= |text| {
        LikeGap(ToLike(tail), text, |first|);
        forall j: nat | |first| <= j <= |text|
          ensures Like(ToLike(tail), text[j..]) <==> PartsMatch(Split(tail, '*'), text[j..])
        {
          LowerParts(text, j);
          LikeIsParts(tail, text[j..]);
        }
      }
    }
  }

  lemma PartsWithoutAsterisk(pattern: string, text: string)
    requires IndexByte(pattern, '*') < 0
    ensures PartsMatch(Split(pattern, '*'), text) <==> text == Literal(pattern)
  {
    hide IndexByte, Literal;
  }

  lemma PartsAtAsterisk(pattern: string, i: nat, text: string)
    requires i < |pattern| && i == IndexByte(pattern, '*')
    ensures var first, tail := pattern[..i], pattern[i + 1..];
      PartsMatch(Split(pattern, '*'), text) <==>
        Literal(first) <= text && exists j: nat :: |first| <= j <= |text| && PartsMatch(Split(tail, '*'), text[j..])
  {
    hide IndexByte, Literal;
    var parts := Split(pattern, '*');
    assert parts[1..] == Split(pattern[i + 1..], '*') && parts[0] == pattern[..i];
  }

  lemma LikeEmpty(text: string)
    ensures Like([], text) <==> text == []
  {
  }

  lemma ToLikeAtAsterisk(pattern: string, i: nat)
    requires i < |pattern| && pattern[i] == '*'
    ensures ToLike(pattern) == ToLike(pattern[..i]) + ("%" + ToLike(pattern[i + 1..]))
  {
    var first, tail := pattern[..i], pattern[i + 1..];
    assert pattern == first + ("*" + tail);
    ToLikeConcat(first, "*" + tail);
    assert ("*" + tail)[1..] == tail;
  }

  lemma MiddlesOfTail(parts: seq<string>)
    requires |parts| >= 3
    ensures var middles := parts[1..|parts| - 1];
      middles[0] == parts[1] && middles[1..] == parts[1..][1..|parts| - 2]
  {
    var n := |parts|;
    assert parts[1..n - 1][1..] == parts[2..n - 1];
    assert parts[1..][1..n - 2] == parts[2..n - 1];
  }

  lemma AssembleOne(gap: string, last: string)
    ensures Assemble([gap], [], last) == gap + last
  {
  }

  lemma AssembleMore(gap: string, gaps: seq<string>, piece: string, middles: seq<string>, last: string)
    requires |gaps| == |middles| + 1
    ensures Assemble([gap] + gaps, [piece] + middles, last) == gap + Literal(piece) + Assemble(gaps, middles, last)
  {
    assert ([gap] + gaps)[1..] == gaps && ([piece] + middles)[1..] == middles;
  }

  lemma SplitAtGap(text: string, first: string, i: nat, piece: string, rest: string)
    requires first <= text && |first| <= i <= |text| && text[i..] == piece + rest
    ensures text == first + (text[|first|..i] + piece + rest)
  {
    assert text == text[..|first|] + text[|first|..i] + text[i..];
  }

  /** The gaps of the tail of a split, with the gap before it, are the gaps of the whole. */
  lemma GapsOfTail(parts: seq<string>, text: string, i: nat, rest: seq<string>)
    requires |parts| >= 3 && |rest| == |parts| - 2
    requires |parts[0]| <= i <= |text| && Literal(parts[0]) <= text
    requires text[i..] == Literal(parts[1]) + Assemble(rest, parts[1..][1..|parts| - 2], Literal(parts[|parts| - 1]))
    ensures text == Literal(parts[0]) +
      Assemble([text[|parts[0]|..i]] + rest, parts[1..|parts| - 1], Literal(parts[|parts| - 1]))
  {
    hide Literal, Assemble;
    var middles, gap, last := parts[1..|parts| - 1], text[|parts[0]|..i], Literal(parts[|parts| - 1]);
    MiddlesOfTail(parts);
    AssembleMore(gap, rest, parts[1], middles[1..], last);
    SplitAtGap(text, Literal(parts[0]), i, Literal(parts[1]), Assemble(rest, middles[1..], last));
    assert [parts[1]] + middles[1..] == middles;
  }

  lemma GapOfTwo(parts: seq<string>, text: string, i: nat)
    requires |parts| == 2
    requires |parts[0]| <= i <= |text| && Literal(parts[0]) <= text && text[i..] == Literal(parts[1])
    ensures text == Literal(parts[0]) + Assemble([text[|parts[0]|..i]], parts[1..1], Literal(parts[1]))
  {
    hide Literal, Assemble;
    assert parts[1..1] == [];
    AssembleOne(text[|parts[0]|..i], Literal(parts[1]));
    assert text == Literal(parts[0]) + (text[|parts[0]|..i] + text[i..]);
  }

  lemma {:induction false} PartsHaveGaps(parts: seq<string>, text: string) returns (gaps: seq<string>)
    requires |parts| >= 2 && PartsMatch(parts, text)
    ensures |gaps| == |parts| - 1
    ensures text == Literal(parts[0]) + Assemble(gaps, parts[1..|parts| - 1], Literal(parts[|parts| - 1]))
    decreases |parts|
  {
    hide Literal, Assemble;
    var i: nat :| |parts[0]| <= i <= |text| && PartsMatch(parts[1..], text[i..]);
    if |parts| == 2 {
      gaps := [text[|parts[0]|..i]];
      GapOfTwo(parts, text, i);
    } else {
      var rest := PartsHaveGaps(parts[1..], text[i..]);
      gaps := [text[|parts[0]|..i]] + rest;
      GapsOfTail(parts, text, i, rest);
    }
  }

  lemma {:induction false} GapsMatchParts(parts: seq<string>, text: string, gaps: seq<string>)
    requires |parts| >= 2 && |gaps| == |parts| - 1
    requires text == Literal(parts[0]) + Assemble(gaps, parts[1..|parts| - 1], Literal(parts[|parts| - 1]))
    ensures PartsMatch(parts, text)
    decreases |parts|
  {
    hide Literal;
    var first, middles, last := parts[0], parts[1..|parts| - 1], Literal(parts[|parts| - 1]);
    var i: nat := |first| + |gaps[0]|;
    if |parts| == 2 {
      assert text[i..] == last;
    } else {
      MiddlesOfTail(parts);
      var rest := Literal(parts[1]) + Assemble(gaps[1..], middles[1..], last);
      assert text == Literal(first) + gaps[0] + rest;
      assert text[i..] == rest;
      GapsMatchParts(parts[1..], text[i..], gaps[1..]);
    }
    assert PartsMatch(parts[1..], text[i..]);
  }

  lemma PartsMatchSplits(parts: seq<string>, text: string)
    requires |parts| >= 2
    ensures PartsMatch(parts, text) <==>
      SplitsInto(text, Literal(parts[0]), parts[1..|parts| - 1], Literal(parts[|parts| - 1]))
  {
    var middles, last := parts[1..|parts| - 1], Literal(parts[|parts| - 1]);
    if PartsMatch(parts, text) {
      var gaps := PartsHaveGaps(parts, text);
    }
    if gaps: seq<string> :| |gaps| == |middles| + 1 && text == Literal(parts[0]) + Assemble(gaps, middles, last) {
      GapsMatchParts(parts, text, gaps);
    }
  }

  /**
   SQL's answer and the in-memory answer to a substring filter agree: LIKE on the lowered translation accepts
   exactly the values matchSubstring accepts, with literal %, _, \ and escaped asterisks in the pattern.
   */
  lemma LikeAgreesWithMatchSubstring(value: string, pattern: string)
    requires '*' in pattern
    ensures Like(Lower(ToLike(pattern)), Lower(value)) <==> MatchSubstring(value, pattern)
  {
    hide Like, ToLike, Literal, Split, PartsMatch, MatchSubstring, SplitsInto, Lower;
    var v, p := Lower(value), Lower(pattern);
    LowerIdempotent(value);
    LowerIdempotent(pattern);
    ToLikeLower(pattern);
    LikeIsParts(p, v);
    MatchSubstringExact(value, pattern);
    PartsMatchSplits(Split(p, '*'), v);
  }

  /** Why a value is escaped: `_` and `%` of a pattern stand for any character and any text. */
  lemma {:induction false} WildcardsOfLike(text: string)
    ensures Like("%", text) && (Like("_", text) <==> |text| == 1)
    ensures ToLike("_") == "\\_" && ToLike("%") == "\\%"
    ensures Like(ToLike("_"), text) <==> text == "_"
    ensures Like(ToLike("%"), text) <==> text == "%"
    decreases |text|
  {
    assert "_"[1..] == [] && "%"[1..] == [] && "\\_"[2..] == [] && "\\%"[2..] == [];
    assert ToLike([]) == [] && LikeChar('_') == "\\_" && LikeChar('%') == "\\%";
    if text == [] {
      assert Like([], []);
    } else {
      WildcardsOfLike(text[1..]);
      LikeEmpty(text[1..]);
      assert text == [text[0]] + text[1..];
    }
  }

  /** LIKE takes no notice of case. */
  lemma {:induction false} LikeIgnoresCase(pattern: string, a: string, b: string)
    requires EqualFold(a, b)
    ensures Like(pattern, a) == Like(pattern, b)
    decreases |pattern| + |a|
  {
    hide Lower;
    assert |Lower(a)| == |a| && |Lower(b)| == |b|;
    if pattern != [] && a != [] {
      assert Lower(a)[0] == LowerChar(a[0]) && Lower(b)[0] == LowerChar(b[0]);
      LowerDrop(a, 1);
      LowerDrop(b, 1);
      LikeIgnoresCase(pattern, a[1..], b[1..]);
      LikeIgnoresCase(pattern[1..], a[1..], b[1..]);
      if |pattern| >= 2 {
        LikeIgnoresCase(pattern[2..], a[1..], b[1..]);
      }
    }
    if pattern != [] {
      LikeIgnoresCase(pattern[1..], a, b);
    }
  }
}
