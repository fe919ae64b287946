/** What a decoded substring filter means (RFC 4511 section 4.5.1.7.2), and when the served filter means it. */
module SubstringMeaning {
  import opened Text
  import opened Filters
  import opened FilterParser
  import opened FilterSerializer
  import opened FilterRoundTrip
  import opened SqlLike

  /** At most one initial piece, first; at most one final piece, last; no empty piece. */
  predicate WellFormedPieces(pieces: seq<Piece>) {
    pieces != [] && forall i :: 0 <= i < |pieces| ==>
      pieces[i].value != "" && ESCAPED_ASTERISK !in pieces[i].value
      && (pieces[i].kind == Initial ==> i == 0) && (pieces[i].kind == Final ==> i == |pieces| - 1)
  }

  /** The pieces stand in `v` in order: the initial one at its start, the final one at its end. */
  ghost predicate InOrder(v: string, pieces: seq<Piece>)
    decreases |pieces|
  {
    if pieces == [] then true
    else
      var x := Lower(pieces[0].value);
      match pieces[0].kind
      case Initial => x <= v && InOrder(v[|x|..], pieces[1..])
      case Any => exists i :: 0 <= i <= |v| - |x| && OccursAt(v, x, i) && InOrder(v[i + |x|..], pieces[1..])
      case Final => HasSuffix(v, x)
  }

  /** The test Matches makes on one value of the ordinary attribute `a`: none if it is about another one. */
  predicate ValueTest(f: Filter, a: string, v: string) {
    match f
    case Present(b) => EqualFold(b, a)
    case Equality(b, value) => EqualFold(b, a) && Lower(v) == Lower(value)
    case Substrings(b, value) => EqualFold(b, a) && MatchSubstring(v, value)
    case GreaterOrEqual(b, value) => EqualFold(b, a) && StringLe(value, v)
    case LessOrEqual(b, value) => EqualFold(b, a) && StringLe(v, value)
    case Approx(b, value) => EqualFold(b, a) && v == value
    case _ => false
  }

  // ---- The pieces of the pattern ----

  function PieceOf(piece: Piece): string {
    Lower(PatternText(piece.value))
  }

  function PartsOf(pieces: seq<Piece>): (parts: seq<string>)
    ensures parts != []
  {
    if pieces == [] then [""]
    else if pieces[0].kind == Final then [PieceOf(pieces[0])]
    else [PieceOf(pieces[0])] + PartsOf(pieces[1..])
  }

  lemma PieceLiteral(piece: Piece)
    requires ESCAPED_ASTERISK !in piece.value
    ensures Literal(PieceOf(piece)) == Lower(piece.value) && '*' !in PieceOf(piece)
  {
    forall i | 0 <= i < |piece.value| ensures Literal(PieceOf(piece))[i] == Lower(piece.value)[i] && PieceOf(piece)[i] != '*' {
      assert piece.value[i] in piece.value;
    }
  }

  lemma SplitNone(s: string)
    requires '*' !in s
    ensures Split(s, '*') == [s]
  {
  }

  lemma SplitAtStar(p: string, rest: string)
    requires '*' !in p
    ensures Split(p + "*" + rest, '*') == [p] + Split(rest, '*')
  {
    hide IndexByte;
    var s := p + "*" + rest;
    assert s[|p|] == '*';
    forall j | 0 <= j < |p| ensures s[j] != '*' {
      assert s[j] in p;
    }
    FirstByte(s, '*', |p|);
    assert s[..|p|] == p && s[|p| + 1..] == rest;
  }

  /** What stands after some first piece: no initial piece any more. */
  predicate Tail(pieces: seq<Piece>) {
    forall i :: 0 <= i < |pieces| ==>
      ESCAPED_ASTERISK !in pieces[i].value && pieces[i].kind != Initial
      && (pieces[i].kind == Final ==> i == |pieces| - 1)
  }

  lemma {:induction false} SplitPattern(pieces: seq<Piece>)
    requires pieces == [] || (ESCAPED_ASTERISK !in pieces[0].value && Tail(pieces[1..]) && (pieces[0].kind == Final ==> |pieces| == 1))
    ensures Split(Lower(Pattern(pieces)), '*') == PartsOf(pieces)
  {
    hide Split, Lower, PatternText;
    if pieces == [] {
      SplitNone("");
      assert Lower("") == "";
    } else {
      var p, rest := PatternText(pieces[0].value), Pattern(pieces[1..]);
      PieceLiteral(pieces[0]);
      if pieces[0].kind == Final {
        SplitNone(PieceOf(pieces[0]));
        assert rest == "" && Pattern(pieces) == p + "" + "" == p;
      } else {
        LowerConcat(p + "*", rest);
        LowerConcat(p, "*");
        assert Lower("*") == "*";
        SplitAtStar(PieceOf(pieces[0]), Lower(rest));
        assert pieces[1..] != [] ==> pieces[1..][0] == pieces[1] && Tail(pieces[1..][1..]);
        SplitPattern(pieces[1..]);
      }
    }
  }

  /** A gap and then the rest of the pattern: the rest of the pieces in order. */
  lemma {:induction false} GapThenPieces(pieces: seq<Piece>, text: string, k: nat)
    requires Tail(pieces) && k <= |text|
    ensures (exists i: nat :: k <= i <= |text| && PartsMatch(PartsOf(pieces), text[i..])) <==> InOrder(text[k..], pieces)
    decreases |pieces|, 3
  {
    var v := text[k..];
    if pieces == [] {
      assert PartsMatch(PartsOf(pieces), text[|text|..]);
    } else {
      var x := Lower(pieces[0].value);
      PieceLiteral(pieces[0]);
      if pieces[0].kind == Final {
        if i: nat :| k <= i <= |text| && PartsMatch(PartsOf(pieces), text[i..]) {
          assert text[i..] == x;
          assert v[|v| - |x|..] == text[i..];
        }
        if HasSuffix(v, x) {
          var i: nat := |text| - |x|;
          assert text[i..] == v[|v| - |x|..];
          assert PartsMatch(PartsOf(pieces), text[i..]);
        }
      } else {
        GapThenAny(pieces, text, k);
      }
    }
  }

  lemma OccursShift(text: string, x: string, k: nat, j: int)
    requires k <= |text| && j >= 0
    ensures OccursAt(text[k..], x, j) <==> OccursAt(text, x, k + j)
    ensures OccursAt(text, x, k + j) ==> j <= |text| - k - |x|
    ensures OccursAt(text, x, k + j) ==> text[k..][j + |x|..] == text[k + j + |x|..]
  {
    if k + j + |x| <= |text| {
      assert text[k..][j..j + |x|] == text[k + j..k + j + |x|];
    }
  }

  lemma GapThenAny(pieces: seq<Piece>, text: string, k: nat)
    requires Tail(pieces) && k <= |text| && pieces != [] && pieces[0].kind == Any
    ensures (exists i: nat :: k <= i <= |text| && PartsMatch(PartsOf(pieces), text[i..])) <==> InOrder(text[k..], pieces)
    decreases |pieces|, 2
  {
    hide PartsMatch, PieceOf, OccursAt, PartsOf, Tail, Lower, InOrder;
    if i: nat :| k <= i <= |text| && PartsMatch(PartsOf(pieces), text[i..]) {
      AnyPartsMatch(pieces, text, i);
      OccurrenceInOrder(pieces, text, k, i);
    }
    if InOrder(text[k..], pieces) {
      var i := InOrderOccurrence(pieces, text, k);
      AnyPartsMatch(pieces, text, i);
    }
  }

  lemma OccurrenceInOrder(pieces: seq<Piece>, text: string, k: nat, i: nat)
    requires k <= i <= |text| && Tail(pieces) && pieces != [] && pieces[0].kind == Any
    requires var x := Lower(pieces[0].value); OccursAt(text, x, i) && InOrder(text[i + |x|..], pieces[1..])
    ensures InOrder(text[k..], pieces)
  {
    hide OccursAt, Tail, Lower;
    OccursShift(text, Lower(pieces[0].value), k, i - k);
  }

  lemma InOrderOccurrence(pieces: seq<Piece>, text: string, k: nat) returns (i: nat)
    requires k <= |text| && Tail(pieces) && pieces != [] && pieces[0].kind == Any && InOrder(text[k..], pieces)
    ensures k <= i <= |text|
    ensures var x := Lower(pieces[0].value); OccursAt(text, x, i) && InOrder(text[i + |x|..], pieces[1..])
  {
    hide OccursAt, Tail, Lower;
    var v, x := text[k..], Lower(pieces[0].value);
    var j: int :| 0 <= j <= |v| - |x| && OccursAt(v, x, j) && InOrder(v[j + |x|..], pieces[1..]);
    i := k + j;
    OccursShift(text, x, k, j);
  }

  lemma AnyPartsMatch(pieces: seq<Piece>, text: string, i: nat)
    requires Tail(pieces) && i <= |text| && pieces != [] && pieces[0].kind != Final
    ensures var x := Lower(pieces[0].value);
      PartsMatch(PartsOf(pieces), text[i..]) <==> OccursAt(text, x, i) && InOrder(text[i + |x|..], pieces[1..])
    decreases |pieces|, 1
  {
    hide PartsMatch, PartsOf, InOrder;
    var x, t := Lower(pieces[0].value), text[i..];
    FirstThenGap(pieces, t);
    OccursShift(text, x, i, 0);
    assert |x| <= |t| ==> t[0..|x|] == t[..|x|];
  }

  /** A first piece with a wildcard after it, then the rest. */
  lemma FirstThenGap(pieces: seq<Piece>, t: string)
    requires pieces != [] && pieces[0].kind != Final && ESCAPED_ASTERISK !in pieces[0].value && Tail(pieces[1..])
    ensures var x := Lower(pieces[0].value);
      PartsMatch(PartsOf(pieces), t) <==> x <= t && InOrder(t[|x|..], pieces[1..])
    decreases |pieces|, 0
  {
    var x, parts, rest := Lower(pieces[0].value), PartsOf(pieces), pieces[1..];
    PieceLiteral(pieces[0]);
    assert parts[1..] == PartsOf(rest);
    if |x| <= |t| {
      GapThenPieces(rest, t, |x|);
    }
  }

  // ---- The served filter ----

  lemma MatchIsParts(v: string, pattern: string)
    requires '*' in pattern
    ensures MatchSubstring(v, pattern) <==> PartsMatch(Split(Lower(pattern), '*'), Lower(v))
  {
    hide MatchSubstring, Split, PartsMatch, SplitsInto, Literal;
    MatchSubstringExact(v, pattern);
    PartsMatchSplits(Split(Lower(pattern), '*'), Lower(v));
  }

  lemma {:induction false} PatternStar(pieces: seq<Piece>)
    requires pieces != [] && pieces[0].kind != Final
    ensures '*' in Pattern(pieces)
  {
    var p := PatternText(pieces[0].value);
    assert Pattern(pieces)[|p|] == '*';
  }

  /** A pattern whose pieces begin with a wildcarded piece tests that piece at the very start of the value. */
  lemma PatternMeans(pieces: seq<Piece>, v: string)
    requires WellFormedPieces(pieces) && pieces[0].kind != Final
    ensures var x := Lower(pieces[0].value);
      MatchSubstring(v, Pattern(pieces)) <==> x <= Lower(v) && InOrder(Lower(v)[|x|..], pieces[1..])
  {
    hide MatchSubstring, PartsMatch, Pattern, PartsOf, Split;
    PatternStar(pieces);
    MatchIsParts(v, Pattern(pieces));
    assert Tail(pieces[1..]);
    SplitPattern(pieces);
    FirstThenGap(pieces, Lower(v));
  }

  /** The pieces with nothing between them. */
  function Packed(pieces: seq<Piece>): string {
    if pieces == [] then "" else Lower(pieces[0].value) + Packed(pieces[1..])
  }

  lemma {:induction false} PackedInOrder(pieces: seq<Piece>)
    requires forall i :: 0 <= i < |pieces| && pieces[i].kind == Final ==> i == |pieces| - 1
    ensures InOrder(Packed(pieces), pieces)
  {
    if pieces != [] {
      var x, rest := Lower(pieces[0].value), Packed(pieces[1..]);
      var v := Packed(pieces);
      assert v[..|x|] == x && v[0..|x|] == x;
      assert v[0 + |x|..] == rest;
      if pieces[0].kind == Final {
        assert pieces[1..] == [];
        assert v == x + "" == x;
        assert v[|v| - |x|..] == x;
      } else {
        PackedInOrder(pieces[1..]);
        assert OccursAt(v, x, 0);
      }
    }
  }

  lemma {:induction false} PackedLower(pieces: seq<Piece>)
    ensures Lower(Packed(pieces)) == Packed(pieces)
  {
    if pieces != [] {
      PackedLower(pieces[1..]);
      LowerConcat(Lower(pieces[0].value), Packed(pieces[1..]));
      LowerIdempotent(pieces[0].value);
    }
  }

  /** A value the pieces match only after some other first character. */
  function OffsetValue(pieces: seq<Piece>): string
    requires WellFormedPieces(pieces)
  {
    [if Lower(pieces[0].value)[0] == 'a' then 'b' else 'a'] + Packed(pieces)
  }

  lemma OffsetShape(pieces: seq<Piece>)
    requires WellFormedPieces(pieces)
    ensures var v, x := OffsetValue(pieces), Lower(pieces[0].value);
      v == [v[0]] + (x + Packed(pieces[1..])) && v[0] != x[0]
    ensures Lower(OffsetValue(pieces)) == OffsetValue(pieces)
  {
    var v := OffsetValue(pieces);
    PackedLower(pieces);
    LowerConcat([v[0]], Packed(pieces));
    assert Lower([v[0]]) == [v[0]];
    PackedSplit(pieces);
  }

  lemma OffsetInOrder(pieces: seq<Piece>)
    requires WellFormedPieces(pieces) && pieces[0].kind != Initial
    ensures InOrder(Lower(OffsetValue(pieces)), pieces)
  {
    hide Lower, Packed, InOrder, OffsetValue;
    var v, x, rest := OffsetValue(pieces), Lower(pieces[0].value), Packed(pieces[1..]);
    OffsetShape(pieces);
    if pieces[0].kind == Any {
      assert v[1..1 + |x|] == x && v[1 + |x|..] == rest;
      PackedInOrder(pieces[1..]);
      AnyIsInOrder(v, pieces, 1);
    } else {
      PackedSplit(pieces);
      assert pieces[1..] == [];
      assert v[|v| - |x|..] == x;
      FinalIsInOrder(v, pieces);
    }
  }

  lemma AnyIsInOrder(v: string, pieces: seq<Piece>, i: nat)
    requires pieces != [] && pieces[0].kind == Any
    requires var x := Lower(pieces[0].value); OccursAt(v, x, i) && InOrder(v[i + |x|..], pieces[1..])
    ensures InOrder(v, pieces)
  {
  }

  lemma FinalIsInOrder(v: string, pieces: seq<Piece>)
    requires pieces != [] && pieces[0].kind == Final && HasSuffix(v, Lower(pieces[0].value))
    ensures InOrder(v, pieces)
  {
  }

  lemma PackedSplit(pieces: seq<Piece>)
    requires pieces != []
    ensures Packed(pieces) == Lower(pieces[0].value) + Packed(pieces[1..])
    ensures Packed([]) == ""
  {
  }

  lemma FinalReads(a: string, pieces: seq<Piece>)
    requires PlainAttribute(a) && WellFormedPieces(pieces) && pieces[0].kind == Final
    requires var body := Body(pieces); Trimmed(body) && !HasPair(body, '>') && !HasPair(body, '<') && !HasPair(body, '~')
    ensures ParseItem(a + "=" + Body(pieces)) == Item(Equality(a, pieces[0].value))
  {
    hide Body, ParseItem, HasPair, Decode, Trimmed, HasWildcard;
    TrimmedIsShortest(Body(pieces));
    EqualsReads(a, Body(pieces));
    BodyOfFinal(pieces);
    DecodeWhole(pieces[0].value);
    EscapedHasNoStar(pieces[0].value);
  }

  lemma StarredReads(a: string, pieces: seq<Piece>)
    requires PlainAttribute(a) && WellFormedPieces(pieces) && pieces[0].kind != Final
    requires var body := Body(pieces); Trimmed(body) && !HasPair(body, '>') && !HasPair(body, '<') && !HasPair(body, '~')
    ensures ParseItem(a + "=" + Body(pieces)) == Item(Substrings(a, Pattern(pieces)))
  {
    hide Body, Pattern, ParseItem, HasPair, Decode, Trimmed, HasWildcard;
    TrimmedIsShortest(Body(pieces));
    EqualsReads(a, Body(pieces));
    DecodeBody(pieces);
    BodyWildcard(pieces);
    assert pieces[0] in pieces && HasStar(pieces);
    BodyIsLong(pieces);
  }

  lemma SubstringsRead(a: string, pieces: seq<Piece>)
    requires PlainAttribute(a) && WellFormedPieces(pieces)
    requires var body := Body(pieces); Trimmed(body) && !HasPair(body, '>') && !HasPair(body, '<') && !HasPair(body, '~')
    ensures Reads(WireSubstrings(a, pieces)) ==
      if pieces[0].kind == Final then Equality(a, pieces[0].value) else Substrings(a, Pattern(pieces))
  {
    hide Body, Pattern, ParseItem, HasPair, Trimmed;
    if pieces[0].kind == Final {
      FinalReads(a, pieces);
    } else {
      StarredReads(a, pieces);
    }
  }

  lemma BodyOfFinal(pieces: seq<Piece>)
    requires WellFormedPieces(pieces) && pieces[0].kind == Final
    ensures Body(pieces) == Escape(pieces[0].value)
  {
    assert pieces[1..] == [];
    assert Body(pieces) == Escape(pieces[0].value) + "";
  }

  lemma BodyIsLong(pieces: seq<Piece>)
    requires WellFormedPieces(pieces) && pieces[0].kind != Final
    ensures |Body(pieces)| >= 2
  {
    assert Escape(pieces[0].value) != "";
  }

  // ---- Texts that are not read back ----

  lemma {:induction false} InOrderIsLong(v: string, pieces: seq<Piece>)
    requires InOrder(v, pieces) && forall i :: 0 <= i < |pieces| && pieces[i].kind == Final ==> i == |pieces| - 1
    ensures |v| >= |Packed(pieces)|
    decreases |pieces|
  {
    hide Lower, OccursAt;
    if pieces != [] {
      var x := Lower(pieces[0].value);
      match pieces[0].kind
      case Initial => InOrderIsLong(v[|x|..], pieces[1..]);
      case Any =>
        var i: int :| 0 <= i <= |v| - |x| && OccursAt(v, x, i) && InOrder(v[i + |x|..], pieces[1..]);
        InOrderIsLong(v[i + |x|..], pieces[1..]);
      case Final => assert pieces[1..] == [] && Packed([]) == "";
    }
  }

  /** The text of a pattern without its wildcards. */
  function Bare(pattern: string): string {
    if pattern == "" then ""
    else (if pattern[0] == '*' then "" else [LiteralChar(LowerChar(pattern[0]))]) + Bare(pattern[1..])
  }

  lemma {:induction false} BareConcat(a: string, b: string)
    ensures Bare(a + b) == Bare(a) + Bare(b)
  {
    hide LowerChar, LiteralChar;
    if a == "" {
      assert a + b == b;
    } else {
      assert (a + b)[1..] == a[1..] + b;
      BareConcat(a[1..], b);
    }
  }

  lemma {:induction false} BareLower(pattern: string)
    ensures Lower(Bare(pattern)) == Bare(pattern)
  {
    if pattern != "" {
      BareLower(pattern[1..]);
      var c := if pattern[0] == '*' then "" else [LiteralChar(LowerChar(pattern[0]))];
      LowerConcat(c, Bare(pattern[1..]));
      assert Lower(c) == c;
    }
  }

  lemma {:induction false} BareOfPiece(p: string)
    requires '*' !in p
    ensures Bare(p) == Literal(Lower(p)) && |Bare(p)| == |p|
  {
    if p != "" {
      assert p[0] in p;
      BareOfPiece(p[1..]);
      LowerConcat([p[0]], p[1..]);
      assert p == [p[0]] + p[1..];
    }
  }

  /** A pattern without its wildcards matches the pattern. */
  lemma {:induction false} BareMatches(pattern: string)
    ensures PartsMatch(Split(Lower(pattern), '*'), Bare(pattern))
  {
    hide Split, Lower, Bare, IndexByte, Literal;
    var i := IndexByte(pattern, '*');
    if i < 0 {
      BareOfPiece(pattern);
      LowerKeepsAsterisk(pattern);
      SplitNone(Lower(pattern));
    } else {
      var p, rest := pattern[..i], pattern[i + 1..];
      var tail := Bare(rest);
      assert pattern == p + "*" + rest;
      BareMatches(rest);
      BareSplit(p, rest);
      assert (Bare(p) + tail)[|p|..] == tail && Bare(p) <= Bare(p) + tail;
      assert Split(Lower(pattern), '*')[1..] == Split(Lower(rest), '*');
    }
  }

  lemma BareSplit(p: string, rest: string)
    requires '*' !in p
    ensures Bare(p + "*" + rest) == Bare(p) + Bare(rest) && Bare(p) == Literal(Lower(p)) && |Bare(p)| == |p|
    ensures Split(Lower(p + "*" + rest), '*') == [Lower(p)] + Split(Lower(rest), '*')
  {
    hide Split, Lower, Literal;
    BareConcat(p + "*", rest);
    BareConcat(p, "*");
    BareOfPiece(p);
    assert Bare("*") == "" && Bare(p) + "" == Bare(p);
    LowerConcat(p + "*", rest);
    LowerConcat(p, "*");
    assert Lower("*") == "*" by { StarLower(); }
    LowerKeepsAsterisk(p);
    SplitAtStar(Lower(p), Lower(rest));
  }

  lemma StarLower()
    ensures Lower("*") == "*"
  {
  }

  lemma {:induction false} PatternBare(pieces: seq<Piece>)
    requires forall i :: 0 <= i < |pieces| ==> ESCAPED_ASTERISK !in pieces[i].value
    ensures |Bare(Pattern(pieces))| == |Packed(pieces)|
  {
    hide Bare, Lower, PatternText;
    if pieces != [] {
      var p, star, rest := PatternText(pieces[0].value), if pieces[0].kind == Final then "" else "*", Pattern(pieces[1..]);
      PatternBare(pieces[1..]);
      BareConcat(p + star, rest);
      BareConcat(p, star);
      PatternTextHasNoStar(pieces[0].value);
      BareOfPiece(p);
      assert |Lower(pieces[0].value)| == |pieces[0].value|;
      assert Bare(star) == "" by { BareStar(); }
    } else {
      BareStar();
    }
  }

  lemma BareStar()
    ensures Bare("*") == "" && Bare("") == ""
  {
  }

  lemma PatternTextHasNoStar(value: string)
    ensures '*' !in PatternText(value)
  {
  }

  lemma SpacesAreBare(s: string)
    requires forall c :: c in s ==> IsSpace(c)
    ensures |Bare(s)| == |s|
  {
    assert '*' !in s;
    BareOfPiece(s);
  }

  /** The text of a body that has lost outer spaces is shorter than all its pieces together. */
  lemma TrimmedBodyIsShort(pieces: seq<Piece>)
    requires WellFormedPieces(pieces) && !Trimmed(Body(pieces))
    ensures |Bare(Decode(TrimSpace(Body(pieces)), true))| < |Packed(pieces)|
  {
    hide Body, Decode, TrimSpace, Trimmed, Bare, Pattern, Packed, IsSpace;
    var body := Body(pieces);
    var a, b := DecodeTrimmed(body);
    var inner := Decode(TrimSpace(body), true);
    TrimmedIsShortest(body);
    DecodeBody(pieces);
    PatternBare(pieces);
    BareConcat(a, inner + b);
    BareConcat(inner, b);
    SpacesAreBare(a);
    SpacesAreBare(b);
  }

  lemma {:induction false} WildcardDecoded(s: string)
    ensures HasWildcard(s) <==> '*' in Decode(s, true)
    ensures |Decode(s, false)| == |Decode(s, true)|
  {
    hide DecodedChar, IsHexByte;
    if s != "" {
      if StartsEscape(s) {
        WildcardDecoded(s[3..]);
        PreservedIsNoStar(s);
      } else {
        WildcardDecoded(s[1..]);
      }
    }
  }

  lemma PreservedIsNoStar(s: string)
    requires StartsEscape(s)
    ensures DecodedChar(s, true) != '*' && |s| >= 3
  {
  }

  /** What the body is read as, without an operator in it. */
  function ReadText(a: string, raw: string): Filter {
    if raw == "*" then Present(a) else if HasWildcard(raw) then Substrings(a, Decode(raw, true)) else Equality(a, Decode(raw, false))
  }

  /** Some value no longer than the bare text passes the test that is read. */
  lemma ShortValue(a: string, raw: string) returns (v: string)
    ensures ValueTest(ReadText(a, raw), a, v) && |v| <= |Bare(Decode(raw, true))|
  {
    hide Decode, HasWildcard, MatchSubstring, Split, Bare, PartsMatch, Lower;
    var p := Decode(raw, true);
    WildcardDecoded(raw);
    if raw == "*" {
      v := "";
    } else if HasWildcard(raw) {
      v := Bare(p);
      BareLower(p);
      BareMatches(p);
      MatchIsParts(v, p);
    } else {
      v := Decode(raw, false);
      BareOfPiece(p);
    }
  }

  lemma OuterSpaceFails(a: string, pieces: seq<Piece>) returns (v: string)
    requires PlainAttribute(a) && WellFormedPieces(pieces) && !Trimmed(Body(pieces)) && !HasOperator(Body(pieces))
    ensures ValueTest(Reads(WireSubstrings(a, pieces)), a, v) && !InOrder(Lower(v), pieces)
  {
    hide Body, Decode, TrimSpace, Trimmed, HasPair, ParseItem, InOrder, Bare, Packed, ReadText, ValueTest, Reads, Lower;
    hide HasWildcard, PlainAttribute;
    var raw := TrimSpace(Body(pieces));
    EqualsReads(a, Body(pieces));
    ReadTextUnfold(a, raw);
    SubstringsAsItem(a, pieces);
    v := ShortValue(a, raw);
    TrimmedBodyIsShort(pieces);
    if InOrder(Lower(v), pieces) {
      assert |Lower(v)| == |v|;
      InOrderIsLong(Lower(v), pieces);
    }
  }

  lemma ReadTextUnfold(a: string, raw: string)
    ensures ReadText(a, raw) ==
      if raw == "*" then Present(a) else if HasWildcard(raw) then Substrings(a, Decode(raw, true)) else Equality(a, Decode(raw, false))
  {
  }

  predicate HasOperator(text: string) {
    HasPair(text, '>') || HasPair(text, '<') || HasPair(text, '~')
  }

  /** Where an operator is read, `=` has become part of the attribute. */
  lemma OperatorMovesAttribute(a: string, text: string, c: char)
    requires PlainAttribute(a) && IsOperatorChar(c)
    ensures var part := a + "=" + text; var i := Index(part, [c, '=']);
      i >= 0 ==> |a| < i <= |part| && '=' in part[..i] && !EqualFold(TrimSpace(part[..i]), a)
  {
    hide TrimSpace, Lower, IndexFrom;
    var part := a + "=" + text;
    forall j | 0 <= j < |a| ensures part[j] == a[j] && part[j] != '=' {
      assert a[j] in a;
    }
    assert part[|a|] == '=';
    var i := Index(part, [c, '=']);
    if i >= 0 {
      PairIsOccurrence(part, c, i);
      assert part[..i][|a|] == '=';
      EqualsStays(part[..i]);
      EqualsFolds(TrimSpace(part[..i]), a);
    }
  }

  lemma EqualsStays(s: string)
    requires '=' in s
    ensures '=' in TrimSpace(s)
  {
    hide TrimSpace;
    var lo, hi := TrimSpaceCut(s);
    var k: int :| 0 <= k < |s| && s[k] == '=';
    assert !IsSpace(s[k]);
    assert s[lo..hi][k - lo] == '=';
  }

  lemma EqualsFolds(s: string, t: string)
    requires '=' in s && '=' !in t
    ensures !EqualFold(s, t)
  {
    LowerKeepsEquals(s);
    LowerKeepsEquals(t);
  }

  lemma LowerKeepsEquals(s: string)
    ensures '=' in Lower(s) <==> '=' in s
  {
    if '=' in s {
      var k: int :| 0 <= k < |s| && s[k] == '=';
      assert Lower(s)[k] == '=';
    }
  }

  /** With an operator, what is read is a test on another attribute. */
  lemma OperatorReads(a: string, text: string)
    requires PlainAttribute(a) && HasOperator(text)
    ensures var r := ParseItem(a + "=" + text);
      r.Item? && !r.filter.And? && !r.filter.Or? && !r.filter.Not? && !EqualFold(r.filter.attribute, a)
  {
    hide TrimSpace, HasPair, Index, Decode, EqualFold, IndexByte, HasWildcard, AfterOperator;
    var part := a + "=" + text;
    OperatorMovesAttribute(a, text, '>');
    OperatorMovesAttribute(a, text, '<');
    OperatorMovesAttribute(a, text, '~');
    PairsAfterEquals(a, text, '>');
    PairsAfterEquals(a, text, '<');
    PairsAfterEquals(a, text, '~');
    PairIsIndex(part, '>');
    PairIsIndex(part, '<');
    PairIsIndex(part, '~');
  }

  lemma OperatorFails(a: string, pieces: seq<Piece>, v: string)
    requires PlainAttribute(a) && HasOperator(Body(pieces))
    ensures !ValueTest(Reads(WireSubstrings(a, pieces)), a, v)
  {
    hide Body, PlainAttribute, EqualFold, ParseItem, HasOperator, Reads, MatchSubstring, StringLe, Lower;
    OperatorReads(a, Body(pieces));
    SubstringsAsItem(a, pieces);
  }

  lemma SubstringsAsItem(a: string, pieces: seq<Piece>)
    requires ParseItem(a + "=" + Body(pieces)).Item?
    ensures Reads(WireSubstrings(a, pieces)) == ParseItem(a + "=" + Body(pieces)).filter
  {
    hide ParseItem, Body;
  }

  /**
   A substring filter is served with its own meaning if and only if it has an initial piece, without which no wildcard
   is written in front, so that the first piece is tested at the start of the value (and a lone final piece becomes an
   equality test), and its text survives: no outer space, and no operator that is read first.
   */
  lemma SubstringsServedAsMeant(a: string, pieces: seq<Piece>)
    requires PlainAttribute(a) && WellFormedPieces(pieces)
    ensures (forall v :: ValueTest(Reads(WireSubstrings(a, pieces)), a, v) <==> InOrder(Lower(v), pieces))
      <==> pieces[0].kind == Initial && LeafSurvives(WireSubstrings(a, pieces))
  {
    hide Body, Pattern, MatchSubstring, Reads, HasPair, Trimmed, Packed, InOrder, ValueTest, HasStar;
    if HasOperator(Body(pieces)) {
      var v := Packed(pieces);
      OperatorFails(a, pieces, v);
      PackedInOrder(pieces);
      PackedLower(pieces);
    } else if !Trimmed(Body(pieces)) {
      var v := OuterSpaceFails(a, pieces);
    } else {
      ReadBackServed(a, pieces);
      if pieces[0].kind == Initial {
        FirstHasStar(pieces);
      }
    }
  }

  lemma FirstHasStar(pieces: seq<Piece>)
    requires WellFormedPieces(pieces) && pieces[0].kind == Initial
    ensures HasStar(pieces) && Body(pieces) != "*"
  {
    hide Body;
    assert pieces[0] in pieces;
    BodyIsLong(pieces);
  }

  lemma ReadBackServed(a: string, pieces: seq<Piece>)
    requires PlainAttribute(a) && WellFormedPieces(pieces) && Trimmed(Body(pieces)) && !HasOperator(Body(pieces))
    ensures (forall v :: ValueTest(Reads(WireSubstrings(a, pieces)), a, v) <==> InOrder(Lower(v), pieces))
      <==> pieces[0].kind == Initial
  {
    hide Body, Pattern, MatchSubstring, Reads, HasPair, Trimmed, Packed, InOrder, Lower, OffsetValue, PlainAttribute, StringLe;
    var f := Reads(WireSubstrings(a, pieces));
    SubstringsRead(a, pieces);
    if pieces[0].kind == Initial {
      forall v ensures ValueTest(f, a, v) <==> InOrder(Lower(v), pieces) {
        InitialMeans(pieces, v);
      }
    } else {
      OffsetInOrder(pieces);
      OffsetFails(f, a, pieces);
    }
  }

  lemma InitialMeans(pieces: seq<Piece>, v: string)
    requires WellFormedPieces(pieces) && pieces[0].kind == Initial
    ensures MatchSubstring(v, Pattern(pieces)) <==> InOrder(Lower(v), pieces)
  {
    hide Pattern, MatchSubstring;
    PatternMeans(pieces, v);
  }

  lemma OffsetFails(f: Filter, a: string, pieces: seq<Piece>)
    requires WellFormedPieces(pieces) && pieces[0].kind != Initial
    requires if pieces[0].kind == Final then f.Equality? && f.value == pieces[0].value
      else f.Substrings? && f.value == Pattern(pieces)
    ensures !ValueTest(f, a, OffsetValue(pieces))
  {
    hide Pattern, MatchSubstring, OffsetValue, InOrder, Packed;
    var v, x := OffsetValue(pieces), Lower(pieces[0].value);
    OffsetShape(pieces);
    if pieces[0].kind == Any {
      PatternMeans(pieces, v);
    } else {
      assert pieces[1..] == [];
      PackedSplit(pieces);
    }
  }
}
