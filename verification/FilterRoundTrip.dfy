/** Reading a serialised filter back: exactly when it gives the filter that was serialised. */
module FilterRoundTrip {
  import opened Text
  import opened Filters
  import opened FilterParser
  import opened FilterSerializer

  // ---- Operators inside an item ----

  /** `c=` stands somewhere in `s`. */
  predicate HasPair(s: string, c: char) {
    exists i :: 0 <= i < |s| - 1 && PairAt(s, c, i)
  }

  predicate PairAt(s: string, c: char, i: int) {
    0 <= i < |s| - 1 && s[i] == c && s[i + 1] == '='
  }

  lemma PairIsOccurrence(s: string, c: char, i: int)
    ensures PairAt(s, c, i) <==> OccursAt(s, [c, '='], i)
  {
    if 0 <= i <= |s| - 2 {
      assert s[i..i + 2] == [s[i], s[i + 1]];
    }
  }

  lemma PairIsIndex(s: string, c: char)
    ensures Index(s, [c, '=']) >= 0 <==> HasPair(s, c)
  {
    hide IndexFrom;
    var i := Index(s, [c, '=']);
    PairIsOccurrence(s, c, i);
    if j: int :| PairAt(s, c, j) {
      PairIsOccurrence(s, c, j);
    }
  }

  lemma PairCons(x: char, t: string, c: char)
    ensures HasPair([x] + t, c) <==> (x == c && t != [] && t[0] == '=') || HasPair(t, c)
  {
    var s := [x] + t;
    if i: int :| PairAt(s, c, i) {
      assert i > 0 ==> PairAt(t, c, i - 1);
    }
    if i: int :| PairAt(t, c, i) {
      assert PairAt(s, c, i + 1);
    }
    if x == c && t != [] && t[0] == '=' {
      assert PairAt(s, c, 0);
    }
  }

  lemma EscapeFirst(value: string)
    ensures Escape(value) != [] && Escape(value)[0] == '=' <==> value != [] && value[0] == '='
  {
  }

  lemma EscapeUnfold(value: string)
    ensures Escape(value) == if value == [] then [] else EscapeChar(value[0]) + Escape(value[1..])
  {
  }

  lemma EscapeCharPairs(x: char, e: string, c: char)
    requires c == '>' || c == '<' || c == '~'
    ensures HasPair(EscapeChar(x) + e, c) <==> (x == c && e != [] && e[0] == '=') || HasPair(e, c)
  {
    hide HasPair;
    var h := EscapeChar(x);
    if |h| == 1 {
      PairCons(x, e, c);
    } else {
      assert h + e == [h[0]] + ([h[1]] + ([h[2]] + e));
      PairCons(h[2], e, c);
      PairCons(h[1], [h[2]] + e, c);
      PairCons(h[0], [h[1]] + ([h[2]] + e), c);
    }
  }

  lemma {:induction false} EscapeKeepsPairs(value: string, c: char)
    requires c == '>' || c == '<' || c == '~'
    ensures HasPair(Escape(value), c) <==> HasPair(value, c)
  {
    hide HasPair, Escape, EscapeChar;
    EscapeUnfold(value);
    if value != [] {
      var x, e := value[0], Escape(value[1..]);
      EscapeKeepsPairs(value[1..], c);
      assert value == [x] + value[1..];
      PairCons(x, value[1..], c);
      EscapeFirst(value[1..]);
      EscapeCharPairs(x, e, c);
    }
  }

  predicate IsOperatorChar(c: char) {
    c == '<' || c == '>' || c == '~'
  }

  /** An attribute description: nothing in it can be taken for filter syntax. */
  predicate PlainAttribute(a: string) {
    ')' !in a && '=' !in a && Trimmed(a)
    && (a == "" || (a[0] != '&' && a[0] != '|' && a[0] != '!' && !IsOperatorChar(a[|a| - 1])))
  }

  lemma FirstByte(s: string, c: char, n: nat)
    requires n < |s| && s[n] == c && forall j :: 0 <= j < n ==> s[j] != c
    ensures IndexByte(s, c) == n
  {
    hide IndexByte;
    assert s[n] in s;
  }

  /** After a plain attribute and `=`, the pairs of an item are those of its value. */
  lemma PairsAfterEquals(a: string, rest: string, c: char)
    requires '=' !in a && (a == "" || !IsOperatorChar(a[|a| - 1])) && IsOperatorChar(c)
    ensures HasPair(a + "=" + rest, c) <==> HasPair(rest, c)
    ensures IndexByte(a + "=" + rest, '=') == |a|
  {
    hide IndexByte;
    var s, n := a + "=" + rest, |a|;
    forall j | 0 <= j < n ensures s[j] == a[j] && s[j] != '=' {
      assert s[j] in a;
    }
    assert s[n] == '=';
    if i: int :| PairAt(s, c, i) {
      assert PairAt(rest, c, i - n - 1);
    }
    if i: int :| PairAt(rest, c, i) {
      assert PairAt(s, c, i + n + 1);
    }
    FirstByte(s, '=', n);
  }

  /** After a plain attribute and an operator, that operator comes first. */
  lemma PairsAfterOperator(a: string, op: char, rest: string, c: char)
    requires '=' !in a && IsOperatorChar(op) && IsOperatorChar(c)
    ensures HasPair(a + [op, '='] + rest, c) <==> c == op || HasPair(rest, c)
    ensures Index(a + [op, '='] + rest, [op, '=']) == |a|
  {
    hide IndexFrom;
    var s, n := a + [op, '='] + rest, |a|;
    forall j | 0 <= j < n ensures s[j] != '=' {
      assert s[j] == a[j] && a[j] in a;
    }
    assert s[n] == op && s[n + 1] == '=';
    assert PairAt(s, op, n);
    PairIsOccurrence(s, op, n);
    if i: int :| PairAt(s, c, i) && i > n {
      assert PairAt(rest, c, i - n - 2);
    }
    if i: int :| PairAt(rest, c, i) {
      assert PairAt(s, c, i + n + 2);
    }
    PairIsOccurrence(s, op, Index(s, [op, '=']));
  }

  // ---- White space around values ----

  lemma {:induction false} EscapeSpaces(sp: string)
    requires forall c :: c in sp ==> IsSpace(c)
    ensures Escape(sp) == sp
  {
    hide EscapeChar, IsSpace;
    if sp != [] {
      EscapeSpaces(sp[1..]);
      SpaceIsPlain(sp[0]);
      assert sp == [sp[0]] + sp[1..];
    }
  }

  lemma SpaceIsPlain(c: char)
    requires IsSpace(c)
    ensures EscapeChar(c) == [c]
  {
  }

  lemma EscapeKeepsTrimmed(value: string)
    requires Trimmed(value)
    ensures Trimmed(Escape(value))
  {
    hide Escape;
    if value == [] {
      assert Escape([]) == [] by { EscapeNothing(); }
    } else {
      var n := |value| - 1;
      EscapeExtend(value, n);
      assert value[..n + 1] == value;
      EscapeStarts(value);
      CharEnds(value[n]);
      CharEnds(value[0]);
    }
  }

  lemma EscapeNothing()
    ensures Escape([]) == []
  {
  }

  lemma EscapeStarts(value: string)
    requires value != []
    ensures Escape(value) != [] && Escape(value)[0] == EscapeChar(value[0])[0]
  {
  }

  lemma CharEnds(c: char)
    ensures var e := EscapeChar(c); e != [] && (!IsSpace(c) ==> !IsSpace(e[0]) && !IsSpace(e[|e| - 1]))
  {
  }

  /** Trimming and escaping commute. */
  lemma TrimEscape(value: string)
    ensures TrimSpace(Escape(value)) == Escape(TrimSpace(value))
  {
    hide TrimSpace, Escape, Trimmed;
    var lo, hi := TrimSpaceCut(value);
    var a, m, b := value[..lo], value[lo..hi], value[hi..];
    assert value == a + m + b;
    EscapeConcat(a + m, b);
    EscapeConcat(a, m);
    EscapeSpaces(a);
    EscapeSpaces(b);
    EscapeKeepsTrimmed(m);
    var e := Escape(value);
    assert e == a + Escape(m) + b;
    assert e[lo..lo + |Escape(m)|] == Escape(m);
    TrimSpaceUnique(e, lo, lo + |Escape(m)|);
  }

  lemma {:induction false} DecodeThenSpaces(m: string, sp: string)
    requires forall c :: c in sp ==> IsSpace(c)
    ensures Decode(m + sp, true) == Decode(m, true) + sp
    decreases |m| + |sp|
  {
    var s := m + sp;
    if m == [] {
      assert s == sp;
      if sp != [] {
        assert IsSpace(sp[0]) && !StartsEscape(sp);
        assert [] + sp[1..] == sp[1..] && Decode([], true) == [];
        DecodeThenSpaces([], sp[1..]);
      }
    } else {
      assert StartsEscape(s) == StartsEscape(m) by {
        assert forall i :: |m| <= i < |s| ==> IsSpace(s[i]) by {
          forall i | |m| <= i < |s| ensures IsSpace(s[i]) { assert s[i] == sp[i - |m|]; }
        }
      }
      var k := if StartsEscape(m) then 3 else 1;
      assert s[k..] == m[k..] + sp;
      DecodeThenSpaces(m[k..], sp);
    }
  }

  lemma {:induction false} DecodeAfterSpaces(sp: string, m: string)
    requires forall c :: c in sp ==> IsSpace(c)
    ensures Decode(sp + m, true) == sp + Decode(m, true)
  {
    if sp == [] {
      assert sp + m == m;
    } else {
      assert IsSpace(sp[0]) && !StartsEscape(sp + m);
      assert (sp + m)[1..] == sp[1..] + m;
      DecodeAfterSpaces(sp[1..], m);
    }
  }

  /** What trimming takes away is missing after decoding. */
  lemma DecodeTrimmed(s: string) returns (a: string, b: string)
    ensures Decode(s, true) == a + (Decode(TrimSpace(s), true) + b) && |a| + |TrimSpace(s)| + |b| == |s|
    ensures forall c :: c in a || c in b ==> IsSpace(c)
  {
    hide TrimSpace, Decode;
    var lo, hi := TrimSpaceCut(s);
    var m := s[lo..hi];
    a, b := s[..lo], s[hi..];
    DecodeThenSpaces(m, b);
    DecodeAfterSpaces(a, m + b);
    assert s == a + (m + b);
  }

  // ---- Items read back ----

  predicate LeafSurvives(w: WireFilter)
    requires IsWireLeaf(w)
  {
    match w
    case WireEquality(_, v) => Trimmed(v) && !HasPair(v, '>') && !HasPair(v, '<') && !HasPair(v, '~')
    case WirePresent(_) => true
    case WireGreaterOrEqual(_, v) => Trimmed(v)
    case WireLessOrEqual(_, v) => Trimmed(v) && !HasPair(v, '>')
    case WireApprox(_, v) => Trimmed(v) && !HasPair(v, '>') && !HasPair(v, '<')
    case WireSubstrings(_, pieces) =>
      var body := Body(pieces);
      Trimmed(body) && body != "*" && HasStar(pieces) && !HasPair(body, '>') && !HasPair(body, '<') && !HasPair(body, '~')
  }

  /** The filter a leaf stands for. */
  function LeafImage(w: WireFilter): Filter
    requires IsWireLeaf(w)
  {
    match w
    case WireEquality(a, v) => Equality(a, v)
    case WirePresent(a) => Present(a)
    case WireGreaterOrEqual(a, v) => GreaterOrEqual(a, v)
    case WireLessOrEqual(a, v) => LessOrEqual(a, v)
    case WireApprox(a, v) => Approx(a, v)
    case WireSubstrings(a, pieces) => Substrings(a, Pattern(pieces))
  }

  lemma DecodeWhole(value: string)
    ensures Decode(Escape(value), false) == value
  {
    DecodeEscape(value, "", false);
    assert Escape(value) + "" == Escape(value) && Decode("", false) == "";
  }

  lemma EscapedHasNoStar(value: string)
    ensures !HasWildcard(Escape(value)) && Escape(value) != "*"
  {
    EscapeHidesWildcards(value, "");
    assert Escape(value) + "" == Escape(value);
    assert HasWildcard("*");
  }

  lemma OperatorItem(a: string, op: char, value: string)
    requires PlainAttribute(a) && IsOperatorChar(op)
    ensures var part := a + [op, '='] + Escape(value);
      var i := Index(part, [op, '=']);
      i == |a| && TrimSpace(part[..i]) == a && AfterOperator(part, i) == TrimSpace(value)
  {
    hide IndexFrom, Decode, Escape, TrimSpace;
    var part := a + [op, '='] + Escape(value);
    PairsAfterOperator(a, op, Escape(value), op);
    assert part[..|a|] == a && part[|a| + 2..] == Escape(value);
    TrimEscape(value);
    DecodeWhole(TrimSpace(value));
  }

  lemma GreaterOrEqualReads(a: string, value: string)
    requires PlainAttribute(a)
    ensures ParseItem(a + ">=" + Escape(value)) == Item(GreaterOrEqual(a, TrimSpace(value)))
  {
    hide Index, Decode, Escape, TrimSpace;
    OperatorItem(a, '>', value);
  }

  lemma LessOrEqualReads(a: string, value: string)
    requires PlainAttribute(a)
    ensures var r := ParseItem(a + "<=" + Escape(value));
      if HasPair(value, '>') then r.Item? && r.filter.GreaterOrEqual?
      else r == Item(LessOrEqual(a, TrimSpace(value)))
  {
    hide Index, Decode, Escape, TrimSpace, HasPair;
    var part := a + "<=" + Escape(value);
    OperatorItem(a, '<', value);
    PairsAfterOperator(a, '<', Escape(value), '>');
    PairIsIndex(part, '>');
    EscapeKeepsPairs(value, '>');
  }

  lemma ApproxReads(a: string, value: string)
    requires PlainAttribute(a)
    ensures var r := ParseItem(a + "~=" + Escape(value));
      if HasPair(value, '>') then r.Item? && r.filter.GreaterOrEqual?
      else if HasPair(value, '<') then r.Item? && r.filter.LessOrEqual?
      else r == Item(Approx(a, TrimSpace(value)))
  {
    hide Index, Decode, Escape, TrimSpace, HasPair;
    var part := a + "~=" + Escape(value);
    OperatorItem(a, '~', value);
    PairsAfterOperator(a, '~', Escape(value), '>');
    PairsAfterOperator(a, '~', Escape(value), '<');
    PairIsIndex(part, '>');
    PairIsIndex(part, '<');
    EscapeKeepsPairs(value, '>');
    EscapeKeepsPairs(value, '<');
  }

  /** An item with `=`: the operators inside its value win; otherwise the trimmed value decides. */
  lemma EqualsReads(a: string, text: string)
    requires PlainAttribute(a)
    ensures var r, raw := ParseItem(a + "=" + text), TrimSpace(text);
      r.Item? &&
      if HasPair(text, '>') then r.filter.GreaterOrEqual?
      else if HasPair(text, '<') then r.filter.LessOrEqual?
      else if HasPair(text, '~') then r.filter.Approx?
      else r.filter == if raw == "*" then Present(a)
        else if HasWildcard(raw) then Substrings(a, Decode(raw, true)) else Equality(a, Decode(raw, false))
  {
    hide Index, IndexByte, Decode, TrimSpace, HasPair, HasWildcard;
    var part := a + "=" + text;
    PairsAfterEquals(a, text, '>');
    PairsAfterEquals(a, text, '<');
    PairsAfterEquals(a, text, '~');
    PairIsIndex(part, '>');
    PairIsIndex(part, '<');
    PairIsIndex(part, '~');
    assert part[..|a|] == a && part[|a| + 1..] == text;
  }

  lemma EqualityReads(a: string, value: string)
    requires PlainAttribute(a)
    ensures var r := ParseItem(a + "=" + Escape(value));
      r.Item? && (r.filter == Equality(a, value) <==> LeafSurvives(WireEquality(a, value)))
  {
    hide Decode, Escape, TrimSpace, ParseItem, HasWildcard, HasPair, Trimmed;
    EqualsReads(a, Escape(value));
    TrimmedIsShortest(value);
    EscapeKeepsPairs(value, '>');
    EscapeKeepsPairs(value, '<');
    EscapeKeepsPairs(value, '~');
    TrimEscape(value);
    DecodeWhole(TrimSpace(value));
    EscapedHasNoStar(TrimSpace(value));
  }

  lemma SubstringsReads(a: string, pieces: seq<Piece>)
    requires PlainAttribute(a)
    ensures var r := ParseItem(a + "=" + Body(pieces));
      r.Item? && (r.filter == Substrings(a, Pattern(pieces)) <==> LeafSurvives(WireSubstrings(a, pieces)))
  {
    hide Decode, Body, Pattern, TrimSpace, ParseItem, HasWildcard, HasStar;
    var body := Body(pieces);
    EqualsReads(a, body);
    DecodeBody(pieces);
    BodyWildcard(pieces);
    var before, after := DecodeTrimmed(body);
    TrimmedIsShortest(body);
  }

  lemma TrimmedIsShortest(s: string)
    ensures Trimmed(s) <==> TrimSpace(s) == s
    ensures Trimmed(s) <==> |TrimSpace(s)| == |s|
  {
    var lo, hi := TrimSpaceCut(s);
  }

  lemma PresentReads(a: string)
    requires PlainAttribute(a)
    ensures ParseItem(a + "=" + "*") == Item(Present(a))
  {
    hide ParseItem, PlainAttribute, TrimSpace, Decode, HasWildcard;
    EqualsReads(a, "*");
    assert Trimmed("*");
  }

  /** Every leaf parses; it gives back its image exactly when its value survives. */
  lemma LeafReads(w: WireFilter)
    requires IsWireLeaf(w) && PlainAttribute(w.attribute)
    ensures ParseItem(ItemText(w)).Item?
    ensures ParseItem(ItemText(w)).filter == LeafImage(w) <==> LeafSurvives(w)
  {
    hide ParseItem, Escape, Body, TrimSpace;
    match w
    case WireEquality(a, v) => EqualityReads(a, v);
    case WirePresent(a) => PresentReads(a);
    case WireGreaterOrEqual(a, v) =>
      GreaterOrEqualReads(a, v);
      TrimmedIsShortest(v);
    case WireLessOrEqual(a, v) =>
      LessOrEqualReads(a, v);
      TrimmedIsShortest(v);
    case WireApprox(a, v) =>
      ApproxReads(a, v);
      TrimmedIsShortest(v);
    case WireSubstrings(a, pieces) => SubstringsReads(a, pieces);
  }

  // ---- Trees read back ----

  predicate PlainNames(w: WireFilter) {
    match w
    case WireAnd(filters) => forall v :: v in filters ==> PlainNames(v)
    case WireOr(filters) => forall v :: v in filters ==> PlainNames(v)
    case WireNot(filter) => PlainNames(filter)
    case _ => PlainAttribute(w.attribute)
  }

  /** An And or Or of nothing, for which the server writes no text. */
  predicate Void(w: WireFilter) {
    (w.WireAnd? || w.WireOr?) && w.filters == []
  }

  /** Somewhere inside, nothing is written after a `!`. */
  predicate NegatesVoid(w: WireFilter) {
    match w
    case WireAnd(filters) => exists v :: v in filters && NegatesVoid(v)
    case WireOr(filters) => exists v :: v in filters && NegatesVoid(v)
    case WireNot(filter) => Void(filter) || NegatesVoid(filter)
    case _ => false
  }

  /** Has a text that parses. */
  predicate Readable(w: WireFilter) {
    !Void(w) && !NegatesVoid(w)
  }

  /** The filter the text of `w` parses to. */
  function Reads(w: WireFilter): Filter
    decreases w, 1
  {
    match w
    case WireAnd(filters) => And(ReadsAll(filters))
    case WireOr(filters) => Or(ReadsAll(filters))
    case WireNot(filter) => Not([Reads(filter)])
    case _ => match ParseItem(ItemText(w)) case Item(f) => f case NoItem => Present("")
  }

  /** What is not written is not read. */
  function ReadsAll(filters: seq<WireFilter>): (r: seq<Filter>)
    ensures |r| <= |filters|
    decreases filters, 0
  {
    if filters == [] then []
    else if Void(filters[0]) then ReadsAll(filters[1..])
    else [Reads(filters[0])] + ReadsAll(filters[1..])
  }

  /** The filter `w` stands for. */
  function Image(w: WireFilter): Filter
    decreases w, 1
  {
    match w
    case WireAnd(filters) => And(ImageAll(filters))
    case WireOr(filters) => Or(ImageAll(filters))
    case WireNot(filter) => Not([Image(filter)])
    case _ => LeafImage(w)
  }

  function ImageAll(filters: seq<WireFilter>): (r: seq<Filter>)
    ensures |r| == |filters|
    decreases filters, 0
  {
    if filters == [] then [] else [Image(filters[0])] + ImageAll(filters[1..])
  }

  /** Every value in `w` survives being written and read, and no And or Or is empty. */
  predicate Survives(w: WireFilter) {
    match w
    case WireAnd(filters) => filters != [] && forall v :: v in filters ==> Survives(v)
    case WireOr(filters) => filters != [] && forall v :: v in filters ==> Survives(v)
    case WireNot(filter) => Survives(filter)
    case _ => LeafSurvives(w)
  }

  lemma {:induction false} EscapeHasNoParen(value: string)
    ensures ')' !in Escape(value)
  {
    if value != [] {
      EscapeHasNoParen(value[1..]);
    }
  }

  lemma {:induction false} BodyHasNoParen(pieces: seq<Piece>)
    ensures ')' !in Body(pieces)
  {
    if pieces != [] {
      BodyHasNoParen(pieces[1..]);
      EscapeHasNoParen(pieces[0].value);
    }
  }

  lemma ItemTextShape(w: WireFilter)
    requires IsWireLeaf(w) && PlainAttribute(w.attribute)
    ensures var t := ItemText(w); ')' !in t && t != "" && t[0] != '&' && t[0] != '|' && t[0] != '!'
  {
    hide Escape, Body;
    match w
    case WireEquality(a, v) => EscapeHasNoParen(v);
    case WirePresent(a) =>
    case WireGreaterOrEqual(a, v) => EscapeHasNoParen(v);
    case WireLessOrEqual(a, v) => EscapeHasNoParen(v);
    case WireApprox(a, v) => EscapeHasNoParen(v);
    case WireSubstrings(a, pieces) => BodyHasNoParen(pieces);
  }

  /** A text in its parentheses, wherever it stands. */
  lemma InParentheses(t: string, pre: string, post: string)
    ensures var s := pre + ("(" + t + ")") + post;
      && |pre| + |t| + 2 <= |s| && s[|pre|] == '(' && s[|pre| + 1..] == t + (")" + post)
      && s[|pre| + 1..|pre| + 1 + |t|] == t && (t != "" ==> s[|pre| + 1] == t[0])
  {
    var s := pre + ("(" + t + ")") + post;
    assert s == (pre + "(") + (t + (")" + post));
    assert |pre + "("| == |pre| + 1;
  }

  lemma ClosesAfter(t: string, post: string)
    requires ')' !in t
    ensures IndexByte(t + (")" + post), ')') == |t|
  {
    hide IndexByte;
    var after := t + (")" + post);
    assert after[|t|] == ')';
    forall j | 0 <= j < |t| ensures after[j] != ')' {
      assert after[j] == t[j] && t[j] in t;
    }
    FirstByte(after, ')', |t|);
  }

  lemma LeafParsesAt(w: WireFilter, pre: string, post: string)
    requires IsWireLeaf(w) && PlainAttribute(w.attribute)
    ensures ParseAt(pre + Serialize(w) + post, |pre|) == Parsed(Reads(w), |pre| + |Serialize(w)|)
  {
    hide ParseItem, IndexByte, ItemText, PlainAttribute, ParseAt;
    var t := ItemText(w);
    ItemTextShape(w);
    LeafReads(w);
    InParentheses(t, pre, post);
    ClosesAfter(t, post);
    ItemParses(pre + Serialize(w) + post, |pre|, t);
  }

  lemma ItemParses(s: string, p: nat, t: string)
    requires p + |t| + 2 <= |s| && s[p] == '(' && s[p + 1] != '&' && s[p + 1] != '|' && s[p + 1] != '!'
    requires IndexByte(s[p + 1..], ')') == |t| && s[p + 1..p + 1 + |t|] == t && ParseItem(t).Item?
    ensures ParseAt(s, p) == Parsed(ParseItem(t).filter, p + |t| + 2)
  {
    hide ParseItem, IndexByte, ParseList;
  }

  lemma NotParsesAt(pre: string, inner: string, post: string, f: Filter)
    requires ParseAt((pre + "(!") + inner + (")" + post), |pre + "(!"|) == Parsed(f, |pre + "(!"| + |inner|)
    ensures var text := "(!" + inner + ")";
      ParseAt(pre + text + post, |pre|) == Parsed(Not([f]), |pre| + |text|)
  {
    hide ParseList, ParseItem, IndexByte;
    var s, p := pre + ("(!" + inner + ")") + post, |pre|;
    assert s == (pre + "(!") + inner + (")" + post);
    assert s[p] == '(' && s[p + 1] == '!' && s[p + 2 + |inner|] == ')';
  }

  lemma NodeParsesAt(pre: string, mark: string, inner: string, post: string, filters: seq<Filter>)
    requires mark == "(&" || mark == "(|"
    requires ParseList((pre + mark) + inner + (")" + post), |pre + mark|) == ParsedList(filters, |pre + mark| + |inner|)
    ensures var text := mark + inner + ")";
      ParseAt(pre + text + post, |pre|) == Parsed(if mark == "(&" then And(filters) else Or(filters), |pre| + |text|)
  {
    hide ParseList, ParseItem, IndexByte;
    var s, p := pre + (mark + inner + ")") + post, |pre|;
    assert s == (pre + mark) + inner + (")" + post);
    assert s[p] == '(' && s[p + 1] == mark[1] && s[p + 2 + |inner|] == ')';
  }

  /** The text of a readable filter parses, wherever it stands, and exactly its own characters are consumed. */
  lemma {:induction false} ParsesAt(w: WireFilter, pre: string, post: string)
    requires PlainNames(w) && Readable(w)
    ensures ParseAt(pre + Serialize(w) + post, |pre|) == Parsed(Reads(w), |pre| + |Serialize(w)|)
    decreases w, 1
  {
    hide ParseAt, ParseList, ParseItem, ItemText;
    if IsWireLeaf(w) {
      LeafParsesAt(w, pre, post);
    } else if w.WireNot? {
      ParsesAt(w.filter, pre + "(!", ")" + post);
      NotParsesAt(pre, Serialize(w.filter), post, Reads(w.filter));
    } else {
      var mark := if w.WireAnd? then "(&" else "(|";
      ListParsesAt(w.filters, pre + mark, ")" + post);
      NodeParsesAt(pre, mark, SerializeAll(w.filters), post, ReadsAll(w.filters));
    }
  }

  lemma TextOpens(w: WireFilter)
    ensures if Void(w) then Serialize(w) == "" else Serialize(w) != "" && Serialize(w)[0] == '('
  {
    hide ItemText, SerializeAll;
  }

  lemma ListStep(s: string, p: nat, f: Filter, q: nat, filters: seq<Filter>, r: nat)
    requires p < |s| && s[p] == '(' && ParseAt(s, p) == Parsed(f, q) && q < |s|
    requires ParseList(s, q) == ParsedList(filters, r)
    ensures ParseList(s, p) == ParsedList([f] + filters, r)
  {
  }

  /** The text of the first of some filters, before that of the others. */
  lemma FirstOfTexts(filters: seq<WireFilter>, pre: string, post: string)
    requires filters != []
    ensures var first, rest, s := Serialize(filters[0]), SerializeAll(filters[1..]), pre + SerializeAll(filters) + post;
      && s == pre + first + (rest + post) && s == (pre + first) + rest + post
      && (!Void(filters[0]) ==> |pre| < |s| && s[|pre|] == '(')
  {
    hide Serialize;
    var first, rest := Serialize(filters[0]), SerializeAll(filters[1..]);
    TextOpens(filters[0]);
    ConcatAssociative(pre, first, rest);
    ConcatAssociative(pre + first, rest, post);
    if !Void(filters[0]) {
      assert (pre + first + (rest + post))[|pre|] == first[0];
    }
  }

  lemma {:induction false} ListParsesAt(filters: seq<WireFilter>, pre: string, post: string)
    requires forall v :: v in filters ==> PlainNames(v) && !NegatesVoid(v)
    requires post != "" && post[0] == ')'
    ensures ParseList(pre + SerializeAll(filters) + post, |pre|) == ParsedList(ReadsAll(filters), |pre| + |SerializeAll(filters)|)
    decreases filters, 0
  {
    hide ParseAt, Serialize, Reads, PlainNames, NegatesVoid;
    var s := pre + SerializeAll(filters) + post;
    if filters == [] {
      assert s[|pre|] == ')';
    } else {
      hide ParseList;
      var first, rest := Serialize(filters[0]), SerializeAll(filters[1..]);
      FirstOfTexts(filters, pre, post);
      ListParsesAt(filters[1..], pre + first, post);
      if Void(filters[0]) {
        TextOpens(filters[0]);
      } else {
        ParsesAt(filters[0], pre, rest + post);
        ListStep(s, |pre|, Reads(filters[0]), |pre + first|, ReadsAll(filters[1..]), |pre + first| + |rest|);
      }
    }
  }

  // ---- Texts that do not parse ----

  lemma NotFailsAt(pre: string, inner: string, post: string)
    requires ParseAt((pre + "(!") + inner + (")" + post), |pre + "(!"|).ParseError?
    ensures ParseAt(pre + ("(!" + inner + ")") + post, |pre|).ParseError?
  {
    hide ParseList, ParseItem, IndexByte;
    var s, p := pre + ("(!" + inner + ")") + post, |pre|;
    assert s == (pre + "(!") + inner + (")" + post);
    assert s[p] == '(' && s[p + 1] == '!';
  }

  lemma NodeFailsAt(pre: string, mark: string, inner: string, post: string)
    requires mark == "(&" || mark == "(|"
    requires ParseList((pre + mark) + inner + (")" + post), |pre + mark|).ListError?
    ensures ParseAt(pre + (mark + inner + ")") + post, |pre|).ParseError?
  {
    hide ParseList, ParseItem, IndexByte;
    var s, p := pre + (mark + inner + ")") + post, |pre|;
    assert s == (pre + mark) + inner + (")" + post);
    assert s[p] == '(' && s[p + 1] == mark[1];
  }

  lemma NothingFailsAt(pre: string, post: string)
    ensures ParseAt(pre + "" + (")" + post), |pre|).ParseError?
  {
    hide ParseList, ParseItem;
    assert (pre + "" + (")" + post))[|pre|] == ')';
  }

  /** Where nothing is written after a `!`, the text fails to parse, wherever it stands. */
  lemma {:induction false} FailsAt(w: WireFilter, pre: string, post: string)
    requires PlainNames(w) && NegatesVoid(w)
    ensures ParseAt(pre + Serialize(w) + post, |pre|).ParseError?
    decreases w, 1
  {
    hide ParseAt, ParseList, ItemText;
    if w.WireNot? {
      if Void(w.filter) {
        NothingFailsAt(pre + "(!", post);
      } else {
        FailsAt(w.filter, pre + "(!", ")" + post);
      }
      NotFailsAt(pre, Serialize(w.filter), post);
    } else {
      var mark := if w.WireAnd? then "(&" else "(|";
      ListFailsAt(w.filters, pre + mark, ")" + post);
      NodeFailsAt(pre, mark, SerializeAll(w.filters), post);
    }
  }

  lemma ListStepFails(s: string, p: nat)
    requires p < |s| && s[p] == '('
    requires var first := ParseAt(s, p); first.ParseError? || ParseList(s, first.pos).ListError?
    ensures ParseList(s, p).ListError?
  {
    hide ParseAt;
  }

  lemma {:induction false} ListFailsAt(filters: seq<WireFilter>, pre: string, post: string)
    requires (forall v :: v in filters ==> PlainNames(v)) && exists v :: v in filters && NegatesVoid(v)
    ensures ParseList(pre + SerializeAll(filters) + post, |pre|).ListError?
    decreases filters, 0
  {
    hide ParseAt, ParseList, Serialize, Reads, PlainNames, NegatesVoid;
    var s := pre + SerializeAll(filters) + post;
    var first, rest := Serialize(filters[0]), SerializeAll(filters[1..]);
    FirstOfTexts(filters, pre, post);
    VoidNegatesNothing(filters[0]);
    if NegatesVoid(filters[0]) {
      FailsAt(filters[0], pre, rest + post);
      ListStepFails(s, |pre|);
    } else {
      assert exists v :: v in filters[1..] && NegatesVoid(v);
      ListFailsAt(filters[1..], pre + first, post);
      if Void(filters[0]) {
        TextOpens(filters[0]);
      } else {
        ParsesAt(filters[0], pre, rest + post);
        ListStepFails(s, |pre|);
      }
    }
  }

  lemma VoidNegatesNothing(w: WireFilter)
    ensures Void(w) ==> !NegatesVoid(w)
  {
  }

  // ---- The round trip ----

  lemma {:induction false} SurvivorsAreReadable(w: WireFilter)
    requires Survives(w)
    ensures Readable(w)
  {
    match w
    case WireAnd(filters) => forall v | v in filters ensures !NegatesVoid(v) { SurvivorsAreReadable(v); }
    case WireOr(filters) => forall v | v in filters ensures !NegatesVoid(v) { SurvivorsAreReadable(v); }
    case WireNot(filter) => SurvivorsAreReadable(filter);
    case _ =>
  }

  lemma {:induction false} ReadsIsImage(w: WireFilter)
    requires PlainNames(w) && Readable(w)
    ensures Reads(w) == Image(w) <==> Survives(w)
    decreases w, 1
  {
    if IsWireLeaf(w) {
      LeafReads(w);
    } else if w.WireNot? {
      ReadsIsImage(w.filter);
    } else {
      ReadsAllIsImageAll(w.filters);
    }
  }

  lemma {:induction false} ReadsAllIsImageAll(filters: seq<WireFilter>)
    requires forall v :: v in filters ==> PlainNames(v) && !NegatesVoid(v)
    ensures ReadsAll(filters) == ImageAll(filters) <==> forall v :: v in filters ==> Survives(v)
    decreases filters, 0
  {
    hide Reads, Image, PlainNames, NegatesVoid, Survives;
    if filters != [] {
      ReadsAllIsImageAll(filters[1..]);
      assert filters == [filters[0]] + filters[1..];
      if Void(filters[0]) {
        VoidIsLost(filters[0]);
        assert ReadsAll(filters) == ReadsAll(filters[1..]);
      } else {
        ReadsIsImage(filters[0]);
        var r, i := ReadsAll(filters), ImageAll(filters);
        assert r[0] == Reads(filters[0]) && r[1..] == ReadsAll(filters[1..]);
        assert i[0] == Image(filters[0]) && i[1..] == ImageAll(filters[1..]);
      }
    }
  }

  lemma VoidIsLost(w: WireFilter)
    ensures Void(w) ==> !Survives(w) && (Image(w).And? || Image(w).Or?)
  {
  }

  lemma ParseFilterOfText(s: string)
    requires s != "" && s[0] == '(' && s[|s| - 1] == ')'
    ensures ParseFilter(s) == match ParseAt(s, 0) case Parsed(f, _) => Item(f) case ParseError => NoItem
  {
    hide ParseAt, TrimSpace;
    assert Trimmed(s);
  }

  /** What the text of `w` is read as; no text at all is read as a test that every entry meets. */
  function ReadBack(w: WireFilter): ItemResult {
    if Void(w) then Item(Present("objectClass")) else if Readable(w) then Item(Reads(w)) else NoItem
  }

  lemma EmptyTextRead()
    ensures ParseFilter("") == Item(Present("objectClass"))
  {
  }

  lemma TextEnds(w: WireFilter)
    requires !Void(w)
    ensures var s := Serialize(w); s != "" && s[0] == '(' && s[|s| - 1] == ')'
  {
    hide ItemText, SerializeAll;
    if IsWireLeaf(w) {
      assert Serialize(w) == "(" + ItemText(w) + ")";
    }
  }

  /**
   Filter round trip: the text of a filter that is not empty parses unless nothing is written after some `!`, and then
   to one filter, consuming all of it. That filter is the one that was serialised if and only if no And or Or is empty and
   the values have no outer white space and no text that the parser takes for a comparison operator.
   */
  lemma RoundTrip(w: WireFilter)
    requires PlainNames(w)
    ensures Readable(w) ==> ParseAt(Serialize(w), 0) == Parsed(Reads(w), |Serialize(w)|)
    ensures ParseFilter(Serialize(w)) == ReadBack(w)
    ensures ParseFilter(Serialize(w)) == Item(Image(w)) <==> Survives(w)
  {
    hide Serialize, ParseAt, ParseFilter, Reads, Image, Survives, PlainNames, NegatesVoid;
    var s := Serialize(w);
    assert "" + s + "" == s;
    if Survives(w) {
      SurvivorsAreReadable(w);
    }
    if Void(w) {
      TextOpens(w);
      EmptyTextRead();
      VoidIsLost(w);
    } else {
      TextEnds(w);
      ParseFilterOfText(s);
      if NegatesVoid(w) {
        FailsAt(w, "", "");
      } else {
        ParsesAt(w, "", "");
        ReadsIsImage(w);
      }
    }
  }

  // ---- White space in the text of a filter ----

  predicate AllSpaces(s: string) {
    forall c :: c in s ==> IsSpace(c)
  }

  lemma SpacesAround(before: string, s: string, after: string)
    requires AllSpaces(before) && AllSpaces(after) && Trimmed(s)
    ensures TrimSpace(before + s + after) == s
  {
    hide TrimSpace, IsSpace;
    var text := before + s + after;
    assert text[|before|..|before| + |s|] == s;
    assert forall i :: 0 <= i < |before| ==> text[i] == before[i] && before[i] in before;
    assert forall i :: |before| + |s| <= i < |text| ==> text[i] == after[i - |before| - |s|] && after[i - |before| - |s|] in after;
    TrimSpaceUnique(text, |before|, |before| + |s|);
  }

  /** White space around a filter is ignored. */
  lemma SpacesAroundFilter(before: string, s: string, after: string)
    requires AllSpaces(before) && AllSpaces(after) && Trimmed(s) && s != ""
    ensures ParseFilter(before + s + after) == ParseFilter(s)
  {
    hide TrimSpace, ParseAt, Trimmed, IsSpace;
    SpacesAround(before, s, after);
    assert TrimSpace(s) == s;
  }

  lemma SpacedShape(before: string, a: string, after: string)
    requires AllSpaces(before) && AllSpaces(after) && PlainAttribute(a)
    ensures var x := before + a + after;
      TrimSpace(x) == a && '=' !in x && (x == "" || !IsOperatorChar(x[|x| - 1]))
  {
    hide TrimSpace;
    var x := before + a + after;
    SpacesAround(before, a, after);
    forall c | c in x ensures c in before || c in a || c in after {
      var i: int :| 0 <= i < |x| && x[i] == c;
    }
    if after != "" {
      assert x[|x| - 1] == after[|after| - 1] && after[|after| - 1] in after;
    } else if a != "" {
      assert x[|x| - 1] == a[|a| - 1];
    } else if before != "" {
      assert x == before && x[|x| - 1] in before;
    }
  }

  /** White space around an attribute description is ignored, before every operator. */
  lemma SpacesAroundAttribute(before: string, a: string, after: string, text: string)
    requires AllSpaces(before) && AllSpaces(after) && PlainAttribute(a)
    requires !HasPair(text, '>') && !HasPair(text, '<') && !HasPair(text, '~')
    ensures ParseItem(before + a + after + "=" + text) == ParseItem(a + "=" + text)
    ensures ParseItem(before + a + after + ">=" + text) == Item(GreaterOrEqual(a, Decode(TrimSpace(text), false)))
    ensures ParseItem(before + a + after + "<=" + text) == Item(LessOrEqual(a, Decode(TrimSpace(text), false)))
    ensures ParseItem(before + a + after + "~=" + text) == Item(Approx(a, Decode(TrimSpace(text), false)))
  {
    hide Decode, TrimSpace, HasPair, HasWildcard, PlainAttribute, ParseItem;
    var x := before + a + after;
    SpacedShape(before, a, after);
    SpacedShape("", a, "");
    assert "" + a + "" == a;
    EqualsItem(x, text);
    EqualsItem(a, text);
    SpacedOperator(x, '>', text);
    SpacedOperator(x, '<', text);
    SpacedOperator(x, '~', text);
  }

  lemma EqualsItem(x: string, text: string)
    requires '=' !in x && (x == "" || !IsOperatorChar(x[|x| - 1]))
    requires !HasPair(text, '>') && !HasPair(text, '<') && !HasPair(text, '~')
    ensures ParseItem(x + "=" + text) == var raw := TrimSpace(text);
      Item(if raw == "*" then Present(TrimSpace(x))
           else if HasWildcard(raw) then Substrings(TrimSpace(x), Decode(raw, true)) else Equality(TrimSpace(x), Decode(raw, false)))
  {
    hide Index, IndexByte, Decode, TrimSpace, HasPair, HasWildcard;
    var part := x + "=" + text;
    PairsAfterEquals(x, text, '>');
    PairsAfterEquals(x, text, '<');
    PairsAfterEquals(x, text, '~');
    PairIsIndex(part, '>');
    PairIsIndex(part, '<');
    PairIsIndex(part, '~');
    assert part[..|x|] == x && part[|x| + 1..] == text;
  }

  lemma SpacedOperator(x: string, op: char, text: string)
    requires '=' !in x && IsOperatorChar(op)
    requires !HasPair(text, '>') && !HasPair(text, '<') && !HasPair(text, '~')
    ensures ParseItem(x + [op, '='] + text) == var value := Decode(TrimSpace(text), false);
      Item(if op == '>' then GreaterOrEqual(TrimSpace(x), value) else if op == '<' then LessOrEqual(TrimSpace(x), value)
           else Approx(TrimSpace(x), value))
  {
    hide Index, IndexByte, Decode, TrimSpace, HasPair;
    var part := x + [op, '='] + text;
    PairsAfterOperator(x, op, text, '>');
    PairsAfterOperator(x, op, text, '<');
    PairsAfterOperator(x, op, text, '~');
    PairIsIndex(part, '>');
    PairIsIndex(part, '<');
    PairIsIndex(part, '~');
    assert part[..|x|] == x && part[|x| + 2..] == text;
  }

  /** A text that is not in parentheses, white space apart, is no filter; no text at all is a test every entry meets. */
  lemma FilterNeedsParentheses(text: string)
    requires text != ""
    ensures ParseFilter(text).Item? ==> var s := TrimSpace(text); |s| >= 2 && s[0] == '(' && s[|s| - 1] == ')'
  {
    hide TrimSpace, ParseAt;
  }
}
