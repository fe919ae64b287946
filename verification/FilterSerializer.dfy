/** Serialising a decoded LDAP filter to text, and reading that text back. */
module FilterSerializer {
  import opened Text
  import opened Filters
  import opened FilterParser

  datatype PieceKind = Initial | Any | Final

  datatype Piece = Piece(kind: PieceKind, value: string)

  /** ldapmsg.Filter */
  datatype WireFilter =
    | WireAnd(filters: seq<WireFilter>)
    | WireOr(filters: seq<WireFilter>)
    | WireNot(filter: WireFilter)
    | WireEquality(attribute: string, value: string)
    | WirePresent(attribute: string)
    | WireGreaterOrEqual(attribute: string, value: string)
    | WireLessOrEqual(attribute: string, value: string)
    | WireApprox(attribute: string, value: string)
    | WireSubstrings(attribute: string, pieces: seq<Piece>)

  // ---- Escaping ----

  function EscapeChar(c: char): string {
    if c == '*' then "\\2a"
    else if c == '(' then "\\28"
    else if c == ')' then "\\29"
    else if c == '\\' then "\\5c"
    else if c == '\0' then "\\00"
    else [c]
  }

  /** escapeLDAPFilterAssertionValue */
  function Escape(value: string): string {
    if value == [] then [] else EscapeChar(value[0]) + Escape(value[1..])
  }

  lemma {:induction false} EscapeConcat(a: string, b: string)
    ensures Escape(a + b) == Escape(a) + Escape(b)
  {
    if a == [] {
      assert a + b == b;
    } else {
      assert (a + b)[1..] == a[1..] + b;
      EscapeConcat(a[1..], b);
    }
  }

  lemma EscapeExtend(value: string, i: nat)
    requires i < |value|
    ensures Escape(value[..i + 1]) == Escape(value[..i]) + EscapeChar(value[i])
  {
    assert value[..i + 1] == value[..i] + [value[i]];
    EscapeConcat(value[..i], [value[i]]);
    assert [value[i]][1..] == [];
    assert Escape([value[i]]) == EscapeChar(value[i]);
  }

  method BuildEscaped(value: string) returns (escaped: string)
    ensures escaped == Escape(value)
  {
    escaped := "";
    for i := 0 to |value|
      invariant escaped == Escape(value[..i])
    {
      EscapeExtend(value, i);
      escaped := escaped + EscapeChar(value[i]);
    }
    assert value[..|value|] == value;
  }

  /** The text of one substring piece. */
  function PieceText(piece: Piece): string {
    match piece.kind
    case Initial => Escape(piece.value) + "*"
    case Any => Escape(piece.value) + "*"
    case Final => Escape(piece.value)
  }

  function Body(pieces: seq<Piece>): string {
    if pieces == [] then [] else PieceText(pieces[0]) + Body(pieces[1..])
  }

  /** What stands between the parentheses of a leaf. */
  function ItemText(w: WireFilter): string
    requires IsWireLeaf(w)
  {
    match w
    case WireEquality(attribute, value) => attribute + "=" + Escape(value)
    case WirePresent(attribute) => attribute + "=" + "*"
    case WireGreaterOrEqual(attribute, value) => attribute + ">=" + Escape(value)
    case WireLessOrEqual(attribute, value) => attribute + "<=" + Escape(value)
    case WireApprox(attribute, value) => attribute + "~=" + Escape(value)
    case WireSubstrings(attribute, pieces) => attribute + "=" + Body(pieces)
  }

  predicate IsWireLeaf(w: WireFilter) {
    !w.WireAnd? && !w.WireOr? && !w.WireNot?
  }

  /** serializeFilter */
  function Serialize(w: WireFilter): string
    decreases w, 1
  {
    match w
    case WireAnd(filters) => if filters == [] then "" else "(&" + SerializeAll(filters) + ")"
    case WireOr(filters) => if filters == [] then "" else "(|" + SerializeAll(filters) + ")"
    case WireNot(filter) => "(!" + Serialize(filter) + ")"
    case _ => "(" + ItemText(w) + ")"
  }

  function SerializeAll(filters: seq<WireFilter>): string
    decreases filters, 0
  {
    if filters == [] then "" else Serialize(filters[0]) + SerializeAll(filters[1..])
  }

  lemma {:induction false} BodyConcat(a: seq<Piece>, b: seq<Piece>)
    ensures Body(a + b) == Body(a) + Body(b)
  {
    if a == [] {
      assert a + b == b;
    } else {
      assert (a + b)[1..] == a[1..] + b;
      BodyConcat(a[1..], b);
    }
  }

  lemma BodyOne(piece: Piece)
    ensures Body([piece]) == PieceText(piece)
  {
    assert [piece][1..] == [];
    assert PieceText(piece) + [] == PieceText(piece);
  }

  lemma BodyExtend(pieces: seq<Piece>, i: nat)
    requires i < |pieces|
    ensures Body(pieces[..i + 1]) == Body(pieces[..i]) + PieceText(pieces[i])
  {
    hide Body, PieceText;
    assert pieces[..i + 1] == pieces[..i] + [pieces[i]];
    BodyConcat(pieces[..i], [pieces[i]]);
    BodyOne(pieces[i]);
  }

  method BuildBody(pieces: seq<Piece>) returns (text: string)
    ensures text == Body(pieces)
  {
    text := "";
    for i := 0 to |pieces|
      invariant text == Body(pieces[..i])
    {
      var piece := pieces[i];
      var escaped := BuildEscaped(piece.value);
      BodyExtend(pieces, i);
      ConcatAssociative(text, escaped, "*");
      text := text + escaped;
      if piece.kind != Final {
        text := text + "*";
      }
    }
    assert pieces[..|pieces|] == pieces;
  }

  lemma {:induction false} SerializeAllConcat(a: seq<WireFilter>, b: seq<WireFilter>)
    ensures SerializeAll(a + b) == SerializeAll(a) + SerializeAll(b)
  {
    if a == [] {
      assert a + b == b;
    } else {
      assert (a + b)[1..] == a[1..] + b;
      SerializeAllConcat(a[1..], b);
    }
  }

  method BuildFilters(filters: seq<WireFilter>) returns (text: string)
    ensures text == SerializeAll(filters)
    decreases filters, 0
  {
    text := "";
    for i := 0 to |filters|
      invariant text == SerializeAll(filters[..i])
    {
      var part := BuildFilter(filters[i]);
      SerializeAllConcat(filters[..i], [filters[i]]);
      assert [filters[i]][1..] == [];
      assert SerializeAll([filters[i]]) == Serialize(filters[i]) + "";
      assert filters[..i + 1] == filters[..i] + [filters[i]];
      text := text + part;
    }
    assert filters[..|filters|] == filters;
  }

  method BuildFilter(w: WireFilter) returns (text: string)
    ensures text == Serialize(w)
    decreases w, 1
  {
    match w
    case WireAnd(filters) =>
      if filters == [] {
        return "";
      }
      var parts := BuildFilters(filters);
      text := "(&" + parts + ")";
    case WireOr(filters) =>
      if filters == [] {
        return "";
      }
      var parts := BuildFilters(filters);
      text := "(|" + parts + ")";
    case WireNot(filter) =>
      var part := BuildFilter(filter);
      text := "(!" + part + ")";
    case WireEquality(attribute, value) =>
      var escaped := BuildEscaped(value);
      text := "(" + (attribute + "=" + escaped) + ")";
    case WirePresent(attribute) =>
      text := "(" + (attribute + "=" + "*") + ")";
    case WireGreaterOrEqual(attribute, value) =>
      var escaped := BuildEscaped(value);
      text := "(" + (attribute + ">=" + escaped) + ")";
    case WireLessOrEqual(attribute, value) =>
      var escaped := BuildEscaped(value);
      text := "(" + (attribute + "<=" + escaped) + ")";
    case WireApprox(attribute, value) =>
      var escaped := BuildEscaped(value);
      text := "(" + (attribute + "~=" + escaped) + ")";
    case WireSubstrings(attribute, pieces) =>
      var body := BuildBody(pieces);
      text := "(" + (attribute + "=" + body) + ")";
  }

  // ---- Decoding undoes escaping ----

  function PatternChar(c: char): char {
    if c == '*' then ESCAPED_ASTERISK else c
  }

  /** A piece inside a pattern: its own asterisks are marked as escaped. */
  function PatternText(value: string): (r: string)
    ensures |r| == |value| && forall i :: 0 <= i < |value| ==> r[i] == PatternChar(value[i])
  {
    seq(|value|, i requires 0 <= i < |value| => PatternChar(value[i]))
  }

  lemma DecodeOne(c: char, tail: string, preserve: bool)
    ensures Decode(EscapeChar(c) + tail, preserve) == [if preserve then PatternChar(c) else c] + Decode(tail, preserve)
  {
    var s := EscapeChar(c) + tail;
    assert s[|EscapeChar(c)|..] == tail;
    if c == '*' || c == '(' || c == ')' || c == '\\' || c == '\0' {
      assert StartsEscape(s);
    } else {
      assert !StartsEscape(s);
    }
  }

  lemma PatternTextCons(value: string)
    requires value != []
    ensures PatternText(value) == [PatternChar(value[0])] + PatternText(value[1..])
  {
  }

  lemma {:induction false} DecodeEscape(value: string, tail: string, preserve: bool)
    ensures Decode(Escape(value) + tail, preserve) == (if preserve then PatternText(value) else value) + Decode(tail, preserve)
  {
    hide Decode, EscapeChar, PatternText;
    if value == [] {
      assert Escape(value) + tail == tail;
      assert PatternText(value) == [];
    } else {
      var c, rest := value[0], value[1..];
      var done := if preserve then PatternText(rest) else rest;
      DecodeEscape(rest, tail, preserve);
      DecodeOne(c, Escape(rest) + tail, preserve);
      ConcatAssociative(EscapeChar(c), Escape(rest), tail);
      ConcatAssociative([if preserve then PatternChar(c) else c], done, Decode(tail, preserve));
      PatternTextCons(value);
      assert value == [c] + rest;
    }
  }

  /** The pattern a list of pieces becomes. */
  function Pattern(pieces: seq<Piece>): string {
    if pieces == [] then []
    else PatternText(pieces[0].value) + (if pieces[0].kind == Final then "" else "*") + Pattern(pieces[1..])
  }

  lemma DecodeStar(tail: string)
    ensures Decode("*" + tail, true) == "*" + Decode(tail, true)
    ensures HasWildcard("*" + tail)
  {
    assert ("*" + tail)[1..] == tail;
  }

  lemma {:induction false} DecodeBody(pieces: seq<Piece>)
    ensures Decode(Body(pieces), true) == Pattern(pieces)
  {
    hide Decode, Escape, PatternText;
    if pieces == [] {
      DecodeNothing();
    } else {
      var p, rest := pieces[0], Body(pieces[1..]);
      DecodeBody(pieces[1..]);
      if p.kind == Final {
        DecodeEscape(p.value, rest, true);
        assert PatternText(p.value) + "" == PatternText(p.value);
      } else {
        DecodeEscape(p.value, "*" + rest, true);
        DecodeStar(rest);
        ConcatAssociative(Escape(p.value), "*", rest);
        ConcatAssociative(PatternText(p.value), "*", Pattern(pieces[1..]));
      }
    }
  }

  lemma DecodeNothing()
    ensures Decode("", true) == ""
  {
  }

  lemma EscapeCharHidesWildcards(c: char, tail: string)
    ensures HasWildcard(EscapeChar(c) + tail) == HasWildcard(tail)
  {
    var s := EscapeChar(c) + tail;
    assert s[|EscapeChar(c)|..] == tail;
    assert StartsEscape(s) <==> |EscapeChar(c)| == 3;
  }

  lemma {:induction false} EscapeHidesWildcards(value: string, tail: string)
    ensures HasWildcard(Escape(value) + tail) == HasWildcard(tail)
  {
    if value == [] {
      assert Escape(value) + tail == tail;
    } else {
      EscapeHidesWildcards(value[1..], tail);
      ConcatAssociative(EscapeChar(value[0]), Escape(value[1..]), tail);
      EscapeCharHidesWildcards(value[0], Escape(value[1..]) + tail);
    }
  }

  predicate HasStar(pieces: seq<Piece>) {
    exists p :: p in pieces && p.kind != Final
  }

  lemma {:induction false} BodyWildcard(pieces: seq<Piece>)
    ensures HasWildcard(Body(pieces)) <==> HasStar(pieces)
  {
    hide Escape, StartsEscape;
    if pieces != [] {
      var p, rest := pieces[0], Body(pieces[1..]);
      assert pieces == [p] + pieces[1..];
      BodyWildcard(pieces[1..]);
      if p.kind == Final {
        EscapeHidesWildcards(p.value, rest);
      } else {
        EscapeHidesWildcards(p.value, "*" + rest);
        DecodeStar(rest);
        ConcatAssociative(Escape(p.value), "*", rest);
      }
    }
  }

  // ---- What escaping leaves ----

  /** No character that section 3 of RFC 4515 wants escaped. */
  predicate NoSpecials(value: string) {
    forall c :: c in value ==> c != '*' && c != '(' && c != ')' && c != '\\' && c != '\0'
  }

  lemma {:induction false} EscapeKeepsPlain(value: string)
    requires NoSpecials(value)
    ensures Escape(value) == value
  {
    if value != [] {
      assert value[0] in value && value == [value[0]] + value[1..];
      assert forall c :: c in value[1..] ==> c in value;
      EscapeKeepsPlain(value[1..]);
    }
  }

  /** An escaped value holds no special character but backslashes, each before two hexadecimal digits. */
  lemma {:induction false} EscapeIsSafe(value: string, i: nat)
    requires i < |Escape(value)|
    ensures var c := Escape(value)[i];
      c != '*' && c != '(' && c != ')' && c != '\0' && (c == '\\' ==> StartsEscape(Escape(value)[i..]))
  {
    var head, tail := EscapeChar(value[0]), Escape(value[1..]);
    assert Escape(value) == head + tail;
    if i < |head| {
      assert (head + tail)[i..] == head[i..] + tail;
    } else {
      EscapeIsSafe(value[1..], i - |head|);
      assert (head + tail)[i..] == tail[i - |head|..];
    }
  }
}
