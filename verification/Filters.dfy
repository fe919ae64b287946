/** LDAP search filters and their meaning on an entry (RFC 4515; RFC 4511 section 4.5.1.7). */
module Filters {
  import opened Text
  import opened Tables

  datatype Filter =
    | And(filters: seq<Filter>)
    | Or(filters: seq<Filter>)
    | Not(filters: seq<Filter>)
    | Equality(attribute: string, value: string)
    | Present(attribute: string)
    | Approx(attribute: string, value: string)
    | GreaterOrEqual(attribute: string, value: string)
    | LessOrEqual(attribute: string, value: string)
    | Substrings(attribute: string, value: string)

  // ---- Substring patterns ----

  /** Stands in a pattern for an asterisk that was escaped in the filter text. */
  const ESCAPED_ASTERISK := '\U{E000}'

  /** strings.Split on one character. */
  function Split(s: string, c: char): (parts: seq<string>)
    ensures |parts| >= 1
    ensures |parts| == 1 <==> c !in s
    ensures |parts| == 1 ==> parts == [s]
    ensures forall p :: p in parts ==> c !in p
  {
    var i := IndexByte(s, c);
    if i < 0 then [s] else [s[..i]] + Split(s[i + 1..], c)
  }

  function LiteralChar(c: char): char {
    if c == ESCAPED_ASTERISK then '*' else c
  }

  /** substringLiteral: the text a pattern piece stands for. */
  function Literal(s: string): (r: string)
    ensures |r| == |s| && forall i :: 0 <= i < |s| ==> r[i] == LiteralChar(s[i])
  {
    seq(|s|, i requires 0 <= i < |s| => LiteralChar(s[i]))
  }

  /** The middle pieces are found one after the other, each at its first position. */
  predicate GreedyMiddles(value: string, parts: seq<string>) {
    if parts == [] then true
    else
      var i := Index(value, Literal(parts[0]));
      i >= 0 && GreedyMiddles(value[i + |parts[0]|..], parts[1..])
  }

  predicate GreedyMatch(value: string, parts: seq<string>)
    requires |parts| >= 2
  {
    var first, last := Literal(parts[0]), Literal(parts[|parts| - 1]);
    first <= value
    && HasSuffix(value[|first|..], last)
    && GreedyMiddles(value[|first|..|value| - |last|], parts[1..|parts| - 1])
  }

  predicate MatchSubstring(value: string, pattern: string) {
    var v, parts := Lower(value), Split(Lower(pattern), '*');
    if |parts| == 1 then v == Lower(pattern) else GreedyMatch(v, parts)
  }

  /** matchSubstring: the first piece, then the last, then the middle ones from left to right. */
  method ScanSubstring(value0: string, pattern0: string) returns (r: bool)
    ensures r == MatchSubstring(value0, pattern0)
  {
    hide Literal, Index, Lower, Split;
    var value, pattern := Lower(value0), Lower(pattern0);
    var parts := Split(pattern, '*');
    if |parts| == 1 {
      return value == pattern;
    }
    var first := Literal(parts[0]);
    if first != "" {
      if !(first <= value) {
        return false;
      }
      value := value[|first|..];
    }
    var last := Literal(parts[|parts| - 1]);
    if last != "" {
      if !HasSuffix(value, last) {
        return false;
      }
      value := value[..|value| - |last|];
    }
    ghost var v, middles := Lower(value0), parts[1..|parts| - 1];
    assert first <= v && HasSuffix(v[|first|..], last);
    assert value == v[|first|..|v| - |last|];
    assert middles[0..] == middles;
    for i := 1 to |parts| - 1
      invariant GreedyMatch(v, parts) == GreedyMiddles(value, middles[i - 1..])
    {
      assert middles[i - 1..][0] == parts[i] && middles[i - 1..][1..] == middles[i..];
      var part := Literal(parts[i]);
      if part == "" {
        assert OccursAt(value, part, 0) && value[0..] == value;
        continue;
      }
      var at := Index(value, part);
      if at == -1 {
        return false;
      }
      value := value[at + |part|..];
    }
    return true;
  }

  // ---- What a substring pattern means: literal pieces in order with gaps between them ----

  /** gap, piece, gap, piece, ..., gap, last */
  function Assemble(gaps: seq<string>, middles: seq<string>, last: string): string
    requires |gaps| == |middles| + 1
  {
    if middles == [] then gaps[0] + last
    else gaps[0] + Literal(middles[0]) + Assemble(gaps[1..], middles[1..], last)
  }

  ghost predicate SplitsInto(value: string, first: string, middles: seq<string>, last: string) {
    exists gaps: seq<string> :: |gaps| == |middles| + 1 && value == first + Assemble(gaps, middles, last)
  }

  lemma {:induction false} GreedyFindsGaps(value: string, middles: seq<string>, last: string) returns (gaps: seq<string>)
    requires GreedyMiddles(value, middles)
    ensures |gaps| == |middles| + 1 && value + last == Assemble(gaps, middles, last)
    decreases |middles|
  {
    if middles == [] {
      gaps := [value];
    } else {
      var piece := Literal(middles[0]);
      var i := Index(value, piece);
      var rest := GreedyFindsGaps(value[i + |piece|..], middles[1..], last);
      gaps := [value[..i]] + rest;
      assert gaps[1..] == rest;
      assert value == value[..i] + piece + value[i + |piece|..];
    }
  }

  lemma {:induction false} GreedyMonotone(value: string, k: nat, middles: seq<string>)
    requires k <= |value| && GreedyMiddles(value[k..], middles)
    ensures GreedyMiddles(value, middles)
    decreases |middles|
  {
    hide Literal, Index;
    if middles != [] {
      var piece := Literal(middles[0]);
      var late := Index(value[k..], piece);
      assert value[k..][late..late + |piece|] == value[k + late..k + late + |piece|];
      assert OccursAt(value, piece, k + late);
      var early := Index(value, piece);
      var rest := value[early + |piece|..];
      assert rest[k + late - early..] == value[k..][late + |piece|..];
      GreedyMonotone(rest, k + late - early, middles[1..]);
    }
  }

  /** An early piece is no obstacle: the greedy choice leaves at least as much to match. */
  lemma GreedyTakesPiece(value: string, i: nat, middles: seq<string>)
    requires middles != [] && OccursAt(value, Literal(middles[0]), i)
    requires GreedyMiddles(value[i + |middles[0]|..], middles[1..])
    ensures GreedyMiddles(value, middles)
  {
    hide Literal, Index;
    var piece := Literal(middles[0]);
    var early := Index(value, piece);
    var rest := value[early + |piece|..];
    assert rest[i - early..] == value[i + |piece|..];
    GreedyMonotone(rest, i - early, middles[1..]);
  }

  lemma {:induction false} GapsSatisfyGreedy(gaps: seq<string>, middles: seq<string>, last: string)
    requires |gaps| == |middles| + 1
    ensures HasSuffix(Assemble(gaps, middles, last), last)
    ensures var value := Assemble(gaps, middles, last); GreedyMiddles(value[..|value| - |last|], middles)
    decreases |middles|
  {
    hide GreedyMiddles;
    var value := Assemble(gaps, middles, last);
    if middles == [] {
      assert GreedyMiddles(gaps[0], []) by { GreedyNoMiddles(gaps[0]); }
      assert value[..|value| - |last|] == gaps[0];
    } else {
      var piece, tail := Literal(middles[0]), Assemble(gaps[1..], middles[1..], last);
      GapsSatisfyGreedy(gaps[1..], middles[1..], last);
      assert value == gaps[0] + piece + tail;
      var v, i := value[..|value| - |last|], |gaps[0]|;
      assert v[i..i + |piece|] == piece;
      assert v[i + |piece|..] == tail[..|tail| - |last|];
      GreedyTakesPiece(v, i, middles);
    }
  }

  lemma GreedyNoMiddles(value: string)
    ensures GreedyMiddles(value, [])
  {
  }

  lemma GreedyMatchExact(v: string, parts: seq<string>)
    requires |parts| >= 2
    ensures GreedyMatch(v, parts) <==>
      SplitsInto(v, Literal(parts[0]), parts[1..|parts| - 1], Literal(parts[|parts| - 1]))
  {
    hide GreedyMiddles, Literal, Assemble;
    var first, middles, last := Literal(parts[0]), parts[1..|parts| - 1], Literal(parts[|parts| - 1]);
    if GreedyMatch(v, parts) {
      var inner := v[|first|..|v| - |last|];
      var gaps := GreedyFindsGaps(inner, middles, last);
      assert v == first + (inner + last);
    }
    if gaps: seq<string> :| |gaps| == |middles| + 1 && v == first + Assemble(gaps, middles, last) {
      GapsSatisfyGreedy(gaps, middles, last);
      var tail := Assemble(gaps, middles, last);
      assert v[|first|..] == tail;
      assert v[|first|..|v| - |last|] == tail[..|tail| - |last|];
    }
  }

  lemma LowerKeepsAsterisk(pattern: string)
    ensures '*' in Lower(pattern) <==> '*' in pattern
  {
    if '*' in pattern {
      var k :| 0 <= k < |pattern| && pattern[k] == '*';
      assert Lower(pattern)[k] == '*';
    }
  }

  /**
   The greedy matcher is sound and complete: a value matches a pattern with a wildcard exactly when it is
   the first piece, then gaps and middle pieces in order, then the last piece, ignoring case.
   */
  lemma MatchSubstringExact(value: string, pattern: string)
    requires '*' in pattern
    ensures var parts := Split(Lower(pattern), '*');
      |parts| >= 2 && (MatchSubstring(value, pattern) <==>
        SplitsInto(Lower(value), Literal(parts[0]), parts[1..|parts| - 1], Literal(parts[|parts| - 1])))
  {
    hide Split, Lower, GreedyMatch, SplitsInto, Literal;
    LowerKeepsAsterisk(pattern);
    GreedyMatchExact(Lower(value), Split(Lower(pattern), '*'));
  }

  // ---- Matching an entry ----

  /** time.Time's zero value, whose year is 1. */
  const ZERO_TIME := "00010101000000"

  /** models.FormatLDAPTimestamp */
  function FormatLdapTimestamp(time: Timestamp): string {
    time + "Z"
  }

  function FilterAttributeValues(entry: Entry, attribute: string): seq<string> {
    var a := Lower(attribute);
    if a == "objectclass" then (if entry.objectClass == "" then [] else [entry.objectClass])
    else if a == "createtimestamp" then
      (if entry.createdAt == ZERO_TIME then [] else [FormatLdapTimestamp(entry.createdAt)])
    else if a == "modifytimestamp" then
      (if entry.updatedAt == ZERO_TIME then [] else [FormatLdapTimestamp(entry.updatedAt)])
    else entry.GetAttributes(attribute)
  }

  function TrimSuffixChar(s: string, c: char): string {
    if s != "" && s[|s| - 1] == c then s[..|s| - 1] else s
  }

  /** A timestamp without its zone letter. */
  function StripZone(s: string): string {
    TrimSuffixChar(TrimSuffixChar(s, 'Z'), 'z')
  }

  predicate CompareTimestamp(entry: Entry, attribute: string, value: string, atLeast: bool) {
    var values := FilterAttributeValues(entry, attribute);
    values != [] &&
    var ts, bound := StripZone(values[0]), StripZone(value);
    if atLeast then StringLe(bound, ts) else StringLe(ts, bound)
  }

  predicate IsTimestampAttribute(attribute: string) {
    Lower(attribute) == "createtimestamp" || Lower(attribute) == "modifytimestamp"
  }

  /** Filter.Matches */
  predicate Matches(f: Filter, entry: Entry) {
    match f
    case And(filters) => forall g :: g in filters ==> Matches(g, entry)
    case Or(filters) => exists g :: g in filters && Matches(g, entry)
    case Not(filters) => filters == [] || !Matches(filters[0], entry)
    case Present(attribute) => FilterAttributeValues(entry, attribute) != []
    case Equality(attribute, value) =>
      exists v :: v in FilterAttributeValues(entry, attribute) && Lower(v) == Lower(value)
    case Substrings(attribute, value) =>
      exists v :: v in FilterAttributeValues(entry, attribute) && MatchSubstring(v, value)
    case GreaterOrEqual(attribute, value) =>
      if IsTimestampAttribute(attribute) then CompareTimestamp(entry, attribute, value, true)
      else exists v :: v in FilterAttributeValues(entry, attribute) && StringLe(value, v)
    case LessOrEqual(attribute, value) =>
      if IsTimestampAttribute(attribute) then CompareTimestamp(entry, attribute, value, false)
      else exists v :: v in FilterAttributeValues(entry, attribute) && StringLe(v, value)
    case Approx(attribute, value) =>
      exists v :: v in FilterAttributeValues(entry, attribute) && v == value
  }
}
