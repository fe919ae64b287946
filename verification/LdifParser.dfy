/** Parsing LDIF entry records (RFC 2849). */
module LdifParser {
  import opened Text
  import opened Filters
  import opened Records
  import opened Base64

  /** A logical line and the number of the physical line it starts on. */
  datatype Logical = Logical(text: string, number: nat)

  datatype Unfolded = BadFold(line: nat) | Unfolded(lines: seq<Logical>)

  // ---- Lines ----

  /** "\r\n" and lone "\r" become "\n". */
  function NormalizeBreaks(s: string): string {
    if s == [] then []
    else if s[0] == '\r' then "\n" + NormalizeBreaks(if |s| > 1 && s[1] == '\n' then s[2..] else s[1..])
    else [s[0]] + NormalizeBreaks(s[1..])
  }

  predicate IsContinuation(text: string) {
    text != "" && text[0] == ' '
  }

  /** Physical line `number` after the logical lines so far. */
  function UnfoldLine(lines: seq<Logical>, text: string, number: nat): Unfolded {
    if !IsContinuation(text) then Unfolded(lines + [Logical(text, number)])
    else if lines == [] then BadFold(number)
    else
      var last := lines[|lines| - 1];
      Unfolded(lines[..|lines| - 1] + [Logical(last.text + text[1..], last.number)])
  }

  /** The logical lines of a file, given those before physical line n + 1. */
  function UnfoldFrom(lines: seq<Logical>, raw: seq<string>, n: nat): Unfolded
    decreases |raw|
  {
    if raw == [] then Unfolded(lines)
    else match UnfoldLine(lines, raw[0], n + 1)
      case BadFold(line) => BadFold(line)
      case Unfolded(more) => UnfoldFrom(more, raw[1..], n + 1)
  }

  /** unfoldLines: a continuation is appended to the last line in place. */
  method UnfoldLines(input: string) returns (r: Unfolded)
    ensures r == UnfoldFrom([], Split(NormalizeBreaks(input), '\n'), 0)
  {
    hide Split, NormalizeBreaks, UnfoldFrom, UnfoldLine;
    var raw := Split(NormalizeBreaks(input), '\n');
    var lines: seq<Logical> := [];
    assert raw[0..] == raw;
    for i := 0 to |raw|
      invariant UnfoldFrom([], raw, 0) == UnfoldFrom(lines, raw[i..], i)
    {
      NextLine(lines, raw, i);
      AppendedInPlace(lines, raw[i], i + 1);
      if IsContinuation(raw[i]) {
        if lines == [] {
          return BadFold(i + 1);
        }
        var last := |lines| - 1;
        lines := lines[last := Logical(lines[last].text + raw[i][1..], lines[last].number)];
        continue;
      }
      lines := lines + [Logical(raw[i], i + 1)];
    }
    assert raw[|raw|..] == [];
    NoMoreLines(lines, |raw|);
    return Unfolded(lines);
  }

  lemma NextLine(lines: seq<Logical>, raw: seq<string>, i: nat)
    requires i < |raw|
    ensures UnfoldFrom(lines, raw[i..], i) == match UnfoldLine(lines, raw[i], i + 1)
      case BadFold(line) => BadFold(line)
      case Unfolded(more) => UnfoldFrom(more, raw[i + 1..], i + 1)
  {
    assert raw[i..][0] == raw[i] && raw[i..][1..] == raw[i + 1..];
  }

  lemma NoMoreLines(lines: seq<Logical>, n: nat)
    ensures UnfoldFrom(lines, [], n) == Unfolded(lines)
  {
  }

  /** Rebuilding the list around its last line is writing to that line. */
  lemma AppendedInPlace(lines: seq<Logical>, text: string, number: nat)
    ensures UnfoldLine(lines, text, number) ==
      if !IsContinuation(text) then Unfolded(lines + [Logical(text, number)])
      else if lines == [] then BadFold(number)
      else Unfolded(lines[|lines| - 1 := Logical(lines[|lines| - 1].text + text[1..], lines[|lines| - 1].number)])
  {
  }

  // ---- One line ----

  datatype Pair = BadLine | Pair(name: string, value: string)

  /** The value after the colon: plain, base64 after a second colon, or a URL, which is refused. */
  function ValueAfter(name: string, rest: string): Pair {
    if rest != "" && rest[0] == ':' then
      match Decode(TrimSpace(rest[1..]))
      case Invalid => BadLine
      case Decoded(bytes) => Pair(name, bytes)
    else if rest != "" && rest[0] == '<' then BadLine
    else Pair(name, if rest != "" && rest[0] == ' ' then rest[1..] else rest)
  }

  /** splitAttributeLine */
  function SplitAttributeLine(line: string): Pair {
    var i := IndexByte(line, ':');
    if i < 0 then BadLine
    else
      var name := TrimSpace(line[..i]);
      if name == "" || ' ' in name || '\t' in name then BadLine else ValueAfter(name, line[i + 1..])
  }

  datatype LineResult = BadRecord | Good(record: Record)

  /** parseLine */
  function AddLine(r: Record, line: string, number: nat): LineResult {
    match SplitAttributeLine(line)
    case BadLine => BadRecord
    case Pair(name, value) =>
      if EqualFold(name, "dn") then
        if r.dn != "" then BadRecord else Good(r.(dn := value, dnLine := number))
      else if EqualFold(name, "changetype") then BadRecord
      else Good(r.(attributes := r.attributes + [Attribute(name, value, number)]))
  }

  // ---- Records ----

  datatype Current = NoRecord | InRecord(record: Record)

  datatype ParseResult = Bad | Records(records: seq<Record>)

  const EMPTY_RECORD := Record("", 0, [])

  function StartOrGo(current: Current): Record {
    if current.InRecord? then current.record else EMPTY_RECORD
  }

  /** What the parser makes of the remaining lines; a record ends at an empty line or at the end. */
  function ParseFrom(records: seq<Record>, current: Current, lines: seq<Logical>): ParseResult
    decreases |lines|
  {
    if lines == [] then
      match current
      case NoRecord => Records(records)
      case InRecord(r) => if r.dn == "" then Bad else Records(records + [r])
    else
      var line := lines[0];
      if TrimSpace(line.text) == "" then
        match current
        case NoRecord => ParseFrom(records, NoRecord, lines[1..])
        case InRecord(r) => if r.dn == "" then Bad else ParseFrom(records + [r], NoRecord, lines[1..])
      else if line.text[0] == '#' then ParseFrom(records, current, lines[1..])
      else match AddLine(StartOrGo(current), line.text, line.number)
        case BadRecord => Bad
        case Good(r) => ParseFrom(records, InRecord(r), lines[1..])
  }

  function ParseText(input: string): ParseResult {
    match UnfoldFrom([], Split(NormalizeBreaks(input), '\n'), 0)
    case BadFold(_) => Bad
    case Unfolded(lines) => ParseFrom([], NoRecord, lines)
  }

  /** Parse, line by line. */
  method Parse(input: string) returns (result: ParseResult)
    ensures result == ParseText(input)
  {
    hide UnfoldFrom, AddLine, NormalizeBreaks, TrimSpace;
    var unfolded := UnfoldLines(input);
    if unfolded.BadFold? {
      return Bad;
    }
    var lines := unfolded.lines;
    var records: seq<Record> := [];
    var current := NoRecord;
    for i := 0 to |lines|
      invariant ParseFrom([], NoRecord, lines) == ParseFrom(records, current, lines[i..])
    {
      var line := lines[i];
      assert lines[i..][0] == line && lines[i..][1..] == lines[i + 1..];
      if TrimSpace(line.text) == "" {
        if current.InRecord? {
          if current.record.dn == "" {
            return Bad;
          }
          records := records + [current.record];
          current := NoRecord;
        }
        continue;
      }
      if line.text[0] == '#' {
        continue;
      }
      var parsed := AddLine(StartOrGo(current), line.text, line.number);
      if parsed.BadRecord? {
        return Bad;
      }
      current := InRecord(parsed.record);
    }
    if current.InRecord? {
      if current.record.dn == "" {
        return Bad;
      }
      records := records + [current.record];
    }
    return Records(records);
  }

  // ---- What every parsed record has ----

  ghost predicate NamedAttributes(r: Record) {
    forall a :: a in r.attributes ==> a.name != ""
  }

  lemma AddLineNames(r: Record, line: string, number: nat)
    requires NamedAttributes(r) && AddLine(r, line, number).Good?
    ensures NamedAttributes(AddLine(r, line, number).record)
  {
    hide TrimSpace, IndexByte, ValueAfter, EqualFold;
    assert SplitAttributeLine(line).Pair? && SplitAttributeLine(line).name != "" by { SplitHasName(line); }
  }

  lemma SplitHasName(line: string)
    ensures SplitAttributeLine(line).Pair? ==> SplitAttributeLine(line).name != ""
  {
    hide TrimSpace, IndexByte, Decode;
  }

  /** Every parsed record has a DN, and every attribute a name. */
  lemma {:induction false} ParsedIsNamed(records: seq<Record>, current: Current, lines: seq<Logical>)
    requires ParseFrom(records, current, lines).Records?
    requires (forall r :: r in records ==> r.dn != "" && NamedAttributes(r)) && (current.InRecord? ==> NamedAttributes(current.record))
    ensures forall r :: r in ParseFrom(records, current, lines).records ==> r.dn != "" && NamedAttributes(r)
    decreases |lines|
  {
    hide AddLine, NamedAttributes, TrimSpace;
    if lines != [] {
      var line := lines[0];
      if TrimSpace(line.text) == "" {
        ParsedIsNamed(if current.InRecord? then records + [current.record] else records, NoRecord, lines[1..]);
      } else if line.text[0] == '#' {
        ParsedIsNamed(records, current, lines[1..]);
      } else {
        assert NamedAttributes(EMPTY_RECORD) by { EmptyIsNamed(); }
        AddLineNames(StartOrGo(current), line.text, line.number);
        ParsedIsNamed(records, InRecord(AddLine(StartOrGo(current), line.text, line.number).record), lines[1..]);
      }
    }
  }

  lemma EmptyIsNamed()
    ensures NamedAttributes(EMPTY_RECORD)
  {
  }

  /** So an import of parsed records has names for all it writes. */
  lemma ParsedRecordsNamed(input: string)
    requires ParseText(input).Records?
    ensures forall r :: r in ParseText(input).records ==> r.dn != "" && NamedAttributes(r)
  {
    hide NormalizeBreaks, UnfoldFrom, ParseFrom, NamedAttributes;
    var unfolded := UnfoldFrom([], Split(NormalizeBreaks(input), '\n'), 0);
    ParsedIsNamed([], NoRecord, unfolded.lines);
  }
}
