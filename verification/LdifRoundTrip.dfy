/** Reading back what was written. */
module LdifRoundTrip {
  import opened Text
  import opened Filters
  import opened Records
  import opened Base64
  import opened LdifWriter
  import opened LdifParser

  // ---- Texts ----

  /** Plain bytes only: in particular no line breaks. */
  predicate LineText(s: string) {
    forall i :: 0 <= i < |s| ==> IsPlainByte(s[i])
  }

  /** An attribute name that can stand before a colon. */
  predicate NameText(name: string) {
    name != "" && forall i :: 0 <= i < |name| ==> '!' <= name[i] <= '~' && name[i] != ':'
  }

  predicate PlainName(name: string) {
    NameText(name) && name[0] != '#' && !EqualFold(name, "dn") && !EqualFold(name, "changetype")
  }

  predicate PlainRecord(r: Record) {
    RecordBytes(r) && forall i :: 0 <= i < |r.attributes| ==> PlainName(r.attributes[i].name)
  }

  ghost predicate PlainRecords(records: seq<Record>) {
    forall i :: 0 <= i < |records| ==> PlainRecord(records[i])
  }

  // ---- One line ----

  lemma AttributeLineText(name: string, value: string)
    requires NameText(name) && IsBytes(value)
    ensures var line := AttributeLine(name, value); LineText(line) && line != "" && line[0] == name[0]
  {
    hide Encode;
    if RequiresBase64(value) {
      EncodePrintable(value);
    }
  }

  lemma LeadingSpace(t: string)
    requires Trimmed(t)
    ensures TrimSpace(" " + t) == t
  {
    hide TrimSpace;
    var s := " " + t;
    assert s[1..|s|] == t;
    TrimSpaceUnique(s, 1, |s|);
  }

  lemma NamedLine(name: string, tail: string)
    requires NameText(name)
    ensures SplitAttributeLine(name + ":" + tail) == ValueAfter(name, tail)
  {
    hide TrimSpace, ValueAfter, IndexByte;
    var line := name + ":" + tail;
    assert line[|name|] == ':';
    forall i | 0 <= i < |name| ensures line[i] != ':' {
      assert line[i] == name[i];
    }
    assert IndexByte(line, ':') == |name|;
    assert line[..|name|] == name && line[|name| + 1..] == tail && Trimmed(name);
  }

  lemma EncodedValue(name: string, value: string)
    requires IsBytes(value)
    ensures ValueAfter(name, ": " + Encode(value)) == Pair(name, value)
  {
    hide TrimSpace, Encode, Decode;
    assert (": " + Encode(value))[1..] == " " + Encode(value);
    EncodePrintable(value);
    LeadingSpace(Encode(value));
    RoundTrip(value);
  }

  lemma SpacedValue(name: string, value: string)
    ensures ValueAfter(name, " " + value) == Pair(name, value)
  {
    assert (" " + value)[1..] == value;
  }

  /** A written line is split into the name and the value it was made from, whatever the value. */
  lemma LineRoundTrip(name: string, value: string)
    requires NameText(name) && IsBytes(value)
    ensures SplitAttributeLine(AttributeLine(name, value)) == Pair(name, value)
  {
    hide SplitAttributeLine, Encode, NameText, IsBytes, RequiresBase64;
    if RequiresBase64(value) {
      assert AttributeLine(name, value) == name + ":" + (": " + Encode(value));
      NamedLine(name, ": " + Encode(value));
      EncodedValue(name, value);
    } else if value == "" {
      assert AttributeLine(name, value) == name + ":" + "";
      NamedLine(name, "");
    } else {
      assert AttributeLine(name, value) == name + ":" + (" " + value);
      NamedLine(name, " " + value);
      SpacedValue(name, value);
    }
  }

  // ---- Folding ----

  function Numbered(texts: seq<string>, n: nat): (lines: seq<Logical>)
    ensures |lines| == |texts| && forall i :: 0 <= i < |texts| ==> lines[i].text == texts[i]
  {
    if texts == [] then [] else [Logical(texts[0], n + 1)] + Numbered(texts[1..], n + |Fold(texts[0])|)
  }

  lemma UnfoldStep(lines: seq<Logical>, first: string, more: seq<string>, n: nat)
    requires lines != [] || !IsContinuation(first)
    ensures UnfoldLine(lines, first, n + 1).Unfolded?
    ensures UnfoldFrom(lines, [first] + more, n) == UnfoldFrom(UnfoldLine(lines, first, n + 1).lines, more, n + 1)
  {
    assert ([first] + more)[1..] == more;
  }

  /** The folded rest of a line is put back onto the line it belongs to. */
  lemma {:induction false} UnfoldRest(lines: seq<Logical>, last: Logical, rest: string, after: seq<string>, n: nat)
    ensures UnfoldFrom(lines + [last], Fold(" " + rest) + after, n) ==
      UnfoldFrom(lines + [Logical(last.text + rest, last.number)], after, n + |Fold(" " + rest)|)
    decreases |rest|
  {
    hide UnfoldFrom, Fold;
    var line := " " + rest;
    FoldStep(line);
    if |line| <= MAX_LINE {
      assert line[1..] == rest && (lines + [last])[..|lines|] == lines;
      UnfoldStep(lines + [last], line, after, n);
    } else {
      var head, tail := rest[..MAX_LINE - 1], rest[MAX_LINE - 1..];
      assert line[..MAX_LINE] == " " + head && line[MAX_LINE..] == tail && (" " + head)[1..] == head;
      assert Fold(line) + after == [" " + head] + (Fold(" " + tail) + after);
      UnfoldStep(lines + [last], " " + head, Fold(" " + tail) + after, n);
      assert (lines + [last])[..|lines|] == lines;
      UnfoldRest(lines, Logical(last.text + head, last.number), tail, after, n + 1);
      assert head + tail == rest;
      ConcatAssociative(last.text, head, tail);
    }
  }

  lemma FoldStep(line: string)
    ensures Fold(line) == if |line| <= MAX_LINE then [line] else [line[..MAX_LINE]] + Fold(" " + line[MAX_LINE..])
  {
  }

  /** Unfolding undoes folding, for every line that does not itself look like a continuation. */
  lemma UnfoldFolded(lines: seq<Logical>, line: string, after: seq<string>, n: nat)
    requires !IsContinuation(line)
    ensures UnfoldFrom(lines, Fold(line) + after, n) == UnfoldFrom(lines + [Logical(line, n + 1)], after, n + |Fold(line)|)
  {
    hide UnfoldFrom, Fold;
    FoldStep(line);
    if |line| <= MAX_LINE {
      UnfoldStep(lines, line, after, n);
    } else {
      var head, tail := line[..MAX_LINE], line[MAX_LINE..];
      assert Fold(line) + after == [head] + (Fold(" " + tail) + after);
      UnfoldStep(lines, head, Fold(" " + tail) + after, n);
      UnfoldRest(lines, Logical(head, n + 1), tail, after, n + 1);
      assert head + tail == line;
    }
  }

  lemma FirstOfAll(texts: seq<string>, n: nat)
    requires texts != []
    ensures FoldAll(texts) == Fold(texts[0]) + FoldAll(texts[1..])
    ensures Numbered(texts, n) == [Logical(texts[0], n + 1)] + Numbered(texts[1..], n + |Fold(texts[0])|)
  {
    hide Fold;
  }

  lemma {:induction false} UnfoldAll(lines: seq<Logical>, texts: seq<string>, n: nat)
    requires forall i :: 0 <= i < |texts| ==> !IsContinuation(texts[i])
    ensures UnfoldFrom(lines, FoldAll(texts), n) == Unfolded(lines + Numbered(texts, n))
    decreases |texts|
  {
    hide IsContinuation, Fold, UnfoldFrom, FoldAll, Numbered;
    if texts == [] {
      NothingUnfolded(lines, n);
    } else {
      var line, rest := Logical(texts[0], n + 1), Numbered(texts[1..], n + |Fold(texts[0])|);
      FirstOfAll(texts, n);
      UnfoldFolded(lines, texts[0], FoldAll(texts[1..]), n);
      UnfoldAll(lines + [line], texts[1..], n + |Fold(texts[0])|);
      assert lines + [line] + rest == lines + ([line] + rest);
    }
  }

  lemma NothingUnfolded(lines: seq<Logical>, n: nat)
    ensures UnfoldFrom(lines, FoldAll([]), n) == Unfolded(lines + Numbered([], n))
  {
    assert lines + [] == lines;
  }

  // ---- Splitting the text into lines ----

  /** Where the first of several lines ends. */
  lemma FirstLine(text: string, first: string, others: string)
    requires text + "\n" == first + "\n" + others && others != ""
    ensures |first| < |text| && text[..|first|] == first && text[|first|] == '\n' && text[|first| + 1..] + "\n" == others
  {
    var whole := text + "\n";
    assert |whole| == |text| + 1 == |first| + 1 + |others|;
    assert text[..|first|] == whole[..|first|] == first;
    assert text[|first|] == whole[|first|];
    assert text[|first| + 1..] + "\n" == whole[|first| + 1..] == others;
  }

  lemma LastLine(text: string, last: string)
    requires text + "\n" == last + "\n"
    ensures text == last
  {
    assert text == (text + "\n")[..|text|] == (last + "\n")[..|last|] == last;
  }

  lemma {:induction false} SplitLines(text: string, lines: seq<string>)
    requires lines != [] && text + "\n" == Terminate(lines)
    requires forall i :: 0 <= i < |lines| ==> '\n' !in lines[i]
    ensures Split(text, '\n') == lines
    decreases |lines|
  {
    hide IndexByte;
    var first, rest := lines[0], lines[1..];
    assert lines == [first] + rest;
    if rest == [] {
      assert Terminate(rest) == "" && first + "\n" + "" == first + "\n";
      LastLine(text, first);
    } else {
      assert Terminate(rest) != "";
      FirstLine(text, first, Terminate(rest));
      SplitLines(text[|first| + 1..], rest);
      FirstBreak(text, |first|);
    }
  }

  lemma FirstBreak(text: string, n: nat)
    requires n < |text| && text[n] == '\n' && '\n' !in text[..n]
    ensures IndexByte(text, '\n') == n
  {
    forall i | 0 <= i < n ensures text[i] != '\n' {
      assert text[..n][i] == text[i];
    }
  }

  lemma {:induction false} NoReturns(s: string)
    requires '\r' !in s
    ensures NormalizeBreaks(s) == s
  {
    if s != [] {
      NoReturns(s[1..]);
      assert s == [s[0]] + s[1..];
    }
  }

  // ---- The lines of a file ----

  /** Each line is an attribute line or empty. */
  predicate FileText(line: string) {
    LineText(line) && !IsContinuation(line)
  }

  predicate AllFileText(lines: seq<string>) {
    forall i :: 0 <= i < |lines| ==> FileText(lines[i])
  }

  lemma RecordLinesText(r: Record)
    requires PlainRecord(r)
    ensures AllFileText(RecordLines(r))
    ensures forall i :: 0 <= i < |RecordLines(r)| ==> RecordLines(r)[i] != "" && RecordLines(r)[i][0] != '#'
  {
    hide AttributeLine, LineText, IsBytes;
    assert NameText("dn");
    AttributeLineText("dn", r.dn);
    forall i | 0 <= i < |r.attributes| {
      AttributeLineText(r.attributes[i].name, r.attributes[i].value);
    }
  }

  lemma {:induction false} FileLinesText(records: seq<Record>)
    requires PlainRecords(records)
    ensures AllFileText(FileLines(records))
  {
    hide RecordLines, FileText;
    if records != [] {
      RecordLinesText(records[0]);
      FileLinesText(records[1..]);
      EmptyText();
    }
  }

  lemma EmptyText()
    ensures FileText("") && TrimSpace("") == ""
  {
  }

  /** Folding keeps lines free of breaks. */
  lemma {:induction false} FoldText(line: string)
    requires LineText(line)
    ensures forall l :: l in Fold(line) ==> LineText(l)
    decreases |line|
  {
    if |line| > MAX_LINE {
      FoldText(" " + line[MAX_LINE..]);
    }
  }

  lemma {:induction false} FoldAllText(lines: seq<string>)
    requires AllFileText(lines)
    ensures forall l :: l in FoldAll(lines) ==> LineText(l) && |l| <= MAX_LINE
  {
    hide LineText, Fold;
    if lines != [] {
      FoldText(lines[0]);
      FoldAllText(lines[1..]);
    }
  }

  lemma NoBreakIn(line: string)
    requires LineText(line)
    ensures '\n' !in line && '\r' !in line
  {
  }

  lemma {:induction false} TerminateNoReturn(lines: seq<string>)
    requires forall l :: l in lines ==> LineText(l)
    ensures '\r' !in Terminate(lines)
  {
    hide LineText;
    if lines != [] {
      NoBreakIn(lines[0]);
      TerminateNoReturn(lines[1..]);
    }
  }

  /** The parser sees exactly the lines the writer wrote; none is longer than 76 bytes. */
  lemma WrittenLines(records: seq<Record>)
    requires AllBytes(records) && PlainRecords(records) && records != []
    ensures Split(NormalizeBreaks(Format(records)), '\n') == FoldAll(FileLines(records))
    ensures forall l :: l in Split(Format(records), '\n') ==> |l| <= 76
  {
    hide Format, FileLines, FoldAll, Terminate, LineText, Split, AllFileText;
    var text, lines := Format(records), FoldAll(FileLines(records));
    FormatIsLines(records);
    FileLinesText(records);
    FoldAllText(FileLines(records));
    TerminateNoReturn(lines);
    assert '\r' !in text by {
      assert forall c :: c in text ==> c in text + "\n";
    }
    NoReturns(text);
    forall i | 0 <= i < |lines| ensures '\n' !in lines[i] {
      NoBreakIn(lines[i]);
    }
    SomeLines(records, text);
    SplitLines(text, lines);
  }

  lemma SomeLines(records: seq<Record>, text: string)
    requires AllBytes(records) && text + "\n" == Terminate(FoldAll(FileLines(records)))
    ensures FoldAll(FileLines(records)) != []
  {
    hide FoldAll, FileLines;
    assert |text + "\n"| > 0;
  }

  // ---- Parsing the lines of a file ----

  /** Equal up to line numbers. */
  predicate SameAttributes(a: seq<Attribute>, b: seq<Attribute>) {
    |a| == |b| && forall i :: 0 <= i < |a| ==> a[i].name == b[i].name && a[i].value == b[i].value
  }

  predicate SameRecord(a: Record, b: Record) {
    a.dn == b.dn && SameAttributes(a.attributes, b.attributes)
  }

  predicate SameRecords(a: seq<Record>, b: seq<Record>) {
    |a| == |b| && forall i :: 0 <= i < |a| ==> SameRecord(a[i], b[i])
  }

  predicate HasTexts(lines: seq<Logical>, texts: seq<string>) {
    |lines| == |texts| && forall i :: 0 <= i < |lines| ==> lines[i].text == texts[i]
  }

  lemma ParseAttributeLine(records: seq<Record>, current: Current, lines: seq<Logical>, name: string, value: string)
    requires NameText(name) && IsBytes(value) && name[0] != '#'
    requires lines != [] && lines[0].text == AttributeLine(name, value)
    ensures ParseFrom(records, current, lines) ==
      match AddLine(StartOrGo(current), AttributeLine(name, value), lines[0].number)
      case BadRecord => Bad
      case Good(r) => ParseFrom(records, InRecord(r), lines[1..])
  {
    hide AttributeLine, AddLine, IsBytes, TrimSpace;
    AttributeLineText(name, value);
    NotBlank(AttributeLine(name, value));
  }

  lemma NotBlank(s: string)
    requires s != "" && !IsSpace(s[0])
    ensures TrimSpace(s) != ""
  {
    hide TrimSpace;
    var lo, hi := TrimSpaceCut(s);
    assert lo == 0 && hi > 0;
  }

  lemma SameItself(a: seq<Attribute>)
    ensures SameAttributes(a, a)
  {
  }

  lemma SameShifted(p: seq<Attribute>, front: seq<Attribute>, attributes: seq<Attribute>, number: nat)
    requires attributes != []
    requires SameAttributes(p, (front + [Attribute(attributes[0].name, attributes[0].value, number)]) + attributes[1..])
    ensures SameAttributes(p, front + attributes)
  {
    var a := Attribute(attributes[0].name, attributes[0].value, number);
    var other := front + [a] + attributes[1..];
    forall i | 0 <= i < |p| ensures p[i].name == (front + attributes)[i].name && p[i].value == (front + attributes)[i].value {
      assert p[i].name == other[i].name && p[i].value == other[i].value;
    }
  }

  lemma {:induction false} ParseAttributes(records: seq<Record>, r: Record, attributes: seq<Attribute>, lines: seq<Logical>)
      returns (parsed: Record)
    requires forall i :: 0 <= i < |attributes| ==> PlainName(attributes[i].name) && IsBytes(attributes[i].value)
    requires |lines| >= |attributes| && HasTexts(lines[..|attributes|], AttributeLines(attributes))
    ensures ParseFrom(records, InRecord(r), lines) == ParseFrom(records, InRecord(parsed), lines[|attributes|..])
    ensures parsed.dn == r.dn && SameAttributes(parsed.attributes, r.attributes + attributes)
    decreases |attributes|
  {
    hide ParseFrom, AttributeLine, IsBytes, SplitAttributeLine, NameText, SameAttributes;
    if attributes == [] {
      parsed := r;
      assert lines[0..] == lines && r.attributes + [] == r.attributes;
      SameItself(r.attributes);
    } else {
      var a, rest := attributes[0], attributes[1..];
      var line := lines[..|attributes|][0];
      assert line == lines[0] && line.text == AttributeLine(a.name, a.value);
      ParseAttributeLine(records, InRecord(r), lines, a.name, a.value);
      LineRoundTrip(a.name, a.value);
      var next := r.(attributes := r.attributes + [Attribute(a.name, a.value, line.number)]);
      assert lines[1..][..|rest|] == lines[..|attributes|][1..];
      parsed := ParseAttributes(records, next, rest, lines[1..]);
      SameShifted(parsed.attributes, r.attributes, attributes, line.number);
      assert lines[1..][|rest|..] == lines[|attributes|..];
    }
  }

  lemma ParseDn(records: seq<Record>, r: Record, lines: seq<Logical>)
    requires IsBytes(r.dn) && lines != [] && lines[0].text == AttributeLine("dn", r.dn)
    ensures ParseFrom(records, NoRecord, lines) == ParseFrom(records, InRecord(Record(r.dn, lines[0].number, [])), lines[1..])
  {
    hide ParseFrom, AttributeLine, IsBytes, SplitAttributeLine;
    assert NameText("dn");
    ParseAttributeLine(records, NoRecord, lines, "dn", r.dn);
    LineRoundTrip("dn", r.dn);
  }

  /** The lines of one record and the empty line after it. */
  lemma ParseRecord(records: seq<Record>, r: Record, lines: seq<Logical>) returns (parsed: Record)
    requires PlainRecord(r) && |lines| > |RecordLines(r)|
    requires HasTexts(lines[..|RecordLines(r)| + 1], RecordLines(r) + [""])
    ensures ParseFrom(records, NoRecord, lines) ==
      if r.dn == "" then Bad else ParseFrom(records + [parsed], NoRecord, lines[|RecordLines(r)| + 1..])
    ensures SameRecord(parsed, r)
  {
    hide ParseFrom, AttributeLine, IsBytes, PlainName;
    var n := |RecordLines(r)|;
    var own := lines[..n + 1];
    assert own[0] == lines[0] && lines[0].text == AttributeLine("dn", r.dn);
    ParseDn(records, r, lines);
    var after := lines[1..];
    assert HasTexts(after[..n - 1], AttributeLines(r.attributes)) by {
      forall i | 0 <= i < n - 1 ensures after[..n - 1][i].text == AttributeLines(r.attributes)[i] {
        assert after[..n - 1][i] == own[i + 1];
      }
    }
    parsed := ParseAttributes(records, Record(r.dn, lines[0].number, []), r.attributes, after);
    assert [] + r.attributes == r.attributes;
    assert after[n - 1..] == lines[n..] && lines[n..][0] == own[n] && lines[n..][1..] == lines[n + 1..];
    ParseEmptyLine(records, parsed, lines[n..]);
  }

  lemma ParseEmptyLine(records: seq<Record>, r: Record, lines: seq<Logical>)
    requires lines != [] && lines[0].text == ""
    ensures ParseFrom(records, InRecord(r), lines) == if r.dn == "" then Bad else ParseFrom(records + [r], NoRecord, lines[1..])
  {
    EmptyText();
    hide TrimSpace;
  }

  predicate AllNamed(records: seq<Record>) {
    forall i :: 0 <= i < |records| ==> records[i].dn != ""
  }

  lemma {:induction false} ParseFile(before: seq<Record>, records: seq<Record>, lines: seq<Logical>)
    requires AllBytes(records) && PlainRecords(records) && HasTexts(lines, FileLines(records))
    ensures var result := ParseFrom(before, NoRecord, lines);
      if AllNamed(records) then
        result.Records? && |result.records| == |before| + |records|
        && result.records[..|before|] == before && SameRecords(result.records[|before|..], records)
      else result == Bad
    decreases |records|
  {
    hide RecordLines, PlainRecord, RecordBytes, SameRecord, ParseFrom, FileLines;
    if records == [] {
      NoFileLines();
      assert lines == [];
      NothingParsed(before);
    } else {
      var n := |RecordLines(records[0])| + 1;
      FirstRecordLines(records, lines);
      var parsed := ParseRecord(before, records[0], lines);
      ParseFile(before + [parsed], records[1..], lines[n..]);
      var result := ParseFrom(before + [parsed], NoRecord, lines[n..]);
      if AllNamed(records) {
        OneMoreRecord(before, parsed, records, result.records);
      } else {
        assert records[0].dn == "" || !AllNamed(records[1..]);
      }
    }
  }

  lemma FirstRecordLines(records: seq<Record>, lines: seq<Logical>)
    requires AllBytes(records) && records != [] && HasTexts(lines, FileLines(records))
    ensures var n := |RecordLines(records[0])| + 1;
      n <= |lines| && HasTexts(lines[..n], RecordLines(records[0]) + [""]) && HasTexts(lines[n..], FileLines(records[1..]))
  {
    hide RecordLines, RecordBytes;
    var own := RecordLines(records[0]) + [""];
    assert FileLines(records) == own + FileLines(records[1..]);
    assert FileLines(records)[..|own|] == own && FileLines(records)[|own|..] == FileLines(records[1..]);
  }

  lemma OneMoreRecord(before: seq<Record>, parsed: Record, records: seq<Record>, all: seq<Record>)
    requires records != [] && SameRecord(parsed, records[0]) && |all| == |before| + |records|
    requires all[..|before| + 1] == before + [parsed] && SameRecords(all[|before| + 1..], records[1..])
    ensures all[..|before|] == before && SameRecords(all[|before|..], records)
  {
    hide SameRecord;
    assert all[..|before|] == all[..|before| + 1][..|before|] == before;
    assert all[|before|] == all[..|before| + 1][|before|] == parsed;
    var rest := all[|before| + 1..];
    forall i | 0 <= i < |records| ensures SameRecord(all[|before|..][i], records[i]) {
      if i > 0 {
        assert all[|before|..][i] == rest[i - 1] && records[i] == records[1..][i - 1];
      }
    }
  }

  lemma NothingParsed(before: seq<Record>)
    ensures ParseFrom(before, NoRecord, []) == ParseResult.Records(before)
  {
  }

  /**
   What Format writes, Parse reads back, up to line numbers, for any byte values; a record without a DN makes the
   whole text unreadable, and nothing else does.
   */
  lemma FormatParses(records: seq<Record>)
    requires AllBytes(records) && PlainRecords(records)
    ensures var result := ParseText(Format(records));
      if AllNamed(records) then result.Records? && SameRecords(result.records, records) else result == Bad
  {
    hide FoldAll, FileLines, NormalizeBreaks, SameRecord, AllNamed, PlainRecord, RecordBytes;
    if records == [] {
      EmptyFile();
    } else {
      hide Format, ParseFrom, UnfoldFrom, IsContinuation, LineText;
      WrittenLines(records);
      FileLinesText(records);
      UnfoldAll([], FileLines(records), 0);
      var lines := Numbered(FileLines(records), 0);
      assert [] + lines == lines;
      ParseFile([], records, lines);
      var result := ParseFrom([], NoRecord, lines);
      assert result.Records? ==> result.records[0..] == result.records;
    }
  }

  lemma EmptyFile()
    ensures ParseText("") == ParseResult.Records([]) && AllNamed([])
  {
    hide Split, TrimSpace, UnfoldFrom;
    EmptyText();
    assert Split("", '\n') == [""];
    assert [""] + [] == [""];
    UnfoldStep([], "", [], 0);
    NothingUnfolded([Logical("", 1)], 1);
    assert FoldAll([]) == [] && Numbered([], 1) == [];
    assert NormalizeBreaks("") == "" && UnfoldLine([], "", 1) == Unfolded([Logical("", 1)]);
    assert UnfoldFrom([], [""], 0) == Unfolded([Logical("", 1)] + []);
    var lines := [Logical("", 1)];
    assert ParseFrom([], NoRecord, lines) == ParseFrom([], NoRecord, lines[1..]);
    assert lines[1..] == [] && lines + [] == lines;
    NothingParsed([]);
  }
}
