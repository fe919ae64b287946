/** Line breaks of any kind: the parser reads a file the same way whichever its lines end in. */
module LdifBreaks {
  import opened Text
  import opened Records
  import opened LdifWriter
  import opened LdifParser
  import opened LdifRoundTrip

  /** Every line feed written as `b`. */
  function WithBreaks(s: string, b: string): string {
    if s == "" then "" else (if s[0] == '\n' then b else [s[0]]) + WithBreaks(s[1..], b)
  }

  predicate IsBreak(b: string) {
    b == "\n" || b == "\r\n" || b == "\r"
  }

  lemma NormalizeFirst(c: char, rest: string)
    ensures c != '\r' ==> NormalizeBreaks([c] + rest) == [c] + NormalizeBreaks(rest)
    ensures NormalizeBreaks("\r\n" + rest) == "\n" + NormalizeBreaks(rest)
    ensures rest == "" || rest[0] != '\n' ==> NormalizeBreaks("\r" + rest) == "\n" + NormalizeBreaks(rest)
  {
    assert ([c] + rest)[1..] == rest && ("\r\n" + rest)[2..] == rest && ("\r" + rest)[1..] == rest;
  }

  lemma {:induction false} LoneReturns(s: string)
    ensures '\n' !in WithBreaks(s, "\r")
  {
    if s != "" {
      LoneReturns(s[1..]);
    }
  }

  lemma {:induction false} BreaksAreOne(s: string, b: string)
    requires '\r' !in s && IsBreak(b)
    ensures NormalizeBreaks(WithBreaks(s, b)) == s
  {
    hide NormalizeBreaks;
    if s == "" {
      assert NormalizeBreaks("") == "" by { NothingToNormalize(); }
    } else {
      var rest := WithBreaks(s[1..], b);
      assert s == [s[0]] + s[1..] && s[0] in s;
      BreaksAreOne(s[1..], b);
      NormalizeFirst(s[0], rest);
      if b == "\r" {
        LoneReturns(s[1..]);
        assert rest != "" ==> rest[0] in rest;
      }
    }
  }

  lemma NothingToNormalize()
    ensures NormalizeBreaks("") == ""
  {
  }

  /** A text without carriage returns parses to the same records, with the same line numbers, whatever its lines end in. */
  lemma AnyBreaksParse(s: string, b: string)
    requires '\r' !in s && IsBreak(b)
    ensures ParseText(WithBreaks(s, b)) == ParseText(s)
  {
    hide NormalizeBreaks, UnfoldFrom, ParseFrom, WithBreaks;
    BreaksAreOne(s, b);
    NoReturns(s);
  }

  lemma {:induction false} FormatHasNoReturn(records: seq<Record>)
    requires AllBytes(records) && PlainRecords(records)
    ensures '\r' !in Format(records)
  {
    hide FileLines, FoldAll, Terminate, LineText, AllFileText, Format;
    if records == [] {
      NothingFormatted();
    } else {
      FormatIsLines(records);
      FileLinesText(records);
      FoldAllText(FileLines(records));
      TerminateNoReturn(FoldAll(FileLines(records)));
      assert forall c :: c in Format(records) ==> c in Format(records) + "\n";
    }
  }

  lemma NothingFormatted()
    ensures Format([]) == ""
  {
  }

  /** So what was formatted and then given other line ends is read back, unless a record has no DN. */
  lemma FormattedBreaksParse(records: seq<Record>, b: string)
    requires AllBytes(records) && PlainRecords(records) && IsBreak(b)
    ensures var result := ParseText(WithBreaks(Format(records), b));
      if AllNamed(records) then result.Records? && SameRecords(result.records, records) else result == Bad
  {
    hide Format, ParseText, WithBreaks, SameRecord, PlainRecord, RecordBytes, AllNamed;
    FormatHasNoReturn(records);
    AnyBreaksParse(Format(records), b);
    FormatParses(records);
  }
}
