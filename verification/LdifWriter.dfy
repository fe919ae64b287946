/** Writing LDIF (RFC 2849), with long lines folded. */
module LdifWriter {
  import opened Text
  import opened Records
  import opened Base64

  const MAX_LINE := 76

  predicate IsPlainByte(c: char) {
    '\U{20}' <= c < '\U{7F}'
  }

  /** requiresBase64 */
  predicate RequiresBase64(value: string) {
    value != "" &&
    (value[0] == ' ' || value[0] == ':' || value[0] == '<' || value[|value| - 1] == ' '
     || exists i :: 0 <= i < |value| && !IsPlainByte(value[i]))
  }

  function AttributeLine(name: string, value: string): string
    requires IsBytes(value)
  {
    if RequiresBase64(value) then name + ":: " + Encode(value)
    else if value == "" then name + ":"
    else name + ": " + value
  }

  /** The physical lines of one logical line. */
  function Fold(line: string): (lines: seq<string>)
    ensures |lines| >= 1 && forall l :: l in lines ==> |l| <= MAX_LINE
    decreases |line|
  {
    if |line| <= MAX_LINE then [line] else [line[..MAX_LINE]] + Fold(" " + line[MAX_LINE..])
  }

  /** Every line followed by a line feed. */
  function Terminate(lines: seq<string>): string {
    if lines == [] then "" else lines[0] + "\n" + Terminate(lines[1..])
  }

  lemma {:induction false} TerminateConcat(a: seq<string>, b: seq<string>)
    ensures Terminate(a + b) == Terminate(a) + Terminate(b)
  {
    if a == [] {
      assert a + b == b;
    } else {
      assert (a + b)[1..] == a[1..] + b;
      TerminateConcat(a[1..], b);
      ConcatAssociative(a[0] + "\n", Terminate(a[1..]), Terminate(b));
    }
  }

  /** writeFoldedLine */
  method WriteFoldedLine(b0: string, line0: string) returns (b: string)
    ensures b == b0 + Terminate(Fold(line0))
  {
    var line := line0;
    b := b0;
    while |line| > MAX_LINE
      invariant b + Terminate(Fold(line)) == b0 + Terminate(Fold(line0))
      decreases |line|
    {
      ghost var before, rest := b, Fold(" " + line[MAX_LINE..]);
      assert Fold(line) == [line[..MAX_LINE]] + rest;
      assert (Fold(line))[1..] == rest;
      b := b + line[..MAX_LINE];
      b := b + "\n";
      ConcatAssociative(before, line[..MAX_LINE], "\n");
      ConcatAssociative(before, line[..MAX_LINE] + "\n", Terminate(rest));
      line := " " + line[MAX_LINE..];
    }
    assert Terminate([line]) == line + "\n" + "" == line + "\n";
    ConcatAssociative(b, line, "\n");
    b := b + line;
    b := b + "\n";
  }

  // ---- Records ----

  predicate RecordBytes(r: Record) {
    IsBytes(r.dn) && forall i :: 0 <= i < |r.attributes| ==> IsBytes(r.attributes[i].value)
  }

  /** The logical lines of attributes. */
  function AttributeLines(attributes: seq<Attribute>): (lines: seq<string>)
    requires forall i :: 0 <= i < |attributes| ==> IsBytes(attributes[i].value)
    ensures |lines| == |attributes|
    ensures forall i :: 0 <= i < |attributes| ==> lines[i] == AttributeLine(attributes[i].name, attributes[i].value)
  {
    seq(|attributes|, i requires 0 <= i < |attributes| => AttributeLine(attributes[i].name, attributes[i].value))
  }

  function RecordLines(r: Record): seq<string>
    requires RecordBytes(r)
  {
    [AttributeLine("dn", r.dn)] + AttributeLines(r.attributes)
  }

  function FoldAll(lines: seq<string>): seq<string> {
    if lines == [] then [] else Fold(lines[0]) + FoldAll(lines[1..])
  }

  lemma {:induction false} FoldAllConcat(a: seq<string>, b: seq<string>)
    ensures FoldAll(a + b) == FoldAll(a) + FoldAll(b)
  {
    if a == [] {
      assert a + b == b;
    } else {
      assert (a + b)[1..] == a[1..] + b;
      FoldAllConcat(a[1..], b);
      assert Fold(a[0]) + (FoldAll(a[1..]) + FoldAll(b)) == (Fold(a[0]) + FoldAll(a[1..])) + FoldAll(b);
    }
  }

  predicate AllBytes(records: seq<Record>) {
    forall i :: 0 <= i < |records| ==> RecordBytes(records[i])
  }

  /** The logical lines of a file: each record is followed by an empty line, the last one by the end of the text. */
  function FileLines(records: seq<Record>): seq<string>
    requires AllBytes(records)
  {
    if records == [] then [] else RecordLines(records[0]) + [""] + FileLines(records[1..])
  }

  /** What Format writes: the folded lines, each ended, except that the empty line after the last record is not there. */
  function Format(records: seq<Record>): string
    requires AllBytes(records)
  {
    if records == [] then ""
    else
      var n := |records| - 1;
      (if n == 0 then "" else Format(records[..n]) + "\n") + Terminate(FoldAll(RecordLines(records[n])))
  }

  method WriteRecord(b0: string, r: Record) returns (b: string)
    requires RecordBytes(r)
    ensures b == b0 + Terminate(FoldAll(RecordLines(r)))
  {
    hide Fold, AttributeLine, Terminate;
    var lines := RecordLines(r);
    b := WriteFoldedLine(b0, AttributeLine("dn", r.dn));
    WrittenMore(lines, 0);
    ghost var written := Terminate(FoldAll(lines[..1]));
    NothingWritten(lines);
    assert b == b0 + written;
    for i := 0 to |r.attributes|
      invariant b == b0 + Terminate(FoldAll(lines[..i + 1]))
    {
      WrittenMore(lines, i + 1);
      ConcatAssociative(b0, Terminate(FoldAll(lines[..i + 1])), Terminate(Fold(lines[i + 1])));
      b := WriteFoldedLine(b, AttributeLine(r.attributes[i].name, r.attributes[i].value));
    }
    assert lines[..|r.attributes| + 1] == lines;
  }

  lemma NothingWritten(lines: seq<string>)
    ensures Terminate(FoldAll(lines[..0])) == ""
  {
  }

  lemma WrittenMore(lines: seq<string>, i: nat)
    requires i < |lines|
    ensures Terminate(FoldAll(lines[..i + 1])) == Terminate(FoldAll(lines[..i])) + Terminate(Fold(lines[i]))
  {
    hide Fold, Terminate;
    assert lines[..i + 1] == lines[..i] + [lines[i]];
    FoldAllConcat(lines[..i], [lines[i]]);
    assert FoldAll([lines[i]]) == Fold(lines[i]) + [] == Fold(lines[i]);
    TerminateConcat(FoldAll(lines[..i]), Fold(lines[i]));
  }

  /** Format, as the builder loop it is. */
  method WriteAll(records: seq<Record>) returns (b: string)
    requires AllBytes(records)
    ensures b == Format(records)
  {
    hide RecordLines, FoldAll, Terminate;
    b := "";
    for i := 0 to |records|
      invariant b == Format(records[..i])
    {
      assert records[..i + 1][..i] == records[..i];
      if i > 0 {
        b := b + "\n";
      }
      b := WriteRecord(b, records[i]);
    }
    assert records[..|records|] == records;
  }

  /** Taken with one more line feed, the text is the folded lines of the file. */
  lemma {:induction false} FormatIsLines(records: seq<Record>)
    requires AllBytes(records) && records != []
    ensures Format(records) + "\n" == Terminate(FoldAll(FileLines(records)))
  {
    hide RecordLines, Fold, FileLines;
    var n := |records| - 1;
    var last := RecordLines(records[n]);
    FileLinesExtend(records);
    FoldAllConcat(FileLines(records[..n]), last + [""]);
    FoldAllConcat(last, [""]);
    EmptyLine();
    TerminateConcat(FoldAll(last), [""]);
    TerminateConcat(FoldAll(FileLines(records[..n])), FoldAll(last + [""]));
    if n > 0 {
      FormatIsLines(records[..n]);
      ConcatAssociative(Format(records[..n]) + "\n", Terminate(FoldAll(last)), "\n");
    } else {
      assert records[..0] == [] && FileLines([]) == [] by { NoFileLines(); }
      assert Terminate(FoldAll([])) == "";
    }
  }

  lemma NoFileLines()
    ensures FileLines([]) == []
  {
  }

  lemma EmptyLine()
    ensures FoldAll([""]) == [""] && Terminate([""]) == "\n"
  {
    assert Fold("") == [""];
    assert FoldAll([""]) == Fold("") + [] == [""];
  }

  lemma {:induction false} FileLinesExtend(records: seq<Record>)
    requires AllBytes(records) && records != []
    ensures var n := |records| - 1;
      FileLines(records) == FileLines(records[..n]) + (RecordLines(records[n]) + [""])
  {
    hide RecordLines;
    var n := |records| - 1;
    if n > 0 {
      FileLinesExtend(records[1..]);
      assert records[1..][..n - 1] == records[..n][1..];
    }
  }

  // ---- What is written as it stands ----

  /** A SAFE-STRING of RFC 2849 that ends in no space: printable ASCII, not starting with a space, a colon or `<`. */
  predicate IsSafeText(value: string) {
    && (forall c :: c in value ==> 32 <= c as int <= 126)
    && (value != "" ==> value[0] != ' ' && value[0] != ':' && value[0] != '<' && value[|value| - 1] != ' ')
  }

  /** Safe text is written as itself, and anything else in base64. */
  lemma SafeTextExact(name: string, value: string)
    requires IsBytes(value)
    ensures AttributeLine(name, value) ==
      if !IsSafeText(value) then name + ":: " + Encode(value) else if value == "" then name + ":" else name + ": " + value
  {
    hide Encode;
    if forall c :: c in value ==> 32 <= c as int <= 126 {
      assert forall i :: 0 <= i < |value| ==> value[i] in value;
    }
  }

  /** Lines of up to 76 bytes are not folded; of a folded line all parts but the last have exactly 76 bytes. */
  lemma {:induction false} FoldExact(line: string)
    ensures |line| <= 76 ==> Fold(line) == [line]
    ensures forall i :: 0 <= i < |Fold(line)| - 1 ==> |Fold(line)[i]| == 76
    ensures forall i :: 0 < i < |Fold(line)| ==> Fold(line)[i] != "" && Fold(line)[i][0] == ' '
    decreases |line|
  {
    if |line| > MAX_LINE {
      var rest := " " + line[MAX_LINE..];
      FoldExact(rest);
      assert Fold(line) == [line[..MAX_LINE]] + Fold(rest);
      assert Fold(rest)[0] != "" && Fold(rest)[0][0] == ' ';
    }
  }
}
