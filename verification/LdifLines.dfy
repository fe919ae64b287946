/** What the parser makes of any text: which physical lines make up a line, and which lines make up a record. */
module LdifLines {
  import opened Text
  import opened Filters
  import opened Records
  import opened Base64
  import opened LdifParser

  // ---- Physical lines ----

  predicate StartsWithSpace(line: string) {
    line != "" && line[0] == ' '
  }

  /** Physical lines `n` to `m`, counted from one, put together without the spaces that fold them. */
  function Gathered(raw: seq<string>, n: nat, m: nat): string
    requires 1 <= n <= m <= |raw|
  {
    if m == n then raw[n - 1] else Gathered(raw, n, m - 1) + if raw[m - 1] == "" then "" else raw[m - 1][1..]
  }

  /** Line `n` starts without a space, and the lines after it up to `m` with one. */
  predicate Belong(raw: seq<string>, n: nat, m: nat) {
    1 <= n <= m <= |raw| && !StartsWithSpace(raw[n - 1]) && forall i :: n <= i < m ==> StartsWithSpace(raw[i])
  }

  /** The last physical line of a logical line, when `k` lines have been read. */
  function LastOf(lines: seq<Logical>, i: nat, k: nat): int
    requires i < |lines|
  {
    if i == |lines| - 1 then k else lines[i + 1].number - 1
  }

  ghost predicate IsGathered(raw: seq<string>, line: Logical, m: int) {
    m >= 0 && Belong(raw, line.number, m) && line.text == Gathered(raw, line.number, m)
  }

  /** The first `k` physical lines, each in exactly one logical line, in order. */
  ghost predicate Covers(raw: seq<string>, lines: seq<Logical>, k: nat) {
    && k <= |raw|
    && (if lines == [] then k == 0 else lines[0].number == 1)
    && forall i :: 0 <= i < |lines| ==> IsGathered(raw, lines[i], LastOf(lines, i, k))
  }

  lemma OneMoreBelongs(raw: seq<string>, line: Logical, m: nat)
    requires IsGathered(raw, line, m) && m < |raw| && StartsWithSpace(raw[m])
    ensures IsGathered(raw, Logical(line.text + raw[m][1..], line.number), m + 1)
  {
  }

  lemma NewLineStands(raw: seq<string>, k: nat)
    requires k < |raw| && !StartsWithSpace(raw[k])
    ensures IsGathered(raw, Logical(raw[k], k + 1), k + 1)
  {
  }

  lemma CoversContinued(raw: seq<string>, lines: seq<Logical>, k: nat)
    requires Covers(raw, lines, k) && k < |raw| && lines != [] && StartsWithSpace(raw[k])
    ensures var last := lines[|lines| - 1];
      Covers(raw, lines[|lines| - 1 := Logical(last.text + raw[k][1..], last.number)], k + 1)
  {
    hide IsGathered;
    var n := |lines| - 1;
    var more := lines[n := Logical(lines[n].text + raw[k][1..], lines[n].number)];
    forall i | 0 <= i < |more| ensures IsGathered(raw, more[i], LastOf(more, i, k + 1)) {
      assert IsGathered(raw, lines[i], LastOf(lines, i, k));
      if i == n {
        OneMoreBelongs(raw, lines[n], k);
      }
    }
  }

  lemma CoversNew(raw: seq<string>, lines: seq<Logical>, k: nat)
    requires Covers(raw, lines, k) && k < |raw| && !StartsWithSpace(raw[k])
    ensures Covers(raw, lines + [Logical(raw[k], k + 1)], k + 1)
  {
    hide IsGathered, StartsWithSpace;
    var more := lines + [Logical(raw[k], k + 1)];
    forall i | 0 <= i < |more| ensures IsGathered(raw, more[i], LastOf(more, i, k + 1)) {
      if i < |lines| {
        assert IsGathered(raw, lines[i], LastOf(lines, i, k));
      } else {
        NewLineStands(raw, k);
      }
    }
  }

  lemma CoversOneMore(raw: seq<string>, lines: seq<Logical>, k: nat)
    requires Covers(raw, lines, k) && k < |raw| && UnfoldLine(lines, raw[k], k + 1).Unfolded?
    ensures Covers(raw, UnfoldLine(lines, raw[k], k + 1).lines, k + 1)
  {
    hide Covers;
    AppendedInPlace(lines, raw[k], k + 1);
    if StartsWithSpace(raw[k]) {
      CoversContinued(raw, lines, k);
    } else {
      CoversNew(raw, lines, k);
    }
  }

  lemma {:induction false} UnfoldCovers(raw: seq<string>, lines: seq<Logical>, k: nat)
    requires k <= |raw| && Covers(raw, lines, k) && (lines == [] && k < |raw| ==> !StartsWithSpace(raw[k]))
    ensures var r := UnfoldFrom(lines, raw[k..], k); r.Unfolded? && Covers(raw, r.lines, |raw|)
    decreases |raw| - k
  {
    hide Covers, IsContinuation;
    if k == |raw| {
      NoMoreLines(lines, k);
      assert raw[k..] == [];
    } else {
      NextLine(lines, raw, k);
      ContinuationMeans(raw[k]);
      CoversOneMore(raw, lines, k);
      var more := UnfoldLine(lines, raw[k], k + 1).lines;
      assert more != [];
      UnfoldCovers(raw, more, k + 1);
    }
  }

  lemma ContinuationMeans(line: string)
    ensures IsContinuation(line) <==> StartsWithSpace(line)
  {
  }

  /**
   A file unfolds unless its first line starts with a space. Every physical line then belongs to exactly one logical
   line, which has the number of its first physical line and the text of all of them.
   */
  lemma UnfoldExact(raw: seq<string>)
    requires raw != []
    ensures var r := UnfoldFrom([], raw, 0);
      if StartsWithSpace(raw[0]) then r == BadFold(1) else r.Unfolded? && Covers(raw, r.lines, |raw|)
  {
    assert raw[0..] == raw;
    if StartsWithSpace(raw[0]) {
      NextLine([], raw, 0);
    } else {
      UnfoldCovers(raw, [], 0);
    }
  }

  // ---- One line ----

  /** What the forms of an attribute line say. */
  lemma LineForms(name: string, v: string)
    requires name != "" && Trimmed(name) && ':' !in name && ' ' !in name && '\t' !in name
    ensures v == "" || (v[0] != ' ' && v[0] != ':' && v[0] != '<') ==> SplitAttributeLine(name + ":" + v) == Pair(name, v)
    ensures SplitAttributeLine(name + ":" + (" " + v)) == Pair(name, v)
    ensures SplitAttributeLine(name + ":" + ("<" + v)) == BadLine
    ensures SplitAttributeLine(name + ":" + (":" + v)) ==
      match Decode(TrimSpace(v)) case Invalid => BadLine case Decoded(bytes) => Pair(name, bytes)
  {
    hide Decode, TrimSpace;
    NamedText(name, v);
    NamedText(name, " " + v);
    NamedText(name, "<" + v);
    NamedText(name, ":" + v);
    assert (" " + v)[1..] == v && (":" + v)[1..] == v;
  }

  lemma NamedText(name: string, rest: string)
    requires Trimmed(name) && ':' !in name
    ensures var line := name + ":" + rest;
      IndexByte(line, ':') == |name| && TrimSpace(line[..|name|]) == name && line[|name| + 1..] == rest
  {
    hide TrimSpace;
    var line := name + ":" + rest;
    assert line[|name|] == ':' && line[..|name|] == name;
    forall j | 0 <= j < |name| ensures line[j] != ':' {
      assert line[j] == name[j] && name[j] in name;
    }
  }

  /** A line without a colon, without a name, or with white space in its name is refused. */
  lemma LineRefused(line: string, name: string, rest: string)
    ensures ':' !in line ==> SplitAttributeLine(line) == BadLine
    ensures line == name + ":" + rest && ':' !in name && (TrimSpace(name) == "" || ' ' in TrimSpace(name) || '\t' in TrimSpace(name))
      ==> SplitAttributeLine(line) == BadLine
  {
    hide TrimSpace, Decode;
    if line == name + ":" + rest && ':' !in name {
      assert line[|name|] == ':' && line[..|name|] == name;
      forall j | 0 <= j < |name| ensures line[j] != ':' {
        assert line[j] == name[j] && name[j] in name;
      }
      assert IndexByte(line, ':') == |name|;
    }
  }

  // ---- Records ----

  predicate IsBlankLine(line: Logical) {
    TrimSpace(line.text) == ""
  }

  predicate IsComment(line: Logical) {
    line.text != "" && line.text[0] == '#'
  }

  /** A line that can be split, and is no changetype. */
  predicate IsGoodLine(line: Logical) {
    SplitAttributeLine(line.text).Pair? && !EqualFold(SplitAttributeLine(line.text).name, "changetype")
  }

  predicate IsDnLine(line: Logical) {
    SplitAttributeLine(line.text).Pair? && EqualFold(SplitAttributeLine(line.text).name, "dn")
  }

  function ValueOn(line: Logical): string {
    match SplitAttributeLine(line.text) case Pair(_, value) => value case BadLine => ""
  }

  /** The attributes on some lines, in order, with their line numbers. */
  function AttributesOn(lines: seq<Logical>): seq<Attribute> {
    if lines == [] then []
    else
      (match SplitAttributeLine(lines[0].text)
       case Pair(name, value) => if EqualFold(name, "dn") then [] else [Attribute(name, value, lines[0].number)]
       case BadLine => [])
      + AttributesOn(lines[1..])
  }

  function WithoutComments(lines: seq<Logical>): (r: seq<Logical>)
    ensures forall l :: l in r <==> l in lines && !IsComment(l)
  {
    if lines == [] then []
    else
      assert lines == [lines[0]] + lines[1..];
      (if IsComment(lines[0]) then [] else [lines[0]]) + WithoutComments(lines[1..])
  }

  /** Line `j` gives the DN: before it there are only empty DNs, after it there is none. */
  ghost predicate GivesDn(lines: seq<Logical>, j: int) {
    && 0 <= j < |lines| && IsDnLine(lines[j]) && ValueOn(lines[j]) != ""
    && forall i :: 0 <= i < |lines| && i != j && IsDnLine(lines[i]) ==> i < j && ValueOn(lines[i]) == ""
  }

  predicate AllGood(lines: seq<Logical>) {
    forall l :: l in lines ==> IsGoodLine(l)
  }

  ghost predicate NoBlank(lines: seq<Logical>) {
    forall l :: l in lines ==> !IsBlankLine(l)
  }

  lemma ParseStep(records: seq<Record>, current: Current, lines: seq<Logical>)
    requires lines != [] && !IsBlankLine(lines[0])
    ensures ParseFrom(records, current, lines) ==
      if IsComment(lines[0]) then ParseFrom(records, current, lines[1..])
      else match AddLine(StartOrGo(current), lines[0].text, lines[0].number)
        case BadRecord => Bad
        case Good(r) => ParseFrom(records, InRecord(r), lines[1..])
  {
    hide AddLine, TrimSpace;
    assert lines[0].text != "" by { EmptyIsBlank(); }
  }

  lemma EmptyIsBlank()
    ensures TrimSpace("") == ""
  {
  }

  lemma AddedLine(r: Record, line: Logical)
    ensures AddLine(r, line.text, line.number).Good? <==> IsGoodLine(line) && (IsDnLine(line) ==> r.dn == "")
    ensures IsGoodLine(line) && IsDnLine(line) && r.dn == "" ==>
      AddLine(r, line.text, line.number) == Good(r.(dn := ValueOn(line), dnLine := line.number))
    ensures IsGoodLine(line) && !IsDnLine(line) ==>
      AddLine(r, line.text, line.number) == Good(r.(attributes := r.attributes + AttributesOn([line])))
  {
    hide SplitAttributeLine, EqualFold;
    assert EqualFold("dn", "changetype") == false by { DnIsNoChange(); }
    assert AttributesOn([line][1..]) == [];
    DnOrChange(line);
  }

  lemma DnIsNoChange()
    ensures !EqualFold("dn", "changetype")
  {
    assert |Lower("dn")| == 2 && |Lower("changetype")| == 10;
  }

  lemma DnOrChange(line: Logical)
    ensures IsDnLine(line) ==> IsGoodLine(line)
  {
    hide SplitAttributeLine;
    DnIsNoChange();
  }

  lemma NoLinesLeft(records: seq<Record>, r: Record)
    ensures ParseFrom(records, InRecord(r), []) == if r.dn == "" then Bad else ParseResult.Records(records + [r])
    ensures ParseFrom(records, NoRecord, []) == ParseResult.Records(records)
  {
  }

  lemma AttributesStep(lines: seq<Logical>)
    requires lines != []
    ensures AttributesOn(lines) == AttributesOn([lines[0]]) + AttributesOn(lines[1..])
    ensures IsDnLine(lines[0]) ==> AttributesOn([lines[0]]) == []
  {
    hide SplitAttributeLine, EqualFold;
    assert [lines[0]][1..] == [] && AttributesOn([]) == [];
    assert AttributesOn([lines[0]]) + [] == AttributesOn([lines[0]]);
  }

  lemma CommentsStep(lines: seq<Logical>)
    requires lines != []
    ensures WithoutComments(lines) == (if IsComment(lines[0]) then [] else [lines[0]]) + WithoutComments(lines[1..])
  {
  }

  /** Once a record has its DN, the other lines of its paragraph add their attributes, or one of them is refused. */
  lemma {:induction false} RestOfRecord(records: seq<Record>, r: Record, lines: seq<Logical>)
    requires NoBlank(lines) && r.dn != ""
    ensures var content := WithoutComments(lines);
      ParseFrom(records, InRecord(r), lines) ==
        if AllGood(content) && !exists l :: l in content && IsDnLine(l)
        then ParseResult.Records(records + [r.(attributes := r.attributes + AttributesOn(content))]) else Bad
    decreases |lines|
  {
    hide ParseFrom, AddLine, IsBlankLine, IsComment, IsGoodLine, IsDnLine, WithoutComments, AttributesOn, ValueOn;
    var content := WithoutComments(lines);
    if lines == [] {
      NoLinesLeft(records, r);
      NoContent();
      assert r.attributes + [] == r.attributes;
    } else {
      var first, rest := lines[0], lines[1..];
      assert lines == [first] + rest;
      ParseStep(records, InRecord(r), lines);
      CommentsStep(lines);
      if IsComment(first) {
        assert content == WithoutComments(rest);
        RestOfRecord(records, r, rest);
      } else {
        AddedLine(r, first);
        assert content[0] == first && content[1..] == WithoutComments(rest) && content == [first] + content[1..];
        AttributesStep(content);
        if IsGoodLine(first) && !IsDnLine(first) {
          var next := r.(attributes := r.attributes + AttributesOn([first]));
          RestOfRecord(records, next, rest);
          assert next.attributes + AttributesOn(content[1..]) == r.attributes + AttributesOn(content);
        }
      }
    }
  }

  lemma NoContent()
    ensures WithoutComments([]) == [] && AttributesOn([]) == []
  {
  }

  /** The lines of a paragraph before its DN is known. */
  lemma {:induction false} StartOfRecord(records: seq<Record>, current: Current, lines: seq<Logical>, j: int)
    requires NoBlank(lines) && StartOrGo(current).dn == "" && GivesDn(WithoutComments(lines), j)
    ensures var content, r := WithoutComments(lines), StartOrGo(current);
      ParseFrom(records, current, lines) ==
        if AllGood(content)
        then ParseResult.Records(records + [Record(ValueOn(content[j]), content[j].number, r.attributes + AttributesOn(content))]) else Bad
    decreases |lines|
  {
    hide ParseFrom, AddLine, IsBlankLine, IsComment, IsGoodLine, IsDnLine, WithoutComments, AttributesOn, ValueOn, GivesDn;
    var content, r := WithoutComments(lines), StartOrGo(current);
    assert lines != [] by { DnIsInside(lines, j); }
    var first, rest := lines[0], lines[1..];
    assert lines == [first] + rest;
    ParseStep(records, current, lines);
    CommentsStep(lines);
    if IsComment(first) {
      assert content == WithoutComments(rest);
      StartOfRecord(records, current, rest, j);
    } else {
      var others := WithoutComments(rest);
      assert content == [first] + others;
      assert content[0] == first && content[1..] == others;
      AddedLine(r, first);
      AttributesStep(content);
      GivesDnStep(content, j);
      assert first in content;
      if IsGoodLine(first) {
        var next := if IsDnLine(first) then r.(dn := ValueOn(first), dnLine := first.number)
          else r.(attributes := r.attributes + AttributesOn([first]));
        assert AddLine(r, first.text, first.number) == Good(next);
        assert next.attributes + AttributesOn(others) == r.attributes + AttributesOn(content);
        if j == 0 {
          RestOfRecord(records, next, rest);
          assert AllGood(content) <==> AllGood(others);
        } else {
          assert next.dn == "" && NoBlank(rest);
          StartOfRecord(records, InRecord(next), rest, j - 1);
          assert AllGood(content) <==> AllGood(others);
        }
      }
    }
  }

  lemma DnIsInside(lines: seq<Logical>, j: int)
    requires GivesDn(WithoutComments(lines), j)
    ensures lines != []
  {
  }

  /** Where the DN is, seen from the first line. */
  lemma GivesDnStep(lines: seq<Logical>, j: int)
    requires GivesDn(lines, j)
    ensures j >= 0
    ensures j == 0 ==> IsDnLine(lines[0]) && ValueOn(lines[0]) != "" && !exists l :: l in lines[1..] && IsDnLine(l)
    ensures j > 0 ==> (IsDnLine(lines[0]) ==> ValueOn(lines[0]) == "") && GivesDn(lines[1..], j - 1)
  {
    hide IsDnLine, ValueOn;
    if j == 0 {
      forall l | l in lines[1..] ensures !IsDnLine(l) {
        var i: int :| 0 <= i < |lines[1..]| && lines[1..][i] == l;
        assert lines[i + 1] == l;
      }
    } else {
      forall i | 0 <= i < |lines[1..]| && i != j - 1 && IsDnLine(lines[1..][i]) ensures i < j - 1 && ValueOn(lines[1..][i]) == "" {
        assert lines[i + 1] == lines[1..][i];
      }
    }
  }

  /** A paragraph in which no line gives the DN is no record. */
  lemma {:induction false} NoDnNoRecord(records: seq<Record>, current: Current, lines: seq<Logical>)
    requires NoBlank(lines) && StartOrGo(current).dn == "" && !exists j :: GivesDn(WithoutComments(lines), j)
    requires current.InRecord? || WithoutComments(lines) != []
    ensures ParseFrom(records, current, lines) == Bad
    decreases |lines|
  {
    hide ParseFrom, AddLine, IsBlankLine, IsComment, IsGoodLine, IsDnLine, WithoutComments, AttributesOn, ValueOn, GivesDn;
    var content, r := WithoutComments(lines), StartOrGo(current);
    if lines == [] {
      NoContent();
      NoLinesLeft(records, r);
    } else {
      var first, rest := lines[0], lines[1..];
      assert lines == [first] + rest;
      ParseStep(records, current, lines);
      CommentsStep(lines);
      if IsComment(first) {
        assert content == WithoutComments(rest);
        NoDnNoRecord(records, current, rest);
      } else {
        var others := WithoutComments(rest);
        assert content == [first] + others;
        AddedLine(r, first);
        NoDnStep(first, others);
        if IsGoodLine(first) {
          var next := AddLine(r, first.text, first.number).record;
          if next.dn == "" {
            NoDnNoRecord(records, InRecord(next), rest);
          } else {
            RestOfRecord(records, next, rest);
          }
        }
      }
    }
  }

  lemma NoDnStep(first: Logical, others: seq<Logical>)
    requires !exists j :: GivesDn([first] + others, j)
    ensures IsDnLine(first) && ValueOn(first) != "" ==> exists l :: l in others && IsDnLine(l)
    ensures !(IsDnLine(first) && ValueOn(first) != "") ==> !exists j :: GivesDn(others, j)
  {
    hide IsDnLine, ValueOn;
    var lines := [first] + others;
    if IsDnLine(first) && ValueOn(first) != "" && forall l :: l in others ==> !IsDnLine(l) {
      FirstGivesDn(first, others);
    } else if !(IsDnLine(first) && ValueOn(first) != "") {
      AnyGivesDn(first, others);
    }
  }

  lemma FirstGivesDn(first: Logical, others: seq<Logical>)
    requires IsDnLine(first) && ValueOn(first) != "" && forall l :: l in others ==> !IsDnLine(l)
    ensures GivesDn([first] + others, 0)
  {
    hide IsDnLine, ValueOn;
    var lines := [first] + others;
    assert forall i :: 0 < i < |lines| ==> lines[i] == others[i - 1];
  }

  lemma AnyGivesDn(first: Logical, others: seq<Logical>)
    requires !(IsDnLine(first) && ValueOn(first) != "")
    ensures forall j :: GivesDn(others, j) ==> GivesDn([first] + others, j + 1)
  {
    hide IsDnLine, ValueOn;
    var lines := [first] + others;
    forall j | GivesDn(others, j) ensures GivesDn(lines, j + 1) {
      forall i | 0 <= i < |lines| && i != j + 1 && IsDnLine(lines[i]) ensures i < j + 1 && ValueOn(lines[i]) == "" {
        assert i > 0 ==> lines[i] == others[i - 1];
      }
    }
  }

  /** The record of a paragraph: the DN one line gives, and the attributes of the others, in order and with their lines. */
  ghost function RecordOn(content: seq<Logical>): Record
    requires exists j :: GivesDn(content, j)
  {
    var j :| GivesDn(content, j);
    Record(ValueOn(content[j]), content[j].number, AttributesOn(content))
  }

  /**
   Lines without a blank one among them are nothing if they are all comments. Otherwise they are one record if every
   line that is no comment can be split and is no changetype, and one of them gives the DN; and else they are refused.
   */
  lemma ParagraphExact(records: seq<Record>, lines: seq<Logical>)
    requires NoBlank(lines)
    ensures var content := WithoutComments(lines);
      ParseFrom(records, NoRecord, lines) ==
        if content == [] then ParseResult.Records(records)
        else if AllGood(content) && exists j :: GivesDn(content, j) then ParseResult.Records(records + [RecordOn(content)])
        else Bad
  {
    hide ParseFrom, IsBlankLine, IsComment, IsGoodLine, IsDnLine, WithoutComments, AttributesOn, ValueOn;
    var content := WithoutComments(lines);
    if content == [] {
      OnlyComments(records, NoRecord, lines);
      NoLinesLeft(records, EMPTY_RECORD);
    } else if exists j :: GivesDn(content, j) {
      var j :| GivesDn(content, j) && RecordOn(content) == Record(ValueOn(content[j]), content[j].number, AttributesOn(content));
      StartOfRecord(records, NoRecord, lines, j);
      assert [] + AttributesOn(content) == AttributesOn(content);
    } else {
      NoDnNoRecord(records, NoRecord, lines);
    }
  }

  lemma {:induction false} OnlyComments(records: seq<Record>, current: Current, lines: seq<Logical>)
    requires NoBlank(lines) && WithoutComments(lines) == []
    ensures ParseFrom(records, current, lines) == ParseFrom(records, current, [])
  {
    hide ParseFrom, IsBlankLine, IsComment, WithoutComments;
    if lines != [] {
      assert lines == [lines[0]] + lines[1..];
      ParseStep(records, current, lines);
      CommentsStep(lines);
      OnlyComments(records, current, lines[1..]);
    }
  }

  // ---- Blank lines ----

  /** Two lists of records put together, unless one of them could not be read. */
  function Joined(a: ParseResult, b: ParseResult): ParseResult {
    if a.Bad? || b.Bad? then Bad else ParseResult.Records(a.records + b.records)
  }

  lemma {:induction false} EarlierRecords(records: seq<Record>, current: Current, lines: seq<Logical>)
    ensures ParseFrom(records, current, lines) == Joined(ParseResult.Records(records), ParseFrom([], current, lines))
    decreases |lines|
  {
    hide AddLine, TrimSpace;
    if lines == [] {
      assert current.InRecord? ==> [] + [current.record] == [current.record];
      assert records + [] == records;
    } else {
      var rest := lines[1..];
      if current.InRecord? {
        EarlierRecords(records + [current.record], NoRecord, rest);
        EarlierRecords([current.record], NoRecord, rest);
        assert [] + [current.record] == [current.record];
        JoinedTwice(records, current.record, ParseFrom([], NoRecord, rest));
      } else {
        EarlierRecords(records, NoRecord, rest);
      }
      EarlierRecords(records, current, rest);
      var parsed := AddLine(StartOrGo(current), lines[0].text, lines[0].number);
      if parsed.Good? {
        EarlierRecords(records, InRecord(parsed.record), rest);
      }
    }
  }

  lemma JoinedTwice(records: seq<Record>, r: Record, more: ParseResult)
    ensures Joined(ParseResult.Records(records), Joined(ParseResult.Records([r]), more)) == Joined(ParseResult.Records(records + [r]), more)
  {
    if more.Records? {
      assert records + ([r] + more.records) == (records + [r]) + more.records;
    }
  }

  /** A blank line ends a record: what is before it and what is after it are read on their own. */
  lemma {:induction false} BlankLineSeparates(current: Current, a: seq<Logical>, blank: Logical, b: seq<Logical>)
    requires IsBlankLine(blank)
    ensures ParseFrom([], current, a + [blank] + b) == Joined(ParseFrom([], current, a), ParseFrom([], NoRecord, b))
    decreases |a|
  {
    hide AddLine, TrimSpace;
    var all := a + [blank] + b;
    if a == [] {
      assert all[0] == blank && all[1..] == b;
      if current.InRecord? {
        assert [] + [current.record] == [current.record];
        EarlierRecords([current.record], NoRecord, b);
      } else {
        NothingBefore(ParseFrom([], NoRecord, b));
      }
    } else {
      var rest := a[1..];
      assert all[0] == a[0] && all[1..] == rest + [blank] + b;
      BlankLineSeparates(current, rest, blank, b);
      BlankLineSeparates(NoRecord, rest, blank, b);
      var parsed := AddLine(StartOrGo(current), a[0].text, a[0].number);
      if parsed.Good? {
        BlankLineSeparates(InRecord(parsed.record), rest, blank, b);
      }
      if current.InRecord? {
        assert [] + [current.record] == [current.record];
        EarlierRecords([current.record], NoRecord, rest + [blank] + b);
        EarlierRecords([current.record], NoRecord, rest);
        JoinedThrice(current.record, ParseFrom([], NoRecord, rest), ParseFrom([], NoRecord, b));
      }
    }
  }

  lemma NothingBefore(more: ParseResult)
    ensures Joined(ParseResult.Records([]), more) == more
  {
    if more.Records? {
      assert [] + more.records == more.records;
    }
  }

  lemma JoinedThrice(r: Record, a: ParseResult, b: ParseResult)
    ensures Joined(ParseResult.Records([r]), Joined(a, b)) == Joined(Joined(ParseResult.Records([r]), a), b)
  {
    if a.Records? && b.Records? {
      assert [r] + (a.records + b.records) == ([r] + a.records) + b.records;
    }
  }
}
