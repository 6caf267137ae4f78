/** The text of an LCOV report: splitting it into lines, telling lines apart, and printing them. */
module LcovText {
  import opened Basics
  import opened LcovReport

  // ---------- decimal numbers ----------

  predicate IsDigit(c: char) {
    '0' <= c <= '9'
  }

  predicate AllDigits(s: string) {
    forall i :: 0 <= i < |s| ==> IsDigit(s[i])
  }

  function Digit(n: nat): (c: char)
    requires n < 10
    ensures IsDigit(c)
  {
    '0' + n as char
  }

  /** The number as JavaScript prints it. */
  function Decimal(n: nat): (s: string)
    ensures s != "" && AllDigits(s)
  {
    if n < 10 then [Digit(n)] else Decimal(n / 10) + [Digit(n % 10)]
  }

  /** `parseInt` on a run of digits. */
  function Value(s: string): nat
    requires AllDigits(s)
  {
    if s == "" then 0 else 10 * Value(s[..|s| - 1]) + (s[|s| - 1] as int - '0' as int)
  }

  lemma {:induction false} DecimalValue(n: nat)
    ensures Value(Decimal(n)) == n
  {
    if n < 10 {
      assert [Digit(n)][..0] == "";
    } else {
      DecimalValue(n / 10);
      var front := Decimal(n / 10);
      assert (front + [Digit(n % 10)])[..|front|] == front;
    }
  }

  function TenTo(k: nat): nat {
    if k == 0 then 1 else 10 * TenTo(k - 1)
  }

  lemma ValueNext(s: string, c: char)
    requires AllDigits(s) && IsDigit(c)
    ensures AllDigits(s + [c]) && Value(s + [c]) == 10 * Value(s) + (c as int - '0' as int)
  {
    assert (s + [c])[..|s|] == s;
  }

  lemma Shifted(v: int, t: int, w: int, d: int)
    ensures 10 * (v * t + w) + d == v * (10 * t) + (10 * w + d)
  {
  }

  lemma PositionalNext(a: string, front: string, c: char, power: nat)
    requires AllDigits(a) && AllDigits(front) && IsDigit(c) && AllDigits(a + front)
    requires Value(a + front) == Value(a) * power + Value(front)
    ensures AllDigits(front + [c]) && AllDigits(a + front + [c])
    ensures Value(a + front + [c]) == Value(a) * (10 * power) + Value(front + [c])
  {
    ValueNext(a + front, c);
    ValueNext(front, c);
    hide Value, AllDigits;
    Shifted(Value(a), power, Value(front), c as int - '0' as int);
  }

  /** What stands before `k` digits counts for itself times the `k`-th power of ten. */
  lemma {:induction false} ValueIsPositional(a: string, b: string)
    requires AllDigits(a) && AllDigits(b)
    ensures AllDigits(a + b) && Value(a + b) == Value(a) * TenTo(|b|) + Value(b)
    decreases |b|
  {
    if b == "" {
      assert a + b == a && Value(b) == 0 && TenTo(|b|) == 1;
    } else {
      hide Value;
      var front, c := b[..|b| - 1], b[|b| - 1];
      ValueIsPositional(a, front);
      PositionalNext(a, front, c, TenTo(|front|));
      assert front + [c] == b && a + front + [c] == a + b;
    }
  }

  /** How many digits the text starts with. */
  function LeadingDigits(s: string): (n: nat)
    ensures n <= |s| && AllDigits(s[..n])
    ensures n < |s| ==> !IsDigit(s[n])
  {
    if s == "" || !IsDigit(s[0]) then 0
    else
      var n := LeadingDigits(s[1..]);
      assert s[..n + 1] == [s[0]] + s[1..][..n];
      n + 1
  }

  lemma {:induction false} LeadingDigitsEnd(d: string, rest: string)
    requires AllDigits(d) && (rest == "" || !IsDigit(rest[0]))
    ensures LeadingDigits(d + rest) == |d| && (d + rest)[..|d|] == d && (d + rest)[|d|..] == rest
  {
    if d == "" {
      assert d + rest == rest;
    } else {
      assert (d + rest)[1..] == d[1..] + rest;
      LeadingDigitsEnd(d[1..], rest);
    }
  }

  // ---------- one line ----------

  predicate StartsWith(s: string, prefix: string) {
    |prefix| <= |s| && s[..|prefix|] == prefix
  }

  /** `parseInt(text, 10)` on an unsigned count with no space before it; anything else is not modelled. */
  function ParseCount(text: string): Option<nat> {
    var n := LeadingDigits(text);
    if n == 0 then None else Some(Value(text[..n]))
  }

  /** The characters `.` does not match. */
  predicate EndsLine(c: char) {
    c == '\n' || c == '\r' || c == '\U{2028}' || c == '\U{2029}'
  }

  /** `/^DA:(\d+),(\d+)(?:,.*)?$/` on what follows `DA:`. */
  function ParseData(text: string): Line {
    var n := LeadingDigits(text);
    if n == 0 || n == |text| || text[n] != ',' then MalformedData(text)
    else
      var rest := text[n + 1..];
      var k := LeadingDigits(rest);
      if k == 0 then MalformedData(text)
      else if k == |rest| || (rest[k] == ',' && forall i :: k < i < |rest| ==> !EndsLine(rest[i]))
      then LineData(Value(text[..n]), Value(rest[..k]))
      else MalformedData(text)
  }

  /** The text is two numbers with a comma between them, and either nothing or a comma and a checksum on the same line behind. */
  ghost predicate IsData(text: string, number: string, hits: string, rest: string) {
    && number != "" && AllDigits(number) && hits != "" && AllDigits(hits)
    && text == number + "," + hits + rest
    && (rest == "" || (rest[0] == ',' && forall i :: 0 < i < |rest| ==> rest[i] !in {'\n', '\r', '\U{2028}', '\U{2029}'}))
  }

  lemma DataIsRead(text: string, number: string, hits: string, rest: string)
    requires IsData(text, number, hits, rest)
    ensures ParseData(text) == LineData(Value(number), Value(hits))
  {
    hide Value, LeadingDigits;
    LeadingDigitsEnd(number, "," + hits + rest);
    LeadingDigitsEnd(hits, rest);
    assert text == number + ("," + hits + rest);
    assert text[|number| + 1..] == hits + rest;
  }

  lemma ReadIsData(text: string)
    requires ParseData(text).LineData?
    ensures exists number, hits, rest :: IsData(text, number, hits, rest)
  {
    hide Value, LeadingDigits;
    var n := LeadingDigits(text);
    var behind := text[n + 1..];
    var k := LeadingDigits(behind);
    assert text == text[..n] + "," + behind[..k] + behind[k..];
    assert IsData(text, text[..n], behind[..k], behind[k..]);
  }

  /** A data line is read exactly when it has that form, and is malformed otherwise. */
  lemma DataExactly(text: string)
    ensures ParseData(text).LineData? <==> exists number, hits, rest :: IsData(text, number, hits, rest)
    ensures ParseData(text).LineData? || ParseData(text) == MalformedData(text)
  {
    hide IsData;
    if ParseData(text).LineData? {
      ReadIsData(text);
    }
    if number, hits, rest :| IsData(text, number, hits, rest) {
      DataIsRead(text, number, hits, rest);
    }
  }

  /** The tests of the line loop, in their order; absent where a count is not a plain number. */
  function Classify(text: string): Option<Line> {
    if StartsWith(text, "SF:") then Some(SourceFile(text[3..]))
    else if StartsWith(text, "FNF:") then
      var n := ParseCount(text[4..]);
      if n.Some? then Some(FunctionsFound(n.value)) else None
    else if StartsWith(text, "FNH:") then
      var n := ParseCount(text[4..]);
      if n.Some? then Some(FunctionsHit(n.value)) else None
    else if StartsWith(text, "DA:") then Some(ParseData(text[3..]))
    else if text == "end_of_record" then Some(EndOfRecord)
    else Some(OtherLine(text))
  }

  /** None of the loop's tests matches. */
  predicate IsOther(text: string) {
    && !StartsWith(text, "SF:") && !StartsWith(text, "FNF:") && !StartsWith(text, "FNH:") && !StartsWith(text, "DA:")
    && text != "end_of_record"
  }

  /** The lines a report is printed with; `LF:`, `LH:`, `TN:` and the like are other lines. */
  predicate Printable(line: Line) {
    match line
    case SourceFile(path) => '\n' !in path
    case MalformedData(text) => '\n' !in text && ParseData(text) == line
    case OtherLine(text) => '\n' !in text && IsOther(text)
    case _ => true
  }

  function LineText(line: Line): string
    requires Printable(line)
  {
    match line
    case SourceFile(path) => "SF:" + path
    case FunctionsFound(n) => "FNF:" + Decimal(n)
    case FunctionsHit(n) => "FNH:" + Decimal(n)
    case LineData(number, hits) => "DA:" + Decimal(number) + "," + Decimal(hits)
    case MalformedData(text) => "DA:" + text
    case EndOfRecord => "end_of_record"
    case OtherLine(text) => text
  }

  lemma CountReadBack(n: nat)
    ensures ParseCount(Decimal(n)) == Some(n)
  {
    DecimalValue(n);
    LeadingDigitsEnd(Decimal(n), "");
    assert Decimal(n) + "" == Decimal(n);
  }

  lemma DataReadBack(number: nat, hits: nat)
    ensures ParseData(Decimal(number) + "," + Decimal(hits)) == LineData(number, hits)
  {
    hide Decimal, Value;
    var a, b := Decimal(number), Decimal(hits);
    assert a + "," + b == a + ("," + b);
    LeadingDigitsEnd(a, "," + b);
    LeadingDigitsEnd(b, "");
    assert b + "" == b && ("," + b)[1..] == b;
    var text := a + "," + b;
    assert text[|a| + 1..] == b && text[|a|] == ',';
    DecimalValue(number);
    DecimalValue(hits);
  }

  lemma Prefixed(prefix: string, rest: string)
    ensures StartsWith(prefix + rest, prefix) && (prefix + rest)[|prefix|..] == rest
  {
  }

  lemma OtherPrefix(s: string, prefix: string, i: nat)
    requires i < |prefix| && i < |s| && s[i] != prefix[i]
    ensures !StartsWith(s, prefix)
  {
    if |prefix| <= |s| {
      assert s[i] == s[..|prefix|][i];
    }
  }

  /** A printed line is recognised as what it was printed from. */
  lemma LineReadBack(line: Line)
    requires Printable(line)
    ensures Classify(LineText(line)) == Some(line)
  {
    hide ParseCount, ParseData, StartsWith, Decimal;
    var text := LineText(line);
    match line
    case SourceFile(path) =>
      Prefixed("SF:", path);
    case FunctionsFound(n) =>
      Prefixed("FNF:", Decimal(n));
      OtherPrefix(text, "SF:", 0);
      CountReadBack(n);
    case FunctionsHit(n) =>
      Prefixed("FNH:", Decimal(n));
      OtherPrefix(text, "SF:", 0);
      OtherPrefix(text, "FNF:", 2);
      CountReadBack(n);
    case LineData(number, hits) =>
      var rest := Decimal(number) + "," + Decimal(hits);
      assert text == "DA:" + rest;
      Prefixed("DA:", rest);
      OtherPrefix(text, "SF:", 0);
      OtherPrefix(text, "FNF:", 0);
      OtherPrefix(text, "FNH:", 0);
      DataReadBack(number, hits);
    case MalformedData(rest) =>
      Prefixed("DA:", rest);
      OtherPrefix(text, "SF:", 0);
      OtherPrefix(text, "FNF:", 0);
      OtherPrefix(text, "FNH:", 0);
    case OtherLine(_) =>
    case EndOfRecord =>
      OtherPrefix(text, "SF:", 0);
      OtherPrefix(text, "FNF:", 0);
      OtherPrefix(text, "FNH:", 0);
      OtherPrefix(text, "DA:", 0);
  }

  // ---------- many lines ----------

  /** `content.split('\n')` */
  function SplitLines(content: string): (lines: seq<string>)
    ensures lines != []
  {
    if content == "" then [""]
    else
      var rest := SplitLines(content[1..]);
      if content[0] == '\n' then [""] + rest else [[content[0]] + rest[0]] + rest[1..]
  }

  function JoinLines(lines: seq<string>): string
    requires lines != []
  {
    if |lines| == 1 then lines[0] else lines[0] + "\n" + JoinLines(lines[1..])
  }

  /** The lines hold no line break, and joined by line breaks they are the text. */
  lemma {:induction false} LinesRejoin(content: string)
    ensures JoinLines(SplitLines(content)) == content
    ensures forall i :: 0 <= i < |SplitLines(content)| ==> '\n' !in SplitLines(content)[i]
  {
    if content == "" {
    } else {
      LinesRejoin(content[1..]);
      var rest, lines := SplitLines(content[1..]), SplitLines(content);
      assert lines[1..] == if content[0] == '\n' then rest else rest[1..];
      assert content == [content[0]] + content[1..];
    }
  }

  lemma {:induction false} SplitFirst(line: string, rest: string)
    requires '\n' !in line
    ensures SplitLines(line + "\n" + rest) == [line] + SplitLines(rest)
  {
    if line == "" {
      assert (line + "\n" + rest)[1..] == rest;
    } else {
      assert (line + "\n" + rest)[1..] == line[1..] + "\n" + rest;
      SplitFirst(line[1..], rest);
      assert [line[0]] + line[1..] == line;
    }
  }

  function ClassifyAll(texts: seq<string>): Option<seq<Line>> {
    if texts == [] then Some([])
    else
      var first, rest := Classify(texts[0]), ClassifyAll(texts[1..]);
      if first.Some? && rest.Some? then Some([first.value] + rest.value) else None
  }

  function ParseText(env: Setting, content: string): Option<Result> {
    var lines := ClassifyAll(SplitLines(content));
    if lines.Some? then Some(Parse(env, lines.value)) else None
  }

  /** Each line with its line break. */
  function Text(lines: seq<Line>): string
    requires forall i :: 0 <= i < |lines| ==> Printable(lines[i])
  {
    if lines == [] then "" else LineText(lines[0]) + "\n" + Text(lines[1..])
  }

  lemma DecimalIsOneLine(n: nat)
    ensures '\n' !in Decimal(n)
  {
    assert forall c :: c in Decimal(n) ==> IsDigit(c);
  }

  lemma OneLine(line: Line)
    requires Printable(line)
    ensures '\n' !in LineText(line)
  {
    hide Decimal;
    match line
    case FunctionsFound(n) => DecimalIsOneLine(n);
    case FunctionsHit(n) => DecimalIsOneLine(n);
    case LineData(number, hits) =>
      DecimalIsOneLine(number);
      DecimalIsOneLine(hits);
    case _ =>
  }

  lemma EmptyTextReadBack(content: string)
    requires content == ""
    ensures ClassifyAll(SplitLines(content)) == Some([OtherLine("")])
  {
    var lines := SplitLines(content);
    assert lines == [content];
    NoLines(lines[1..]);
    assert Classify(content) == Some(OtherLine(""));
    hide Classify;
    var none: seq<Line> := [];
    assert [OtherLine("")] + none == [OtherLine("")];
    assert ClassifyAll(lines) == Some([OtherLine("")] + none);
  }

  lemma NoLines(texts: seq<string>)
    requires texts == []
    ensures ClassifyAll(texts) == Some([])
  {
  }

  lemma {:induction false} TextReadBack(lines: seq<Line>)
    requires forall i :: 0 <= i < |lines| ==> Printable(lines[i])
    ensures ClassifyAll(SplitLines(Text(lines))) == Some(lines + [OtherLine("")])
  {
    if lines == [] {
      EmptyTextReadBack(Text(lines));
      assert lines + [OtherLine("")] == [OtherLine("")];
    } else {
      hide LineText, Classify, SplitLines;
      TextReadBack(lines[1..]);
      OneLine(lines[0]);
      LineReadBack(lines[0]);
      var text, rest := LineText(lines[0]), SplitLines(Text(lines[1..]));
      SplitFirst(text, Text(lines[1..]));
      assert ([text] + rest)[1..] == rest;
      assert [lines[0]] + (lines[1..] + [OtherLine("")]) == lines + [OtherLine("")];
    }
  }

  lemma TrailingLineIgnored(env: Setting, lines: seq<Line>)
    ensures Parse(env, lines + [OtherLine("")]) == Parse(env, lines)
  {
    hide Run;
    var s := Run(env, START, lines);
    RunSplit(env, START, lines, [OtherLine("")]);
    RunOne(env, s, OtherLine(""));
    assert s.stale + [] == s.stale;
  }

  /** The lines of a record are ones that can be printed. */
  predicate PrintableRecord(r: Record) {
    IsBody(r.body) && '\n' !in r.path && forall i :: 0 <= i < |r.body| ==> Printable(r.body[i])
  }

  lemma {:induction false} PrintedLinesPrintable(records: seq<Record>, closed: seq<bool>)
    requires |closed| == |records| && forall i :: 0 <= i < |records| ==> PrintableRecord(records[i])
    ensures forall i :: 0 <= i < |Print(records, closed)| ==> Printable(Print(records, closed)[i])
  {
    if records == [] {
    } else {
      PrintedLinesPrintable(records[..|records| - 1], closed[..|records| - 1]);
    }
  }

  /**
   * The text of a list of records, with or without closing lines, parses to what each record says on its
   * own, the last record of a path winning.
   */
  lemma PrintedTextParses(env: Setting, records: seq<Record>, closed: seq<bool>)
    requires |closed| == |records| && forall i :: 0 <= i < |records| ==> PrintableRecord(records[i])
    ensures forall i :: 0 <= i < |Print(records, closed)| ==> Printable(Print(records, closed)[i])
    ensures ParseText(env, Text(Print(records, closed))) == Some(
      if |AllStale(env, records)| > 0 then StaleAllowances(AllStale(env, records)) else Parsed(FilesOf(env, records)))
  {
    PrintedLinesPrintable(records, closed);
    hide Parse, Print, Text, SplitLines, ClassifyAll, FilesOf, AllStale, Printable;
    var lines := Print(records, closed);
    TextReadBack(lines);
    TrailingLineIgnored(env, lines);
    PrintedReportParses(env, records, closed);
  }
}
