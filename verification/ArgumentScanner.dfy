/** The two character scanners that find a call's arguments and split them. */
module ArgumentScanner {
  import opened Basics

  /** Inside which quote the scan is, and whether the last character was an escaping backslash. */
  datatype Quoting = Quoting(quote: Option<char>, escaped: bool)

  type Stepper = (Quoting, char) -> Quoting

  /** One character of the scan in `findCallArguments`. */
  function CallStep(q: Quoting, c: char): Quoting {
    if q.quote.Some? then
      if q.escaped then q.(escaped := false)
      else if c == '\\' then q.(escaped := true)
      else if c == q.quote.value then q.(quote := None)
      else q
    else if c == '"' || c == '\'' || c == '`' then q.(quote := Some(c))
    else q
  }

  /** One character of the scan in `splitTopLevelArguments`. */
  function SplitStep(q: Quoting, c: char): Quoting {
    match q.quote
    case Some(open) =>
      if q.escaped then Quoting(Some(open), false)
      else if c == '\\' then Quoting(Some(open), true)
      else Quoting(if c == open then None else Some(open), false)
    case None =>
      Quoting(if c == '"' || c == '\'' || c == '`' then Some(c) else None, q.escaped)
  }

  /** The quoting state after a whole text. */
  function After(step: Stepper, text: string): Quoting {
    if text == "" then Quoting(None, false) else step(After(step, text[..|text| - 1]), text[|text| - 1])
  }

  /** Whether a character of the text stands inside quotes or opens them. */
  predicate Quoted(step: Stepper, text: string, i: nat)
    requires i < |text|
  {
    After(step, text[..i]).quote.Some? || After(step, text[..i + 1]).quote.Some?
  }

  function Delta(c: char, opening: set<char>, closing: set<char>): int {
    (if c in opening then 1 else 0) - (if c in closing then 1 else 0)
  }

  /** Openings minus closings among the unquoted characters. */
  function Balance(step: Stepper, text: string, opening: set<char>, closing: set<char>): int {
    if text == "" then 0
    else
      var front, last := text[..|text| - 1], text[|text| - 1];
      Balance(step, front, opening, closing) + if Quoted(step, text, |text| - 1) then 0 else Delta(last, opening, closing)
  }

  const OPEN_PARENTHESIS: set<char> := {'('}
  const CLOSE_PARENTHESIS: set<char> := {')'}
  const OPEN_BRACKETS: set<char> := {'(', '[', '{'}
  const CLOSE_BRACKETS: set<char> := {')', ']', '}'}

  lemma NextCharacter(step: Stepper, text: string, i: nat, opening: set<char>, closing: set<char>)
    requires i < |text|
    ensures After(step, text[..i + 1]) == step(After(step, text[..i]), text[i])
    ensures Balance(step, text[..i + 1], opening, closing) ==
      Balance(step, text[..i], opening, closing) + if Quoted(step, text, i) then 0 else Delta(text[i], opening, closing)
    ensures text[..i + 1] == text[..i] + [text[i]]
  {
    assert text[..i + 1][..i] == text[..i];
    assert text[..i + 1][..i + 1] == text[..i + 1];
  }

  // ---------- findCallArguments, from just after the opening parenthesis ----------

  /** The call is still open after the first `n` characters, and was all along. */
  ghost predicate OpenThrough(text: string, n: nat)
    requires n <= |text|
  {
    forall k :: 0 <= k <= n ==> 1 + Balance(CallStep, text[..k], OPEN_PARENTHESIS, CLOSE_PARENTHESIS) > 0
  }

  /**
   * The arguments end at the first unquoted parenthesis that closes the call, or with the file.
   * `text` is what the file holds from `start` on, and `end` where the scan stops in the file.
   */
  method ScanArguments(fileText: string, start: nat) returns (argumentsSource: string, end: nat)
    requires start <= |fileText|
    ensures var text, n := fileText[start..], |argumentsSource|;
            && start + n <= end <= |fileText| && argumentsSource == text[..n]
            && OpenThrough(text, n)
            && if end == start + n then end == |fileText|
               else end == start + n + 1 && text[n] == ')' && !Quoted(CallStep, text, n) &&
                    Balance(CallStep, argumentsSource, OPEN_PARENTHESIS, CLOSE_PARENTHESIS) == 0
  {
    ghost var text, i := fileText[start..], 0;
    var index, depth := start, 1;
    var quote: Option<char>, escaped := None, false;
    argumentsSource := "";
    assert OpenThrough(text, 0);
    assert text[..0] == "";
    hide After, Balance, Quoted, OpenThrough;
    while index < |fileText| && depth > 0
      invariant index == start + i <= |fileText|
      invariant depth >= 0
      invariant depth > 0 ==> CallOpen(text, i, Quoting(quote, escaped), depth, argumentsSource)
      invariant depth == 0 ==> i > 0 && CallClosed(text, i - 1, argumentsSource)
      decreases |fileText| - index
    {
      var character := fileText[index];
      CallNext(text, i, Quoting(quote, escaped), depth, argumentsSource);
      hide CallOpen, CallClosed;
      i := i + 1;
      if quote.Some? {
        argumentsSource := argumentsSource + [character];
        if escaped {
          escaped := false;
        } else if character == '\\' {
          escaped := true;
        } else if character == quote.value {
          quote := None;
        }
        index := index + 1;
        continue;
      }
      if character == '"' || character == '\'' || character == '`' {
        quote := Some(character);
        argumentsSource := argumentsSource + [character];
        index := index + 1;
        continue;
      }
      if character == '(' { depth := depth + 1; }
      if character == ')' { depth := depth - 1; }
      if depth > 0 { argumentsSource := argumentsSource + [character]; }
      index := index + 1;
    }
    return argumentsSource, index;
  }

  /** The scanner's variables after `i` characters, with the call not closed yet. */
  ghost predicate CallOpen(text: string, i: nat, q: Quoting, depth: int, argumentsSource: string) {
    && i <= |text| && q == After(CallStep, text[..i])
    && depth == 1 + Balance(CallStep, text[..i], OPEN_PARENTHESIS, CLOSE_PARENTHESIS)
    && argumentsSource == text[..i] && OpenThrough(text, i)
  }

  /** The call closed by the character at `i`. */
  ghost predicate CallClosed(text: string, i: nat, argumentsSource: string) {
    && i < |text| && argumentsSource == text[..i] && OpenThrough(text, i)
    && text[i] == ')' && !Quoted(CallStep, text, i)
    && Balance(CallStep, argumentsSource, OPEN_PARENTHESIS, CLOSE_PARENTHESIS) == 0
  }

  lemma CallNext(text: string, i: nat, q: Quoting, depth: int, argumentsSource: string)
    requires i < |text| && depth > 0 && CallOpen(text, i, q, depth, argumentsSource)
    ensures
      var c := text[i];
      var next := CallStep(q, c);
      var deeper := depth + if q.quote.Some? || next.quote.Some? then 0 else Delta(c, OPEN_PARENTHESIS, CLOSE_PARENTHESIS);
      if deeper > 0 then CallOpen(text, i + 1, next, deeper, argumentsSource + [c]) else CallClosed(text, i, argumentsSource)
  {
    NextCharacter(CallStep, text, i, OPEN_PARENTHESIS, CLOSE_PARENTHESIS);
    QuotedHere(CallStep, text, i);
    StaysOpen(text, i);
    hide After, Balance, Quoted, OpenThrough;
  }

  lemma QuotedHere(step: Stepper, text: string, i: nat)
    requires i < |text|
    ensures Quoted(step, text, i) <==> After(step, text[..i]).quote.Some? || After(step, text[..i + 1]).quote.Some?
  {
  }

  lemma StaysOpen(text: string, i: nat)
    requires i < |text|
    ensures OpenThrough(text, i) && 1 + Balance(CallStep, text[..i + 1], OPEN_PARENTHESIS, CLOSE_PARENTHESIS) > 0
      ==> OpenThrough(text, i + 1)
  {
    hide Balance;
  }

  // ---------- the two scans ----------

  lemma StepsAgree(q: Quoting, c: char)
    requires q.quote.None? ==> !q.escaped
    ensures CallStep(q, c) == SplitStep(q, c)
    ensures CallStep(q, c).quote.None? ==> !CallStep(q, c).escaped
  {
  }

  /** The two scanners, each with its own bookkeeping, are in the same state after any text. */
  lemma {:induction false} ScannersAgree(text: string)
    ensures After(SplitStep, text) == After(CallStep, text)
    ensures After(CallStep, text).quote.None? ==> !After(CallStep, text).escaped
  {
    if text == "" {
    } else {
      var front := text[..|text| - 1];
      ScannersAgree(front);
      StepsAgree(After(CallStep, front), text[|text| - 1]);
    }
  }

  lemma QuotedAlike(text: string, i: nat)
    requires i < |text|
    ensures Quoted(SplitStep, text, i) <==> Quoted(CallStep, text, i)
  {
    ScannersAgree(text[..i]);
    ScannersAgree(text[..i + 1]);
  }

  lemma {:induction false} BalanceAlike(text: string, opening: set<char>, closing: set<char>)
    ensures Balance(SplitStep, text, opening, closing) == Balance(CallStep, text, opening, closing)
  {
    if text == "" {
    } else {
      BalanceAlike(text[..|text| - 1], opening, closing);
      QuotedAlike(text, |text| - 1);
    }
  }

  // ---------- what quoting means ----------

  /** The inside of a literal: other characters than the quote, and backslashes each with the character it escapes. */
  predicate Inside(body: string, quote: char) {
    || body == ""
    || (body[0] == '\\' && |body| > 1 && Inside(body[2..], quote))
    || (body[0] != '\\' && body[0] != quote && Inside(body[1..], quote))
  }

  lemma AfterOne(before: string, c: char)
    ensures After(CallStep, before + [c]) == CallStep(After(CallStep, before), c)
  {
    assert (before + [c])[..|before|] == before;
  }

  /** Inside a literal the scan stays quoted, and at its end no escape is pending. */
  lemma {:induction false} InsideStaysQuoted(before: string, body: string, quote: char, i: nat)
    requires After(CallStep, before) == Quoting(Some(quote), false) && Inside(body, quote) && i <= |body|
    ensures After(CallStep, before + body[..i]).quote == Some(quote)
    ensures i == |body| ==> After(CallStep, before + body[..i]) == Quoting(Some(quote), false)
    decreases |body|
  {
    hide After;
    if i == 0 {
      assert before + body[..i] == before;
    } else {
      var one := before + [body[0]];
      AfterOne(before, body[0]);
      if body[0] != '\\' {
        InsideStaysQuoted(one, body[1..], quote, i - 1);
        assert one + body[1..][..i - 1] == before + body[..i];
      } else if i == 1 {
        assert before + body[..1] == one;
      } else {
        var two := one + [body[1]];
        AfterOne(one, body[1]);
        InsideStaysQuoted(two, body[2..], quote, i - 2);
        assert two + body[2..][..i - 2] == before + body[..i];
      }
    }
  }

  /** A string literal is quoted up to its closing quote, whatever brackets, commas and escaped quotes it holds. */
  lemma LiteralIsQuoted(before: string, quote: char, body: string, i: nat)
    requires After(CallStep, before) == Quoting(None, false) && quote in {'"', '\'', '`'} && Inside(body, quote) && i <= |body| + 1
    ensures var text := before + [quote] + body + [quote];
            After(CallStep, text) == Quoting(None, false) && Quoted(CallStep, text, |before| + i)
  {
    hide After, Quoted, Inside;
    var start := before + [quote];
    var text := start + body + [quote];
    AfterOne(before, quote);
    InsideStaysQuoted(start, body, quote, |body|);
    assert body[..|body|] == body;
    AfterOne(start + body, quote);
    QuotedHere(CallStep, text, |before| + i);
    if i == 0 {
      assert text[..|before| + 1] == start;
    } else {
      InsideStaysQuoted(start, body, quote, i - 1);
      assert text[..|before| + i] == start + body[..i - 1];
    }
  }

  // ---------- splitTopLevelArguments ----------

  /** Where the splitter cuts: an unquoted comma with as many brackets opened as closed before it. */
  predicate SplitsAt(source: string, i: nat)
    requires i < |source|
  {
    && source[i] == ',' && !Quoted(SplitStep, source, i)
    && Balance(SplitStep, source[..i], OPEN_BRACKETS, CLOSE_BRACKETS) == 0
  }

  predicate Closes(opening: char, closing: char) {
    (opening == '(' && closing == ')') || (opening == '[' && closing == ']') || (opening == '{' && closing == '}')
  }

  /** The character closes the innermost open bracket. */
  predicate ClosesLast(stack: seq<char>, c: char) {
    stack != [] && Closes(stack[|stack| - 1], c)
  }

  /** The brackets that are open after the text, each by its kind, the innermost last. */
  function Stack(text: string): seq<char> {
    if text == "" then ""
    else
      var before, c := Stack(text[..|text| - 1]), text[|text| - 1];
      if Quoted(CallStep, text, |text| - 1) then before
      else if c in OPEN_BRACKETS then before + [c]
      else if ClosesLast(before, c) then before[..|before| - 1]
      else before
  }

  /** How many unquoted brackets close none, or one of another kind. */
  function Unmatched(text: string): nat {
    if text == "" then 0
    else
      var front, c := text[..|text| - 1], text[|text| - 1];
      Unmatched(front) + if !Quoted(CallStep, text, |text| - 1) && c in CLOSE_BRACKETS && !ClosesLast(Stack(front), c) then 1 else 0
  }

  lemma BracketKinds(opening: char, c: char)
    ensures Closes(opening, c) ==> c in CLOSE_BRACKETS
    ensures !(c in OPEN_BRACKETS && c in CLOSE_BRACKETS)
  {
  }

  /** The splitter's count of brackets falls short of the open ones by the unmatched closings. */
  lemma {:induction false} StackCounts(text: string)
    ensures |Stack(text)| == Balance(CallStep, text, OPEN_BRACKETS, CLOSE_BRACKETS) + Unmatched(text)
  {
    if text == "" {
    } else {
      hide Quoted, Closes;
      var front, c := text[..|text| - 1], text[|text| - 1];
      StackCounts(front);
      BracketKinds(if Stack(front) == "" then c else Stack(front)[|Stack(front)| - 1], c);
    }
  }

  /**
   * The cuts, seen from the file. When the splitter gets the first `n` characters behind the call's
   * parenthesis, each cut is an unquoted comma. It lies outside all brackets opened since the call exactly
   * when no bracket before it is unmatched, and then the cuts are exactly the unquoted commas outside all brackets.
   */
  lemma CutsAreTopLevel(fileText: string, start: nat, n: nat, i: nat)
    requires start + n <= |fileText| && i < n
    ensures var text := fileText[start..];
            var cut, comma := SplitsAt(text[..n], i), fileText[start + i] == ',' && !Quoted(CallStep, text, i);
            && (cut ==> comma)
            && (cut ==> (Stack(text[..i]) == [] <==> Unmatched(text[..i]) == 0))
            && (Unmatched(text[..i]) == 0 ==> (cut <==> comma && Stack(text[..i]) == []))
  {
    var text := fileText[start..];
    assert text[..n][..i] == text[..i] && text[..n][..i + 1] == text[..i + 1];
    QuotedAlike(text[..n], i);
    BalanceAlike(text[..i], OPEN_BRACKETS, CLOSE_BRACKETS);
    assert Quoted(CallStep, text[..n], i) <==> Quoted(CallStep, text, i);
    hide Quoted, Balance, Stack, Unmatched;
    StackCounts(text[..i]);
  }

  predicate Unquotable(source: string) {
    forall i :: 0 <= i < |source| ==> source[i] !in {'"', '\'', '`'}
  }

  /** A stray closing bracket makes the splitter cut inside the next pair, as in `],[a,b]`. */
  lemma StrayBracketCutsInside(source: string)
    requires |source| >= 5 && Unquotable(source)
    requires source[0] in CLOSE_BRACKETS && source[1] == ',' && source[2] in OPEN_BRACKETS && source[4] == ','
    requires source[3] !in OPEN_BRACKETS && source[3] !in CLOSE_BRACKETS
    ensures SplitsAt(source, 4) && Stack(source[..4]) == [source[2]]
  {
    hide Stack, SplitsAt, Unquotable, Closes;
    PlainStart(source);
    PlainNext(source, 0);
    BracketKinds(source[0], source[0]);
    PlainNext(source, 1);
    PlainNext(source, 2);
    PlainNext(source, 3);
    BracketKinds(source[2], source[3]);
    PlainNext(source, 4);
  }

  /** So does a bracket closed by one of another kind, as in `(a],b)`. */
  lemma MismatchedBracketCutsInside(source: string)
    requires |source| >= 4 && Unquotable(source)
    requires source[0] in OPEN_BRACKETS && source[2] in CLOSE_BRACKETS && !Closes(source[0], source[2]) && source[3] == ','
    requires source[1] !in OPEN_BRACKETS && source[1] !in CLOSE_BRACKETS
    ensures SplitsAt(source, 3) && Stack(source[..3]) == [source[0]]
  {
    hide Stack, SplitsAt, Unquotable, Closes;
    PlainStart(source);
    PlainNext(source, 0);
    PlainNext(source, 1);
    BracketKinds(source[0], source[1]);
    PlainNext(source, 2);
    BracketKinds(source[0], source[2]);
    PlainNext(source, 3);
  }

  function DepthOf(text: string): int {
    Balance(CallStep, text, OPEN_BRACKETS, CLOSE_BRACKETS)
  }

  lemma PlainStart(source: string)
    ensures Stack(source[..0]) == [] && DepthOf(source[..0]) == 0
  {
  }

  lemma PlainNext(source: string, i: nat)
    requires i < |source| && Unquotable(source)
    ensures DepthOf(source[..i + 1]) == DepthOf(source[..i]) + Delta(source[i], OPEN_BRACKETS, CLOSE_BRACKETS)
    ensures SplitsAt(source, i) <==> source[i] == ',' && DepthOf(source[..i]) == 0
    ensures var before, c := Stack(source[..i]), source[i];
            Stack(source[..i + 1]) ==
              if c in OPEN_BRACKETS then before + [c] else if ClosesLast(before, c) then before[..|before| - 1] else before
  {
    PlainSoFar(source, i);
    PlainSoFar(source, i + 1);
    NextCharacter(CallStep, source, i, OPEN_BRACKETS, CLOSE_BRACKETS);
    BalanceAlike(source[..i], OPEN_BRACKETS, CLOSE_BRACKETS);
    var prefix := source[..i + 1];
    assert prefix[..i] == source[..i] && prefix[..i + 1] == prefix && prefix[i] == source[i];
    hide After, Balance, ClosesLast;
    assert !Quoted(CallStep, prefix, i);
  }

  lemma {:induction false} PlainSoFar(source: string, k: nat)
    requires k <= |source| && forall i :: 0 <= i < k ==> source[i] !in {'"', '\'', '`'}
    ensures After(SplitStep, source[..k]) == Quoting(None, false) == After(CallStep, source[..k])
    decreases k
  {
    if k == 0 {
    } else {
      PlainSoFar(source, k - 1);
      assert source[..k][..k - 1] == source[..k - 1];
    }
  }

  /** The untrimmed pieces of the first `n` characters. */
  function Pieces(source: string, n: nat): (r: seq<string>)
    requires n <= |source|
    ensures r != []
  {
    if n == 0 then [""]
    else
      var before := Pieces(source, n - 1);
      if SplitsAt(source, n - 1) then before + [""]
      else before[..|before| - 1] + [before[|before| - 1] + [source[n - 1]]]
  }

  function JoinWithCommas(pieces: seq<string>): string
    requires pieces != []
  {
    if |pieces| == 1 then pieces[0]
    else JoinWithCommas(pieces[..|pieces| - 1]) + "," + pieces[|pieces| - 1]
  }

  lemma JoinNext(pieces: seq<string>, next: string)
    requires pieces != []
    ensures JoinWithCommas(pieces + [next]) == JoinWithCommas(pieces) + "," + next
  {
    assert (pieces + [next])[..|pieces|] == pieces;
  }

  lemma JoinLonger(front: seq<string>, last: string, c: char)
    ensures JoinWithCommas(front + [last + [c]]) == JoinWithCommas(front + [last]) + [c]
  {
    if front != [] {
      JoinNext(front, last);
      JoinNext(front, last + [c]);
      assert JoinWithCommas(front) + "," + (last + [c]) == (JoinWithCommas(front) + "," + last) + [c];
    }
  }

  /** The pieces rejoin to the source, so nothing but separating commas is lost. */
  lemma {:induction false} PiecesRejoin(source: string, n: nat)
    requires n <= |source|
    ensures JoinWithCommas(Pieces(source, n)) == source[..n]
    decreases n
  {
    hide SplitsAt, JoinWithCommas;
    if n == 0 {
      JoinOne();
    } else {
      PiecesRejoin(source, n - 1);
      var before := Pieces(source, n - 1);
      if SplitsAt(source, n - 1) {
        SplitIsComma(source, n - 1);
        JoinNext(before, "");
      } else {
        var front, last := before[..|before| - 1], before[|before| - 1];
        assert before == front + [last];
        JoinLonger(front, last, source[n - 1]);
      }
      assert source[..n] == source[..n - 1] + [source[n - 1]];
    }
  }

  lemma JoinOne()
    ensures JoinWithCommas([""]) == ""
  {
  }

  lemma PiecesStep(source: string, i: nat, done: seq<string>, current: string)
    requires i < |source| && Pieces(source, i) == done + [current]
    ensures Pieces(source, i + 1) ==
      if SplitsAt(source, i) then done + [current] + [""] else done + [current + [source[i]]]
  {
    hide SplitsAt;
    assert (done + [current])[..|done|] == done;
  }

  lemma TrimmedNext(done: seq<string>, current: string, trim: string -> string)
    ensures Trimmed(done + [current], trim) == Trimmed(done, trim) + [trim(current)]
  {
  }

  lemma SplitIsComma(source: string, i: nat)
    requires i < |source| && SplitsAt(source, i)
    ensures source[i] == ','
  {
  }

  function Trimmed(pieces: seq<string>, trim: string -> string): (r: seq<string>)
    ensures |r| == |pieces|
    ensures forall i :: 0 <= i < |r| ==> r[i] == trim(pieces[i])
  {
    seq(|pieces|, i requires 0 <= i < |pieces| => trim(pieces[i]))
  }

  /** The splitter's variables after `i` characters. */
  ghost predicate Splitting(source: string, i: nat, q: Quoting, depth: int, done: seq<string>, current: string) {
    && i <= |source| && q == After(SplitStep, source[..i])
    && depth == Balance(SplitStep, source[..i], OPEN_BRACKETS, CLOSE_BRACKETS)
    && Pieces(source, i) == done + [current]
  }

  lemma SplitNext(source: string, i: nat, q: Quoting, depth: int, done: seq<string>, current: string)
    requires i < |source| && Splitting(source, i, q, depth, done, current)
    ensures
      var c := source[i];
      var next := SplitStep(q, c);
      var quoted := q.quote.Some? || next.quote.Some?;
      var deeper := depth + if quoted then 0 else Delta(c, OPEN_BRACKETS, CLOSE_BRACKETS);
      if !quoted && c == ',' && deeper == 0 then Splitting(source, i + 1, next, deeper, done + [current], "")
      else Splitting(source, i + 1, next, deeper, done, current + [c])
  {
    NextCharacter(SplitStep, source, i, OPEN_BRACKETS, CLOSE_BRACKETS);
    QuotedHere(SplitStep, source, i);
    PiecesStep(source, i, done, current);
    hide After, Balance, Quoted, Pieces;
  }

  lemma SplittingStarts(source: string, trim: string -> string)
    ensures Splitting(source, 0, Quoting(None, false), 0, [], "") && Trimmed([], trim) == []
  {
  }

  lemma BracketDelta(c: char)
    ensures Delta(c, OPEN_BRACKETS, CLOSE_BRACKETS) ==
      if c == '(' || c == '[' || c == '{' then 1 else if c == ')' || c == ']' || c == '}' then -1 else 0
  {
  }

  lemma StepSpelledOut(quote: Option<char>, escaped: bool, c: char)
    ensures SplitStep(Quoting(quote, escaped), c) ==
      if quote.Some? then
        if escaped then Quoting(quote, false)
        else if c == '\\' then Quoting(quote, true)
        else if c == quote.value then Quoting(None, false)
        else Quoting(quote, false)
      else if c == '"' || c == '\'' || c == '`' then Quoting(Some(c), escaped)
      else Quoting(None, escaped)
  {
  }

  lemma SplittingEnds(source: string, q: Quoting, depth: int, done: seq<string>, current: string)
    requires Splitting(source, |source|, q, depth, done, current)
    ensures var pieces := Pieces(source, |source|); pieces[..|pieces| - 1] == done && pieces[|pieces| - 1] == current
  {
    hide Pieces, After, Balance;
    assert (done + [current])[..|done|] == done;
  }

  /** Every piece is kept, trimmed, except a last one with nothing in it. */
  method SplitTopLevelArguments(source: string, trim: string -> string) returns (argumentsList: seq<string>)
    ensures var pieces := Pieces(source, |source|);
            var front, last := pieces[..|pieces| - 1], pieces[|pieces| - 1];
            argumentsList == Trimmed(front, trim) + if |trim(last)| > 0 then [trim(last)] else []
  {
    argumentsList := [];
    var current, depth := "", 0;
    var quote: Option<char>, escaped := None, false;
    ghost var done: seq<string> := [];
    SplittingStarts(source, trim);
    hide Splitting, Trimmed, Pieces, Delta, SplitStep;
    for i := 0 to |source|
      invariant Splitting(source, i, Quoting(quote, escaped), depth, done, current)
      invariant argumentsList == Trimmed(done, trim)
    {
      var character := source[i];
      SplitNext(source, i, Quoting(quote, escaped), depth, done, current);
      TrimmedNext(done, current, trim);
      BracketDelta(character);
      StepSpelledOut(quote, escaped, character);
      if quote.Some? {
        current := current + [character];
        if escaped {
          escaped := false;
        } else if character == '\\' {
          escaped := true;
        } else if character == quote.value {
          quote := None;
        }
        continue;
      }
      if character == '"' || character == '\'' || character == '`' {
        quote := Some(character);
        current := current + [character];
        continue;
      }
      if character == '(' || character == '[' || character == '{' { depth := depth + 1; }
      if character == ')' || character == ']' || character == '}' { depth := depth - 1; }
      if character == ',' && depth == 0 {
        argumentsList := argumentsList + [trim(current)];
        done := done + [current];
        current := "";
        continue;
      }
      current := current + [character];
    }
    SplittingEnds(source, Quoting(quote, escaped), depth, done, current);
    if |trim(current)| > 0 { argumentsList := argumentsList + [trim(current)]; }
  }
}
