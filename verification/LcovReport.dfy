/** `parseLcovFiles`: per-file coverage from the lines of an LCOV report, adjusted by allowances. */
module LcovReport {

  datatype Line =
    | SourceFile(path: string)
    | FunctionsFound(n: nat)
    | FunctionsHit(n: nat)
    | LineData(line: nat, hits: nat)
    | MalformedData(text: string)        // a DA line the pattern rejects: neither ignored nor hit
    | EndOfRecord
    | OtherLine(text: string)

  datatype Allowance = Allowance(functions: nat, lines: set<nat>, requireUncoveredLines: bool)

  datatype Metric = Metric(total: int, hit: int, missed: int)

  datatype FileCoverage = FileCoverage(covered: bool, lines: Metric, functions: Metric)

  /** What the parser consults besides the report. */
  datatype Setting = Setting(allowances: map<string, Allowance>, isGenerated: string -> bool)

  datatype Tally = Tally(lineTotal: nat, lineHit: nat, functionTotal: nat, functionHit: nat)

  const NOTHING := Tally(0, 0, 0, 0)

  /** The parser's variables between two lines. `stale` lists allowances that point at covered lines. */
  datatype State = State(files: map<string, FileCoverage>, stale: seq<(string, nat)>, current: string, tally: Tally)

  datatype Result = Parsed(files: map<string, FileCoverage>) | StaleAllowances(stale: seq<(string, nat)>)

  function Max(a: int, b: int): int { if a >= b then a else b }

  function Min(a: int, b: int): int { if a <= b then a else b }

  function Coverage(tally: Tally, ignoredFunctions: nat): FileCoverage {
    var functionTotal := Max(0, tally.functionTotal - ignoredFunctions);
    var functionHit := Min(tally.functionHit, functionTotal);
    var functionMisses := functionTotal - functionHit;
    var lineMisses := tally.lineTotal - tally.lineHit;
    FileCoverage(lineMisses == 0 && functionMisses == 0,
      Metric(tally.lineTotal, tally.lineHit, lineMisses), Metric(functionTotal, functionHit, functionMisses))
  }

  function IgnoredFunctions(env: Setting, path: string): nat {
    if path in env.allowances then env.allowances[path].functions else 0
  }

  function Finalize(env: Setting, s: State): map<string, FileCoverage> {
    if s.current == "" || env.isGenerated(s.current) then s.files
    else s.files[s.current := Coverage(s.tally, IgnoredFunctions(env, s.current))]
  }

  /** The allowance names this line; it is then ignored unless it must be uncovered and is not. */
  predicate Ignored(env: Setting, path: string, line: nat) {
    path in env.allowances && line in env.allowances[path].lines
  }

  predicate IsStale(env: Setting, path: string, line: nat, hits: nat) {
    Ignored(env, path, line) && hits > 0 && env.allowances[path].requireUncoveredLines
  }

  /** One line of a record's body. */
  function Count(env: Setting, path: string, tally: Tally, line: Line): Tally {
    match line
    case FunctionsFound(n) => tally.(functionTotal := tally.functionTotal + n)
    case FunctionsHit(n) => tally.(functionHit := tally.functionHit + n)
    case LineData(number, hits) =>
      if Ignored(env, path, number) && !IsStale(env, path, number, hits) then tally
      else tally.(lineTotal := tally.lineTotal + 1, lineHit := tally.lineHit + if hits > 0 then 1 else 0)
    case MalformedData(_) => tally.(lineTotal := tally.lineTotal + 1)
    case _ => tally
  }

  function StaleIn(env: Setting, path: string, line: Line): seq<(string, nat)> {
    if line.LineData? && IsStale(env, path, line.line, line.hits) then [(path, line.line)] else []
  }

  function Step(env: Setting, s: State, line: Line): State {
    if line.SourceFile? then State(Finalize(env, s), s.stale, line.path, NOTHING)
    else if env.isGenerated(s.current) then s
    else if line.EndOfRecord? then State(Finalize(env, s), s.stale, "", NOTHING)
    else s.(tally := Count(env, s.current, s.tally, line), stale := s.stale + StaleIn(env, s.current, line))
  }

  function Run(env: Setting, s: State, lines: seq<Line>): State {
    if lines == [] then s else Step(env, Run(env, s, lines[..|lines| - 1]), lines[|lines| - 1])
  }

  const START := State(map[], [], "", NOTHING)

  function Outcome(env: Setting, s: State): Result {
    if |s.stale| > 0 then StaleAllowances(s.stale) else Parsed(Finalize(env, s))
  }

  function Parse(env: Setting, lines: seq<Line>): Result {
    Outcome(env, Run(env, START, lines))
  }

  /** The line loop with its counters as local variables. */
  method ParseLcovFiles(env: Setting, lines: seq<Line>) returns (r: Result)
    ensures r == Parse(env, lines)
  {
    var files: map<string, FileCoverage> := map[];
    var stale: seq<(string, nat)> := [];
    var current := "";
    var lineTotal, lineHit, functionTotal, functionHit := 0, 0, 0, 0;
    for n := 0 to |lines|
      invariant lineTotal >= 0 && lineHit >= 0 && functionTotal >= 0 && functionHit >= 0
      invariant State(files, stale, current, Tally(lineTotal, lineHit, functionTotal, functionHit)) == Run(env, START, lines[..n])
    {
      assert lines[..n + 1][..n] == lines[..n];
      var line := lines[n];
      if line.SourceFile? {
        files := Finalize(env, State(files, stale, current, Tally(lineTotal, lineHit, functionTotal, functionHit)));
        current := line.path;
        lineTotal, lineHit, functionTotal, functionHit := 0, 0, 0, 0;
        continue;
      }
      if env.isGenerated(current) {
        continue;
      } else if line.FunctionsFound? {
        functionTotal := functionTotal + line.n;
      } else if line.FunctionsHit? {
        functionHit := functionHit + line.n;
      } else if line.LineData? {
        if Ignored(env, current, line.line) {
          if line.hits > 0 && env.allowances[current].requireUncoveredLines {
            stale := stale + [(current, line.line)];
          } else {
            continue;
          }
        }
        lineTotal := lineTotal + 1;
        if line.hits > 0 { lineHit := lineHit + 1; }
      } else if line.MalformedData? {
        lineTotal := lineTotal + 1;
      } else if line.EndOfRecord? {
        files := Finalize(env, State(files, stale, current, Tally(lineTotal, lineHit, functionTotal, functionHit)));
        current := "";
        lineTotal, lineHit, functionTotal, functionHit := 0, 0, 0, 0;
      }
    }
    assert lines[..|lines|] == lines;
    return Outcome(env, State(files, stale, current, Tally(lineTotal, lineHit, functionTotal, functionHit)));
  }

  // ---------- printed records ----------

  datatype Record = Record(path: string, body: seq<Line>)

  predicate IsBody(body: seq<Line>) {
    forall i :: 0 <= i < |body| ==> !body[i].SourceFile? && !body[i].EndOfRecord?
  }

  /** A record as printed, with or without its closing line. */
  function PrintOne(r: Record, closed: bool): seq<Line> {
    [SourceFile(r.path)] + r.body + if closed then [EndOfRecord] else []
  }

  function Print(records: seq<Record>, closed: seq<bool>): seq<Line>
    requires |closed| == |records|
  {
    if records == [] then []
    else Print(records[..|records| - 1], closed[..|records| - 1]) + PrintOne(records[|records| - 1], closed[|records| - 1])
  }

  // ---------- what a record means on its own ----------

  /** How many of the lines satisfy `p`. */
  ghost function HowMany(body: seq<Line>, p: Line -> bool): nat {
    |set i | 0 <= i < |body| && p(body[i])|
  }

  ghost function SumOf(body: seq<Line>, amount: Line -> nat): nat {
    if body == [] then 0 else SumOf(body[..|body| - 1], amount) + amount(body[|body| - 1])
  }

  /** A line of code counts unless its file's allowance lists it, and a hit one counts all the same where it must be uncovered. */
  predicate Counted(env: Setting, path: string, line: Line) {
    || line.MalformedData?
    || (line.LineData? && (path in env.allowances && line.line in env.allowances[path].lines
          ==> line.hits > 0 && env.allowances[path].requireUncoveredLines))
  }

  function CountedIn(env: Setting, path: string): Line -> bool {
    line => Counted(env, path, line)
  }

  function HitIn(env: Setting, path: string): Line -> bool {
    line => Counted(env, path, line) && line.LineData? && line.hits > 0
  }

  function Found(): Line -> nat {
    (line: Line) => if line.FunctionsFound? then line.n else 0
  }

  function Hit(): Line -> nat {
    (line: Line) => if line.FunctionsHit? then line.n else 0
  }

  /** The lines that count, those of them with hits, and the sums of what `FNF` and `FNH` say. */
  ghost function TallyOf(env: Setting, path: string, body: seq<Line>): Tally {
    Tally(HowMany(body, CountedIn(env, path)), HowMany(body, HitIn(env, path)), SumOf(body, Found()), SumOf(body, Hit()))
  }

  lemma HowManyNext(body: seq<Line>, p: Line -> bool)
    requires body != []
    ensures HowMany(body, p) == HowMany(body[..|body| - 1], p) + if p(body[|body| - 1]) then 1 else 0
  {
    var n := |body| - 1;
    var before, all := set i | 0 <= i < n && p(body[..n][i]), set i | 0 <= i < |body| && p(body[i]);
    assert all == before + if p(body[n]) then {n} else {};
  }

  /** The parser's counters, kept line by line, are these numbers. */
  lemma TallyNext(env: Setting, path: string, body: seq<Line>)
    requires body != []
    ensures TallyOf(env, path, body) == Count(env, path, TallyOf(env, path, body[..|body| - 1]), body[|body| - 1])
  {
    hide HowMany;
    HowManyNext(body, CountedIn(env, path));
    HowManyNext(body, HitIn(env, path));
  }

  lemma TallyOfNothing(env: Setting, path: string)
    ensures TallyOf(env, path, []) == NOTHING
  {
  }

  function StaleOf(env: Setting, path: string, body: seq<Line>): seq<(string, nat)> {
    if body == [] then [] else StaleOf(env, path, body[..|body| - 1]) + StaleIn(env, path, body[|body| - 1])
  }

  /** The last record of a path wins; generated files and empty paths are left out. */
  ghost function FilesOf(env: Setting, records: seq<Record>): map<string, FileCoverage> {
    if records == [] then map[]
    else
      var before, r := FilesOf(env, records[..|records| - 1]), records[|records| - 1];
      if r.path == "" || env.isGenerated(r.path) then before
      else before[r.path := Coverage(TallyOf(env, r.path, r.body), IgnoredFunctions(env, r.path))]
  }

  function AllStale(env: Setting, records: seq<Record>): seq<(string, nat)> {
    if records == [] then []
    else
      var r := records[|records| - 1];
      AllStale(env, records[..|records| - 1]) + if env.isGenerated(r.path) then [] else StaleOf(env, r.path, r.body)
  }

  lemma {:induction false} RunSplit(env: Setting, s: State, a: seq<Line>, b: seq<Line>)
    ensures Run(env, s, a + b) == Run(env, Run(env, s, a), b)
  {
    hide Step;
    if b == [] {
      assert a + b == a;
    } else {
      assert (a + b)[..|a + b| - 1] == a + b[..|b| - 1];
      RunSplit(env, s, a, b[..|b| - 1]);
    }
  }

  lemma RunOne(env: Setting, s: State, line: Line)
    ensures Run(env, s, [line]) == Step(env, s, line)
  {
    hide Step;
    assert [line][..0] == [];
    assert Run(env, s, []) == s;
  }

  lemma {:induction false} RunBody(env: Setting, s: State, body: seq<Line>)
    requires IsBody(body) && s.tally == NOTHING
    ensures Run(env, s, body) ==
      if env.isGenerated(s.current) then s
      else s.(tally := TallyOf(env, s.current, body), stale := s.stale + StaleOf(env, s.current, body))
  {
    hide Count, StaleIn, Finalize, TallyOf;
    if body == [] {
      TallyOfNothing(env, s.current);
      assert s.stale + [] == s.stale;
    } else {
      TallyNext(env, s.current, body);
      RunBody(env, s, body[..|body| - 1]);
      var before, next := StaleOf(env, s.current, body[..|body| - 1]), StaleIn(env, s.current, body[|body| - 1]);
      assert s.stale + before + next == s.stale + (before + next);
    }
  }

  /** After a printed record, finalizing what is pending gives the record's own coverage. */
  lemma RunRecord(env: Setting, s: State, r: Record, closed: bool)
    requires IsBody(r.body)
    ensures var next := Run(env, s, PrintOne(r, closed));
            && next.stale == s.stale + (if env.isGenerated(r.path) then [] else StaleOf(env, r.path, r.body))
            && Finalize(env, next) == (
                 if r.path == "" || env.isGenerated(r.path) then Finalize(env, s)
                 else Finalize(env, s)[r.path := Coverage(TallyOf(env, r.path, r.body), IgnoredFunctions(env, r.path))])
  {
    hide Run, TallyOf, StaleOf, Coverage;
    var entered := State(Finalize(env, s), s.stale, r.path, NOTHING);
    RunOne(env, s, SourceFile(r.path));
    RunSplit(env, s, [SourceFile(r.path)], r.body);
    RunBody(env, entered, r.body);
    var read := Run(env, entered, r.body);
    RunSplit(env, s, [SourceFile(r.path)] + r.body, [EndOfRecord]);
    RunOne(env, read, EndOfRecord);
    assert [SourceFile(r.path)] + r.body + [] == [SourceFile(r.path)] + r.body;
    assert s.stale + [] == s.stale;
  }

  lemma {:induction false} RunPrinted(env: Setting, records: seq<Record>, closed: seq<bool>)
    requires |closed| == |records| && forall i :: 0 <= i < |records| ==> IsBody(records[i].body)
    ensures var s := Run(env, START, Print(records, closed));
            Finalize(env, s) == FilesOf(env, records) && s.stale == AllStale(env, records)
  {
    hide Run, PrintOne, Finalize, IsBody, TallyOf, StaleOf;
    if records == [] {
      NothingRun(env);
    } else {
      var n := |records| - 1;
      RunPrinted(env, records[..n], closed[..n]);
      var before := Print(records[..n], closed[..n]);
      RunSplit(env, START, before, PrintOne(records[n], closed[n]));
      RunRecord(env, Run(env, START, before), records[n], closed[n]);
    }
  }

  lemma NothingRun(env: Setting)
    ensures Run(env, START, []) == START && Finalize(env, START) == map[]
  {
  }

  /**
   * A printed list of records parses to what each record says on its own, the last one of a path
   * winning, whichever closing lines were printed.
   */
  lemma PrintedReportParses(env: Setting, records: seq<Record>, closed: seq<bool>)
    requires |closed| == |records| && forall i :: 0 <= i < |records| ==> IsBody(records[i].body)
    ensures Parse(env, Print(records, closed)) ==
      if |AllStale(env, records)| > 0 then StaleAllowances(AllStale(env, records)) else Parsed(FilesOf(env, records))
  {
    hide Run, Print, Finalize, FilesOf, AllStale;
    RunPrinted(env, records, closed);
  }

  // ---------- conservation ----------

  predicate Adds(m: Metric) {
    m.total == m.hit + m.missed && 0 <= m.hit && 0 <= m.missed
  }

  ghost predicate AllAdd(files: map<string, FileCoverage>) {
    forall path :: path in files ==> Adds(files[path].lines) && Adds(files[path].functions)
  }

  ghost predicate HitsCounted(s: State) {
    s.tally.lineHit <= s.tally.lineTotal && AllAdd(s.files)
  }

  lemma FinalizeConserves(env: Setting, s: State)
    requires HitsCounted(s)
    ensures AllAdd(Finalize(env, s))
  {
  }

  lemma StepConserves(env: Setting, s: State, line: Line)
    requires HitsCounted(s)
    ensures HitsCounted(Step(env, s, line))
  {
    hide Finalize, AllAdd;
    FinalizeConserves(env, s);
  }

  lemma {:induction false} RunConserves(env: Setting, lines: seq<Line>)
    ensures HitsCounted(Run(env, START, lines)) && AllAdd(Finalize(env, Run(env, START, lines)))
  {
    hide Step, Finalize;
    if lines == [] {
      NothingRun(env);
    } else {
      RunConserves(env, lines[..|lines| - 1]);
      StepConserves(env, Run(env, START, lines[..|lines| - 1]), lines[|lines| - 1]);
    }
    FinalizeConserves(env, Run(env, START, lines));
  }

  /** In every parsed report, for every file, each total is its hits plus its misses. */
  lemma ParseConserves(env: Setting, lines: seq<Line>)
    requires Parse(env, lines).Parsed?
    ensures AllAdd(Parse(env, lines).files)
  {
    RunConserves(env, lines);
  }

  // ---------- what an allowance forgives ----------

  /** The same allowances without their functions. */
  function Unforgiving(env: Setting): Setting {
    env.(allowances := map path | path in env.allowances :: env.allowances[path].(functions := 0))
  }

  lemma TallyForgiven(tally: Tally, k: nat)
    ensures var strict := Coverage(tally, 0);
            Coverage(tally, k).functions.missed == strict.functions.missed - Min(k, strict.functions.missed)
            && Coverage(tally, k).lines == strict.lines
  {
  }

  /** The same files with the same lines, and of each file's missed functions as many fewer as its allowance covers. */
  ghost predicate Forgiven(env: Setting, files: map<string, FileCoverage>, strict: map<string, FileCoverage>) {
    && files.Keys == strict.Keys
    && forall path :: path in files ==>
         && files[path].lines == strict[path].lines
         && files[path].functions.missed ==
              strict[path].functions.missed - Min(IgnoredFunctions(env, path), strict[path].functions.missed)
  }

  lemma FinalizeForgives(env: Setting, s: State, strict: State)
    requires s == strict.(files := s.files) && Forgiven(env, s.files, strict.files)
    ensures Forgiven(env, Finalize(env, s), Finalize(Unforgiving(env), strict))
  {
    assert IgnoredFunctions(Unforgiving(env), s.current) == 0;
    TallyForgiven(s.tally, IgnoredFunctions(env, s.current));
    hide Coverage, IgnoredFunctions, Min;
  }

  lemma {:induction false} RunForgives(env: Setting, lines: seq<Line>)
    ensures var s, strict := Run(env, START, lines), Run(Unforgiving(env), START, lines);
            s == strict.(files := s.files) && Forgiven(env, s.files, strict.files)
  {
    if lines == [] {
    } else {
      var front := lines[..|lines| - 1];
      RunForgives(env, front);
      hide Step, Forgiven;
      StepForgives(env, Run(env, START, front), Run(Unforgiving(env), START, front), lines[|lines| - 1]);
    }
  }

  lemma StepForgives(env: Setting, s: State, strict: State, line: Line)
    requires s == strict.(files := s.files) && Forgiven(env, s.files, strict.files)
    ensures var next, strictNext := Step(env, s, line), Step(Unforgiving(env), strict, line);
            next == strictNext.(files := next.files) && Forgiven(env, next.files, strictNext.files)
  {
    FinalizeForgives(env, s, strict);
    LineAlike(env, s.current, s.tally, line);
    hide Finalize, Forgiven, Count, StaleIn;
  }

  lemma LineAlike(env: Setting, path: string, tally: Tally, line: Line)
    ensures Count(Unforgiving(env), path, tally, line) == Count(env, path, tally, line)
    ensures StaleIn(Unforgiving(env), path, line) == StaleIn(env, path, line)
  {
  }

  /** In every report, for every file, an allowance of `k` functions forgives exactly the lesser of `k` and the misses. */
  lemma AllowanceForgives(env: Setting, lines: seq<Line>)
    ensures var r, strict := Parse(env, lines), Parse(Unforgiving(env), lines);
            if r.StaleAllowances? then strict == r else strict.Parsed? && Forgiven(env, r.files, strict.files)
  {
    hide Finalize, Forgiven, Run;
    RunForgives(env, lines);
    FinalizeForgives(env, Run(env, START, lines), Run(Unforgiving(env), START, lines));
  }
}
