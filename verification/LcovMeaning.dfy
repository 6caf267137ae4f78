/** What `parseLcovFiles` says of every report, printed by a program or not, in terms of its lines alone. */
module LcovMeaning {
  import opened LcovReport

  // ---------- the records of a report ----------

  /** Where the record whose body starts at `k` ends: at a closing line, at the next record, or with the report. */
  function End(lines: seq<Line>, k: nat): (e: nat)
    requires k <= |lines|
    ensures k <= e <= |lines| && IsBody(lines[k..e])
    ensures e < |lines| ==> lines[e].SourceFile? || lines[e].EndOfRecord?
    decreases |lines| - k
  {
    if k == |lines| || lines[k].SourceFile? || lines[k].EndOfRecord? then k else End(lines, k + 1)
  }

  function BodyAt(lines: seq<Line>, i: nat): seq<Line>
    requires i < |lines|
  {
    lines[i + 1..End(lines, i + 1)]
  }

  ghost predicate LastOf(lines: seq<Line>, path: string, i: nat) {
    && i < |lines| && lines[i] == SourceFile(path)
    && forall j :: i < j < |lines| ==> lines[j] != SourceFile(path)
  }

  /** Empty paths and generated files are not reported. */
  ghost predicate Reported(env: Setting, lines: seq<Line>, path: string) {
    path != "" && !env.isGenerated(path) && SourceFile(path) in lines
  }

  /** The line at `j` belongs to the record that starts at `i`; a generated file's record runs on to the next. */
  ghost predicate Within(env: Setting, lines: seq<Line>, i: int, j: int) {
    && 0 <= i < j <= |lines| && lines[i].SourceFile?
    && forall k :: i < k < j ==> !lines[k].SourceFile? && (lines[k].EndOfRecord? ==> env.isGenerated(lines[i].path))
  }

  /** The path in whose name the line at `j` is read; empty outside every record. */
  ghost predicate ReadAs(env: Setting, lines: seq<Line>, j: int, path: string) {
    || (exists i :: Within(env, lines, i, j) && lines[i].path == path)
    || (path == "" && forall i :: !Within(env, lines, i, j))
  }

  // ---------- one file ----------

  /** The numbers of a file, counted over the lines of its record. */
  ghost predicate Describes(env: Setting, path: string, body: seq<Line>, c: FileCoverage) {
    var allowed := if path in env.allowances then env.allowances[path].functions else 0;
    var found, hit := SumOf(body, Found()), SumOf(body, Hit());
    && c.lines.total == HowMany(body, CountedIn(env, path))
    && c.lines.hit == HowMany(body, HitIn(env, path))
    && c.lines.missed == HowMany(body, MissedIn(env, path))
    && c.functions.total == (if found <= allowed then 0 else found - allowed)
    && c.functions.hit == (if hit <= c.functions.total then hit else c.functions.total)
    && c.functions.missed == (if found <= allowed + hit then 0 else found - allowed - hit)
    && (c.covered <==> c.lines.missed == 0 && c.functions.missed == 0)
  }

  /** The lines that count and were not hit, a malformed one among them. */
  function MissedIn(env: Setting, path: string): Line -> bool {
    line => Counted(env, path, line) && (line.LineData? ==> line.hits == 0)
  }

  lemma MissedAreTheRest(env: Setting, path: string, body: seq<Line>)
    ensures HowMany(body, CountedIn(env, path)) == HowMany(body, HitIn(env, path)) + HowMany(body, MissedIn(env, path))
  {
    hide Counted;
    var counted, hit, missed := CountedIn(env, path), HitIn(env, path), MissedIn(env, path);
    var all, hits, misses := set i | 0 <= i < |body| && counted(body[i]), set i | 0 <= i < |body| && hit(body[i]), set i | 0 <= i < |body| && missed(body[i]);
    assert all == hits + misses && hits !! misses;
  }

  lemma CoverageDescribes(env: Setting, path: string, body: seq<Line>)
    ensures Describes(env, path, body, Coverage(TallyOf(env, path, body), IgnoredFunctions(env, path)))
  {
    MissedAreTheRest(env, path, body);
    hide HowMany, SumOf;
  }

  // ---------- one line more ----------

  lemma WithinNext(env: Setting, lines: seq<Line>, i: int)
    requires lines != []
    ensures var n, last := |lines| - 1, lines[|lines| - 1];
            Within(env, lines, i, |lines|) <==>
              if i == n then last.SourceFile?
              else Within(env, lines[..n], i, n) && !last.SourceFile? && (last.EndOfRecord? ==> env.isGenerated(lines[i].path))
  {
    var n := |lines| - 1;
    assert forall k :: 0 <= k < n ==> lines[..n][k] == lines[k];
  }

  lemma OneRecord(env: Setting, lines: seq<Line>, i: int, k: int, j: int)
    requires Within(env, lines, i, j) && Within(env, lines, k, j)
    ensures i == k
  {
  }

  lemma OneReading(env: Setting, lines: seq<Line>, j: int, a: string, b: string)
    requires ReadAs(env, lines, j, a) && ReadAs(env, lines, j, b)
    ensures a == b
  {
    if i, k :| Within(env, lines, i, j) && lines[i].path == a && Within(env, lines, k, j) && lines[k].path == b {
      OneRecord(env, lines, i, k, j);
    }
  }

  lemma CurrentNext(env: Setting, s: State, lines: seq<Line>)
    requires lines != [] && ReadAs(env, lines[..|lines| - 1], |lines| - 1, s.current)
    ensures ReadAs(env, lines, |lines|, Step(env, s, lines[|lines| - 1]).current)
  {
    var n, last := |lines| - 1, lines[|lines| - 1];
    forall i ensures Within(env, lines, i, |lines|) <==>
              if i == n then last.SourceFile?
              else Within(env, lines[..n], i, n) && !last.SourceFile? && (last.EndOfRecord? ==> env.isGenerated(lines[i].path)) {
      WithinNext(env, lines, i);
    }
    forall i, k | Within(env, lines[..n], i, n) && Within(env, lines[..n], k, n) ensures i == k {
      OneRecord(env, lines[..n], i, k, n);
    }
    assert forall i :: Within(env, lines[..n], i, n) ==> 0 <= i < n && lines[..n][i] == lines[i];
    hide Within, Finalize, Count, StaleIn;
  }

  // ---------- the record being read ----------

  /** The counters are those of the open record, unless nothing will come of it. */
  ghost predicate Pending(env: Setting, lines: seq<Line>, s: State) {
    s.current != "" && !env.isGenerated(s.current) ==>
      exists i :: Within(env, lines, i, |lines|) && lines[i].path == s.current && s.tally == TallyOf(env, s.current, lines[i + 1..])
  }

  lemma PendingNext(env: Setting, s: State, lines: seq<Line>)
    requires lines != [] && Pending(env, lines[..|lines| - 1], s)
    ensures Pending(env, lines, Step(env, s, lines[|lines| - 1]))
  {
    var n, last := |lines| - 1, lines[|lines| - 1];
    var front := lines[..n];
    var next := Step(env, s, last);
    if last.SourceFile? {
      WithinNext(env, lines, n);
      assert lines[n + 1..] == [];
      TallyOfNothing(env, next.current);
    } else if s.current == "" || env.isGenerated(s.current) || last.EndOfRecord? {
    } else {
      var i :| Within(env, front, i, n) && front[i].path == s.current && s.tally == TallyOf(env, s.current, front[i + 1..]);
      WithinNext(env, lines, i);
      assert lines[i + 1..][..n - i - 1] == front[i + 1..];
      TallyNext(env, s.current, lines[i + 1..]);
      hide Within, TallyOf, Count, StaleIn;
      assert lines[i].path == s.current;
    }
  }

  // ---------- the files ----------

  ghost function Own(env: Setting, path: string, body: seq<Line>): FileCoverage {
    Coverage(TallyOf(env, path, body), IgnoredFunctions(env, path))
  }

  /** The file is listed exactly when it is reported, with the numbers of its last record. */
  ghost predicate FileMeans(env: Setting, lines: seq<Line>, files: map<string, FileCoverage>, path: string) {
    && (path in files <==> Reported(env, lines, path))
    && forall i :: path in files && LastOf(lines, path, i) ==> files[path] == Own(env, path, BodyAt(lines, i))
  }

  lemma {:induction false} EndNext(lines: seq<Line>, k: nat)
    requires k < |lines|
    ensures var n, last := |lines| - 1, lines[|lines| - 1];
            End(lines, k) == if End(lines[..n], k) == n && !last.SourceFile? && !last.EndOfRecord? then n + 1 else End(lines[..n], k)
    decreases |lines| - k
  {
    var n := |lines| - 1;
    if k == n || lines[k].SourceFile? || lines[k].EndOfRecord? {
    } else {
      EndNext(lines, k + 1);
    }
  }

  lemma BodyNext(lines: seq<Line>, i: nat)
    requires i < |lines| - 1
    ensures var n, last := |lines| - 1, lines[|lines| - 1];
            BodyAt(lines, i) ==
              if End(lines[..n], i + 1) == n && !last.SourceFile? && !last.EndOfRecord? then lines[i + 1..] else BodyAt(lines[..n], i)
  {
    EndNext(lines, i + 1);
  }

  lemma OpenIsWithin(env: Setting, lines: seq<Line>, i: nat)
    requires i < |lines| && lines[i].SourceFile? && !env.isGenerated(lines[i].path)
    ensures Within(env, lines, i, |lines|) <==> End(lines, i + 1) == |lines|
  {
    var e := End(lines, i + 1);
    assert forall k :: i < k < e ==> lines[k] == lines[i + 1..e][k - i - 1];
  }

  lemma LastIsListed(lines: seq<Line>, path: string, i: nat)
    requires LastOf(lines, path, i)
    ensures i < |lines| && lines[i] == SourceFile(path)
  {
  }

  lemma LastNext(lines: seq<Line>, path: string, i: nat)
    requires lines != []
    ensures var n := |lines| - 1;
            LastOf(lines, path, i) <==> if i == n then lines[n] == SourceFile(path) else LastOf(lines[..n], path, i) && lines[n] != SourceFile(path)
  {
    var n := |lines| - 1;
    assert forall k :: 0 <= k < n ==> lines[..n][k] == lines[k];
  }

  lemma ReportedNext(env: Setting, lines: seq<Line>, path: string)
    requires lines != []
    ensures Reported(env, lines, path) <==>
      Reported(env, lines[..|lines| - 1], path) || (path != "" && !env.isGenerated(path) && lines[|lines| - 1] == SourceFile(path))
  {
    assert lines == lines[..|lines| - 1] + [lines[|lines| - 1]];
  }

  lemma FinalizeNext(env: Setting, s: State, line: Line)
    ensures var was, now := Finalize(env, s), Finalize(env, Step(env, s, line));
            var path := if line.SourceFile? then line.path else s.current;
            var tally := if line.SourceFile? then NOTHING else Count(env, path, s.tally, line);
            now == if line.EndOfRecord? || path == "" || env.isGenerated(path) then was else was[path := Coverage(tally, IgnoredFunctions(env, path))]
  {
    hide Count, StaleIn, Coverage, IgnoredFunctions;
  }

  lemma MarkerNext(env: Setting, s: State, lines: seq<Line>, path: string)
    requires lines != [] && (lines[|lines| - 1].SourceFile? || lines[|lines| - 1].EndOfRecord?)
    requires FileMeans(env, lines[..|lines| - 1], Finalize(env, s), path)
    ensures FileMeans(env, lines, Finalize(env, Step(env, s, lines[|lines| - 1])), path)
  {
    hide LastOf, Coverage, TallyOf, Step, Finalize, End;
    var n, last := |lines| - 1, lines[|lines| - 1];
    FinalizeNext(env, s, last);
    ReportedNext(env, lines, path);
    TallyOfNothing(env, path);
    var now := Finalize(env, Step(env, s, last));
    forall i: nat | path in now && LastOf(lines, path, i) ensures i < |lines| && now[path] == Own(env, path, BodyAt(lines, i)) {
      LastNext(lines, path, i);
      LastIsListed(lines, path, i);
      if i == n {
        assert BodyAt(lines, i) == [];
      } else {
        BodyNext(lines, i);
      }
    }
  }

  /** The open record is the one the counters belong to. */
  lemma OpenRecord(env: Setting, s: State, lines: seq<Line>, path: string, i: nat)
    requires Pending(env, lines, s) && ReadAs(env, lines, |lines|, s.current)
    requires LastOf(lines, path, i) && path != "" && !env.isGenerated(path)
    ensures i < |lines| && (End(lines, i + 1) == |lines| <==> path == s.current)
    ensures path == s.current ==> s.tally == TallyOf(env, path, lines[i + 1..])
  {
    hide End, TallyOf;
    OpenIsWithin(env, lines, i);
    if Within(env, lines, i, |lines|) {
      OneReading(env, lines, |lines|, s.current, path);
    }
    if path == s.current {
      var k :| Within(env, lines, k, |lines|) && lines[k].path == s.current && s.tally == TallyOf(env, s.current, lines[k + 1..]);
      assert lines[k] == SourceFile(path);
      assert k == i;
    }
  }

  lemma OpenIsReported(env: Setting, s: State, lines: seq<Line>)
    requires Pending(env, lines, s) && s.current != "" && !env.isGenerated(s.current)
    ensures Reported(env, lines, s.current)
  {
    var k :| Within(env, lines, k, |lines|) && lines[k].path == s.current && s.tally == TallyOf(env, s.current, lines[k + 1..]);
    assert lines[k] == SourceFile(s.current);
  }

  lemma OwnNext(env: Setting, s: State, lines: seq<Line>, path: string, i: nat)
    requires lines != [] && !lines[|lines| - 1].SourceFile? && !lines[|lines| - 1].EndOfRecord?
    requires Pending(env, lines[..|lines| - 1], s) && ReadAs(env, lines[..|lines| - 1], |lines| - 1, s.current)
    requires LastOf(lines[..|lines| - 1], path, i) && path != "" && !env.isGenerated(path)
    ensures i < |lines| - 1
    ensures Own(env, path, BodyAt(lines, i)) ==
      if path == s.current then Coverage(Count(env, path, s.tally, lines[|lines| - 1]), IgnoredFunctions(env, path))
      else Own(env, path, BodyAt(lines[..|lines| - 1], i))
  {
    hide LastOf, Coverage, TallyOf, End, Count, Pending, ReadAs;
    var n := |lines| - 1;
    LastIsListed(lines[..n], path, i);
    BodyNext(lines, i);
    OpenRecord(env, s, lines[..n], path, i);
    assert lines[i + 1..][..n - i - 1] == lines[..n][i + 1..];
    TallyNext(env, path, lines[i + 1..]);
  }

  /** A line of a body adds to the record being read and to no other. */
  lemma BodyLineNext(env: Setting, s: State, lines: seq<Line>, path: string)
    requires lines != [] && !lines[|lines| - 1].SourceFile? && !lines[|lines| - 1].EndOfRecord?
    requires Pending(env, lines[..|lines| - 1], s) && ReadAs(env, lines[..|lines| - 1], |lines| - 1, s.current)
    requires FileMeans(env, lines[..|lines| - 1], Finalize(env, s), path)
    ensures FileMeans(env, lines, Finalize(env, Step(env, s, lines[|lines| - 1])), path)
  {
    hide LastOf, Coverage, Own, BodyAt, Step, Finalize, Count, Pending, ReadAs;
    var n, last := |lines| - 1, lines[|lines| - 1];
    FinalizeNext(env, s, last);
    ReportedNext(env, lines, path);
    if s.current != "" && !env.isGenerated(s.current) {
      OpenIsReported(env, s, lines[..n]);
    }
    var now := Finalize(env, Step(env, s, last));
    forall i: nat | path in now && LastOf(lines, path, i) ensures i < |lines| && now[path] == Own(env, path, BodyAt(lines, i)) {
      LastNext(lines, path, i);
      LastIsListed(lines, path, i);
      OwnNext(env, s, lines, path, i);
    }
  }

  // ---------- stale allowances ----------

  /** A line that is hit although its file's allowance lists it among those that must be uncovered. */
  ghost predicate StaleAt(env: Setting, lines: seq<Line>, j: int, path: string, number: nat) {
    && 0 <= j < |lines| && lines[j].LineData? && lines[j].line == number && lines[j].hits > 0
    && ReadAs(env, lines, j, path) && !env.isGenerated(path) && path in env.allowances
    && number in env.allowances[path].lines && env.allowances[path].requireUncoveredLines
  }

  /** The positions of stale allowances, in the order of the report. */
  ghost predicate ListsStale(env: Setting, lines: seq<Line>, positions: seq<int>, stale: seq<(string, nat)>) {
    && |positions| == |stale|
    && (forall a, b :: 0 <= a < b < |positions| ==> positions[a] < positions[b])
    && (forall a :: 0 <= a < |positions| ==> StaleAt(env, lines, positions[a], stale[a].0, stale[a].1))
    && (forall j, path, number :: StaleAt(env, lines, j, path, number) ==> j in positions)
  }

  lemma ReadAsPrefix(env: Setting, lines: seq<Line>, n: nat, j: int, path: string)
    requires j <= n <= |lines|
    ensures ReadAs(env, lines[..n], j, path) <==> ReadAs(env, lines, j, path)
  {
    forall i ensures Within(env, lines[..n], i, j) <==> Within(env, lines, i, j) {
      assert forall k :: 0 <= k < n ==> lines[..n][k] == lines[k];
    }
    assert forall i :: Within(env, lines[..n], i, j) ==> 0 <= i < n && lines[..n][i] == lines[i];
    hide Within;
  }

  lemma StalePrefix(env: Setting, lines: seq<Line>, j: int, path: string, number: nat)
    requires lines != []
    ensures StaleAt(env, lines[..|lines| - 1], j, path, number) <==> StaleAt(env, lines, j, path, number) && j < |lines| - 1
  {
    hide ReadAs;
    if j < |lines| - 1 {
      ReadAsPrefix(env, lines, |lines| - 1, j, path);
    }
  }

  lemma StaleLast(env: Setting, s: State, lines: seq<Line>, path: string, number: nat)
    requires lines != [] && ReadAs(env, lines[..|lines| - 1], |lines| - 1, s.current)
    ensures StaleAt(env, lines, |lines| - 1, path, number) <==>
      !env.isGenerated(s.current) && StaleIn(env, s.current, lines[|lines| - 1]) == [(path, number)]
  {
    var n := |lines| - 1;
    ReadAsPrefix(env, lines, n, n, path);
    ReadAsPrefix(env, lines, n, n, s.current);
    if ReadAs(env, lines, n, path) {
      OneReading(env, lines, n, path, s.current);
    }
    hide ReadAs;
  }

  lemma StaleNext(env: Setting, s: State, lines: seq<Line>, positions: seq<int>) returns (more: seq<int>)
    requires lines != [] && ReadAs(env, lines[..|lines| - 1], |lines| - 1, s.current)
    requires ListsStale(env, lines[..|lines| - 1], positions, s.stale)
    ensures ListsStale(env, lines, more, Step(env, s, lines[|lines| - 1]).stale)
  {
    var n, last := |lines| - 1, lines[|lines| - 1];
    var added := if env.isGenerated(s.current) then [] else StaleIn(env, s.current, last);
    assert Step(env, s, last).stale == s.stale + added;
    more := positions + if added == [] then [] else [n];
    forall j, path, number: nat ensures StaleAt(env, lines[..n], j, path, number) <==> StaleAt(env, lines, j, path, number) && j < n {
      StalePrefix(env, lines, j, path, number);
    }
    forall path, number: nat ensures StaleAt(env, lines, n, path, number) <==> added == [(path, number)] {
      StaleLast(env, s, lines, path, number);
    }
    assert forall j, path, number :: StaleAt(env, lines, j, path, number) ==> j <= n;
    assert added != [] ==> added == [added[0]] && added[0] == (added[0].0, added[0].1);
    hide Step, ReadAs, StaleIn;
    assert forall a :: 0 <= a < |positions| ==> StaleAt(env, lines[..n], positions[a], s.stale[a].0, s.stale[a].1) && more[a] < n;
    hide StaleAt;
  }

  // ---------- every report ----------

  lemma {:induction false} RunMeans(env: Setting, lines: seq<Line>, path: string)
    ensures var s := Run(env, START, lines);
            && ReadAs(env, lines, |lines|, s.current) && Pending(env, lines, s)
            && FileMeans(env, lines, Finalize(env, s), path)
            && exists positions :: ListsStale(env, lines, positions, s.stale)
  {
    if lines == [] {
      assert ListsStale(env, lines, [], []);
    } else {
      hide Step, Finalize, Pending, FileMeans, ReadAs, ListsStale;
      var front, last := lines[..|lines| - 1], lines[|lines| - 1];
      RunMeans(env, front, path);
      var s := Run(env, START, front);
      CurrentNext(env, s, lines);
      PendingNext(env, s, lines);
      if last.SourceFile? || last.EndOfRecord? {
        MarkerNext(env, s, lines, path);
      } else {
        BodyLineNext(env, s, lines, path);
      }
      var positions :| ListsStale(env, front, positions, s.stale);
      var more := StaleNext(env, s, lines, positions);
    }
  }

  /**
   * Whatever the lines are: the parser fails exactly when some allowance is stale, and lists those in order;
   * otherwise it lists the reported files, each with the counts of its last record.
   */
  lemma EveryReportIsRead(env: Setting, lines: seq<Line>)
    ensures Parse(env, lines).StaleAllowances? <==> exists j, path, number :: StaleAt(env, lines, j, path, number)
    ensures var r := Parse(env, lines);
            if r.StaleAllowances? then exists positions :: ListsStale(env, lines, positions, r.stale)
            else
              && (forall path :: path in r.files <==> Reported(env, lines, path))
              && forall path, i :: path in r.files && LastOf(lines, path, i) ==> Describes(env, path, BodyAt(lines, i), r.files[path])
  {
    hide Run, Finalize, FileMeans, StaleAt, Describes;
    var s := Run(env, START, lines);
    RunMeans(env, lines, "");
    var positions :| ListsStale(env, lines, positions, s.stale);
    if s.stale != [] {
      assert StaleAt(env, lines, positions[0], s.stale[0].0, s.stale[0].1);
    } else {
      var files := Finalize(env, s);
      forall path ensures FileMeans(env, lines, files, path) {
        RunMeans(env, lines, path);
      }
      FilesDescribed(env, lines, files);
    }
  }

  lemma FilesDescribed(env: Setting, lines: seq<Line>, files: map<string, FileCoverage>)
    requires forall path :: FileMeans(env, lines, files, path)
    ensures forall path :: path in files <==> Reported(env, lines, path)
    ensures forall path, i :: path in files && LastOf(lines, path, i) ==> Describes(env, path, BodyAt(lines, i), files[path])
  {
    hide Describes, Reported, LastOf, BodyAt;
    assert forall path :: FileMeans(env, lines, files, path) ==> (path in files <==> Reported(env, lines, path));
    forall path, i: nat | path in files && LastOf(lines, path, i) ensures i < |lines| && Describes(env, path, BodyAt(lines, i), files[path]) {
      LastIsListed(lines, path, i);
      assert FileMeans(env, lines, files, path);
      CoverageDescribes(env, path, BodyAt(lines, i));
    }
  }
}
