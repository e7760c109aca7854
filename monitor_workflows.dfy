/**
 * The workflow monitor script: how a run's status and duration are shown,
 * the summary of a list of runs, and the retry counter of the monitor object
 * around the `gh` and `git` commands. Commands, their output and the JSON
 * they return are not modelled; each command only succeeds or fails.
 */
module MonitorWorkflows {
  import opened Wrappers
  import opened Seqs
  import opened Strings
  import opened Numbers

  const Reset: string := "\U{1b}[0m"
  const Red: string := "\U{1b}[31m"
  const Green: string := "\U{1b}[32m"
  const Yellow: string := "\U{1b}[33m"
  const Blue: string := "\U{1b}[34m"
  const Cyan: string := "\U{1b}[36m"
  const Gray: string := "\U{1b}[90m"

  datatype Style = Style(color: string, symbol: char)

  /** The status table; the symbols are check mark, ballot x, warning sign, high voltage and hourglass. */
  const StatusColors: map<string, Style> := map[
    "completed" := Style(Green, '\U{2713}'),
    "success" := Style(Green, '\U{2713}'),
    "failure" := Style(Red, '\U{2717}'),
    "cancelled" := Style(Yellow, '\U{26A0}'),
    "in_progress" := Style(Blue, '\U{26A1}'),
    "queued" := Style(Cyan, '\U{23F3}'),
    "pending" := Style(Cyan, '\U{23F3}'),
    "waiting" := Style(Cyan, '\U{23F3}'),
    "requested" := Style(Cyan, '\U{23F3}')
  ]

  /** `conclusion || status`: a missing conclusion (`null` or empty) is `""`. */
  function EffectiveStatus(status: string, conclusion: string): string
  {
    if conclusion != "" then conclusion else status
  }

  /** The table entry, or a gray question mark for a status the table does not know. */
  function StyleOf(eff: string): Style
  {
    if eff in StatusColors then StatusColors[eff] else Style(Gray, '?')
  }

  function FormatStatus(status: string, conclusion: string): string
  {
    var eff := EffectiveStatus(status, conclusion);
    var style := StyleOf(eff);
    style.color + [style.symbol] + " " + ToUpper(eff) + Reset
  }

  /** The status word of a formatted status, read back from between the symbol and the closing reset. */
  function DisplayedWord(r: string): string
  {
    if |r| >= 11 then r[7..|r| - 4] else ""
  }

  /** The color escape and the symbol at the front of a formatted status. */
  function DisplayedStyle(r: string): Style
  {
    if |r| >= 6 then Style(r[..5], r[5]) else Style("", '?')
  }

  /**
   * A formatted status shows the style of the effective status and that
   * status in upper case, and ends by resetting the color.
   */
  lemma FormatStatusReadBack(status: string, conclusion: string)
    ensures var r := FormatStatus(status, conclusion);
            var eff := EffectiveStatus(status, conclusion);
            DisplayedStyle(r) == StyleOf(eff) && DisplayedWord(r) == ToUpper(eff) && EndsWith(r, Reset)
  {
    var eff := EffectiveStatus(status, conclusion);
    StyleColorLength(eff);
    LayoutReadBack(StyleOf(eff).color, StyleOf(eff).symbol, ToUpper(eff));
  }

  /** Every color escape in the table, and the gray fallback, is five characters long. */
  lemma StyleColorLength(eff: string)
    ensures |StyleOf(eff).color| == 5
  {
    if eff in StatusColors {
      var c := StatusColors[eff].color;
      assert c in {Green, Red, Yellow, Blue, Cyan};
    }
  }

  lemma LayoutReadBack(color: string, symbol: char, word: string)
    requires |color| == 5
    ensures var r := color + [symbol] + " " + word + Reset;
            DisplayedStyle(r) == Style(color, symbol) && DisplayedWord(r) == word && EndsWith(r, Reset)
  {
    var r := color + [symbol] + " " + word + Reset;
    assert r[..5] == color;
    assert r[7..|r| - 4] == word;
    assert r[|r| - 4..] == Reset;
  }

  /** A present conclusion decides alone; a missing conclusion falls back to the status. */
  lemma FormatStatusConclusionFirst(status: string, other: string, conclusion: string)
    ensures conclusion != "" ==> FormatStatus(status, conclusion) == FormatStatus(other, conclusion)
    ensures FormatStatus(status, "") == FormatStatus("", status)
  {
  }

  /** The question mark is shown exactly for the statuses the table does not know, and red exactly for `failure`. */
  lemma FormatStatusSymbol(status: string, conclusion: string)
    ensures var r := FormatStatus(status, conclusion);
            var eff := EffectiveStatus(status, conclusion);
            (DisplayedStyle(r).symbol == '?' <==> eff !in StatusColors)
            && (DisplayedStyle(r).color == Red <==> eff == "failure")
  {
    FormatStatusReadBack(status, conclusion);
    StyleMarks(EffectiveStatus(status, conclusion));
  }

  lemma StyleMarks(eff: string)
    ensures StyleOf(eff).symbol == '?' <==> eff !in StatusColors
    ensures StyleOf(eff).color == Red <==> eff == "failure"
  {
    if eff in StatusColors {
      assert StatusColors[eff].symbol != '?';
      assert StatusColors[eff].color == Red <==> eff == "failure";
    } else {
      assert Gray[3] != Red[3];
    }
  }

  predicate NoUpperCase(s: string) {
    forall i :: 0 <= i < |s| ==> !('A' <= s[i] <= 'Z')
  }

  lemma UpperCharInjective(x: char, y: char)
    requires !('A' <= x <= 'Z') && !('A' <= y <= 'Z')
    requires UpperChar(x) == UpperChar(y)
    ensures x == y
  {
  }

  /**
   * Statuses written without capital letters (as GitHub writes them) are
   * shown differently whenever they differ.
   */
  lemma FormatStatusDistinguishes(s1: string, c1: string, s2: string, c2: string)
    requires NoUpperCase(EffectiveStatus(s1, c1)) && NoUpperCase(EffectiveStatus(s2, c2))
    ensures FormatStatus(s1, c1) == FormatStatus(s2, c2) <==> EffectiveStatus(s1, c1) == EffectiveStatus(s2, c2)
  {
    var e1 := EffectiveStatus(s1, c1);
    var e2 := EffectiveStatus(s2, c2);
    if FormatStatus(s1, c1) == FormatStatus(s2, c2) {
      FormatStatusReadBack(s1, c1);
      FormatStatusReadBack(s2, c2);
      assert ToUpper(e1) == ToUpper(e2);
      forall i | 0 <= i < |e1| ensures e1[i] == e2[i] {
        UpperCharInjective(e1[i], e2[i]);
      }
    }
  }

  /** `formatDuration` from a whole number of seconds, which may be negative when the clocks disagree. */
  function FormatDuration(d: int): string
  {
    if d < 60 then WithUnit(d, 's')
    else if d < 3600 then WithUnit(d / 60, 'm') + " " + WithUnit(d % 60, 's')
    else WithUnit(d / 3600, 'h') + " " + WithUnit((d % 3600) / 60, 'm')
  }

  /** `${n}` followed by a one-letter unit. */
  function WithUnit(n: int, unit: char): string
  {
    IntToString(n) + [unit]
  }

  /** The number a part of a duration text shows in front of its one-letter unit. */
  function Field(part: string): Option<int>
  {
    if part != "" then DecimalValue(part[..|part| - 1]) else None
  }

  function Unit(part: string): char
  {
    if part != "" then part[|part| - 1] else ' '
  }

  /** The numbers the space-separated parts of a duration text show. */
  function Fields(parts: seq<string>): (f: seq<Option<int>>)
    ensures |f| == |parts| && forall i :: 0 <= i < |parts| ==> f[i] == Field(parts[i])
  {
    if parts == [] then [] else [Field(parts[0])] + Fields(parts[1..])
  }

  /** The number of seconds a duration text stands for, reading `s`, `m` and `h` as units. */
  function ReadDuration(r: string): Option<int>
  {
    ReadParts(Split(r, ' '))
  }

  function ReadParts(parts: seq<string>): Option<int>
  {
    if |parts| == 1 && Unit(parts[0]) == 's' then Field(parts[0])
    else if |parts| == 2 && Field(parts[0]).Some? && Field(parts[1]).Some? then
      var a, b := Field(parts[0]).value, Field(parts[1]).value;
      if Unit(parts[0]) == 'm' && Unit(parts[1]) == 's' then Some(60 * a + b)
      else if Unit(parts[0]) == 'h' && Unit(parts[1]) == 'm' then Some(3600 * a + 60 * b)
      else None
    else None
  }

  lemma NoSpaceInNumber(n: int, unit: char)
    requires unit != ' '
    ensures ' ' !in WithUnit(n, unit)
  {
    var s := WithUnit(n, unit);
    forall i | 0 <= i < |s| ensures s[i] != ' ' {
      if i >= |IntToString(n)| {
        assert s[i] == unit;
      }
    }
  }

  /** A number with its unit: the unit is the last letter and the number is what precedes it. */
  lemma FieldOfNumber(n: int, unit: char)
    ensures Field(WithUnit(n, unit)) == Some(n) && Unit(WithUnit(n, unit)) == unit
  {
    var s := WithUnit(n, unit);
    assert s[..|s| - 1] == IntToString(n);
    DecimalValueOfString(n);
  }

  lemma SplitOne(a: int, u: char)
    requires u != ' '
    ensures Split(WithUnit(a, u), ' ') == [WithUnit(a, u)]
  {
    NoSpaceInNumber(a, u);
  }

  lemma SplitTwo(a: int, u: char, b: int, v: char)
    requires u != ' ' && v != ' '
    ensures Split(WithUnit(a, u) + " " + WithUnit(b, v), ' ') == [WithUnit(a, u), WithUnit(b, v)]
  {
    var x := WithUnit(a, u);
    var y := WithUnit(b, v);
    NoSpaceInNumber(a, u);
    NoSpaceInNumber(b, v);
    assert Join([x, y], ' ') == x + [' '] + y;
    assert WithUnit(a, u) + " " + WithUnit(b, v) == x + [' '] + y;
    SplitJoin([x, y], ' ');
  }

  /**
   * Under a minute the text is one number of seconds; up to an hour it is
   * minutes and seconds with the seconds below 60; from an hour on it is
   * hours and minutes with the minutes below 60, the seconds dropped.
   */
  lemma FormatDurationFields(d: int)
    ensures var parts := Split(FormatDuration(d), ' ');
            var f := Fields(parts);
            (d < 60 ==> f == [Some(d)] && Unit(parts[0]) == 's')
            && (60 <= d ==> |f| == 2 && f[0].Some? && f[1].Some? && f[0].value >= 1 && 0 <= f[1].value < 60)
            && (60 <= d < 3600 ==> f[0].value < 60 && Unit(parts[0]) == 'm' && Unit(parts[1]) == 's')
            && (3600 <= d ==> Unit(parts[0]) == 'h' && Unit(parts[1]) == 'm')
  {
    if d < 60 {
      assert FormatDuration(d) == WithUnit(d, 's');
      SplitOne(d, 's');
      FieldOfNumber(d, 's');
    } else if d < 3600 {
      var m, sec := d / 60, d % 60;
      assert FormatDuration(d) == WithUnit(m, 'm') + " " + WithUnit(sec, 's');
      SplitTwo(m, 'm', sec, 's');
      FieldOfNumber(m, 'm');
      FieldOfNumber(sec, 's');
      assert 1 <= m < 60 && 0 <= sec < 60;
    } else {
      var h, m := d / 3600, (d % 3600) / 60;
      assert FormatDuration(d) == WithUnit(h, 'h') + " " + WithUnit(m, 'm');
      SplitTwo(h, 'h', m, 'm');
      FieldOfNumber(h, 'h');
      FieldOfNumber(m, 'm');
      assert h >= 1 && 0 <= m < 60;
    }
  }

  /** Reading the text back gives the duration, rounded down to the minute from an hour on. */
  lemma FormatDurationReadBack(d: int)
    ensures ReadDuration(FormatDuration(d)) == Some(if d < 3600 then d else d - d % 60)
  {
    if d < 60 {
      ReadBackSeconds(d);
    } else if d < 3600 {
      ReadBackMinutes(d);
    } else {
      ReadBackHours(d);
    }
  }

  lemma ReadBackSeconds(d: int)
    requires d < 60
    ensures ReadDuration(FormatDuration(d)) == Some(d)
  {
    assert FormatDuration(d) == WithUnit(d, 's');
    SplitOne(d, 's');
    FieldOfNumber(d, 's');
  }

  lemma ReadBackMinutes(d: int)
    requires 60 <= d < 3600
    ensures ReadDuration(FormatDuration(d)) == Some(d)
  {
    WholeSeconds(d);
    ReadMinutesSeconds(d, d / 60, d % 60);
  }

  lemma ReadMinutesSeconds(d: int, m: int, sec: int)
    requires 60 <= d < 3600 && m == d / 60 && sec == d % 60
    ensures ReadDuration(FormatDuration(d)) == Some(60 * m + sec)
  {
    ReadTwoNumbers(m, 'm', sec, 's');
    ReadTwo(WithUnit(m, 'm'), WithUnit(sec, 's'), m, sec);
    assert FormatDuration(d) == WithUnit(m, 'm') + " " + WithUnit(sec, 's');
  }

  lemma WholeSeconds(d: int)
    ensures 60 * (d / 60) + d % 60 == d
  {
  }

  lemma ReadBackHours(d: int)
    requires 3600 <= d
    ensures ReadDuration(FormatDuration(d)) == Some(d - d % 60)
  {
    WholeMinutes(d);
    ReadHoursMinutes(d, d / 3600, (d % 3600) / 60);
  }

  lemma ReadHoursMinutes(d: int, h: int, m: int)
    requires 3600 <= d && h == d / 3600 && m == (d % 3600) / 60
    ensures ReadDuration(FormatDuration(d)) == Some(3600 * h + 60 * m)
  {
    ReadTwoNumbers(h, 'h', m, 'm');
    ReadTwo(WithUnit(h, 'h'), WithUnit(m, 'm'), h, m);
    assert FormatDuration(d) == WithUnit(h, 'h') + " " + WithUnit(m, 'm');
  }

  lemma WholeMinutes(d: int)
    requires 3600 <= d
    ensures 3600 * (d / 3600) + 60 * ((d % 3600) / 60) == d - d % 60
  {
    var q, r := d / 3600, d % 3600;
    assert d == 3600 * q + r && 0 <= r < 3600;
    assert d % 60 == r % 60 by {
      assert d == 60 * (60 * q) + r;
    }
  }

  lemma ReadTwoNumbers(a: int, u: char, b: int, v: char)
    requires u != ' ' && v != ' '
    ensures var x, y := WithUnit(a, u), WithUnit(b, v);
            ReadDuration(WithUnit(a, u) + " " + WithUnit(b, v)) == ReadParts([x, y])
            && Field(x) == Some(a) && Field(y) == Some(b) && Unit(x) == u && Unit(y) == v
  {
    var x, y := WithUnit(a, u), WithUnit(b, v);
    SplitTwo(a, u, b, v);
    FieldOfNumber(a, u);
    FieldOfNumber(b, v);
    ReadSplit(WithUnit(a, u) + " " + WithUnit(b, v), x, y);
  }

  lemma ReadSplit(r: string, x: string, y: string)
    requires Split(r, ' ') == [x, y]
    ensures ReadDuration(r) == ReadParts([x, y])
  {
  }

  lemma ReadTwo(x: string, y: string, a: int, b: int)
    requires Field(x) == Some(a) && Field(y) == Some(b)
    ensures Unit(x) == 'm' && Unit(y) == 's' ==> ReadParts([x, y]) == Some(60 * a + b)
    ensures Unit(x) == 'h' && Unit(y) == 'm' ==> ReadParts([x, y]) == Some(3600 * a + 60 * b)
  {
  }

  /** One workflow run as `gh run list` reports it; a missing conclusion is `""`. */
  datatype Run = Run(status: string, conclusion: string)

  predicate IsRunning(r: Run) {
    r.status == "in_progress" || r.status == "queued"
  }

  predicate IsFailed(r: Run) {
    r.conclusion == "failure"
  }

  predicate IsSucceeded(r: Run) {
    r.conclusion == "success"
  }

  /** The flags `displayWorkflows` returns and the three counts of its summary lines. */
  datatype Summary = Summary(allComplete: bool, anyFailed: bool, runningCount: nat, failedCount: nat, successCount: nat)

  method DisplayWorkflows(runs: seq<Run>) returns (s: Summary)
    ensures runs == [] ==> s.allComplete && !s.anyFailed
    ensures s.allComplete <==> forall i :: 0 <= i < |runs| ==> !IsRunning(runs[i])
    ensures s.anyFailed <==> exists i :: 0 <= i < |runs| && IsFailed(runs[i])
    ensures s.runningCount == |Filter(runs, IsRunning)| && s.failedCount == |Filter(runs, IsFailed)|
    ensures s.successCount == |Filter(runs, IsSucceeded)|
    ensures s.runningCount > 0 <==> !s.allComplete
    ensures s.failedCount > 0 <==> s.anyFailed
    ensures s.runningCount <= |runs| && s.failedCount + s.successCount <= |runs|
  {
    if |runs| == 0 {
      return Summary(true, false, 0, 0, 0);
    }
    var allComplete := true;
    var anyFailed := false;
    for i := 0 to |runs|
      invariant allComplete <==> forall j :: 0 <= j < i ==> !IsRunning(runs[j])
      invariant anyFailed <==> exists j :: 0 <= j < i && IsFailed(runs[j])
    {
      if IsRunning(runs[i]) {
        allComplete := false;
      }
      if IsFailed(runs[i]) {
        anyFailed := true;
      }
    }
    FilterDisjointCount(runs, IsFailed, IsSucceeded);
    FilterNonEmpty(runs, IsFailed);
    FilterNonEmpty(runs, IsRunning);
    s := Summary(allComplete, anyFailed, |Filter(runs, IsRunning)|, |Filter(runs, IsFailed)|, |Filter(runs, IsSucceeded)|);
  }

  const MaxRetries: nat := 3

  /** What each attempt of `fetchWorkflowRuns` meets: whether `git`, `gh` and `JSON.parse` succeed. */
  datatype Attempt = Attempt(branchOk: bool, listOk: bool, parseOk: bool)

  /** `StillRetrying`: the attempts given ran out while the monitor was still retrying. */
  datatype FetchOutcome = Fetched | GaveUp | StillRetrying

  /**
   * `fetchWorkflowRuns` as written, with the retry count it leaves: the
   * branch lookup and the `gh` command each reset the count when they
   * succeed, and a failed attempt is retried while the count is below
   * `MaxRetries`.
   */
  function FetchAsWritten(retry: nat, env: seq<Attempt>): (FetchOutcome, nat)
    decreases |env|
  {
    if env == [] then (StillRetrying, retry)
    else
      var a := env[0];
      var afterBranch := if a.branchOk then 0 else retry;
      var afterList := if a.listOk then 0 else afterBranch;
      if a.listOk && a.parseOk then (Fetched, afterList)
      else if afterList < MaxRetries then FetchAsWritten(afterList + 1, env[1..])
      else (GaveUp, afterList)
  }

  /** The count never goes past `MaxRetries`. */
  lemma {:induction false} FetchAsWrittenBounded(retry: nat, env: seq<Attempt>)
    requires retry <= MaxRetries
    ensures FetchAsWritten(retry, env).1 <= MaxRetries
    ensures FetchAsWritten(retry, env).0 == GaveUp ==> FetchAsWritten(retry, env).1 == MaxRetries
    decreases |env|
  {
    if env != [] {
      var a := env[0];
      var afterList := if a.listOk then 0 else if a.branchOk then 0 else retry;
      if !(a.listOk && a.parseOk) && afterList < MaxRetries {
        FetchAsWrittenBounded(afterList + 1, env[1..]);
      }
    }
  }

  /**
   * While `git` works, the branch lookup resets the count on every attempt,
   * so the monitor never gives up however many attempts fail.
   */
  lemma {:induction false} FetchNeverGivesUp(retry: nat, env: seq<Attempt>)
    requires forall i :: 0 <= i < |env| ==> env[i].branchOk
    ensures FetchAsWritten(retry, env).0 != GaveUp
    decreases |env|
  {
    if env != [] && !(env[0].listOk && env[0].parseOk) {
      FetchNeverGivesUp(1, env[1..]);
    }
  }

  /** Ten failing attempts in a row, with `git` working, leave the monitor still retrying. */
  lemma FetchRetriesPastLimit()
    ensures FetchAsWritten(0, seq(10, i => Attempt(true, false, false))).0 == StillRetrying
  {
    var env := seq(10, i => Attempt(true, false, false));
    FetchNeverGivesUp(0, env);
    FetchNotFetched(0, env);
  }

  lemma {:induction false} FetchNotFetched(retry: nat, env: seq<Attempt>)
    requires forall i :: 0 <= i < |env| ==> !env[i].listOk
    ensures FetchAsWritten(retry, env).0 != Fetched
    decreases |env|
  {
    if env != [] {
      var afterList := if env[0].branchOk then 0 else retry;
      if afterList < MaxRetries {
        FetchNotFetched(afterList + 1, env[1..]);
      }
    }
  }

  /**
   * The evident intent: the count counts failed attempts in a row and only
   * a completed fetch resets it.
   */
  function FetchCorrected(retry: nat, env: seq<Attempt>): (FetchOutcome, nat)
    decreases |env|
  {
    if env == [] then (StillRetrying, retry)
    else
      var a := env[0];
      if a.listOk && a.parseOk then (Fetched, 0)
      else if retry < MaxRetries then FetchCorrected(retry + 1, env[1..])
      else (GaveUp, retry)
  }

  /**
   * With the count at `retry`, the corrected fetch ends (fetched or given up)
   * within `MaxRetries - retry + 1` attempts and never goes past `MaxRetries`.
   */
  lemma {:induction false} FetchCorrectedEnds(retry: nat, env: seq<Attempt>)
    requires retry <= MaxRetries
    requires |env| > MaxRetries - retry
    ensures FetchCorrected(retry, env).0 != StillRetrying
    ensures FetchCorrected(retry, env).1 <= MaxRetries
    decreases |env|
  {
    var a := env[0];
    if !(a.listOk && a.parseOk) && retry < MaxRetries {
      FetchCorrectedEnds(retry + 1, env[1..]);
    }
  }

  /** Both versions agree when the first attempt completes the fetch. */
  lemma FetchAgreeOnSuccess(retry: nat, env: seq<Attempt>)
    requires env != [] && env[0].listOk && env[0].parseOk
    ensures FetchAsWritten(retry, env) == FetchCorrected(retry, env) == (Fetched, 0)
  {
  }

  /** The monitor object with the state its methods update. */
  class WorkflowMonitor {
    var retryCount: nat
    var isRunning: bool

    constructor()
      ensures retryCount == 0 && isRunning
    {
      retryCount := 0;
      isRunning := true;
    }

    /** `execCommand`: a command that succeeds resets the count and yields its trimmed output; one that fails throws. */
    method ExecCommand(succeeds: bool, output: string) returns (r: Option<string>)
      modifies this
      ensures r == (if succeeds then Some(Trim(output)) else None)
      ensures retryCount == (if succeeds then 0 else old(retryCount))
      ensures isRunning == old(isRunning)
    {
      if succeeds {
        retryCount := 0;
        r := Some(Trim(output));
      } else {
        r := None;
      }
    }

    /** `getCurrentBranch`: the output of `git branch --show-current`, or `main` when it fails. */
    method GetCurrentBranch(gitOk: bool, gitOutput: string) returns (branch: string)
      modifies this
      ensures branch == (if gitOk then Trim(gitOutput) else "main")
      ensures retryCount == (if gitOk then 0 else old(retryCount))
      ensures isRunning == old(isRunning)
    {
      var out := ExecCommand(gitOk, gitOutput);
      branch := if out.Some? then out.value else "main";
    }

    /** `fetchWorkflowRuns`, one attempt per element of `env` (the waits between attempts are left out). */
    method FetchWorkflowRuns(env: seq<Attempt>) returns (r: FetchOutcome)
      requires retryCount <= MaxRetries
      modifies this
      ensures (r, retryCount) == FetchAsWritten(old(retryCount), env)
      ensures retryCount <= MaxRetries
      ensures isRunning == old(isRunning)
      decreases |env|
    {
      FetchAsWrittenBounded(retryCount, env);
      if env == [] {
        return StillRetrying;
      }
      var a := env[0];
      var branch := GetCurrentBranch(a.branchOk, "");
      var output := ExecCommand(a.listOk, "");
      if output.Some? && a.parseOk {
        return Fetched;
      }
      if retryCount < MaxRetries {
        retryCount := retryCount + 1;
        r := FetchWorkflowRuns(env[1..]);
      } else {
        r := GaveUp;
      }
    }
  }
}
