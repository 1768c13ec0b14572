/**
 * `process_runs` (src/processor.py): each workflow run is merged with the
 * metrics read from its log, the PR number falls back to a `#123` in the
 * run's title, and the records are sorted by start time, most recent first.
 * Fetching a run's log is the parameter `fetch` (`None`: the fetch failed);
 * `json.loads` is `decode`.
 */
module Processor {
  import opened Wrappers
  import opened Text
  import opened Json
  import opened Patterns
  import opened MetricsExtractor
  import opened GithubClient

  /**
   * One result dictionary: the run's title, branch and conclusion, and the
   * metrics of its log, whose `prNumber` is the merged PR number.
   */
  datatype Record = Record(prName: string, branch: string, status: string, fields: Metrics)

  /**
   * The PR number kept for a run: the log's when it is truthy (present and
   * not 0); otherwise the digits after the first `#` followed by a digit in
   * the title; otherwise the log's falsy value as it was.
   */
  function PrNumberFor(logNumber: Option<nat>, title: string): Option<nat> {
    if logNumber.Some? && logNumber.value != 0 then logNumber
    else
      match Search(HashNumber, title, 0)
      case Some(m) => Some(DigitsValue(m.group))
      case None => logNumber
  }

  /** The record for one run, given the metrics of its log. */
  function RecordOf(run: Run, metrics: Metrics): Record {
    var title := match run.displayTitle case Some(t) => t case None => "N/A";
    Record(
      title,
      match run.headBranch case Some(b) => b case None => "N/A",
      match run.conclusion case Some(c) => c case None => "unknown",
      metrics.(prNumber := PrNumberFor(metrics.prNumber, title)))
  }

  /** `str(run["databaseId"])`. */
  function RunIdOf(run: Run): string {
    IntToString(run.databaseId)
  }

  /** The metrics `extract_metrics_from_log` reads for a run. */
  function RunMetrics(run: Run, fetch: string -> Option<string>, decode: string -> Option<Value>): Metrics {
    MetricsOf(RunIdOf(run), fetch(RunIdOf(run)), decode)
  }

  function LogMetrics(fetch: string -> Option<string>, decode: string -> Option<Value>): Run -> Metrics {
    run => RunMetrics(run, fetch, decode)
  }

  /** The records of the runs, in the order of the runs, before sorting. */
  function Merged(runs: seq<Run>, metrics: Run -> Metrics): (rs: seq<Record>)
    ensures |rs| == |runs|
    decreases |runs|
  {
    if runs == [] then []
    else
      var last := runs[|runs| - 1];
      Merged(runs[..|runs| - 1], metrics) + [RecordOf(last, metrics(last))]
  }

  // ---- the sort ----

  /** The sort key `x.get("start_time", "") or ""`. */
  function Key(r: Record): string {
    match r.fields.startTime
    case Some(t) => t
    case None => ""
  }

  /** Most recent first: every key is at least every later one. */
  predicate SortedDesc(s: seq<Record>) {
    forall i, j :: 0 <= i < j < |s| ==> LexLe(Key(s[j]), Key(s[i]))
  }

  /** Puts `r` before the first record whose key is not greater than its own. */
  function InsertDesc(r: Record, t: seq<Record>): (out: seq<Record>)
    ensures |out| == |t| + 1
    decreases |t|
  {
    if t == [] then [r]
    else if LexLe(Key(t[0]), Key(r)) then [r] + t
    else [t[0]] + InsertDesc(r, t[1..])
  }

  /**
   * `list.sort(key=..., reverse=True)`: descending by key and stable, so
   * records with equal keys keep their order.
   */
  function SortByStartDesc(s: seq<Record>): (out: seq<Record>)
    ensures |out| == |s|
    decreases |s|
  {
    if s == [] then [] else InsertDesc(s[0], SortByStartDesc(s[1..]))
  }

  /** The records of `s` whose key is `k`, in their order. */
  function WithKey(s: seq<Record>, k: string): seq<Record>
    decreases |s|
  {
    if s == [] then [] else (if Key(s[0]) == k then [s[0]] else []) + WithKey(s[1..], k)
  }

  lemma {:induction false} InsertDescMembers(r: Record, t: seq<Record>)
    ensures multiset(InsertDesc(r, t)) == multiset(t) + multiset{r}
    decreases |t|
  {
    if t != [] && !LexLe(Key(t[0]), Key(r)) {
      InsertDescMembers(r, t[1..]);
      assert t == [t[0]] + t[1..];
    }
  }

  /** No key in `s` is greater than `bound`. */
  predicate AllAtMost(s: seq<Record>, bound: string) {
    forall j :: 0 <= j < |s| ==> LexLe(Key(s[j]), bound)
  }

  /** A record in front of a sorted sequence whose keys do not exceed its own keeps it sorted. */
  lemma SortedCons(x: Record, rest: seq<Record>)
    requires SortedDesc(rest) && AllAtMost(rest, Key(x))
    ensures SortedDesc([x] + rest)
  {
    var s := [x] + rest;
    forall i, j | 0 <= i < j < |s| ensures LexLe(Key(s[j]), Key(s[i])) {
      assert s[j] == rest[j - 1];
      if i > 0 { assert s[i] == rest[i - 1]; }
    }
  }

  lemma SortedTail(s: seq<Record>)
    requires s != [] && SortedDesc(s)
    ensures SortedDesc(s[1..]) && AllAtMost(s[1..], Key(s[0]))
  {
    var rest := s[1..];
    forall i, j | 0 <= i < j < |rest| ensures LexLe(Key(rest[j]), Key(rest[i])) {
      assert rest[i] == s[i + 1] && rest[j] == s[j + 1];
    }
    forall j | 0 <= j < |rest| ensures LexLe(Key(rest[j]), Key(s[0])) {
      assert rest[j] == s[j + 1];
    }
  }

  lemma {:induction false} InsertDescAtMost(r: Record, t: seq<Record>, bound: string)
    requires AllAtMost(t, bound) && LexLe(Key(r), bound)
    ensures AllAtMost(InsertDesc(r, t), bound)
    decreases |t|
  {
    var out := InsertDesc(r, t);
    if t != [] {
      if LexLe(Key(t[0]), Key(r)) {
        forall j | 0 <= j < |out| ensures LexLe(Key(out[j]), bound) {
          if j > 0 { assert out[j] == t[j - 1]; }
        }
      } else {
        var rest := t[1..];
        assert AllAtMost(rest, bound) by {
          forall j | 0 <= j < |rest| ensures LexLe(Key(rest[j]), bound) { assert rest[j] == t[j + 1]; }
        }
        InsertDescAtMost(r, rest, bound);
        var ins := InsertDesc(r, rest);
        forall j | 0 <= j < |out| ensures LexLe(Key(out[j]), bound) {
          if j > 0 { assert out[j] == ins[j - 1]; }
        }
      }
    }
  }

  lemma {:induction false} InsertDescSorted(r: Record, t: seq<Record>)
    requires SortedDesc(t)
    ensures SortedDesc(InsertDesc(r, t))
    decreases |t|
  {
    if t == [] {
    } else if LexLe(Key(t[0]), Key(r)) {
      forall j | 0 <= j < |t| ensures LexLe(Key(t[j]), Key(r)) {
        if j > 0 { LexLeTrans(Key(t[j]), Key(t[0]), Key(r)); }
      }
      SortedCons(r, t);
    } else {
      var rest := t[1..];
      SortedTail(t);
      InsertDescSorted(r, rest);
      LexLeTotal(Key(t[0]), Key(r));
      InsertDescAtMost(r, rest, Key(t[0]));
      SortedCons(t[0], InsertDesc(r, rest));
    }
  }

  lemma {:induction false} InsertDescWithKey(r: Record, t: seq<Record>, k: string)
    ensures WithKey(InsertDesc(r, t), k) == WithKey([r] + t, k)
    decreases |t|
  {
    if t != [] && !LexLe(Key(t[0]), Key(r)) {
      InsertDescWithKey(r, t[1..], k);
      LexLeRefl(Key(r));
      assert Key(t[0]) != Key(r);
      var out := InsertDesc(r, t);
      assert out[1..] == InsertDesc(r, t[1..]);
      assert ([r] + t)[1..] == t;
      assert ([r] + t[1..])[1..] == t[1..];
      assert ([t[0]] + t[1..]) == t;
    } else {
      assert ([r] + t)[1..] == t;
    }
  }

  /** The sort puts the most recent start time first: every record's key is at least that of every later one. */
  lemma {:induction false} SortIsSorted(s: seq<Record>)
    ensures SortedDesc(SortByStartDesc(s))
    decreases |s|
  {
    if s != [] {
      SortIsSorted(s[1..]);
      InsertDescSorted(s[0], SortByStartDesc(s[1..]));
    }
  }

  /** The sort neither loses, duplicates nor invents a record. */
  lemma {:induction false} SortIsPermutation(s: seq<Record>)
    ensures multiset(SortByStartDesc(s)) == multiset(s)
    decreases |s|
  {
    if s != [] {
      SortIsPermutation(s[1..]);
      InsertDescMembers(s[0], SortByStartDesc(s[1..]));
      assert s == [s[0]] + s[1..];
    }
  }

  /** The sort is stable: the records sharing a start time come out in the order they went in. */
  lemma {:induction false} SortIsStable(s: seq<Record>, k: string)
    ensures WithKey(SortByStartDesc(s), k) == WithKey(s, k)
    decreases |s|
  {
    if s != [] {
      var rest := SortByStartDesc(s[1..]);
      SortIsStable(s[1..], k);
      InsertDescWithKey(s[0], rest, k);
      assert ([s[0]] + rest)[1..] == rest;
    }
  }

  // ---- process_runs ----

  /**
   * `process_runs`: reads the metrics of each run's log in turn, merges them
   * with the run, and returns the records sorted by start time, most recent
   * first.
   */
  method ProcessRuns(runs: seq<Run>, fetch: string -> Option<string>, decode: string -> Option<Value>)
    returns (results: seq<Record>)
    ensures results == SortByStartDesc(Merged(runs, LogMetrics(fetch, decode)))
  {
    results := [];
    var i := 0;
    while i < |runs|
      invariant i <= |runs|
      invariant results == Merged(runs[..i], LogMetrics(fetch, decode))
    {
      var run := runs[i];
      var runId := IntToString(run.databaseId);
      var metrics := ExtractMetricsFromLog(runId, fetch(runId), decode);
      assert metrics == RunMetrics(run, fetch, decode);
      assert runs[..i + 1][..i] == runs[..i];
      assert Merged(runs[..i + 1], LogMetrics(fetch, decode)) == results + [RecordOf(run, metrics)];
      results := results + [RecordOf(run, metrics)];
      i := i + 1;
    }
    assert runs[..i] == runs;
    results := SortByStartDesc(results);
  }

  // ---- properties of the merge ----

  /** Every record carries its run's id as text, whatever the log held. */
  lemma RecordRunId(runs: seq<Run>, fetch: string -> Option<string>, decode: string -> Option<Value>, i: nat)
    requires i < |runs|
    ensures Merged(runs, LogMetrics(fetch, decode))[i].fields.runId == RunIdOf(runs[i])
  {
    MergedAt(runs, LogMetrics(fetch, decode), i);
    var id := RunIdOf(runs[i]);
    RunIdKept(id, fetch(id), decode);
  }

  /** The `i`th merged record is made from the `i`th run and its metrics. */
  lemma {:induction false} MergedAt(runs: seq<Run>, metrics: Run -> Metrics, i: nat)
    requires i < |runs|
    ensures Merged(runs, metrics)[i] == RecordOf(runs[i], metrics(runs[i]))
    decreases |runs|
  {
    if i < |runs| - 1 {
      MergedAt(runs[..|runs| - 1], metrics, i);
    }
  }

  /**
   * A record keeps every metric of its log except the PR number; a missing
   * title or branch is `"N/A"` and a missing conclusion is `"unknown"`.
   */
  lemma RecordOfFields(run: Run, metrics: Metrics)
    ensures var r := RecordOf(run, metrics);
      && r.fields.(prNumber := metrics.prNumber) == metrics
      && (run.displayTitle.None? ==> r.prName == "N/A")
      && (run.displayTitle.Some? ==> r.prName == run.displayTitle.value)
      && (run.headBranch.None? ==> r.branch == "N/A")
      && (run.conclusion.None? ==> r.status == "unknown")
      && r.fields.prNumber == PrNumberFor(metrics.prNumber, r.prName)
  {
  }

  /** A truthy PR number from the log is kept, whatever the title says. */
  lemma LogNumberWins(n: nat, title: string)
    requires n != 0
    ensures PrNumberFor(Some(n), title) == Some(n)
  {
  }

  /** Without a truthy log number, `#` and digits in the title give the PR number. */
  lemma {:induction false} TitleNumberRoundTrip(logNumber: Option<nat>, prefix: string, n: nat, rest: string)
    requires logNumber.None? || logNumber == Some(0)
    requires '#' !in prefix
    requires rest == [] || !IsDigit(rest[0])
    ensures PrNumberFor(logNumber, prefix + "#" + DecimalString(n) + rest) == Some(n)
  {
    var digits := DecimalString(n);
    var title := prefix + "#" + digits + rest;
    var p := |prefix|;
    forall q | 0 <= q < p ensures MatchAt(HashNumber, title, q).None? {
      assert title[q] == prefix[q];
    }
    assert title[p] == '#';
    assert forall k :: 0 <= k < |digits| ==> title[p + 1 + k] == digits[k];
    var d := RunEnd(title, p + 1, Digit);
    assert d == p + 1 + |digits| by {
      assert forall k :: p + 1 <= k < p + 1 + |digits| ==> InClass(title[k], Digit);
      assert p + 1 + |digits| < |title| ==> title[p + 1 + |digits|] == rest[0];
    }
    assert title[p + 1..d] == digits;
    assert MatchAt(HashNumber, title, p) == Some(Match(p, d, digits));
  }

  /** A title without `#` leaves the log's falsy number as it was. */
  lemma NoHashKeepsLogNumber(logNumber: Option<nat>, title: string)
    requires logNumber.None? || logNumber == Some(0)
    requires '#' !in title
    ensures PrNumberFor(logNumber, title) == logNumber
  {
    forall q | 0 <= q ensures MatchAt(HashNumber, title, q).None? {
      if q < |title| { assert title[q] != '#'; }
    }
  }
}
