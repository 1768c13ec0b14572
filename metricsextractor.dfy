/**
 * Scanning one run's log for metrics (src/metrics_extractor.py): the PR
 * fields from labelled lines, the model from the last `"model": "..."`,
 * the cost, duration, turns and error flag from the first result object,
 * and the first and last timestamps. Fetching the log is not modelled: the
 * log text is an input, and `None` stands for a failed fetch.
 */
module MetricsExtractor {
  import opened Wrappers
  import opened Text
  import opened Json
  import opened Patterns
  import opened LogParser

  /** The metrics dictionary of one run; JSON-valued fields keep the decoded value as it is. */
  datatype Metrics = Metrics(
    runId: string,
    model: Option<string>,
    totalCostUsd: Value,
    durationMs: Value,
    numTurns: Value,
    startTime: Option<string>,
    endTime: Option<string>,
    isError: Value,
    prNumber: Option<nat>,
    prAuthor: Option<string>,
    totalCommits: Option<nat>,
    changedFiles: Option<nat>)

  /** The dictionary before anything is found: every metric is `None`. */
  function Initial(runId: string): (m: Metrics)
    ensures m.runId == runId
    ensures m.model.None? && m.startTime.None? && m.endTime.None?
    ensures m.prNumber.None? && m.prAuthor.None? && m.totalCommits.None? && m.changedFiles.None?
    ensures m.totalCostUsd.Null? && m.durationMs.Null? && m.numTurns.Null? && m.isError.Null?
  {
    Metrics(runId, None, Null, Null, Null, None, None, Null, None, None, None, None)
  }

  // ---- the labelled fields ----

  /** `int(re.search(pat, text).group(1))` for a pattern whose group is `\d+`, `None` without a match. */
  function DigitsOf(pat: Pattern, text: string): (r: Option<nat>)
    requires Numeric(pat)
    ensures r.None? <==> forall q :: MatchAt(pat, text, q).None?
    ensures r.Some? ==> var m := Search(pat, text, 0).value;
      MatchAt(pat, text, m.start).Some? && r.value == DigitsValue(m.group)
  {
    match Search(pat, text, 0)
    case None => None
    case Some(m) => Some(DigitsValue(m.group))
  }

  /** `re.search(r"PR Author:...", text).group(1).strip()`. */
  function AuthorOf(text: string): (r: Option<string>)
    ensures r.None? <==> forall q :: MatchAt(PrAuthor, text, q).None?
    ensures r.Some? ==> r.value == Strip(Search(PrAuthor, text, 0).value.group)
  {
    match Search(PrAuthor, text, 0)
    case None => None
    case Some(m) => Some(Strip(m.group))
  }

  /**
   * The group of the last `"model"` match `re.finditer` yields: the chain of
   * searches, each resumed at the end of the previous match, stops at it.
   * It is a match after whose end no other starts; a match that overlaps an
   * earlier one is never reached.
   */
  function ModelOf(text: string): (r: Option<string>)
    ensures r.None? <==> forall q :: MatchAt(ModelField, text, q).None?
    ensures r.Some? ==> var ms := FindAll(ModelField, text, 0);
      ms != [] && Search(ModelField, text, ms[|ms| - 1].end).None? && r.value == ms[|ms| - 1].group
    ensures r.Some? ==> exists p :: LastMatchAt(ModelField, text, p) && MatchAt(ModelField, text, p).value.group == r.value
  {
    var ms := FindAll(ModelField, text, 0);
    if ms == [] then None
    else
      var last := ms[|ms| - 1];
      FindAllLast(ModelField, text, 0);
      assert LastMatchAt(ModelField, text, last.start);
      Some(last.group)
  }

  /** A match of `pat` at `p` after whose end no match starts. */
  ghost predicate LastMatchAt(pat: Pattern, text: string, p: nat) {
    MatchAt(pat, text, p).Some? && forall q :: MatchAt(pat, text, p).value.end <= q ==> MatchAt(pat, text, q).None?
  }

  /**
   * The first and last of `re.findall` over the timestamp pattern: the first
   * is the leftmost timestamp, the last one no timestamp follows, and the
   * first does not start after the last.
   */
  function TimestampSpan(text: string): (r: Option<(Match, Match)>)
    ensures r.None? <==> forall q :: MatchAt(Timestamp, text, q).None?
    ensures r.Some? ==> MatchAt(Timestamp, text, r.value.0.start) == Some(r.value.0)
    ensures r.Some? ==> forall q: nat :: q < r.value.0.start ==> MatchAt(Timestamp, text, q).None?
    ensures r.Some? ==> LastMatchAt(Timestamp, text, r.value.1.start) && MatchAt(Timestamp, text, r.value.1.start) == Some(r.value.1)
    ensures r.Some? ==> r.value.0.start <= r.value.1.start
  {
    var ms := FindAll(Timestamp, text, 0);
    if ms == [] then None
    else
      FindAllEnds(Timestamp, text, 0);
      Some((ms[0], ms[|ms| - 1]))
  }

  // ---- the result object ----

  /** A line that mentions both `"type"` and `"result"`. */
  predicate IsCandidate(line: string) {
    Contains(line, "\"type\"") && Contains(line, "\"result\"")
  }

  /** The earliest line in `[from, i)` holding a `{`, or `i` when there is none. */
  function FirstBraceLine(lines: seq<string>, from: nat, i: nat): (j: nat)
    requires from <= i <= |lines|
    ensures from <= j <= i
    ensures j < i ==> '{' in lines[j]
    ensures forall k :: from <= k < j ==> '{' !in lines[k]
    decreases i - from
  {
    if from == i then i
    else if '{' in lines[from] then from
    else FirstBraceLine(lines, from + 1, i)
  }

  /**
   * Where the object of candidate line `i` is taken to begin: the earliest
   * of the three lines before it that holds a `{`, else the line itself.
   */
  function LookbackStart(lines: seq<string>, i: nat): (j: nat)
    requires i <= |lines|
    ensures (if i >= 3 then i - 3 else 0) <= j <= i
  {
    FirstBraceLine(lines, if i >= 3 then i - 3 else 0, i)
  }

  /** The result object that line `i` yields, if it is a candidate and the reassembled object has `"type": "result"`. */
  function ResultAt(lines: seq<string>, i: nat, decode: string -> Option<Value>): (r: Option<map<string, Value>>)
    requires i < |lines|
    ensures r.Some? ==> r.value != map[] && Get(r.value, "type") == Str("result")
  {
    if !IsCandidate(lines[i]) then None
    else
      match Reassemble(lines, LookbackStart(lines, i), decode)
      case Some(Object(f)) => if Truthy(Object(f)) && Get(f, "type") == Str("result") then Some(f) else None
      case _ => None
  }

  /**
   * Line `i` yields a result object exactly when it is a candidate and the
   * object reassembled from its lookback start is non-empty and has
   * `"type": "result"`; that object is the one it yields.
   */
  lemma ResultAtExactly(lines: seq<string>, i: nat, decode: string -> Option<Value>)
    requires i < |lines|
    ensures var r := ResultAt(lines, i, decode);
      r.Some? ==> IsCandidate(lines[i]) && Reassemble(lines, LookbackStart(lines, i), decode) == Some(Object(r.value))
    ensures IsCandidate(lines[i]) ==> var o := Reassemble(lines, LookbackStart(lines, i), decode);
      o.Some? && o.value.Object? && Truthy(o.value) && Get(o.value.fields, "type") == Str("result")
      ==> ResultAt(lines, i, decode) == Some(o.value.fields)
  {
  }

  /** The first line from `from` on that yields a result object. */
  function ResultLine(lines: seq<string>, from: nat, decode: string -> Option<Value>): (r: Option<nat>)
    ensures r.Some? ==> from <= r.value < |lines| && ResultAt(lines, r.value, decode).Some?
    decreases |lines| - from
  {
    if from >= |lines| then None
    else if ResultAt(lines, from, decode).Some? then Some(from)
    else ResultLine(lines, from + 1, decode)
  }

  /** Line `k` yields nothing when it lies before the line `ResultLine` finds, or when it finds none. */
  lemma {:induction false} ResultLineBefore(lines: seq<string>, from: nat, decode: string -> Option<Value>, k: nat)
    requires var r := ResultLine(lines, from, decode);
      from <= k < (if r.Some? then r.value else |lines|)
    ensures ResultAt(lines, k, decode).None?
    decreases k - from
  {
    var here := ResultAt(lines, from, decode);
    assert ResultLine(lines, from, decode) == (if here.Some? then Some(from) else ResultLine(lines, from + 1, decode));
    if from < k {
      assert ResultLine(lines, from, decode) == ResultLine(lines, from + 1, decode);
      ResultLineBefore(lines, from + 1, decode, k);
    }
  }

  /** No line before the one `ResultLine` finds yields a result object, and none at all when it finds none. */
  lemma ResultLineFirst(lines: seq<string>, from: nat, decode: string -> Option<Value>)
    ensures var r := ResultLine(lines, from, decode);
      forall k :: from <= k < (if r.Some? then r.value else |lines|) ==> ResultAt(lines, k, decode).None?
  {
    var r := ResultLine(lines, from, decode);
    forall k | from <= k < (if r.Some? then r.value else |lines|)
      ensures ResultAt(lines, k, decode).None?
    {
      ResultLineBefore(lines, from, decode, k);
    }
  }

  /** The fields copied from a result object; `is_error` defaults to `False`. */
  function WithResult(m: Metrics, f: map<string, Value>): Metrics {
    m.(totalCostUsd := Get(f, "total_cost_usd"), durationMs := Get(f, "duration_ms"),
       numTurns := Get(f, "num_turns"), isError := GetOr(f, "is_error", Bool(false)))
  }

  /** A field assignment made only when its pattern matched: `found` if present, else `current`. */
  function Overwrite<T>(found: Option<T>, current: Option<T>): Option<T> {
    if found.Some? then found else current
  }

  /** The fields found by the labelled patterns and the model pattern; a field without a match keeps its value. */
  function WithLabels(m: Metrics, text: string): Metrics {
    m.(prNumber := Overwrite(DigitsOf(PrNumber, text), m.prNumber),
       prAuthor := Overwrite(AuthorOf(text), m.prAuthor),
       totalCommits := Overwrite(DigitsOf(TotalCommits, text), m.totalCommits),
       changedFiles := Overwrite(DigitsOf(ChangedFiles, text), m.changedFiles),
       model := Overwrite(ModelOf(text), m.model))
  }

  /** The fields found by the timestamp pattern. */
  function WithTimestamps(m: Metrics, text: string): Metrics {
    match TimestampSpan(text)
    case None => m
    case Some((first, last)) => m.(startTime := Some(first.group), endTime := Some(last.group))
  }

  /** What `extract_metrics_from_log` returns for the log `log` (`None`: the fetch failed). */
  function MetricsOf(runId: string, log: Option<string>, decode: string -> Option<Value>): Metrics {
    match log
    case None => Initial(runId)
    case Some(text) =>
      var lines := Split(text, "\n");
      var labelled := WithLabels(Initial(runId), text);
      var scanned := match ResultLine(lines, 0, decode)
        case None => labelled
        case Some(k) => WithResult(labelled, ResultAt(lines, k, decode).value);
      WithTimestamps(scanned, text)
  }

  /** The labelled fields and the model, each set when its pattern matches. */
  method ExtractLabels(initial: Metrics, logOutput: string) returns (result: Metrics)
    ensures result == WithLabels(initial, logOutput)
  {
    result := initial;
    var prMatch := Search(PrNumber, logOutput, 0);
    if prMatch.Some? {
      result := result.(prNumber := Some(DigitsValue(prMatch.value.group)));
    }
    var prAuthorMatch := Search(PrAuthor, logOutput, 0);
    if prAuthorMatch.Some? {
      result := result.(prAuthor := Some(Strip(prAuthorMatch.value.group)));
    }
    var totalCommitsMatch := Search(TotalCommits, logOutput, 0);
    if totalCommitsMatch.Some? {
      result := result.(totalCommits := Some(DigitsValue(totalCommitsMatch.value.group)));
    }
    var changedFilesMatch := Search(ChangedFiles, logOutput, 0);
    if changedFilesMatch.Some? {
      result := result.(changedFiles := Some(DigitsValue(changedFilesMatch.value.group)));
    }
    var modelMatches := FindAll(ModelField, logOutput, 0);
    if modelMatches != [] {
      result := result.(model := Some(modelMatches[|modelMatches| - 1].group));
    }
  }

  /** The first and last timestamp, set when there is any. */
  method ExtractTimestamps(scanned: Metrics, logOutput: string) returns (result: Metrics)
    ensures result == WithTimestamps(scanned, logOutput)
  {
    result := scanned;
    var timestamps := FindAll(Timestamp, logOutput, 0);
    if timestamps != [] {
      result := result.(startTime := Some(timestamps[0].group));
      result := result.(endTime := Some(timestamps[|timestamps| - 1].group));
    }
  }

  /** The inner loop: the first of the (up to) three lines before `i` that holds a `{`, else `i`. */
  method FindStartLine(logLines: seq<string>, i: nat) returns (startIdx: nat)
    requires i <= |logLines|
    ensures startIdx == LookbackStart(logLines, i)
  {
    startIdx := i;
    var j := if i >= 3 then i - 3 else 0;
    while j < i
      invariant j <= i
      invariant FirstBraceLine(logLines, j, i) == LookbackStart(logLines, i)
    {
      if '{' in logLines[j] {
        startIdx := j;
        break;
      }
      j := j + 1;
    }
  }

  /** A line that yields no result object leaves the first result line to the lines after it. */
  lemma ResultLineSkip(lines: seq<string>, i: nat, decode: string -> Option<Value>)
    requires i < |lines| && ResultAt(lines, i, decode).None?
    ensures ResultLine(lines, i, decode) == ResultLine(lines, i + 1, decode)
  {
  }

  /**
   * The outer loop: copies the fields of the first result object into
   * `labelled`, or returns it unchanged when no line yields one.
   */
  method ScanForResult(logLines: seq<string>, decode: string -> Option<Value>, labelled: Metrics)
    returns (result: Metrics)
    ensures result == match ResultLine(logLines, 0, decode)
      case None => labelled
      case Some(k) => WithResult(labelled, ResultAt(logLines, k, decode).value)
  {
    result := labelled;
    var i := 0;
    while i < |logLines|
      invariant i <= |logLines|
      invariant ResultLine(logLines, 0, decode) == ResultLine(logLines, i, decode)
      invariant result == labelled
    {
      var line := logLines[i];
      if Contains(line, "\"type\"") && Contains(line, "\"result\"") {
        var startIdx := FindStartLine(logLines, i);
        var jsonObj := ExtractJsonFromMultilineLog(logLines, startIdx, decode);
        ResultAtExactly(logLines, i, decode);
        if jsonObj.Some? && jsonObj.value.Object? && Truthy(jsonObj.value) && Get(jsonObj.value.fields, "type") == Str("result") {
          var f := jsonObj.value.fields;
          assert ResultAt(logLines, i, decode) == Some(f);
          assert ResultLine(logLines, i, decode) == Some(i);
          result := result.(totalCostUsd := Get(f, "total_cost_usd"));
          result := result.(durationMs := Get(f, "duration_ms"));
          result := result.(numTurns := Get(f, "num_turns"));
          result := result.(isError := GetOr(f, "is_error", Bool(false)));
          return;
        }
        assert ResultAt(logLines, i, decode).None?;
      }
      ResultLineSkip(logLines, i, decode);
      i := i + 1;
    }
  }

  /**
   * `extract_metrics_from_log`, after the fetch: fills the dictionary field
   * by field, scanning the lines for the first result object with a
   * three-line lookback for its opening line.
   */
  method ExtractMetricsFromLog(runId: string, log: Option<string>, decode: string -> Option<Value>)
    returns (result: Metrics)
    ensures result == MetricsOf(runId, log, decode)
  {
    result := Initial(runId);
    if log.None? {
      return;
    }
    var logOutput := log.value;
    var logLines := Split(logOutput, "\n");

    result := ExtractLabels(result, logOutput);

    result := ScanForResult(logLines, decode, result);

    result := ExtractTimestamps(result, logOutput);
  }

  // ---- properties ----

  /** A failed fetch leaves every metric `None` and keeps the run id. */
  lemma FetchFailureGivesEmpty(runId: string, decode: string -> Option<Value>)
    ensures MetricsOf(runId, None, decode) == Initial(runId)
  {
  }

  /** The run id is always the one asked for. */
  lemma RunIdKept(runId: string, log: Option<string>, decode: string -> Option<Value>)
    ensures MetricsOf(runId, log, decode).runId == runId
  {
  }

  /**
   * Without a result object the four result fields stay `None`; with one,
   * they are its entries, and `is_error` is `False` when it has none.
   */
  lemma ResultFields(runId: string, text: string, decode: string -> Option<Value>)
    ensures var m := MetricsOf(runId, Some(text), decode);
      var lines := Split(text, "\n");
      match ResultLine(lines, 0, decode)
      case None => m.totalCostUsd.Null? && m.durationMs.Null? && m.numTurns.Null? && m.isError.Null?
      case Some(k) =>
        var f := ResultAt(lines, k, decode).value;
        && m.totalCostUsd == Get(f, "total_cost_usd")
        && m.durationMs == Get(f, "duration_ms")
        && m.numTurns == Get(f, "num_turns")
        && m.isError == (if "is_error" in f then f["is_error"] else Bool(false))
  {
  }

  /** Timestamps: both ends are present or neither, and the end is the start when there is one timestamp only. */
  lemma TimestampsBothOrNeither(runId: string, text: string, decode: string -> Option<Value>)
    ensures var m := MetricsOf(runId, Some(text), decode);
      && (m.startTime.Some? <==> m.endTime.Some?)
      && (m.startTime.None? <==> forall q :: MatchAt(Timestamp, text, q).None?)
  {
  }

  /** A number written after its label and one space is matched there, up to its last digit. */
  lemma {:induction false} LabelledDigitsWritten(tag: string, written: string, digits: string, rest: string)
    requires tag != [] && written == tag + " " && digits != [] && AllDigits(digits)
    requires rest == [] || !IsDigit(rest[0])
    ensures LabelledDigits(written + digits + rest, 0, tag) == Some(Match(0, |tag| + 1 + |digits|, digits))
  {
    var s := written + digits + rest;
    var w := |written|;
    var d := w + |digits|;
    assert LiteralAt(s, 0, tag) by {
      assert s[..|tag|] == tag;
    }
    assert RunEnd(s, |tag|, Space) == w by {
      assert s[|tag|] == ' ' && s[w] == digits[0];
      RunEndExact(s, |tag|, w, Space);
    }
    assert s[w..] == digits + rest;
    DigitRunAt(s, w, digits, rest);
    assert s[w..d] == digits;
    LabelledDigitsAt(s, tag, w, d);
  }

  /** A digit string written at `w` and followed by a non-digit is the digit run there. */
  lemma DigitRunAt(s: string, w: nat, digits: string, rest: string)
    requires w <= |s| && s[w..] == digits + rest && AllDigits(digits) && (rest == [] || !IsDigit(rest[0]))
    ensures RunEnd(s, w, Digit) == w + |digits|
  {
    forall k | w <= k < w + |digits| ensures InClass(s[k], Digit) {
      assert s[k] == s[w..][k - w] == digits[k - w];
    }
    if rest == [] {
      RunEndToEnd(s, w, Digit);
    } else {
      assert s[w + |digits|] == s[w..][|digits|] == rest[0];
      RunEndExact(s, w, w + |digits|, Digit);
    }
  }

  /** The labelled digits at the front of `s` are the digit run after the label's whitespace. */
  lemma LabelledDigitsAt(s: string, tag: string, w: nat, d: nat)
    requires tag != [] && LiteralAt(s, 0, tag)
    requires w <= |s| && RunEnd(s, |tag|, Space) == w && RunEnd(s, w, Digit) == d && w < d
    ensures LabelledDigits(s, 0, tag) == Some(Match(0, d, s[w..d]))
  {
  }

  /** A number written after its label is read back, whatever follows when it is not a digit. */
  lemma PrNumberRoundTrip(n: nat, rest: string)
    requires rest == [] || !IsDigit(rest[0])
    ensures DigitsOf(PrNumber, "PR NUMBER: " + DecimalString(n) + rest) == Some(n)
  {
    var s := "PR NUMBER: " + DecimalString(n) + rest;
    LabelledDigitsWritten("PR NUMBER:", "PR NUMBER: ", DecimalString(n), rest);
    assert MatchAt(PrNumber, s, 0) == Some(Match(0, 11 + |DecimalString(n)|, DecimalString(n)));
    assert Search(PrNumber, s, 0) == MatchAt(PrNumber, s, 0);
  }

  /** A commit count written after its label is read back, whatever follows when it is not a digit. */
  lemma TotalCommitsRoundTrip(n: nat, rest: string)
    requires rest == [] || !IsDigit(rest[0])
    ensures DigitsOf(TotalCommits, "Total Commits: " + DecimalString(n) + rest) == Some(n)
  {
    var s := "Total Commits: " + DecimalString(n) + rest;
    LabelledDigitsWritten("Total Commits:", "Total Commits: ", DecimalString(n), rest);
    assert MatchAt(TotalCommits, s, 0) == Some(Match(0, 15 + |DecimalString(n)|, DecimalString(n)));
    assert Search(TotalCommits, s, 0) == MatchAt(TotalCommits, s, 0);
  }

  /** A file count written as `Changed Files: n files` is read back, whatever follows. */
  lemma ChangedFilesRoundTrip(n: nat, rest: string)
    ensures DigitsOf(ChangedFiles, "Changed Files: " + DecimalString(n) + " files" + rest) == Some(n)
  {
    var digits := DecimalString(n);
    assert "Changed Files: " + digits + " files" + rest == "Changed Files: " + digits + (" files" + rest);
    ChangedFilesWritten(digits, rest);
  }

  /** The search for a file count finds `Changed Files: digits files` at the front, with the digits its group. */
  lemma {:induction false} ChangedFilesWritten(digits: string, rest: string)
    requires digits != [] && AllDigits(digits)
    ensures var s := "Changed Files: " + digits + (" files" + rest);
      Search(ChangedFiles, s, 0).Some? && Search(ChangedFiles, s, 0).value.group == digits
  {
    var tag := "Changed Files:";
    var after := " files" + rest;
    var s := "Changed Files: " + digits + after;
    LabelledDigitsWritten(tag, "Changed Files: ", digits, after);
    var d := |tag| + 1 + |digits|;
    assert s[d..] == after;
    UnitAfterCount(s, d, rest);
    ChangedFilesShape(s, 0);
    assert MatchAt(ChangedFiles, s, 0) == ChangedFilesAt(s, 0);
  }

  /** ` files` written at `d`: one space, then the unit. */
  lemma UnitAfterCount(s: string, d: nat, rest: string)
    requires d <= |s| && s[d..] == " files" + rest
    ensures RunEnd(s, d, Space) == d + 1 && LiteralAt(s, d + 1, "file")
  {
    var after := " files" + rest;
    assert s[d] == after[0] && s[d + 1] == after[1];
    RunEndExact(s, d, d + 1, Space);
    assert s[d + 1..d + 5] == after[1..5] == "file";
  }

  /** Without a `file` anywhere, as when the count is not followed by one, no file count is read. */
  lemma ChangedFilesNeedUnit(text: string)
    requires 'f' !in text
    ensures DigitsOf(ChangedFiles, text).None?
  {
    forall q ensures MatchAt(ChangedFiles, text, q).None? {
      ChangedFilesShape(text, q);
      var md := LabelledDigits(text, q, "Changed Files:");
      if md.Some? {
        LiteralNeedsHead(text, RunEnd(text, md.value.end, Space), "file");
      }
    }
  }

  /** A count after `Changed Files:` with no `file` in what follows is not a file count. */
  lemma ChangedFilesWithoutUnit(n: nat, rest: string)
    requires 'f' !in rest
    ensures DigitsOf(ChangedFiles, "Changed Files: " + DecimalString(n) + rest).None?
  {
    var s := "Changed Files: " + DecimalString(n) + rest;
    forall k | 0 <= k < |s| ensures s[k] != 'f' {
      if k >= |s| - |rest| {
        assert s[k] == rest[k - (|s| - |rest|)];
      } else if k >= 15 {
        assert IsDigit(DecimalString(n)[k - 15]);
      }
    }
    ChangedFilesNeedUnit(s);
  }

  /** An author name on its own line after the label is read back as it is written. */
  lemma {:induction false} AuthorRoundTrip(name: string, rest: string)
    requires name != [] && !IsSpace(name[0]) && !IsSpace(name[|name| - 1]) && '\n' !in name
    ensures AuthorOf("PR Author: " + name + "\n" + rest) == Some(name)
  {
    var tag := "PR Author:";
    var s := "PR Author: " + name + "\n" + rest;
    var w := |tag| + 1;
    assert LiteralAt(s, 0, tag) by {
      assert s[..|tag|] == tag;
    }
    assert RunEnd(s, |tag|, Space) == w by {
      assert s[|tag|] == ' ' && s[w] == name[0];
      RunEndExact(s, |tag|, w, Space);
    }
    assert s[w..] == name + "\n" + rest;
    LineRunAt(s, w, name, rest);
    assert s[w..w + |name|] == name by {
      assert s[w..w + |name|] == s[w..][..|name|];
    }
    assert MatchAt(PrAuthor, s, 0) == Some(Match(0, w + |name|, name));
    StripUntrimmed(name);
  }

  /** A line written at `w` without a newline in it, then a newline, is the run of non-newlines there. */
  lemma LineRunAt(s: string, w: nat, line: string, rest: string)
    requires w <= |s| && s[w..] == line + "\n" + rest && '\n' !in line
    ensures RunEnd(s, w, NotNewline) == w + |line|
  {
    forall k | w <= k < w + |line| ensures InClass(s[k], NotNewline) {
      assert s[k] == s[w..][k - w] == line[k - w];
    }
    assert s[w + |line|] == s[w..][|line|] == '\n';
    RunEndExact(s, w, w + |line|, NotNewline);
  }

  /** A text that neither begins nor ends with whitespace is its own strip. */
  lemma StripUntrimmed(s: string)
    requires s != [] && !IsSpace(s[0]) && !IsSpace(s[|s| - 1])
    ensures Strip(s) == s
  {
    var r := Strip(s);
    var lead, trail :| s == lead + r + trail && AllSpace(lead) && AllSpace(trail);
    assert s[0] == (lead + r + trail)[0];
    assert s[|s| - 1] == (lead + r + trail)[|s| - 1];
    assert lead == [] && trail == [];
    assert s == r;
  }

  /** The lookback takes the earliest of the three preceding lines that opens a brace, not the nearest. */
  lemma LookbackTakesEarliest()
    ensures LookbackStart(["{", "{", "x", "\"type\": \"result\""], 3) == 0
  {
  }

  /** `"model":"` at `p`, then `n` characters other than `"`, then `"`: `ModelAt` matches them. */
  lemma ModelAtLayout(s: string, p: nat, n: nat)
    requires LiteralAt(s, p, "\"model\"")
    requires 0 < n && p + 9 + n < |s| && s[p + 7] == ':' && s[p + 8] == '"'
    requires forall k :: p + 9 <= k < p + 9 + n ==> s[k] != '"'
    requires s[p + 9 + n] == '"'
    ensures ModelAt(s, p) == Some(Match(p, p + 10 + n, s[p + 9..p + 9 + n]))
  {
    RunEndExact(s, p + 7, p + 7, Space);
    RunEndExact(s, p + 8, p + 8, Space);
    RunEndExact(s, p + 9, p + 9 + n, NotQuote);
  }

  /** A `"model":"value"` entry written at `p` matches there, with `value` its group. */
  lemma ModelEntryAt(s: string, p: nat, value: string)
    requires value != [] && '"' !in value
    requires var entry := "\"model\":\"" + value + "\"";
      p + |entry| <= |s| && s[p..p + |entry|] == entry
    ensures MatchAt(ModelField, s, p) == Some(Match(p, p + 10 + |value|, value))
  {
    var entry := "\"model\":\"" + value + "\"";
    var n := |value|;
    var written := s[p..p + |entry|];
    assert s[p..p + 7] == written[..7] == entry[..7] == "\"model\"";
    assert s[p + 7] == written[7] == entry[7] == ':';
    assert s[p + 8] == written[8] == entry[8] == '"';
    assert s[p + 9 + n] == written[9 + n] == entry[9 + n] == '"';
    forall j | 0 <= j < n ensures s[p + 9 + j] == value[j] {
      assert s[p + 9 + j] == written[9 + j] == entry[9 + j];
    }
    assert s[p + 9..p + 9 + n] == value;
    forall k | p + 9 <= k < p + 9 + n ensures s[k] != '"' {
      assert s[k] == s[p + 9..p + 9 + n][k - (p + 9)];
    }
    ModelAtLayout(s, p, n);
  }

  /** The later of two `"model"` entries wins. */
  lemma LastModelWins()
    ensures ModelOf("\"model\":\"a\" \"model\":\"b\"") == Some("b")
  {
    var s := "\"model\":\"a\" \"model\":\"b\"";
    FirstModelEntry(s);
    SecondModelEntry(s);
    assert FindAll(ModelField, s, 0) == [Match(0, 11, "a")] + FindAll(ModelField, s, 11);
  }

  /**
   * A `"model"` entry whose opening quote is the closing quote of the previous
   * value is not reached: the search resumes after that quote, so the earlier
   * value is the one kept.
   */
  lemma OverlappingModelIgnored()
    ensures ModelOf("\"model\":\"x\"model\":\"y\"") == Some("x")
  {
    var s := "\"model\":\"x\"model\":\"y\"";
    ModelEntryAt(s, 0, "x");
    assert Search(ModelField, s, 0) == Some(Match(0, 11, "x"));
    assert s[11] == 'm' && s[12] == 'o' && s[13] == 'd' && s[14] == 'e';
    NoModelWithoutQuote(s, 11);
    assert FindAll(ModelField, s, 0) == [Match(0, 11, "x")];
  }

  /** No `"model"` entry starts from `from` on when no quote there leaves room for the key. */
  lemma NoModelWithoutQuote(s: string, from: nat)
    requires forall q :: from <= q && q + 7 <= |s| ==> s[q] != '"'
    ensures Search(ModelField, s, from).None?
  {
    forall q | from <= q ensures MatchAt(ModelField, s, q).None? {
      ModelNeedsQuote(s, q);
    }
  }

  /** The `"model"` pattern cannot match where there is no quote. */
  lemma ModelNeedsQuote(s: string, q: nat)
    requires q + 7 <= |s| ==> s[q] != '"'
    ensures MatchAt(ModelField, s, q).None?
  {
    assert !LiteralAt(s, q, "\"model\"") by {
      if q + 7 <= |s| {
        assert s[q..q + 7][0] != '"';
      }
    }
  }

  lemma FirstModelEntry(s: string)
    requires s == "\"model\":\"a\" \"model\":\"b\""
    ensures Search(ModelField, s, 0) == Some(Match(0, 11, "a"))
  {
    ModelEntryAt(s, 0, "a");
  }

  lemma SecondModelEntry(s: string)
    requires s == "\"model\":\"a\" \"model\":\"b\""
    ensures FindAll(ModelField, s, 11) == [Match(12, 23, "b")]
  {
    ModelEntryAt(s, 12, "b");
    assert s[11] == ' ';
    ModelNeedsQuote(s, 11);
    assert Search(ModelField, s, 23).None?;
    assert Search(ModelField, s, 11) == Some(Match(12, 23, "b"));
  }
}
