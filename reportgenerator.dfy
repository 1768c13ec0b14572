/**
 * `generate_csv_report` (src/report_generator.py): a header row, then one
 * row of fourteen cells per result record, in the order of the records.
 * The file is the sequence of rows written; CSV quoting and the file itself
 * are left out. Float rendering is passed in: `floatText` is `str`/`repr`
 * on a float and `fixed4` is `f"{x:.4f}"`; `container` is `str` on a JSON
 * list or object.
 */
module ReportGenerator {
  import opened Wrappers
  import opened Text
  import opened Json
  import opened MetricsExtractor
  import opened Processor
  import opened Formatters

  const Header: seq<string> := [
    "PR番号", "PR名", "PR Author", "ブランチ", "モデル", "コスト (USD)", "処理時間",
    "ターン数", "コミット数", "ファイル変更数", "実行ステータス", "開始時刻", "終了時刻", "PRリンク"]

  /** The model identifier shown under a short alias. */
  const SonnetLong := "claude-sonnet-4-5-20250929"
  const SonnetShort := "sonnet-4.5"

  datatype Renderers = Renderers(floatText: real -> string, fixed4: real -> string, container: Value -> string)

  // ---- the cells ----

  /** `s or "N/A"` for a text. */
  function TextCell(s: string): string {
    if s == [] then "N/A" else s
  }

  /** `x or "N/A"` for an optional text. */
  function OptionalTextCell(s: Option<string>): string {
    match s
    case None => "N/A"
    case Some(t) => TextCell(t)
  }

  /** `n or "N/A"` for an optional count, written as `str(n)`. */
  function CountCell(n: Option<nat>): string {
    if n.None? || n.value == 0 then "N/A" else DecimalString(n.value)
  }

  /** The model cell: `"N/A"` when falsy; otherwise the long Sonnet 4.5 identifier replaced by its alias. */
  function ModelCell(m: Option<string>): string {
    var model := OptionalTextCell(m);
    if model != "N/A" then ReplaceAll(model, SonnetLong, SonnetShort) else model
  }

  /**
   * `f"{cost:.4f}" if cost is not None else "N/A"`. An integer or a boolean
   * is formatted as the float it converts to; a string, list or dict raises
   * (`None`), and so does an integer too large for a float.
   */
  function CostCell(cost: Value, fixed4: real -> string): Option<string> {
    match cost
    case Null => Some("N/A")
    case Bool(b) => Some(fixed4(if b then 1.0 else 0.0))
    case Int(i) => if FitsDouble(i as real) then Some(fixed4(i as real)) else None
    case Float(f) => Some(fixed4(f))
    case _ => None
  }

  /** `v or "N/A"`, written as the CSV writer writes it. */
  function ValueCell(v: Value, rend: Renderers): string {
    if !Truthy(v) then "N/A"
    else
      match v
      case Str(s) => s
      case Int(i) => IntToString(i)
      case Bool(_) => "True"
      case Float(f) => rend.floatText(f)
      case _ => rend.container(v)
  }

  /** The link to the pull request, or `"N/A"` without a truthy PR number. */
  function LinkCell(n: Option<nat>, repo: string): string {
    if n.None? || n.value == 0 then "N/A"
    else "https://github.com/" + repo + "/pull/" + DecimalString(n.value)
  }

  /** The row of one record; `None` when formatting its cost or its duration raises. */
  function Row(r: Record, repo: string, rend: Renderers): (row: Option<seq<string>>)
    ensures row.Some? ==> |row.value| == |Header|
  {
    var m := r.fields;
    match (CostCell(m.totalCostUsd, rend.fixed4), FormatDuration(m.durationMs, rend.floatText))
    case (Some(cost), Some(duration)) =>
      Some([
        CountCell(m.prNumber),
        TextCell(r.prName),
        OptionalTextCell(m.prAuthor),
        TextCell(r.branch),
        ModelCell(m.model),
        cost,
        duration,
        ValueCell(m.numTurns, rend),
        CountCell(m.totalCommits),
        CountCell(m.changedFiles),
        TextCell(r.status),
        FormatTimestamp(m.startTime),
        FormatTimestamp(m.endTime),
        LinkCell(m.prNumber, repo)])
    case _ => None
  }

  /** `Row` for a fixed repository and renderers. */
  function RowOf(repo: string, rend: Renderers): Record -> Option<seq<string>> {
    r => Row(r, repo, rend)
  }

  /** The rows written for `results`: one per record, stopping at the first record whose row raises. */
  function Written(results: seq<Record>, rowOf: Record -> Option<seq<string>>): (rows: seq<seq<string>>)
    ensures |rows| <= |results|
    decreases |results|
  {
    if results == [] then []
    else
      match rowOf(results[0])
      case None => []
      case Some(row) => [row] + Written(results[1..], rowOf)
  }

  /** Some record's row raises. */
  predicate AnyFails(results: seq<Record>, rowOf: Record -> Option<seq<string>>) {
    exists i :: 0 <= i < |results| && rowOf(results[i]).None?
  }

  // ---- generate_csv_report ----

  /**
   * `generate_csv_report`: writes the header, then the row of each record in
   * turn; a row that raises ends the report there, with `failed` set.
   */
  method GenerateCsvReport(results: seq<Record>, repo: string, rend: Renderers)
    returns (rows: seq<seq<string>>, failed: bool)
    ensures failed <==> AnyFails(results, RowOf(repo, rend))
    ensures rows == [Header] + Written(results, RowOf(repo, rend))
  {
    rows := [Header];
    var i := 0;
    while i < |results|
      invariant i <= |results|
      invariant rows + Written(results[i..], RowOf(repo, rend)) == [Header] + Written(results, RowOf(repo, rend))
      invariant !AnyFails(results[..i], RowOf(repo, rend))
    {
      var row := Row(results[i], repo, rend);
      if row.None? {
        assert Written(results[i..], RowOf(repo, rend)) == [];
        return rows, true;
      }
      assert results[i..][1..] == results[i + 1..];
      assert Written(results[i..], RowOf(repo, rend)) == [row.value] + Written(results[i + 1..], RowOf(repo, rend));
      rows := rows + [row.value];
      NoneFailsExtend(results, i, RowOf(repo, rend));
      i := i + 1;
    }
    assert results[..i] == results;
    assert results[i..] == [];
    return rows, false;
  }

  lemma NoneFailsExtend(results: seq<Record>, i: nat, rowOf: Record -> Option<seq<string>>)
    requires i < |results| && !AnyFails(results[..i], rowOf) && rowOf(results[i]).Some?
    ensures !AnyFails(results[..i + 1], rowOf)
  {
    var front := results[..i + 1];
    forall k | 0 <= k < |front| ensures rowOf(front[k]).Some? {
      if k < i { assert front[k] == results[..i][k]; }
    }
  }

  // ---- properties ----

  /** The written rows are the rows of the records in order, up to the first record whose row raises, which is where they stop. */
  lemma {:induction false} WrittenPrefix(results: seq<Record>, rowOf: Record -> Option<seq<string>>)
    ensures var rows := Written(results, rowOf);
      && (forall k :: 0 <= k < |rows| ==> rowOf(results[k]) == Some(rows[k]))
      && (|rows| < |results| ==> rowOf(results[|rows|]).None?)
    decreases |results|
  {
    if results != [] && rowOf(results[0]).Some? {
      var rows := Written(results, rowOf);
      var tail := results[1..];
      WrittenPrefix(tail, rowOf);
      assert rows == [rowOf(results[0]).value] + Written(tail, rowOf);
      forall k | 0 <= k < |rows| ensures rowOf(results[k]) == Some(rows[k]) {
        if k > 0 { assert results[k] == tail[k - 1]; }
      }
      if |rows| < |results| { assert results[|rows|] == tail[|rows| - 1]; }
    }
  }

  /** With no record failing, every record gets its row. */
  lemma WrittenAll(results: seq<Record>, rowOf: Record -> Option<seq<string>>)
    requires !AnyFails(results, rowOf)
    ensures |Written(results, rowOf)| == |results|
  {
    WrittenPrefix(results, rowOf);
  }

  /** Every row, the header included, has one cell per column. */
  lemma RowsAligned(results: seq<Record>, repo: string, rend: Renderers)
    ensures var rows := [Header] + Written(results, RowOf(repo, rend));
      forall k :: 0 <= k < |rows| ==> |rows[k]| == 14
  {
    var rows := Written(results, RowOf(repo, rend));
    WrittenPrefix(results, RowOf(repo, rend));
    forall k | 0 <= k < |rows| ensures |rows[k]| == 14 {
      assert Row(results[k], repo, rend) == Some(rows[k]);
    }
  }

  /**
   * A record's row raises exactly when its cost, or its truthy duration, is a
   * string, list or dict, or an integer whose conversion to a float overflows.
   */
  lemma RowFailsIff(r: Record, repo: string, rend: Renderers)
    ensures var cost, d := r.fields.totalCostUsd, r.fields.durationMs;
      Row(r, repo, rend).None? <==>
        || (cost.Str? || cost.Array? || cost.Object? || (cost.Int? && !FitsDouble(cost.i as real)))
        || (Truthy(d) && (d.Str? || d.Array? || d.Object? || (d.Int? && !FitsDouble(d.i as real / 1000.0))))
  {
  }

  /** The count cell reads `"N/A"` exactly for a missing or zero count, and otherwise reads back as the count. */
  lemma CountCellRoundTrip(n: Option<nat>)
    ensures CountCell(n) == "N/A" <==> n.None? || n == Some(0)
    ensures n.Some? && n.value != 0 ==> AllDigits(CountCell(n)) && DigitsValue(CountCell(n)) == n.value
  {
    if n.Some? && n.value != 0 {
      var c := CountCell(n);
      assert IsDigit(c[0]) && !IsDigit('N');
    }
  }

  /** Every falsy or missing value of the record is written as `"N/A"`. */
  lemma FalsyCellsNotAvailable(r: Record, repo: string, rend: Renderers)
    requires Row(r, repo, rend).Some?
    ensures var row, m := Row(r, repo, rend).value, r.fields;
      && (m.prNumber.None? || m.prNumber == Some(0) ==> row[0] == "N/A" && row[13] == "N/A")
      && (r.prName == [] ==> row[1] == "N/A")
      && (m.prAuthor.None? || m.prAuthor == Some([]) ==> row[2] == "N/A")
      && (r.branch == [] ==> row[3] == "N/A")
      && (m.model.None? || m.model == Some([]) ==> row[4] == "N/A")
      && (m.totalCostUsd.Null? ==> row[5] == "N/A")
      && (!Truthy(m.durationMs) ==> row[6] == "N/A")
      && (!Truthy(m.numTurns) ==> row[7] == "N/A")
      && (m.totalCommits.None? || m.totalCommits == Some(0) ==> row[8] == "N/A")
      && (m.changedFiles.None? || m.changedFiles == Some(0) ==> row[9] == "N/A")
      && (r.status == [] ==> row[10] == "N/A")
      && (m.startTime.None? || m.startTime == Some([]) ==> row[11] == "N/A")
      && (m.endTime.None? || m.endTime == Some([]) ==> row[12] == "N/A")
  {
    var m := r.fields;
    var cost, duration := CostCell(m.totalCostUsd, rend.fixed4), FormatDuration(m.durationMs, rend.floatText);
    assert cost.Some? && duration.Some?;
    assert (m.totalCostUsd.Null? ==> cost.value == "N/A") && (!Truthy(m.durationMs) ==> duration.value == "N/A");
    assert Row(r, repo, rend).value == [
      CountCell(m.prNumber), TextCell(r.prName), OptionalTextCell(m.prAuthor), TextCell(r.branch),
      ModelCell(m.model), cost.value, duration.value, ValueCell(m.numTurns, rend),
      CountCell(m.totalCommits), CountCell(m.changedFiles), TextCell(r.status),
      FormatTimestamp(m.startTime), FormatTimestamp(m.endTime), LinkCell(m.prNumber, repo)];
  }

  /** The link is `"N/A"` exactly when the PR number cell is, and otherwise ends with that cell. */
  lemma LinkMatchesNumber(n: Option<nat>, repo: string)
    ensures LinkCell(n, repo) == "N/A" <==> CountCell(n) == "N/A"
    ensures LinkCell(n, repo) != "N/A" ==> LinkCell(n, repo) == "https://github.com/" + repo + "/pull/" + CountCell(n)
  {
    CountCellRoundTrip(n);
    if n.Some? && n.value != 0 {
      var link := LinkCell(n, repo);
      assert link[0] == 'h';
    }
  }

  /** A text cell is never empty, and it is `"N/A"` only for the empty text or `"N/A"` itself. */
  lemma TextCellNotEmpty(s: string)
    ensures TextCell(s) != []
    ensures TextCell(s) == "N/A" <==> s == [] || s == "N/A"
  {
  }

  /** The cost cell is `"N/A"` exactly when the cost is null, given a float format that never prints `"N/A"`. */
  lemma CostNotAvailableIff(cost: Value, fixed4: real -> string)
    requires forall x :: fixed4(x) != "N/A"
    ensures CostCell(cost, fixed4) == Some("N/A") <==> cost.Null?
    ensures CostCell(cost, fixed4).None? <==>
      cost.Str? || cost.Array? || cost.Object? || (cost.Int? && !FitsDouble(cost.i as real))
  {
  }

  /** The largest integer cost below the overflow bound is formatted; the bound itself raises, at either sign. */
  lemma CostOverflowBoundary(fixed4: real -> string)
    ensures CostCell(Int(FloatOverflow - 1), fixed4) == Some(fixed4((FloatOverflow - 1) as real))
    ensures CostCell(Int(FloatOverflow), fixed4).None?
    ensures CostCell(Int(-FloatOverflow), fixed4).None?
  {
  }

  /** The model cell spells every occurrence of the long Sonnet 4.5 identifier as its alias. */
  lemma ModelAlias(m: string)
    requires m != [] && m != "N/A"
    ensures ModelCell(Some(m)) == Join(Split(m, SonnetLong), SonnetShort)
    ensures !Contains(m, SonnetLong) ==> ModelCell(Some(m)) == m
  {
    ReplaceAllJoinsPieces(m, SonnetLong, SonnetShort);
  }

  /** The identifier on its own becomes the alias; a missing or empty model is `"N/A"`. */
  lemma ModelExamples()
    ensures ModelCell(Some(SonnetLong)) == SonnetShort
    ensures ModelCell(None) == "N/A" && ModelCell(Some("")) == "N/A"
  {
    ReplaceAllJoinsPieces(SonnetLong, SonnetLong, SonnetShort);
  }
}
