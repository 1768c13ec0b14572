/**
 * The date filter applied to the workflow runs that `gh run list` returns
 * (src/github_client.py). Fetching the list, the clock and ISO-8601 parsing
 * are parameters: `cutoff` is the instant `now - days` and `parse` is
 * `datetime.fromisoformat`.
 */
module GithubClient {
  import opened Wrappers
  import opened Text

  /**
   * One workflow run as `gh run list --json` describes it. `None` stands for
   * a key that is absent (or JSON null); `databaseId` is always requested and
   * always present.
   */
  datatype Run = Run(
    databaseId: int,
    displayTitle: Option<string>,
    headBranch: Option<string>,
    conclusion: Option<string>,
    createdAt: Option<string>)

  /**
   * What `datetime.fromisoformat` makes of a text: a `ValueError`, a naive
   * date-time (no offset), or an aware one, given as an instant on the same
   * scale as the cutoff.
   */
  datatype Parsed = Unparseable | Naive | Aware(instant: int)

  /** What the loop does with one run. */
  datatype Verdict =
    | Keep
    | Drop
    | Raise  // comparing a naive date-time with the aware cutoff raises `TypeError`

  /**
   * The decision for one run: kept without a (non-empty) `createdAt` or when
   * its date does not parse, kept when it is at or after the cutoff, dropped
   * when it is before. `Z` is rewritten to `+00:00` before parsing.
   */
  function Decide(run: Run, cutoff: int, parse: string -> Parsed): Verdict {
    match run.createdAt
    case None => Keep
    case Some(created) =>
      if created == [] then Keep
      else
        match parse(ReplaceAll(created, "Z", "+00:00"))
        case Unparseable => Keep
        case Naive => Raise
        case Aware(t) => if t >= cutoff then Keep else Drop
  }

  /** The runs kept, in their order. */
  function Kept(runs: seq<Run>, cutoff: int, parse: string -> Parsed): seq<Run>
    decreases |runs|
  {
    if runs == [] then []
    else
      var last := runs[|runs| - 1];
      Kept(runs[..|runs| - 1], cutoff, parse) + (if Decide(last, cutoff, parse) == Keep then [last] else [])
  }

  /** Some run makes the comparison raise. */
  predicate AnyRaises(runs: seq<Run>, cutoff: int, parse: string -> Parsed) {
    exists i :: 0 <= i < |runs| && Decide(runs[i], cutoff, parse) == Raise
  }

  /**
   * The loop of `get_workflow_runs` after the list is fetched: `None` when a
   * comparison raises, otherwise the runs kept.
   */
  method FilterRuns(runs: seq<Run>, cutoff: int, parse: string -> Parsed) returns (r: Option<seq<Run>>)
    ensures r.None? <==> AnyRaises(runs, cutoff, parse)
    ensures r.Some? ==> r.value == Kept(runs, cutoff, parse)
  {
    var filtered: seq<Run> := [];
    var i := 0;
    while i < |runs|
      invariant i <= |runs|
      invariant filtered == Kept(runs[..i], cutoff, parse)
      invariant !AnyRaises(runs[..i], cutoff, parse)
    {
      var run := runs[i];
      assert runs[..i + 1] == runs[..i] + [run];
      AnyRaisesAppend(runs[..i], run, cutoff, parse);
      var verdict := Decide(run, cutoff, parse);
      if verdict == Raise {
        AnyRaisesPrefix(runs, i + 1, cutoff, parse);
        return None;
      }
      if verdict == Keep {
        filtered := filtered + [run];
      }
      i := i + 1;
    }
    assert runs[..i] == runs;
    r := Some(filtered);
  }

  lemma AnyRaisesAppend(runs: seq<Run>, run: Run, cutoff: int, parse: string -> Parsed)
    ensures AnyRaises(runs + [run], cutoff, parse) <==> AnyRaises(runs, cutoff, parse) || Decide(run, cutoff, parse) == Raise
  {
    var all := runs + [run];
    if AnyRaises(runs, cutoff, parse) {
      var i :| 0 <= i < |runs| && Decide(runs[i], cutoff, parse) == Raise;
      assert all[i] == runs[i];
    }
    if Decide(run, cutoff, parse) == Raise {
      assert all[|runs|] == run;
    }
    if AnyRaises(all, cutoff, parse) {
      var i :| 0 <= i < |all| && Decide(all[i], cutoff, parse) == Raise;
      if i < |runs| { assert all[i] == runs[i]; }
    }
  }

  lemma AnyRaisesPrefix(runs: seq<Run>, n: nat, cutoff: int, parse: string -> Parsed)
    requires n <= |runs| && AnyRaises(runs[..n], cutoff, parse)
    ensures AnyRaises(runs, cutoff, parse)
  {
    var i :| 0 <= i < n && Decide(runs[..n][i], cutoff, parse) == Raise;
    assert runs[..n][i] == runs[i];
  }

  // ---- properties ----

  /** `a` is `b` with some elements left out, the rest in the same order. */
  predicate Subsequence<T(==)>(a: seq<T>, b: seq<T>)
    decreases |b|
  {
    if a == [] then true
    else if b == [] then false
    else if a[0] == b[0] then Subsequence(a[1..], b[1..])
    else Subsequence(a, b[1..])
  }

  /** A subsequence stays one when the longer sequence grows at its end. */
  lemma {:induction false} SubsequenceExtend<T>(a: seq<T>, b: seq<T>, x: T)
    requires Subsequence(a, b)
    ensures Subsequence(a, b + [x])
    decreases |b|
  {
    if a != [] {
      assert (b + [x])[1..] == b[1..] + [x];
      if a[0] == b[0] {
        SubsequenceExtend(a[1..], b[1..], x);
      } else {
        SubsequenceExtend(a, b[1..], x);
      }
    }
  }

  /** Both sequences growing by the same element keeps the relation. */
  lemma {:induction false} SubsequenceAppend<T>(a: seq<T>, b: seq<T>, x: T)
    requires Subsequence(a, b)
    ensures Subsequence(a + [x], b + [x])
    decreases |b|
  {
    if b == [] {
      assert a == [];
      assert ([x])[1..] == [];
    } else {
      assert (b + [x])[1..] == b[1..] + [x];
      if a == [] {
        if b[0] == x {
          assert ([x])[1..] == [];
        } else {
          SubsequenceAppend(a, b[1..], x);
        }
      } else {
        assert (a + [x])[1..] == a[1..] + [x];
        if a[0] == b[0] {
          SubsequenceAppend(a[1..], b[1..], x);
        } else {
          SubsequenceAppend(a, b[1..], x);
        }
      }
    }
  }

  /** The filtered list is a subsequence of the input, in the same order. */
  lemma {:induction false} KeptIsSubsequence(runs: seq<Run>, cutoff: int, parse: string -> Parsed)
    ensures Subsequence(Kept(runs, cutoff, parse), runs)
    decreases |runs|
  {
    if runs != [] {
      var front := runs[..|runs| - 1];
      var last := runs[|runs| - 1];
      KeptIsSubsequence(front, cutoff, parse);
      assert front + [last] == runs;
      if Decide(last, cutoff, parse) == Keep {
        assert Kept(runs, cutoff, parse) == Kept(front, cutoff, parse) + [last];
        SubsequenceAppend(Kept(front, cutoff, parse), front, last);
      } else {
        assert Kept(runs, cutoff, parse) == Kept(front, cutoff, parse);
        SubsequenceExtend(Kept(front, cutoff, parse), front, last);
      }
    }
  }

  /** A run is in the filtered list exactly when it is in the input and its verdict is to keep it. */
  lemma {:induction false} KeptMembers(runs: seq<Run>, cutoff: int, parse: string -> Parsed, run: Run)
    ensures run in Kept(runs, cutoff, parse) <==> run in runs && Decide(run, cutoff, parse) == Keep
    decreases |runs|
  {
    if runs != [] {
      var front := runs[..|runs| - 1];
      KeptMembers(front, cutoff, parse, run);
      assert runs == front + [runs[|runs| - 1]];
    }
  }

  /** A run without a `createdAt`, or with an empty one, is always kept. */
  lemma UndatedKept(runs: seq<Run>, cutoff: int, parse: string -> Parsed, run: Run)
    requires run in runs
    requires run.createdAt.None? || run.createdAt == Some([])
    ensures run in Kept(runs, cutoff, parse)
  {
    KeptMembers(runs, cutoff, parse, run);
  }

  /** A run whose date does not parse is kept, never excluded. */
  lemma UnparseableKept(runs: seq<Run>, cutoff: int, parse: string -> Parsed, run: Run)
    requires run in runs && run.createdAt.Some?
    requires parse(ReplaceAll(run.createdAt.value, "Z", "+00:00")).Unparseable?
    ensures run in Kept(runs, cutoff, parse)
  {
    KeptMembers(runs, cutoff, parse, run);
  }

  /** A run with an aware date is kept exactly when it is at or after the cutoff: the cutoff itself is included. */
  lemma DatedKeptIff(runs: seq<Run>, cutoff: int, parse: string -> Parsed, run: Run, t: int)
    requires run in runs && run.createdAt.Some? && run.createdAt.value != []
    requires parse(ReplaceAll(run.createdAt.value, "Z", "+00:00")) == Aware(t)
    ensures run in Kept(runs, cutoff, parse) <==> t >= cutoff
  {
    KeptMembers(runs, cutoff, parse, run);
  }

  /** No run is kept twice and none is invented: the filtered list is never longer than the input. */
  lemma {:induction false} KeptNoLonger(runs: seq<Run>, cutoff: int, parse: string -> Parsed)
    ensures |Kept(runs, cutoff, parse)| <= |runs|
    decreases |runs|
  {
    if runs != [] {
      KeptNoLonger(runs[..|runs| - 1], cutoff, parse);
    }
  }
}
