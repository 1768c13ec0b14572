/**
 * The fixed regular expressions of the log tools, each written out as a
 * scanner that decides whether the pattern matches at a given position, with
 * the same greedy choices and backtracking Python's `re` makes for it.
 * `Search` is `re.search` (leftmost match) and `FindAll` is `re.finditer` /
 * `re.findall` (successive non-overlapping matches, left to right).
 */
module Patterns {
  import opened Wrappers
  import opened Text

  datatype Pattern =
    | PrNumber          // PR NUMBER:\s*(\d+)
    | PrAuthor          // PR Author:\s*([^\n]+)
    | TotalCommits      // Total Commits:\s*(\d+)
    | ChangedFiles      // Changed Files:\s*(\d+)\s*files?
    | ModelField        // "model"\s*:\s*"([^"]+)"
    | Timestamp         // (\d{4}-\d{2}-\d{2}T\d{2}:\d{2}:\d{2}\.\d+Z)
    | TimestampPayload  // \d{4}-\d{2}-\d{2}T\d{2}:\d{2}:\d{2}\.\d+Z\s+(.*)
    | HashNumber        // #(\d+)

  /** A match: the span `[start, end)` it covers and its first group. */
  datatype Match = Match(start: nat, end: nat, group: string)

  /** Patterns whose group is `(\d+)`. */
  predicate Numeric(pat: Pattern) {
    pat.PrNumber? || pat.TotalCommits? || pat.ChangedFiles? || pat.HashNumber?
  }

  predicate LiteralAt(s: string, p: nat, lit: string) {
    p + |lit| <= |s| && s[p..p + |lit|] == lit
  }

  /** A literal cannot be written where its first character does not occur. */
  lemma LiteralNeedsHead(s: string, p: nat, lit: string)
    requires lit != [] && lit[0] !in s
    ensures !LiteralAt(s, p, lit)
  {
  }

  /** The fixed-width front of a timestamp, `d` standing for `\d`. */
  const StampFront := "dddd-dd-ddTdd:dd:dd."

  predicate StampFrontAt(s: string, p: nat) {
    && p + |StampFront| <= |s|
    && forall k :: 0 <= k < |StampFront| ==>
         if StampFront[k] == 'd' then IsDigit(s[p + k]) else s[p + k] == StampFront[k]
  }

  /**
   * `\d{4}-\d{2}-\d{2}T\d{2}:\d{2}:\d{2}\.\d+Z` at `p`: the index just past its `Z`.
   * `\d+` cannot give back digits, because `Z` is not a digit.
   */
  function TimestampEnd(s: string, p: nat): (e: Option<nat>)
    ensures e.Some? ==> p + |StampFront| + 2 <= e.value <= |s| && s[e.value - 1] == 'Z'
  {
    if !StampFrontAt(s, p) then None
    else
      var d := RunEnd(s, p + |StampFront|, Digit);
      if d > p + |StampFront| && d < |s| && s[d] == 'Z' then Some(d + 1) else None
  }

  /**
   * A canonical stamp `YYYY-MM-DDTHH:MM:SS.fffZ` at `p`: the fixed front, one or
   * more fraction digits, then `Z`, ends just past that `Z`.
   */
  lemma CanonicalTimestampEnd(s: string, p: nat, fraction: string)
    requires StampFrontAt(s, p) && fraction != [] && AllDigits(fraction)
    requires LiteralAt(s, p + |StampFront|, fraction + "Z")
    ensures TimestampEnd(s, p) == Some(p + |StampFront| + |fraction| + 1)
  {
    var f := p + |StampFront|;
    var tail := fraction + "Z";
    forall k | f <= k < f + |fraction| ensures InClass(s[k], Digit) {
      assert s[k] == s[f..f + |tail|][k - f] == tail[k - f] == fraction[k - f];
    }
    assert s[f + |fraction|] == s[f..f + |tail|][|fraction|] == 'Z';
    RunEndExact(s, f, f + |fraction|, Digit);
  }

  /** `tag\s*(\d+)` at `p`; a shorter `\s*` or `\d+` never lets the rest match. */
  function LabelledDigits(s: string, p: nat, tag: string): (m: Option<Match>)
    requires tag != []
    ensures m.Some? ==> m.value.start == p && p < m.value.end <= |s| && AllDigits(m.value.group)
  {
    if !LiteralAt(s, p, tag) then None
    else
      var w := RunEnd(s, p + |tag|, Space);
      var d := RunEnd(s, w, Digit);
      if d > w then Some(Match(p, d, s[w..d])) else None
  }

  /** The last index in `[lo, hi)` whose character is not a newline. */
  function LastNotNewline(s: string, lo: nat, hi: nat): (b: Option<nat>)
    requires lo <= hi <= |s|
    ensures b.Some? ==> lo <= b.value < hi && s[b.value] != '\n'
    ensures b.Some? ==> forall k :: b.value < k < hi ==> s[k] == '\n'
    ensures b.None? ==> forall k :: lo <= k < hi ==> s[k] == '\n'
    decreases hi - lo
  {
    if hi == lo then None
    else if s[hi - 1] != '\n' then Some(hi - 1)
    else LastNotNewline(s, lo, hi - 1)
  }

  /**
   * `PR Author:\s*([^\n]+)` at `p`. When the whitespace after the tag runs
   * to the end of the text, `re` backtracks into `\s*` and the group is the
   * last non-newline character of that run; with none, there is no match.
   */
  function AuthorAt(s: string, p: nat): (m: Option<Match>)
    ensures m.Some? ==> m.value.start == p && p < m.value.end <= |s|
  {
    var tag := "PR Author:";
    if !LiteralAt(s, p, tag) then None
    else
      var w := RunEnd(s, p + |tag|, Space);
      if w < |s| then
        var e := RunEnd(s, w, NotNewline);
        Some(Match(p, e, s[w..e]))
      else
        match LastNotNewline(s, p + |tag|, w)
        case None => None
        case Some(b) => Some(Match(p, b + 1, s[b..b + 1]))
  }

  /** `Changed Files:\s*(\d+)\s*files?` at `p`. */
  function ChangedFilesAt(s: string, p: nat): (m: Option<Match>)
    ensures m.Some? ==> m.value.start == p && p < m.value.end <= |s| && AllDigits(m.value.group)
  {
    match LabelledDigits(s, p, "Changed Files:")
    case None => None
    case Some(m) =>
      var w := RunEnd(s, m.end, Space);
      if !LiteralAt(s, w, "file") then None
      else
        var e := if w + 4 < |s| && s[w + 4] == 's' then w + 5 else w + 4;
        Some(Match(p, e, m.group))
  }

  /**
   * A file count matches at `p` exactly when the labelled digits there are
   * followed, after whitespace, by `file`; its group is those digits.
   */
  lemma ChangedFilesShape(s: string, p: nat)
    ensures ChangedFilesAt(s, p).Some? <==> (LabelledDigits(s, p, "Changed Files:").Some?
      && LiteralAt(s, RunEnd(s, LabelledDigits(s, p, "Changed Files:").value.end, Space), "file"))
    ensures ChangedFilesAt(s, p).Some? ==> ChangedFilesAt(s, p).value.group == LabelledDigits(s, p, "Changed Files:").value.group
  {
  }

  /** `"model"\s*:\s*"([^"]+)"` at `p`. */
  function ModelAt(s: string, p: nat): (m: Option<Match>)
    ensures m.Some? ==> m.value.start == p && p < m.value.end <= |s|
  {
    var key := "\"model\"";
    if !LiteralAt(s, p, key) then None
    else
      var w1 := RunEnd(s, p + |key|, Space);
      if !(w1 < |s| && s[w1] == ':') then None
      else
        var w2 := RunEnd(s, w1 + 1, Space);
        if !(w2 < |s| && s[w2] == '"') then None
        else
          var v := RunEnd(s, w2 + 1, NotQuote);
          if v > w2 + 1 && v < |s| then Some(Match(p, v + 1, s[w2 + 1..v])) else None
  }

  /** Whether, and how, `pat` matches at position `p` of `s`. */
  function MatchAt(pat: Pattern, s: string, p: nat): (m: Option<Match>)
    ensures m.Some? ==> m.value.start == p && p < m.value.end <= |s|
    ensures m.Some? && Numeric(pat) ==> AllDigits(m.value.group)
  {
    match pat
    case PrNumber => LabelledDigits(s, p, "PR NUMBER:")
    case PrAuthor => AuthorAt(s, p)
    case TotalCommits => LabelledDigits(s, p, "Total Commits:")
    case ChangedFiles => ChangedFilesAt(s, p)
    case ModelField => ModelAt(s, p)
    case Timestamp => TimestampAt(s, p)
    case TimestampPayload => TimestampPayloadAt(s, p)
    case HashNumber => HashNumberAt(s, p)
  }

  /** The timestamp pattern at `p`, the whole stamp its group. */
  function TimestampAt(s: string, p: nat): (m: Option<Match>)
    ensures m.Some? ==> m.value.start == p && p < m.value.end <= |s|
  {
    match TimestampEnd(s, p)
    case None => None
    case Some(e) => Some(Match(p, e, s[p..e]))
  }

  /** `timestamp\s+(.*)` at `p`: at least one whitespace, then the rest of the line as its group. */
  function TimestampPayloadAt(s: string, p: nat): (m: Option<Match>)
    ensures m.Some? ==> m.value.start == p && p < m.value.end <= |s|
  {
    match TimestampEnd(s, p)
    case None => None
    case Some(e) =>
      var w := RunEnd(s, e, Space);
      if w == e then None
      else
        var rest := RunEnd(s, w, NotNewline);
        Some(Match(p, rest, s[w..rest]))
  }

  /** `#(\d+)` at `p`. */
  function HashNumberAt(s: string, p: nat): (m: Option<Match>)
    ensures m.Some? ==> m.value.start == p && p < m.value.end <= |s| && AllDigits(m.value.group)
  {
    if p < |s| && s[p] == '#' then
      var d := RunEnd(s, p + 1, Digit);
      if d > p + 1 then Some(Match(p, d, s[p + 1..d])) else None
    else None
  }

  /** `re.search`: the match at the leftmost position from `from` on where `pat` matches. */
  function Search(pat: Pattern, s: string, from: nat): (r: Option<Match>)
    ensures r.Some? ==> from <= r.value.start && MatchAt(pat, s, r.value.start) == r
    ensures r.Some? ==> forall q :: from <= q < r.value.start ==> MatchAt(pat, s, q).None?
    ensures r.None? ==> forall q :: from <= q ==> MatchAt(pat, s, q).None?
    decreases |s| - from
  {
    if from >= |s| then None
    else
      match MatchAt(pat, s, from)
      case Some(m) => Some(m)
      case None => Search(pat, s, from + 1)
  }

  /**
   * `re.finditer`: the non-overlapping matches, left to right, each search
   * resuming where the previous match ended; the first is `Search`'s.
   */
  function FindAll(pat: Pattern, s: string, from: nat): (ms: seq<Match>)
    ensures forall k :: 0 <= k < |ms| ==> from <= ms[k].start && MatchAt(pat, s, ms[k].start) == Some(ms[k])
    ensures ms == [] <==> Search(pat, s, from).None?
    ensures ms != [] ==> ms[0] == Search(pat, s, from).value
    ensures forall k :: 0 <= k < |ms| - 1 ==> Search(pat, s, ms[k].end) == Some(ms[k + 1])
    ensures ms != [] ==> Search(pat, s, ms[|ms| - 1].end).None?
    decreases |s| - from
  {
    match Search(pat, s, from)
    case None => []
    case Some(m) =>
      var rest := FindAll(pat, s, m.end);
      FindAllCons(from, m, rest, (q: nat) => Search(pat, s, q), (q: nat) => MatchAt(pat, s, q));
      [m] + rest
  }

  /**
   * The matches from `from` are the first match followed by the matches from
   * its end: with `search` and `matchAt` standing for the pattern's search and
   * match on the text, the chain facts of `rest` extend to `[m] + rest`.
   */
  lemma FindAllCons(from: nat, m: Match, rest: seq<Match>,
                    search: nat -> Option<Match>, matchAt: nat -> Option<Match>)
    requires search(from) == Some(m) && from <= m.start < m.end && matchAt(m.start) == Some(m)
    requires forall k :: 0 <= k < |rest| ==> m.end <= rest[k].start && matchAt(rest[k].start) == Some(rest[k])
    requires rest != [] ==> search(m.end) == Some(rest[0])
    requires rest == [] ==> search(m.end).None?
    requires forall k :: 0 <= k < |rest| - 1 ==> search(rest[k].end) == Some(rest[k + 1])
    requires rest != [] ==> search(rest[|rest| - 1].end).None?
    ensures var ms := [m] + rest;
      && (forall k :: 0 <= k < |ms| ==> from <= ms[k].start && matchAt(ms[k].start) == Some(ms[k]))
      && (forall k :: 0 <= k < |ms| - 1 ==> search(ms[k].end) == Some(ms[k + 1]))
      && search(ms[|ms| - 1].end).None?
  {
    var ms := [m] + rest;
    forall k | 0 <= k < |ms| ensures from <= ms[k].start && matchAt(ms[k].start) == Some(ms[k]) {
      if k > 0 {
        assert ms[k] == rest[k - 1];
      }
    }
    forall k | 0 <= k < |ms| - 1 ensures search(ms[k].end) == Some(ms[k + 1]) {
      if k > 0 {
        assert ms[k] == rest[k - 1] && ms[k + 1] == rest[k];
      }
    }
    if rest != [] {
      assert ms[|ms| - 1] == rest[|rest| - 1];
    }
  }

  /** Each match ends before the next one begins. */
  predicate NonOverlapping(ms: seq<Match>) {
    forall i, j :: 0 <= i < j < |ms| ==> ms[i].end <= ms[j].start
  }

  lemma NonOverlappingCons(m: Match, rest: seq<Match>)
    requires NonOverlapping(rest)
    requires forall k :: 0 <= k < |rest| ==> m.end <= rest[k].start
    ensures NonOverlapping([m] + rest)
  {
    var ms := [m] + rest;
    forall i, j | 0 <= i < j < |ms| ensures ms[i].end <= ms[j].start {
      assert ms[j] == rest[j - 1];
      if i > 0 { assert ms[i] == rest[i - 1]; }
    }
  }

  /** The matches do not overlap: each ends before the next begins. */
  lemma {:induction false} FindAllOrdered(pat: Pattern, s: string, from: nat)
    ensures NonOverlapping(FindAll(pat, s, from))
    decreases |s| - from
  {
    var ms := FindAll(pat, s, from);
    if ms != [] {
      var m := ms[0];
      var rest := FindAll(pat, s, m.end);
      FindAllStep(pat, s, from);
      FindAllOrdered(pat, s, m.end);
      NonOverlappingCons(m, rest);
    }
  }

  /** A non-empty list of matches is its first match followed by the matches from that match's end. */
  lemma FindAllStep(pat: Pattern, s: string, from: nat)
    ensures var ms := FindAll(pat, s, from);
      ms != [] ==> ms == [ms[0]] + FindAll(pat, s, ms[0].end)
  {
  }

  /**
   * The first match is the leftmost one, no match starts at or after the end
   * of the last one, and the first does not start after the last.
   */
  lemma FindAllEnds(pat: Pattern, s: string, from: nat)
    ensures var ms := FindAll(pat, s, from);
      ms != [] ==>
        && (forall q: nat :: from <= q < ms[0].start ==> MatchAt(pat, s, q).None?)
        && (forall q :: ms[|ms| - 1].end <= q ==> MatchAt(pat, s, q).None?)
        && ms[0].start <= ms[|ms| - 1].start
  {
    var ms := FindAll(pat, s, from);
    if ms != [] {
      FindAllOrdered(pat, s, from);
      FindAllLast(pat, s, from);
      assert |ms| > 1 ==> ms[0].end <= ms[|ms| - 1].start;
    }
  }

  /** No match starts at or after the end of the last one. */
  lemma {:induction false} FindAllLast(pat: Pattern, s: string, from: nat)
    ensures var ms := FindAll(pat, s, from);
      ms != [] ==> forall q :: ms[|ms| - 1].end <= q ==> MatchAt(pat, s, q).None?
    decreases |s| - from
  {
    var ms := FindAll(pat, s, from);
    if ms != [] {
      var m := ms[0];
      var rest := FindAll(pat, s, m.end);
      FindAllStep(pat, s, from);
      if rest == [] {
        assert Search(pat, s, m.end).None?;
      } else {
        FindAllLast(pat, s, m.end);
        assert ms[|ms| - 1] == rest[|rest| - 1];
      }
    }
  }
}
