/**
 * Reassembling one JSON object that a CI log spreads over several lines
 * (src/log_parser.py). Each line contributes a payload; payloads are
 * collected from a start line until braces balance, joined, trimmed to the
 * first `{`, and decoded, with one repair pass for trailing commas.
 * `json.loads` is the parameter `decode`: `None` stands for its
 * `JSONDecodeError`.
 */
module LogParser {
  import opened Wrappers
  import opened Text
  import opened Json
  import opened Patterns

  /** The field separator of the log lines `gh run view --log` prints. */
  const Tab: char := '\t'

  /**
   * The payload of one log line: what follows the first timestamp that is
   * followed by whitespace; otherwise the last tab-separated field when there
   * are at least three; otherwise the trimmed line.
   */
  function ExtractJsonPart(line: string): string {
    match Search(TimestampPayload, line, 0)
    case Some(m) => m.group
    case None => LastFieldOr(Split(line, [Tab]), Strip(line))
  }

  /** The last of three or more fields, or else `otherwise`. */
  function LastFieldOr(fields: seq<string>, otherwise: string): string {
    if |fields| >= 3 then fields[|fields| - 1] else otherwise
  }

  /** A timestamp starts at `p` and a whitespace character follows its `Z`. */
  predicate StampThenSpace(line: string, p: nat) {
    match TimestampEnd(line, p)
    case None => false
    case Some(e) => e < |line| && IsSpace(line[e])
  }

  lemma PayloadMatchIff(line: string, p: nat)
    ensures MatchAt(TimestampPayload, line, p).Some? <==> StampThenSpace(line, p)
  {
    match TimestampEnd(line, p)
    case None =>
    case Some(e) =>
      var w := RunEnd(line, e, Space);
      assert w > e <==> (e < |line| && IsSpace(line[e]));
  }

  /**
   * With a timestamp followed by whitespace at `p`, and none earlier, the
   * payload is the rest of the line after that whitespace run (up to a
   * newline, which a line split at newlines never holds).
   */
  lemma PayloadAfterTimestamp(line: string, p: nat)
    requires StampThenSpace(line, p)
    requires forall q :: 0 <= q < p ==> !StampThenSpace(line, q)
    ensures var w := RunEnd(line, TimestampEnd(line, p).value, Space);
      && ExtractJsonPart(line) == line[w..RunEnd(line, w, NotNewline)]
      && ('\n' !in line ==> ExtractJsonPart(line) == line[w..])
  {
    PayloadMatchIff(line, p);
    forall q | 0 <= q < p ensures MatchAt(TimestampPayload, line, q).None? {
      PayloadMatchIff(line, q);
    }
    var r := Search(TimestampPayload, line, 0);
    assert r.Some? && r.value.start == p;
    var w := RunEnd(line, TimestampEnd(line, p).value, Space);
    var e := RunEnd(line, w, NotNewline);
    assert e < |line| ==> line[e] in line;
  }

  /** The last of two fields or more, joined by `c`, is the tail of the joined text after its last `c`. */
  lemma JoinedLastField(fields: seq<string>, c: char)
    requires |fields| >= 2
    ensures var line, last := Join(fields, [c]), fields[|fields| - 1];
      |last| < |line| && line[|line| - |last| - 1] == c && last == line[|line| - |last|..]
  {
    var last := fields[|fields| - 1];
    var front := Join(fields[..|fields| - 1], [c]);
    JoinLast(fields, [c]);
    var line := Join(fields, [c]);
    assert line == front + [c] + last;
    assert line[|front|] == c;
    assert line[|front| + 1..] == last;
  }

  /**
   * The fallback `r` over the fields of `line` split at `sep`: the last field,
   * which follows the last separator, when there are three fields or more, and
   * the alternative text otherwise.
   */
  lemma LastFieldOrShape(line: string, sep: char, fields: seq<string>, otherwise: string, r: string)
    requires Join(fields, [sep]) == line
    requires fields != [] ==> sep !in fields[|fields| - 1]
    requires r == LastFieldOr(fields, otherwise)
    ensures |fields| >= 3 ==>
      |r| < |line| && line[|line| - |r| - 1] == sep && r == line[|line| - |r|..] && sep !in r
    ensures |fields| < 3 ==> r == otherwise
  {
    if |fields| >= 3 {
      JoinedLastField(fields, sep);
    }
  }

  /** Without a timestamp followed by whitespace, the payload pattern matches nowhere in the line. */
  lemma NoStampNoMatch(line: string)
    requires forall q :: 0 <= q < |line| ==> !StampThenSpace(line, q)
    ensures Search(TimestampPayload, line, 0).None?
  {
    forall q: nat ensures MatchAt(TimestampPayload, line, q).None? {
      PayloadMatchIff(line, q);
    }
  }

  /** When the payload pattern matches nowhere, the payload is the last of three or more tab-separated fields, or else the trimmed line. */
  lemma PayloadWithoutMatch(line: string)
    requires Search(TimestampPayload, line, 0).None?
    ensures var r := ExtractJsonPart(line);
      && (CountChar(line, Tab) >= 2 ==>
            |r| < |line| && line[|line| - |r| - 1] == Tab && r == line[|line| - |r|..] && Tab !in r)
      && (CountChar(line, Tab) < 2 ==> r == Strip(line))
  {
    var r := ExtractJsonPart(line);
    var fields := Split(line, [Tab]);
    assert r == LastFieldOr(fields, Strip(line));
    assert |fields| == CountChar(line, Tab) + 1 by { SplitCount(line, Tab); }
    assert Tab !in fields[|fields| - 1] by { ContainsChar(fields[|fields| - 1], Tab); }
    LastFieldOrShape(line, Tab, fields, Strip(line), r);
  }

  /**
   * With no timestamp followed by whitespace anywhere, a line holding two
   * tabs or more (three fields or more) yields what follows its last tab, and
   * any other line yields itself trimmed.
   */
  lemma PayloadWithoutTimestamp(line: string)
    requires forall q :: 0 <= q < |line| ==> !StampThenSpace(line, q)
    ensures var r := ExtractJsonPart(line);
      && (CountChar(line, Tab) >= 2 ==>
            |r| < |line| && line[|line| - |r| - 1] == Tab && r == line[|line| - |r|..] && Tab !in r)
      && (CountChar(line, Tab) < 2 ==> r == Strip(line))
  {
    NoStampNoMatch(line);
    PayloadWithoutMatch(line);
  }

  /**
   * The text from its first `{` on, unless it already starts with one. The
   * result starts with `{` or holds none, and it is a suffix of `t` whose
   * cut-off part holds no `{`; a text without `{` is kept whole.
   */
  function FromFirstBrace(t: string): (r: string)
    ensures (r != [] && r[0] == '{') || '{' !in r
    ensures |r| <= |t| && r == t[|t| - |r|..] && '{' !in t[..|t| - |r|]
    ensures '{' !in t ==> r == t
  {
    if t != [] && t[0] == '{' then t
    else
      FirstCharOccurrence(t, '{');
      match FirstOccurrence(t, "{")
      case None => t
      case Some(i) => t[i..]
  }

  /** `_prepare_json_string`: the joined payloads, trimmed, from their first `{` on. */
  function PrepareJsonString(parts: seq<string>): (r: string)
    ensures (r != [] && r[0] == '{') || '{' !in r
    ensures var t := Strip(Join(parts, ""));
      && |r| <= |t| && r == t[|t| - |r|..] && '{' !in t[..|t| - |r|]
      && ('{' !in t ==> r == t)
  {
    FromFirstBrace(Strip(Join(parts, "")))
  }

  /**
   * One pass of `re.sub(",\s*" + close, close, s)`: a comma followed by
   * whitespace and then `close` becomes `close`; the scan resumes after it.
   */
  function DropCommaBefore(s: string, close: char): string
    decreases |s|
  {
    if s == [] then []
    else
      var w := RunEnd(s, 1, Space);
      if s[0] == ',' && w < |s| && s[w] == close then [close] + DropCommaBefore(s[w + 1..], close)
      else [s[0]] + DropCommaBefore(s[1..], close)
  }

  /** The repair pass: trailing commas before `}`, then before `]`. */
  function RemoveTrailingCommas(s: string): string {
    DropCommaBefore(DropCommaBefore(s, '}'), ']')
  }

  /** `s` without its commas and whitespace. */
  function Squeeze(s: string): string
    decreases |s|
  {
    if s == [] then [] else (if s[0] == ',' || IsSpace(s[0]) then [] else [s[0]]) + Squeeze(s[1..])
  }

  /** Squeezing skips a stretch of commas and whitespace. */
  lemma {:induction false} SqueezeSkip(s: string, i: nat, w: nat)
    requires i <= w <= |s|
    requires forall k :: i <= k < w ==> s[k] == ',' || IsSpace(s[k])
    ensures Squeeze(s[i..]) == Squeeze(s[w..])
    decreases w - i
  {
    if i < w {
      assert s[i..][1..] == s[i + 1..];
      SqueezeSkip(s, i + 1, w);
    }
  }

  /** A pass deletes commas and whitespace only: every other character stays, in order. */
  lemma {:induction false} DropCommaBeforeKeepsRest(s: string, close: char)
    ensures Squeeze(DropCommaBefore(s, close)) == Squeeze(s)
    decreases |s|
  {
    if s != [] {
      var w := RunEnd(s, 1, Space);
      if s[0] == ',' && w < |s| && s[w] == close {
        var rest := s[w + 1..];
        var d := DropCommaBefore(rest, close);
        DropCommaBeforeKeepsRest(rest, close);
        assert DropCommaBefore(s, close) == [close] + d;
        assert ([close] + d)[1..] == d;
        assert s[0..] == s;
        SqueezeSkip(s, 0, w);
        assert s[w..][1..] == rest;
      } else {
        var d := DropCommaBefore(s[1..], close);
        DropCommaBeforeKeepsRest(s[1..], close);
        assert DropCommaBefore(s, close) == [s[0]] + d;
        assert ([s[0]] + d)[1..] == d;
      }
    }
  }

  /** The repair removes nothing but commas and whitespace, so it keeps every brace. */
  lemma RepairKeepsRest(s: string)
    ensures Squeeze(RemoveTrailingCommas(s)) == Squeeze(s)
  {
    DropCommaBeforeKeepsRest(s, '}');
    DropCommaBeforeKeepsRest(DropCommaBefore(s, '}'), ']');
  }

  /** A pass changes nothing in a text without the closing character. */
  lemma {:induction false} DropCommaBeforeAbsent(s: string, close: char)
    requires close !in s
    ensures DropCommaBefore(s, close) == s
    decreases |s|
  {
    if s != [] {
      DropCommaBeforeAbsent(s[1..], close);
      assert s == [s[0]] + s[1..];
    }
  }

  /** The whitespace run after a leading comma stops at or before a non-space at `n`. */
  lemma RunStopsAt(s: string, n: nat)
    requires 1 <= n < |s| && !IsSpace(s[n])
    ensures RunEnd(s, 1, Space) <= n
  {
  }

  /**
   * No match starts at the head of such a prefix, so the pass copies its first
   * character, and the rest of the prefix is again such a prefix.
   */
  lemma DropCommaBeforeHead(a: string, b: string, close: char)
    requires a != [] && close !in a
    requires a[|a| - 1] != ',' && !IsSpace(a[|a| - 1])
    ensures DropCommaBefore(a + b, close) == [a[0]] + DropCommaBefore(a[1..] + b, close)
    ensures close !in a[1..]
    ensures a[1..] != [] ==> a[1..][|a[1..]| - 1] != ',' && !IsSpace(a[1..][|a[1..]| - 1])
  {
    var s := a + b;
    assert s[1..] == a[1..] + b;
    if a[0] == ',' {
      assert s[|a| - 1] == a[|a| - 1];
      RunStopsAt(s, |a| - 1);
      var w := RunEnd(s, 1, Space);
      assert s[w] == a[w] != close;
    }
    assert close !in a[1..] by {
      forall k | 0 <= k < |a| - 1 ensures a[1..][k] != close { assert a[1..][k] == a[k + 1]; }
    }
  }

  /** Putting the head back in front of the tail and a suffix gives the whole text and the suffix. */
  lemma ConsAppend(a: string, d: string)
    requires a != []
    ensures [a[0]] + (a[1..] + d) == a + d
  {
    assert a == [a[0]] + a[1..];
  }

  /**
   * A pass leaves alone a prefix that holds no closing character and does not
   * end in a comma or whitespace, because no match can start inside it.
   */
  lemma {:induction false} DropCommaBeforePrefix(a: string, b: string, close: char)
    requires close !in a
    requires a != [] ==> a[|a| - 1] != ',' && !IsSpace(a[|a| - 1])
    ensures DropCommaBefore(a + b, close) == a + DropCommaBefore(b, close)
    decreases |a|
  {
    if a == [] {
      assert a + b == b;
    } else {
      DropCommaBeforeHead(a, b, close);
      DropCommaBeforePrefix(a[1..], b, close);
      ConsAppend(a, DropCommaBefore(b, close));
    }
  }

  /**
   * A pass copies a text without the closing character when a comma follows
   * it: a match starting inside it would need its whitespace run to reach the
   * closing character, and the comma stops the run first.
   */
  lemma {:induction false} DropCommaBeforeToComma(a: string, b: string, close: char)
    requires close !in a && close != ','
    requires b != [] && b[0] == ','
    ensures DropCommaBefore(a + b, close) == a + DropCommaBefore(b, close)
    decreases |a|
  {
    if a == [] {
      assert a + b == b;
    } else {
      DropCommaBeforeHeadToComma(a, b, close);
      DropCommaBeforeToComma(a[1..], b, close);
      ConsAppend(a, DropCommaBefore(b, close));
    }
  }

  /** No match starts at the head of such a text, so the pass copies its first character. */
  lemma DropCommaBeforeHeadToComma(a: string, b: string, close: char)
    requires a != [] && close !in a && close != ','
    requires b != [] && b[0] == ','
    ensures DropCommaBefore(a + b, close) == [a[0]] + DropCommaBefore(a[1..] + b, close)
    ensures close !in a[1..]
  {
    var s := a + b;
    assert s[1..] == a[1..] + b;
    if a[0] == ',' {
      assert s[|a|] == ',';
      RunStopsAt(s, |a|);
      var w := RunEnd(s, 1, Space);
      assert w < |a| ==> s[w] == a[w];
    }
    assert close !in a[1..] by {
      forall k | 0 <= k < |a| - 1 ensures a[1..][k] != close { assert a[1..][k] == a[k + 1]; }
    }
  }

  /**
   * The pass removes a trailing comma: a comma, whitespace and the closing
   * character become the closing character, wherever they stand after a text
   * without that character.
   */
  lemma DropTrailingComma(a: string, w: string, b: string, close: char)
    requires close !in a && close != ',' && !IsSpace(close) && AllSpace(w)
    ensures DropCommaBefore(a + [','] + w + [close] + b, close) == a + [close] + DropCommaBefore(b, close)
  {
    var m := [','] + w + [close] + b;
    var d := DropCommaBefore(b, close);
    calc {
      DropCommaBefore(a + [','] + w + [close] + b, close);
      { assert a + [','] + w + [close] + b == a + m; }
      DropCommaBefore(a + m, close);
      { DropCommaBeforeToComma(a, m, close); }
      a + DropCommaBefore(m, close);
      { CommaBeforeClose(w, b, close); }
      a + ([close] + d);
      a + [close] + d;
    }
  }

  /** A comma, a whitespace run and the closing character at the start become the closing character. */
  lemma CommaBeforeClose(w: string, b: string, close: char)
    requires !IsSpace(close) && AllSpace(w)
    ensures DropCommaBefore([','] + w + [close] + b, close) == [close] + DropCommaBefore(b, close)
  {
    var m := [','] + w + [close] + b;
    var e := 1 + |w|;
    forall k | 1 <= k < e ensures InClass(m[k], Space) {
      assert m[k] == w[k - 1];
    }
    assert m[e] == close;
    RunEndExact(m, 1, e, Space);
    assert m[e + 1..] == b;
  }

  /** The repair of the documented trailing-comma object. */
  lemma RepairExample()
    ensures RemoveTrailingCommas("{\"a\": 1, \"b\": 2,}") == "{\"a\": 1, \"b\": 2}"
  {
    var body := "{\"a\": 1, \"b\": 2";
    assert '}' !in body by {
      forall k | 0 <= k < |body| ensures body[k] != '}' {}
    }
    assert "{\"a\": 1, \"b\": 2,}" == body + [','] + "" + ['}'] + "";
    DropTrailingComma(body, "", "", '}');
    var repaired := body + ['}'] + "";
    assert repaired == "{\"a\": 1, \"b\": 2}";
    assert ']' !in repaired by {
      forall k | 0 <= k < |repaired| ensures repaired[k] != ']' {}
    }
    DropCommaBeforeAbsent(repaired, ']');
  }

  /**
   * `_parse_json_with_cleanup`: a value only when it is an object; the
   * repaired text is decoded only when the original text fails to decode.
   */
  function ParseJsonWithCleanup(s: string, decode: string -> Option<Value>): (r: Option<Value>)
    ensures r.Some? ==> r.value.Object?
    ensures decode(s).Some? ==> r == (if decode(s).value.Object? then decode(s) else None)
    ensures decode(s).None? ==> r.Some? ==> r == decode(RemoveTrailingCommas(s))
    ensures decode(s).None? && decode(RemoveTrailingCommas(s)).Some? && decode(RemoveTrailingCommas(s)).value.Object?
      ==> r == decode(RemoveTrailingCommas(s))
  {
    match decode(s)
    case Some(v) => if v.Object? then Some(v) else None
    case None =>
      match decode(RemoveTrailingCommas(s))
      case Some(v) => if v.Object? then Some(v) else None
      case None => None
  }

  /** Once the first decode succeeds, what the decoder would say of the repaired text is irrelevant. */
  lemma NoRepairAfterDecode(s: string, d1: string -> Option<Value>, d2: string -> Option<Value>)
    requires d1(s).Some? && d1(s) == d2(s)
    ensures ParseJsonWithCleanup(s, d1) == ParseJsonWithCleanup(s, d2)
    ensures !d1(s).value.Object? ==> ParseJsonWithCleanup(s, d1).None?
  {
  }

  /** A decoder that rejects the trailing comma and accepts the repaired text yields the object. */
  lemma TrailingCommaExample(decode: string -> Option<Value>)
    requires decode("{\"a\": 1, \"b\": 2,}").None?
    requires decode("{\"a\": 1, \"b\": 2}") == Some(Object(map["a" := Int(1), "b" := Int(2)]))
    ensures ParseJsonWithCleanup("{\"a\": 1, \"b\": 2,}", decode) == Some(Object(map["a" := Int(1), "b" := Int(2)]))
  {
    RepairExample();
  }

  // ---- the brace-counting scan, as functions of the line sequence ----

  /**
   * The payloads of `lines[start..end]`, line by line. The payload function is
   * a parameter so that the facts about this sequence hold for any of them;
   * the log parser's is `ExtractJsonPart`.
   */
  function Payloads(payload: string -> string, lines: seq<string>, start: nat, end: nat): (ps: seq<string>)
    requires start <= end <= |lines|
    ensures |ps| == end - start
    decreases end - start
  {
    if end == start then [] else Payloads(payload, lines, start, end - 1) + [payload(lines[end - 1])]
  }

  /** The payload at position `j` is that of line `start + j`. */
  lemma {:induction false} PayloadsAt(payload: string -> string, lines: seq<string>, start: nat, end: nat, j: nat)
    requires start + j < end <= |lines|
    ensures Payloads(payload, lines, start, end)[j] == payload(lines[start + j])
    decreases end - start
  {
    if start + j < end - 1 {
      PayloadsAt(payload, lines, start, end - 1, j);
    }
  }

  /** The payloads up to `mid` are a prefix of those up to `end`. */
  lemma {:induction false} PayloadsPrefix(payload: string -> string, lines: seq<string>, start: nat, mid: nat, end: nat)
    requires start <= mid <= end <= |lines|
    ensures Payloads(payload, lines, start, end)[..mid - start] == Payloads(payload, lines, start, mid)
    decreases end - mid
  {
    if mid < end {
      PayloadsPrefix(payload, lines, start, mid, end - 1);
      assert Payloads(payload, lines, start, end)[..end - 1 - start] == Payloads(payload, lines, start, end - 1);
    }
  }

  /** The running balance: `{` minus `}` over `parts`. */
  function Balance(parts: seq<string>): int
    decreases |parts|
  {
    if parts == [] then 0
    else
      var last := parts[|parts| - 1];
      Balance(parts[..|parts| - 1]) + CountChar(last, '{') - CountChar(last, '}')
  }

  /** Some part holds a `{`. */
  predicate AnyOpening(parts: seq<string>) {
    exists k :: 0 <= k < |parts| && '{' in parts[k]
  }

  lemma BalanceAppend(parts: seq<string>, p: string)
    ensures Balance(parts + [p]) == Balance(parts) + CountChar(p, '{') - CountChar(p, '}')
  {
    assert (parts + [p])[..|parts|] == parts;
  }

  lemma AnyOpeningAppend(parts: seq<string>, p: string)
    ensures AnyOpening(parts + [p]) <==> AnyOpening(parts) || '{' in p
  {
    var all := parts + [p];
    if '{' in p {
      assert all[|parts|] == p;
    }
    if AnyOpening(parts) {
      var k :| 0 <= k < |parts| && '{' in parts[k];
      assert all[k] == parts[k];
    }
    if AnyOpening(all) && '{' !in p {
      var k :| 0 <= k < |all| && '{' in all[k];
      assert k < |parts| && parts[k] == all[k];
    }
  }

  /** The first `k + 1` payloads close the object: a `{` has been seen and the balance is back to 0. */
  predicate ClosesAt(ps: seq<string>, k: nat) {
    k < |ps| && AnyOpening(ps[..k + 1]) && Balance(ps[..k + 1]) == 0
  }

  /** The first index from `from` on at which the payloads close the object. */
  function ClosingLine(ps: seq<string>, from: nat): (c: Option<nat>)
    ensures c.Some? ==> from <= c.value < |ps|
    decreases |ps| - from
  {
    if from >= |ps| then None
    else if ClosesAt(ps, from) then Some(from)
    else ClosingLine(ps, from + 1)
  }

  /** `ClosingLine` finds an index that closes, and no index before it closes; when it finds none, none closes. */
  lemma {:induction false} ClosingLineFirst(ps: seq<string>, from: nat)
    ensures var c := ClosingLine(ps, from);
      && (c.Some? ==> ClosesAt(ps, c.value))
      && forall j :: from <= j < (if c.Some? then c.value else |ps|) ==> !ClosesAt(ps, j)
    decreases |ps| - from
  {
    if from < |ps| && !ClosesAt(ps, from) {
      ClosingLineFirst(ps, from + 1);
    }
  }

  /** The payloads of every line from `start` on. */
  function AllPayloads(lines: seq<string>, start: nat): (ps: seq<string>)
    ensures |ps| == if start <= |lines| then |lines| - start else 0
  {
    if start <= |lines| then Payloads(ExtractJsonPart, lines, start, |lines|) else []
  }

  /** What `extract_json_from_multiline_log` returns. */
  function Reassemble(lines: seq<string>, start: nat, decode: string -> Option<Value>): Option<Value> {
    Closed(AllPayloads(lines, start), decode)
  }

  /** The cleaned-up decode of the payloads up to the first line that closes the object; `None` when none closes. */
  function Closed(ps: seq<string>, decode: string -> Option<Value>): Option<Value> {
    ClosedWith(ps, ClosingLine(ps, 0), decode)
  }

  /** The cleaned-up decode of the payloads up to the closing line `c`, if there is one. */
  function ClosedWith(ps: seq<string>, c: Option<nat>, decode: string -> Option<Value>): Option<Value>
    requires c.Some? ==> c.value < |ps|
  {
    match c
    case None => None
    case Some(k) => ParseJsonWithCleanup(PrepareJsonString(ps[..k + 1]), decode)
  }

  /**
   * `extract_json_from_multiline_log`: walks the lines from `start`, keeping
   * the brace balance and whether a `{` has been seen, and decodes the joined
   * payloads at the first line where the object closes.
   */
  method ExtractJsonFromMultilineLog(lines: seq<string>, start: nat, decode: string -> Option<Value>)
    returns (r: Option<Value>)
    ensures r == Reassemble(lines, start, decode)
  {
    ghost var ps := AllPayloads(lines, start);
    var jsonParts: seq<string> := [];
    var braceCount: int := 0;
    var foundOpeningBrace := false;
    var i := start;
    while i < |lines|
      invariant start <= i
      invariant i - start <= |ps|
      invariant jsonParts == ps[..i - start]
      invariant braceCount == Balance(jsonParts)
      invariant foundOpeningBrace == AnyOpening(jsonParts)
      invariant ClosingLine(ps, 0) == ClosingLine(ps, i - start)
    {
      var jsonPart := ExtractJsonPart(lines[i]);
      PayloadOfLine(lines, start, i);
      var openBraces := CountChar(jsonPart, '{');
      var closeBraces := CountChar(jsonPart, '}');
      braceCount := braceCount + openBraces - closeBraces;
      if openBraces > 0 {
        foundOpeningBrace := true;
      }
      ScanStep(ps, i - start);
      jsonParts := jsonParts + [jsonPart];
      assert jsonParts == ps[..i - start + 1];
      if foundOpeningBrace && braceCount == 0 {
        assert ClosingLine(ps, i - start) == Some(i - start);
        ReassembleAtClose(lines, start, decode, i - start);
        var jsonStr := PrepareJsonString(jsonParts);
        r := ParseJsonWithCleanup(jsonStr, decode);
        return;
      }
      ClosingLineSkip(ps, i - start);
      i := i + 1;
    }
    ClosingLineNone(lines, start, decode);
    r := None;
  }

  /** The payload of line `i` sits at position `i - start` of the payloads from `start`. */
  lemma PayloadOfLine(lines: seq<string>, start: nat, i: nat)
    requires start <= i < |lines|
    ensures i - start < |AllPayloads(lines, start)|
    ensures AllPayloads(lines, start)[i - start] == ExtractJsonPart(lines[i])
  {
    PayloadsAt(ExtractJsonPart, lines, start, |lines|, i - start);
    assert start + (i - start) == i;
  }

  /** A line that does not close the object leaves the search for the closing line to the next one. */
  lemma ClosingLineSkip(ps: seq<string>, n: nat)
    requires n < |ps| && !ClosesAt(ps, n)
    ensures ClosingLine(ps, n) == ClosingLine(ps, n + 1)
  {
  }

  /** When the search for the closing line finds none, there is no answer. */
  lemma ClosingLineNone(lines: seq<string>, start: nat, decode: string -> Option<Value>)
    requires ClosingLine(AllPayloads(lines, start), 0).None?
    ensures Reassemble(lines, start, decode).None?
  {
    assert Closed(AllPayloads(lines, start), decode) == ClosedWith(AllPayloads(lines, start), None, decode);
  }

  /** One step of the scan: how the balance, the seen-a-brace flag and the closing test extend by one payload. */
  lemma ScanStep(ps: seq<string>, n: nat)
    requires n < |ps|
    ensures ps[..n + 1] == ps[..n] + [ps[n]]
    ensures Balance(ps[..n + 1]) == Balance(ps[..n]) + CountChar(ps[n], '{') - CountChar(ps[n], '}')
    ensures AnyOpening(ps[..n + 1]) <==> AnyOpening(ps[..n]) || CountChar(ps[n], '{') > 0
    ensures ClosesAt(ps, n) <==> AnyOpening(ps[..n + 1]) && Balance(ps[..n + 1]) == 0
  {
    assert ps[..n + 1] == ps[..n] + [ps[n]];
    BalanceAppend(ps[..n], ps[n]);
    AnyOpeningAppend(ps[..n], ps[n]);
  }

  /** When no line closes the object, there is no answer. */
  lemma NeverClosesNone(lines: seq<string>, start: nat, decode: string -> Option<Value>)
    requires forall j :: 0 <= j < |AllPayloads(lines, start)| ==> !ClosesAt(AllPayloads(lines, start), j)
    ensures Reassemble(lines, start, decode).None?
  {
    ClosingLineFirst(AllPayloads(lines, start), 0);
  }

  // ---- properties of the scan ----

  /**
   * When no payload from `start` on holds a `{` (in particular when `start`
   * is past the last line) nothing is decoded and the answer is `None`.
   */
  lemma NoOpeningBraceNoObject(lines: seq<string>, start: nat, decode: string -> Option<Value>)
    requires forall k :: start <= k < |lines| ==> '{' !in ExtractJsonPart(lines[k])
    ensures Reassemble(lines, start, decode).None?
  {
    var ps := AllPayloads(lines, start);
    if start <= |lines| {
      PayloadsWithoutBrace(ExtractJsonPart, lines, start);
    }
    forall k | 0 <= k < |ps| ensures !ClosesAt(ps, k) {
      var pre := ps[..k + 1];
      assert forall j :: 0 <= j < |pre| ==> '{' !in pre[j] by {
        forall j | 0 <= j < |pre| ensures pre[j] == ps[j] { }
      }
    }
    NeverClosesNone(lines, start, decode);
  }

  /** When no line's payload holds a `{`, no element of the payload sequence does. */
  lemma PayloadsWithoutBrace(payload: string -> string, lines: seq<string>, start: nat)
    requires start <= |lines|
    requires forall k :: start <= k < |lines| ==> '{' !in payload(lines[k])
    ensures forall j :: 0 <= j < |lines| - start ==> '{' !in Payloads(payload, lines, start, |lines|)[j]
  {
    forall j | 0 <= j < |lines| - start ensures '{' !in Payloads(payload, lines, start, |lines|)[j] {
      PayloadsAt(payload, lines, start, |lines|, j);
    }
  }

  /** Payloads depend on their own line only: logs that agree before `end` agree on the payloads before it. */
  lemma {:induction false} PayloadsAgree(payload: string -> string, lines: seq<string>, other: seq<string>, start: nat, end: nat)
    requires start <= end <= |lines| && end <= |other|
    requires forall i :: start <= i < end ==> lines[i] == other[i]
    ensures Payloads(payload, lines, start, end) == Payloads(payload, other, start, end)
    decreases end - start
  {
    if end > start {
      PayloadsAgree(payload, lines, other, start, end - 1);
    }
  }

  /** Whether the object closes at `j` depends only on the payloads up to `j`. */
  lemma ClosingLineAgree(ps: seq<string>, qs: seq<string>, k: nat)
    requires ClosingLine(ps, 0) == Some(k)
    requires k < |qs| && ps[..k + 1] == qs[..k + 1]
    ensures ClosingLine(qs, 0) == Some(k)
  {
    forall j | 0 <= j <= k ensures ClosesAt(ps, j) == ClosesAt(qs, j) {
      assert ps[..j + 1] == ps[..k + 1][..j + 1];
      assert qs[..j + 1] == qs[..k + 1][..j + 1];
    }
    ClosingLineFirst(ps, 0);
    ClosingLineFirst(qs, 0);
  }

  /**
   * The lines consumed are exactly those up to the closing one: any log that
   * agrees with this one up to there closes at the same line and reassembles
   * to the same thing, whatever follows.
   */
  lemma ReadsNothingAfterClose(lines: seq<string>, other: seq<string>, start: nat, k: nat, decode: string -> Option<Value>)
    requires ClosingLine(AllPayloads(lines, start), 0) == Some(k)
    requires start + k < |other| && lines[..start + k + 1] == other[..start + k + 1]
    ensures ClosingLine(AllPayloads(other, start), 0) == Some(k)
    ensures Reassemble(other, start, decode) == Reassemble(lines, start, decode)
  {
    var ps := AllPayloads(lines, start);
    var qs := AllPayloads(other, start);
    ReassembleAtClose(lines, start, decode, k);
    AllPayloadsAgree(lines, other, start, k + 1);
    ClosingLineAgree(ps, qs, k);
    ReassembleAtClose(other, start, decode, k);
  }

  /** Two logs that agree on their first `start + n` lines agree on the first `n` payloads from `start`. */
  lemma PayloadsPrefixAgree(payload: string -> string, lines: seq<string>, other: seq<string>, start: nat, n: nat)
    requires start + n <= |lines| && start + n <= |other|
    requires forall i :: start <= i < start + n ==> lines[i] == other[i]
    ensures Payloads(payload, lines, start, |lines|)[..n] == Payloads(payload, other, start, |other|)[..n]
  {
    var x := Payloads(payload, lines, start, |lines|);
    var y := Payloads(payload, other, start, |other|);
    assert x[..n] == y[..n] by {
      forall j | 0 <= j < n ensures x[..n][j] == y[..n][j] {
        PayloadAgreeAt(payload, lines, other, start, j);
      }
    }
  }

  /** The payloads at position `j` agree when the lines at `start + j` do. */
  lemma PayloadAgreeAt(payload: string -> string, lines: seq<string>, other: seq<string>, start: nat, j: nat)
    requires start + j < |lines| && start + j < |other| && lines[start + j] == other[start + j]
    ensures Payloads(payload, lines, start, |lines|)[j] == Payloads(payload, other, start, |other|)[j]
  {
    PayloadsAt(payload, lines, start, |lines|, j);
    PayloadsAt(payload, other, start, |other|, j);
  }

  lemma AllPayloadsAgree(lines: seq<string>, other: seq<string>, start: nat, n: nat)
    requires start + n <= |lines| && start + n <= |other|
    requires lines[..start + n] == other[..start + n]
    ensures n <= |AllPayloads(lines, start)| && n <= |AllPayloads(other, start)|
    ensures AllPayloads(lines, start)[..n] == AllPayloads(other, start)[..n]
  {
    forall i | start <= i < start + n ensures lines[i] == other[i] {
      assert lines[i] == lines[..start + n][i];
    }
    PayloadsPrefixAgree(ExtractJsonPart, lines, other, start, n);
  }

  /** At the closing line `k`, the answer is the decoded join of the first `k + 1` payloads. */
  lemma ReassembleAtClose(lines: seq<string>, start: nat, decode: string -> Option<Value>, k: nat)
    requires ClosingLine(AllPayloads(lines, start), 0) == Some(k)
    ensures k < |AllPayloads(lines, start)|
    ensures Reassemble(lines, start, decode) == ParseJsonWithCleanup(PrepareJsonString(AllPayloads(lines, start)[..k + 1]), decode)
  {
    ClosedAt(AllPayloads(lines, start), decode, k);
  }

  lemma ClosedAt(ps: seq<string>, decode: string -> Option<Value>, k: nat)
    requires ClosingLine(ps, 0) == Some(k)
    ensures k < |ps|
    ensures Closed(ps, decode) == ParseJsonWithCleanup(PrepareJsonString(ps[..k + 1]), decode)
  {
    assert Closed(ps, decode) == ClosedWith(ps, Some(k), decode);
  }

  /** The running balance is the brace balance of the joined text. */
  lemma {:induction false} BalanceOfJoined(parts: seq<string>)
    ensures var joined := Join(parts, "");
      Balance(parts) == CountChar(joined, '{') - CountChar(joined, '}')
    decreases |parts|
  {
    if parts != [] {
      var front := parts[..|parts| - 1];
      var last := parts[|parts| - 1];
      assert parts == front + [last];
      BalanceOfJoined(front);
      JoinAppend(front, last);
      CountCharConcat(Join(front, ""), last, '{');
      CountCharConcat(Join(front, ""), last, '}');
    }
  }

  lemma {:induction false} JoinAppend(parts: seq<string>, last: string)
    ensures Join(parts + [last], "") == Join(parts, "") + last
    decreases |parts|
  {
    if parts == [] {
      assert parts + [last] == [last];
    } else if |parts| == 1 {
      assert Join(parts + [last], "") == parts[0] + "" + Join([last], "");
    } else {
      JoinAppend(parts[1..], last);
      assert (parts + [last])[1..] == parts[1..] + [last];
    }
  }
}
