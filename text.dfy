/**
 * The handful of Python `str` operations the log tools rely on, over
 * `string` (a sequence of Unicode code points, as a Python `str` is).
 */
module Text {
  import opened Wrappers

  /** Python's `str.isspace`; `re` uses the same set for `\s` over `str`. */
  predicate IsSpace(c: char) {
    || c == ' '
    || ('\t' <= c <= '\r')
    || ('\U{1C}' <= c <= '\U{1F}')
    || c == '\U{85}' || c == '\U{A0}' || c == '\U{1680}'
    || ('\U{2000}' <= c <= '\U{200A}')
    || c == '\U{2028}' || c == '\U{2029}' || c == '\U{202F}' || c == '\U{205F}' || c == '\U{3000}'
  }

  /** An ASCII decimal digit. */
  predicate IsDigit(c: char) {
    '0' <= c <= '9'
  }

  predicate AllDigits(s: string) {
    forall k :: 0 <= k < |s| ==> IsDigit(s[k])
  }

  /** The character classes the fixed patterns repeat: `\s`, `\d`, `.` (`[^\n]`) and `[^"]`. */
  datatype CharClass = Space | Digit | NotNewline | NotQuote

  predicate InClass(c: char, cls: CharClass) {
    match cls
    case Space => IsSpace(c)
    case Digit => IsDigit(c)
    case NotNewline => c != '\n'
    case NotQuote => c != '"'
  }

  /** End of the longest run of `cls` characters from `i`: what a greedy `[cls]*` consumes. */
  function RunEnd(s: string, i: nat, cls: CharClass): (j: nat)
    requires i <= |s|
    ensures i <= j <= |s|
    ensures forall k :: i <= k < j ==> InClass(s[k], cls)
    ensures j == |s| || !InClass(s[j], cls)
    decreases |s| - i
  {
    if i < |s| && InClass(s[i], cls) then RunEnd(s, i + 1, cls) else i
  }

  /** A run of `cls` characters over `[i, j)` that stops at `j` ends there. */
  lemma RunEndExact(s: string, i: nat, j: nat, cls: CharClass)
    requires i <= j < |s|
    requires forall k :: i <= k < j ==> InClass(s[k], cls)
    requires !InClass(s[j], cls)
    ensures RunEnd(s, i, cls) == j
  {
  }

  /** A run of `cls` characters from `i` to the end of `s` ends at `|s|`. */
  lemma {:induction false} RunEndToEnd(s: string, i: nat, cls: CharClass)
    requires i <= |s|
    requires forall k :: i <= k < |s| ==> InClass(s[k], cls)
    ensures RunEnd(s, i, cls) == |s|
    decreases |s| - i
  {
    if i < |s| {
      RunEndToEnd(s, i + 1, cls);
    }
  }

  /** `s` without its trailing whitespace. */
  function TrimEnd(s: string): (r: string)
    ensures r <= s
    ensures r == [] || !IsSpace(r[|r| - 1])
    ensures forall k :: |r| <= k < |s| ==> IsSpace(s[k])
    decreases |s|
  {
    if s != [] && IsSpace(s[|s| - 1]) then TrimEnd(s[..|s| - 1]) else s
  }

  predicate AllSpace(s: string) {
    forall k :: 0 <= k < |s| ==> IsSpace(s[k])
  }

  /** Python's `str.strip()`: `s` is leading whitespace, then `r`, then trailing whitespace. */
  function Strip(s: string): (r: string)
    ensures r == [] || (!IsSpace(r[0]) && !IsSpace(r[|r| - 1]))
    ensures exists lead, trail :: s == lead + r + trail && AllSpace(lead) && AllSpace(trail)
  {
    var a := RunEnd(s, 0, Space);
    var r := TrimEnd(s[a..]);
    LeadingRun(s, a);
    TrailingRun(s[a..], r);
    StripParts(s, a, r);
    r
  }

  /** The leading run and the trimmed rest split `s` as `Strip` promises. */
  lemma StripParts(s: string, a: nat, r: string)
    requires a <= |s| && AllSpace(s[..a]) && (a < |s| ==> !IsSpace(s[a]))
    requires r <= s[a..] && (r == [] || !IsSpace(r[|r| - 1])) && AllSpace(s[a..][|r|..])
    ensures r == [] || (!IsSpace(r[0]) && !IsSpace(r[|r| - 1]))
    ensures exists lead, trail :: s == lead + r + trail && AllSpace(lead) && AllSpace(trail)
  {
    var body := s[a..];
    var lead, trail := s[..a], body[|r|..];
    assert body == r + trail;
    assert s == lead + r + trail by {
      assert s == lead + body;
    }
    if r != [] {
      assert !IsSpace(r[0]) by {
        assert a < |s| && r[0] == body[0] == s[a];
      }
    }
  }

  /** What `RunEnd` skips from the front is whitespace, and it stops at a non-space. */
  lemma LeadingRun(s: string, a: nat)
    requires a <= |s| && a == RunEnd(s, 0, Space)
    ensures AllSpace(s[..a]) && (a < |s| ==> !IsSpace(s[a]))
  {
    forall k | 0 <= k < a ensures IsSpace(s[..a][k]) { assert InClass(s[k], Space); }
  }

  /** What `TrimEnd` drops from the back is whitespace, and the rest is a prefix. */
  lemma TrailingRun(body: string, r: string)
    requires r == TrimEnd(body)
    ensures r <= body && (r == [] || !IsSpace(r[|r| - 1])) && AllSpace(body[|r|..])
  {
    var trail := body[|r|..];
    forall k | 0 <= k < |trail| ensures IsSpace(trail[k]) { assert trail[k] == body[|r| + k]; }
  }

  /** Python's `s.count(c)` for a one-character `c`. */
  function CountChar(s: string, c: char): (n: nat)
    ensures n <= |s|
    ensures n == 0 <==> c !in s
  {
    if s == [] then 0 else (if s[0] == c then 1 else 0) + CountChar(s[1..], c)
  }

  lemma {:induction false} CountCharConcat(a: string, b: string, c: char)
    ensures CountChar(a + b, c) == CountChar(a, c) + CountChar(b, c)
    decreases |a|
  {
    if a != [] {
      assert (a + b)[1..] == a[1..] + b;
      CountCharConcat(a[1..], b, c);
    } else {
      assert a + b == b;
    }
  }

  predicate OccursAt(s: string, sub: string, i: nat) {
    i + |sub| <= |s| && s[i..i + |sub|] == sub
  }

  lemma OccursAtTail(s: string, sub: string, j: nat)
    requires s != [] && j > 0
    ensures OccursAt(s, sub, j) <==> OccursAt(s[1..], sub, j - 1)
  {
    if j + |sub| <= |s| {
      assert s[1..][j - 1..j - 1 + |sub|] == s[j..j + |sub|];
    }
  }

  lemma OccursAtChar(s: string, c: char, j: nat)
    ensures OccursAt(s, [c], j) <==> (j < |s| && s[j] == c)
  {
    if j < |s| { assert s[j..j + 1] == [s[j]]; }
  }

  /** The first occurrence of a single character: it is `c`, and no `c` comes before it. */
  lemma FirstCharOccurrence(s: string, c: char)
    ensures FirstOccurrence(s, [c]).None? ==> c !in s
    ensures FirstOccurrence(s, [c]).Some? ==> var i := FirstOccurrence(s, [c]).value;
      i < |s| && s[i] == c && c !in s[..i]
  {
    ContainsChar(s, c);
    match FirstOccurrence(s, [c])
    case None =>
    case Some(i) =>
      OccursAtChar(s, c, i);
      assert c !in s[..i] by {
        forall j | 0 <= j < i ensures s[..i][j] != c { OccursAtChar(s, c, j); }
      }
  }

  /** `c in s` exactly when the one-character string `[c]` occurs in `s`. */
  lemma ContainsChar(s: string, c: char)
    ensures Contains(s, [c]) <==> c in s
  {
    if c in s {
      var j :| 0 <= j < |s| && s[j] == c;
      OccursAtChar(s, c, j);
    }
    if Contains(s, [c]) {
      OccursAtChar(s, c, FirstOccurrence(s, [c]).value);
    }
  }

  /** Python's `s.find(sub)`: the leftmost index at which `sub` occurs, if any. */
  function FirstOccurrence(s: string, sub: string): (r: Option<nat>)
    ensures r.Some? ==> OccursAt(s, sub, r.value)
    ensures r.Some? ==> forall j :: 0 <= j < r.value ==> !OccursAt(s, sub, j)
    ensures r.None? ==> forall j: nat :: !OccursAt(s, sub, j)
    decreases |s|
  {
    if |s| < |sub| then None
    else if s[..|sub|] == sub then Some(0)
    else
      var rest := FirstOccurrence(s[1..], sub);
      assert !OccursAt(s, sub, 0);
      match rest
      case None =>
        assert forall j: nat :: !OccursAt(s, sub, j) by {
          forall j: nat | j > 0 { OccursAtTail(s, sub, j); }
        }
        None
      case Some(i) =>
        assert OccursAt(s, sub, i + 1) by { OccursAtTail(s, sub, i + 1); }
        assert forall j :: 0 <= j < i + 1 ==> !OccursAt(s, sub, j) by {
          forall j | 0 < j < i + 1 { OccursAtTail(s, sub, j); }
        }
        Some(i + 1)
  }

  /** Python's `sub in s`. */
  predicate Contains(s: string, sub: string) {
    FirstOccurrence(s, sub).Some?
  }

  /** `"".join(parts)` when `sep` is empty, `sep.join(parts)` in general. */
  function Join(parts: seq<string>, sep: string): string {
    if parts == [] then ""
    else if |parts| == 1 then parts[0]
    else parts[0] + sep + Join(parts[1..], sep)
  }

  lemma PrefixOccurrence(s: string, sub: string, i: nat, j: nat)
    requires i <= |s| && OccursAt(s[..i], sub, j)
    ensures OccursAt(s, sub, j)
  {
    assert s[..i][j..j + |sub|] == s[j..j + |sub|];
  }

  /**
   * Python's `s.split(sep)` for a non-empty separator: at least one part, the
   * parts joined back by `sep` give `s`, and no part contains `sep`.
   */
  function Split(s: string, sep: string): (parts: seq<string>)
    requires sep != []
    ensures |parts| >= 1
    ensures Join(parts, sep) == s
    ensures forall k :: 0 <= k < |parts| ==> !Contains(parts[k], sep)
    decreases |s|
  {
    match FirstOccurrence(s, sep)
    case None => [s]
    case Some(i) =>
      var head, rest := s[..i], Split(s[i + |sep|..], sep);
      assert !Contains(head, sep) by {
        if Contains(head, sep) {
          PrefixOccurrence(s, sep, i, FirstOccurrence(head, sep).value);
        }
      }
      assert s == head + sep + s[i + |sep|..] by {
        assert s[i..i + |sep|] == sep;
      }
      [head] + rest
  }

  lemma {:induction false} JoinLast(parts: seq<string>, sep: string)
    requires |parts| >= 2
    ensures Join(parts, sep) == Join(parts[..|parts| - 1], sep) + sep + parts[|parts| - 1]
    decreases |parts|
  {
    if |parts| > 2 {
      JoinLast(parts[1..], sep);
      assert parts[1..][..|parts| - 2] == parts[..|parts| - 1][1..];
    }
  }

  /** Splitting at a character gives one part more than there are such characters. */
  lemma {:induction false} SplitCount(s: string, c: char)
    ensures |Split(s, [c])| == CountChar(s, c) + 1
    decreases |s|
  {
    FirstCharOccurrence(s, c);
    match FirstOccurrence(s, [c])
    case None =>
    case Some(i) =>
      assert s == s[..i] + [c] + s[i + 1..];
      CountCharConcat(s[..i] + [c], s[i + 1..], c);
      CountCharConcat(s[..i], [c], c);
      SplitCount(s[i + 1..], c);
  }

  /**
   * Python's `s.replace(target, replacement)`: the pieces `s` splits into at the
   * occurrences of `target` are kept as they are and joined by `replacement` instead.
   */
  function ReplaceAll(s: string, target: string, replacement: string): string
    requires target != []
    decreases |s|
  {
    match FirstOccurrence(s, target)
    case None => s
    case Some(i) => s[..i] + replacement + ReplaceAll(s[i + |target|..], target, replacement)
  }

  /**
   * What `ReplaceAll` means: the pieces between occurrences of `target` are
   * kept and rejoined with `replacement`; without an occurrence nothing changes.
   */
  lemma {:induction false} ReplaceAllJoinsPieces(s: string, target: string, replacement: string)
    requires target != []
    ensures ReplaceAll(s, target, replacement) == Join(Split(s, target), replacement)
    ensures !Contains(s, target) ==> ReplaceAll(s, target, replacement) == s
    decreases |s|
  {
    match FirstOccurrence(s, target)
    case None =>
    case Some(i) =>
      var rest := s[i + |target|..];
      ReplaceAllJoinsPieces(rest, target, replacement);
      var parts := Split(rest, target);
      assert Split(s, target) == [s[..i]] + parts;
      assert ([s[..i]] + parts)[1..] == parts;
  }

  /** Replacing one character by another maps each character in place. */
  lemma {:induction false} ReplaceCharPointwise(s: string, a: char, b: char)
    ensures |ReplaceAll(s, [a], [b])| == |s|
    ensures forall k :: 0 <= k < |s| ==> ReplaceAll(s, [a], [b])[k] == (if s[k] == a then b else s[k])
    decreases |s|
  {
    var r := ReplaceAll(s, [a], [b]);
    match FirstOccurrence(s, [a])
    case None =>
      forall k | 0 <= k < |s| ensures s[k] != a { OccursAtChar(s, a, k); }
    case Some(i) =>
      OccursAtChar(s, a, i);
      var tail := s[i + 1..];
      var rt := ReplaceAll(tail, [a], [b]);
      ReplaceCharPointwise(tail, a, b);
      assert r == s[..i] + [b] + rt;
      forall k | 0 <= k < |s| ensures r[k] == (if s[k] == a then b else s[k]) {
        if k < i {
          OccursAtChar(s, a, k);
        } else if k > i {
          assert r[k] == rt[k - i - 1] && tail[k - i - 1] == s[k];
        }
      }
  }

  /** The value of a string of ASCII digits, as Python's `int()` reads it. */
  function DigitsValue(s: string): nat
    requires AllDigits(s)
    decreases |s|
  {
    if s == [] then 0 else 10 * DigitsValue(s[..|s| - 1]) + (s[|s| - 1] as int - '0' as int)
  }

  function DigitChar(d: nat): (c: char)
    requires d < 10
    ensures IsDigit(c) && c as int - '0' as int == d
  {
    (d + '0' as int) as char
  }

  /** Python's `str(n)` for `n >= 0`: the digits read back as `n`, with no leading zero. */
  function DecimalString(n: nat): (r: string)
    ensures r != [] && AllDigits(r)
    ensures DigitsValue(r) == n
    ensures r[0] == '0' ==> r == "0"
    decreases n
  {
    if n < 10 then [DigitChar(n)]
    else
      var front := DecimalString(n / 10);
      var r := front + [DigitChar(n % 10)];
      assert r[..|r| - 1] == front;
      r
  }

  /** Python's `str(n)` on an integer. */
  function IntToString(n: int): (r: string)
    ensures r != []
    ensures n >= 0 ==> r == DecimalString(n)
    ensures n < 0 ==> r == "-" + DecimalString(-n)
  {
    if n < 0 then "-" + DecimalString(-n) else DecimalString(n)
  }

  /** Python's `a <= b` on `str`: lexicographic by code point. */
  predicate LexLe(a: string, b: string) {
    a == [] || (b != [] && (a[0] < b[0] || (a[0] == b[0] && LexLe(a[1..], b[1..]))))
  }

  lemma {:induction false} LexLeRefl(a: string)
    ensures LexLe(a, a)
    decreases |a|
  {
    if a != [] { LexLeRefl(a[1..]); }
  }

  lemma {:induction false} LexLeTotal(a: string, b: string)
    ensures LexLe(a, b) || LexLe(b, a)
    decreases |a|
  {
    if a != [] && b != [] && a[0] == b[0] { LexLeTotal(a[1..], b[1..]); }
  }

  lemma {:induction false} LexLeTrans(a: string, b: string, c: string)
    requires LexLe(a, b) && LexLe(b, c)
    ensures LexLe(a, c)
    decreases |a|
  {
    if a != [] && a[0] == b[0] && b[0] == c[0] { LexLeTrans(a[1..], b[1..], c[1..]); }
  }

  lemma {:induction false} LexLeAntisym(a: string, b: string)
    requires LexLe(a, b) && LexLe(b, a)
    ensures a == b
    decreases |a|
  {
    if a != [] {
      LexLeAntisym(a[1..], b[1..]);
      assert a == [a[0]] + a[1..] && b == [b[0]] + b[1..];
    }
  }
}
