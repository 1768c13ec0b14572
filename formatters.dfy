/**
 * The two cell formatters of the report (src/formatters.py): a duration in
 * milliseconds shown in seconds, and an ISO-8601 timestamp shortened to
 * `YYYY-MM-DD HH:MM:SS`.
 */
module Formatters {
  import opened Wrappers
  import opened Text
  import opened Json

  // ---- format_duration ----

  /** The fraction digits of `r` thousandths, without trailing zeros: `"0"` when `r` is 0. */
  function FracDigits(r: nat): (f: string)
    requires r < 1000
    ensures 1 <= |f| <= 3 && AllDigits(f)
    ensures f[|f| - 1] == '0' ==> f == "0"
  {
    var d1, d2, d3 := r / 10 / 10, r / 10 % 10, r % 10;
    if r == 0 then "0"
    else if d3 != 0 then [DigitChar(d1), DigitChar(d2), DigitChar(d3)]
    else if d2 != 0 then [DigitChar(d1), DigitChar(d2)]
    else [DigitChar(d1)]
  }

  /**
   * Python's `str(ms / 1000)` for an integer `ms`: the sign, the whole
   * seconds, a point, and the thousandths without trailing zeros (at least
   * one digit), as the shortest-repr rule prints them.
   */
  function SecondsText(ms: int): string {
    (if ms < 0 then "-" else "") + UnsignedText(if ms < 0 then -ms else ms)
  }

  /** `a` thousandths as whole seconds, a point and the fraction digits. */
  function UnsignedText(a: nat): string {
    DecimalString(a / 1000) + "." + FracDigits(a % 1000)
  }

  /**
   * `format_duration`: `"N/A"` for a falsy value (`None`, `0`, ...); otherwise
   * the value divided by 1000, as text. `floatText` is `str` on a float;
   * `None` is the `TypeError` that dividing a string, list or dict raises,
   * and the `OverflowError` of an integer whose quotient is past the
   * largest double.
   */
  function FormatDuration(d: Value, floatText: real -> string): Option<string> {
    if !Truthy(d) then Some("N/A")
    else
      match d
      case Int(n) => if FitsDouble(n as real / 1000.0) then Some(SecondsText(n)) else None
      case Bool(_) => Some(SecondsText(1))
      case Float(f) => Some(floatText(f / 1000.0))
      case _ => None
  }

  // ---- reading the seconds text back ----

  /** The index of the first `.` in `s`. */
  function DotIndex(s: string): (i: Option<nat>)
    ensures i.Some? ==> i.value < |s| && s[i.value] == '.'
    decreases |s|
  {
    if s == [] then None
    else if s[0] == '.' then Some(0)
    else match DotIndex(s[1..])
      case None => None
      case Some(j) => Some(j + 1)
  }

  /** One to three fraction digits, in thousandths. */
  function Thousandths(frac: string): nat
    requires AllDigits(frac) && 1 <= |frac| <= 3
  {
    if |frac| == 1 then DigitsValue(frac) * 100
    else if |frac| == 2 then DigitsValue(frac) * 10
    else DigitsValue(frac)
  }

  /** Thousandths written as `digits.frac` with 1 to 3 fraction digits. */
  function ReadUnsigned(u: string): Option<nat> {
    match DotIndex(u)
    case None => None
    case Some(i) =>
      var whole, frac := u[..i], u[i + 1..];
      if AllDigits(whole) && AllDigits(frac) && 1 <= |frac| <= 3 then
        Some(DigitsValue(whole) * 1000 + Thousandths(frac))
      else None
  }

  /** The number of milliseconds a seconds text with at most three decimals denotes. */
  function ReadSeconds(t: string): Option<int> {
    var negative := t != [] && t[0] == '-';
    match ReadUnsigned(if negative then t[1..] else t)
    case None => None
    case Some(v) => Some(if negative then -(v as int) else v as int)
  }

  lemma {:induction false} DotAfterDigits(w: string, f: string)
    requires AllDigits(w)
    ensures DotIndex(w + "." + f) == Some(|w|)
    decreases |w|
  {
    if w != [] {
      DotAfterDigits(w[1..], f);
      assert (w + "." + f)[1..] == w[1..] + "." + f;
    }
  }

  lemma FracDigitsValue(r: nat)
    requires r < 1000
    ensures Thousandths(FracDigits(r)) == r
  {
    var q := r / 10;
    var d1, d2, d3 := q / 10, q % 10, r % 10;
    assert r == 10 * q + d3 && q == 10 * d1 + d2;
    var c1, c2, c3 := DigitChar(d1), DigitChar(d2), DigitChar(d3);
    assert DigitsValue([c1]) == d1 by { assert [c1][..0] == []; }
    assert DigitsValue([c1, c2]) == 10 * d1 + d2 by { assert [c1, c2][..1] == [c1]; }
    assert DigitsValue([c1, c2, c3]) == 100 * d1 + 10 * d2 + d3 by { assert [c1, c2, c3][..2] == [c1, c2]; }
  }

  /** `digits.frac` reads as the whole part in thousands plus the fraction scaled to thousandths. */
  lemma ReadUnsignedOf(w: string, f: string)
    requires AllDigits(w) && AllDigits(f) && 1 <= |f| <= 3
    ensures ReadUnsigned(w + "." + f) == Some(DigitsValue(w) * 1000 + Thousandths(f))
  {
    var u := w + "." + f;
    DotAfterDigits(w, f);
    assert u[..|w|] == w && u[|w| + 1..] == f;
  }

  /** The unsigned part of the seconds text reads back as the milliseconds it shows. */
  lemma UnsignedRoundTrip(q: nat, rest: nat)
    requires rest < 1000
    ensures ReadUnsigned(DecimalString(q) + "." + FracDigits(rest)) == Some(q * 1000 + rest)
  {
    ReadUnsignedOf(DecimalString(q), FracDigits(rest));
    FracDigitsValue(rest);
  }

  /** A sign in front of an unsigned text negates what it reads as. */
  lemma ReadSignedOf(u: string, a: nat, negative: bool)
    requires ReadUnsigned(u) == Some(a) && u != [] && u[0] != '-'
    ensures ReadSeconds((if negative then "-" else "") + u) == Some(if negative then -(a as int) else a as int)
  {
    var t := (if negative then "-" else "") + u;
    if negative {
      assert t[0] == '-' && t[1..] == u;
    } else {
      assert t == u;
    }
  }

  /** The unsigned text of `a` thousandths reads back as `a`, and does not start with a sign. */
  lemma UnsignedTextRoundTrip(a: nat)
    ensures ReadUnsigned(UnsignedText(a)) == Some(a)
    ensures UnsignedText(a)[0] != '-'
  {
    var q, rest := a / 1000, a % 1000;
    UnsignedRoundTrip(q, rest);
    assert q * 1000 + rest == a;
    assert IsDigit(DecimalString(q)[0]);
  }

  /** The seconds text reads back as exactly the milliseconds it was made from. */
  lemma SecondsRoundTrip(ms: int)
    ensures ReadSeconds(SecondsText(ms)) == Some(ms)
  {
    if ms < 0 {
      UnsignedTextRoundTrip(-ms);
      ReadSignedOf(UnsignedText(-ms), -ms, true);
    } else {
      UnsignedTextRoundTrip(ms);
      ReadSignedOf(UnsignedText(ms), ms, false);
    }
  }

  /** The text is the shortest such form: no leading zero in the whole part, no trailing zero after the point except a lone `0`. */
  lemma SecondsCanonical(ms: int)
    ensures var a := if ms < 0 then -ms else ms;
      var w, f := DecimalString(a / 1000), FracDigits(a % 1000);
      && (w[0] == '0' ==> w == "0")
      && (f[|f| - 1] == '0' ==> f == "0")
      && SecondsText(ms) == (if ms < 0 then "-" else "") + w + "." + f
  {
  }

  /** A falsy duration is `"N/A"`, and, given a float rendering that never prints `"N/A"`, only a falsy one is. */
  lemma DurationNotAvailableIff(d: Value, floatText: real -> string)
    requires forall x :: floatText(x) != "N/A"
    ensures FormatDuration(d, floatText) == Some("N/A") <==> !Truthy(d)
  {
    if Truthy(d) && (d.Int? || d.Bool?) {
      var ms := if d.Int? then d.i else 1;
      var a := if ms < 0 then -ms else ms;
      var t := SecondsText(ms);
      var w := DecimalString(a / 1000);
      var p := if ms < 0 then 1 else 0;
      assert t[p] == w[0] && IsDigit(w[0]);
    }
  }

  /**
   * `format_duration` raises exactly for a truthy string, list or dict, and for
   * an integer whose quotient by 1000 is past the largest double.
   */
  lemma DurationRaisesIff(d: Value, floatText: real -> string)
    ensures FormatDuration(d, floatText).None? <==>
      Truthy(d) && (d.Str? || d.Array? || d.Object? || (d.Int? && !FitsDouble(d.i as real / 1000.0)))
  {
  }

  /** The overflow bound of the duration is 1000 times that of a float: one less is formatted, the bound raises. */
  lemma DurationOverflowBoundary(floatText: real -> string)
    ensures FormatDuration(Int(1000 * FloatOverflow - 1), floatText) == Some(SecondsText(1000 * FloatOverflow - 1))
    ensures FormatDuration(Int(1000 * FloatOverflow), floatText).None?
    ensures FormatDuration(Int(-1000 * FloatOverflow), floatText).None?
  {
  }

  /** `format_duration(1500)` is `"1.5"`; `format_duration(None)` and `format_duration(0)` are `"N/A"`. */
  lemma DurationExamples(floatText: real -> string)
    ensures FormatDuration(Int(1500), floatText) == Some("1.5")
    ensures FormatDuration(Null, floatText) == Some("N/A")
    ensures FormatDuration(Int(0), floatText) == Some("N/A")
  {
    assert DigitChar(1) == '1' && DigitChar(5) == '5';
    assert DecimalString(1) == "1";
    assert FracDigits(500) == "5";
    assert SecondsText(1500) == "" + "1" + "." + "5" == "1.5";
  }

  // ---- format_timestamp ----

  /** `format_timestamp`: `"N/A"` for `None` or `""`; otherwise the first 19 characters with each `T` made a space. */
  function FormatTimestamp(ts: Option<string>): string {
    match ts
    case None => "N/A"
    case Some(t) =>
      if t == [] then "N/A"
      else ReplaceAll(t[..if |t| < 19 then |t| else 19], "T", " ")
  }

  /**
   * A non-empty timestamp keeps its first 19 characters (all of it when
   * shorter), each in place, with `T` turned into a space.
   */
  lemma TimestampPointwise(t: string)
    requires t != []
    ensures var r := FormatTimestamp(Some(t));
      && |r| == (if |t| < 19 then |t| else 19)
      && forall k :: 0 <= k < |r| ==> r[k] == (if t[k] == 'T' then ' ' else t[k])
  {
    var n := if |t| < 19 then |t| else 19;
    ReplaceCharPointwise(t[..n], 'T', ' ');
  }

  /** The timestamp cell is `"N/A"` exactly for a missing or empty timestamp, or the text `"N/A"` itself. */
  lemma TimestampNotAvailableIff(ts: Option<string>)
    ensures FormatTimestamp(ts) == "N/A" <==> ts.None? || ts == Some("") || ts == Some("N/A")
  {
    if ts.Some? && ts.value != [] {
      var t := ts.value;
      var r := FormatTimestamp(ts);
      TimestampPointwise(t);
      if r == "N/A" {
        assert t[0] == 'N' && t[1] == '/' && t[2] == 'A';
        assert t == "N/A";
      }
      if t == "N/A" {
        assert r[0] == 'N' && r[1] == '/' && r[2] == 'A';
      }
    }
  }

  /** `YYYY-MM-DDTHH:MM:SS` at the front of a text, `d` standing for a digit. */
  predicate IsoFront(t: string) {
    && |t| >= 19
    && forall k :: 0 <= k < 19 ==>
         if k in {4, 7} then t[k] == '-'
         else if k == 10 then t[k] == 'T'
         else if k in {13, 16} then t[k] == ':'
         else IsDigit(t[k])
  }

  /** A canonical `YYYY-MM-DDTHH:MM:SS.ffffffZ` becomes `YYYY-MM-DD HH:MM:SS`. */
  lemma CanonicalTimestamp(t: string)
    requires IsoFront(t)
    ensures FormatTimestamp(Some(t)) == t[..10] + " " + t[11..19]
  {
    TimestampPointwise(t);
    var r := FormatTimestamp(Some(t));
    forall k | 0 <= k < 19 ensures r[k] == (t[..10] + " " + t[11..19])[k] {
      if k != 10 {
        assert t[k] != 'T';
      }
    }
  }
}
