/** The time codec of the grade server: caption timestamps `H:M:S[.fff]` to
    seconds, and seconds to the `MM:SS` text shown on the grades page. */
module TimeCodec {
  import opened Wrappers
  import opened Text

  /** Python's `int(s)` on the strings that occur in caption timestamps:
      a non-empty run of decimal digits. */
  function ParseInt(s: string): Option<int> {
    if |s| > 0 && IsDigits(s) then Some(DigitsValue(s)) else None
  }

  /** The value of the digits after a decimal point. */
  function Fraction(d: string): real
    requires IsDigits(d)
  {
    DigitsValue(d) as real / Pow10(|d|) as real
  }

  /** Python's `float(s)` on digit strings with an optional fractional part:
      `ddd`, `ddd.ddd`, `ddd.` or `.ddd`; anything else is a `ValueError`,
      modelled as `None`. */
  function ParseFloat(s: string): Option<real> {
    DecimalOf(s, SplitOn(s, "."))
  }

  /** The value of `s` given its pieces around dots. */
  function DecimalOf(s: string, parts: seq<string>): Option<real> {
    if |parts| == 1 then
      if |s| > 0 && IsDigits(s) then Some(DigitsValue(s) as real) else None
    else if |parts| == 2 && IsDigits(parts[0]) && IsDigits(parts[1]) && |parts[0]| + |parts[1]| > 0 then
      Some(DigitsValue(parts[0]) as real + Fraction(parts[1]))
    else None
  }

  /** `s.replace(a, b)` for single characters. */
  function ReplaceChar(s: string, a: char, b: char): (r: string)
    ensures |r| == |s|
    ensures forall i :: 0 <= i < |s| ==> r[i] == if s[i] == a then b else s[i]
  {
    seq(|s|, i requires 0 <= i < |s| => if s[i] == a then b else s[i])
  }

  /** `parse_time_to_seconds`: the fields before the first, second and third
      colon are hours, minutes and seconds (further fields are ignored); a
      comma works as decimal point in the seconds; a missing or non-numeric
      field makes the whole result 0. */
  function ParseTimeToSeconds(timeStr: string): real {
    TimeOfFields(SplitOn(timeStr, ":"))
  }

  /** The seconds denoted by the colon-separated fields of a timestamp. */
  function TimeOfFields(parts: seq<string>): real {
    if |parts| < 3 then 0.0
    else
      match (ParseInt(parts[0]), ParseInt(parts[1]), ParseFloat(ReplaceChar(parts[2], ',', '.')))
      case (Some(hours), Some(minutes), Some(seconds)) => (hours * 3600 + minutes * 60) as real + seconds
      case _ => 0.0
  }

  // --- Properties of the parser ----------------------------------------------

  /** A digit string contains neither a colon nor a dot nor a comma. */
  lemma DigitsHaveNoPunctuation(s: string)
    requires IsDigits(s)
    ensures ':' !in s && '.' !in s && ',' !in s
  {
    assert forall i :: 0 <= i < |s| ==> s[i] != ':' && s[i] != '.' && s[i] != ',';
  }

  /** Replacing a character that does not occur changes nothing. */
  lemma ReplaceAbsent(s: string, a: char, b: char)
    requires a !in s
    ensures ReplaceChar(s, a, b) == s
  {
  }

  /** Replacement works piecewise on a concatenation. */
  lemma ReplaceConcat(x: string, y: string, a: char, b: char)
    ensures ReplaceChar(x + y, a, b) == ReplaceChar(x, a, b) + ReplaceChar(y, a, b)
  {
  }

  /** `ip.fp` with digit strings splits on the dot into `ip` and `fp`. */
  lemma SplitDecimal(ip: string, fp: string)
    requires IsDigits(ip) && IsDigits(fp)
    ensures SplitOn(ip + "." + fp, ".") == [ip, fp]
  {
    DigitsHaveNoPunctuation(ip);
    DigitsHaveNoPunctuation(fp);
    assert ip + "." + fp == ip + ['.'] + fp;
    SplitOnChar(ip, '.', fp);
    SplitOnNoChar(fp, '.');
  }

  /** A whole number of seconds `ip` reads as its digits' value. */
  lemma ParseSecondsWhole(ip: string)
    requires |ip| > 0 && IsDigits(ip)
    ensures ParseFloat(ReplaceChar(ip, ',', '.')) == Some(DigitsValue(ip) as real)
  {
    DigitsHaveNoPunctuation(ip);
    ReplaceAbsent(ip, ',', '.');
    SplitOnNoChar(ip, '.');
  }

  /** After replacing commas by dots, `ip.fp` and `ip,fp` both read `ip.fp`. */
  lemma ReplaceDecimalMark(ip: string, fp: string, mark: char)
    requires IsDigits(ip) && IsDigits(fp) && (mark == '.' || mark == ',')
    ensures ReplaceChar(ip + [mark] + fp, ',', '.') == ip + "." + fp
  {
    DigitsHaveNoPunctuation(ip);
    DigitsHaveNoPunctuation(fp);
    var s := ip + [mark] + fp;
    var r := ReplaceChar(s, ',', '.');
    assert forall i :: 0 <= i < |ip| ==> r[i] == ip[i];
    assert r[|ip|] == '.';
    assert forall i :: |ip| < i < |s| ==> r[i] == fp[i - |ip| - 1];
  }

  /** `ip.fp` and `ip,fp` both read as the integer part plus the fraction:
      a comma works as decimal point. */
  lemma ParseSecondsDecimal(ip: string, fp: string, mark: char)
    requires IsDigits(ip) && IsDigits(fp) && |ip| + |fp| > 0
    requires mark == '.' || mark == ','
    ensures ParseFloat(ReplaceChar(ip + [mark] + fp, ',', '.')) == Some(DigitsValue(ip) as real + Fraction(fp))
  {
    ReplaceDecimalMark(ip, fp, mark);
    SplitDecimal(ip, fp);
    ParseFloatOfPieces(ReplaceChar(ip + [mark] + fp, ',', '.'), ip, fp);
  }

  /** Text that splits on its one dot into digit strings `ip` and `fp` (not
      both empty) reads as `ip` plus the fraction `fp`. */
  lemma ParseFloatOfPieces(t: string, ip: string, fp: string)
    requires IsDigits(ip) && IsDigits(fp) && |ip| + |fp| > 0
    requires SplitOn(t, ".") == [ip, fp]
    ensures ParseFloat(t) == Some(DigitsValue(ip) as real + Fraction(fp))
  {
    assert DecimalOf(t, [ip, fp]) == Some(DigitsValue(ip) as real + Fraction(fp));
  }

  /** `H:M:S` with digit fields `H` and `M` and a seconds field worth `v`
      reads as `H*3600 + M*60 + v`; whatever follows a further colon is
      ignored. */
  lemma {:induction false} ParseTimeOfFields(h: string, m: string, sec: string, tail: string, v: real)
    requires |h| > 0 && IsDigits(h) && |m| > 0 && IsDigits(m)
    requires ':' !in sec && ParseFloat(ReplaceChar(sec, ',', '.')) == Some(v)
    requires tail == [] || tail[0] == ':'
    ensures ParseTimeToSeconds(h + ":" + m + ":" + sec + tail)
         == (DigitsValue(h) * 3600 + DigitsValue(m) * 60) as real + v
  {
    DigitsHaveNoPunctuation(h);
    DigitsHaveNoPunctuation(m);
    var s := h + ":" + m + ":" + sec + tail;
    assert s == h + [':'] + (m + [':'] + (sec + tail));
    SplitOnChar(h, ':', m + [':'] + (sec + tail));
    SplitOnChar(m, ':', sec + tail);
    if tail == [] {
      assert sec + tail == sec;
      SplitOnNoChar(sec, ':');
    } else {
      assert sec + tail == sec + [':'] + tail[1..];
      SplitOnChar(sec, ':', tail[1..]);
    }
  }

  /** The digit values used by the worked example. */
  lemma ExampleDigits()
    ensures IsDigits("01") && DigitsValue("01") == 1
    ensures IsDigits("02") && DigitsValue("02") == 2
    ensures IsDigits("03") && DigitsValue("03") == 3
    ensures IsDigits("500") && Fraction("500") == 0.5
  {
    assert "01"[..1] == "0" && "02"[..1] == "0" && "03"[..1] == "0";
    assert "500"[..2] == "50" && "50"[..1] == "5";
  }

  /** The worked example: one hour, two minutes and 3.5 seconds, with a dot
      or a comma before the milliseconds. */
  lemma ParseTimeExample(mark: char)
    requires mark == '.' || mark == ','
    ensures ParseTimeToSeconds("01:02:03" + [mark] + "500") == 3723.5
  {
    ExampleDigits();
    ParseSecondsDecimal("03", "500", mark);
    var sec := "03" + [mark] + "500";
    assert ':' !in sec;
    ParseTimeOfFields("01", "02", sec, "", 3.5);
    assert "01" + ":" + "02" + ":" + sec + "" == "01:02:03" + [mark] + "500";
  }

  /** Fewer than two colons means fewer than three fields: the result is 0. */
  lemma TooFewFields(timeStr: string)
    requires Count(timeStr, ':') < 2
    ensures ParseTimeToSeconds(timeStr) == 0.0
  {
    SplitOnCount(timeStr, ':');
  }

  /** An hours field that is not a digit string makes the result 0, whatever
      follows it. */
  lemma NonNumericHours(h: string, rest: string)
    requires ':' !in h && !(|h| > 0 && IsDigits(h))
    ensures ParseTimeToSeconds(h + ":" + rest) == 0.0
  {
    assert h + ":" + rest == h + [':'] + rest;
    SplitOnChar(h, ':', rest);
  }

  /** Digit hours followed by a minutes field that is not a digit string
      make the result 0, whatever follows. */
  lemma NonNumericMinutes(h: string, m: string, rest: string)
    requires |h| > 0 && IsDigits(h) && ':' !in m && !(|m| > 0 && IsDigits(m))
    ensures ParseTimeToSeconds(h + ":" + m + ":" + rest) == 0.0
  {
    DigitsHaveNoPunctuation(h);
    assert h + ":" + m + ":" + rest == h + [':'] + (m + [':'] + rest);
    SplitOnChar(h, ':', m + [':'] + rest);
    SplitOnChar(m, ':', rest);
  }

  /** Digit hours and minutes followed by a seconds field that `float()`
      rejects, even after the comma is replaced, make the result 0. */
  lemma NonNumericSeconds(h: string, m: string, sec: string, tail: string)
    requires |h| > 0 && IsDigits(h) && |m| > 0 && IsDigits(m)
    requires ':' !in sec && ParseFloat(ReplaceChar(sec, ',', '.')) == None
    requires tail == [] || tail[0] == ':'
    ensures ParseTimeToSeconds(h + ":" + m + ":" + sec + tail) == 0.0
  {
    DigitsHaveNoPunctuation(h);
    DigitsHaveNoPunctuation(m);
    var s := h + ":" + m + ":" + sec + tail;
    assert s == h + [':'] + (m + [':'] + (sec + tail));
    SplitOnChar(h, ':', m + [':'] + (sec + tail));
    SplitOnChar(m, ':', sec + tail);
    if tail == [] {
      assert sec + tail == sec;
      SplitOnNoChar(sec, ':');
    } else {
      assert sec + tail == sec + [':'] + tail[1..];
      SplitOnChar(sec, ':', tail[1..]);
    }
  }

  /** Conversely, a non-zero result comes from three fields that all parse:
      the hours and minutes as digit strings, the seconds as a decimal. */
  lemma ParseTimeNonZero(timeStr: string)
    requires ParseTimeToSeconds(timeStr) != 0.0
    ensures var parts := SplitOn(timeStr, ":");
      && |parts| >= 3
      && ParseInt(parts[0]).Some? && ParseInt(parts[1]).Some?
      && ParseFloat(ReplaceChar(parts[2], ',', '.')).Some?
      && ParseTimeToSeconds(timeStr)
         == (ParseInt(parts[0]).value * 3600 + ParseInt(parts[1]).value * 60) as real + ParseFloat(ReplaceChar(parts[2], ',', '.')).value
  {
  }

  /** Malformed text is read as 0, for instance "bad". */
  lemma ParseTimeMalformed()
    ensures ParseTimeToSeconds("bad") == 0.0
    ensures ParseTimeToSeconds("xx:00:01") == 0.0
  {
    TooFewFields("bad");
    assert !IsDigit("xx"[0]);
    NonNumericHours("xx", "00:01");
    assert "xx" + ":" + "00:01" == "xx:00:01";
  }

  // --- Formatting ------------------------------------------------------------

  /** Python 3's `round(x)`: the nearest integer, ties to the even one. */
  function RoundHalfEven(x: real): (r: int)
    ensures -0.5 <= r as real - x <= 0.5
    ensures (r as real - x == 0.5 || x - r as real == 0.5) ==> r % 2 == 0
  {
    var f := x.Floor;
    var d := x - f as real;
    if d < 0.5 then f
    else if d > 0.5 then f + 1
    else if f % 2 == 0 then f else f + 1
  }

  /** Python's `f"{n:02d}"`: at least two characters, zero-padded after the
      sign. */
  function Pad2(n: int): string {
    if n < 0 then "-" + ShowNat(-n)
    else if n < 10 then "0" + ShowNat(n)
    else ShowNat(n)
  }

  /** `format_time`: `None` renders as "00:00"; otherwise whole minutes
      (floored) and the rounded remainder of the division by 60. */
  function FormatTime(seconds: Option<real>): string {
    match seconds
    case None => "00:00"
    case Some(s) =>
      var minutes := (s / 60.0).Floor;
      var remaining := RoundHalfEven(s - 60.0 * minutes as real);
      Pad2(minutes) + ":" + Pad2(remaining)
  }

  /** A leading zero does not change the value of a digit string. */
  lemma {:induction false} LeadingZero(s: string)
    requires IsDigits(s)
    ensures IsDigits("0" + s) && DigitsValue("0" + s) == DigitsValue(s)
    decreases |s|
  {
    if s != [] {
      var z := "0" + s;
      assert z[..|z| - 1] == "0" + s[..|s| - 1];
      LeadingZero(s[..|s| - 1]);
    } else {
      assert "0" + s == "0";
    }
  }

  /** For `0 <= n`, `Pad2(n)` has at least two digits and reads back as `n`;
      below 100 it has exactly two. */
  lemma Pad2Digits(n: nat)
    ensures IsDigits(Pad2(n)) && |Pad2(n)| >= 2 && DigitsValue(Pad2(n)) == n
    ensures n < 100 ==> |Pad2(n)| == 2
    ensures |Pad2(n)| > 2 ==> Pad2(n)[0] != '0'
  {
    if n < 10 {
      LeadingZero(ShowNat(n));
    } else if n < 100 {
      assert |ShowNat(n / 10)| == 1;
    } else {
      assert |ShowNat(n / 10)| >= 2 by { assert |ShowNat(n / 100)| >= 1; }
    }
  }

  /** Whole seconds `n >= 0` render as two colon-separated digit fields
      `MM:SS` with `SS < 60` and `MM*60 + SS == n`. */
  lemma FormatTimeWholeSeconds(n: nat)
    ensures var parts := SplitOn(FormatTime(Some(n as real)), ":");
      && |parts| == 2
      && IsDigits(parts[0]) && IsDigits(parts[1])
      && |parts[0]| >= 2 && |parts[1]| == 2
      && (n < 6000 ==> |parts[0]| == 2)
      && (|parts[0]| > 2 ==> parts[0][0] != '0')
      && DigitsValue(parts[1]) < 60
      && DigitsValue(parts[0]) * 60 + DigitsValue(parts[1]) == n
  {
    var q, r := n / 60, n % 60;
    var x := n as real / 60.0;
    assert q as real <= x < q as real + 1.0;
    assert x.Floor == q;
    assert n as real - 60.0 * q as real == r as real;
    assert RoundHalfEven(r as real) == r;
    Pad2Digits(q);
    Pad2Digits(r);
    DigitsHaveNoPunctuation(Pad2(q));
    DigitsHaveNoPunctuation(Pad2(r));
    assert FormatTime(Some(n as real)) == Pad2(q) + [':'] + Pad2(r);
    SplitOnChar(Pad2(q), ':', Pad2(r));
    SplitOnNoChar(Pad2(r), ':');
  }

  /** The renderings the grades page relies on. */
  lemma FormatTimeExamples()
    ensures FormatTime(None) == "00:00"
    ensures FormatTime(Some(125.0)) == "02:05"
    ensures FormatTime(Some(0.0)) == "00:00"
  {
    assert (125.0 / 60.0).Floor == 2;
    assert RoundHalfEven(5.0) == 5;
    assert Pad2(2) == "02" && Pad2(5) == "05";
    assert (0.0 / 60.0).Floor == 0;
    assert RoundHalfEven(0.0) == 0;
    assert Pad2(0) == "00";
  }
}
