/** String primitives that Python's `str` and JavaScript's `String` provide
    to both halves of the system: substring search, splitting on a separator,
    trimming whitespace and decimal digits. */
module Text {

  /** `pat in s` in Python, `s.includes(pat)` in JavaScript. */
  predicate Contains(s: string, pat: string)
    decreases |s|
  {
    |pat| <= |s| && (s[..|pat|] == pat || Contains(s[1..], pat))
  }

  /** `s.startswith(p)` / `s.startsWith(p)`. */
  predicate StartsWith(s: string, p: string) {
    |p| <= |s| && s[..|p|] == p
  }

  /** `s.split(sep)` for a non-empty separator, in Python and in JavaScript
      alike: the separator is matched leftmost-first without overlap, and
      there is always at least one piece. */
  function SplitOn(s: string, sep: string): (r: seq<string>)
    requires |sep| > 0
    ensures |r| >= 1
    decreases |s|
  {
    if |s| < |sep| then [s]
    else if s[..|sep|] == sep then [""] + SplitOn(s[|sep|..], sep)
    else
      var rest := SplitOn(s[1..], sep);
      [[s[0]] + rest[0]] + rest[1..]
  }

  /** `sep.join(parts)` / `parts.join(sep)`; empty for no parts. */
  function Join(parts: seq<string>, sep: string): string
    decreases |parts|
  {
    if parts == [] then ""
    else if |parts| == 1 then parts[0]
    else parts[0] + sep + Join(parts[1..], sep)
  }

  /** Number of occurrences of character `c` in `s`. */
  function Count(s: string, c: char): nat
    decreases |s|
  {
    if s == [] then 0 else (if s[0] == c then 1 else 0) + Count(s[1..], c)
  }

  /** Splitting and joining again gives back the original string. */
  lemma {:induction false} SplitOnJoin(s: string, sep: string)
    requires |sep| > 0
    ensures Join(SplitOn(s, sep), sep) == s
    decreases |s|
  {
    if |s| < |sep| {
    } else if s[..|sep|] == sep {
      var rest := SplitOn(s[|sep|..], sep);
      assert SplitOn(s, sep) == [""] + rest;
      SplitOnJoin(s[|sep|..], sep);
      JoinConsEmpty(rest, sep);
      assert s == sep + s[|sep|..];
    } else {
      var rest := SplitOn(s[1..], sep);
      assert SplitOn(s, sep) == [[s[0]] + rest[0]] + rest[1..];
      SplitOnJoin(s[1..], sep);
      JoinConsHead(s[0], rest, sep);
      assert s == [s[0]] + s[1..];
    }
  }

  /** An empty first piece contributes only the separator. */
  lemma JoinConsEmpty(parts: seq<string>, sep: string)
    requires |parts| >= 1
    ensures Join([""] + parts, sep) == sep + Join(parts, sep)
  {
    assert ([""] + parts)[1..] == parts;
  }

  /** Putting a character in front of the first piece puts it in front of
      the joined string. */
  lemma JoinConsHead(c: char, parts: seq<string>, sep: string)
    requires |parts| >= 1
    ensures Join([[c] + parts[0]] + parts[1..], sep) == [c] + Join(parts, sep)
  {
    var ps := [[c] + parts[0]] + parts[1..];
    if |parts| > 1 {
      assert ps[1..] == parts[1..];
    }
  }

  /** A string splits into more than one piece exactly when it contains the
      separator. */
  lemma {:induction false} SplitOnSeveral(s: string, sep: string)
    requires |sep| > 0
    ensures |SplitOn(s, sep)| > 1 <==> Contains(s, sep)
    decreases |s|
  {
    if |s| < |sep| {
    } else if s[..|sep|] == sep {
    } else {
      SplitOnSeveral(s[1..], sep);
    }
  }

  /** The first piece of a split is the part of `s` before the leftmost
      occurrence of the separator (all of `s` when there is none). */
  lemma SplitOnFirst(s: string, sep: string)
    requires |sep| > 0
    ensures var p := SplitOn(s, sep)[0];
      && |p| <= |s| && s[..|p|] == p
      && !Contains(p, sep)
      && (Contains(s, sep) ==> |p| + |sep| <= |s| && s[|p|..|p| + |sep|] == sep)
      && (!Contains(s, sep) ==> p == s)
  {
    SplitOnFirstPrefix(s, sep);
    SplitOnFirstClean(s, sep);
    if Contains(s, sep) {
      SplitOnFirstSep(s, sep);
    } else {
      SplitOnFirstAll(s, sep);
    }
  }

  lemma {:induction false} SplitOnFirstPrefix(s: string, sep: string)
    requires |sep| > 0
    ensures var p := SplitOn(s, sep)[0]; |p| <= |s| && s[..|p|] == p
    decreases |s|
  {
    if |s| >= |sep| && s[..|sep|] != sep {
      SplitOnFirstPrefix(s[1..], sep);
      var q := SplitOn(s[1..], sep)[0];
      assert SplitOn(s, sep)[0] == [s[0]] + q;
      assert s[1..][..|q|] == q;
    }
  }

  lemma {:induction false} SplitOnFirstClean(s: string, sep: string)
    requires |sep| > 0
    ensures !Contains(SplitOn(s, sep)[0], sep)
    decreases |s|
  {
    if |s| < |sep| {
      NotContainsShort(s, sep);
    } else if s[..|sep|] == sep {
      NotContainsShort("", sep);
    } else {
      SplitOnFirstClean(s[1..], sep);
      SplitOnFirstPrefix(s, sep);
      var q := SplitOn(s[1..], sep)[0];
      var p := [s[0]] + q;
      assert p == SplitOn(s, sep)[0];
      if |p| >= |sep| {
        assert p[..|sep|] == s[..|sep|];
        assert p[1..] == q;
      } else {
        NotContainsShort(p, sep);
      }
    }
  }

  lemma {:induction false} SplitOnFirstSep(s: string, sep: string)
    requires |sep| > 0 && Contains(s, sep)
    ensures var p := SplitOn(s, sep)[0]; |p| + |sep| <= |s| && StartsWith(s[|p|..], sep)
    decreases |s|
  {
    if s[..|sep|] != sep {
      var t := s[1..];
      assert Contains(t, sep);
      SplitOnFirstSep(t, sep);
      var q := SplitOn(t, sep)[0];
      SplitOnStep(s, sep);
      assert s[|q| + 1..] == t[|q|..];
    }
  }

  /** Without the separator at the front, the first piece starts with the
      first character. */
  lemma SplitOnStep(s: string, sep: string)
    requires |sep| > 0 && |s| >= |sep| && s[..|sep|] != sep
    ensures SplitOn(s, sep)[0] == [s[0]] + SplitOn(s[1..], sep)[0]
  {
  }

  lemma {:induction false} SplitOnFirstAll(s: string, sep: string)
    requires |sep| > 0 && !Contains(s, sep)
    ensures SplitOn(s, sep)[0] == s
    decreases |s|
  {
    if |s| >= |sep| {
      SplitOnFirstAll(s[1..], sep);
      assert SplitOn(s, sep)[0] == [s[0]] + s[1..];
    }
  }

  /** After the first piece and the separator, the remaining pieces are the
      split of the rest of the string. */
  lemma {:induction false} SplitOnRest(s: string, sep: string)
    requires |sep| > 0 && Contains(s, sep)
    ensures var p := SplitOn(s, sep)[0];
      && |p| + |sep| <= |s|
      && SplitOn(s, sep)[1..] == SplitOn(s[|p| + |sep|..], sep)
    decreases |s|
  {
    SplitOnFirstSep(s, sep);
    if s[..|sep|] == sep {
      var rest := SplitOn(s[|sep|..], sep);
      assert SplitOn(s, sep) == [""] + rest;
      assert SplitOn(s, sep)[1..] == rest;
    } else {
      assert Contains(s[1..], sep);
      SplitOnRest(s[1..], sep);
      var rest := SplitOn(s[1..], sep);
      assert SplitOn(s, sep) == [[s[0]] + rest[0]] + rest[1..];
      var p := SplitOn(s, sep)[0];
      assert p == [s[0]] + rest[0];
      assert |p| + |sep| == |rest[0]| + |sep| + 1;
      assert s[1..][|rest[0]| + |sep|..] == s[|p| + |sep|..];
      assert SplitOn(s, sep)[1..] == rest[1..];
    }
  }

  /** A string shorter than the pattern does not contain it. */
  lemma NotContainsShort(s: string, pat: string)
    requires |s| < |pat|
    ensures !Contains(s, pat)
  {
  }

  /** For a single-character separator: text before the first `c`, then the
      rest split on its own. */
  lemma {:induction false} SplitOnChar(a: string, c: char, b: string)
    requires c !in a
    ensures SplitOn(a + [c] + b, [c]) == [a] + SplitOn(b, [c])
    decreases |a|
  {
    if a == [] {
      assert ([c] + b)[..1] == [c];
      assert ([c] + b)[1..] == b;
    } else {
      var s := a + [c] + b;
      assert s[..1] != [c] by { assert s[0] == a[0]; }
      assert s[1..] == a[1..] + [c] + b;
      SplitOnChar(a[1..], c, b);
      assert [a[0]] + a[1..] == a;
    }
  }

  /** A string without the separator character is a single piece. */
  lemma {:induction false} SplitOnNoChar(a: string, c: char)
    requires c !in a
    ensures SplitOn(a, [c]) == [a]
    decreases |a|
  {
    if a != [] {
      assert a[..1] != [c] by { assert a[..1][0] == a[0]; }
      SplitOnNoChar(a[1..], c);
      assert [a[0]] + a[1..] == a;
    }
  }

  /** Splitting on a character yields one more piece than there are
      occurrences of that character. */
  lemma {:induction false} SplitOnCount(s: string, c: char)
    ensures |SplitOn(s, [c])| == Count(s, c) + 1
    decreases |s|
  {
    if s != [] {
      SplitOnCount(s[1..], c);
      if s[0] == c {
        assert s[..1] == [c];
      } else {
        assert s[..1] != [c] by { assert s[..1][0] == s[0]; }
      }
    }
  }

  /** Splitting on a character leaves it in no piece. */
  lemma {:induction false} SplitOnCharPieces(s: string, c: char)
    ensures forall i :: 0 <= i < |SplitOn(s, [c])| ==> c !in SplitOn(s, [c])[i]
    decreases |s|
  {
    var parts := SplitOn(s, [c]);
    SplitOnFirst(s, [c]);
    ContainsChar(parts[0], c);
    if Contains(s, [c]) {
      SplitOnRest(s, [c]);
      var rest := s[|parts[0]| + 1..];
      SplitOnCharPieces(rest, c);
      assert forall i :: 1 <= i < |parts| ==> parts[i] == SplitOn(rest, [c])[i - 1];
    } else {
      SplitOnSeveral(s, [c]);
    }
  }

  /** A character absent from the string is absent from every piece. */
  lemma {:induction false} SplitOnPiecesFree(s: string, sep: string, c: char)
    requires |sep| > 0 && c !in s
    ensures forall i :: 0 <= i < |SplitOn(s, sep)| ==> c !in SplitOn(s, sep)[i]
    decreases |s|
  {
    if |s| < |sep| {
    } else if s[..|sep|] == sep {
      assert forall k :: 0 <= k < |s| - |sep| ==> s[|sep|..][k] == s[|sep| + k];
      SplitOnPiecesFree(s[|sep|..], sep, c);
    } else {
      assert forall k :: 0 <= k < |s| - 1 ==> s[1..][k] == s[1 + k];
      SplitOnPiecesFree(s[1..], sep, c);
      var rest := SplitOn(s[1..], sep);
      assert SplitOn(s, sep) == [[s[0]] + rest[0]] + rest[1..];
      assert c !in [s[0]] + rest[0];
    }
  }

  /** Joining pieces free of a character and splitting on it again gives the
      pieces back. */
  lemma {:induction false} JoinSplitChar(parts: seq<string>, c: char)
    requires |parts| >= 1
    requires forall i :: 0 <= i < |parts| ==> c !in parts[i]
    ensures SplitOn(Join(parts, [c]), [c]) == parts
    decreases |parts|
  {
    if |parts| == 1 {
      SplitOnNoChar(parts[0], c);
    } else {
      JoinSplitChar(parts[1..], c);
      SplitOnChar(parts[0], c, Join(parts[1..], [c]));
      assert parts == [parts[0]] + parts[1..];
    }
  }

  /** For a one-character pattern, `Contains` is plain membership. */
  lemma {:induction false} ContainsChar(s: string, c: char)
    ensures Contains(s, [c]) <==> c in s
    decreases |s|
  {
    if s != [] {
      ContainsChar(s[1..], c);
      assert s[..1] == [c] <==> s[0] == c by { assert s[..1][0] == s[0]; }
      assert c in s <==> s[0] == c || c in s[1..] by { assert s == [s[0]] + s[1..]; }
    }
  }

  // --- Whitespace ------------------------------------------------------------

  /** ASCII whitespace: space, tab, line feed, vertical tab, form feed,
      carriage return. */
  predicate IsSpace(c: char) {
    c == ' ' || ('\t' <= c <= '\r')
  }

  /** Drops leading whitespace. */
  function TrimStart(s: string): string
    decreases |s|
  {
    if |s| > 0 && IsSpace(s[0]) then TrimStart(s[1..]) else s
  }

  /** Drops trailing whitespace. */
  function TrimEnd(s: string): string
    decreases |s|
  {
    if |s| > 0 && IsSpace(s[|s| - 1]) then TrimEnd(s[..|s| - 1]) else s
  }

  /** JavaScript's `String.prototype.trim()` restricted to ASCII whitespace.
      Python's `str.strip()` agrees with it except on the separators
      `\x1c`-`\x1f`, which it strips as well. */
  function Trim(s: string): string {
    TrimEnd(TrimStart(s))
  }

  /** `TrimStart` keeps a suffix, and what it removes is all whitespace,
      and what remains does not start with whitespace. */
  lemma {:induction false} TrimStartSpec(s: string)
    ensures var r := TrimStart(s);
      && |r| <= |s| && r == s[|s| - |r|..]
      && (forall k :: 0 <= k < |s| - |r| ==> IsSpace(s[k]))
      && (r != [] ==> !IsSpace(r[0]))
    decreases |s|
  {
    if |s| > 0 && IsSpace(s[0]) {
      TrimStartSpec(s[1..]);
    }
  }

  /** `TrimEnd` keeps a prefix, and what it removes is all whitespace, and
      what remains does not end with whitespace. */
  lemma {:induction false} TrimEndSpec(s: string)
    ensures var r := TrimEnd(s);
      && |r| <= |s| && r == s[..|r|]
      && (forall k :: |r| <= k < |s| ==> IsSpace(s[k]))
      && (r != [] ==> !IsSpace(r[|r| - 1]))
    decreases |s|
  {
    if |s| > 0 && IsSpace(s[|s| - 1]) {
      TrimEndSpec(s[..|s| - 1]);
    }
  }

  /** The trimmed string is no longer than `s` and neither starts nor ends
      with whitespace. */
  lemma TrimEnds(s: string)
    ensures |Trim(s)| <= |s|
    ensures Trim(s) != [] ==> !IsSpace(Trim(s)[0]) && !IsSpace(Trim(s)[|Trim(s)| - 1])
  {
    var t := TrimStart(s);
    TrimStartSpec(s);
    TrimEndSpec(t);
    var r := TrimEnd(t);
    assert r != [] ==> r[0] == t[0];
  }

  /** The trimmed string is the block of `s` that starts after the leading
      whitespace, with only whitespace after it. */
  lemma TrimBlock(s: string)
    ensures var r, i := Trim(s), |s| - |TrimStart(s)|;
      && 0 <= i && i + |r| <= |s| && s[i..i + |r|] == r
      && (forall k :: 0 <= k < i ==> IsSpace(s[k]))
      && (forall k :: i + |r| <= k < |s| ==> IsSpace(s[k]))
  {
    var t := TrimStart(s);
    var r := TrimEnd(t);
    var i := |s| - |t|;
    TrimStartSpec(s);
    TrimEndSpec(t);
    assert Trim(s) == r;
    assert t == s[i..];
    assert r == t[..|r|];
    assert s[i..i + |r|] == r by {
      assert s[i..i + |r|] == s[i..][..|r|];
    }
    forall k | i + |r| <= k < |s| ensures IsSpace(s[k]) {
      assert |r| <= k - i < |t|;
      assert s[k] == t[k - i];
    }
  }

  /** A string that neither starts nor ends with whitespace is its own trim. */
  lemma TrimUnchanged(s: string)
    requires s != [] ==> !IsSpace(s[0]) && !IsSpace(s[|s| - 1])
    ensures Trim(s) == s
  {
  }

  /** Trimming twice is trimming once. */
  lemma TrimIdempotent(s: string)
    ensures Trim(Trim(s)) == Trim(s)
  {
    TrimEnds(s);
    TrimUnchanged(Trim(s));
  }

  /** A string holding a character that is not whitespace does not trim to
      nothing. */
  lemma TrimNonEmpty(s: string, c: char)
    requires c in s && !IsSpace(c)
    ensures Trim(s) != ""
  {
    TrimBlock(s);
    var j :| 0 <= j < |s| && s[j] == c;
  }

  /** Trimming `a + [c] + b`, where `a` does not start with whitespace and
      `c` is not whitespace, keeps `a + [c]` in front. */
  lemma TrimKeepsFront(a: string, c: char, b: string)
    requires a != [] && !IsSpace(a[0]) && !IsSpace(c)
    ensures StartsWith(Trim(a + [c] + b), a + [c])
  {
    var s := a + [c] + b;
    assert TrimStart(s) == s;
    TrimEndSpec(s);
    var r := TrimEnd(s);
    assert s[|a|] == c;
    assert |r| > |a|;
    assert r[..|a| + 1] == s[..|a| + 1];
  }

  /** Trimming never introduces a character. */
  lemma TrimSubset(s: string, c: char)
    ensures c in Trim(s) ==> c in s
  {
    var r := Trim(s);
    TrimBlock(s);
    if c in r {
      var i := |s| - |TrimStart(s)|;
      var j :| 0 <= j < |r| && r[j] == c;
      assert s[i + j] == c;
    }
  }

  // --- Decimal digits --------------------------------------------------------

  predicate IsDigit(c: char) {
    '0' <= c <= '9'
  }

  predicate IsDigits(s: string) {
    forall i :: 0 <= i < |s| ==> IsDigit(s[i])
  }

  /** The value of a string of decimal digits (leading zeros allowed). */
  function DigitsValue(s: string): nat
    requires IsDigits(s)
    decreases |s|
  {
    if s == [] then 0
    else DigitsValue(s[..|s| - 1]) * 10 + (s[|s| - 1] as int - '0' as int)
  }

  function Pow10(n: nat): (r: nat)
    ensures r >= 1
  {
    if n == 0 then 1 else 10 * Pow10(n - 1)
  }

  /** A digit string of length `n` has a value below `10^n`. */
  lemma {:induction false} DigitsValueBound(s: string)
    requires IsDigits(s)
    ensures DigitsValue(s) < Pow10(|s|)
    decreases |s|
  {
    if s != [] {
      DigitsValueBound(s[..|s| - 1]);
    }
  }

  /** The decimal character for a digit value. */
  function DigitChar(d: nat): (c: char)
    requires d < 10
    ensures IsDigit(c) && c as int - '0' as int == d
  {
    ('0' as int + d) as char
  }

  /** The decimal rendering of a natural number, as Python's `str(n)`,
      f-strings and JavaScript template literals print it: digits only, no
      leading zero, and reading it back gives `n`. */
  function ShowNat(n: nat): (r: string)
    ensures |r| >= 1 && IsDigits(r) && DigitsValue(r) == n
    ensures |r| > 1 ==> r[0] != '0'
    decreases n
  {
    if n < 10 then [DigitChar(n)]
    else
      var prefix := ShowNat(n / 10);
      var r := prefix + [DigitChar(n % 10)];
      assert r[..|r| - 1] == prefix;
      r
  }
}
