/**
 * Character classes and string helpers with the meaning JavaScript gives them:
 * the `\s` class (which is also the set `String.prototype.trim` strips), `\d`,
 * the line terminators that `.` refuses to match, `split("\n")` / `join("\n")`,
 * `String(n)` for integers and `padStart(2, "0")`.
 */
module Strings {

  /** JavaScript `\s`: WhiteSpace and LineTerminator of ECMA-262. */
  predicate IsWhitespace(c: char) {
    || c == ' ' || c == '\t' || c == '\n' || c == '\U{000B}' || c == '\U{000C}' || c == '\r'
    || c == '\U{00A0}' || c == '\U{1680}' || ('\U{2000}' <= c <= '\U{200A}')
    || c == '\U{2028}' || c == '\U{2029}' || c == '\U{202F}' || c == '\U{205F}'
    || c == '\U{3000}' || c == '\U{FEFF}'
  }

  /** The characters a regular-expression `.` does not match. */
  predicate IsLineTerminator(c: char) {
    c == '\n' || c == '\r' || c == '\U{2028}' || c == '\U{2029}'
  }

  /** JavaScript `\d`: ASCII digits only. */
  predicate IsDigit(c: char) {
    '0' <= c <= '9'
  }

  predicate AllWhitespace(s: string) {
    forall i :: 0 <= i < |s| ==> IsWhitespace(s[i])
  }

  predicate NoLineTerminator(s: string) {
    forall i :: 0 <= i < |s| ==> !IsLineTerminator(s[i])
  }

  predicate AllDigits(s: string) {
    forall i :: 0 <= i < |s| ==> IsDigit(s[i])
  }

  /**
   * The tail `\s{min,}(.+)$` of a line pattern: some split of `s` puts at least
   * `min` whitespace characters first and leaves a non-empty remainder that `.+`
   * can match up to the end of the string.
   */
  predicate RestMatches(s: string, min: nat) {
    exists k :: min <= k < |s| && AllWhitespace(s[..k]) && NoLineTerminator(s[k..])
  }

  // ---------------------------------------------------------------- trimming

  /** `trimStart`: drop leading whitespace. */
  function TrimStart(s: string): (r: string)
    ensures |r| <= |s|
  {
    if |s| > 0 && IsWhitespace(s[0]) then TrimStart(s[1..]) else s
  }

  /** `trimEnd`: drop trailing whitespace. */
  function TrimEnd(s: string): (r: string)
    ensures |r| <= |s|
  {
    if |s| > 0 && IsWhitespace(s[|s| - 1]) then TrimEnd(s[..|s| - 1]) else s
  }

  /** What `trimStart` leaves is a suffix that starts with a non-space; only whitespace went. */
  lemma {:induction false} TrimStartFacts(s: string)
    ensures var r := TrimStart(s);
      && r == s[|s| - |r|..] && AllWhitespace(s[..|s| - |r|])
      && (r == [] || !IsWhitespace(r[0]))
  {
    if |s| > 0 && IsWhitespace(s[0]) {
      TrimStartFacts(s[1..]);
      var r := TrimStart(s[1..]);
      var k := |s| - |r|;
      assert s[1..][k - 1..] == s[k..];
      assert s[..k] == [s[0]] + s[1..][..k - 1];
    }
  }

  /** What `trimEnd` leaves is a prefix that ends with a non-space; only whitespace went. */
  lemma {:induction false} TrimEndFacts(s: string)
    ensures var r := TrimEnd(s);
      && r == s[..|r|] && AllWhitespace(s[|r|..])
      && (r == [] || !IsWhitespace(r[|r| - 1]))
  {
    if |s| > 0 && IsWhitespace(s[|s| - 1]) {
      TrimEndFacts(s[..|s| - 1]);
      var r := TrimEnd(s[..|s| - 1]);
      assert s[..|s| - 1][..|r|] == s[..|r|];
      assert s[|r|..] == s[..|s| - 1][|r|..] + [s[|s| - 1]];
    }
  }

  /** `String.prototype.trim`. */
  function Trim(s: string): string {
    TrimEnd(TrimStart(s))
  }

  /** What `trim` leaves is a slice of its input with only whitespace cut from either end. */
  lemma TrimIsSlice(s: string) returns (a: nat, b: nat)
    ensures a <= b <= |s| && Trim(s) == s[a..b]
    ensures AllWhitespace(s[..a]) && AllWhitespace(s[b..])
    ensures a < b ==> !IsWhitespace(s[a]) && !IsWhitespace(s[b - 1])
  {
    var t := TrimStart(s);
    var u := TrimEnd(t);
    TrimStartFacts(s);
    TrimEndFacts(t);
    a := |s| - |t|;
    b := a + |u|;
    TakeOfDrop(s, a, b);
    DropOfDrop(s, a, b);
    if a < b {
      assert s[a] == t[0];
      assert s[b - 1] == u[|u| - 1];
    }
  }

  lemma TakeOfDrop(s: string, a: nat, b: nat)
    requires a <= b <= |s|
    ensures s[a..][..b - a] == s[a..b]
  {
  }

  lemma DropOfDrop(s: string, a: nat, b: nat)
    requires a <= b <= |s|
    ensures s[a..][b - a..] == s[b..]
  {
  }

  /** `trim` empties exactly the strings made of whitespace only. */
  lemma TrimEmptyIff(s: string)
    ensures Trim(s) == [] <==> AllWhitespace(s)
  {
    var a, b := TrimIsSlice(s);
    if Trim(s) == [] {
      assert s == s[..a] + s[b..];
    } else {
      assert !IsWhitespace(s[a]);
    }
  }

  /** Whitespace glued to either side of a string does not survive `trim`. */
  lemma {:induction false} TrimStartSkipsWhitespace(w: string, s: string)
    requires AllWhitespace(w)
    ensures TrimStart(w + s) == TrimStart(s)
    decreases |w|
  {
    if w != [] {
      assert (w + s)[0] == w[0];
      assert (w + s)[1..] == w[1..] + s;
      TrimStartSkipsWhitespace(w[1..], s);
    } else {
      assert w + s == s;
    }
  }

  lemma {:induction false} TrimEndSkipsWhitespace(s: string, w: string)
    requires AllWhitespace(w)
    ensures TrimEnd(s + w) == TrimEnd(s)
    decreases |w|
  {
    if w != [] {
      assert (s + w)[|s + w| - 1] == w[|w| - 1];
      assert (s + w)[..|s + w| - 1] == s + w[..|w| - 1];
      TrimEndSkipsWhitespace(s, w[..|w| - 1]);
    } else {
      assert s + w == s;
    }
  }

  /** A string with no whitespace at either end is its own trim. */
  lemma TrimOfTrimmed(s: string)
    requires s == [] || (!IsWhitespace(s[0]) && !IsWhitespace(s[|s| - 1]))
    ensures Trim(s) == s
  {
  }

  /** `trim` is idempotent. */
  lemma TrimIdempotent(s: string)
    ensures Trim(Trim(s)) == Trim(s)
  {
    var a, b := TrimIsSlice(s);
    TrimOfTrimmed(Trim(s));
  }

  /** `trim` keeps a slice, so it adds no line terminator. */
  lemma TrimKeepsNoLineTerminator(s: string)
    requires NoLineTerminator(s)
    ensures NoLineTerminator(Trim(s))
  {
    var a, b := TrimIsSlice(s);
    var t := Trim(s);
    assert forall i :: 0 <= i < |t| ==> t[i] == s[a + i];
  }

  /** Trimming a suffix of leading whitespace gives the trim of the whole. */
  lemma TrimDropWhitespacePrefix(s: string, k: nat)
    requires k <= |s| && AllWhitespace(s[..k])
    ensures Trim(s[k..]) == Trim(s)
  {
    assert s == s[..k] + s[k..];
    TrimStartSkipsWhitespace(s[..k], s[k..]);
  }

  /** The end of the run of `\s` characters starting at `i`. */
  function SkipWhitespace(s: string, i: nat): (j: nat)
    requires i <= |s|
    ensures i <= j <= |s| && AllWhitespace(s[i..j]) && (j == |s| || !IsWhitespace(s[j]))
    decreases |s| - i
  {
    if i < |s| && IsWhitespace(s[i]) then
      var j := SkipWhitespace(s, i + 1);
      assert forall k :: i <= k < j ==> k == i || s[i + 1..j][k - i - 1] == s[k];
      j
    else i
  }

  /** A whitespace run that stops at a non-whitespace character is exactly what the scan skips. */
  lemma {:induction false} SkipWhitespaceExact(s: string, i: nat, j: nat)
    requires i <= j < |s| && AllWhitespace(s[i..j]) && !IsWhitespace(s[j])
    ensures SkipWhitespace(s, i) == j
    decreases j - i
  {
    if i < j {
      assert IsWhitespace(s[i..j][0]);
      assert s[i + 1..j] == s[i..j][1..];
      SkipWhitespaceExact(s, i + 1, j);
    }
  }

  // ------------------------------------------------- split and join on "\n"

  /** `s.split("\n")`: never empty. */
  function Split(s: string): (lines: seq<string>)
    ensures |lines| >= 1
  {
    if |s| == 0 then [""]
    else if s[0] == '\n' then [""] + Split(s[1..])
    else
      var rest := Split(s[1..]);
      [[s[0]] + rest[0]] + rest[1..]
  }

  /** `lines.join("\n")`. */
  function Join(lines: seq<string>): string {
    if |lines| == 0 then ""
    else if |lines| == 1 then lines[0]
    else lines[0] + "\n" + Join(lines[1..])
  }

  /** A leading newline closes an empty first line. */
  lemma SplitNewline(t: string)
    ensures Split("\n" + t) == [""] + Split(t)
  {
    assert ("\n" + t)[1..] == t;
  }

  /** Any other leading character opens the first line. */
  lemma SplitCons(c: char, t: string)
    requires c != '\n'
    ensures Split([c] + t) == [[c] + Split(t)[0]] + Split(t)[1..]
  {
    assert ([c] + t)[1..] == t;
  }

  /** No piece of a split holds a newline. */
  lemma {:induction false} SplitNoNewline(s: string)
    ensures forall i :: 0 <= i < |Split(s)| ==> '\n' !in Split(s)[i]
  {
    if |s| > 0 {
      var t := s[1..];
      assert s == [s[0]] + t;
      SplitNoNewline(t);
      if s[0] == '\n' {
        SplitNewline(t);
      } else {
        SplitCons(s[0], t);
        var first := [s[0]] + Split(t)[0];
        assert '\n' !in first;
        assert forall i :: 1 <= i < |Split(s)| ==> Split(s)[i] == Split(t)[i];
      }
    }
  }

  /** Splitting and joining back gives the original text. */
  lemma {:induction false} JoinSplit(s: string)
    ensures Join(Split(s)) == s
  {
    if |s| > 0 {
      var t := s[1..];
      assert s == [s[0]] + t;
      JoinSplit(t);
      var rest := Split(t);
      if s[0] == '\n' {
        SplitNewline(t);
        assert ([""] + rest)[1..] == rest;
      } else {
        SplitCons(s[0], t);
        var first := [s[0]] + rest[0];
        if |rest| > 1 {
          assert ([first] + rest[1..])[1..] == rest[1..];
        }
      }
    }
  }

  /** A line without newline splits into itself. */
  lemma {:induction false} SplitSingle(s: string)
    requires '\n' !in s
    ensures Split(s) == [s]
  {
    if |s| > 0 {
      assert s[0] in s;
      assert '\n' !in s[1..] by {
        forall i | 0 <= i < |s[1..]| ensures s[1..][i] != '\n' { assert s[1..][i] == s[i + 1]; }
      }
      SplitSingle(s[1..]);
      assert [s[0]] + s[1..] == s;
    }
  }

  /** Splitting distributes over a joining newline. */
  lemma {:induction false} SplitAppend(a: string, b: string)
    ensures Split(a + "\n" + b) == Split(a) + Split(b)
  {
    if |a| == 0 {
      assert a + "\n" + b == "\n" + b;
      SplitNewline(b);
    } else {
      var t := a[1..];
      assert a == [a[0]] + t;
      assert a + "\n" + b == [a[0]] + (t + "\n" + b);
      SplitAppend(t, b);
      var rest := Split(t);
      if a[0] == '\n' {
        SplitNewline(t + "\n" + b);
        SplitNewline(t);
      } else {
        SplitCons(a[0], t + "\n" + b);
        SplitCons(a[0], t);
        PrependToFirst([a[0]], rest, Split(b));
      }
    }
  }

  /** Gluing text onto the first line commutes with appending further lines. */
  lemma PrependToFirst(p: string, lines: seq<string>, more: seq<string>)
    requires |lines| >= 1
    ensures [p + (lines + more)[0]] + (lines + more)[1..] == [p + lines[0]] + lines[1..] + more
  {
    assert (lines + more)[1..] == lines[1..] + more;
  }

  /** Lines without a newline survive joining and splitting again. */
  lemma {:induction false} SplitJoin(lines: seq<string>)
    requires |lines| >= 1 && forall i :: 0 <= i < |lines| ==> '\n' !in lines[i]
    ensures Split(Join(lines)) == lines
  {
    if |lines| == 1 {
      SplitSingle(lines[0]);
    } else {
      SplitJoin(lines[1..]);
      SplitSingle(lines[0]);
      SplitAppend(lines[0], Join(lines[1..]));
      assert [lines[0]] + lines[1..] == lines;
    }
  }

  // ------------------------------------------------------ searching strings

  /** `s.includes(pat)`. */
  predicate Contains(s: string, pat: string) {
    exists i | 0 <= i <= |s| :: OccursAt(s, pat, i)
  }

  predicate OccursAt(s: string, pat: string, i: int) {
    0 <= i && i + |pat| <= |s| && s[i..i + |pat|] == pat
  }

  /** `s.endsWith(suffix)`. */
  predicate EndsWith(s: string, suffix: string) {
    |suffix| <= |s| && s[|s| - |suffix|..] == suffix
  }

  /** `s.substring(start)` for a non-negative start: clamped to the length. */
  function SubstringFrom(s: string, start: nat): (r: string)
    ensures start <= |s| ==> r == s[start..]
    ensures start > |s| ==> r == ""
  {
    if start <= |s| then s[start..] else ""
  }

  /** Text found inside a slice is found inside the whole. */
  lemma ContainsInSlice(s: string, pat: string, lo: nat, hi: nat)
    requires lo <= hi <= |s| && Contains(s[lo..hi], pat)
    ensures Contains(s, pat)
  {
    var i :| 0 <= i <= |s[lo..hi]| && OccursAt(s[lo..hi], pat, i);
    forall k | 0 <= k < |pat| ensures s[lo + i..lo + i + |pat|][k] == pat[k] {
      assert s[lo..hi][i..i + |pat|][k] == s[lo..hi][i + k] == s[lo + i + k];
    }
    assert s[lo + i..lo + i + |pat|] == pat;
    assert OccursAt(s, pat, lo + i);
  }

  // ------------------------------------------------------- decimal numbers

  function DigitChar(n: nat): (c: char)
    requires n < 10
    ensures IsDigit(c) && DigitValue(c) == n
  {
    ('0' as int + n) as char
  }

  function DigitValue(c: char): nat
    requires IsDigit(c)
  {
    c as int - '0' as int
  }

  /** `String(n)` for a natural number: decimal digits, no leading zero. */
  function NatToString(n: nat): (r: string)
    ensures |r| >= 1 && AllDigits(r)
    ensures (n < 10) == (|r| == 1)
  {
    if n < 10 then [DigitChar(n)] else NatToString(n / 10) + [DigitChar(n % 10)]
  }

  /** `String(i)` for any integer. */
  function IntToString(i: int): string {
    if i < 0 then "-" + NatToString(-i) else NatToString(i)
  }

  /** The number a digit string denotes. */
  function DigitsValue(s: string): nat
    requires AllDigits(s)
  {
    if s == [] then 0 else 10 * DigitsValue(s[..|s| - 1]) + DigitValue(s[|s| - 1])
  }

  /** Reading back what `String(n)` wrote gives `n`. */
  lemma {:induction false} NatToStringValue(n: nat)
    ensures DigitsValue(NatToString(n)) == n
  {
    if n >= 10 {
      NatToStringValue(n / 10);
      var s := NatToString(n);
      assert s[..|s| - 1] == NatToString(n / 10);
    }
  }

  /** Distinct numbers print differently. */
  lemma NatToStringInjective(m: nat, n: nat)
    requires NatToString(m) == NatToString(n)
    ensures m == n
  {
    NatToStringValue(m);
    NatToStringValue(n);
  }

  /** `String(n)` has exactly four digits for the four-digit numbers. */
  lemma {:induction false} NatToStringLength(n: nat, k: nat)
    requires k >= 1
    ensures |NatToString(n)| == k <==> Pow10(k - 1) <= n < Pow10(k) || (k == 1 && n == 0)
  {
    if n >= 10 {
      if k >= 2 {
        NatToStringLength(n / 10, k - 1);
        Pow10Positive(k - 2);
      } else {
        NatToStringLength(n / 10, 1);
      }
    } else if k >= 2 {
      Pow10Positive(k - 2);
    }
  }

  function Pow10(k: nat): (p: nat)
    ensures p >= 1
  {
    if k == 0 then 1 else 10 * Pow10(k - 1)
  }

  lemma Pow10Positive(k: nat)
    ensures Pow10(k + 1) >= 10
  {
  }

  /** `String(n).padStart(2, "0")`. */
  function PadStart2(n: nat): string {
    var s := NatToString(n);
    if |s| < 2 then "0" + s else s
  }

  /** Below 100 the padded form is two digits that read back as `n`. */
  lemma PadStart2TwoDigits(n: nat)
    requires n < 100
    ensures |PadStart2(n)| == 2 && AllDigits(PadStart2(n))
    ensures 10 * DigitValue(PadStart2(n)[0]) + DigitValue(PadStart2(n)[1]) == n
  {
    if n >= 10 {
      assert NatToString(n) == [DigitChar(n / 10)] + [DigitChar(n % 10)];
    }
  }

  /** Padded forms of distinct numbers below 100 differ. */
  lemma PadStart2Injective(m: nat, n: nat)
    requires m < 100 && n < 100 && PadStart2(m) == PadStart2(n)
    ensures m == n
  {
    PadStart2TwoDigits(m);
    PadStart2TwoDigits(n);
  }
}
