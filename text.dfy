/**
 * The pieces of Python's `str` and `int` behaviour that the scanner relies on:
 * `str.isspace`, `str(n)` for integers, `int(s)` in base 10, `str.split()` with
 * and without a separator, `str.lstrip()` and `str.replace(pat, "")`.
 */
module Text {
  import opened Wrappers

  /** `c.isspace()`: the characters CPython treats as whitespace. */
  predicate IsSpace(c: char) {
    || ('\t' <= c <= '\r')
    || ('\U{1C}' <= c <= ' ')
    || c == '\U{85}' || c == '\U{A0}' || c == '\U{1680}'
    || ('\U{2000}' <= c <= '\U{200A}')
    || c == '\U{2028}' || c == '\U{2029}' || c == '\U{202F}' || c == '\U{205F}' || c == '\U{3000}'
  }

  /**
   * The whitespace `int(s)` skips around a number: ASCII " \t\n\v\f\r", plus every
   * non-ASCII character `isspace()` accepts. The separators U+001C..U+001F are
   * whitespace for `split()` and `lstrip()` but not for `int()`.
   */
  predicate IsIntSpace(c: char) {
    IsSpace(c) && !('\U{1C}' <= c <= '\U{1F}')
  }

  predicate IsDigit(c: char) {
    '0' <= c <= '9'
  }

  predicate AllDigits(s: string) {
    forall k :: 0 <= k < |s| ==> IsDigit(s[k])
  }

  predicate NoSpace(s: string) {
    forall k :: 0 <= k < |s| ==> !IsSpace(s[k])
  }

  function DigitChar(d: nat): (c: char)
    requires d < 10
    ensures IsDigit(c)
  {
    (48 + d) as char
  }

  function DigitValue(c: char): (d: nat)
    requires IsDigit(c)
    ensures d < 10 && DigitChar(d) == c
  {
    (c as int) - 48
  }

  /** `str(n)` for a non-negative integer: its decimal digits, most significant first. */
  function NatToDecimal(n: nat): (s: string)
    ensures |s| >= 1 && AllDigits(s)
    decreases n
  {
    if n < 10 then [DigitChar(n)] else NatToDecimal(n / 10) + [DigitChar(n % 10)]
  }

  /** `str(n)` writes no leading zero: only zero itself starts with `0`. */
  lemma {:induction false} NoLeadingZero(n: nat)
    ensures NatToDecimal(n)[0] != '0' || NatToDecimal(n) == "0"
    decreases n
  {
    if n >= 10 {
      NoLeadingZero(n / 10);
      assert NatToDecimal(n)[0] == NatToDecimal(n / 10)[0];
      assert NatToDecimal(n / 10) != "0" by {
        if NatToDecimal(n / 10) == "0" {
          DigitsValueOfDecimal(n / 10);
        }
      }
    }
  }

  /** `str(n)` for any integer: a minus sign before the digits of a negative number. */
  function IntToDecimal(n: int): (s: string)
    ensures |s| >= 1 && NoSpace(s)
  {
    if n < 0 then "-" + NatToDecimal(-n) else NatToDecimal(n)
  }

  /** The value of a string of decimal digits, most significant first. */
  function DigitsValue(s: string): nat
    requires AllDigits(s)
  {
    if s == [] then 0 else 10 * DigitsValue(s[..|s| - 1]) + DigitValue(s[|s| - 1])
  }

  lemma {:induction false} DigitsValueOfDecimal(n: nat)
    ensures DigitsValue(NatToDecimal(n)) == n
  {
    if n >= 10 {
      DigitsValueOfDecimal(n / 10);
      var s := NatToDecimal(n);
      assert s[..|s| - 1] == NatToDecimal(n / 10);
    }
  }

  /** `s.strip()` as `int(s)` applies it: drops `IsIntSpace` characters at both ends. */
  function TrimIntSpace(s: string): (r: string)
    ensures |r| <= |s|
    ensures forall k :: 0 <= k < |r| ==> r[k] in s
    decreases |s|
  {
    if s != [] && IsIntSpace(s[0]) then TrimIntSpace(s[1..])
    else if s != [] && IsIntSpace(s[|s| - 1]) then TrimIntSpace(s[..|s| - 1])
    else s
  }

  /**
   * The digits of a base-10 `int()` literal: digits, where single underscores may
   * separate two digits.
   */
  predicate IsDigitGroups(s: string) {
    && |s| >= 1
    && IsDigit(s[0])
    && IsDigit(s[|s| - 1])
    && (forall k :: 0 <= k < |s| ==> IsDigit(s[k]) || s[k] == '_')
    && (forall k :: 0 <= k < |s| - 1 ==> s[k] == '_' ==> s[k + 1] != '_')
  }

  /** The digits of `s` with the underscores taken out. */
  function DropUnderscores(s: string): (r: string)
    requires forall k :: 0 <= k < |s| ==> IsDigit(s[k]) || s[k] == '_'
    ensures AllDigits(r)
    ensures AllDigits(s) ==> r == s
  {
    if s == [] then []
    else (if s[0] == '_' then [] else [s[0]]) + DropUnderscores(s[1..])
  }

  /**
   * `int(s)`: `None` where Python raises `ValueError`. Surrounding whitespace is
   * skipped, one sign is allowed, and the rest must be underscore-grouped digits.
   */
  function ParseInt(s: string): (r: Option<int>)
    ensures (forall k :: 0 <= k < |s| ==> !IsDigit(s[k])) ==> r.None?
    ensures s != [] && AllDigits(s) ==> r == Some(DigitsValue(s))
  {
    ParseStripped(TrimIntSpace(s))
  }

  /** `int()` of a string with no whitespace left at either end. */
  function ParseStripped(t: string): Option<int> {
    var negative := |t| > 0 && t[0] == '-';
    var body := if |t| > 0 && (t[0] == '-' || t[0] == '+') then t[1..] else t;
    if !IsDigitGroups(body) then None
    else
      var v: int := DigitsValue(DropUnderscores(body));
      Some(if negative then -v else v)
  }

  /** `int()` skips whitespace on both sides of the number. */
  lemma ParseIntSkipsSpace(pre: string, s: string, post: string)
    requires forall k :: 0 <= k < |pre| ==> IsIntSpace(pre[k])
    requires forall k :: 0 <= k < |post| ==> IsIntSpace(post[k])
    ensures ParseInt(pre + s + post) == ParseInt(s)
  {
    var x := pre + s + post;
    assert x == pre + (s + post);
    TrimLeadingSpace(pre, s + post);
    TrimTrailingSpace(s, post);
    assert TrimIntSpace(x) == TrimIntSpace(s);
  }

  lemma {:induction false} TrimLeadingSpace(pre: string, s: string)
    requires forall k :: 0 <= k < |pre| ==> IsIntSpace(pre[k])
    ensures TrimIntSpace(pre + s) == TrimIntSpace(s)
  {
    if pre == [] {
      assert pre + s == s;
    } else {
      assert (pre + s)[0] == pre[0];
      assert (pre + s)[1..] == pre[1..] + s;
      TrimLeadingSpace(pre[1..], s);
    }
  }

  lemma {:induction false} TrimTrailingSpace(s: string, post: string)
    requires forall k :: 0 <= k < |post| ==> IsIntSpace(post[k])
    ensures TrimIntSpace(s + post) == TrimIntSpace(s)
    decreases |s| + |post|
  {
    if post == [] {
      assert s + post == s;
    } else if s != [] && IsIntSpace(s[0]) {
      assert (s + post)[1..] == s[1..] + post;
      TrimTrailingSpace(s[1..], post);
    } else if s == [] {
      assert (s + post)[1..] == s + post[1..];
      TrimTrailingSpace(s, post[1..]);
    } else {
      var n := |s + post|;
      assert (s + post)[..n - 1] == s + post[..|post| - 1];
      TrimTrailingSpace(s, post[..|post| - 1]);
    }
  }

  /** Underscores may separate digits. */
  lemma ParseIntUnderscore()
    ensures ParseInt("1_0") == Some(10)
  {
    var s := "1_0";
    NoSpaceToTrim(s);
    UnderscoreGroups();
    TenValue();
  }

  lemma UnderscoreGroups()
    ensures IsDigitGroups("1_0") && DropUnderscores("1_0") == "10"
  {
    var s := "1_0";
    assert s[1..] == "_0" && s[1..][1..] == "0";
  }

  lemma TenValue()
    ensures DigitsValue("10") == 10
  {
    assert "10"[..1] == "1";
  }

  /** A string that starts and ends with a digit has no whitespace to trim. */
  lemma NoSpaceToTrim(s: string)
    requires s != [] && IsDigit(s[0]) && IsDigit(s[|s| - 1])
    ensures TrimIntSpace(s) == s
  {
  }

  /** Two underscores in a row are refused. */
  lemma ParseIntDoubleUnderscore()
    ensures ParseInt("1__0") == None
  {
    var s := "1__0";
    NoSpaceToTrim(s);
    assert !IsDigitGroups(s) by {
      assert s[1] == '_' && s[2] == '_';
    }
  }

  /** `int(str(n)) == n`. */
  lemma ParseIntOfDecimal(n: int)
    ensures ParseInt(IntToDecimal(n)) == Some(n)
  {
    var s := IntToDecimal(n);
    assert s[0] != ' ' && !IsIntSpace(s[0]) && !IsIntSpace(s[|s| - 1]);
    assert TrimIntSpace(s) == s;
    var m: nat := if n < 0 then -n else n;
    var digits := NatToDecimal(m);
    DigitsValueOfDecimal(m);
    if n < 0 {
      assert s[1..] == digits;
    }
    assert IsDigitGroups(digits);
  }

  /** `str(n)` is injective: distinct integers print differently. */
  lemma DecimalInjective(m: int, n: int)
    requires IntToDecimal(m) == IntToDecimal(n)
    ensures m == n
  {
    ParseIntOfDecimal(m);
    ParseIntOfDecimal(n);
  }

  /** Length of the run of non-whitespace characters that starts `s`. */
  function WordLength(s: string): (n: nat)
    ensures n <= |s|
    ensures forall k :: 0 <= k < n ==> !IsSpace(s[k])
    ensures n < |s| ==> IsSpace(s[n])
  {
    if s == [] || IsSpace(s[0]) then 0 else 1 + WordLength(s[1..])
  }

  /** `s.split()`: the maximal runs of non-whitespace characters, in order. */
  function Words(s: string): (ws: seq<string>)
    ensures forall k :: 0 <= k < |ws| ==> ws[k] != [] && NoSpace(ws[k])
    decreases |s|
  {
    if s == [] then []
    else if IsSpace(s[0]) then Words(s[1..])
    else
      var n := WordLength(s);
      [s[..n]] + Words(s[n..])
  }

  /** A non-empty string without whitespace splits into itself. */
  lemma WordsOfWord(w: string)
    requires w != [] && NoSpace(w)
    ensures Words(w) == [w]
  {
    var n := WordLength(w);
    assert n == |w|;
    assert w[..n] == w && w[n..] == [];
  }

  /** Splitting at one whitespace character splits the two sides independently. */
  lemma {:induction false} WordsAroundSpace(a: string, c: char, b: string)
    requires IsSpace(c)
    ensures Words(a + [c] + b) == Words(a) + Words(b)
    decreases |a|
  {
    var s := a + [c] + b;
    if a == [] {
      assert s[1..] == b;
    } else if IsSpace(a[0]) {
      assert s[1..] == a[1..] + [c] + b;
      WordsAroundSpace(a[1..], c, b);
    } else {
      var n := WordLength(a);
      WordLengthOfPrefix(a, c, b);
      assert s[..n] == a[..n];
      assert s[n..] == a[n..] + [c] + b;
      WordsAroundSpace(a[n..], c, b);
    }
  }

  lemma {:induction false} WordLengthOfPrefix(a: string, c: char, b: string)
    requires IsSpace(c)
    ensures WordLength(a + [c] + b) == WordLength(a)
    decreases |a|
  {
    var s := a + [c] + b;
    if a != [] && !IsSpace(a[0]) {
      assert s[1..] == a[1..] + [c] + b;
      WordLengthOfPrefix(a[1..], c, b);
    }
  }

  /** `s.lstrip()`: the suffix of `s` left after dropping leading whitespace. */
  function LStrip(s: string): (r: string)
    ensures |r| <= |s| && r == s[|s| - |r|..]
    ensures r == [] || !IsSpace(r[0])
    ensures forall k :: 0 <= k < |s| - |r| ==> IsSpace(s[k])
  {
    if s != [] && IsSpace(s[0]) then LStrip(s[1..]) else s
  }

  /** `lstrip()` removes exactly a leading run of whitespace. */
  lemma {:induction false} LStripLeading(spaces: string, rest: string)
    requires forall k :: 0 <= k < |spaces| ==> IsSpace(spaces[k])
    requires rest == [] || !IsSpace(rest[0])
    ensures LStrip(spaces + rest) == rest
  {
    if spaces != [] {
      assert (spaces + rest)[1..] == spaces[1..] + rest;
      LStripLeading(spaces[1..], rest);
    } else {
      assert spaces + rest == rest;
    }
  }

  /** Position of the first `c` in `s` (`s.find(c)`, with `None` for -1). */
  function IndexOf(s: string, c: char): (r: Option<nat>)
    ensures r.None? <==> c !in s
    ensures r.Some? ==> r.value < |s| && s[r.value] == c && c !in s[..r.value]
  {
    if s == [] then None
    else if s[0] == c then Some(0)
    else match IndexOf(s[1..], c)
      case None => None
      case Some(i) =>
        assert s[..i + 1] == [s[0]] + s[1..][..i];
        Some(i + 1)
  }

  /** `s.split(sep)` for a one-character separator. */
  function Split(s: string, sep: char): (parts: seq<string>)
    ensures |parts| >= 1
    ensures forall k :: 0 <= k < |parts| ==> sep !in parts[k]
    ensures sep !in s ==> parts == [s]
    ensures sep in s ==> |parts| >= 2
    decreases |s|
  {
    match IndexOf(s, sep)
    case None => [s]
    case Some(i) => [s[..i]] + Split(s[i + 1..], sep)
  }

  /** `sep.join(parts)`. */
  function Join(parts: seq<string>, sep: char): string
    requires |parts| >= 1
  {
    if |parts| == 1 then parts[0] else parts[0] + [sep] + Join(parts[1..], sep)
  }

  /** `sep.join(s.split(sep)) == s`. */
  lemma {:induction false} JoinSplit(s: string, sep: char)
    ensures Join(Split(s, sep), sep) == s
    decreases |s|
  {
    match IndexOf(s, sep)
    case None =>
    case Some(i) =>
      var rest := Split(s[i + 1..], sep);
      var parts := [s[..i]] + rest;
      assert Split(s, sep) == parts;
      assert parts[1..] == rest;
      assert Join(parts, sep) == s[..i] + [sep] + Join(rest, sep);
      JoinSplit(s[i + 1..], sep);
      assert s == s[..i] + [sep] + s[i + 1..];
  }

  /** Splitting at one separator splits the two sides independently. */
  lemma {:induction false} SplitAround(a: string, sep: char, b: string)
    requires sep !in a
    ensures Split(a + [sep] + b, sep) == [a] + Split(b, sep)
  {
    var s := a + [sep] + b;
    IndexOfAfter(a, sep, b);
    assert s[..|a|] == a && s[|a| + 1..] == b;
  }

  lemma IndexOfAfter(a: string, sep: char, b: string)
    requires sep !in a
    ensures IndexOf(a + [sep] + b, sep) == Some(|a|)
  {
    var s := a + [sep] + b;
    assert s[|a|] == sep;
    assert s[..|a|] == a;
  }

  /** `s.replace(pat, "")`: deletes every non-overlapping occurrence of `pat`, leftmost first. */
  function RemoveAll(s: string, pat: string): (r: string)
    requires pat != []
    ensures |r| <= |s|
    decreases |s|
  {
    if |s| < |pat| then s
    else if s[..|pat|] == pat then RemoveAll(s[|pat|..], pat)
    else [s[0]] + RemoveAll(s[1..], pat)
  }
}
