/**
 * The pieces of Python's `str` behaviour that mailtools relies on:
 * `sep.join`, `splitlines`, ASCII lower-casing, prefix tests, the tail
 * after a separator, decimal and zero-padded formatting, and `set()`
 * de-duplication of a list.
 */
module Strings {

  /** `sep.join(parts)`. */
  function Join(parts: seq<string>, sep: string): string
    decreases |parts|
  {
    if |parts| == 0 then ""
    else if |parts| == 1 then parts[0]
    else parts[0] + sep + Join(parts[1..], sep)
  }

  /** The characters at which `str.splitlines` ends a line. */
  predicate IsLineBreak(c: char)
  {
    c == '\n' || c == '\r' || c == '\U{000B}' || c == '\U{000C}' || c == '\U{001C}' ||
    c == '\U{001D}' || c == '\U{001E}' || c == '\U{0085}' || c == '\U{2028}' || c == '\U{2029}'
  }

  predicate NoBreaks(line: string)
  {
    forall k :: 0 <= k < |line| ==> !IsLineBreak(line[k])
  }

  /** Index of the first line break in `s`, or `|s|` when there is none. */
  function FirstBreak(s: string): (i: nat)
    ensures i <= |s|
    ensures forall k :: 0 <= k < i ==> !IsLineBreak(s[k])
    ensures i < |s| ==> IsLineBreak(s[i])
  {
    if s == [] then 0
    else if IsLineBreak(s[0]) then 0
    else 1 + FirstBreak(s[1..])
  }

  /**
   * `s.splitlines()`: the lines of `s` without their terminators; "\r\n"
   * ends one line, and a final terminator does not start an empty line.
   */
  function SplitLines(s: string): seq<string>
    decreases |s|
  {
    if s == [] then []
    else
      var i := FirstBreak(s);
      if i == |s| then [s]
      else
        var next := if s[i] == '\r' && i + 1 < |s| && s[i + 1] == '\n' then i + 2 else i + 1;
        [s[..i]] + SplitLines(s[next..])
  }

  /** A line without breaks, then "\n", is the first line of what follows it. */
  lemma SplitLinesOfLine(line: string, rest: string)
    requires NoBreaks(line)
    ensures SplitLines(line + "\n" + rest) == [line] + SplitLines(rest)
  {
    var s := line + "\n" + rest;
    var i := |line|;
    assert s[i] == '\n';
    assert forall k :: 0 <= k < i ==> s[k] == line[k];
    assert FirstBreak(s) == i;
    assert s[..i] == line;
    assert s[i + 1..] == rest;
  }

  /** Joining lines with "\n" and splitting the text again gives the lines back. */
  lemma {:induction false} SplitLinesOfJoin(lines: seq<string>)
    requires forall j :: 0 <= j < |lines| ==> NoBreaks(lines[j])
    requires lines != [] ==> lines[|lines| - 1] != ""
    ensures SplitLines(Join(lines, "\n")) == lines
    decreases |lines|
  {
    if |lines| == 1 {
      assert FirstBreak(lines[0]) == |lines[0]|;
    } else if |lines| > 1 {
      var tail := lines[1..];
      var rest := Join(tail, "\n");
      assert Join(lines, "\n") == lines[0] + "\n" + rest;
      assert SplitLines(rest) == tail by {
        assert forall j :: 0 <= j < |tail| ==> tail[j] == lines[j + 1];
        SplitLinesOfJoin(tail);
      }
      SplitLinesOfLine(lines[0], rest);
    }
  }

  /**
   * Lines followed by an empty line, joined by "\n", split back into the
   * lines: the final terminator starts no line of its own.
   */
  lemma {:induction false} SplitLinesOfTerminated(lines: seq<string>)
    requires forall j :: 0 <= j < |lines| ==> NoBreaks(lines[j])
    ensures SplitLines(Join(lines + [""], "\n")) == lines
    decreases |lines|
  {
    if lines != [] {
      var tail := lines[1..];
      var rest := Join(tail + [""], "\n");
      assert Join(lines + [""], "\n") == lines[0] + "\n" + rest by {
        assert (lines + [""])[1..] == tail + [""];
      }
      assert SplitLines(rest) == tail by {
        assert forall j :: 0 <= j < |tail| ==> tail[j] == lines[j + 1];
        SplitLinesOfTerminated(tail);
      }
      SplitLinesOfLine(lines[0], rest);
    }
  }

  function LowerChar(c: char): char
  {
    if 'A' <= c <= 'Z' then (c as int + 32) as char else c
  }

  /** `s.lower()`, restricted to ASCII letters. */
  function Lower(s: string): (r: string)
    ensures |r| == |s|
    ensures forall i :: 0 <= i < |s| ==> r[i] == LowerChar(s[i])
  {
    seq(|s|, i requires 0 <= i < |s| => LowerChar(s[i]))
  }

  /** `s[:n]`. */
  function Prefix(s: string, n: nat): string
  {
    if n <= |s| then s[..n] else s
  }

  /** `s.startswith(p)`. */
  predicate StartsWith(s: string, p: string)
  {
    |p| <= |s| && s[..|p|] == p
  }

  predicate IsAscii(s: string)
  {
    forall i :: 0 <= i < |s| ==> s[i] as int < 128
  }

  /** `s.replace('\n', '')`. */
  function RemoveNewlines(s: string): (r: string)
    ensures '\n' !in r
    ensures |r| <= |s|
  {
    if s == [] then []
    else (if s[0] == '\n' then [] else [s[0]]) + RemoveNewlines(s[1..])
  }

  lemma {:induction false} RemoveNewlinesAppend(a: string, b: string)
    ensures RemoveNewlines(a + b) == RemoveNewlines(a) + RemoveNewlines(b)
    decreases |a|
  {
    if a != [] {
      assert (a + b)[0] == a[0];
      assert (a + b)[1..] == a[1..] + b;
      RemoveNewlinesAppend(a[1..], b);
    } else {
      assert a + b == b;
    }
  }

  lemma {:induction false} RemoveNewlinesNoop(s: string)
    requires '\n' !in s
    ensures RemoveNewlines(s) == s
    decreases |s|
  {
    if s != [] {
      assert '\n' !in s[1..];
      RemoveNewlinesNoop(s[1..]);
    }
  }

  /**
   * The part of `s` after the last character in `seps` (all of `s` when it
   * holds none): the tail of `posixpath.split` and its relatives.
   */
  function TailAfterLast(s: string, seps: set<char>): (r: string)
    ensures |r| <= |s| && r == s[|s| - |r|..]
    ensures forall k :: 0 <= k < |r| ==> r[k] !in seps
    ensures |r| < |s| ==> s[|s| - |r| - 1] in seps
    decreases |s|
  {
    if s == [] then []
    else if s[|s| - 1] in seps then []
    else TailAfterLast(s[..|s| - 1], seps) + [s[|s| - 1]]
  }

  /** When `s` holds none of `seps`, its tail is all of it. */
  lemma TailOfSeparatorFree(s: string, seps: set<char>)
    requires forall k :: 0 <= k < |s| ==> s[k] !in seps
    ensures TailAfterLast(s, seps) == s
  {
  }

  predicate IsDigit(c: char)
  {
    '0' <= c <= '9'
  }

  function DigitChar(d: nat): (c: char)
    requires d < 10
    ensures IsDigit(c) && c as int - '0' as int == d
  {
    ('0' as int + d) as char
  }

  /** `str(n)` for a natural number. */
  function Decimal(n: nat): (r: string)
    ensures |r| >= 1
    ensures forall k :: 0 <= k < |r| ==> IsDigit(r[k])
    decreases n
  {
    if n < 10 then [DigitChar(n)] else Decimal(n / 10) + [DigitChar(n % 10)]
  }

  /** `'%03d' % n`: at least three digits, padded with leading zeros. */
  function ZeroPad3(n: nat): (r: string)
    ensures |r| >= 3
    ensures forall k :: 0 <= k < |r| ==> IsDigit(r[k])
  {
    var d := Decimal(n);
    if |d| >= 3 then d else seq(3 - |d|, _ => '0') + d
  }

  /** The value of a string of decimal digits (leading zeros allowed). */
  function DigitsValue(s: string): nat
    requires forall k :: 0 <= k < |s| ==> IsDigit(s[k])
    decreases |s|
  {
    if s == [] then 0
    else
      assert IsDigit(s[|s| - 1]);
      10 * DigitsValue(s[..|s| - 1]) + (s[|s| - 1] as int - '0' as int)
  }

  lemma {:induction false} DigitsValueOfDecimal(n: nat)
    ensures DigitsValue(Decimal(n)) == n
    decreases n
  {
    if n >= 10 {
      var d := Decimal(n);
      assert d[..|d| - 1] == Decimal(n / 10);
      DigitsValueOfDecimal(n / 10);
    }
  }

  lemma {:induction false} DigitsValueLeadingZero(s: string)
    requires forall k :: 0 <= k < |s| ==> IsDigit(s[k])
    ensures DigitsValue(['0'] + s) == DigitsValue(s)
    decreases |s|
  {
    if s != [] {
      var t := ['0'] + s;
      assert t[..|t| - 1] == ['0'] + s[..|s| - 1];
      DigitsValueLeadingZero(s[..|s| - 1]);
    }
  }

  /** The number formatted by `'%03d'` can be read back from its digits. */
  lemma {:induction false} ZeroPad3Value(n: nat)
    ensures DigitsValue(ZeroPad3(n)) == n
  {
    var d := Decimal(n);
    DigitsValueOfDecimal(n);
    if |d| == 1 {
      assert ZeroPad3(n) == ['0'] + (['0'] + d);
      DigitsValueLeadingZero(d);
      DigitsValueLeadingZero(['0'] + d);
    } else if |d| == 2 {
      assert ZeroPad3(n) == ['0'] + d;
      DigitsValueLeadingZero(d);
    }
  }

  /** `s[k:]`, with Python's reading of a negative or too large `k`. */
  function SliceFrom<T>(s: seq<T>, k: int): seq<T>
  {
    if k < 0 then (if |s| + k < 0 then s else s[|s| + k..])
    else if k <= |s| then s[k..]
    else []
  }

  predicate NoDuplicates<T(==)>(s: seq<T>)
  {
    forall i, j :: 0 <= i < j < |s| ==> s[i] != s[j]
  }

  /** `list(set(s))`, in first-occurrence order. */
  function Dedup(s: seq<string>): (r: seq<string>)
    ensures NoDuplicates(r)
    ensures forall x :: x in r <==> x in s
    decreases |s|
  {
    if s == [] then []
    else
      var rest := Dedup(s[..|s| - 1]);
      assert forall x :: x in s <==> x in s[..|s| - 1] || x == s[|s| - 1];
      if s[|s| - 1] in rest then rest else rest + [s[|s| - 1]]
  }
}
