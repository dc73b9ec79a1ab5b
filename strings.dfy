/** Python string built-ins that the downloader relies on: `str.strip`,
    `str.splitlines` (for '\n' terminators) and `str(int)` as used inside an
    f-string. */
module Strings {
  import opened Seqs

  /** Python's `str.isspace()` for one character: the ASCII whitespace and
      separators plus the other characters Python's `isspace` accepts. */
  predicate IsSpace(c: char)
  {
    || c == ' ' || '\t' <= c <= '\r' || '\U{1C}' <= c <= '\U{1F}'
    || c == '\U{85}' || c == '\U{A0}' || c == '\U{1680}' || '\U{2000}' <= c <= '\U{200A}'
    || c == '\U{2028}' || c == '\U{2029}' || c == '\U{202F}' || c == '\U{205F}' || c == '\U{3000}'
  }

  predicate AllSpace(s: string)
  {
    forall k :: 0 <= k < |s| ==> IsSpace(s[k])
  }

  /** `s.lstrip()`: `s` with its leading whitespace removed; `TrimLeftFacts`
      states what it keeps and what it drops. */
  function TrimLeft(s: string): (r: string)
    ensures |r| <= |s|
  {
    if s != [] && IsSpace(s[0]) then TrimLeft(s[1..]) else s
  }

  /** The result of `lstrip` is the longest suffix of `s` that does not start
      with whitespace. */
  lemma {:induction false} TrimLeftFacts(s: string)
    ensures var r := TrimLeft(s);
      && r == s[|s| - |r|..]
      && (forall k :: 0 <= k < |s| - |r| ==> IsSpace(s[k]))
      && (r != [] ==> !IsSpace(r[0]))
    decreases |s|
  {
    if s != [] && IsSpace(s[0]) {
      var r := TrimLeft(s[1..]);
      TrimLeftFacts(s[1..]);
      assert s[1..][|s| - 1 - |r|..] == s[|s| - |r|..];
      forall k | 0 < k < |s| - |r| ensures IsSpace(s[k]) {
        assert s[k] == s[1..][k - 1];
      }
    }
  }

  /** `s.rstrip()`: `s` with its trailing whitespace removed; `TrimRightFacts`
      states what it keeps and what it drops. */
  function TrimRight(s: string): (r: string)
    ensures |r| <= |s|
  {
    if s != [] && IsSpace(s[|s| - 1]) then TrimRight(s[..|s| - 1]) else s
  }

  /** The result of `rstrip` is the longest prefix of `s` that does not end
      with whitespace. */
  lemma {:induction false} TrimRightFacts(s: string)
    ensures var r := TrimRight(s);
      && r == s[..|r|]
      && (forall k :: |r| <= k < |s| ==> IsSpace(s[k]))
      && (r != [] ==> !IsSpace(r[|r| - 1]))
    decreases |s|
  {
    if s != [] && IsSpace(s[|s| - 1]) {
      var r := TrimRight(s[..|s| - 1]);
      TrimRightFacts(s[..|s| - 1]);
      assert s[..|s| - 1][..|r|] == s[..|r|];
      forall k | |r| <= k < |s| - 1 ensures IsSpace(s[k]) {
        assert s[k] == s[..|s| - 1][k];
      }
    }
  }

  /** Number of whitespace characters `strip` removes at the front. */
  function LeadingSpaces(s: string): nat
  {
    |s| - |TrimLeft(s)|
  }

  /** `s.strip()`: `s` without its leading and trailing whitespace;
      `StripFacts` states what it keeps and what it drops. */
  function Strip(s: string): (r: string)
    ensures |r| <= |s|
  {
    TrimRight(TrimLeft(s))
  }

  /** The result of `strip` is the slice of `s` that starts after the leading
      whitespace, everything cut off is whitespace, and the result neither
      starts nor ends with it. */
  lemma StripFacts(s: string)
    ensures LeadingSpaces(s) + |Strip(s)| <= |s|
    ensures Strip(s) == s[LeadingSpaces(s)..LeadingSpaces(s) + |Strip(s)|]
    ensures forall k :: 0 <= k < LeadingSpaces(s) ==> IsSpace(s[k])
    ensures forall k :: LeadingSpaces(s) + |Strip(s)| <= k < |s| ==> IsSpace(s[k])
    ensures Strip(s) != [] ==> !IsSpace(Strip(s)[0]) && !IsSpace(Strip(s)[|Strip(s)| - 1])
  {
    StripSlice(s);
    StripCut(s);
    StripEnds(s);
  }

  lemma StripSlice(s: string)
    ensures LeadingSpaces(s) + |Strip(s)| <= |s|
    ensures Strip(s) == s[LeadingSpaces(s)..LeadingSpaces(s) + |Strip(s)|]
  {
    var t := TrimLeft(s);
    var r := TrimRight(t);
    var n := |s| - |t|;
    assert LeadingSpaces(s) == n && Strip(s) == r;
    TrimLeftFacts(s);
    TrimRightFacts(t);
    SuffixPrefix(s, n, |r|);
  }

  lemma StripCut(s: string)
    ensures forall k :: 0 <= k < LeadingSpaces(s) ==> IsSpace(s[k])
    ensures forall k :: LeadingSpaces(s) + |Strip(s)| <= k < |s| ==> IsSpace(s[k])
  {
    var t := TrimLeft(s);
    var r := TrimRight(t);
    var n := |s| - |t|;
    assert LeadingSpaces(s) == n && Strip(s) == r;
    TrimLeftFacts(s);
    TrimRightFacts(t);
    TrailingSpaces(s, n, t, |r|);
  }

  lemma StripEnds(s: string)
    ensures Strip(s) != [] ==> !IsSpace(Strip(s)[0]) && !IsSpace(Strip(s)[|Strip(s)| - 1])
  {
    var t := TrimLeft(s);
    var r := TrimRight(t);
    TrimLeftFacts(s);
    TrimRightFacts(t);
    if r != [] {
      assert r[0] == t[0];
    }
  }

  lemma TrailingSpaces(s: string, n: nat, t: string, m: nat)
    requires n <= |s| && t == s[n..] && m <= |t|
    requires forall k :: m <= k < |t| ==> IsSpace(t[k])
    ensures forall k :: n + m <= k < |s| ==> IsSpace(s[k])
  {
    forall k | n + m <= k < |s| ensures IsSpace(s[k]) {
      assert s[k] == t[k - n];
    }
  }

  /** A string strips to nothing exactly when it is all whitespace. */
  lemma StripEmptyIff(s: string)
    ensures Strip(s) == [] <==> AllSpace(s)
  {
    var n := LeadingSpaces(s);
    StripFacts(s);
    if Strip(s) == [] {
      TrimLeftFacts(s);
      assert TrimLeft(s) == [];
    } else {
      assert s[n] == Strip(s)[0];
    }
  }

  /** Stripping leaves a string alone that neither starts nor ends with
      whitespace. */
  lemma StripKeeps(s: string)
    requires s != [] && !IsSpace(s[0]) && !IsSpace(s[|s| - 1])
    ensures Strip(s) == s
  {
    assert TrimLeft(s) == s;
    assert TrimRight(s) == s;
  }

  /** Python's `s.splitlines()` when '\n' is the only line terminator: the
      pieces between newlines, where a final newline does not start another
      (empty) line and the empty string has no lines at all. */
  function SplitLines(s: string): (lines: seq<string>)
    ensures forall j :: 0 <= j < |lines| ==> NoNewline(lines[j])
    decreases |s|
  {
    if s == [] then []
    else
      var i := FirstNewline(s);
      [s[..i]] + SplitLines(if i < |s| then s[i + 1..] else [])
  }

  predicate NoNewline(line: string)
  {
    forall k :: 0 <= k < |line| ==> line[k] != '\n'
  }

  /** Index of the first '\n' in `s`, or `|s|` when there is none. */
  function FirstNewline(s: string): (i: nat)
    ensures i <= |s| && (i < |s| ==> s[i] == '\n')
    ensures forall k :: 0 <= k < i ==> s[k] != '\n'
  {
    if s == [] || s[0] == '\n' then 0 else 1 + FirstNewline(s[1..])
  }

  /** Each line followed by its terminator: the inverse of `SplitLines`. */
  function JoinLines(lines: seq<string>): string
  {
    if lines == [] then [] else lines[0] + ['\n'] + JoinLines(lines[1..])
  }

  lemma JoinLinesCons(line: string, rest: seq<string>)
    ensures JoinLines([line] + rest) == line + ['\n'] + JoinLines(rest)
  {
    assert ([line] + rest)[1..] == rest;
  }

  /** Three lines written out, each with its terminator. */
  lemma JoinThree(a: string, b: string, c: string)
    ensures JoinLines([a, b, c]) == a + ['\n'] + b + ['\n'] + c + ['\n']
  {
    JoinLinesCons(c, []);
    JoinLinesCons(b, [c]);
    JoinLinesCons(a, [b, c]);
    assert [a] + [b, c] == [a, b, c] && [b] + [c] == [b, c] && [c] + [] == [c];
  }

  /** Writing one more line appends it and its terminator to the text. */
  lemma {:induction false} JoinLinesSnoc(lines: seq<string>, line: string)
    ensures JoinLines(lines + [line]) == JoinLines(lines) + line + ['\n']
    decreases |lines|
  {
    if lines == [] {
      JoinLinesCons(line, []);
      assert [] + [line] == [line] + [];
    } else {
      assert lines + [line] == [lines[0]] + (lines[1..] + [line]);
      JoinLinesCons(lines[0], lines[1..] + [line]);
      JoinLinesSnoc(lines[1..], line);
      JoinLinesCons(lines[0], lines[1..]);
      assert lines == [lines[0]] + lines[1..];
      Associative(lines[0] + ['\n'], JoinLines(lines[1..]) + line, ['\n']);
      Associative(lines[0] + ['\n'], JoinLines(lines[1..]), line);
    }
  }

  /** Splitting the text of lines that hold no newline gives the lines back. */
  lemma {:induction false} SplitJoin(lines: seq<string>)
    requires forall j :: 0 <= j < |lines| ==> NoNewline(lines[j])
    ensures SplitLines(JoinLines(lines)) == lines
    decreases |lines|
  {
    if lines != [] {
      var l := lines[0];
      var s := JoinLines(lines);
      assert s == l + ['\n'] + JoinLines(lines[1..]);
      FirstNewlineOf(s, |l|);
      assert s[..|l|] == l && s[|l| + 1..] == JoinLines(lines[1..]);
      SplitJoin(lines[1..]);
    }
  }

  /** `FirstNewline` finds a newline that no earlier newline precedes. */
  lemma FirstNewlineOf(s: string, i: nat)
    requires i < |s| && s[i] == '\n'
    requires forall k :: 0 <= k < i ==> s[k] != '\n'
    ensures FirstNewline(s) == i
  {
  }

  /** `FirstNewline` stops at or before any newline of `s`. */
  lemma FirstNewlineBefore(s: string, j: nat)
    requires j < |s| && s[j] == '\n'
    ensures FirstNewline(s) <= j
  {
  }

  /** Joining the lines of a newline-terminated text gives the text back. */
  lemma {:induction false} JoinSplit(s: string)
    requires s == [] || s[|s| - 1] == '\n'
    ensures JoinLines(SplitLines(s)) == s
    decreases |s|
  {
    if s != [] {
      var i := FirstNewline(s);
      FirstNewlineBefore(s, |s| - 1);
      var rest := s[i + 1..];
      assert rest == [] || rest[|rest| - 1] == '\n';
      JoinSplit(rest);
      JoinLinesCons(s[..i], SplitLines(rest));
      SplitAround(s, i);
    }
  }

  predicate AllEmpty(lines: seq<string>)
  {
    forall j :: 0 <= j < |lines| ==> lines[j] == []
  }

  predicate AllNewlines(s: string)
  {
    forall k :: 0 <= k < |s| ==> s[k] == '\n'
  }

  lemma AllEmptyCons(line: string, tail: seq<string>)
    ensures AllEmpty([line] + tail) <==> line == [] && AllEmpty(tail)
  {
    var lines := [line] + tail;
    assert lines[0] == line;
    forall j | 0 <= j < |tail| ensures tail[j] == lines[j + 1] { }
  }

  /** Every line of `s` is empty exactly when `s` is made of newlines only. */
  lemma {:induction false} AllLinesEmptyIff(s: string)
    ensures AllEmpty(SplitLines(s)) <==> AllNewlines(s)
    decreases |s|
  {
    if s != [] {
      var rest := s[1..];
      if s[0] == '\n' {
        AllLinesEmptyIff(rest);
        var tail := SplitLines(rest);
        assert FirstNewline(s) == 0;
        assert SplitLines(s) == [s[..0]] + tail;
        assert s[..0] == [];
        AllEmptyCons(s[..0], tail);
        assert AllNewlines(s) <==> AllNewlines(rest) by {
          assert forall k :: 0 < k < |s| ==> s[k] == rest[k - 1];
        }
      } else {
        assert SplitLines(s)[0] != [];
      }
    }
  }

  function DigitChar(d: nat): (c: char)
    requires d < 10
    ensures '0' <= c <= '9'
  {
    ('0' as int + d) as char
  }

  function DigitValue(c: char): nat
    requires '0' <= c <= '9'
  {
    c as int - '0' as int
  }

  /** Decimal digits of a natural number, most significant first, without
      leading zeros: only zero itself is written with a leading '0'. */
  function NatToDecimal(n: nat): (r: string)
    ensures r != [] && forall k :: 0 <= k < |r| ==> '0' <= r[k] <= '9'
    ensures r[0] == '0' <==> n == 0
    ensures |r| > 1 ==> r[0] != '0'
    decreases n
  {
    if n < 10 then [DigitChar(n)] else NatToDecimal(n / 10) + [DigitChar(n % 10)]
  }

  /** `str(n)` for a Python int: a minus sign for negative numbers, then the
      decimal digits of the magnitude. */
  function IntToDecimal(n: int): (r: string)
    ensures r != [] && (r[0] == '-' <==> n < 0)
  {
    if n < 0 then ['-'] + NatToDecimal(-n) else NatToDecimal(n)
  }

  /** Value of a string of decimal digits; the reference reading of `NatToDecimal`. */
  function DecimalValue(s: string): nat
    requires forall k :: 0 <= k < |s| ==> '0' <= s[k] <= '9'
  {
    if s == [] then 0 else 10 * DecimalValue(s[..|s| - 1]) + DigitValue(s[|s| - 1])
  }

  function ParseInt(s: string): int
    requires s != []
    requires forall k :: 0 < k < |s| ==> '0' <= s[k] <= '9'
    requires s[0] != '-' ==> '0' <= s[0] <= '9'
  {
    if s[0] == '-' then -(DecimalValue(s[1..]) as int) else DecimalValue(s)
  }

  lemma ParseNegative(d: string)
    requires d != [] && forall k :: 0 <= k < |d| ==> '0' <= d[k] <= '9'
    ensures ParseInt(['-'] + d) == -(DecimalValue(d) as int)
  {
    assert (['-'] + d)[1..] == d;
  }

  lemma {:induction false} NatDecimalRoundTrip(n: nat)
    ensures DecimalValue(NatToDecimal(n)) == n
    decreases n
  {
    if n >= 10 {
      var r, q := NatToDecimal(n), n / 10;
      NatDecimalRoundTrip(q);
      assert r[..|r| - 1] == NatToDecimal(q);
      assert n == 10 * q + n % 10;
    }
  }

  /** Reading back the text of a return code gives the return code. */
  lemma IntDecimalRoundTrip(n: int)
    ensures ParseInt(IntToDecimal(n)) == n
  {
    if n < 0 {
      NegativeRoundTrip(n);
    } else {
      NatDecimalRoundTrip(n);
    }
  }

  lemma NegativeRoundTrip(n: int)
    requires n < 0
    ensures ParseInt(IntToDecimal(n)) == n
  {
    var m: nat := -n;
    var d := NatToDecimal(m);
    NegativeText(n, d);
    ParseNegative(d);
    NatDecimalRoundTrip(m);
  }

  lemma NegativeText(n: int, d: string)
    requires n < 0 && d == NatToDecimal(-n)
    ensures IntToDecimal(n) == ['-'] + d
  {
  }

  /** Different return codes are printed differently. */
  lemma IntToDecimalInjective(a: int, b: int)
    requires IntToDecimal(a) == IntToDecimal(b)
    ensures a == b
  {
    IntDecimalRoundTrip(a);
    IntDecimalRoundTrip(b);
  }
}
