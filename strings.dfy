/** The Python `str` operations the server relies on: substring and suffix tests, `strip()`,
    `splitlines()` and the decimal rendering of a line number. */
module Strings {

  predicate IsPrefix(p: string, s: string) {
    |p| <= |s| && s[..|p|] == p
  }

  /** `q` sits in `s` starting at index `i`. */
  predicate OccursAt(s: string, q: string, i: int) {
    0 <= i && i + |q| <= |s| && s[i..i + |q|] == q
  }

  /** Python's `q in s`: a literal, case-sensitive substring test; the empty string is in every string. */
  predicate Contains(s: string, q: string)
    decreases |s|
  {
    IsPrefix(q, s) || (s != [] && Contains(s[1..], q))
  }

  lemma {:induction false} ContainsIffOccurs(s: string, q: string)
    ensures Contains(s, q) <==> exists i :: OccursAt(s, q, i)
    decreases |s|
  {
    if IsPrefix(q, s) {
      assert OccursAt(s, q, 0);
    } else if s != [] {
      ContainsIffOccurs(s[1..], q);
      assert !OccursAt(s, q, 0);
      forall i | 1 <= i
        ensures OccursAt(s, q, i) <==> OccursAt(s[1..], q, i - 1)
      {
        OccursShift(s, q, i);
      }
      if Contains(s[1..], q) {
        var i :| OccursAt(s[1..], q, i);
        assert OccursAt(s, q, i + 1);
      }
    }
  }

  /** An occurrence in `s` past its first character is an occurrence in `s[1..]`, one index earlier. */
  lemma OccursShift(s: string, q: string, i: int)
    requires s != [] && 1 <= i
    ensures OccursAt(s, q, i) <==> OccursAt(s[1..], q, i - 1)
  {
    if i + |q| <= |s| {
      SliceOfTail(s, i, i + |q|);
    }
  }

  /** A slice of `s[1..]` is the slice of `s` one further on. */
  lemma SliceOfTail(s: string, a: nat, b: nat)
    requires 1 <= a <= b <= |s|
    ensures s[1..][a - 1..b - 1] == s[a..b]
  {
  }

  /** Python's `s.endswith(suffix)`; every string ends with the empty string. */
  predicate EndsWith(s: string, suffix: string) {
    |suffix| <= |s| && s[|s| - |suffix|..] == suffix
  }

  /** The characters for which Python's `str.isspace()` holds. */
  predicate IsSpace(c: char) {
    var n := c as int;
    n == 0x20 || 0x09 <= n <= 0x0D || 0x1C <= n <= 0x1F || n == 0x85 || n == 0xA0 || n == 0x1680
    || 0x2000 <= n <= 0x200A || n == 0x2028 || n == 0x2029 || n == 0x202F || n == 0x205F || n == 0x3000
  }

  /** `s` without its leading whitespace. */
  function TrimStart(s: string): (r: string)
    ensures |r| <= |s| && r == s[|s| - |r|..]
    ensures r != [] ==> !IsSpace(r[0])
    decreases |s|
  {
    if s != [] && IsSpace(s[0]) then TrimStart(s[1..]) else s
  }

  /** `s` without its trailing whitespace. */
  function TrimEnd(s: string): (r: string)
    ensures |r| <= |s| && r == s[..|r|]
    ensures r != [] ==> !IsSpace(r[|r| - 1])
    decreases |s|
  {
    if s != [] && IsSpace(s[|s| - 1]) then TrimEnd(s[..|s| - 1]) else s
  }

  /** Everything `TrimStart` cuts is whitespace. */
  lemma {:induction false} TrimStartCutsSpace(s: string)
    ensures forall k :: 0 <= k < |s| - |TrimStart(s)| ==> IsSpace(s[k])
    decreases |s|
  {
    if s != [] && IsSpace(s[0]) {
      TrimStartCutsSpace(s[1..]);
      forall k | 1 <= k < |s| - |TrimStart(s)|
        ensures IsSpace(s[k])
      {
        assert s[k] == s[1..][k - 1];
      }
    }
  }

  /** Everything `TrimEnd` cuts is whitespace. */
  lemma {:induction false} TrimEndCutsSpace(s: string)
    ensures forall k :: |TrimEnd(s)| <= k < |s| ==> IsSpace(s[k])
    decreases |s|
  {
    if s != [] && IsSpace(s[|s| - 1]) {
      TrimEndCutsSpace(s[..|s| - 1]);
      forall k | |TrimEnd(s)| <= k < |s| - 1
        ensures IsSpace(s[k])
      {
        assert s[k] == s[..|s| - 1][k];
      }
    }
  }

  /** Python's `s.strip()`: `s` without its leading and trailing whitespace. */
  function Strip(s: string): (r: string)
    ensures r != [] ==> !IsSpace(r[0]) && !IsSpace(r[|r| - 1])
  {
    TrimEnd(TrimStart(s))
  }

  /** What `Strip` keeps is one contiguous run of `s`, and everything it cuts on either side is whitespace. */
  lemma StripCutsOnlySpace(s: string)
    ensures var front := |s| - |TrimStart(s)|;
      && front + |Strip(s)| <= |s| && s[front..front + |Strip(s)|] == Strip(s)
      && (forall k :: 0 <= k < front ==> IsSpace(s[k]))
      && (forall k :: front + |Strip(s)| <= k < |s| ==> IsSpace(s[k]))
  {
    var t := TrimStart(s);
    var r := Strip(s);
    TrimStartCutsSpace(s);
    TrimEndCutsSpace(t);
    PrefixOfSuffix(s, t, r);
    SpaceAfterShift(s, t, |r|);
  }

  /** A prefix `r` of a suffix `t` of `s` is a slice of `s`. */
  lemma PrefixOfSuffix(s: string, t: string, r: string)
    requires |t| <= |s| && t == s[|s| - |t|..] && |r| <= |t| && r == t[..|r|]
    ensures s[|s| - |t|..|s| - |t| + |r|] == r
  {
    assert s[|s| - |t|..|s| - |t| + |r|] == t[..|r|];
  }

  /** Whitespace at the end of a suffix `t` of `s` is whitespace at the end of `s`. */
  lemma SpaceAfterShift(s: string, t: string, n: nat)
    requires |t| <= |s| && t == s[|s| - |t|..] && n <= |t|
    requires forall k :: n <= k < |t| ==> IsSpace(t[k])
    ensures forall k :: |s| - |t| + n <= k < |s| ==> IsSpace(s[k])
  {
    forall k | |s| - |t| + n <= k < |s|
      ensures IsSpace(s[k])
    {
      assert s[k] == t[k - (|s| - |t|)];
    }
  }

  /** The line boundaries of Python's `str.splitlines()`; `\r\n` counts as one boundary. */
  predicate IsLineBreak(c: char) {
    var n := c as int;
    0x0A <= n <= 0x0D || 0x1C <= n <= 0x1E || n == 0x85 || n == 0x2028 || n == 0x2029
  }

  predicate NoLineBreak(line: string) {
    forall j :: 0 <= j < |line| ==> !IsLineBreak(line[j])
  }

  /** The index of the first line boundary at or after `i`, or `|s|` when there is none. */
  function LineEnd(s: string, i: nat): (k: nat)
    requires i <= |s|
    ensures i <= k <= |s|
    ensures forall j :: i <= j < k ==> !IsLineBreak(s[j])
    ensures k < |s| ==> IsLineBreak(s[k])
    decreases |s| - i
  {
    if i == |s| || IsLineBreak(s[i]) then i else LineEnd(s, i + 1)
  }

  /** Where the text resumes after the boundary at `k`: `\r\n` is one boundary, anything else one character. */
  function BoundaryEnd(s: string, k: nat): (next: nat)
    requires k < |s|
    ensures k < next <= |s|
  {
    if s[k] == '\r' && k + 1 < |s| && s[k + 1] == '\n' then k + 2 else k + 1
  }

  /** Python's `s.splitlines()`: the lines of `s` without their boundaries; a final boundary
      does not start an extra empty line, and the empty string has no lines. */
  function SplitLines(s: string): (lines: seq<string>)
    ensures forall k :: 0 <= k < |lines| ==> NoLineBreak(lines[k])
    ensures s == [] <==> lines == []
    ensures s != [] ==> IsPrefix(lines[0], s)
    decreases |s|
  {
    if s == [] then []
    else
      var k := LineEnd(s, 0);
      if k == |s| then [s]
      else [s[..k]] + SplitLines(s[BoundaryEnd(s, k)..])
  }

  /** One line boundary as `splitlines()` consumes it: a single boundary character, or `\r\n`. */
  predicate IsSeparator(sep: string) {
    sep == "\r\n" || (|sep| == 1 && IsLineBreak(sep[0]))
  }

  /** The boundary that ends each line of `SplitLines(s)`; the last line may end with none. */
  function LineSeparators(s: string): seq<string>
    decreases |s|
  {
    if s == [] then []
    else
      var k := LineEnd(s, 0);
      if k == |s| then [""]
      else [s[k..BoundaryEnd(s, k)]] + LineSeparators(s[BoundaryEnd(s, k)..])
  }

  /** Each line followed by its boundary, in order. */
  function Interleave(lines: seq<string>, seps: seq<string>): string
    requires |lines| == |seps|
    decreases |lines|
  {
    if lines == [] then [] else lines[0] + seps[0] + Interleave(lines[1..], seps[1..])
  }

  /** `splitlines()` loses nothing but the boundaries: every line but the last ends with one
      boundary, the last with one or none, and putting the boundaries back gives the text. */
  lemma {:induction false} SplitLinesRoundTrip(s: string)
    ensures |LineSeparators(s)| == |SplitLines(s)|
    ensures forall k :: 0 <= k < |LineSeparators(s)| - 1 ==> IsSeparator(LineSeparators(s)[k])
    ensures |LineSeparators(s)| > 0 ==>
      var last := LineSeparators(s)[|LineSeparators(s)| - 1];
      last == "" || IsSeparator(last)
    ensures Interleave(SplitLines(s), LineSeparators(s)) == s
    decreases |s|
  {
    if s != [] {
      var k := LineEnd(s, 0);
      if k == |s| {
        assert Interleave([s], [""]) == s + "" + Interleave([], []);
      } else {
        var next := BoundaryEnd(s, k);
        var rest := s[next..];
        SplitLinesRoundTrip(rest);
        SplitLinesUnfold(s);
        BoundaryIsSeparator(s, k);
        ConsSeparators(s[k..next], LineSeparators(rest));
        InterleaveCons(s[..k], s[k..next], SplitLines(rest), LineSeparators(rest));
        SliceThree(s, k, next);
      }
    }
  }

  /** The split is the one `splitlines()` makes, not merely one that puts the text back:
      a line without a boundary after it is not empty (no extra empty last line), and a `\r`
      boundary is never followed by an empty line ending in `\n` (`\r\n` is one boundary). */
  lemma {:induction false} SplitLinesCanonical(s: string)
    ensures |LineSeparators(s)| == |SplitLines(s)|
    ensures |LineSeparators(s)| > 0 && LineSeparators(s)[|LineSeparators(s)| - 1] == "" ==>
      SplitLines(s)[|SplitLines(s)| - 1] != ""
    ensures forall k :: 0 <= k < |LineSeparators(s)| - 1 && LineSeparators(s)[k] == "\r" ==>
      !(SplitLines(s)[k + 1] == "" && LineSeparators(s)[k + 1] == "\n")
    decreases |s|
  {
    SplitLinesRoundTrip(s);
    if s != [] {
      var k := LineEnd(s, 0);
      if k < |s| {
        var next := BoundaryEnd(s, k);
        var rest := s[next..];
        SplitLinesCanonical(rest);
        SplitLinesUnfold(s);
        var lines, seps := SplitLines(s), LineSeparators(s);
        assert lines[1..] == SplitLines(rest) && seps[1..] == LineSeparators(rest);
        forall j | 0 <= j < |seps| - 1 && seps[j] == "\r"
          ensures !(lines[j + 1] == "" && seps[j + 1] == "\n")
        {
          if j == 0 {
            CarriageReturnAlone(s, k);
            FirstSeparatorNewline(rest);
          } else {
            assert lines[j + 1] == SplitLines(rest)[j] && seps[j + 1] == LineSeparators(rest)[j];
            assert seps[j] == LineSeparators(rest)[j - 1];
          }
        }
      }
    }
  }

  /** A lone `\r` boundary is not followed by `\n`. */
  lemma CarriageReturnAlone(s: string, k: nat)
    requires k < |s| && s[k..BoundaryEnd(s, k)] == "\r"
    ensures BoundaryEnd(s, k) == k + 1
    ensures k + 1 < |s| ==> s[k + 1] != '\n'
  {
  }

  /** A text whose first line is empty and ends in `\n` starts with `\n`. */
  lemma FirstSeparatorNewline(s: string)
    requires |SplitLines(s)| > 0 && |LineSeparators(s)| > 0
    ensures SplitLines(s)[0] == "" && LineSeparators(s)[0] == "\n" ==> s[0] == '\n'
  {
    var k := LineEnd(s, 0);
    if k < |s| {
      SplitLinesUnfold(s);
      if SplitLines(s)[0] == "" && LineSeparators(s)[0] == "\n" {
        assert s[..k] == "";
        assert s[k..BoundaryEnd(s, k)][0] == s[0];
      }
    }
  }

  lemma SliceThree(s: string, k: nat, n: nat)
    requires k <= n <= |s|
    ensures s[..k] + s[k..n] + s[n..] == s
  {
  }

  /** One step of `splitlines()`: the first line, its boundary, and the rest of the text. */
  lemma SplitLinesUnfold(s: string)
    requires s != [] && LineEnd(s, 0) < |s|
    ensures SplitLines(s) == [s[..LineEnd(s, 0)]] + SplitLines(s[BoundaryEnd(s, LineEnd(s, 0))..])
    ensures LineSeparators(s) == [s[LineEnd(s, 0)..BoundaryEnd(s, LineEnd(s, 0))]]
      + LineSeparators(s[BoundaryEnd(s, LineEnd(s, 0))..])
  {
  }

  lemma BoundaryIsSeparator(s: string, k: nat)
    requires k < |s| && IsLineBreak(s[k])
    ensures IsSeparator(s[k..BoundaryEnd(s, k)])
  {
    if BoundaryEnd(s, k) == k + 2 {
      assert s[k..k + 2] == [s[k], s[k + 1]];
    }
  }

  /** A separator list keeps its shape when a boundary is put in front of it. */
  lemma ConsSeparators(sep: string, seps: seq<string>)
    requires IsSeparator(sep)
    requires forall j :: 0 <= j < |seps| - 1 ==> IsSeparator(seps[j])
    ensures forall j :: 0 <= j < |[sep] + seps| - 1 ==> IsSeparator(([sep] + seps)[j])
  {
    forall j | 0 <= j < |[sep] + seps| - 1
      ensures IsSeparator(([sep] + seps)[j])
    {
      if j > 0 {
        assert ([sep] + seps)[j] == seps[j - 1];
      }
    }
  }

  lemma InterleaveCons(line: string, sep: string, lines: seq<string>, seps: seq<string>)
    requires |lines| == |seps|
    ensures Interleave([line] + lines, [sep] + seps) == line + sep + Interleave(lines, seps)
  {
    assert ([line] + lines)[1..] == lines;
    assert ([sep] + seps)[1..] == seps;
  }

  function DigitChar(d: nat): (c: char)
    requires d < 10
    ensures '0' <= c <= '9'
  {
    ('0' as int + d) as char
  }

  /** Python's `str(n)` for a natural number: its decimal digits, without leading zeros. */
  function NatToString(n: nat): (s: string)
    ensures s != [] && (|s| > 1 ==> s[0] != '0')
    ensures forall k :: 0 <= k < |s| ==> '0' <= s[k] <= '9'
    decreases n
  {
    if n < 10 then [DigitChar(n)] else NatToString(n / 10) + [DigitChar(n % 10)]
  }

  /** The value of a string of decimal digits (a non-digit counts as 0). */
  function ParseNat(s: string): nat
    decreases |s|
  {
    if s == [] then 0
    else
      var c := s[|s| - 1];
      10 * ParseNat(s[..|s| - 1]) + (if '0' <= c <= '9' then c as int - '0' as int else 0)
  }

  /** Reading back a rendered line number gives the number: the rendering loses nothing. */
  lemma {:induction false} ParseNatToString(n: nat)
    ensures ParseNat(NatToString(n)) == n
    decreases n
  {
    var s := NatToString(n);
    if n >= 10 {
      ParseNatToString(n / 10);
      assert s[..|s| - 1] == NatToString(n / 10);
    }
  }
}
