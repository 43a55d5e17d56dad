/** The parts of Python's `str` behaviour that the pipeline relies on:
    `isspace`, `strip`, `split()`, `split(sep)`, `sep.join`, `find`,
    `startswith`, `replace(pat, "")`, slicing with clamped and negative
    bounds, and decimal formatting of integers in f-strings. */
module Text {

  /** `c.isspace()`: the ASCII controls 9..13 and 28..31, space, and the
      Unicode space separators Python counts as whitespace. */
  predicate IsSpace(c: char) {
    c == ' ' || ('\t' <= c <= '\r') || ('\U{1C}' <= c <= '\U{1F}')
    || c == '\U{85}' || c == '\U{A0}' || c == '\U{1680}'
    || ('\U{2000}' <= c <= '\U{200A}') || c == '\U{2028}' || c == '\U{2029}'
    || c == '\U{202F}' || c == '\U{205F}' || c == '\U{3000}'
  }

  /** Number of whitespace characters at the front of `s`. */
  function LeadingSpaces(s: string): (k: nat)
    ensures k <= |s|
    ensures forall i | 0 <= i < k :: IsSpace(s[i])
    ensures k < |s| ==> !IsSpace(s[k])
  {
    if s != [] && IsSpace(s[0]) then 1 + LeadingSpaces(s[1..]) else 0
  }

  /** Number of whitespace characters at the back of `s`. */
  function TrailingSpaces(s: string): (k: nat)
    ensures k <= |s|
    ensures forall i | |s| - k <= i < |s| :: IsSpace(s[i])
    ensures k < |s| ==> !IsSpace(s[|s| - 1 - k])
  {
    if s != [] && IsSpace(s[|s| - 1]) then 1 + TrailingSpaces(s[..|s| - 1]) else 0
  }

  /** `s.strip()`. */
  function Strip(s: string): (r: string)
    ensures |r| <= |s|
    ensures r != [] ==> !IsSpace(r[0]) && !IsSpace(r[|r| - 1])
    ensures r == [] <==> forall i | 0 <= i < |s| :: IsSpace(s[i])
    ensures (s == [] || (!IsSpace(s[0]) && !IsSpace(s[|s| - 1]))) ==> r == s
  {
    var t := s[LeadingSpaces(s)..];
    t[..|t| - TrailingSpaces(t)]
  }

  /** `strip()` cuts a run of whitespace off each end and keeps the middle. */
  lemma StripTrimsEnds(s: string)
    ensures exists a, b | 0 <= a <= b <= |s| ::
      && Strip(s) == s[a..b]
      && (forall i | 0 <= i < a :: IsSpace(s[i]))
      && (forall i | b <= i < |s| :: IsSpace(s[i]))
  {
    var a := LeadingSpaces(s);
    var t := s[a..];
    var b := a + |t| - TrailingSpaces(t);
    TrailingRunOfSuffix(s, a);
    assert Strip(s) == s[a..b];
  }

  /** The whitespace run at the back of a suffix is whitespace of the whole text. */
  lemma TrailingRunOfSuffix(s: string, a: nat)
    requires a <= |s|
    ensures forall i | a + |s[a..]| - TrailingSpaces(s[a..]) <= i < |s| :: IsSpace(s[i])
  {
    var t := s[a..];
    forall i | a + |t| - TrailingSpaces(t) <= i < |s| ensures IsSpace(s[i]) {
      assert s[i] == t[i - a];
    }
  }

  /** Length of the run of non-whitespace characters at the front of `s`. */
  function WordLength(s: string): (k: nat)
    ensures k <= |s|
    ensures forall i | 0 <= i < k :: !IsSpace(s[i])
    ensures k < |s| ==> IsSpace(s[k])
  {
    if s != [] && !IsSpace(s[0]) then 1 + WordLength(s[1..]) else 0
  }

  /** `s.split()`: the maximal runs of non-whitespace characters, in order. */
  function Words(s: string): (ws: seq<string>)
    ensures forall k | 0 <= k < |ws| :: ws[k] != [] && forall i | 0 <= i < |ws[k]| :: !IsSpace(ws[k][i])
    decreases |s|
  {
    var t := s[LeadingSpaces(s)..];
    if t == [] then []
    else
      var n := WordLength(t);
      [t[..n]] + Words(t[n..])
  }

  /** Independent count of the words of `s`: the positions holding a
      non-whitespace character that starts `s` or follows whitespace.
      `afterSpace` says whether the character before `s` was whitespace
      (or `s` is at the start of the text). */
  function WordStarts(s: string, afterSpace: bool): nat {
    if s == [] then 0
    else (if afterSpace && !IsSpace(s[0]) then 1 else 0) + WordStarts(s[1..], IsSpace(s[0]))
  }

  lemma {:induction false} WordStartsSkipSpaces(s: string, k: nat)
    requires k <= |s|
    requires forall i | 0 <= i < k :: IsSpace(s[i])
    ensures WordStarts(s, true) == WordStarts(s[k..], true)
  {
    if k > 0 {
      assert s[1..][k - 1..] == s[k..];
      WordStartsSkipSpaces(s[1..], k - 1);
    }
  }

  lemma {:induction false} WordStartsInsideWord(s: string, k: nat)
    requires k <= |s|
    requires forall i | 0 <= i < k :: !IsSpace(s[i])
    ensures WordStarts(s, false) == WordStarts(s[k..], false)
  {
    if k > 0 {
      assert s[1..][k - 1..] == s[k..];
      WordStartsInsideWord(s[1..], k - 1);
    }
  }

  /** The word count of `s.split()` is the number of word starts. */
  lemma {:induction false} WordCountIsWordStarts(s: string)
    ensures |Words(s)| == WordStarts(s, true)
    decreases |s|
  {
    var t := s[LeadingSpaces(s)..];
    WordStartsSkipSpaces(s, LeadingSpaces(s));
    if t != [] {
      var n := WordLength(t);
      assert n >= 1;
      assert t[1..][n - 1..] == t[n..];
      WordStartsInsideWord(t[1..], n - 1);
      WordCountIsWordStarts(t[n..]);
    }
  }

  /** `s.split(sep)` for a one-character separator: every piece between
      separators, including empty ones. */
  function SplitOn(s: string, sep: char): (parts: seq<string>)
    ensures |parts| >= 1
    ensures forall k | 0 <= k < |parts| :: sep !in parts[k]
    ensures forall k, i | 0 <= k < |parts| && 0 <= i < |parts[k]| :: parts[k][i] in s
  {
    if s == [] then [[]]
    else
      var rest := SplitOn(s[1..], sep);
      if s[0] == sep then [[]] + rest else [[s[0]] + rest[0]] + rest[1..]
  }

  /** A text without the separator is one piece. */
  lemma {:induction false} SplitOnNoSep(s: string, sep: char)
    requires sep !in s
    ensures SplitOn(s, sep) == [s]
  {
    if s != [] {
      assert sep !in s[1..] by {
        forall i | 0 <= i < |s[1..]| ensures s[1..][i] != sep {
          assert s[1..][i] == s[i + 1];
        }
      }
      SplitOnNoSep(s[1..], sep);
      assert [s[0]] + s[1..] == s;
    }
  }

  /** A text that starts with a separator-free line splits into that line
      followed by the pieces of the rest. */
  lemma {:induction false} SplitOnFirstLine(line: string, rest: string, sep: char)
    requires sep !in line
    ensures SplitOn(line + [sep] + rest, sep) == [line] + SplitOn(rest, sep)
  {
    var s := line + [sep] + rest;
    if line == [] {
      assert s[1..] == rest;
    } else {
      assert s[1..] == line[1..] + [sep] + rest;
      assert sep !in line[1..] by {
        forall i | 0 <= i < |line[1..]| ensures line[1..][i] != sep {
          assert line[1..][i] == line[i + 1];
        }
      }
      SplitOnFirstLine(line[1..], rest, sep);
      assert [line[0]] + line[1..] == line;
    }
  }

  /** Each line followed by a newline, as text built line by line with `+= "...\n"`. */
  function Unlines(lines: seq<string>): string {
    if lines == [] then [] else lines[0] + "\n" + Unlines(lines[1..])
  }

  /** Appending one more line. */
  lemma {:induction false} UnlinesSnoc(lines: seq<string>, line: string)
    ensures Unlines(lines + [line]) == Unlines(lines) + line + "\n"
  {
    if lines != [] {
      assert (lines + [line])[1..] == lines[1..] + [line];
      UnlinesSnoc(lines[1..], line);
    }
  }

  /** Splitting text made of newline-free lines on newlines gives the lines
      back, followed by the empty piece after the last newline. */
  lemma {:induction false} SplitUnlines(lines: seq<string>)
    requires forall k | 0 <= k < |lines| :: '\n' !in lines[k]
    ensures SplitOn(Unlines(lines), '\n') == lines + [[]]
  {
    if lines != [] {
      SplitUnlines(lines[1..]);
      SplitOnFirstLine(lines[0], Unlines(lines[1..]), '\n');
      assert lines == [lines[0]] + lines[1..];
    }
  }

  /** `sep.join(parts)`. */
  function JoinWith(parts: seq<string>, sep: string): string {
    if parts == [] then []
    else if |parts| == 1 then parts[0]
    else parts[0] + sep + JoinWith(parts[1..], sep)
  }

  /** Splitting on a separator and joining with it again gives back the text. */
  lemma {:induction false} SplitOnJoinRoundTrip(s: string, sep: char)
    ensures JoinWith(SplitOn(s, sep), [sep]) == s
  {
    if s != [] {
      var rest := SplitOn(s[1..], sep);
      SplitOnJoinRoundTrip(s[1..], sep);
      if s[0] == sep {
        assert SplitOn(s, sep) == [[]] + rest;
        assert ([[]] + rest)[1..] == rest;
      } else {
        var parts := [[s[0]] + rest[0]] + rest[1..];
        assert SplitOn(s, sep) == parts;
        if |rest| == 1 {
          assert JoinWith(rest, [sep]) == rest[0];
        } else {
          assert parts[1..] == rest[1..];
          assert JoinWith(rest, [sep]) == rest[0] + [sep] + JoinWith(rest[1..], [sep]);
        }
      }
    }
  }

  /** The joined text is empty only when every part is empty. */
  lemma {:induction false} JoinWithEmpty(parts: seq<string>, sep: string)
    requires sep != []
    ensures JoinWith(parts, sep) == [] <==> |parts| <= 1 && forall k | 0 <= k < |parts| :: parts[k] == []
  {
    if |parts| > 1 {
      assert |JoinWith(parts, sep)| >= |sep|;
    }
  }

  function DigitChar(d: nat): char
    requires d < 10
  {
    (('0' as int) + d) as char
  }

  /** The value of a string of decimal digits, most significant first. */
  function DigitsValue(s: string): nat
    requires forall i | 0 <= i < |s| :: '0' <= s[i] <= '9'
  {
    if s == [] then 0
    else DigitsValue(s[..|s| - 1]) * 10 + ((s[|s| - 1] as int) - ('0' as int))
  }

  /** The decimal numeral of `n`, as an f-string prints an `int`: reading
      the digits back gives `n`, and there is no leading zero. */
  function NatToString(n: nat): (r: string)
    ensures |r| >= 1
    ensures n < 10 <==> |r| == 1
    ensures forall i | 0 <= i < |r| :: '0' <= r[i] <= '9'
    ensures DigitsValue(r) == n
    ensures |r| > 1 ==> r[0] != '0'
  {
    if n < 10 then [DigitChar(n)]
    else
      var front := NatToString(n / 10);
      var r := front + [DigitChar(n % 10)];
      assert r[..|r| - 1] == front;
      r
  }

  /** Different numbers print differently. */
  lemma {:induction false} NatToStringInjective(a: nat, b: nat)
    requires NatToString(a) == NatToString(b)
    ensures a == b
  {
    var sa, sb := NatToString(a), NatToString(b);
    if a >= 10 && b >= 10 {
      assert sa[..|sa| - 1] == NatToString(a / 10);
      assert sb[..|sb| - 1] == NatToString(b / 10);
      NatToStringInjective(a / 10, b / 10);
      assert sa[|sa| - 1] == sb[|sb| - 1];
      assert a % 10 == b % 10;
    }
  }

  /** `s.startswith(p)`. */
  predicate StartsWith(s: string, p: string) {
    |p| <= |s| && s[..|p|] == p
  }

  /** `sub` occurs in `s` at index `k`. */
  predicate OccursAt(s: string, sub: string, k: int) {
    0 <= k && k + |sub| <= |s| && s[k..k + |sub|] == sub
  }

  /** `s.find(sub, from)`: the least index at or after `from` where `sub`
      occurs, or -1. */
  function Find(s: string, sub: string, from: nat): (r: int)
    ensures r == -1 || (from <= r && OccursAt(s, sub, r))
    ensures forall k | from <= k && (r == -1 || k < r) :: !OccursAt(s, sub, k)
    decreases |s| + 1 - from
  {
    if from + |sub| > |s| then -1
    else if s[from..from + |sub|] == sub then from
    else Find(s, sub, from + 1)
  }

  /** `sub in s`. */
  predicate Contains(s: string, sub: string) {
    Find(s, sub, 0) >= 0
  }

  /** A Python slice bound: negative bounds count from the end, and every
      bound is clamped to `0..n`. */
  function ClampIndex(i: int, n: nat): (k: nat)
    ensures k <= n
    ensures 0 <= i <= n ==> k == i
    ensures i < 0 && i + n >= 0 ==> k == n + i
    ensures i > n ==> k == n
    ensures i + n < 0 ==> k == 0
  {
    if i < 0 then (if i + n < 0 then 0 else i + n)
    else if i > n then n
    else i
  }

  /** `s[start:end]`. */
  function PySlice(s: string, start: int, end: int): string {
    var a, b := ClampIndex(start, |s|), ClampIndex(end, |s|);
    if a < b then s[a..b] else []
  }

  /** `s.replace(pat, "")`: removes the occurrences of `pat` found scanning
      left to right, without overlaps. */
  function RemoveAll(s: string, pat: string): (r: string)
    requires pat != []
    ensures |r| <= |s|
    ensures (forall k :: !OccursAt(s, pat, k)) ==> r == s
    decreases |s|
  {
    if s == [] then []
    else if StartsWith(s, pat) then
      assert OccursAt(s, pat, 0);
      RemoveAll(s[|pat|..], pat)
    else
      var r := RemoveAll(s[1..], pat);
      assert (forall k :: !OccursAt(s, pat, k)) ==> forall k :: !OccursAt(s[1..], pat, k) by {
        forall k | OccursAt(s[1..], pat, k) ensures OccursAt(s, pat, k + 1) {
          assert s[1..][k..k + |pat|] == s[k + 1..k + 1 + |pat|];
        }
      }
      [s[0]] + r
  }

  /** An occurrence at the front is removed, and the scan goes on after it. */
  lemma RemoveAllDropsLeading(s: string, pat: string)
    requires pat != []
    ensures RemoveAll(pat + s, pat) == RemoveAll(s, pat)
  {
    var t := pat + s;
    assert t[..|pat|] == pat;
    assert t[|pat|..] == s;
  }

  /** A prefix in which no occurrence starts is kept as it is. */
  lemma RemoveAllKeepsClearPrefix(a: string, s: string, pat: string)
    requires pat != []
    requires forall k | 0 <= k < |a| :: !OccursAt(a + s, pat, k)
    ensures RemoveAll(a + s, pat) == a + RemoveAll(s, pat)
  {
    var t := a + s;
    RemoveAllClearUpTo(t, |a|, pat);
    assert t[..|a|] == a && t[|a|..] == s;
  }

  /** The same, for the first `i` characters of a text. */
  lemma {:induction false} RemoveAllClearUpTo(t: string, i: nat, pat: string)
    requires pat != [] && i <= |t|
    requires forall k | 0 <= k < i :: !OccursAt(t, pat, k)
    ensures RemoveAll(t, pat) == t[..i] + RemoveAll(t[i..], pat)
  {
    if i == 0 {
      assert t[..0] == [] && t[0..] == t;
    } else {
      var u := t[1..];
      RemoveAllStep(t, pat);
      ClearShift(t, i, pat);
      RemoveAllClearUpTo(u, i - 1, pat);
      ShiftSlices(t, i);
      ConcatAssoc([t[0]], u[..i - 1], RemoveAll(t[i..], pat));
    }
  }

  lemma ConcatAssoc(x: string, y: string, z: string)
    ensures x + (y + z) == (x + y) + z
  {
  }

  /** How the slices of `t` and of `t[1..]` line up. */
  lemma ShiftSlices(t: string, i: nat)
    requires 0 < i <= |t|
    ensures t[1..][i - 1..] == t[i..]
    ensures [t[0]] + t[1..][..i - 1] == t[..i]
  {
  }

  /** No occurrence in the rest of a clear stretch either. */
  lemma ClearShift(t: string, i: nat, pat: string)
    requires 0 < i <= |t|
    requires forall k | 0 <= k < i :: !OccursAt(t, pat, k)
    ensures forall k | 0 <= k < i - 1 :: !OccursAt(t[1..], pat, k)
  {
    forall k | 0 <= k < i - 1 ensures !OccursAt(t[1..], pat, k) {
      assert !OccursAt(t, pat, k + 1);
      if k + |pat| <= |t| - 1 {
        assert t[1..][k..k + |pat|] == t[k + 1..k + 1 + |pat|];
      }
    }
  }

  /** Where no occurrence starts at the front, the first character is kept. */
  lemma RemoveAllStep(t: string, pat: string)
    requires pat != [] && t != [] && !OccursAt(t, pat, 0)
    ensures RemoveAll(t, pat) == [t[0]] + RemoveAll(t[1..], pat)
  {
    assert !StartsWith(t, pat) by {
      if |pat| <= |t| {
        assert t[..|pat|] == t[0..|pat|];
      }
    }
  }
}
