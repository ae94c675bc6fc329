/**
 The subset of Python's `str` semantics the chat application relies on:
 `sub in s`, `s.find(sub, start)`, slicing `s[a:b]`, `s.split(sep)`,
 `sep.join(parts)`, `s.strip()` and `s.splitlines()`.
 Each operation is defined the way CPython computes it and is characterised
 by an independent contract (first occurrence, round trip, slice of the input).
 */
module PyStr {

  /** Python's `str.isspace()` for one character: the characters `strip()` removes. */
  predicate IsSpace(c: char) {
    || ('\t' <= c <= '\r')
    || ('\U{1C}' <= c <= ' ')
    || c == '\U{85}' || c == '\U{A0}' || c == '\U{1680}'
    || ('\U{2000}' <= c <= '\U{200A}')
    || c == '\U{2028}' || c == '\U{2029}' || c == '\U{202F}' || c == '\U{205F}'
    || c == '\U{3000}'
  }

  /** The line boundaries of Python's `str.splitlines()` (`\r\n` is handled as one boundary). */
  predicate IsLineBreak(c: char) {
    || ('\n' <= c <= '\r')
    || ('\U{1C}' <= c <= '\U{1E}')
    || c == '\U{85}' || c == '\U{2028}' || c == '\U{2029}'
  }

  /** `sub` occurs in `s` starting at index `i`. */
  predicate OccursAt(s: string, sub: string, i: int) {
    0 <= i && i + |sub| <= |s| && s[i..i + |sub|] == sub
  }

  /** `sub` occurs nowhere in `s`. */
  ghost predicate Lacks(s: string, sub: string) {
    forall k :: !OccursAt(s, sub, k)
  }

  /** No character of `s` is a line boundary. */
  predicate NoLineBreak(s: string) {
    forall c :: c in s ==> !IsLineBreak(c)
  }

  /** Index of the first occurrence of `sub` in `s` at or after `i`, or -1. */
  function FindFrom(s: string, sub: string, i: nat): (r: int)
    ensures r == -1 || (i <= r && OccursAt(s, sub, r))
    ensures forall j :: i <= j && (r == -1 || j < r) ==> !OccursAt(s, sub, j)
    decreases |s| - i
  {
    if i + |sub| > |s| then -1
    else if s[i..i + |sub|] == sub then i
    else FindFrom(s, sub, i + 1)
  }

  /** Python's `sub in s`. */
  predicate Contains(s: string, sub: string) {
    FindFrom(s, sub, 0) >= 0
  }

  /**
   Python's `s.find(sub, start)`: the first occurrence at or after the start, normalised
   like a slice bound (a negative start counts from the end), and -1 exactly when there
   is none; a start past the end finds nothing.
   */
  function Find(s: string, sub: string, start: int): (r: int)
    ensures r >= -1
    ensures r >= 0 ==> var from := SliceBound(start, |s|);
      && from <= r && OccursAt(s, sub, r)
      && forall k :: from <= k < r ==> !OccursAt(s, sub, k)
    ensures r == -1 <==> start > |s| || forall k :: SliceBound(start, |s|) <= k ==> !OccursAt(s, sub, k)
  {
    var from := if start < 0 then (if start + |s| < 0 then 0 else start + |s|) else start;
    if from > |s| then -1 else FindFrom(s, sub, from)
  }

  /** Normalises one Python slice bound against a length `n`. */
  function SliceBound(i: int, n: nat): (r: nat)
    ensures r <= n
  {
    if i < 0 then (if i + n < 0 then 0 else i + n)
    else if i > n then n
    else i
  }

  /** Python's `s[a:b]` (step 1) on any sequence: bounds are normalised, a crossed range is empty. */
  function Slice<T>(s: seq<T>, a: int, b: int): (r: seq<T>)
    ensures |r| <= |s|
  {
    var lo := SliceBound(a, |s|);
    var hi := SliceBound(b, |s|);
    if lo < hi then s[lo..hi] else []
  }

  /** `s[:n]` with `n >= 0` is the prefix of length `min(n, |s|)`. */
  lemma SlicePrefix<T>(s: seq<T>, n: int)
    requires n >= 0
    ensures Slice(s, 0, n) == s[..if n < |s| then n else |s|]
  {
  }

  /** `s[a:-k]` with `0 <= a` and `k > 0` runs from `a` to `k` elements before the end, or is empty. */
  lemma SliceDropLast<T>(s: seq<T>, a: int, k: int)
    requires 0 <= a && k > 0
    ensures Slice(s, a, -k) == if a + k < |s| then s[a..|s| - k] else []
  {
  }

  /** Adjacent slices put together are the slice over both ranges. */
  lemma SliceConcat<T>(s: seq<T>, a: int, m: int, b: int)
    requires 0 <= a <= m <= b <= |s|
    ensures Slice(s, a, m) + Slice(s, m, b) == Slice(s, a, b)
  {
  }

  /** Python's `sep.join(parts)`. */
  function Join(sep: string, parts: seq<string>): (r: string)
    decreases |parts|
  {
    if |parts| == 0 then ""
    else if |parts| == 1 then parts[0]
    else parts[0] + sep + Join(sep, parts[1..])
  }

  /** Python's `s.split(sep)` for a non-empty separator (Python raises on an empty one). */
  function Split(s: string, sep: string): (parts: seq<string>)
    requires |sep| > 0
    ensures |parts| >= 1
    decreases |s|
  {
    var i := FindFrom(s, sep, 0);
    if i < 0 then [s] else [s[..i]] + Split(s[i + |sep|..], sep)
  }

  /** Occurrences in a suffix are occurrences in the whole string, shifted. */
  lemma FindFromSuffix(s: string, sub: string, m: nat)
    requires m <= |s|
    ensures var r := FindFrom(s[m..], sub, 0);
      FindFrom(s, sub, m) == (if r < 0 then -1 else r + m)
  {
    var r := FindFrom(s[m..], sub, 0);
    forall k | 0 <= k
      ensures OccursAt(s[m..], sub, k) <==> OccursAt(s, sub, m + k)
    {
      if k + |sub| <= |s| - m {
        assert s[m..][k..k + |sub|] == s[m + k..m + k + |sub|];
      }
    }
    if r >= 0 {
      assert OccursAt(s, sub, m + r);
      forall j | m <= j < m + r ensures !OccursAt(s, sub, j) {
        assert !OccursAt(s[m..], sub, j - m);
      }
      FindFromFirst(s, sub, m, m + r);
    } else {
      forall j | m <= j ensures !OccursAt(s, sub, j) {
        assert !OccursAt(s[m..], sub, j - m);
      }
      FindFromNone(s, sub, m);
    }
  }

  /** An occurrence at `p` with none in `[i, p)` is the one `FindFrom` finds. */
  lemma FindFromFirst(s: string, sub: string, i: nat, p: nat)
    requires i <= p && OccursAt(s, sub, p)
    requires forall j :: i <= j < p ==> !OccursAt(s, sub, j)
    ensures FindFrom(s, sub, i) == p
  {
    var r := FindFrom(s, sub, i);
    assert r != -1 && !(r > p);
  }

  /** With no occurrence at or after `i`, `FindFrom` reports -1. */
  lemma FindFromNone(s: string, sub: string, i: nat)
    requires forall j :: i <= j ==> !OccursAt(s, sub, j)
    ensures FindFrom(s, sub, i) == -1
  {
  }

  /** The first part of `s.split(sep)`: everything before the first `sep`, or all of `s`. */
  lemma SplitFirstPart(s: string, sep: string)
    requires |sep| > 0
    ensures var i := FindFrom(s, sep, 0);
      Split(s, sep)[0] == (if i < 0 then s else s[..i])
  {
  }

  /**
   The second part of `s.split(sep)`, for the first occurrence `i` of `sep` and the
   next one `j`: the text between them, or everything after `i` when there is no `j`.
   */
  lemma SplitSecondPart(s: string, sep: string, i: int, j: int)
    requires |sep| > 0 && i == FindFrom(s, sep, 0) && i >= 0
    requires j == FindFrom(s, sep, i + |sep|)
    ensures var e := if j < 0 then |s| else j;
      && i + |sep| <= e <= |s|
      && |Split(s, sep)| >= 2
      && Split(s, sep)[1] == s[i + |sep|..e]
  {
    var m := i + |sep|;
    SplitAfterFirst(s, sep, i);
    FirstPartOfSuffix(s, sep, m, j);
    var rest := Split(s[m..], sep);
    var e := if j < 0 then |s| else j;
    calc {
      Split(s, sep)[1];
      ([s[..i]] + rest)[1];
      rest[0];
      s[m..e];
    }
  }

  /** Past its first separator at `i`, `s.split(sep)` goes on with the split of what follows. */
  lemma SplitAfterFirst(s: string, sep: string, i: int)
    requires |sep| > 0 && i == FindFrom(s, sep, 0) && i >= 0
    ensures i + |sep| <= |s|
    ensures Split(s, sep) == [s[..i]] + Split(s[i + |sep|..], sep)
  {
    assert OccursAt(s, sep, i);
  }

  /** The first part of the split of `s[m..]` ends where the next `sep` from `m`, at `j`, starts. */
  lemma FirstPartOfSuffix(s: string, sep: string, m: nat, j: int)
    requires |sep| > 0 && m <= |s| && j == FindFrom(s, sep, m)
    ensures var e := if j < 0 then |s| else j;
      m <= e <= |s| && Split(s[m..], sep)[0] == s[m..e]
  {
    FindFromSuffix(s, sep, m);
    SplitFirstPart(s[m..], sep);
    var r := FindFrom(s[m..], sep, 0);
    if r >= 0 {
      assert s[m..][..r] == s[m..r + m];
    }
  }


  /** Splitting and joining with the same separator gives the string back. */
  lemma {:induction false} SplitJoinRoundTrip(s: string, sep: string)
    requires |sep| > 0
    ensures Join(sep, Split(s, sep)) == s
    decreases |s|
  {
    var i := FindFrom(s, sep, 0);
    if i >= 0 {
      var t := s[i + |sep|..];
      var rest := Split(t, sep);
      SplitAfterFirst(s, sep, i);
      SplitJoinRoundTrip(t, sep);
      JoinCons(sep, s[..i], rest);
      OccurrenceSplits(s, sep, i);
      calc {
        Join(sep, Split(s, sep));
        Join(sep, [s[..i]] + rest);
        s[..i] + sep + Join(sep, rest);
        s[..i] + sep + t;
        s;
      }
    }
  }

  /** An occurrence cuts a string into what is before it, itself, and what is after it. */
  lemma OccurrenceSplits(s: string, sub: string, i: int)
    requires OccursAt(s, sub, i)
    ensures s == s[..i] + sub + s[i + |sub|..]
  {
    assert s == s[..i] + s[i..i + |sub|] + s[i + |sub|..];
  }

  /** No part of `s.split(sep)` contains `sep`. */
  lemma {:induction false} SplitPartsLackSeparator(s: string, sep: string)
    requires |sep| > 0
    ensures forall k :: 0 <= k < |Split(s, sep)| ==> Lacks(Split(s, sep)[k], sep)
    decreases |s|
  {
    var i := FindFrom(s, sep, 0);
    if i < 0 {
      ContainsIff(s, sep);
    } else {
      var t := s[i + |sep|..];
      SplitPartsLackSeparator(t, sep);
      PrefixLacks(s, sep, i);
      var parts := Split(s, sep);
      assert parts == [s[..i]] + Split(t, sep);
      forall k | 0 <= k < |parts| ensures Lacks(parts[k], sep) {
        if k > 0 {
          assert parts[k] == Split(t, sep)[k - 1];
        }
      }
    }
  }

  /** `s.split(sep)` has a single part exactly when `sep` does not occur in `s`. */
  lemma SplitSinglePartIff(s: string, sep: string)
    requires |sep| > 0
    ensures |Split(s, sep)| == 1 <==> !Contains(s, sep)
  {
  }

  /** A prefix that ends before the first occurrence of `sub` does not contain it. */
  lemma PrefixLacks(s: string, sub: string, i: nat)
    requires i <= |s|
    requires forall j :: 0 <= j < i ==> !OccursAt(s, sub, j)
    requires |sub| > 0
    ensures Lacks(s[..i], sub)
  {
    forall k
      ensures !OccursAt(s[..i], sub, k)
    {
      if OccursAt(s[..i], sub, k) {
        assert s[..i][k..k + |sub|] == s[k..k + |sub|];
        assert OccursAt(s, sub, k);
      }
    }
  }

  /** `Contains` is exactly the existence of an occurrence. */
  lemma ContainsIff(s: string, sub: string)
    ensures Contains(s, sub) <==> !Lacks(s, sub)
  {
    var r := FindFrom(s, sub, 0);
    if r >= 0 {
      assert OccursAt(s, sub, r);
    } else {
      forall k
        ensures !OccursAt(s, sub, k)
      {
        if k >= 0 {
          assert 0 <= k;
        }
      }
    }
  }

  /** Index of the first non-whitespace character of `s` at or after `i`, or `|s|`. */
  function SkipSpace(s: string, i: nat): (j: nat)
    requires i <= |s|
    ensures i <= j <= |s|
    ensures forall k :: i <= k < j ==> IsSpace(s[k])
    ensures j < |s| ==> !IsSpace(s[j])
    decreases |s| - i
  {
    if i < |s| && IsSpace(s[i]) then SkipSpace(s, i + 1) else i
  }

  /** End of `s[lo..j]` once its trailing whitespace is dropped, never going below `lo`. */
  function TrimEnd(s: string, lo: nat, j: nat): (hi: nat)
    requires lo <= j <= |s|
    ensures lo <= hi <= j
    ensures forall k :: hi <= k < j ==> IsSpace(s[k])
    ensures hi > lo ==> !IsSpace(s[hi - 1])
    decreases j
  {
    if j > lo && IsSpace(s[j - 1]) then TrimEnd(s, lo, j - 1) else j
  }

  /**
   Python's `s.strip()`: whitespace is skipped from the front, then from the back down to
   where the front scan stopped. The result is the slice of `s` that starts at the first
   non-whitespace character with only whitespace after it, and both its ends are non-whitespace.
   */
  function Strip(s: string): (r: string)
    ensures var lo := SkipSpace(s, 0);
      && lo + |r| <= |s|
      && r == s[lo..lo + |r|]
      && (forall k :: 0 <= k < lo ==> IsSpace(s[k]))
      && (forall k :: lo + |r| <= k < |s| ==> IsSpace(s[k]))
    ensures r == [] || (!IsSpace(r[0]) && !IsSpace(r[|r| - 1]))
    ensures (s == [] || (!IsSpace(s[0]) && !IsSpace(s[|s| - 1]))) ==> r == s
  {
    var lo := SkipSpace(s, 0);
    s[lo..TrimEnd(s, lo, |s|)]
  }

  /** Length of the first line of `s`: the index of its first line boundary, or `|s|`. */
  function LineLength(s: string): (n: nat)
    ensures n <= |s|
    ensures forall k :: 0 <= k < n ==> !IsLineBreak(s[k])
    ensures n < |s| ==> IsLineBreak(s[n])
  {
    if s == [] || IsLineBreak(s[0]) then 0 else 1 + LineLength(s[1..])
  }

  /** Python's `s.splitlines()`: no final empty line, and `\r\n` ends one line. */
  function SplitLines(s: string): (lines: seq<string>)
    ensures forall k :: 0 <= k < |lines| ==> NoLineBreak(lines[k])
    ensures NoLineBreak(s) ==> lines == (if s == [] then [] else [s])
    decreases |s|
  {
    if s == [] then []
    else
      var n := LineLength(s);
      if n == |s| then
        assert NoLineBreak(s);
        [s]
      else
        assert NoLineBreak(s[..n]);
        [s[..n]] + SplitLines(s[NextLineStart(s, n)..])
  }

  /** One line boundary of `splitlines()`: a boundary character, or `\r\n` taken together. */
  predicate IsBoundary(br: string) {
    (|br| == 1 && IsLineBreak(br[0])) || br == "\r\n"
  }

  /**
   The lines break at every boundary: a text without boundaries, then one boundary, then
   anything gives that text as the first line, followed by the lines of the rest. (A lone
   `\r` followed by `\n` is not one boundary but the two-character `\r\n`.)
   With the case of a text without boundaries in `SplitLines`' contract, this determines
   the lines of every string.
   */
  lemma SplitLinesBreak(a: string, br: string, c: string)
    requires NoLineBreak(a) && IsBoundary(br)
    requires br == "\r" ==> c == [] || c[0] != '\n'
    ensures SplitLines(a + br + c) == [a] + SplitLines(c)
  {
    var s := a + br + c;
    var n := LineLength(s);
    assert s[|a|] == br[0];
    assert n == |a|;
    assert NextLineStart(s, n) == |a| + |br| by {
      if br == "\r\n" {
        assert s[|a| + 1] == '\n';
      } else if |a| + 1 < |s| {
        assert s[|a| + 1] == c[0];
      }
    }
    SplitLinesUnfold(s);
    assert s[..n] == a;
    assert s[|a| + |br|..] == c;
  }

  /** `s` with every line boundary character removed. */
  function RemoveLineBreaks(s: string): (r: string)
  {
    if s == [] then []
    else (if IsLineBreak(s[0]) then [] else [s[0]]) + RemoveLineBreaks(s[1..])
  }

  /** Concatenation of a sequence of strings. */
  function Concat(parts: seq<string>): string {
    if parts == [] then "" else parts[0] + Concat(parts[1..])
  }

  /** Where the next line starts after the boundary at index `n` of `s`. */
  function NextLineStart(s: string, n: nat): (next: nat)
    requires n < |s|
    ensures n < next <= n + 2 && next <= |s|
    ensures next == n + 2 ==> s[n + 1] == '\n'
  {
    if s[n] == '\r' && n + 1 < |s| && s[n + 1] == '\n' then n + 2 else n + 1
  }

  lemma SplitLinesUnfold(s: string)
    requires s != [] && LineLength(s) < |s|
    ensures SplitLines(s) == [s[..LineLength(s)]] + SplitLines(s[NextLineStart(s, LineLength(s))..])
  {
  }

  lemma {:induction false} RemoveLineBreaksKeepsPrefix(s: string, n: nat)
    requires n <= |s|
    requires forall k :: 0 <= k < n ==> !IsLineBreak(s[k])
    ensures RemoveLineBreaks(s) == s[..n] + RemoveLineBreaks(s[n..])
  {
    if n > 0 {
      RemoveLineBreaksKeepsPrefix(s[1..], n - 1);
      assert s[1..][n - 1..] == s[n..];
      assert s[..n] == [s[0]] + s[1..][..n - 1];
    }
  }

  lemma {:induction false} RemoveLineBreaksDropsBreaks(s: string, m: nat)
    requires m <= |s|
    requires forall k :: 0 <= k < m ==> IsLineBreak(s[k])
    ensures RemoveLineBreaks(s) == RemoveLineBreaks(s[m..])
  {
    if m > 0 {
      RemoveLineBreaksDropsBreaks(s[1..], m - 1);
      assert s[1..][m - 1..] == s[m..];
    }
  }

  lemma RemoveLineBreaksFirstLine(s: string)
    requires s != [] && LineLength(s) < |s|
    ensures RemoveLineBreaks(s) == s[..LineLength(s)] + RemoveLineBreaks(s[NextLineStart(s, LineLength(s))..])
  {
    var n := LineLength(s);
    var next := NextLineStart(s, n);
    RemoveLineBreaksKeepsPrefix(s, n);
    assert IsLineBreak(s[n]);
    assert next == n + 2 ==> s[n + 1] == '\n';
    RemoveLineBreaksDropsBreaks(s[n..], next - n);
    assert s[n..][next - n..] == s[next..];
  }

  /** The lines of `s`, put back together, are `s` without its line boundaries. */
  lemma {:induction false} SplitLinesKeepsText(s: string)
    ensures Concat(SplitLines(s)) == RemoveLineBreaks(s)
    decreases |s|
  {
    if s != [] {
      var n := LineLength(s);
      if n == |s| {
        assert Concat([s]) == s + Concat([]);
        RemoveLineBreaksKeepsPrefix(s, n);
        assert s[n..] == [];
      } else {
        var c := s[NextLineStart(s, n)..];
        var lines := SplitLines(s);
        SplitLinesUnfold(s);
        assert lines[0] == s[..n] && lines[1..] == SplitLines(c);
        SplitLinesKeepsText(c);
        RemoveLineBreaksFirstLine(s);
      }
    }
  }

  lemma JoinCons(sep: string, p: string, rest: seq<string>)
    requires |rest| > 0
    ensures Join(sep, [p] + rest) == p + sep + Join(sep, rest)
  {
    assert ([p] + rest)[1..] == rest;
  }

  /** Every character of `Join(sep, parts)` comes from a part or from the separator. */
  lemma {:induction false} JoinChars(sep: string, parts: seq<string>, c: char)
    requires c in Join(sep, parts)
    ensures c in sep || exists k :: 0 <= k < |parts| && c in parts[k]
    decreases |parts|
  {
    if |parts| == 1 {
      assert c in parts[0];
    } else if |parts| > 1 {
      var j := Join(sep, parts[1..]);
      assert Join(sep, parts) == parts[0] + sep + j;
      if c in parts[0] {
      } else if c in sep {
      } else {
        assert c in j;
        JoinChars(sep, parts[1..], c);
        var k :| 0 <= k < |parts[1..]| && c in parts[1..][k];
        assert c in parts[k + 1];
      }
    }
  }

  /** Every character of a part is a character of the joined string. */
  lemma {:induction false} JoinHasPartChars(sep: string, parts: seq<string>, k: nat, c: char)
    requires k < |parts| && c in parts[k]
    ensures c in Join(sep, parts)
    decreases |parts|
  {
    if |parts| > 1 {
      assert Join(sep, parts) == parts[0] + sep + Join(sep, parts[1..]);
      if k > 0 {
        assert parts[1..][k - 1] == parts[k];
        JoinHasPartChars(sep, parts[1..], k - 1, c);
      }
    }
  }

  /** Splitting keeps every character of a part inside the original string. */
  lemma SplitPartChars(s: string, sep: string, k: nat, c: char)
    requires |sep| > 0
    requires k < |Split(s, sep)| && c in Split(s, sep)[k]
    ensures c in s
  {
    SplitJoinRoundTrip(s, sep);
    JoinHasPartChars(sep, Split(s, sep), k, c);
  }

  /** If `a` has no `sep` character and `a + sep + b`, `sep` a single character, then the first `sep` is right after `a`. */
  lemma FindAfterPrefix(a: string, sep: string, b: string)
    requires |sep| == 1 && sep[0] !in a
    ensures FindFrom(a + sep + b, sep, 0) == |a|
  {
    var s := a + sep + b;
    assert OccursAt(s, sep, |a|) by {
      assert s[|a|..|a| + 1] == sep;
    }
  }

  /** Splitting a single-character-separated join gives the parts back, when no part holds the separator. */
  lemma {:induction false} SplitJoin(sep: string, parts: seq<string>)
    requires |sep| == 1 && |parts| > 0
    requires forall k :: 0 <= k < |parts| ==> sep[0] !in parts[k]
    ensures Split(Join(sep, parts), sep) == parts
    decreases |parts|
  {
    var s := Join(sep, parts);
    if |parts| == 1 {
    } else {
      var n := |parts[0]|;
      var rest := Join(sep, parts[1..]);
      assert s == parts[0] + sep + rest;
      FindAfterPrefix(parts[0], sep, rest);
      SplitAfterFirst(s, sep, n);
      assert s[..n] == parts[0];
      assert s[n + 1..] == rest;
      SplitJoin(sep, parts[1..]);
      calc {
        Split(s, sep);
        [s[..n]] + Split(s[n + 1..], sep);
        [parts[0]] + Split(rest, sep);
        [parts[0]] + parts[1..];
        parts;
      }
    }
  }
}
