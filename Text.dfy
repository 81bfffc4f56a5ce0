/** Python string operations the application relies on, over strings as
    sequences of code points (Python's `len` and slicing count code points). */
module Text {

  function Min(a: int, b: int): int { if a <= b then a else b }

  /** Python's slice `s[i:j]` for non-negative bounds: both bounds are clamped
      to the length, and a slice whose end is not past its start is empty. */
  function Slice(s: string, i: nat, j: nat): (r: string)
    ensures |r| == if Min(j, |s|) <= Min(i, |s|) then 0 else Min(j, |s|) - Min(i, |s|)
    ensures forall k :: 0 <= k < |r| ==> r[k] == s[i + k]
  {
    var lo, hi := Min(i, |s|), Min(j, |s|);
    if hi <= lo then [] else s[lo..hi]
  }

  /** Python's `s[i:]`. */
  function Drop(s: string, i: nat): (r: string)
    ensures |s| <= i ==> r == []
    ensures i < |s| ==> r == s[i..]
  {
    Slice(s, i, |s|)
  }

  /** The characters `str.isspace()` accepts, which are the ones `str.strip()`
      removes: the ASCII controls 9-13 and 28-31, the space, U+0085, U+00A0,
      and the Unicode space separators and line/paragraph separators. */
  predicate IsWhitespace(c: char)
  {
    ('\t' <= c <= '\r') || ('\U{1C}' <= c <= '\U{1F}') || c == ' ' ||
    c == '\U{85}' || c == '\U{A0}' || c == '\U{1680}' ||
    ('\U{2000}' <= c <= '\U{200A}') || c == '\U{2028}' || c == '\U{2029}' ||
    c == '\U{202F}' || c == '\U{205F}' || c == '\U{3000}'
  }

  /** True when every character of `s` is whitespace (so also for ""). */
  predicate Blank(s: string)
  {
    forall k :: 0 <= k < |s| ==> IsWhitespace(s[k])
  }

  /** Python's `s.lstrip()`. */
  function TrimStart(s: string): string
  {
    if |s| > 0 && IsWhitespace(s[0]) then TrimStart(s[1..]) else s
  }

  /** Python's `s.rstrip()`. */
  function TrimEnd(s: string): string
  {
    if |s| > 0 && IsWhitespace(s[|s| - 1]) then TrimEnd(s[..|s| - 1]) else s
  }

  /** `s.lstrip()` is the suffix of `s` left after removing the longest
      whitespace prefix. */
  lemma {:induction false} TrimStartSpec(s: string)
    ensures |TrimStart(s)| <= |s| && TrimStart(s) == s[|s| - |TrimStart(s)|..]
    ensures forall k :: 0 <= k < |s| - |TrimStart(s)| ==> IsWhitespace(s[k])
    ensures TrimStart(s) == [] || !IsWhitespace(TrimStart(s)[0])
  {
    if |s| > 0 && IsWhitespace(s[0]) {
      var t := s[1..];
      TrimStartSpec(t);
      forall k | 1 <= k < |s| - |TrimStart(t)| ensures IsWhitespace(s[k]) {
        assert s[k] == t[k - 1];
      }
    }
  }

  /** `s.rstrip()` is the prefix of `s` left after removing the longest
      whitespace suffix. */
  lemma {:induction false} TrimEndSpec(s: string)
    ensures |TrimEnd(s)| <= |s| && TrimEnd(s) == s[..|TrimEnd(s)|]
    ensures forall k :: |TrimEnd(s)| <= k < |s| ==> IsWhitespace(s[k])
    ensures TrimEnd(s) == [] || !IsWhitespace(TrimEnd(s)[|TrimEnd(s)| - 1])
  {
    if |s| > 0 && IsWhitespace(s[|s| - 1]) {
      var t := s[..|s| - 1];
      TrimEndSpec(t);
      forall k | |TrimEnd(t)| <= k < |s| - 1 ensures IsWhitespace(s[k]) {
        assert s[k] == t[k];
      }
    }
  }

  /** Python's `s.strip()`. */
  function Strip(s: string): string
  {
    TrimEnd(TrimStart(s))
  }

  /** `s.strip()` is empty exactly when `s` is blank; otherwise it starts and
      ends with a character that is not whitespace. */
  lemma StripSpec(s: string)
    ensures Strip(s) == [] <==> Blank(s)
    ensures Strip(s) != [] ==> !IsWhitespace(Strip(s)[0]) && !IsWhitespace(Strip(s)[|Strip(s)| - 1])
    ensures |Strip(s)| <= |s|
  {
    var t := TrimStart(s);
    var r := TrimEnd(t);
    TrimStartSpec(s);
    TrimEndSpec(t);
    if r == [] {
      assert t == [];
    } else {
      assert r[0] == t[0];
    }
  }

  /** Stripping is idempotent: a stripped string has nothing left to strip. */
  lemma StripIdempotent(s: string)
    ensures Strip(Strip(s)) == Strip(s)
  {
    var r := Strip(s);
    StripSpec(s);
    if r != [] {
      assert TrimStart(r) == r;
      assert TrimEnd(r) == r;
    }
  }

  /** Python's `sep.join(xs)`. */
  function Join(sep: string, xs: seq<string>): (r: string)
    ensures |xs| == 1 ==> r == xs[0]
    ensures |r| == SumLengths(xs) + (if xs == [] then 0 else (|xs| - 1) * |sep|)
  {
    if xs == [] then []
    else if |xs| == 1 then xs[0]
    else xs[0] + sep + Join(sep, xs[1..])
  }

  function SumLengths(xs: seq<string>): nat
  {
    if xs == [] then 0 else |xs[0]| + SumLengths(xs[1..])
  }

  /** Where the i-th element starts inside `Join(sep, xs)`. */
  function JoinOffset(sep: string, xs: seq<string>, i: nat): nat
    requires i <= |xs|
  {
    if i == 0 then 0 else |xs[0]| + |sep| + JoinOffset(sep, xs[1..], i - 1)
  }

  lemma SliceOfAppend(a: string, b: string, lo: nat, hi: nat)
    requires lo <= hi <= |b|
    ensures (a + b)[|a| + lo..|a| + hi] == b[lo..hi]
  {
  }

  /** Every element of a join sits, in order, at its offset, and the separator
      follows each element but the last. */
  lemma {:induction false} JoinAt(sep: string, xs: seq<string>, i: nat)
    requires i < |xs|
    ensures JoinOffset(sep, xs, i) + |xs[i]| <= |Join(sep, xs)|
    ensures Join(sep, xs)[JoinOffset(sep, xs, i)..JoinOffset(sep, xs, i) + |xs[i]|] == xs[i]
    ensures i + 1 < |xs| ==> JoinOffset(sep, xs, i) + |xs[i]| + |sep| <= |Join(sep, xs)|
    ensures i + 1 < |xs| ==>
      Join(sep, xs)[JoinOffset(sep, xs, i) + |xs[i]|..JoinOffset(sep, xs, i) + |xs[i]| + |sep|] == sep
  {
    if |xs| == 1 {
    } else if i == 0 {
      assert Join(sep, xs) == xs[0] + sep + Join(sep, xs[1..]);
    } else {
      JoinAt(sep, xs[1..], i - 1);
      assert xs[1..][i - 1] == xs[i];
      var rest := Join(sep, xs[1..]);
      var o := JoinOffset(sep, xs[1..], i - 1);
      assert Join(sep, xs) == (xs[0] + sep) + rest;
      SliceOfAppend(xs[0] + sep, rest, o, o + |xs[i]|);
      if i + 1 < |xs| {
        SliceOfAppend(xs[0] + sep, rest, o + |xs[i]|, o + |xs[i]| + |sep|);
      }
    }
  }
}
