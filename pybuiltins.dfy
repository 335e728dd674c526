/** The Python built-ins the retrieval core leans on, over strings as sequences
    of Unicode scalar values (a Python `str` without lone surrogates):
    `range` with a positive step, slicing with non-negative bounds,
    `str.isspace`, `str.strip()` without arguments and `str.join`. */
module PyBuiltins {

  function Min(a: int, b: int): int { if a <= b then a else b }

  /** `range(start, stop, step)` for a positive `step`. */
  function Range(start: int, stop: int, step: int): (r: seq<int>)
    requires step > 0
    ensures forall j :: 0 <= j < |r| ==> start <= r[j] < stop
    decreases stop - start
  {
    if start >= stop then [] else [start] + Range(start + step, stop, step)
  }

  lemma MulSucc(a: int, b: int)
    ensures (a + 1) * b == a * b + b
  {
  }

  /** The j-th element of a range is `start + j * step`, and there are just
      enough of them to reach `stop`: ceil((stop - start) / step). */
  lemma {:induction false} RangeShape(start: int, stop: int, step: int)
    requires step > 0
    ensures start >= stop ==> Range(start, stop, step) == []
    ensures start < stop ==>
      (|Range(start, stop, step)| - 1) * step < stop - start <= |Range(start, stop, step)| * step
    ensures forall j :: 0 <= j < |Range(start, stop, step)| ==> Range(start, stop, step)[j] == start + j * step
    decreases stop - start
  {
    if start < stop {
      var r, t := Range(start, stop, step), Range(start + step, stop, step);
      RangeShape(start + step, stop, step);
      assert r == [start] + t;
      forall j | 0 < j < |r|
        ensures r[j] == start + j * step
      {
        MulSucc(j - 1, step);
        assert r[j] == t[j - 1];
      }
      MulSucc(|t|, step);
      MulSucc(|t| - 1, step);
    }
  }

  /** `s[lo:hi]` for non-negative bounds: a bound past the end is clamped to
      `len(s)`, and the result is empty once `hi` is not past `lo`. */
  function Slice(s: string, lo: nat, hi: nat): (r: string)
    ensures |r| == (if lo < Min(hi, |s|) then Min(hi, |s|) - lo else 0)
    ensures forall i :: 0 <= i < |r| ==> r[i] == s[lo + i]
  {
    if |s| <= lo || hi <= lo then [] else s[lo..Min(hi, |s|)]
  }

  /** `c.isspace()`: the code points Python classes as whitespace. */
  predicate IsSpace(c: char) {
    || '\t' <= c <= '\r'
    || '\U{1C}' <= c <= '\U{1F}'
    || c == ' '
    || c == '\U{85}'
    || c == '\U{A0}'
    || c == '\U{1680}'
    || '\U{2000}' <= c <= '\U{200A}'
    || c == '\U{2028}'
    || c == '\U{2029}'
    || c == '\U{202F}'
    || c == '\U{205F}'
    || c == '\U{3000}'
  }

  /** Number of whitespace code points at the start of `s`. */
  function LeadingSpace(s: string): (n: nat)
    ensures n <= |s|
    ensures forall i :: 0 <= i < n ==> IsSpace(s[i])
    ensures n < |s| ==> !IsSpace(s[n])
  {
    if |s| > 0 && IsSpace(s[0]) then 1 + LeadingSpace(s[1..]) else 0
  }

  /** Number of whitespace code points at the end of `s`. */
  function TrailingSpace(s: string): (n: nat)
    ensures n <= |s|
    ensures forall i :: |s| - n <= i < |s| ==> IsSpace(s[i])
    ensures n < |s| ==> !IsSpace(s[|s| - n - 1])
  {
    if |s| > 0 && IsSpace(s[|s| - 1]) then 1 + TrailingSpace(s[..|s| - 1]) else 0
  }

  /** `s.strip()`: the stretch of `s` between its leading and its trailing
      whitespace; empty exactly when `s` is nothing but whitespace. */
  function Strip(s: string): (r: string)
    ensures |r| <= |s|
    ensures r == [] <==> forall i :: 0 <= i < |s| ==> IsSpace(s[i])
    ensures r != [] ==> !IsSpace(r[0]) && !IsSpace(r[|r| - 1])
    ensures r != [] ==> r == s[LeadingSpace(s)..|s| - TrailingSpace(s)]
  {
    var lo := LeadingSpace(s);
    if lo == |s| then [] else s[lo..|s| - TrailingSpace(s)]
  }

  /** Stripping a stripped string changes nothing. */
  lemma StripIdempotent(s: string)
    ensures Strip(Strip(s)) == Strip(s)
  {
  }

  /** `"".join(xs)`. */
  function Concat(xs: seq<string>): string {
    if xs == [] then "" else xs[0] + Concat(xs[1..])
  }

  /** `sep.join(xs)`. */
  function Join(sep: string, xs: seq<string>): string {
    if |xs| == 0 then ""
    else if |xs| == 1 then xs[0]
    else xs[0] + sep + Join(sep, xs[1..])
  }

  /** Where the j-th item starts in `sep.join(xs)`: after each earlier item
      and the separator that follows it. */
  function JoinOffset(sep: string, xs: seq<string>, j: nat): nat
    requires j <= |xs|
  {
    if j == 0 then 0 else JoinOffset(sep, xs, j - 1) + |xs[j - 1]| + |sep|
  }

  lemma {:induction false} JoinOffsetTail(sep: string, xs: seq<string>, j: nat)
    requires 0 < j <= |xs|
    ensures JoinOffset(sep, xs, j) == |xs[0]| + |sep| + JoinOffset(sep, xs[1..], j - 1)
  {
    if j > 1 {
      JoinOffsetTail(sep, xs, j - 1);
    }
  }

  /** `sep.join(xs)` ends right after its last item. */
  lemma {:induction false} JoinLength(sep: string, xs: seq<string>)
    requires |xs| > 0
    ensures |Join(sep, xs)| == JoinOffset(sep, xs, |xs| - 1) + |xs[|xs| - 1]|
  {
    if |xs| > 1 {
      JoinLength(sep, xs[1..]);
      JoinOffsetTail(sep, xs, |xs| - 1);
    }
  }

  /** The j-th item of `xs` sits at JoinOffset(sep, xs, j) in `sep.join(xs)`. */
  lemma {:induction false} JoinItem(sep: string, xs: seq<string>, j: nat)
    requires j < |xs|
    ensures JoinOffset(sep, xs, j) + |xs[j]| <= |Join(sep, xs)|
    ensures Join(sep, xs)[JoinOffset(sep, xs, j)..JoinOffset(sep, xs, j) + |xs[j]|] == xs[j]
  {
    if |xs| > 1 {
      var whole, rest, lead := Join(sep, xs), Join(sep, xs[1..]), xs[0] + sep;
      assert whole == lead + rest;
      if j == 0 {
        assert whole[..|xs[0]|] == xs[0];
      } else {
        JoinItem(sep, xs[1..], j - 1);
        JoinOffsetTail(sep, xs, j);
        var o := JoinOffset(sep, xs[1..], j - 1);
        assert whole[|lead| + o..|lead| + o + |xs[j]|] == rest[o..o + |xs[j]|];
      }
    }
  }

  /** Between the j-th and the (j+1)-th item of `sep.join(xs)` stands `sep`. */
  lemma {:induction false} JoinSeparator(sep: string, xs: seq<string>, j: nat)
    requires j + 1 < |xs|
    ensures JoinOffset(sep, xs, j + 1) <= |Join(sep, xs)|
    ensures Join(sep, xs)[JoinOffset(sep, xs, j) + |xs[j]|..JoinOffset(sep, xs, j + 1)] == sep
  {
    var whole, rest, lead := Join(sep, xs), Join(sep, xs[1..]), xs[0] + sep;
    assert whole == lead + rest;
    if j == 0 {
      assert whole[|xs[0]|..|lead|] == sep;
    } else {
      JoinSeparator(sep, xs[1..], j - 1);
      JoinOffsetTail(sep, xs, j);
      JoinOffsetTail(sep, xs, j + 1);
      var o, p := JoinOffset(sep, xs[1..], j - 1) + |xs[j]|, JoinOffset(sep, xs[1..], j);
      assert whole[|lead| + o..|lead| + p] == rest[o..p];
    }
  }
}
