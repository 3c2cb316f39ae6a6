/** String operations of Python's `str` that the three tools rely on, over `seq<char>`. */
module Text {

  /** Python's `str.isspace()`; it is also the set that `\s` (for a `str` pattern) and
      `str.strip()` use. Listed by code point. */
  predicate IsSpace(c: char) {
    var n := c as int;
    (9 <= n <= 13) || (0x1C <= n <= 0x20) || n == 0x85 || n == 0xA0 || n == 0x1680
    || (0x2000 <= n <= 0x200A) || n == 0x2028 || n == 0x2029 || n == 0x202F
    || n == 0x205F || n == 0x3000
  }

  /** No position of `s` in `[lo, hi)` holds `c` (and the range lies inside `s`). */
  predicate Avoids(s: string, c: char, lo: int, hi: int) {
    forall i :: lo <= i < hi ==> 0 <= i < |s| && s[i] != c
  }

  /** `s[lo..hi]` is made of whitespace only. */
  predicate AllSpace(s: string, lo: int, hi: int) {
    forall i :: lo <= i < hi ==> 0 <= i < |s| && IsSpace(s[i])
  }

  /** Python's `s.startswith(p)`. */
  predicate StartsWith(s: string, p: string) {
    |p| <= |s| && s[..|p|] == p
  }

  /** Python's `s.endswith(p)`. */
  predicate EndsWith(s: string, p: string) {
    |p| <= |s| && s[|s| - |p|..] == p
  }

  /** `pat` occurs in `text` starting at index `i`. */
  predicate OccursAt(text: string, pat: string, i: int) {
    0 <= i && i + |pat| <= |text| && text[i..i + |pat|] == pat
  }

  /** Python's `pat in text` (substring test); see ContainsIff. */
  function Contains(text: string, pat: string): bool
    decreases |text|
  {
    if |pat| > |text| then false
    else if text[..|pat|] == pat then true
    else Contains(text[1..], pat)
  }

  lemma {:induction false} ContainsIff(text: string, pat: string)
    ensures Contains(text, pat) <==> exists i :: OccursAt(text, pat, i)
    decreases |text|
  {
    if |pat| > |text| {
    } else if text[..|pat|] == pat {
      assert OccursAt(text, pat, 0);
    } else {
      ContainsIff(text[1..], pat);
      if Contains(text[1..], pat) {
        var i :| OccursAt(text[1..], pat, i);
        assert text[1..][i..i + |pat|] == text[i + 1..i + 1 + |pat|];
        assert OccursAt(text, pat, i + 1);
      } else {
        forall i | OccursAt(text, pat, i) ensures false {
          assert i != 0;
          assert text[1..][i - 1..i - 1 + |pat|] == text[i..i + |pat|];
          assert OccursAt(text[1..], pat, i - 1);
        }
      }
    }
  }

  /** Python's `s.lstrip()`. */
  function TrimLeft(s: string): (r: string)
    ensures |r| <= |s| && r == s[|s| - |r|..]
    ensures r == [] || !IsSpace(r[0])
    ensures AllSpace(s, 0, |s| - |r|)
  {
    if s != [] && IsSpace(s[0]) then
      var r := TrimLeft(s[1..]);
      assert s[1..][|s| - 1 - |r|..] == s[|s| - |r|..];
      assert forall i :: 1 <= i < |s| - |r| ==> s[i] == s[1..][i - 1];
      r
    else s
  }

  /** Python's `s.rstrip()`. */
  function TrimRight(s: string): (r: string)
    ensures |r| <= |s| && r == s[..|r|]
    ensures r == [] || !IsSpace(r[|r| - 1])
    ensures AllSpace(s, |r|, |s|)
  {
    if s != [] && IsSpace(s[|s| - 1]) then
      var r := TrimRight(s[..|s| - 1]);
      assert AllSpace(s[..|s| - 1], |r|, |s| - 1);
      r
    else s
  }

  /** `r` is what is left of `s` once `s[..lo]` and everything after `r` are removed,
      and both removed parts are whitespace. */
  predicate StripsTo(s: string, lo: int, r: string) {
    0 <= lo <= |s| - |r| && r == s[lo..lo + |r|] && AllSpace(s, 0, lo) && AllSpace(s, lo + |r|, |s|)
  }

  /** Removing leading whitespace and then trailing whitespace leaves a slice of `s`. */
  lemma PrefixOfSuffix(s: string, t: string, r: string)
    requires |t| <= |s| && t == s[|s| - |t|..] && AllSpace(s, 0, |s| - |t|)
    requires |r| <= |t| && r == t[..|r|] && AllSpace(t, |r|, |t|)
    ensures StripsTo(s, |s| - |t|, r)
  {
    var lo := |s| - |t|;
    assert r == s[lo..lo + |r|];
    forall i | lo + |r| <= i < |s| ensures IsSpace(s[i]) {
      assert s[i] == t[i - lo];
    }
  }

  /** Python's `s.strip()`: it neither begins nor ends with whitespace (and StripSlice
      says what it keeps). */
  function Strip(s: string): (r: string)
    ensures r == [] || (!IsSpace(r[0]) && !IsSpace(r[|r| - 1]))
  {
    var t := TrimLeft(s);
    var r := TrimRight(t);
    assert r != [] ==> r[0] == t[0];
    r
  }

  /** What `s.strip()` keeps is a slice of `s`, and what it removes at both ends is
      whitespace. */
  lemma StripSlice(s: string)
    ensures exists lo :: StripsTo(s, lo, Strip(s))
  {
    var t := TrimLeft(s);
    PrefixOfSuffix(s, t, TrimRight(t));
    assert Strip(s) == TrimRight(t);
    assert StripsTo(s, |s| - |t|, Strip(s));
  }

  /** Index of the first `c` at or after `from`, or `|s|` when there is none. */
  function FirstIndexOf(s: string, c: char, from: nat): (r: nat)
    requires from <= |s|
    ensures from <= r <= |s|
    ensures r < |s| ==> s[r] == c
    ensures Avoids(s, c, from, r)
    decreases |s| - from
  {
    if from == |s| then from
    else if s[from] == c then from
    else FirstIndexOf(s, c, from + 1)
  }

  /** Index of the last `c` in `[lo, hi)`, or -1 when there is none. */
  function LastIndexOf(s: string, c: char, lo: int, hi: int): (r: int)
    requires 0 <= lo && hi <= |s|
    ensures r == -1 || (lo <= r < hi && s[r] == c)
    ensures Avoids(s, c, if r == -1 then lo else r + 1, hi)
    decreases hi - lo
  {
    if hi <= lo then -1
    else if s[hi - 1] == c then hi - 1
    else LastIndexOf(s, c, lo, hi - 1)
  }

  /** Index of the first non-whitespace character at or after `from`, or `|s|`. */
  function SpaceEnd(s: string, from: nat): (r: nat)
    requires from <= |s|
    ensures from <= r <= |s|
    ensures r < |s| ==> !IsSpace(s[r])
    ensures AllSpace(s, from, r)
    decreases |s| - from
  {
    if from == |s| || !IsSpace(s[from]) then from
    else SpaceEnd(s, from + 1)
  }

  /** Index of the first character other than `c` at or after `from`, or `|s|`. */
  function RunEnd(s: string, c: char, from: nat): (r: nat)
    requires from <= |s|
    ensures from <= r <= |s|
    ensures r < |s| ==> s[r] != c
    ensures forall i :: from <= i < r ==> s[i] == c
    decreases |s| - from
  {
    if from == |s| || s[from] != c then from
    else RunEnd(s, c, from + 1)
  }

  /** Index of the last character other than `c` in `[lo, hi)`, or -1 when there is none. */
  function LastOtherThan(s: string, c: char, lo: int, hi: int): (r: int)
    requires 0 <= lo && hi <= |s|
    ensures r == -1 || (lo <= r < hi && s[r] != c)
    ensures forall i :: (if r == -1 then lo else r + 1) <= i < hi ==> s[i] == c
    decreases hi - lo
  {
    if hi <= lo then -1
    else if s[hi - 1] != c then hi - 1
    else LastOtherThan(s, c, lo, hi - 1)
  }

  /** The lines of `s` as Python's text-file iteration yields them. */
  function Lines(s: string): seq<string>
    decreases |s|
  {
    if s == [] then []
    else
      var n := FirstIndexOf(s, '\n', 0);
      if n == |s| then [s] else [s[..n + 1]] + Lines(s[n + 1..])
  }

  /** Every line is non-empty and ends just after its only newline, except that the last
      may have none. */
  lemma {:induction false} LinesShape(s: string)
    ensures forall i :: 0 <= i < |Lines(s)| ==> Lines(s)[i] != [] && '\n' !in Lines(s)[i][..|Lines(s)[i]| - 1]
    ensures forall i :: 0 <= i < |Lines(s)| - 1 ==> Lines(s)[i][|Lines(s)[i]| - 1] == '\n'
    decreases |s|
  {
    if s != [] {
      var n := FirstIndexOf(s, '\n', 0);
      if n == |s| {
        SliceAvoids(s, '\n', 0, |s|);
        assert s[0..|s|] == s;
      } else {
        var rest := Lines(s[n + 1..]);
        LinesShape(s[n + 1..]);
        SliceAvoids(s, '\n', 0, n);
        var r := Lines(s);
        assert r == [s[..n + 1]] + rest;
        forall i | 0 <= i < |r| ensures r[i] != [] && '\n' !in r[i][..|r[i]| - 1] {
          if i == 0 {
            assert r[0][..n] == s[0..n];
          } else {
            assert r[i] == rest[i - 1];
          }
        }
        forall i | 0 <= i < |r| - 1 ensures r[i][|r[i]| - 1] == '\n' {
          if i == 0 {
            assert r[0][n] == s[n];
          } else {
            assert r[i] == rest[i - 1];
          }
        }
      }
    }
  }

  /** Together the lines give back the text. */
  lemma {:induction false} LinesConcat(s: string)
    ensures Concat(Lines(s)) == s
    decreases |s|
  {
    if s != [] {
      var n := FirstIndexOf(s, '\n', 0);
      if n == |s| {
        assert Concat([s]) == s + Concat([]);
      } else {
        var rest := Lines(s[n + 1..]);
        LinesConcat(s[n + 1..]);
        assert s == s[..n + 1] + s[n + 1..];
        var r := Lines(s);
        assert r[1..] == rest;
      }
    }
  }

  /** The concatenation of a sequence of strings. */
  function Concat(ss: seq<string>): string {
    if ss == [] then [] else ss[0] + Concat(ss[1..])
  }

  /** An index into the second part of a concatenation. */
  lemma AppendIndexRight<T>(a: seq<T>, b: seq<T>, k: int)
    requires 0 <= k < |b|
    ensures (a + b)[|a| + k] == b[k]
  {
  }

  /** An index into the first part of a concatenation. */
  lemma AppendIndexLeft<T>(a: seq<T>, b: seq<T>, k: int)
    requires 0 <= k < |a|
    ensures (a + b)[k] == a[k]
  {
  }

  /** Concatenation groups either way. */
  lemma AppendAssoc<T>(a: seq<T>, b: seq<T>, c: seq<T>)
    ensures (a + b) + c == a + (b + c)
  {
  }

  /** The characters of `s[lo..hi]` are those of positions lo to hi - 1. */
  lemma SliceAvoids(s: string, c: char, lo: int, hi: int)
    requires 0 <= lo <= hi <= |s|
    ensures c !in s[lo..hi] <==> Avoids(s, c, lo, hi)
  {
    if c in s[lo..hi] {
      var i :| 0 <= i < hi - lo && s[lo..hi][i] == c;
      assert s[lo + i] == c;
    }
  }
}
