/**
 * The few operations on Python `str` that the chat reconstruction relies on:
 * the `in` test, `str.find`, slicing with clamped bounds and `str.strip()`.
 * Strings are sequences of Unicode code points, as Python's are.
 */
module PyStr {

  /** `sub` occurs in `s` at index `i`. */
  predicate OccursAt<T(==)>(s: seq<T>, sub: seq<T>, i: int) {
    0 <= i && i + |sub| <= |s| && s[i..i + |sub|] == sub
  }

  /** The first index, not below `i`, at which `sub` occurs in `s`, or -1. */
  function FindFrom(s: string, sub: string, i: nat): (r: int)
    decreases |s| - i
    ensures -1 <= r
    ensures r >= 0 ==> i <= r && OccursAt(s, sub, r) && forall j :: i <= j < r ==> !OccursAt(s, sub, j)
    ensures r == -1 ==> forall j :: i <= j ==> !OccursAt(s, sub, j)
  {
    if i + |sub| > |s| then -1
    else if s[i..i + |sub|] == sub then i
    else FindFrom(s, sub, i + 1)
  }

  /** `s.find(sub)`: the index of the first occurrence of `sub` in `s`, or -1 when there is none. */
  function Find(s: string, sub: string): (r: int)
    ensures -1 <= r <= |s|
    ensures r >= 0 ==> OccursAt(s, sub, r) && forall j :: 0 <= j < r ==> !OccursAt(s, sub, j)
    ensures r == -1 <==> forall j :: !OccursAt(s, sub, j)
  {
    FindFrom(s, sub, 0)
  }

  /** `sub in s`. */
  function Contains(s: string, sub: string): (b: bool)
    ensures b <==> exists i :: OccursAt(s, sub, i)
  {
    Find(s, sub) != -1
  }

  /** The first occurrence is at `i` when `sub` occurs at `i` and nowhere in the text before its last character. */
  lemma FindFirst(s: string, sub: string, i: nat)
    requires |sub| > 0 && OccursAt(s, sub, i)
    requires !Contains(s[..i + |sub| - 1], sub)
    ensures Find(s, sub) == i
  {
    var r := Find(s, sub);
    if r != i {
      assert 0 <= r < i;
      assert s[..i + |sub| - 1][r..r + |sub|] == s[r..r + |sub|];
      assert OccursAt(s[..i + |sub| - 1], sub, r);
    }
  }

  /** `sub` cannot occur in `pre + tail` when its first character is not in `pre` and `tail` is shorter than `sub`. */
  lemma AbsentFirstChar(pre: string, tail: string, sub: string)
    requires |sub| > 0 && sub[0] !in pre && |tail| < |sub|
    ensures !Contains(pre + tail, sub)
  {
    var s := pre + tail;
    forall j | 0 <= j && j + |sub| <= |s|
      ensures !OccursAt(s, sub, j)
    {
      assert s[j..j + |sub|][0] == s[j] == pre[j];
    }
  }

  /** Python's normalisation of one slice bound against a sequence of length `n`:
      negative bounds count from the end, and the result is clamped to `[0, n]`. */
  function SliceBound(i: int, n: nat): (r: nat)
    ensures r <= n
    ensures 0 <= i <= n ==> r == i
    ensures n < i ==> r == n
    ensures i < 0 && 0 <= i + n ==> r == i + n
    ensures i + n < 0 ==> r == 0
  {
    if i < 0 then (if i + n < 0 then 0 else i + n)
    else if i > n then n
    else i
  }

  /** `s[start:end]`, which never fails: out-of-range bounds are clamped and a reversed range is empty. */
  function Slice<T(==)>(s: seq<T>, start: int, end: int): (r: seq<T>)
    ensures 0 <= start <= end <= |s| ==> r == s[start..end]
    ensures 0 <= start <= |s| <= end ==> r == s[start..]
    ensures 0 <= end <= start ==> r == []
    ensures |s| <= start ==> r == []
    ensures exists i :: OccursAt(s, r, i)
  {
    var lo, hi := SliceBound(start, |s|), SliceBound(end, |s|);
    if lo < hi then
      assert OccursAt(s, s[lo..hi], lo);
      s[lo..hi]
    else
      assert OccursAt(s, [], 0);
      []
  }

  /** `c.isspace()`: the characters that `str.strip()` removes when called without arguments. */
  predicate IsSpace(c: char) {
    ('\t' <= c <= '\r') || ('\U{1C}' <= c <= ' ') || c == '\U{85}' || c == '\U{A0}' || c == '\U{1680}'
    || ('\U{2000}' <= c <= '\U{200A}') || c == '\U{2028}' || c == '\U{2029}' || c == '\U{202F}'
    || c == '\U{205F}' || c == '\U{3000}'
  }

  predicate AllSpace(s: string) {
    forall k :: 0 <= k < |s| ==> IsSpace(s[k])
  }

  /** Neither end of `s` is whitespace. */
  predicate Trimmed(s: string) {
    s == [] || (!IsSpace(s[0]) && !IsSpace(s[|s| - 1]))
  }

  /** `s` is whitespace, then `r` from index `i` on, then whitespace. */
  predicate StrippedAt(s: string, r: string, i: int) {
    OccursAt(s, r, i) && AllSpace(s[..i]) && AllSpace(s[i + |r|..])
  }

  /** The length of the longest all-whitespace prefix of `s`. */
  function LeadingSpace(s: string): (n: nat)
    ensures n <= |s|
    ensures forall k :: 0 <= k < n ==> IsSpace(s[k])
    ensures n < |s| ==> !IsSpace(s[n])
  {
    if s == [] || !IsSpace(s[0]) then 0 else 1 + LeadingSpace(s[1..])
  }

  /** The length of the longest all-whitespace suffix of `s`. */
  function TrailingSpace(s: string): (n: nat)
    ensures n <= |s|
    ensures forall k :: |s| - n <= k < |s| ==> IsSpace(s[k])
    ensures n < |s| ==> !IsSpace(s[|s| - 1 - n])
  {
    if s == [] || !IsSpace(s[|s| - 1]) then 0 else 1 + TrailingSpace(s[..|s| - 1])
  }

  /** `s.strip()`: `s` without its leading and trailing whitespace. The result is the middle
      piece of a split of `s` into whitespace, a trimmed string and whitespace. */
  function Strip(s: string): (r: string)
    ensures Trimmed(r)
    ensures exists i :: StrippedAt(s, r, i)
  {
    var i := LeadingSpace(s);
    var t := s[i..];
    var n := TrailingSpace(t);
    assert i == |s| ==> t == [];
    assert s[i..i + (|t| - n)] == t[..|t| - n];
    var u := s[i + (|t| - n)..];
    assert AllSpace(u) by {
      forall k | 0 <= k < |u|
        ensures IsSpace(u[k])
      {
        assert u[k] == t[|t| - n + k];
      }
    }
    assert StrippedAt(s, t[..|t| - n], i);
    t[..|t| - n]
  }

  /** The split that `Strip` makes is unique: whatever whitespace surrounds a trimmed string, stripping gives that string back. */
  lemma StripUnique(a: string, r: string, b: string)
    requires AllSpace(a) && Trimmed(r) && AllSpace(b)
    ensures Strip(a + r + b) == r
  {
    var s := a + r + b;
    var i := LeadingSpace(s);
    if r == [] {
      assert s == a + b;
      assert i == |s|;
    } else {
      assert s[|a|] == r[0];
      assert i == |a|;
      var t := s[i..];
      assert t == r + b;
      var n := TrailingSpace(t);
      assert t[|r| - 1] == r[|r| - 1];
      assert n == |b|;
      assert t[..|t| - n] == r;
    }
  }

  /** Stripping twice strips nothing more. */
  lemma StripIdempotent(s: string)
    ensures Strip(Strip(s)) == Strip(s)
  {
    var r := Strip(s);
    StripUnique([], r, []);
    assert [] + r + [] == r;
  }
}
