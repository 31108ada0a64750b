/**
 * The three Python string operations the assistant relies on: `str.lower()`
 * (its ASCII part), `str.strip()` with no argument, and the substring test
 * `phrase in text`.
 */
module Text {

  /** The characters Python's `str.isspace` accepts; `str.strip()` removes exactly these. */
  predicate IsSpace(c: char) {
    ('\t' <= c <= '\r') || ('\U{1C}' <= c <= '\U{1F}') || c == ' '
    || c == '\U{85}' || c == '\U{A0}' || c == '\U{1680}'
    || ('\U{2000}' <= c <= '\U{200A}') || c == '\U{2028}' || c == '\U{2029}'
    || c == '\U{202F}' || c == '\U{205F}' || c == '\U{3000}'
  }

  predicate IsUpper(c: char) {
    'A' <= c <= 'Z'
  }

  predicate AllSpace(s: string) {
    forall i :: 0 <= i < |s| ==> IsSpace(s[i])
  }

  predicate NoUpper(s: string) {
    forall i :: 0 <= i < |s| ==> !IsUpper(s[i])
  }

  /** `s` has no whitespace at either end, so `strip()` leaves it as it is. */
  predicate Trimmed(s: string) {
    s == [] || (!IsSpace(s[0]) && !IsSpace(s[|s| - 1]))
  }

  function LowerChar(c: char): (d: char)
    ensures !IsUpper(d)
    ensures IsUpper(c) ==> 'a' <= d <= 'z' && d as int - c as int == 'a' as int - 'A' as int
    ensures !IsUpper(c) ==> d == c
    ensures IsSpace(d) == IsSpace(c)
  {
    if IsUpper(c) then (c as int - 'A' as int + 'a' as int) as char else c
  }

  /** `s.lower()`, for the ASCII letters. */
  function Lower(s: string): (r: string)
    ensures |r| == |s|
    ensures NoUpper(r)
  {
    seq(|s|, i requires 0 <= i < |s| => LowerChar(s[i]))
  }

  /** `s.lstrip()`: what is left once the leading whitespace run is dropped (StripLeftSlice). */
  function StripLeft(s: string): (r: string)
    ensures |r| <= |s|
    ensures r == [] || !IsSpace(r[0])
  {
    if s != [] && IsSpace(s[0]) then StripLeft(s[1..]) else s
  }

  /** `s.rstrip()`: what is left once the trailing whitespace run is dropped (StripRightSlice). */
  function StripRight(s: string): (r: string)
    ensures |r| <= |s|
    ensures r == [] || !IsSpace(r[|r| - 1])
  {
    if s != [] && IsSpace(s[|s| - 1]) then StripRight(s[..|s| - 1]) else s
  }

  /** `s.strip()`: no whitespace is left at either end (StripSlice: only whitespace is cut away). */
  function Strip(s: string): (r: string)
    ensures Trimmed(r)
  {
    StripRightSlice(StripLeft(s));
    StripRight(StripLeft(s))
  }

  /** Python's `p in s` for strings: `p` occurs in `s` at some position. */
  predicate IsSubstring(p: string, s: string) {
    exists i :: 0 <= i <= |s| - |p| && p <= s[i..]
  }

  /** `lstrip()` cuts away a prefix, and only whitespace. */
  lemma {:induction false} StripLeftSlice(s: string)
    ensures StripLeft(s) == s[|s| - |StripLeft(s)|..]
    ensures AllSpace(s[..|s| - |StripLeft(s)|])
  {
    if s != [] && IsSpace(s[0]) {
      StripLeftSlice(s[1..]);
      var k := |s| - |StripLeft(s)|;
      assert s[1..][k - 1..] == s[k..];
      assert forall i :: 1 <= i < k ==> s[i] == s[1..][..k - 1][i - 1];
    }
  }

  /** `rstrip()` cuts away a suffix, and only whitespace. */
  lemma {:induction false} StripRightSlice(s: string)
    ensures StripRight(s) == s[..|StripRight(s)|]
    ensures AllSpace(s[|StripRight(s)|..])
  {
    if s != [] && IsSpace(s[|s| - 1]) {
      var s' := s[..|s| - 1];
      StripRightSlice(s');
      var k := |StripRight(s)|;
      assert s'[..k] == s[..k];
      assert forall i :: k <= i < |s| - 1 ==> s[i] == s'[k..][i - k];
    }
  }

  /** What `strip()` returns is the slice of `s` between a whitespace prefix and a whitespace suffix. */
  lemma StripSlice(s: string) returns (i: nat)
    ensures i + |Strip(s)| <= |s| && s[i..i + |Strip(s)|] == Strip(s)
    ensures AllSpace(s[..i]) && AllSpace(s[i + |Strip(s)|..])
  {
    var l := StripLeft(s);
    var r := StripRight(l);
    StripLeftSlice(s);
    StripRightSlice(l);
    i := |s| - |l|;
    assert l == s[i..];
    assert r == l[..|r|];
    assert s[i..i + |r|] == r;
    assert s[i + |r|..] == l[|r|..];
  }

  lemma LowerAppend(a: string, b: string)
    ensures Lower(a + b) == Lower(a) + Lower(b)
  {
  }

  lemma LowerFixes(s: string)
    requires NoUpper(s)
    ensures Lower(s) == s
  {
  }

  lemma LowerIdempotent(s: string)
    ensures Lower(Lower(s)) == Lower(s)
  {
    LowerFixes(Lower(s));
  }

  lemma {:induction false} StripLeftSkipsSpace(p: string, s: string)
    requires AllSpace(p)
    ensures StripLeft(p + s) == StripLeft(s)
  {
    if p != [] {
      assert (p + s)[1..] == p[1..] + s;
      StripLeftSkipsSpace(p[1..], s);
    } else {
      assert p + s == s;
    }
  }

  lemma {:induction false} StripRightSkipsSpace(s: string, q: string)
    requires AllSpace(q)
    ensures StripRight(s + q) == StripRight(s)
  {
    if q != [] {
      var q' := q[..|q| - 1];
      assert (s + q)[..|s + q| - 1] == s + q';
      StripRightSkipsSpace(s, q');
    } else {
      assert s + q == s;
    }
  }

  /** Trailing whitespace does not change where the leading whitespace run ends. */
  lemma {:induction false} StripLeftThenSpace(s: string, q: string)
    requires AllSpace(q)
    ensures StripLeft(s) != [] ==> StripLeft(s + q) == StripLeft(s) + q
    ensures StripLeft(s) == [] ==> StripLeft(s + q) == []
  {
    if s == [] {
      StripLeftSkipsSpace(q, []);
      assert q + [] == q && s + q == q;
    } else if IsSpace(s[0]) {
      assert (s + q)[1..] == s[1..] + q;
      StripLeftThenSpace(s[1..], q);
    } else {
      assert (s + q)[0] == s[0];
    }
  }

  /** Whitespace padding on both sides does not change what `strip()` returns. */
  lemma StripPadding(p: string, s: string, q: string)
    requires AllSpace(p) && AllSpace(q)
    ensures Strip(p + s + q) == Strip(s)
  {
    assert p + s + q == p + (s + q);
    StripLeftSkipsSpace(p, s + q);
    StripLeftThenSpace(s, q);
    if StripLeft(s) != [] {
      StripRightSkipsSpace(StripLeft(s), q);
    }
  }

  lemma StripFixes(s: string)
    requires Trimmed(s)
    ensures Strip(s) == s
  {
  }

  lemma StripKeepsNoUpper(s: string)
    requires NoUpper(s)
    ensures NoUpper(Strip(s))
  {
    var r := Strip(s);
    var i := StripSlice(s);
    forall k | 0 <= k < |r| ensures !IsUpper(r[k]) {
      assert r[k] == s[i + k];
    }
  }

  /** Every string contains itself: an exact match is also a substring match. */
  lemma SubstringReflexive(s: string)
    ensures IsSubstring(s, s)
  {
    assert s <= s[0..];
  }

  /** Every character of an occurring string is a character of `s`. */
  lemma SubstringChars(p: string, s: string)
    requires IsSubstring(p, s)
    ensures forall k :: 0 <= k < |p| ==> p[k] in s
  {
    var i :| 0 <= i <= |s| - |p| && p <= s[i..];
    forall k | 0 <= k < |p| ensures p[k] in s {
      assert p[k] == s[i + k];
    }
  }
}
