/** The few Python string operations the core relies on: `str.isspace`,
    `str.strip`, `str.startswith` and `str.lower`. */
module PyText {

  /** The characters Python's `str.isspace` accepts, which are the ones
      `str.strip()` with no argument removes. */
  predicate IsSpace(c: char)
  {
    var n := c as int;
    || (0x09 <= n <= 0x0D) || (0x1C <= n <= 0x20)
    || n == 0x85 || n == 0xA0 || n == 0x1680
    || (0x2000 <= n <= 0x200A)
    || n == 0x2028 || n == 0x2029 || n == 0x202F || n == 0x205F || n == 0x3000
  }

  predicate AllSpace(s: string)
  {
    forall i :: 0 <= i < |s| ==> IsSpace(s[i])
  }

  /** A string with no whitespace at either end. */
  predicate Stripped(s: string)
  {
    s == [] || (!IsSpace(s[0]) && !IsSpace(s[|s| - 1]))
  }

  /** `t` sits in `s` at position `i`, and every character of `s` around
      it is whitespace. */
  predicate PaddedAt(s: string, t: string, i: nat)
  {
    i + |t| <= |s| && s[i..i + |t|] == t
    && (forall k :: 0 <= k < i ==> IsSpace(s[k]))
    && (forall k :: i + |t| <= k < |s| ==> IsSpace(s[k]))
  }

  /** `t` is `s` with some whitespace removed from each end. */
  ghost predicate PaddedBy(s: string, t: string)
  {
    exists i: nat :: i <= |s| && PaddedAt(s, t, i)
  }

  /** The length of the whitespace run that starts `s`. */
  function LeadingSpaces(s: string): (n: nat)
    ensures n <= |s| && forall k :: 0 <= k < n ==> IsSpace(s[k])
    ensures n < |s| ==> !IsSpace(s[n])
  {
    if s == [] || !IsSpace(s[0]) then 0
    else
      var n := 1 + LeadingSpaces(s[1..]);
      assert forall k :: 1 <= k < n ==> s[k] == s[1..][k - 1];
      n
  }

  /** The length of the whitespace run that ends `s`. */
  function TrailingSpaces(s: string): (n: nat)
    ensures n <= |s| && forall k :: |s| - n <= k < |s| ==> IsSpace(s[k])
    ensures n < |s| ==> !IsSpace(s[|s| - n - 1])
  {
    if s == [] || !IsSpace(s[|s| - 1]) then 0
    else
      var front := s[..|s| - 1];
      var n := 1 + TrailingSpaces(front);
      assert forall k :: |s| - n <= k < |s| - 1 ==> s[k] == front[k];
      n
  }

  /** `s.strip()`: whitespace removed from both ends. */
  function Strip(s: string): (r: string)
    ensures Stripped(r) && PaddedBy(s, r)
  {
    var i := LeadingSpaces(s);
    var rest := s[i..];
    var j := TrailingSpaces(rest);
    var r := rest[..|rest| - j];
    assert r != [] ==> r[0] == rest[0] && r[|r| - 1] == rest[|rest| - j - 1];
    assert PaddedAt(s, r, i) by {
      assert s[i..i + |r|] == r;
      assert forall k :: i + |r| <= k < |s| ==> s[k] == rest[k - i];
    }
    r
  }

  /** Stripping is exact: whatever whitespace pads a stripped string, `strip`
      gives back that string. */
  lemma StripPadded(a: string, t: string, b: string)
    requires AllSpace(a) && AllSpace(b) && Stripped(t)
    ensures Strip(a + t + b) == t
  {
    var s := a + t + b;
    if t == [] {
      assert s == a + b;
      LeadingAllSpace(s);
    } else {
      LeadingExact(s, |a|);
      var rest := s[|a|..];
      assert rest == t + b;
      TrailingExact(rest, |b|);
      assert rest[..|rest| - |b|] == t;
    }
  }

  lemma LeadingAllSpace(s: string)
    requires AllSpace(s)
    ensures LeadingSpaces(s) == |s|
  {
  }

  lemma LeadingExact(s: string, n: nat)
    requires n < |s| && AllSpace(s[..n]) && !IsSpace(s[n])
    ensures LeadingSpaces(s) == n
  {
  }

  lemma TrailingExact(s: string, n: nat)
    requires n < |s| && AllSpace(s[|s| - n..]) && !IsSpace(s[|s| - n - 1])
    ensures TrailingSpaces(s) == n
  {
  }

  /** `strip` is idempotent. */
  lemma StripIdempotent(s: string)
    ensures Strip(Strip(s)) == Strip(s)
  {
    var t := Strip(s);
    assert [] + t + [] == t;
    StripPadded([], t, []);
  }

  /** Whitespace added around a string is stripped with the rest. */
  lemma StripIgnoresPadding(a: string, s: string, b: string)
    requires AllSpace(a) && AllSpace(b)
    ensures Strip(a + s + b) == Strip(s)
  {
    var t := Strip(s);
    var i: nat :| i <= |s| && PaddedAt(s, t, i);
    PaddedSplit(s, t, i);
    var left, right := s[..i], s[i + |t|..];
    AllSpaceConcat(a, left);
    AllSpaceConcat(right, b);
    Regroup(a, left, t, right, b);
    StripPadded(a + left, t, right + b);
  }

  lemma Regroup(a: string, left: string, t: string, right: string, b: string)
    ensures a + (left + t + right) + b == (a + left) + t + (right + b)
  {
  }

  lemma PaddedSplit(s: string, t: string, i: nat)
    requires PaddedAt(s, t, i)
    ensures s == s[..i] + t + s[i + |t|..]
    ensures AllSpace(s[..i]) && AllSpace(s[i + |t|..])
  {
    assert s[i..] == s[i..i + |t|] + s[i + |t|..];
    assert s == s[..i] + s[i..];
  }

  lemma AllSpaceConcat(x: string, y: string)
    requires AllSpace(x) && AllSpace(y)
    ensures AllSpace(x + y)
  {
    assert forall k :: |x| <= k < |x + y| ==> (x + y)[k] == y[k - |x|];
  }

  predicate StartsWith(s: string, prefix: string)
  {
    |prefix| <= |s| && s[..|prefix|] == prefix
  }

  /** The lower-case form of an ASCII capital; every other character is
      its own lower-case form. */
  function LowerChar(c: char): (d: char)
    ensures 'A' <= c <= 'Z' ==> d as int == c as int + 32
    ensures !('A' <= c <= 'Z') ==> d == c
  {
    if 'A' <= c <= 'Z' then (c as int + 32) as char else c
  }

  /** Lower-cases the ASCII letters of `s`, character by character. */
  function Lower(s: string): (r: string)
    ensures |r| == |s|
    ensures forall i :: 0 <= i < |s| ==> r[i] == LowerChar(s[i])
  {
    if s == [] then [] else [LowerChar(s[0])] + Lower(s[1..])
  }
}
