/**
 * The parts of java.lang.String that the startup resolver relies on:
 * `trim()`, ASCII case mapping (`toLowerCase(Locale.US)`) and
 * `equalsIgnoreCase`. A Java string is modelled as a sequence of chars.
 */
module JavaText {

  /** The criterion of `String.trim()`: every char at or below U+0020 is stripped. */
  predicate IsTrimmable(c: char) {
    c <= ' '
  }

  predicate AllTrimmable(s: string) {
    forall k :: 0 <= k < |s| ==> IsTrimmable(s[k])
  }

  /** Strips trimmable chars from the front: the first half of `trim()`. */
  function TrimLeading(s: string): (r: string)
    ensures |r| <= |s| && r == s[|s| - |r|..]
    ensures r == [] || !IsTrimmable(r[0])
    ensures AllTrimmable(s[..|s| - |r|])
  {
    if s != [] && IsTrimmable(s[0]) then TrimLeading(s[1..]) else s
  }

  /** Strips trimmable chars from the back: the second half of `trim()`. */
  function TrimTrailing(s: string): (r: string)
    ensures |r| <= |s| && r == s[..|r|]
    ensures r == [] || !IsTrimmable(r[|r| - 1])
    ensures AllTrimmable(s[|r|..])
  {
    if s != [] && IsTrimmable(s[|s| - 1]) then
      var r := TrimTrailing(s[..|s| - 1]);
      assert s[|r|..] == s[..|s| - 1][|r|..] + [s[|s| - 1]];
      r
    else
      s
  }

  /** `String.trim()`. */
  function Trim(s: string): (r: string)
    ensures |r| <= |s|
    ensures r == [] <==> AllTrimmable(s)
    ensures r != [] ==> !IsTrimmable(r[0]) && !IsTrimmable(r[|r| - 1])
  {
    var front := TrimLeading(s);
    var r := TrimTrailing(front);
    assert r == [] ==> AllTrimmable(s) by {
      if r == [] {
        assert s == s[..|s| - |front|] + front;
        assert front == front[|r|..];
      }
    }
    r
  }

  /** The trimmed string is a slice of the input with only trimmable chars cut off either side. */
  lemma TrimSlice(s: string) returns (i: nat, j: nat)
    ensures i <= j <= |s| && Trim(s) == s[i..j]
    ensures AllTrimmable(s[..i]) && AllTrimmable(s[j..])
  {
    var front := TrimLeading(s);
    var r := TrimTrailing(front);
    assert Trim(s) == r;
    i := |s| - |front|;
    j := i + |r|;
    assert front == s[i..];
    assert r == front[..|r|] == s[i..j];
    assert front[|r|..] == s[j..];
  }

  lemma {:induction false} TrimLeadingPadded(pre: string, t: string)
    requires AllTrimmable(pre)
    requires t != [] && !IsTrimmable(t[0])
    ensures TrimLeading(pre + t) == t
  {
    if pre != [] {
      assert (pre + t)[1..] == pre[1..] + t;
      TrimLeadingPadded(pre[1..], t);
    }
  }

  lemma {:induction false} TrimTrailingPadded(t: string, post: string)
    requires AllTrimmable(post)
    requires t != [] && !IsTrimmable(t[|t| - 1])
    ensures TrimTrailing(t + post) == t
  {
    if post != [] {
      var s := t + post;
      assert s[..|s| - 1] == t + post[..|post| - 1];
      TrimTrailingPadded(t, post[..|post| - 1]);
    }
  }

  /**
   * Uniqueness of `trim()`: padding a string whose ends are not trimmable
   * with trimmable chars on both sides is undone exactly by `trim()`.
   */
  lemma TrimOfPadded(pre: string, t: string, post: string)
    requires AllTrimmable(pre) && AllTrimmable(post)
    requires t != [] && !IsTrimmable(t[0]) && !IsTrimmable(t[|t| - 1])
    ensures Trim(pre + t + post) == t
  {
    assert pre + t + post == pre + (t + post);
    TrimLeadingPadded(pre, t + post);
    TrimTrailingPadded(t, post);
  }

  /** `trim()` is idempotent. */
  lemma TrimIdempotent(s: string)
    ensures Trim(Trim(s)) == Trim(s)
  {
    var r := Trim(s);
    if r != [] {
      assert r == [] + r + [];
      TrimOfPadded([], r, []);
    }
  }

  /** `Character.toLowerCase` restricted to ASCII: only 'A'..'Z' change. */
  function ToLowerChar(c: char): char {
    if 'A' <= c <= 'Z' then (c as int + 32) as char else c
  }

  /** `Character.toUpperCase` restricted to ASCII: only 'a'..'z' change. */
  function ToUpperChar(c: char): char {
    if 'a' <= c <= 'z' then (c as int - 32) as char else c
  }

  predicate IsUpperAscii(c: char) {
    'A' <= c <= 'Z'
  }

  /** `String.toLowerCase(Locale.US)` restricted to ASCII. */
  function ToLower(s: string): (r: string)
    ensures |r| == |s|
    ensures forall i :: 0 <= i < |s| ==> r[i] == ToLowerChar(s[i])
    ensures forall i :: 0 <= i < |r| ==> !IsUpperAscii(r[i])
  {
    if s == [] then [] else [ToLowerChar(s[0])] + ToLower(s[1..])
  }

  /** Lower-casing twice is lower-casing once. */
  lemma ToLowerIdempotent(s: string)
    ensures ToLower(ToLower(s)) == ToLower(s)
  {
    var r := ToLower(s);
    assert forall i :: 0 <= i < |r| ==> ToLower(r)[i] == r[i];
  }

  /**
   * One step of `String.regionMatches(true, ...)`, which `equalsIgnoreCase`
   * applies to every position: equal, equal after upper-casing, or equal
   * after upper- then lower-casing.
   */
  predicate CharsEqualIgnoreCase(c1: char, c2: char): (r: bool)
    ensures r <==> ToLowerChar(c1) == ToLowerChar(c2)
  {
    || c1 == c2
    || ToUpperChar(c1) == ToUpperChar(c2)
    || ToLowerChar(ToUpperChar(c1)) == ToLowerChar(ToUpperChar(c2))
  }

  /** `String.equalsIgnoreCase`: same length and every position matches ignoring case. */
  predicate EqualsIgnoreCase(a: string, b: string): (r: bool)
    ensures a == b ==> r
    ensures r ==> |a| == |b|
    ensures r <==> |a| == |b| && forall i :: 0 <= i < |a| ==> ToLowerChar(a[i]) == ToLowerChar(b[i])
  {
    |a| == |b| && forall i :: 0 <= i < |a| ==> CharsEqualIgnoreCase(a[i], b[i])
  }

  /** Over ASCII, `equalsIgnoreCase` is equality of the lower-cased strings. */
  lemma EqualsIgnoreCaseIff(a: string, b: string)
    ensures EqualsIgnoreCase(a, b) <==> ToLower(a) == ToLower(b)
  {
    if ToLower(a) == ToLower(b) {
      forall i | 0 <= i < |a|
        ensures CharsEqualIgnoreCase(a[i], b[i])
      {
        assert ToLower(a)[i] == ToLower(b)[i];
      }
    }
    if EqualsIgnoreCase(a, b) {
      forall i | 0 <= i < |a|
        ensures ToLower(a)[i] == ToLower(b)[i]
      {
        assert CharsEqualIgnoreCase(a[i], b[i]);
      }
    }
  }
}
