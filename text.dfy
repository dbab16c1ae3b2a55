/**
 * The string operations the relay applies to client input:
 * `String.prototype.trim`, `substring(0, n)` and `toUpperCase`.
 * A `char` here is one Unicode scalar value; JavaScript counts UTF-16 code
 * units instead, which differs only outside the Basic Multilingual Plane.
 */
module Text {

  /** WhiteSpace and LineTerminator code points, the characters `trim` strips
      (section 22.1.3.32 with sections 12.2 and 12.3 of ECMA-262). */
  predicate IsSpace(ch: char) {
    || ch == '\t' || ch == '\n' || ch == '\U{000B}' || ch == '\U{000C}' || ch == '\r'
    || ch == ' ' || ch == '\U{00A0}' || ch == '\U{1680}'
    || ('\U{2000}' <= ch <= '\U{200A}')
    || ch == '\U{2028}' || ch == '\U{2029}' || ch == '\U{202F}' || ch == '\U{205F}'
    || ch == '\U{3000}' || ch == '\U{FEFF}'
  }

  predicate AllSpace(s: string) {
    forall k :: 0 <= k < |s| ==> IsSpace(s[k])
  }

  /** True when `s` neither starts nor ends with a space. */
  predicate Unpadded(s: string) {
    s == [] || (!IsSpace(s[0]) && !IsSpace(s[|s| - 1]))
  }

  /** `s` with its leading spaces removed. */
  function TrimStart(s: string): (r: string)
    ensures |r| <= |s|
  {
    if s != [] && IsSpace(s[0]) then TrimStart(s[1..]) else s
  }

  /** What `TrimStart` leaves is a suffix of `s` that does not start with a
      space, and everything it dropped is a space. */
  lemma {:induction false} TrimStartSpec(s: string)
    ensures var r := TrimStart(s);
      && r == s[|s| - |r|..] && AllSpace(s[..|s| - |r|]) && (r == [] || !IsSpace(r[0]))
  {
    if s != [] && IsSpace(s[0]) {
      TrimStartSpec(s[1..]);
      var r := TrimStart(s);
      assert s[..|s| - |r|] == [s[0]] + s[1..][..|s| - 1 - |r|];
    }
  }

  /** `s` with its trailing spaces removed. */
  function TrimEnd(s: string): (r: string)
    ensures |r| <= |s|
  {
    if s != [] && IsSpace(s[|s| - 1]) then TrimEnd(s[..|s| - 1]) else s
  }

  /** What `TrimEnd` leaves is a prefix of `s` that does not end with a
      space, and everything it dropped is a space. */
  lemma {:induction false} TrimEndSpec(s: string)
    ensures var r := TrimEnd(s);
      && r == s[..|r|] && AllSpace(s[|r|..]) && (r == [] || !IsSpace(r[|r| - 1]))
  {
    if s != [] && IsSpace(s[|s| - 1]) {
      var n := |s| - 1;
      TrimEndSpec(s[..n]);
      var r := TrimEnd(s);
      assert s[|r|..] == s[..n][|r|..] + [s[n]];
    }
  }

  /** `s.trim()`: leading and then trailing spaces removed. */
  function Trim(s: string): (r: string)
    ensures Unpadded(r) && |r| <= |s|
  {
    TrimStartSpec(s);
    TrimEndSpec(TrimStart(s));
    TrimEnd(TrimStart(s))
  }

  /** What `Trim` keeps is the unpadded middle of `s`; only spaces are
      dropped, on both sides. */
  lemma TrimIsMiddle(s: string)
    ensures var r := Trim(s);
      exists i :: 0 <= i <= |s| - |r| && r == s[i..i + |r|] && AllSpace(s[..i]) && AllSpace(s[i + |r|..])
  {
    var t := TrimStart(s);
    var r := TrimEnd(t);
    TrimStartSpec(s);
    TrimEndSpec(t);
    var i := |s| - |t|;
    assert r == s[i..i + |r|];
    assert s[i + |r|..] == t[|r|..];
  }

  /** `s.substring(0, n)`: the longest prefix of `s` with at most `n` characters. */
  function Truncate(s: string, n: nat): (r: string)
    ensures r <= s
    ensures |r| == if |s| < n then |s| else n
  {
    if |s| <= n then s else s[..n]
  }

  /** `toUpperCase` on one character: ASCII letters, and the two non-ASCII
      letters whose upper case is an ASCII letter (dotless i and long s). */
  function UpperChar(ch: char): (u: char)
    ensures 'a' <= ch <= 'z' ==> 'A' <= u <= 'Z' && u as int == ch as int - 32
    ensures ch == '\U{0131}' ==> u == 'I'
    ensures ch == '\U{017F}' ==> u == 'S'
    ensures !('a' <= ch <= 'z') && ch != '\U{0131}' && ch != '\U{017F}' ==> u == ch
  {
    if 'a' <= ch <= 'z' then (ch as int - 32) as char
    else if ch == '\U{0131}' then 'I'
    else if ch == '\U{017F}' then 'S'
    else ch
  }

  /** `toUpperCase` on a one-character string, for every character whose
      upper case is made of ASCII letters: sharp s and the Latin ligatures
      U+FB00 to U+FB06 expand to two or three letters, everything else is
      mapped by `UpperChar`. */
  function UpperOf(ch: char): (u: string)
    ensures 1 <= |u| <= 3
    ensures |u| == 1 ==> u == [UpperChar(ch)]
  {
    if ch == '\U{00DF}' then "SS"
    else if ch == '\U{FB00}' then "FF"
    else if ch == '\U{FB01}' then "FI"
    else if ch == '\U{FB02}' then "FL"
    else if ch == '\U{FB03}' then "FFI"
    else if ch == '\U{FB04}' then "FFL"
    else if ch == '\U{FB05}' || ch == '\U{FB06}' then "ST"
    else [UpperChar(ch)]
  }

  /** `s.toUpperCase()`: the upper case of each character, in order; a
      character can grow into up to three. */
  function ToUpper(s: string): (r: string)
    ensures |s| <= |r| <= 3 * |s|
  {
    if s == [] then [] else UpperOf(s[0]) + ToUpper(s[1..])
  }

  /** Upper-casing works character by character, so it distributes over
      concatenation. */
  lemma {:induction false} ToUpperAppend(a: string, b: string)
    ensures ToUpper(a + b) == ToUpper(a) + ToUpper(b)
  {
    if a == [] {
      assert a + b == b;
    } else {
      assert (a + b)[1..] == a[1..] + b;
      ToUpperAppend(a[1..], b);
    }
  }

  /** Where no character expands, `toUpperCase` keeps the length and maps
      each character by `UpperChar`. */
  lemma {:induction false} ToUpperCharwise(s: string)
    requires forall k :: 0 <= k < |s| ==> |UpperOf(s[k])| == 1
    ensures |ToUpper(s)| == |s|
    ensures forall k :: 0 <= k < |s| ==> ToUpper(s)[k] == UpperChar(s[k])
  {
    if s != [] {
      var t := s[1..];
      forall k | 0 <= k < |t|
        ensures |UpperOf(t[k])| == 1
      {
        assert t[k] == s[k + 1];
      }
      ToUpperCharwise(t);
      var h := UpperOf(s[0]);
      assert h == [UpperChar(s[0])];
      var r := ToUpper(s);
      assert r == h + ToUpper(t);
      forall k | 0 <= k < |s|
        ensures r[k] == UpperChar(s[k])
      {
        if k > 0 {
          assert r[k] == ToUpper(t)[k - 1];
          assert t[k - 1] == s[k];
        }
      }
    }
  }

  lemma {:induction false} TrimStartOfUnpadded(s: string)
    requires s == [] || !IsSpace(s[0])
    ensures TrimStart(s) == s
  {
  }

  lemma {:induction false} TrimEndOfUnpadded(s: string)
    requires s == [] || !IsSpace(s[|s| - 1])
    ensures TrimEnd(s) == s
  {
  }

  /** Trimming leaves an unpadded string alone, so `trim` is idempotent. */
  lemma TrimFixesUnpadded(s: string)
    requires Unpadded(s)
    ensures Trim(s) == s
  {
    TrimStartOfUnpadded(s);
    TrimEndOfUnpadded(s);
  }

  lemma TrimIdempotent(s: string)
    ensures Trim(Trim(s)) == Trim(s)
  {
    TrimFixesUnpadded(Trim(s));
  }

  /** `trim` yields the empty string exactly when the input is all spaces. */
  lemma TrimEmptyIffAllSpace(s: string)
    ensures Trim(s) == [] <==> AllSpace(s)
  {
    var r := Trim(s);
    TrimIsMiddle(s);
    var i :| 0 <= i <= |s| - |r| && r == s[i..i + |r|] && AllSpace(s[..i]) && AllSpace(s[i + |r|..]);
    if r == [] {
      assert s == s[..i] + s[i..];
    }
  }

  lemma {:induction false} TrimStartDropsSpaces(pre: string, rest: string)
    requires AllSpace(pre)
    requires rest == [] || !IsSpace(rest[0])
    ensures TrimStart(pre + rest) == rest
  {
    if pre == [] {
      assert pre + rest == rest;
      TrimStartOfUnpadded(rest);
    } else {
      assert (pre + rest)[1..] == pre[1..] + rest;
      TrimStartDropsSpaces(pre[1..], rest);
    }
  }

  lemma {:induction false} TrimEndDropsSpaces(rest: string, post: string)
    requires AllSpace(post)
    requires rest == [] || !IsSpace(rest[|rest| - 1])
    ensures TrimEnd(rest + post) == rest
  {
    if post == [] {
      assert rest + post == rest;
      TrimEndOfUnpadded(rest);
    } else {
      var n := |post| - 1;
      assert (rest + post)[..|rest + post| - 1] == rest + post[..n];
      TrimEndDropsSpaces(rest, post[..n]);
    }
  }

  /** Conversely, `trim` strips exactly the surrounding spaces: whatever
      unpadded, non-empty text is wrapped in spaces comes back out. */
  lemma TrimOfPadded(pre: string, mid: string, post: string)
    requires AllSpace(pre) && AllSpace(post)
    requires mid != [] && Unpadded(mid)
    ensures Trim(pre + mid + post) == mid
  {
    assert pre + mid + post == pre + (mid + post);
    TrimStartDropsSpaces(pre, mid + post);
    TrimEndDropsSpaces(mid, post);
  }
}
