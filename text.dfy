/** Character-level string operations used by the loader: Python's notion of
    whitespace, `str.strip()` and the lower-casing applied to a path suffix. */
module Text {

  /** Python's `str.isspace` for one character: the ASCII controls TAB..CR,
      the separators 0x1C..0x1F, SPACE, NEL, NBSP and the Unicode space
      separators and line/paragraph separators. */
  predicate IsSpace(c: char) {
    var n := c as int;
    (9 <= n <= 13) || (28 <= n <= 32) || n == 0x85 || n == 0xA0 || n == 0x1680
    || (0x2000 <= n <= 0x200A) || n == 0x2028 || n == 0x2029 || n == 0x202F
    || n == 0x205F || n == 0x3000
  }

  /** Removes leading whitespace. */
  function TrimStart(s: string): string
    decreases |s|
  {
    if s != [] && IsSpace(s[0]) then TrimStart(s[1..]) else s
  }

  /** Removes trailing whitespace. */
  function TrimEnd(s: string): string
    decreases |s|
  {
    if s != [] && IsSpace(s[|s| - 1]) then TrimEnd(s[..|s| - 1]) else s
  }

  /** `TrimStart(s)` is a suffix of `s`, everything cut off is whitespace, and
      it does not start with whitespace. */
  lemma {:induction false} TrimStartMeaning(s: string)
    ensures var r := TrimStart(s);
      && |r| <= |s| && r == s[|s| - |r|..]
      && (forall k :: 0 <= k < |s| - |r| ==> IsSpace(s[k]))
      && (r == [] || !IsSpace(r[0]))
    decreases |s|
  {
    if s != [] && IsSpace(s[0]) {
      TrimStartMeaning(s[1..]);
    }
  }

  /** `TrimEnd(s)` is a prefix of `s`, everything cut off is whitespace, and
      it does not end with whitespace. */
  lemma {:induction false} TrimEndMeaning(s: string)
    ensures var r := TrimEnd(s);
      && |r| <= |s| && r == s[..|r|]
      && (forall k :: |r| <= k < |s| ==> IsSpace(s[k]))
      && (r == [] || !IsSpace(r[|r| - 1]))
    decreases |s|
  {
    if s != [] && IsSpace(s[|s| - 1]) {
      TrimEndMeaning(s[..|s| - 1]);
    }
  }

  /** Python's `str.strip()` with no argument. */
  function Strip(s: string): string {
    TrimEnd(TrimStart(s))
  }

  /** `Strip(s)` is the infix `s[i..i + |Strip(s)|]` left after cutting the
      whitespace prefix `s[..i]` and the whitespace suffix behind it, and it
      neither starts nor ends with whitespace. */
  lemma StripMeaning(s: string)
    ensures var r, i := Strip(s), |s| - |TrimStart(s)|;
      && 0 <= i <= i + |r| <= |s|
      && r == s[i..i + |r|]
      && (forall k :: 0 <= k < i ==> IsSpace(s[k]))
      && (forall k :: i + |r| <= k < |s| ==> IsSpace(s[k]))
      && (r == [] || (!IsSpace(r[0]) && !IsSpace(r[|r| - 1])))
  {
    var t := TrimStart(s);
    var r := TrimEnd(t);
    TrimStartMeaning(s);
    TrimEndMeaning(t);
    PrefixOfSuffix(s, t, r);
  }

  /** Cutting a whitespace tail off a suffix `t` of `s` leaves an infix of `s`
      followed by whitespace only. */
  lemma PrefixOfSuffix(s: string, t: string, r: string)
    requires |t| <= |s| && t == s[|s| - |t|..]
    requires |r| <= |t| && r == t[..|r|]
    requires forall k :: |r| <= k < |t| ==> IsSpace(t[k])
    ensures var i := |s| - |t|;
      && r == s[i..i + |r|]
      && (forall k :: i + |r| <= k < |s| ==> IsSpace(s[k]))
      && (r == [] || r[0] == t[0])
  {
    var i := |s| - |t|;
    assert t[..|r|] == s[i..i + |r|];
    forall k | i + |r| <= k < |s|
      ensures IsSpace(s[k])
    {
      assert s[k] == t[k - i];
    }
  }

  /** A string is left alone by `Strip` exactly when it has no whitespace at
      either end. */
  lemma StripFixpoint(s: string)
    ensures Strip(s) == s <==> (s == [] || (!IsSpace(s[0]) && !IsSpace(s[|s| - 1])))
  {
    StripMeaning(s);
    var r, i := Strip(s), |s| - |TrimStart(s)|;
    if s != [] && !IsSpace(s[0]) && !IsSpace(s[|s| - 1]) {
      var first, last := s[0], s[|s| - 1];
      assert 0 < i ==> IsSpace(first);
      assert i + |r| < |s| ==> IsSpace(last);
      assert r == s[..];
    }
  }

  /** Stripping twice is stripping once. */
  lemma StripIdempotent(s: string)
    ensures Strip(Strip(s)) == Strip(s)
  {
    StripMeaning(s);
    StripFixpoint(Strip(s));
  }

  /** ASCII lower-casing of one character. */
  function LowerChar(c: char): char {
    if 'A' <= c <= 'Z' then (c as int + 32) as char else c
  }

  /** `str.lower()` restricted to ASCII letters. */
  function LowerAscii(s: string): (r: string)
    ensures |r| == |s|
    ensures forall k :: 0 <= k < |s| ==> r[k] == LowerChar(s[k])
  {
    seq(|s|, k requires 0 <= k < |s| => LowerChar(s[k]))
  }
}
