/** Python's `str.strip()` with no arguments, as the catalog applies it to ISBNs. */
module Text {

  /** The characters Python's `str.isspace` accepts, which are exactly the
      ones `str.strip()` removes: the ASCII controls TAB to CR and FS to US,
      SPACE, NEL, NO-BREAK SPACE, and the Unicode space separators. */
  predicate IsSpace(c: char) {
    || ('\t' <= c <= '\r')
    || ('\U{1C}' <= c <= '\U{1F}')
    || c == ' '
    || c == '\U{85}'
    || c == '\U{A0}'
    || c == '\U{1680}'
    || ('\U{2000}' <= c <= '\U{200A}')
    || c == '\U{2028}'
    || c == '\U{2029}'
    || c == '\U{202F}'
    || c == '\U{205F}'
    || c == '\U{3000}'
  }

  predicate AllSpace(s: string) {
    forall k :: 0 <= k < |s| ==> IsSpace(s[k])
  }

  /** Neither end of `s` is whitespace. */
  predicate IsTrimmed(s: string) {
    |s| == 0 || (!IsSpace(s[0]) && !IsSpace(s[|s| - 1]))
  }

  /** `r` is the slice of `s` that starts at `i`, and everything of `s`
      outside that slice is whitespace. */
  predicate CutFrom(s: string, r: string, i: nat) {
    && i + |r| <= |s|
    && r == s[i..i + |r|]
    && AllSpace(s[..i])
    && AllSpace(s[i + |r|..])
  }

  function TrimStart(s: string): (r: string)
    ensures |r| <= |s| && r == s[|s| - |r|..]
    ensures AllSpace(s[..|s| - |r|])
    ensures |r| > 0 ==> !IsSpace(r[0])
    decreases |s|
  {
    if |s| > 0 && IsSpace(s[0]) then TrimStart(s[1..]) else s
  }

  function TrimEnd(s: string): (r: string)
    ensures |r| <= |s| && r == s[..|r|]
    ensures AllSpace(s[|r|..])
    ensures |r| > 0 ==> !IsSpace(r[|r| - 1])
    decreases |s|
  {
    if |s| > 0 && IsSpace(s[|s| - 1]) then TrimEnd(s[..|s| - 1]) else s
  }

  /** `s.strip()`: the result has no whitespace at either end and is a
      slice of `s` with only whitespace cut away. */
  function Trim(s: string): (r: string)
    ensures IsTrimmed(r)
    ensures CutFrom(s, r, |s| - |TrimStart(s)|)
  {
    TrimBothEnds(s, TrimStart(s), TrimEnd(TrimStart(s)));
    TrimEnd(TrimStart(s))
  }

  /** Cutting leading whitespace and then trailing whitespace off what is
      left is one cut of `s`: the two cuts compose. */
  lemma CutsCompose(s: string, m: string, r: string, i: nat)
    requires i <= |s| && m == s[i..] && AllSpace(s[..i])
    requires |r| <= |m| && r == m[..|r|] && AllSpace(m[|r|..])
    ensures CutFrom(s, r, i)
  {
    assert r == s[i..i + |r|];
    var tail := s[i + |r|..];
    assert tail == m[|r|..];
  }

  /** What the two one-sided strips leave is trimmed and a cut of `s`. */
  lemma TrimBothEnds(s: string, m: string, r: string)
    requires |m| <= |s| && m == s[|s| - |m|..] && AllSpace(s[..|s| - |m|])
    requires |m| > 0 ==> !IsSpace(m[0])
    requires |r| <= |m| && r == m[..|r|] && AllSpace(m[|r|..])
    requires |r| > 0 ==> !IsSpace(r[|r| - 1])
    ensures IsTrimmed(r) && CutFrom(s, r, |s| - |m|)
  {
    CutsCompose(s, m, r, |s| - |m|);
    if |r| > 0 {
      assert r[0] == m[0];
    }
  }

  /** A string without whitespace at its ends is its own strip. */
  lemma TrimOfTrimmed(s: string)
    requires IsTrimmed(s)
    ensures Trim(s) == s
  {
  }

  /** Stripping twice is stripping once, so the repeated `.strip()` calls of
      the record conversions change nothing. */
  lemma TrimIdempotent(s: string)
    ensures Trim(Trim(s)) == Trim(s)
  {
    TrimOfTrimmed(Trim(s));
  }

  /** What `CutFrom` says, position by position. */
  lemma CutFromAt(s: string, r: string, i: nat)
    requires CutFrom(s, r, i)
    ensures forall k :: 0 <= k < i ==> IsSpace(s[k])
    ensures forall k :: i + |r| <= k < |s| ==> IsSpace(s[k])
    ensures forall k :: 0 <= k < |r| ==> r[k] == s[i + k]
  {
    assert forall k :: 0 <= k < i ==> s[k] == s[..i][k];
    assert forall k :: i + |r| <= k < |s| ==> s[k] == s[i + |r|..][k - i - |r|];
  }

  /** `Trim` is the only function meeting its contract: any trimmed slice of
      `s` that cuts away only whitespace is `Trim(s)`. */
  lemma TrimUnique(s: string, r: string, i: nat)
    requires IsTrimmed(r) && CutFrom(s, r, i)
    ensures r == Trim(s)
  {
    var t := Trim(s);
    var i' := |s| - |TrimStart(s)|;
    CutFromAt(s, r, i);
    CutFromAt(s, t, i');
    // The first and last characters of a non-empty trimmed cut are the
    // only non-whitespace candidates, which fixes where each cut starts
    // and ends.
    assert |r| > 0 ==> !IsSpace(s[i]) && !IsSpace(s[i + |r| - 1]);
    assert |t| > 0 ==> !IsSpace(s[i']) && !IsSpace(s[i' + |t| - 1]);
    assert |r| == 0 <==> |t| == 0;
    if |r| > 0 {
      assert i == i';
      assert |r| == |t|;
      assert forall k :: 0 <= k < |r| ==> r[k] == t[k];
    }
  }
}
