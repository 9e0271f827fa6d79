/**
 * The JavaScript string operations the page relies on, over `seq<char>`:
 * `includes`, `trim`, `toLowerCase`, and concatenation of a list of parts.
 */
module Strings {

  /** `pat` occurs in `s` starting at index `i`. */
  predicate OccursAt(s: string, pat: string, i: nat) {
    i + |pat| <= |s| && s[i..i + |pat|] == pat
  }

  /** `s.includes(pat)`: some occurrence of `pat` in `s` (always true for an empty `pat`). */
  predicate Contains(s: string, pat: string) {
    exists i :: 0 <= i <= |s| - |pat| && OccursAt(s, pat, i)
  }

  /** A string that contains `pat` holds the first character of `pat`. */
  lemma ContainsHasFirstChar(s: string, pat: string)
    requires |pat| > 0 && Contains(s, pat)
    ensures pat[0] in s
  {
    var i :| 0 <= i <= |s| - |pat| && OccursAt(s, pat, i);
    assert s[i..i + |pat|][0] == s[i];
  }

  /**
   * The characters JavaScript skips in `trim` and `parseInt`: WhiteSpace and
   * LineTerminator of ECMAScript 2023 sections 12.2 and 12.3, with the Unicode
   * "Zs" category written out (Unicode 15).
   */
  predicate IsJsSpace(c: char) {
    || c == '\t' || c == '\n' || c == '\U{000B}' || c == '\U{000C}' || c == '\r'
    || c == ' ' || c == '\U{00A0}' || c == '\U{1680}'
    || ('\U{2000}' <= c <= '\U{200A}')
    || c == '\U{2028}' || c == '\U{2029}' || c == '\U{202F}' || c == '\U{205F}'
    || c == '\U{3000}' || c == '\U{FEFF}'
  }

  predicate AllSpace(s: string) {
    forall i :: 0 <= i < |s| ==> IsJsSpace(s[i])
  }

  /** `s.trimStart()`: the suffix of `s` after its leading whitespace. */
  function TrimStart(s: string): (r: string)
    ensures |r| <= |s| && r == s[|s| - |r|..]
    ensures AllSpace(s[..|s| - |r|])
    ensures r == [] || !IsJsSpace(r[0])
  {
    if |s| > 0 && IsJsSpace(s[0]) then
      var r := TrimStart(s[1..]);
      assert s[..|s| - |r|] == [s[0]] + s[1..][..|s| - 1 - |r|];
      r
    else
      s
  }

  /** `s.trimEnd()`: the prefix of `s` before its trailing whitespace. */
  function TrimEnd(s: string): (r: string)
    ensures |r| <= |s| && r == s[..|r|]
    ensures AllSpace(s[|r|..])
    ensures r == [] || !IsJsSpace(r[|r| - 1])
  {
    if |s| > 0 && IsJsSpace(s[|s| - 1]) then
      var r := TrimEnd(s[..|s| - 1]);
      assert s[|r|..] == s[..|s| - 1][|r|..] + [s[|s| - 1]];
      r
    else
      s
  }

  /**
   * `r` is `s` with everything before index `a` and after `a + |r|` removed,
   * the removed characters are all whitespace and `r` neither starts nor ends
   * with whitespace.
   */
  predicate TrimmedAt(s: string, r: string, a: nat) {
    && a + |r| <= |s|
    && s[a..a + |r|] == r
    && AllSpace(s[..a])
    && AllSpace(s[a + |r|..])
    && (r == [] || (!IsJsSpace(r[0]) && !IsJsSpace(r[|r| - 1])))
  }

  /** `s.trim()`: whitespace removed from both ends. */
  function Trim(s: string): string {
    TrimEnd(TrimStart(s))
  }

  /** What `trim` keeps is a slice of `s` with only whitespace cut away on either side. */
  lemma TrimIsTrimmed(s: string)
    ensures exists a :: TrimmedAt(s, Trim(s), a)
  {
    var t := TrimStart(s);
    TrimmedOfParts(s, t, TrimEnd(t));
    assert TrimmedAt(s, Trim(s), |s| - |t|);
  }

  /** The two halves of `trim`, by their contracts alone. */
  lemma TrimmedOfParts(s: string, t: string, r: string)
    requires |t| <= |s| && t == s[|s| - |t|..]
    requires AllSpace(s[..|s| - |t|])
    requires t == [] || !IsJsSpace(t[0])
    requires |r| <= |t| && r == t[..|r|]
    requires AllSpace(t[|r|..])
    requires r == [] || !IsJsSpace(r[|r| - 1])
    ensures TrimmedAt(s, r, |s| - |t|)
  {
    var a := |s| - |t|;
    assert s[a..a + |r|] == r by {
      assert s[a..a + |r|] == s[a..][..|r|];
    }
    assert s[a + |r|..] == t[|r|..];
    if r != [] {
      assert r[0] == t[0];
    }
  }

  /** A string with no whitespace at either end is its own trim. */
  lemma TrimOfUnpadded(s: string)
    requires |s| > 0 ==> !IsJsSpace(s[0]) && !IsJsSpace(s[|s| - 1])
    ensures Trim(s) == s
  {
    assert TrimStart(s) == s;
  }

  /** Leading whitespace does not survive `trim`. */
  lemma TrimDropsLeadingSpace(c: char, s: string)
    requires IsJsSpace(c)
    ensures Trim([c] + s) == Trim(s)
  {
    assert ([c] + s)[1..] == s;
  }

  /** One whitespace character before an unpadded string is all `trim` removes. */
  lemma TrimOneLeadingSpace(c: char, s: string)
    requires IsJsSpace(c) && |s| > 0 && !IsJsSpace(s[0]) && !IsJsSpace(s[|s| - 1])
    ensures Trim([c] + s) == s
  {
    TrimDropsLeadingSpace(c, s);
    TrimOfUnpadded(s);
  }

  /** A pattern without whitespace. */
  predicate Solid(pat: string) {
    |pat| > 0 && forall k :: 0 <= k < |pat| ==> !IsJsSpace(pat[k])
  }

  /** An occurrence inside a slice is an occurrence in the whole string. */
  lemma OccursInSlice(s: string, r: string, a: nat, pat: string)
    requires a + |r| <= |s| && s[a..a + |r|] == r
    requires Contains(r, pat)
    ensures Contains(s, pat)
  {
    var i :| 0 <= i <= |r| - |pat| && OccursAt(r, pat, i);
    forall k | 0 <= k < |pat|
      ensures s[a + i + k] == pat[k]
    {
      assert r[i + k] == s[a + i + k];
      assert r[i..i + |pat|][k] == r[i + k];
    }
    assert s[a + i..a + i + |pat|] == pat;
    assert OccursAt(s, pat, a + i);
  }

  /** An occurrence of a solid pattern in `s` lies inside the trimmed slice. */
  lemma SolidOccursInTrimmed(s: string, r: string, a: nat, pat: string, i: nat)
    requires TrimmedAt(s, r, a) && Solid(pat) && OccursAt(s, pat, i)
    ensures Contains(r, pat)
  {
    assert s[i] == pat[0];
    assert s[i + |pat| - 1] == pat[|pat| - 1];
    assert a <= i && i + |pat| <= a + |r|;
    forall k | 0 <= k < |pat|
      ensures r[i - a + k] == pat[k]
    {
      assert r[i - a + k] == s[i + k];
      assert s[i..i + |pat|][k] == s[i + k];
    }
    assert r[i - a..i - a + |pat|] == pat;
    assert OccursAt(r, pat, i - a);
  }

  /**
   * Trimming never cuts into an occurrence of a pattern that holds no
   * whitespace, so `Trim(s)` contains such a pattern exactly when `s` does.
   */
  lemma TrimKeepsSolidPattern(s: string, pat: string)
    requires Solid(pat)
    ensures Contains(Trim(s), pat) <==> Contains(s, pat)
  {
    var r := Trim(s);
    TrimIsTrimmed(s);
    var a: nat :| TrimmedAt(s, r, a);
    if Contains(r, pat) {
      OccursInSlice(s, r, a, pat);
    }
    if Contains(s, pat) {
      var i :| 0 <= i <= |s| - |pat| && OccursAt(s, pat, i);
      SolidOccursInTrimmed(s, r, a, pat, i);
    }
  }

  /** ASCII `toLowerCase` of one character. */
  function LowerChar(c: char): (l: char)
    ensures 'A' <= c <= 'Z' ==> 'a' <= l <= 'z' && l as int - c as int == 32
    ensures !('A' <= c <= 'Z') ==> l == c
  {
    if 'A' <= c <= 'Z' then (c as int + 32) as char else c
  }

  /** `s.toLowerCase()`, restricted to the ASCII letters. */
  function ToLower(s: string): (r: string)
    ensures |r| == |s|
    ensures forall i :: 0 <= i < |s| ==> r[i] == LowerChar(s[i])
  {
    seq(|s|, i requires 0 <= i < |s| => LowerChar(s[i]))
  }

  /** The parts written one after another, as `parts.join('')` and as JSX renders them. */
  function Concat(parts: seq<string>): string {
    if |parts| == 0 then "" else parts[0] + Concat(parts[1..])
  }

  /** `parts.join(sep)`. */
  function JoinWith(parts: seq<string>, sep: string): string {
    if |parts| == 0 then ""
    else if |parts| == 1 then parts[0]
    else parts[0] + sep + JoinWith(parts[1..], sep)
  }
}
