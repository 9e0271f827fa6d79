/**
 * The author line of a publication: `authors.split(/(S\. Liang\*?|梁爽\*?)/g)`
 * followed by bolding. Because the pattern has a capturing group, the split
 * keeps every matched name (with its corresponding-author `*`, when present)
 * as its own part between the plain stretches. The split follows the
 * `RegExp.prototype[@@split]` loop of section 22.2.6.14 of ECMAScript 2023,
 * with the regular expression replaced by its four literal alternatives.
 */
module AuthorSplit {
  import opened Wrappers
  import opened Strings
  import opened Rendering

  /** The four strings the pattern can match. */
  predicate IsNameToken(t: string) {
    t == LatinName || t == LatinName + "*" || t == HanName || t == HanName + "*"
  }

  /** Neither spelling of the name occurs in `t`. */
  predicate NameFree(t: string) {
    !Contains(t, LatinName) && !Contains(t, HanName)
  }

  /** No match of the pattern starts before `q`. */
  predicate NoMatchBefore(s: string, q: nat) {
    forall j :: 0 <= j < q ==> !OccursAt(s, LatinName, j) && !OccursAt(s, HanName, j)
  }

  /**
   * The length of the match of the pattern starting exactly at `q`, if any.
   * The Latin alternative is tried first, and `\*?` takes the star when it is there.
   */
  function MatchAt(s: string, q: nat): (m: Option<nat>)
    ensures m.Some? ==> q + m.value <= |s| && IsNameToken(s[q..q + m.value])
    ensures m.None? ==> !OccursAt(s, LatinName, q) && !OccursAt(s, HanName, q)
  {
    if OccursAt(s, LatinName + "*", q) then Some(9)
    else if OccursAt(s, LatinName, q) then Some(8)
    else if OccursAt(s, HanName + "*", q) then Some(3)
    else if OccursAt(s, HanName, q) then Some(2)
    else None
  }

  /**
   * The split loop over `s`, the text after the previous match, with every
   * position before `q` already tried: at `q` a match cuts off the plain text
   * before it and the name itself; otherwise the search moves one character on.
   */
  function SplitFrom(s: string, q: nat): seq<string>
    requires q <= |s|
    decreases |s|, |s| - q
  {
    if q == |s| then [s]
    else
      match MatchAt(s, q)
      case None => SplitFrom(s, q + 1)
      case Some(n) => [s[..q], s[q..q + n]] + SplitFrom(s[q + n..], 0)
  }

  /**
   * The shape of the split: plain parts at even indices, names at odd ones,
   * no name left inside a plain part, and a bare name never followed by a
   * `*` it failed to take.
   */
  predicate WellSplit(parts: seq<string>) {
    && |parts| % 2 == 1
    && (forall i :: 0 <= i < |parts| && i % 2 == 1 ==> IsNameToken(parts[i]))
    && (forall i :: 0 <= i < |parts| && i % 2 == 0 ==> NameFree(parts[i]))
    && (forall i :: 0 <= i < |parts| - 1 && (parts[i] == LatinName || parts[i] == HanName) ==>
          !(|parts[i + 1]| > 0 && parts[i + 1][0] == '*'))
  }

  lemma ConcatHead(parts: seq<string>)
    requires |parts| > 0
    ensures |parts[0]| <= |Concat(parts)| && Concat(parts)[..|parts[0]|] == parts[0]
  {
  }

  /** An occurrence in a prefix is an occurrence in the whole. */
  lemma OccursInPrefix(s: string, q: nat, pat: string, j: nat)
    requires q <= |s| && OccursAt(s[..q], pat, j)
    ensures OccursAt(s, pat, j)
  {
    assert s[j..j + |pat|] == s[..q][j..j + |pat|];
  }

  /** Text in which no match starts is free of the name. */
  lemma NoMatchMeansNameFree(s: string, q: nat)
    requires q <= |s|
    requires NoMatchBefore(s, q)
    ensures NameFree(s[..q])
  {
    if Contains(s[..q], LatinName) {
      var j: nat :| j <= q - |LatinName| && OccursAt(s[..q], LatinName, j);
      OccursInPrefix(s, q, LatinName, j);
    }
    if Contains(s[..q], HanName) {
      var j: nat :| j <= q - |HanName| && OccursAt(s[..q], HanName, j);
      OccursInPrefix(s, q, HanName, j);
    }
  }

  /** Putting a plain part and a name in front of a well-formed split. */
  lemma WellSplitCons(a: string, b: string, rest: seq<string>)
    requires NameFree(a) && IsNameToken(b) && WellSplit(rest)
    requires (b == LatinName || b == HanName) ==> !(|rest[0]| > 0 && rest[0][0] == '*')
    ensures WellSplit([a, b] + rest)
  {
    var parts := [a, b] + rest;
    forall i | 2 <= i < |parts|
      ensures parts[i] == rest[i - 2]
    {
    }
  }

  /** The loop's result is a well-formed split of `s` that concatenates back to `s`. */
  lemma {:induction false} SplitFromIsWellSplit(s: string, q: nat)
    requires q <= |s|
    requires NoMatchBefore(s, q)
    ensures WellSplit(SplitFrom(s, q)) && Concat(SplitFrom(s, q)) == s
    decreases |s|, |s| - q
  {
    if q == |s| {
      NoMatchMeansNameFree(s, q);
      assert s[..q] == s;
    } else if MatchAt(s, q).None? {
      SplitFromIsWellSplit(s, q + 1);
    } else {
      var n := MatchAt(s, q).value;
      SplitFromIsWellSplit(s[q + n..], 0);
      SplitAtMatch(s, q, n);
    }
  }

  /** The loop body at a match. */
  lemma UnfoldAtMatch(s: string, q: nat, n: nat)
    requires q < |s| && MatchAt(s, q) == Some(n)
    ensures SplitFrom(s, q) == [s[..q], s[q..q + n]] + SplitFrom(s[q + n..], 0)
  {
    assert q != |s| && q + n <= |s|;
  }

  /** The author line is the plain text, the name and the rest, in order. */
  lemma SliceThree(s: string, q: nat, n: nat)
    requires q + n <= |s|
    ensures s[..q] + s[q..q + n] + s[q + n..] == s
  {
    assert s == s[..q] + s[q..];
    assert s[q..] == s[q..q + n] + s[q + n..];
  }

  /** The step at a match: plain text, the name, then the split of what follows. */
  lemma SplitAtMatch(s: string, q: nat, n: nat)
    requires q < |s| && MatchAt(s, q) == Some(n)
    requires NoMatchBefore(s, q)
    requires WellSplit(SplitFrom(s[q + n..], 0)) && Concat(SplitFrom(s[q + n..], 0)) == s[q + n..]
    ensures WellSplit(SplitFrom(s, q)) && Concat(SplitFrom(s, q)) == s
  {
    var a, b, t := s[..q], s[q..q + n], s[q + n..];
    var rest := SplitFrom(t, 0);
    UnfoldAtMatch(s, q, n);
    NoMatchMeansNameFree(s, q);
    NextPartHasNoStar(s, q, n);
    WellSplitCons(a, b, rest);
    ConcatCons(a, b, rest);
    SliceThree(s, q, n);
  }

  /** After a bare name, the next plain part does not start with `*`. */
  lemma NextPartHasNoStar(s: string, q: nat, n: nat)
    requires q < |s| && MatchAt(s, q) == Some(n)
    requires Concat(SplitFrom(s[q + n..], 0)) == s[q + n..]
    ensures var rest := SplitFrom(s[q + n..], 0);
      (s[q..q + n] == LatinName || s[q..q + n] == HanName) ==> !(|rest[0]| > 0 && rest[0][0] == '*')
  {
    var t := s[q + n..];
    var rest := SplitFrom(t, 0);
    if (s[q..q + n] == LatinName || s[q..q + n] == HanName) && |rest[0]| > 0 {
      ConcatHead(rest);
      assert rest[0][0] == t[0] == s[q + n];
      GreedyStar(s, q, n);
    }
  }

  lemma ConcatCons(a: string, b: string, rest: seq<string>)
    ensures Concat([a, b] + rest) == a + b + Concat(rest)
  {
    assert ([a, b] + rest)[1..] == [b] + rest;
    assert ([b] + rest)[1..] == rest;
  }

  /** A bare name was matched only because no `*` follows it. */
  lemma GreedyStar(s: string, q: nat, n: nat)
    requires MatchAt(s, q) == Some(n)
    requires s[q..q + n] == LatinName || s[q..q + n] == HanName
    requires q + n < |s|
    ensures s[q + n] != '*'
  {
    assert s[q..q + n + 1] == s[q..q + n] + [s[q + n]];
  }

  /** A plain part cannot be a name: every name contains one of the spellings. */
  lemma NameFreeIsNoToken(t: string)
    requires NameFree(t)
    ensures !IsNameToken(t)
  {
    assert IsNameToken(t) ==> OccursAt(t, LatinName, 0) || OccursAt(t, HanName, 0);
  }

  /**
   * `authors.split(...)`: an odd number of parts that concatenate back to the
   * author line, the matched names (star included) at odd indices, and plain
   * text free of the name at even indices.
   */
  function SplitAuthors(authors: string): (parts: seq<string>)
    ensures WellSplit(parts)
    ensures Concat(parts) == authors
  {
    SplitFromIsWellSplit(authors, 0);
    SplitFrom(authors, 0)
  }

  /**
   * The rendering as written: a part is bold when it includes `Liang` or
   * `梁爽`. Every matched name is bold and the text is the author line, but a
   * plain part is bold too when it mentions some other Liang.
   */
  function AuthorSpans(authors: string): (spans: seq<Span>)
    ensures Texts(spans) == SplitAuthors(authors)
    ensures Concat(Texts(spans)) == authors
    ensures forall i :: 0 <= i < |spans| ==>
      (spans[i].bold <==> Contains(spans[i].text, "Liang") || Contains(spans[i].text, HanName))
    ensures forall i :: 0 <= i < |spans| && IsNameToken(spans[i].text) ==> spans[i].bold
  {
    var parts := SplitAuthors(authors);
    var spans := seq(|parts|, i requires 0 <= i < |parts| =>
      Span(parts[i], Contains(parts[i], "Liang") || Contains(parts[i], HanName)));
    assert Texts(spans) == parts;
    forall i | 0 <= i < |spans| && IsNameToken(spans[i].text)
      ensures spans[i].bold
    {
      if spans[i].text == LatinName || spans[i].text == LatinName + "*" {
        assert OccursAt(parts[i], "Liang", 3);
      } else {
        assert OccursAt(parts[i], HanName, 0);
      }
    }
    spans
  }

  /**
   * The rendering as evidently intended: exactly the matched names are bold.
   * A plain part can never be a name, since it holds no occurrence of one.
   */
  function AuthorSpansIntended(authors: string): (spans: seq<Span>)
    ensures Texts(spans) == SplitAuthors(authors)
    ensures Concat(Texts(spans)) == authors
    ensures forall i :: 0 <= i < |spans| ==> (spans[i].bold <==> IsNameToken(spans[i].text))
  {
    var parts := SplitAuthors(authors);
    var spans := seq(|parts|, i requires 0 <= i < |parts| => Span(parts[i], i % 2 == 1));
    assert Texts(spans) == parts;
    forall i | 0 <= i < |spans| && i % 2 == 0
      ensures !IsNameToken(parts[i])
    {
      NameFreeIsNoToken(parts[i]);
    }
    spans
  }

  /**
   * The two renderings show the same parts; the corrected one bolds a subset
   * of what the page bolds, and they differ only on plain parts that mention
   * some other Liang.
   */
  lemma AsWrittenBoldsMore(authors: string)
    ensures Texts(AuthorSpans(authors)) == Texts(AuthorSpansIntended(authors))
    ensures forall i :: 0 <= i < |AuthorSpans(authors)| ==>
      (AuthorSpansIntended(authors)[i].bold ==> AuthorSpans(authors)[i].bold)
    ensures forall i :: 0 <= i < |AuthorSpans(authors)| ==>
      (AuthorSpans(authors)[i].bold && !AuthorSpansIntended(authors)[i].bold ==>
         i % 2 == 0 && Contains(SplitAuthors(authors)[i], "Liang"))
  {
    var w, c, parts := AuthorSpans(authors), AuthorSpansIntended(authors), SplitAuthors(authors);
    forall i | 0 <= i < |w| && w[i].bold && !c[i].bold
      ensures i % 2 == 0 && Contains(parts[i], "Liang")
    {
      assert w[i].text == parts[i] && c[i].text == parts[i];
    }
  }

  /** An occurrence of a longer pattern is one of its prefix. */
  lemma OccursOfPrefix(s: string, pat: string, c: char, q: nat)
    requires OccursAt(s, pat + [c], q)
    ensures OccursAt(s, pat, q)
  {
    assert s[q..q + |pat|] == s[q..q + |pat| + 1][..|pat|];
  }

  /** A line that does not mention the name is left in one piece. */
  lemma {:induction false} NameFreeStaysWhole(s: string, q: nat)
    requires q <= |s| && NameFree(s)
    ensures SplitFrom(s, q) == [s]
    decreases |s| - q
  {
    if q < |s| {
      assert !OccursAt(s, LatinName, q) && !OccursAt(s, HanName, q);
      if OccursAt(s, LatinName + "*", q) {
        OccursOfPrefix(s, LatinName, '*', q);
      }
      if OccursAt(s, HanName + "*", q) {
        OccursOfPrefix(s, HanName, '*', q);
      }
      NameFreeStaysWhole(s, q + 1);
    }
  }

  /**
   * The highlight as written bolds the author line "Y. Liang", which holds no
   * match at all; the intended rendering leaves it plain.
   */
  lemma OtherLiangIsBold()
    ensures var spans := AuthorSpans("Y. Liang");
      |spans| == 1 && spans[0].bold && !IsNameToken(spans[0].text)
    ensures var spans := AuthorSpansIntended("Y. Liang");
      |spans| == 1 && !spans[0].bold
  {
    OtherLiangSplit("Y. Liang");
  }

  /**
   * "Y. Liang" mentions a Liang but neither spelling of the name, so it is one
   * plain part. The line arrives as a parameter pinned by `requires`, which
   * keeps the verifier from unfolding the split on the literal eagerly.
   */
  lemma OtherLiangSplit(t: string)
    requires t == "Y. Liang"
    ensures SplitAuthors(t) == [t]
    ensures Contains(t, "Liang") && !IsNameToken(t)
  {
    assert !Contains(t, LatinName) by {
      assert !OccursAt(t, LatinName, 0) by { assert t[0..8][0] != LatinName[0]; }
    }
    if Contains(t, HanName) {
      ContainsHasFirstChar(t, HanName);
    }
    NameFreeStaysWhole(t, 0);
    assert OccursAt(t, "Liang", 3);
  }
}
