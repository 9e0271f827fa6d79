/**
 * `sortedPublications`: a copy of the publication list sorted by
 * `parseInt(year) || 0`, newest first. The comparator `yearB - yearA` is
 * negative, zero or positive exactly as the parsed years compare, and the
 * engine's sort is stable, so this is the stable largest-first sort by the
 * parsed year.
 */
module PublicationOrder {
  import opened Wrappers
  import opened Records
  import opened JsParseInt
  import StableSort

  /** The sort key of a publication. */
  function YearKey(p: Publication): int {
    ParseYear(p.year)
  }

  /**
   * The displayed order: a permutation of `ps`, newest parsed year first, in
   * which the publications of each parsed year keep their order from `ps`.
   */
  function SortedPublications(ps: seq<Publication>): (r: seq<Publication>)
    ensures multiset(r) == multiset(ps)
    ensures forall i, j :: 0 <= i < j < |r| ==> YearKey(r[i]) >= YearKey(r[j])
    ensures forall y :: StableSort.WithKey(YearKey, r, y) == StableSort.WithKey(YearKey, ps, y)
  {
    StableSort.SortKeepsKeyOrder(YearKey, ps);
    StableSort.Sort(YearKey, ps)
  }

  /**
   * Any newest-first arrangement of `ps` that keeps each year's input order is
   * the displayed order: the result does not depend on which stable
   * algorithm the engine runs.
   */
  lemma DisplayedOrderIsForced(ps: seq<Publication>, r: seq<Publication>)
    requires forall i, j :: 0 <= i < j < |r| ==> YearKey(r[i]) >= YearKey(r[j])
    requires forall y :: StableSort.WithKey(YearKey, r, y) == StableSort.WithKey(YearKey, ps, y)
    ensures r == SortedPublications(ps)
  {
    StableSort.SortIsTheStableSort(YearKey, ps, r);
  }

  /** A publication that differs from the others only in its year. */
  function WithYear(year: string): Publication {
    Publication("", "", "", year, None, None)
  }

  /** Four elements, one with the largest key, one next, two tied last, end up in that order. */
  lemma FourKeysOrder<T>(key: T -> int, a: T, b: T, c: T, d: T)
    requires key(d) > key(a) > key(b) == key(c)
    ensures StableSort.Sort(key, [a, b, c, d]) == [d, a, b, c]
  {
    var ps := [a, b, c, d];
    var r := [d, a, b, c];
    assert StableSort.NonIncreasing(key, r);
    forall y
      ensures StableSort.WithKey(key, r, y) == StableSort.WithKey(key, ps, y)
    {
      var ha := if key(a) == y then [a] else [];
      var hb := if key(b) == y then [b] else [];
      var hc := if key(c) == y then [c] else [];
      var hd := if key(d) == y then [d] else [];
      assert StableSort.WithKey(key, [d], y) == hd by { assert [d][1..] == []; }
      assert StableSort.WithKey(key, [c], y) == hc by { assert [c][1..] == []; }
      assert StableSort.WithKey(key, [c, d], y) == hc + hd by { assert [c, d][1..] == [d]; }
      assert StableSort.WithKey(key, [b, c, d], y) == hb + hc + hd by { assert [b, c, d][1..] == [c, d]; }
      assert StableSort.WithKey(key, ps, y) == ha + hb + hc + hd by { assert ps[1..] == [b, c, d]; }
      assert StableSort.WithKey(key, [b, c], y) == hb + hc by { assert [b, c][1..] == [c]; }
      assert StableSort.WithKey(key, [a, b, c], y) == ha + hb + hc by { assert [a, b, c][1..] == [b, c]; }
      assert StableSort.WithKey(key, r, y) == hd + ha + hb + hc by { assert r[1..] == [a, b, c]; }
      assert hd == [] || ha + hb + hc == [];
    }
    StableSort.SortIsTheStableSort(key, ps, r);
  }

  /**
   * Years `"2023"`, `""`, `"abc"`, `"2024"` are shown as `2024`, `2023`, `""`,
   * `"abc"`: both unparsable years become 0, go last, and keep their order.
   */
  lemma SortedPublicationsExample()
    ensures SortedPublications([WithYear("2023"), WithYear(""), WithYear("abc"), WithYear("2024")])
         == [WithYear("2024"), WithYear("2023"), WithYear(""), WithYear("abc")]
  {
    ParseYearPlainExamples();
    ParseYearFallbackExamples();
    FourKeysOrder(YearKey, WithYear("2023"), WithYear(""), WithYear("abc"), WithYear("2024"));
  }
}
