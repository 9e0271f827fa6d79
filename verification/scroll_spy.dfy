/**
 * The scroll spy: on every scroll event the page walks its five sections in
 * order and marks as active each one whose box covers the probe point
 * `scrollY + 100`; the last such section wins, and when none covers the
 * point the active section stays what it was.
 */
module ScrollSpy {

  /** The five section ids, `'home'` … `'patents'`. */
  datatype SectionId = Home | About | Projects | Publications | Patents

  /** The order in which the handler visits the sections. */
  const Order: seq<SectionId> := [Home, About, Projects, Publications, Patents]

  /** Pixels added to `scrollY` to account for the fixed header. */
  const HeaderOffset: int := 100

  /** An element's `offsetTop` and `offsetHeight`, in whole pixels. */
  datatype Box = Box(offsetTop: int, offsetHeight: int)

  /**
   * Where each section is laid out; a section without an entry is one
   * `document.getElementById` does not find.
   */
  type Layout = map<SectionId, Box>

  /** The section is on the page and its box covers `pos`: top inclusive, bottom exclusive. */
  predicate Covers(layout: Layout, pos: int, id: SectionId) {
    id in layout && layout[id].offsetTop <= pos < layout[id].offsetTop + layout[id].offsetHeight
  }

  /**
   * Reference definition, read from the end: the last of `ids` that covers
   * `pos`, or `fallback` when none does.
   */
  function LastCovering(ids: seq<SectionId>, layout: Layout, pos: int, fallback: SectionId): (r: SectionId)
    ensures (exists k :: 0 <= k < |ids| && Covers(layout, pos, ids[k])) ==>
      exists k :: 0 <= k < |ids| && ids[k] == r && Covers(layout, pos, r)
        && forall j :: k < j < |ids| ==> !Covers(layout, pos, ids[j])
    ensures (forall k :: 0 <= k < |ids| ==> !Covers(layout, pos, ids[k])) ==> r == fallback
  {
    if |ids| == 0 then fallback
    else if Covers(layout, pos, ids[|ids| - 1]) then ids[|ids| - 1]
    else
      var r := LastCovering(ids[..|ids| - 1], layout, pos, fallback);
      assert forall k :: 0 <= k < |ids| - 1 ==> ids[..|ids| - 1][k] == ids[k];
      r
  }

  /**
   * `handleScroll`: the loop over the sections in order, each covering
   * section overwriting the active one. It computes the reference definition
   * at the probe point `scrollY + 100`.
   */
  method HandleScroll(layout: Layout, scrollY: int, current: SectionId) returns (active: SectionId)
    ensures active == LastCovering(Order, layout, scrollY + HeaderOffset, current)
  {
    var pos := scrollY + HeaderOffset;
    active := current;
    var i := 0;
    while i < |Order|
      invariant 0 <= i <= |Order|
      invariant active == LastCovering(Order[..i], layout, pos, current)
    {
      var section := Order[i];
      if Covers(layout, pos, section) {
        active := section;
      }
      assert Order[..i + 1][..i] == Order[..i];
      i := i + 1;
    }
    assert Order[..i] == Order;
  }

  /** The section that covers the probe point alone becomes active, whatever was active before. */
  lemma {:induction false} SoleCoverWins(ids: seq<SectionId>, layout: Layout, pos: int, fallback: SectionId, k: nat)
    requires k < |ids| && Covers(layout, pos, ids[k])
    requires forall j :: 0 <= j < |ids| && j != k ==> !Covers(layout, pos, ids[j])
    ensures LastCovering(ids, layout, pos, fallback) == ids[k]
  {
    var r := LastCovering(ids, layout, pos, fallback);
    var m :| 0 <= m < |ids| && ids[m] == r && Covers(layout, pos, r)
      && forall j :: m < j < |ids| ==> !Covers(layout, pos, ids[j]);
    assert m == k;
  }

  /** A second scroll event at the same position changes nothing. */
  lemma ScrollIsIdempotent(layout: Layout, pos: int, current: SectionId)
    ensures var once := LastCovering(Order, layout, pos, current);
      LastCovering(Order, layout, pos, once) == once
  {
    var once := LastCovering(Order, layout, pos, current);
    if exists k :: 0 <= k < |Order| && Covers(layout, pos, Order[k]) {
      LastCoveringIgnoresFallback(Order, layout, pos, current, once);
    }
  }

  /** When some section covers the point, the previously active section plays no part. */
  lemma {:induction false} LastCoveringIgnoresFallback(ids: seq<SectionId>, layout: Layout, pos: int, f: SectionId, g: SectionId)
    requires exists k :: 0 <= k < |ids| && Covers(layout, pos, ids[k])
    ensures LastCovering(ids, layout, pos, f) == LastCovering(ids, layout, pos, g)
  {
    if !Covers(layout, pos, ids[|ids| - 1]) {
      var k :| 0 <= k < |ids| && Covers(layout, pos, ids[k]);
      assert ids[..|ids| - 1][k] == ids[k];
      LastCoveringIgnoresFallback(ids[..|ids| - 1], layout, pos, f, g);
    }
  }

  /** Home on [0, 100), About on [100, 300), Projects on [300, 500); the rest not on the page. */
  const ExampleLayout: Layout := map[Home := Box(0, 100), About := Box(100, 200), Projects := Box(300, 200)]

  /**
   * Scrolled 50 pixels, the probe at 150 lies in About; scrolled 200, the
   * probe at 300 is About's exclusive bottom and Projects' inclusive top;
   * scrolled 1000, nothing covers the probe and the active section stays.
   */
  lemma ScrollExamples()
    ensures LastCovering(Order, ExampleLayout, 50 + HeaderOffset, Home) == About
    ensures LastCovering(Order, ExampleLayout, 200 + HeaderOffset, Home) == Projects
    ensures LastCovering(Order, ExampleLayout, 1000 + HeaderOffset, Publications) == Publications
  {
    SoleCoverWins(Order, ExampleLayout, 150, Home, 1);
    SoleCoverWins(Order, ExampleLayout, 300, Home, 2);
  }
}
