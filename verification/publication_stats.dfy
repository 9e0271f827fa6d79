/**
 * The summary line above the publication list: how many publications there
 * are, how many carry a CCF-A, CCF-B or first-quartile (一区) tag, and how
 * many carry a tag whose lower-case form contains "esi".
 */
module PublicationStats {
  import opened Wrappers
  import opened Records
  import opened Strings
  import PublicationOrder

  datatype Stats = Stats(total: nat, highLevel: nat, esi: nat)

  /** A tag that marks a CCF-A or CCF-B venue or a first-quartile journal; case-sensitive. */
  predicate IsHighLevelTag(t: string) {
    Contains(t, "CCF-A") || Contains(t, "CCF-B") || Contains(t, "一区")
  }

  /** `t.toLowerCase().includes('esi')`. */
  predicate IsEsiTag(t: string) {
    Contains(ToLower(t), "esi")
  }

  /** `p.tags?.some(test)`: a publication without tags has no tag that passes. */
  predicate SomeTag(p: Publication, test: string -> bool) {
    p.tags.Some? && exists i :: 0 <= i < |p.tags.value| && test(p.tags.value[i])
  }

  predicate IsHighLevel(p: Publication) {
    SomeTag(p, IsHighLevelTag)
  }

  predicate IsEsi(p: Publication) {
    SomeTag(p, IsEsiTag)
  }

  /** The number of publications in `ps` that pass `test`, counted from the front. */
  function Tally(ps: seq<Publication>, test: Publication -> bool): nat {
    if |ps| == 0 then 0 else (if test(ps[0]) then 1 else 0) + Tally(ps[1..], test)
  }

  /** `ps.filter(test).length`. */
  function CountWhere(ps: seq<Publication>, test: Publication -> bool): (n: nat)
    ensures n <= |ps|
    ensures n == 0 <==> forall i :: 0 <= i < |ps| ==> !test(ps[i])
    ensures n == |ps| <==> forall i :: 0 <= i < |ps| ==> test(ps[i])
  {
    TallyBounds(ps, test);
    Tally(ps, test)
  }

  lemma {:induction false} TallyBounds(ps: seq<Publication>, test: Publication -> bool)
    ensures Tally(ps, test) <= |ps|
    ensures Tally(ps, test) == 0 <==> forall i :: 0 <= i < |ps| ==> !test(ps[i])
    ensures Tally(ps, test) == |ps| <==> forall i :: 0 <= i < |ps| ==> test(ps[i])
  {
    if |ps| > 0 {
      TallyBounds(ps[1..], test);
      assert forall i :: 0 < i < |ps| ==> ps[i] == ps[1..][i - 1];
    }
  }

  lemma {:induction false} TallyAppend(a: seq<Publication>, b: seq<Publication>, test: Publication -> bool)
    ensures Tally(a + b, test) == Tally(a, test) + Tally(b, test)
  {
    if |a| == 0 {
      assert a + b == b;
    } else {
      assert (a + b)[0] == a[0];
      assert (a + b)[1..] == a[1..] + b;
      TallyAppend(a[1..], b, test);
    }
  }

  lemma CountWhereAppend(a: seq<Publication>, b: seq<Publication>, test: Publication -> bool)
    ensures CountWhere(a + b, test) == CountWhere(a, test) + CountWhere(b, test)
  {
    TallyAppend(a, b, test);
  }

  /** A count does not depend on the order of the list. */
  lemma CountWhereIgnoresOrder(a: seq<Publication>, b: seq<Publication>, test: Publication -> bool)
    requires multiset(a) == multiset(b)
    ensures CountWhere(a, test) == CountWhere(b, test)
  {
    TallyIgnoresOrder(a, b, test);
  }

  lemma {:induction false} TallyIgnoresOrder(a: seq<Publication>, b: seq<Publication>, test: Publication -> bool)
    requires multiset(a) == multiset(b)
    ensures Tally(a, test) == Tally(b, test)
    decreases |a|
  {
    if |a| == 0 {
      assert |b| == |multiset(b)| == 0;
    } else {
      var k := MatchFirst(a, b);
      TallyIgnoresOrder(a[1..], b[..k] + b[k + 1..], test);
      TallyWithout(b, k, test);
    }
  }

  /** The first element of `a` sits somewhere in `b`; without it, the rest of both agree as multisets. */
  lemma MatchFirst(a: seq<Publication>, b: seq<Publication>) returns (k: nat)
    requires |a| > 0 && multiset(a) == multiset(b)
    ensures k < |b| && b[k] == a[0]
    ensures multiset(a[1..]) == multiset(b[..k] + b[k + 1..])
  {
    var x := a[0];
    assert x in multiset(b);
    k :| 0 <= k < |b| && b[k] == x;
    assert b == b[..k] + [x] + b[k + 1..];
    assert a == [x] + a[1..];
    assert multiset(b) == multiset(b[..k]) + multiset([x]) + multiset(b[k + 1..]);
    assert multiset(a) == multiset([x]) + multiset(a[1..]);
    var rest := b[..k] + b[k + 1..];
    assert multiset(rest) == multiset(b[..k]) + multiset(b[k + 1..]);
    assert multiset(a[1..]) == multiset(a) - multiset([x]);
    assert multiset(rest) == multiset(b) - multiset([x]);
  }

  /** Taking out the element at `k` takes out its contribution to the count. */
  lemma TallyWithout(b: seq<Publication>, k: nat, test: Publication -> bool)
    requires k < |b|
    ensures Tally(b, test) == (if test(b[k]) then 1 else 0) + Tally(b[..k] + b[k + 1..], test)
  {
    var front, back := b[..k], b[k + 1..];
    var tail := b[k..];
    assert b == front + tail;
    assert tail[0] == b[k] && tail[1..] == back;
    assert Tally(tail, test) == (if test(b[k]) then 1 else 0) + Tally(back, test);
    TallyAppend(front, tail, test);
    TallyAppend(front, back, test);
  }

  /**
   * `stats`: an empty list short-circuits to all zeros; otherwise the total is
   * the length and each count is the number of publications that pass its test.
   */
  function ComputeStats(ps: seq<Publication>): (s: Stats)
    ensures |ps| == 0 ==> s == Stats(0, 0, 0)
    ensures s.total == |ps|
    ensures s.highLevel <= s.total && s.esi <= s.total
    ensures s.highLevel == 0 <==> forall i :: 0 <= i < |ps| ==> !IsHighLevel(ps[i])
    ensures s.esi == 0 <==> forall i :: 0 <= i < |ps| ==> !IsEsi(ps[i])
  {
    if |ps| == 0 then Stats(0, 0, 0)
    else Stats(|ps|, CountWhere(ps, IsHighLevel), CountWhere(ps, IsEsi))
  }

  /** One publication contributes 1 to a count exactly when it passes that count's test. */
  lemma StatsOfOne(p: Publication)
    ensures ComputeStats([p]) == Stats(1, if IsHighLevel(p) then 1 else 0, if IsEsi(p) then 1 else 0)
  {
  }

  /** The three numbers add up over a split of the list. */
  lemma StatsAreAdditive(a: seq<Publication>, b: seq<Publication>)
    ensures var s, sa, sb := ComputeStats(a + b), ComputeStats(a), ComputeStats(b);
      s == Stats(sa.total + sb.total, sa.highLevel + sb.highLevel, sa.esi + sb.esi)
  {
    CountWhereAppend(a, b, IsHighLevel);
    CountWhereAppend(a, b, IsEsi);
    if |a| == 0 {
      assert a + b == b;
    } else if |b| == 0 {
      assert a + b == a;
    }
  }

  /** Computing the numbers over the sorted copy, as the page does, gives those of the input. */
  lemma StatsIgnoreDisplayOrder(ps: seq<Publication>)
    ensures ComputeStats(PublicationOrder.SortedPublications(ps)) == ComputeStats(ps)
  {
    var r := PublicationOrder.SortedPublications(ps);
    assert |r| == |multiset(r)| == |multiset(ps)| == |ps|;
    CountWhereIgnoresOrder(r, ps, IsHighLevel);
    CountWhereIgnoresOrder(r, ps, IsEsi);
  }

  /** "esi" in either case, at index `i`. */
  predicate EsiAt(t: string, i: nat) {
    && i + 3 <= |t|
    && (t[i] == 'e' || t[i] == 'E')
    && (t[i + 1] == 's' || t[i + 1] == 'S')
    && (t[i + 2] == 'i' || t[i + 2] == 'I')
  }

  lemma LowerCharIs(c: char, l: char)
    requires 'a' <= l <= 'z'
    ensures LowerChar(c) == l <==> c == l || c as int == l as int - 32
  {
  }

  /** The ESI test ignores the case of the three letters and nothing else. */
  lemma EsiTagIgnoresCase(t: string)
    ensures IsEsiTag(t) <==> exists i :: 0 <= i && EsiAt(t, i)
  {
    var l := ToLower(t);
    forall i: nat | i + 3 <= |t|
      ensures OccursAt(l, "esi", i) <==> EsiAt(t, i)
    {
      LowerCharIs(t[i], 'e');
      LowerCharIs(t[i + 1], 's');
      LowerCharIs(t[i + 2], 'i');
      assert OccursAt(l, "esi", i) <==> l[i] == 'e' && l[i + 1] == 's' && l[i + 2] == 'i' by {
        if l[i] == 'e' && l[i + 1] == 's' && l[i + 2] == 'i' {
          assert l[i..i + 3] == "esi";
        }
        if OccursAt(l, "esi", i) {
          assert l[i..i + 3][0] == l[i];
          assert l[i..i + 3][1] == l[i + 1];
          assert l[i..i + 3][2] == l[i + 2];
        }
      }
    }
    if IsEsiTag(t) {
      var i :| 0 <= i <= |l| - 3 && OccursAt(l, "esi", i);
      assert EsiAt(t, i);
    }
    if exists i :: 0 <= i && EsiAt(t, i) {
      var i :| 0 <= i && EsiAt(t, i);
      assert OccursAt(l, "esi", i);
    }
  }
}
