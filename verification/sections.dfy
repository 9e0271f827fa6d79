/**
 * What the main screen derives from the document, section by section: the
 * logo text, the project cards, the numbered publication entries with their
 * author line and badges, and the patent block with its placeholder.
 */
module Sections {
  import opened Wrappers
  import opened Strings
  import opened Records
  import opened Rendering
  import opened AuthorSplit
  import opened InventorSplit
  import Badge
  import PublicationOrder
  import JsParseInt

  /**
   * `name.split(' ')[0]`: the name up to its first space, or the whole name
   * when it has none.
   */
  function LogoText(name: string): (r: string)
    ensures |r| <= |name| && r == name[..|r|]
    ensures forall k :: 0 <= k < |r| ==> r[k] != ' '
    ensures |r| == |name| || name[|r|] == ' '
  {
    if |name| == 0 || name[0] == ' ' then ""
    else [name[0]] + LogoText(name[1..])
  }

  /** Any space-free prefix that ends the name or stops at a space is the logo text. */
  lemma LogoTextIsUnique(name: string, r: string)
    requires |r| <= |name| && r == name[..|r|]
    requires forall k :: 0 <= k < |r| ==> r[k] != ' '
    requires |r| == |name| || name[|r|] == ' '
    ensures r == LogoText(name)
  {
  }

  lemma LogoTextExamples()
    ensures LogoText("Shuang Liang") == "Shuang"
    ensures LogoText("梁爽") == "梁爽"
    ensures LogoText("") == ""
  {
    LogoTextIsUnique("Shuang Liang", "Shuang");
    LogoTextIsUnique("梁爽", "梁爽");
  }

  /** An education entry: degree, institution, the major (only when truthy) and the period. */
  datatype EducationCard = EducationCard(degree: string, institution: string, major: Option<string>, period: string)

  function EducationCardOf(e: Education): (c: EducationCard)
    ensures c.degree == e.degree && c.institution == e.institution && c.period == e.period
    ensures c.major.Some? <==> Truthy(e.major)
    ensures c.major.Some? ==> c.major == e.major
  {
    EducationCard(e.degree, e.institution, if Truthy(e.major) then e.major else None, e.period)
  }

  /** The project's role is a leading one, shown in green, when it mentions 主持. */
  predicate IsLeadRole(role: string) {
    Contains(role, "主持")
  }

  /** A role is a leading one exactly when it reads `pre + "主持" + post`. */
  lemma LeadRoleHasMarker(role: string) returns (i: nat)
    requires IsLeadRole(role)
    ensures i + 2 <= |role| && role == role[..i] + "主持" + role[i + 2..]
  {
    i :| 0 <= i <= |role| - 2 && OccursAt(role, "主持", i);
    assert role == role[..i] + role[i..i + 2] + role[i + 2..];
  }

  lemma MarkerMakesLeadRole(pre: string, post: string)
    ensures IsLeadRole(pre + "主持" + post)
  {
    var role := pre + "主持" + post;
    assert role[|pre|..|pre| + 2] == "主持";
    assert OccursAt(role, "主持", |pre|);
  }

  /** A project card: its role badge, green for a leading role, and the funding, shown only when truthy. */
  datatype ProjectCard = ProjectCard(role: string, lead: bool, funding: Option<string>)

  function ProjectCardOf(p: Project): (c: ProjectCard)
    ensures c.role == p.role
    ensures c.lead <==> IsLeadRole(p.role)
    ensures c.funding.Some? <==> Truthy(p.funding)
    ensures c.funding.Some? ==> c.funding == p.funding
  {
    ProjectCard(p.role, IsLeadRole(p.role), if Truthy(p.funding) then p.funding else None)
  }

  lemma ProjectCardExamples()
    ensures ProjectCardOf(Project("t", "主持", "p", "s", "c", Some(""))) == ProjectCard("主持", true, None)
    ensures !ProjectCardOf(Project("t", "参与", "p", "s", "c", None)).lead
  {
    assert OccursAt("主持", "主持", 0);
    if Contains("参与", "主持") {
      ContainsHasFirstChar("参与", "主持");
    }
  }

  /** The patent is software, with the purple badge, when its kind mentions 软著 or 软件. */
  predicate IsSoftwareWork(kind: string) {
    Contains(kind, "软著") || Contains(kind, "软件")
  }

  lemma SoftwareWorkExamples()
    ensures IsSoftwareWork("软件著作权") && IsSoftwareWork("软著")
    ensures !IsSoftwareWork("发明专利")
  {
    assert OccursAt("软件著作权", "软件", 0);
    assert OccursAt("软著", "软著", 0);
    if Contains("发明专利", "软著") {
      ContainsHasFirstChar("发明专利", "软著");
    }
    if Contains("发明专利", "软件") {
      ContainsHasFirstChar("发明专利", "软件");
    }
  }

  /** A patent card: the kind badge, number, title, inventor line, date and country (only when truthy). */
  datatype PatentCard = PatentCard(
    software: bool,
    kind: string,
    number: string,
    title: string,
    inventors: seq<Span>,
    date: string,
    country: Option<string>)

  function PatentCardOf(p: Patent): PatentCard {
    PatentCard(IsSoftwareWork(p.kind), p.kind, p.number, p.title, InventorSpans(p.inventors), p.date,
      if Truthy(p.country) then p.country else None)
  }

  /** The patent section: a placeholder, or one card per patent in document order. */
  datatype PatentsBlock = NoPatents | PatentList(cards: seq<PatentCard>)

  /**
   * The placeholder shows exactly when the list is absent or empty; otherwise
   * there is one card per patent, whose inventor line reads the trimmed
   * inventors joined with full-width commas.
   */
  function PatentsSection(patents: Option<seq<Patent>>): (b: PatentsBlock)
    ensures b.NoPatents? <==> patents.None? || |patents.value| == 0
    ensures b.PatentList? ==> |b.cards| == |patents.value|
    ensures b.PatentList? ==> forall i :: 0 <= i < |b.cards| ==>
      && b.cards[i].software == IsSoftwareWork(patents.value[i].kind)
      && b.cards[i].kind == patents.value[i].kind
      && b.cards[i].number == patents.value[i].number
      && b.cards[i].title == patents.value[i].title
      && b.cards[i].date == patents.value[i].date
      && b.cards[i].inventors == InventorSpans(patents.value[i].inventors)
      && Concat(Texts(b.cards[i].inventors)) ==
           JoinWith(Trimmed(SplitInventors(patents.value[i].inventors)), "，")
      && (b.cards[i].country.Some? <==> Truthy(patents.value[i].country))
      && (b.cards[i].country.Some? ==> b.cards[i].country == patents.value[i].country)
  {
    if patents.Some? && |patents.value| > 0 then
      var ps := patents.value;
      PatentList(seq(|ps|, i requires 0 <= i < |ps| => PatentCardOf(ps[i])))
    else NoPatents
  }

  /** One entry of the publication list. */
  datatype PublicationEntry = PublicationEntry(
    number: nat,
    title: string,
    authors: seq<Span>,
    venue: string,
    year: string,
    badges: seq<Badge.Category>)

  /** The badge row: one badge per tag, none when the tags are absent. */
  function Badges(tags: Option<seq<string>>): (r: seq<Badge.Category>)
    ensures tags.None? ==> r == []
    ensures tags.Some? ==> |r| == |tags.value|
    ensures tags.Some? ==> forall i :: 0 <= i < |r| ==> r[i] == Badge.Classify(tags.value[i])
    ensures tags.Some? ==> forall i :: 0 <= i < |r| ==>
      && (r[i] == Badge.Critical <==> Badge.HasCriticalMarker(tags.value[i]))
      && (r[i] == Badge.Notable <==> !Badge.HasCriticalMarker(tags.value[i]) && Badge.HasNotableMarker(tags.value[i]))
      && (r[i] == Badge.Default <==> !Badge.HasCriticalMarker(tags.value[i]) && !Badge.HasNotableMarker(tags.value[i]))
  {
    if tags.None? then []
    else seq(|tags.value|, i requires 0 <= i < |tags.value| => Badge.Classify(tags.value[i]))
  }

  lemma SortedKeepsLength(ps: seq<Publication>)
    ensures |PublicationOrder.SortedPublications(ps)| == |ps|
  {
    var sorted := PublicationOrder.SortedPublications(ps);
    assert |multiset(sorted)| == |multiset(ps)|;
  }

  /** Every displayed publication is one of the document's. */
  lemma SortedFromDocument(ps: seq<Publication>, i: nat) returns (k: nat)
    requires i < |ps|
    ensures i < |PublicationOrder.SortedPublications(ps)|
    ensures k < |ps| && ps[k] == PublicationOrder.SortedPublications(ps)[i]
  {
    var sorted := PublicationOrder.SortedPublications(ps);
    SortedKeepsLength(ps);
    assert sorted[i] in multiset(ps);
    k :| 0 <= k < |ps| && ps[k] == sorted[i];
  }

  /**
   * The entry shown at position `i` (from 0) for publication `p`; `intended`
   * picks the corrected author rendering instead of the page's own.
   */
  function EntryOf(i: nat, p: Publication, intended: bool): PublicationEntry {
    var authors := if intended then AuthorSpansIntended(p.authors) else AuthorSpans(p.authors);
    PublicationEntry(i + 1, p.title, authors, p.venue, p.year, Badges(p.tags))
  }

  /** The entries for the publications in display order. */
  function EntriesOf(ps: seq<Publication>, intended: bool): (r: seq<PublicationEntry>)
    ensures |r| == |PublicationOrder.SortedPublications(ps)|
    ensures forall i :: 0 <= i < |r| ==> r[i] == EntryOf(i, PublicationOrder.SortedPublications(ps)[i], intended)
  {
    var sorted := PublicationOrder.SortedPublications(ps);
    seq(|sorted|, i requires 0 <= i < |sorted| => EntryOf(i, sorted[i], intended))
  }

  /**
   * The publication list: entry `i` shows the `i`-th publication of the
   * display order, numbered `i + 1`, with its title, venue, year, badges and
   * author line as the page renders it. Hence the entries follow the
   * document's publications one for one, newest parsed year first.
   */
  function PublicationList(ps: seq<Publication>): (r: seq<PublicationEntry>)
    ensures |r| == |ps|
    ensures forall i :: 0 <= i < |r| ==>
      var p := PublicationOrder.SortedPublications(ps)[i];
      && r[i].number == i + 1
      && r[i].title == p.title && r[i].venue == p.venue && r[i].year == p.year
      && r[i].authors == AuthorSpans(p.authors)
      && r[i].badges == Badges(p.tags)
    ensures forall i, j :: 0 <= i < j < |r| ==> JsParseInt.ParseYear(r[i].year) >= JsParseInt.ParseYear(r[j].year)
  {
    SortedKeepsLength(ps);
    EntriesInDisplayOrder(ps, false);
    EntriesOf(ps, false)
  }

  /** The publication list with the corrected author rendering: only the matched names are bold. */
  function PublicationListIntended(ps: seq<Publication>): (r: seq<PublicationEntry>)
    ensures |r| == |ps|
    ensures forall i :: 0 <= i < |r| ==>
      var p := PublicationOrder.SortedPublications(ps)[i];
      && r[i].number == i + 1
      && r[i].title == p.title && r[i].venue == p.venue && r[i].year == p.year
      && r[i].authors == AuthorSpansIntended(p.authors)
      && r[i].badges == Badges(p.tags)
  {
    SortedKeepsLength(ps);
    EntriesOf(ps, true)
  }

  lemma EntriesInDisplayOrder(ps: seq<Publication>, intended: bool)
    ensures var r := EntriesOf(ps, intended);
      forall i, j :: 0 <= i < j < |r| ==> JsParseInt.ParseYear(r[i].year) >= JsParseInt.ParseYear(r[j].year)
  {
    var sorted := PublicationOrder.SortedPublications(ps);
    var r := EntriesOf(ps, intended);
    forall i, j | 0 <= i < j < |r|
      ensures JsParseInt.ParseYear(r[i].year) >= JsParseInt.ParseYear(r[j].year)
    {
      assert r[i].year == sorted[i].year && r[j].year == sorted[j].year;
      assert PublicationOrder.YearKey(sorted[i]) >= PublicationOrder.YearKey(sorted[j]);
    }
  }

  /** The entry shows publication `p`: its title, its year and its author line. */
  predicate Shows(e: PublicationEntry, p: Publication) {
    e.title == p.title && e.year == p.year && e.authors == AuthorSpans(p.authors)
  }

  /** The document's `k`-th publication has an entry in the list. */
  lemma PublicationIsListed(ps: seq<Publication>, k: nat) returns (i: nat)
    requires k < |ps|
    ensures i < |PublicationList(ps)| && Shows(PublicationList(ps)[i], ps[k])
  {
    var sorted := PublicationOrder.SortedPublications(ps);
    assert ps[k] in multiset(ps);
    assert ps[k] in multiset(sorted);
    i :| 0 <= i < |sorted| && sorted[i] == ps[k];
  }

  /** Entry `i` of the list shows one of the document's publications. */
  lemma EntryIsListed(ps: seq<Publication>, i: nat) returns (k: nat)
    requires i < |ps|
    ensures i < |PublicationList(ps)| && k < |ps| && Shows(PublicationList(ps)[i], ps[k])
  {
    k := SortedFromDocument(ps, i);
  }

  /** Every publication of the document gets an entry. */
  lemma EveryPublicationListed(ps: seq<Publication>, r: seq<PublicationEntry>)
    requires r == PublicationList(ps)
    ensures forall k :: 0 <= k < |ps| ==> exists i :: 0 <= i < |r| && Shows(r[i], ps[k])
  {
    forall k | 0 <= k < |ps|
      ensures exists i :: 0 <= i < |r| && Shows(r[i], ps[k])
    {
      var i := PublicationIsListed(ps, k);
    }
  }

  /** Every entry shows one of the document's publications. */
  lemma OnlyDocumentListed(ps: seq<Publication>, r: seq<PublicationEntry>)
    requires r == PublicationList(ps)
    ensures forall i :: 0 <= i < |r| ==> exists k :: 0 <= k < |ps| && Shows(r[i], ps[k])
  {
    forall i | 0 <= i < |r|
      ensures exists k :: 0 <= k < |ps| && Shows(r[i], ps[k])
    {
      var k := EntryIsListed(ps, i);
    }
  }

  /** The two lists differ only in which plain author parts are bold. */
  lemma ListsDifferOnlyInBold(ps: seq<Publication>)
    ensures var w, c := PublicationList(ps), PublicationListIntended(ps);
      |w| == |c| && forall i :: 0 <= i < |w| ==>
        && w[i].(authors := []) == c[i].(authors := [])
        && Texts(w[i].authors) == Texts(c[i].authors)
  {
    var sorted := PublicationOrder.SortedPublications(ps);
    forall i | 0 <= i < |ps|
      ensures Texts(AuthorSpans(sorted[i].authors)) == Texts(AuthorSpansIntended(sorted[i].authors))
    {
      AsWrittenBoldsMore(sorted[i].authors);
    }
  }
}
