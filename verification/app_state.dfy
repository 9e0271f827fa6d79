/**
 * The page's state and its transitions: the five pieces of React state, the
 * events that change them (the one fetch of the résumé document, navigation
 * clicks, the mobile-menu toggle, scroll events), the choice between the
 * loading, error and main screens, and the values derived from the loaded
 * document (publications in display order, publication counts).
 */
module AppState {
  import opened Wrappers
  import opened Records
  import opened ScrollSpy
  import PublicationOrder
  import StableSort
  import PublicationStats

  /** The message set when the fetch of the document fails. */
  const LoadErrorMessage: string := "Failed to load profile data. Please ensure public/profile.json exists."

  datatype State = State(
    menuOpen: bool,
    active: SectionId,
    data: Option<ResumeData>,
    loading: bool,
    error: Option<string>)

  /** The state on first render: menu closed, Home active, no data, loading, no error. */
  const Initial: State := State(false, Home, None, true, None)

  /**
   * What can happen to the page. `Loaded(None)` is a response whose JSON body
   * is `null`; `LoadFailed` is any failure of the fetch chain (network error,
   * a status that is not ok, a body that is not JSON).
   */
  datatype Event =
    | Loaded(json: Option<ResumeData>)
    | LoadFailed
    | NavClick(id: SectionId)
    | ToggleMenu
    | Scrolled(scrollY: int, layout: Layout)

  /** An event from the user rather than from the fetch. */
  predicate IsUiEvent(e: Event) {
    e.NavClick? || e.ToggleMenu? || e.Scrolled?
  }

  /** The scroll listener is attached only once loading is over and there is data. */
  predicate Listening(s: State) {
    !s.loading && s.data.Some?
  }

  /**
   * The state after one event. The logo, the navigation buttons and the menu
   * button exist only on the main screen, so a click or a toggle on the
   * loading or error screen cannot happen and changes nothing.
   */
  function Step(s: State, e: Event): (t: State)
    ensures t.data != s.data ==> e.Loaded?
    ensures t.loading != s.loading ==> e.Loaded? || e.LoadFailed?
    ensures t.error != s.error ==> e.LoadFailed?
    ensures (e.NavClick? || e.ToggleMenu?) && !ScreenOf(s).MainScreen? ==> t == s
  {
    match e
    case Loaded(json) => s.(data := json, loading := false)
    case LoadFailed => s.(error := Some(LoadErrorMessage), loading := false)
    case NavClick(id) => if ScreenOf(s).MainScreen? then s.(menuOpen := false, active := id) else s
    case ToggleMenu => if ScreenOf(s).MainScreen? then s.(menuOpen := !s.menuOpen) else s
    case Scrolled(scrollY, layout) =>
      if Listening(s) then s.(active := LastCovering(Order, layout, scrollY + HeaderOffset, s.active))
      else s
  }

  /** The state after a sequence of events, applied from the first. */
  function Run(s: State, events: seq<Event>): State
    decreases |events|
  {
    if |events| == 0 then s else Run(Step(s, events[0]), events[1..])
  }

  /** Which of the three screens is rendered. */
  datatype Screen = LoadingScreen | ErrorScreen(message: string) | MainScreen(data: ResumeData)

  /**
   * The screen: loading first; otherwise the error screen when the error is
   * truthy or there is no data (showing the error text, nothing when it is
   * `null`); otherwise the main page over the data.
   */
  function ScreenOf(s: State): (v: Screen)
    ensures v.LoadingScreen? <==> s.loading
    ensures v.MainScreen? <==> !s.loading && !Truthy(s.error) && s.data.Some?
    ensures v.MainScreen? ==> v.data == s.data.value
    ensures v.ErrorScreen? ==> v.message == ValueOr(s.error, "")
  {
    if s.loading then LoadingScreen
    else if Truthy(s.error) || s.data.None? then ErrorScreen(ValueOr(s.error, ""))
    else MainScreen(s.data.value)
  }

  /** The publications in display order: none before the data is there. */
  function DisplayedPublications(s: State): (ps: seq<Publication>)
    ensures s.data.None? ==> ps == []
    ensures s.data.Some? ==> multiset(ps) == multiset(s.data.value.publications)
    ensures forall i, j :: 0 <= i < j < |ps| ==> PublicationOrder.YearKey(ps[i]) >= PublicationOrder.YearKey(ps[j])
    ensures s.data.Some? ==> forall y ::
      StableSort.WithKey(PublicationOrder.YearKey, ps, y) == StableSort.WithKey(PublicationOrder.YearKey, s.data.value.publications, y)
  {
    if s.data.None? then [] else PublicationOrder.SortedPublications(s.data.value.publications)
  }

  /**
   * The counts in the publications banner, taken over the displayed list:
   * nothing before the data is there, and otherwise the counts of the
   * document's own publication list, since sorting changes none of them.
   */
  function StatsOf(s: State): (r: PublicationStats.Stats)
    ensures s.data.None? ==> r == PublicationStats.Stats(0, 0, 0)
    ensures s.data.Some? ==> r == PublicationStats.ComputeStats(s.data.value.publications)
  {
    if s.data.Some? then
      PublicationStats.StatsIgnoreDisplayOrder(s.data.value.publications);
      PublicationStats.ComputeStats(DisplayedPublications(s))
    else
      PublicationStats.ComputeStats(DisplayedPublications(s))
  }

  /** The menu button twice leaves the page as it was. */
  lemma ToggleIsInvolution(s: State)
    requires ScreenOf(s).MainScreen?
    ensures Step(Step(s, ToggleMenu), ToggleMenu) == s
    ensures Step(s, ToggleMenu).menuOpen == !s.menuOpen
  {
  }

  /** A navigation click closes the menu and activates the target; a second click changes nothing. */
  lemma NavClickActivates(s: State, id: SectionId)
    requires ScreenOf(s).MainScreen?
    ensures var t := Step(s, NavClick(id));
      && !t.menuOpen && t.active == id
      && t.data == s.data && t.loading == s.loading && t.error == s.error
      && Step(t, NavClick(id)) == t
  {
  }

  /** Scroll events do nothing until the listener is attached, and then run the scroll spy. */
  lemma ScrollNeedsListener(s: State, scrollY: int, layout: Layout)
    ensures !Listening(s) ==> Step(s, Scrolled(scrollY, layout)) == s
    ensures Listening(s) ==>
      Step(s, Scrolled(scrollY, layout)) == s.(active := LastCovering(Order, layout, scrollY + HeaderOffset, s.active))
  {
  }

  /** No user event changes which screen is shown. */
  lemma UiEventKeepsScreen(s: State, e: Event)
    requires IsUiEvent(e)
    ensures ScreenOf(Step(s, e)) == ScreenOf(s)
  {
  }

  /** No user event touches the data, the loading flag or the error. */
  lemma {:induction false} UiEventsKeepDocument(s: State, events: seq<Event>)
    requires forall i :: 0 <= i < |events| ==> IsUiEvent(events[i])
    ensures var t := Run(s, events);
      t.data == s.data && t.loading == s.loading && t.error == s.error
    decreases |events|
  {
    if |events| > 0 {
      UiEventsKeepDocument(Step(s, events[0]), events[1..]);
    }
  }

  /**
   * Before the fetch settles, whatever the user does, the loading screen
   * stays and the page keeps its initial state: Home active, menu closed.
   */
  lemma StillLoading(events: seq<Event>)
    requires forall i :: 0 <= i < |events| ==> IsUiEvent(events[i])
    ensures ScreenOf(Run(Initial, events)) == LoadingScreen
    ensures Run(Initial, events) == Initial
  {
    UiEventsWhileLoading(Initial, events);
  }

  /** While loading, the screen has no buttons and no scroll listener: user events do nothing. */
  lemma {:induction false} UiEventsWhileLoading(s: State, events: seq<Event>)
    requires s.loading
    requires forall i :: 0 <= i < |events| ==> IsUiEvent(events[i])
    ensures Run(s, events) == s
    decreases |events|
  {
    if |events| > 0 {
      assert Step(s, events[0]) == s;
      UiEventsWhileLoading(s, events[1..]);
    }
  }

  /**
   * After the fetch delivers a document, the main page shows that document
   * for good; after it delivers `null`, the error screen shows an empty
   * message; after it fails, the error screen shows the fixed message.
   */
  lemma {:induction false} FetchDecidesScreen(before: seq<Event>, outcome: Event, after: seq<Event>)
    requires forall i :: 0 <= i < |before| ==> IsUiEvent(before[i])
    requires forall i :: 0 <= i < |after| ==> IsUiEvent(after[i])
    requires outcome.Loaded? || outcome.LoadFailed?
    ensures !Run(Initial, before + [outcome] + after).loading
    ensures var first := Step(Run(Initial, before), outcome);
      first.active == Home && !first.menuOpen
    ensures var v := ScreenOf(Run(Initial, before + [outcome] + after));
      && (outcome.Loaded? && outcome.json.Some? ==> v == MainScreen(outcome.json.value))
      && (outcome.Loaded? && outcome.json.None? ==> v == ErrorScreen(""))
      && (outcome.LoadFailed? ==> v == ErrorScreen(LoadErrorMessage))
  {
    var s := Run(Initial, before);
    StillLoading(before);
    var rest := [outcome] + after;
    assert before + [outcome] + after == before + rest;
    RunAppend(Initial, before, rest);
    assert rest[0] == outcome && rest[1..] == after;
    var t := Step(s, outcome);
    assert Run(s, rest) == Run(t, after);
    UiEventsKeepDocument(t, after);
  }

  /** Running two traces one after the other. */
  lemma {:induction false} RunAppend(s: State, a: seq<Event>, b: seq<Event>)
    ensures Run(s, a + b) == Run(Run(s, a), b)
    decreases |a|
  {
    if |a| > 0 {
      assert (a + b)[1..] == a[1..] + b;
      RunAppend(Step(s, a[0]), a[1..], b);
    } else {
      assert a + b == b;
    }
  }

  /** Once the page shows the main screen, the scroll spy only ever activates covering sections. */
  lemma ListeningAfterLoad(s: State, scrollY: int, layout: Layout)
    requires ScreenOf(s).MainScreen?
    ensures var pos := scrollY + HeaderOffset;
      var t := Step(s, Scrolled(scrollY, layout));
      t.active == s.active || Covers(layout, pos, t.active)
  {
  }
}
