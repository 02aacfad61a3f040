/**
 The view state of the `ShowSummary` component (src/App.js:145-223): the
 Episodes/Cast tab flags, the episode-name filter text, and which pane the
 component shows for the current episodes and cast.
 */
module SummaryView {
  import Catalog
  import Grouping
  import SeasonFilter

  /** `isEpisodesOpen` and `isCastOpen` (src/App.js:149-150). */
  datatype Tabs = Tabs(isEpisodesOpen: bool, isCastOpen: bool)

  /** The two tab links. */
  datatype Tab = EpisodesTab | CastTab

  /** Initial tab flags: Episodes open, Cast closed. */
  const InitialTabs: Tabs := Tabs(true, false)

  /** Exactly one tab is open. */
  predicate Exclusive(t: Tabs)
  {
    t.isEpisodesOpen == !t.isCastOpen
  }

  /**
   The `onClick` handlers of the tab links (src/App.js:171-176 and 185-190):
   each sets both flags, opening the clicked tab and closing the other,
   whatever the flags were before.
   */
  function Click(t: Tabs, tab: Tab): (r: Tabs)
    ensures Exclusive(r)
    ensures r.isEpisodesOpen <==> tab == EpisodesTab
    ensures r.isCastOpen <==> tab == CastTab
  {
    match tab
    case EpisodesTab => t.(isEpisodesOpen := true, isCastOpen := false)
    case CastTab => t.(isEpisodesOpen := false, isCastOpen := true)
  }

  /** A run of tab clicks, first click first. */
  function ClickAll(t: Tabs, clicks: seq<Tab>): Tabs
    decreases |clicks|
  {
    if |clicks| == 0 then t else ClickAll(Click(t, clicks[0]), clicks[1..])
  }

  /** The pane the flags select (src/App.js:196): the episode list if `isEpisodesOpen`, else the cast. */
  function OpenTab(t: Tabs): Tab
  {
    if t.isEpisodesOpen then EpisodesTab else CastTab
  }

  /** Clicking a tab shows that tab, from any flags. */
  lemma ClickShowsClicked(t: Tabs, tab: Tab)
    ensures OpenTab(Click(t, tab)) == tab
  {
  }

  /**
   From any flags with exactly one tab open, every run of clicks keeps
   exactly one tab open, and the open tab is the last one clicked, or the
   one open at the start if nothing was clicked.
   */
  lemma {:induction false} ReachableTabs(t: Tabs, clicks: seq<Tab>)
    requires Exclusive(t)
    ensures Exclusive(ClickAll(t, clicks))
    ensures OpenTab(ClickAll(t, clicks)) == if |clicks| == 0 then OpenTab(t) else clicks[|clicks| - 1]
    decreases |clicks|
  {
    if |clicks| > 0 {
      ReachableTabs(Click(t, clicks[0]), clicks[1..]);
      if |clicks| > 1 {
        assert clicks[1..][|clicks[1..]| - 1] == clicks[|clicks| - 1];
      }
    }
  }

  /** From the initial flags, the open tab is the last one clicked, Episodes by default. */
  lemma InitialTabsReachable(clicks: seq<Tab>)
    ensures Exclusive(ClickAll(InitialTabs, clicks))
    ensures ClickAll(InitialTabs, clicks).isEpisodesOpen <==> (|clicks| == 0 || clicks[|clicks| - 1] == EpisodesTab)
    ensures ClickAll(InitialTabs, clicks).isCastOpen <==> (|clicks| > 0 && clicks[|clicks| - 1] == CastTab)
  {
    ReachableTabs(InitialTabs, clicks);
  }

  /** Clicking Cast and then Episodes returns to the initial flags. */
  lemma CastThenEpisodesRestores()
    ensures ClickAll(InitialTabs, [CastTab, EpisodesTab]) == InitialTabs
    ensures OpenTab(ClickAll(InitialTabs, [CastTab])) == CastTab
  {
  }

  /** The component's own state: the filter text and the tab flags. */
  datatype ViewState = ViewState(filter: string, tabs: Tabs)

  /** The filter starts empty (src/App.js:148). */
  const InitialView: ViewState := ViewState("", InitialTabs)

  /** A user action inside the component. */
  datatype ViewEvent = TypeFilter(text: string) | ClickTab(tab: Tab)

  /** The filter input replaces the filter text (src/App.js:200); a tab click sets the flags. */
  function ViewStep(v: ViewState, ev: ViewEvent): (r: ViewState)
    ensures ev.TypeFilter? ==> r.filter == ev.text && r.tabs == v.tabs
    ensures ev.ClickTab? ==> r.filter == v.filter && OpenTab(r.tabs) == ev.tab && Exclusive(r.tabs)
  {
    match ev
    case TypeFilter(text) => v.(filter := text)
    case ClickTab(tab) => v.(tabs := Click(v.tabs, tab))
  }

  /** A run of view events, earliest first. */
  function RunView(v: ViewState, evs: seq<ViewEvent>): ViewState
    decreases |evs|
  {
    if |evs| == 0 then v else ViewStep(RunView(v, evs[..|evs| - 1]), evs[|evs| - 1])
  }

  /** The text of the last typing event, or `dflt` if there is none. */
  function LastTyped(evs: seq<ViewEvent>, dflt: string): string
    decreases |evs|
  {
    if |evs| == 0 then dflt
    else if evs[|evs| - 1].TypeFilter? then evs[|evs| - 1].text
    else LastTyped(evs[..|evs| - 1], dflt)
  }

  /** The tab of the last click, or `dflt` if there is none. */
  function LastClicked(evs: seq<ViewEvent>, dflt: Tab): Tab
    decreases |evs|
  {
    if |evs| == 0 then dflt
    else if evs[|evs| - 1].ClickTab? then evs[|evs| - 1].tab
    else LastClicked(evs[..|evs| - 1], dflt)
  }

  /**
   Typing and clicking do not interfere: after any run of events, the filter
   is the last text typed and the open tab is the last one clicked, and
   exactly one tab is open throughout.
   */
  lemma {:induction false} RunViewLast(v: ViewState, evs: seq<ViewEvent>)
    requires Exclusive(v.tabs)
    ensures RunView(v, evs).filter == LastTyped(evs, v.filter)
    ensures Exclusive(RunView(v, evs).tabs)
    ensures OpenTab(RunView(v, evs).tabs) == LastClicked(evs, OpenTab(v.tabs))
    decreases |evs|
  {
    if |evs| > 0 {
      RunViewLast(v, evs[..|evs| - 1]);
    }
  }

  /**
   From the component's initial state, the filter is the last text typed
   (empty if none) and exactly one tab is open: the last one clicked,
   Episodes if none was.
   */
  lemma InitialViewReachable(evs: seq<ViewEvent>)
    ensures RunView(InitialView, evs).filter == LastTyped(evs, "")
    ensures Exclusive(RunView(InitialView, evs).tabs)
    ensures OpenTab(RunView(InitialView, evs).tabs) == LastClicked(evs, EpisodesTab)
  {
    RunViewLast(InitialView, evs);
  }

  /** What the component shows. */
  datatype Pane =
    | Blank
    | EpisodesPane(groups: seq<Grouping.SeasonGroup>)
    | CastPane(cast: Catalog.Option<seq<Catalog.CastEntry>>)

  /**
   The component's output (src/App.js:160-222): nothing while there are no
   season groups; otherwise the filtered groups if Episodes is open, the
   cast if not.
   */
  function Render(episodes: seq<Grouping.Episode>, cast: Catalog.Option<seq<Catalog.CastEntry>>, v: ViewState): (r: Pane)
    ensures r.Blank? <==> |episodes| == 0
    ensures r.EpisodesPane? <==> |episodes| > 0 && v.tabs.isEpisodesOpen
    ensures r.CastPane? ==> r.cast == cast
    ensures r.EpisodesPane? ==>
              && Grouping.Ascending(r.groups)
              && (forall i :: 0 <= i < |r.groups| ==>
                    r.groups[i].1 == Grouping.OfSeason(episodes, r.groups[i].0)
                    && SeasonFilter.HasMatchingEpisode(r.groups[i], v.filter))
    ensures r.EpisodesPane? ==>
              forall s :: s in Grouping.Seasons(episodes)
                && SeasonFilter.HasMatchingEpisode((s, Grouping.OfSeason(episodes, s)), v.filter)
                ==> s in Grouping.KeysOf(r.groups)
  {
    var seasons := Grouping.GroupBySeason(episodes);
    Grouping.GroupingEmptyIff(episodes);
    if |seasons| == 0 then Blank
    else if v.tabs.isEpisodesOpen then
      SeasonFilter.FilteredGroupingAscends(episodes, v.filter);
      SeasonFilter.FilteredSeasonsExactly(episodes, v.filter);
      EpisodesPane(SeasonFilter.FilterSeasons(seasons, v.filter))
    else CastPane(cast)
  }

  /** With the empty filter and Episodes open, every season group is shown. */
  lemma EmptyFilterShowsAllSeasons(episodes: seq<Grouping.Episode>, cast: Catalog.Option<seq<Catalog.CastEntry>>, tabs: Tabs)
    requires |episodes| > 0
    requires tabs.isEpisodesOpen
    ensures Render(episodes, cast, ViewState("", tabs)) == EpisodesPane(Grouping.GroupBySeason(episodes))
  {
    var groups := Grouping.GroupBySeason(episodes);
    Grouping.GroupsNonEmptyAndHomogeneous(episodes, groups);
    SeasonFilter.EmptyFilterKeepsAll(groups);
  }
}
