/**
 The state of the `App` component (src/App.js:14-57) and the two handlers
 that change it: `submitHandler` (search) and `clickHandler` (show detail).

 Each handler starts a request and returns; its `.then`/`.catch` callbacks
 run later, when the request settles. The model splits every handler into
 the part that runs at once and the part that runs on settling, and takes
 the request's result as an abstract `Outcome` parameter: `Success` with the
 parsed response, or `Failure` for any rejection (network error, bad JSON,
 a failed `.map`, or, for the detail, any of the three requests failing).
 Events may interleave freely, as they can in the browser: nothing in the
 source cancels or orders requests, so the last one to settle wins.
 */
module App {
  import Catalog
  import Grouping
  import SummaryView

  /** The settled result of a request. */
  datatype Outcome<+T> = Success(data: T) | Failure

  /** The three responses of the detail requests, in endpoint order (src/App.js:43, 48). */
  datatype Detail = Detail(show: Catalog.ShowInfo, episodes: seq<Grouping.Episode>, cast: seq<Catalog.CastEntry>)

  /** The six `useState` slots of `App` (src/App.js:15-20). */
  datatype State = State(
    show: Catalog.Option<Catalog.ShowInfo>,
    episodes: seq<Grouping.Episode>,
    cast: Catalog.Option<seq<Catalog.CastEntry>>,
    shows: seq<Catalog.ShowBrief>,
    isLoading: bool,
    hasErrors: bool)

  /** Initial state: `show` is `{}`, `cast` is `null`, the lists are empty, both flags false. */
  const Initial: State := State(Catalog.None, [], Catalog.None, [], false, false)

  /** The decimal rendering of a show id, as a template literal produces it. */
  function Decimal(n: nat): (r: string)
    ensures |r| > 0
    ensures n < 10 <==> |r| == 1
    ensures forall i :: 0 <= i < |r| ==> '0' <= r[i] <= '9'
    ensures r[|r| - 1] == Digit(n % 10)
    decreases n
  {
    if n < 10 then [Digit(n)] else Decimal(n / 10) + [Digit(n % 10)]
  }

  function Digit(d: nat): (c: char)
    requires d < 10
    ensures '0' <= c <= '9'
    ensures c as int - '0' as int == d
  {
    ('0' as int + d) as char
  }

  /** The number a string of decimal digits denotes, most significant digit first. */
  function DigitsValue(s: string): int
    decreases |s|
  {
    if |s| == 0 then 0 else 10 * DigitsValue(s[..|s| - 1]) + (s[|s| - 1] as int - '0' as int)
  }

  /**
   `Decimal` is the canonical decimal rendering: its digits denote the id,
   and there is no leading zero unless the id is a single digit.
   */
  lemma {:induction false} DecimalValue(n: nat)
    ensures DigitsValue(Decimal(n)) == n
    ensures n >= 10 ==> Decimal(n)[0] != '0'
    decreases n
  {
    var d := Decimal(n);
    if n < 10 {
      assert d[..|d| - 1] == [];
    } else {
      DecimalValue(n / 10);
      assert d[..|d| - 1] == Decimal(n / 10);
      assert d[0] == Decimal(n / 10)[0];
      if n / 10 < 10 {
        assert Decimal(n / 10)[0] == Digit(n / 10);
      }
    }
  }

  /** Different ids render differently. */
  lemma {:induction false} DecimalInjective(a: nat, b: nat)
    requires Decimal(a) == Decimal(b)
    ensures a == b
    decreases a
  {
    if a >= 10 && b >= 10 {
      var da := Decimal(a);
      assert Decimal(a / 10) == da[..|da| - 1];
      assert Decimal(b / 10) == da[..|da| - 1];
      DecimalInjective(a / 10, b / 10);
    }
  }

  /** The search request path (src/App.js:26); the query is inserted as typed, without escaping. */
  function SearchPath(query: string): (p: string)
    ensures |p| == |"/search/shows?q="| + |query|
    ensures p[..|"/search/shows?q="|] == "/search/shows?q="
    ensures p[|"/search/shows?q="|..] == query
  {
    "/search/shows?q=" + query
  }

  /** The three detail request paths of `clickHandler` (src/App.js:43), in order show, episodes, cast. */
  function DetailPaths(id: nat): (ps: seq<string>)
    ensures |ps| == 3
    ensures forall i :: 0 <= i < 3 ==> |"/shows/"| < |ps[i]| && ps[i][..|"/shows/"|] == "/shows/"
    ensures ps[0] == "/shows/" + Decimal(id)
    ensures ps[1] == ps[0] + "/episodes" && ps[2] == ps[0] + "/cast"
  {
    var base := "/shows/" + Decimal(id);
    [base, base + "/episodes", base + "/cast"]
  }

  /** Different shows are requested on different paths, and the three paths of one show differ. */
  lemma DetailPathsDistinct(a: nat, b: nat)
    ensures DetailPaths(a)[0] != DetailPaths(a)[1]
    ensures DetailPaths(a)[0] != DetailPaths(a)[2]
    ensures DetailPaths(a)[1] != DetailPaths(a)[2]
    ensures DetailPaths(a) == DetailPaths(b) ==> a == b
  {
    var pa := DetailPaths(a);
    assert |pa[0]| < |pa[1]| && |pa[0]| < |pa[2]|;
    assert pa[1][|pa[1]| - 1] == 's' && pa[2][|pa[2]| - 1] == 't';
    if DetailPaths(a) == DetailPaths(b) {
      assert Decimal(a) == pa[0][|"/shows/"|..];
      assert Decimal(b) == DetailPaths(b)[0][|"/shows/"|..];
      DecimalInjective(a, b);
    }
  }

  /** `shows.map((entry) => entry.show)` (src/App.js:28). */
  function ShowsOf(hits: seq<Catalog.SearchHit>): (r: seq<Catalog.ShowBrief>)
    ensures |r| == |hits|
    ensures forall i :: 0 <= i < |hits| ==> r[i] == hits[i].show
  {
    seq(|hits|, i requires 0 <= i < |hits| => hits[i].show)
  }

  /**
   The synchronous part of `submitHandler` (src/App.js:23-24): loading on,
   error off, everything else untouched.
   */
  function StartSearch(s: State): (r: State)
    ensures r.isLoading && !r.hasErrors
    ensures r.shows == s.shows && r.show == s.show && r.episodes == s.episodes && r.cast == s.cast
  {
    s.(isLoading := true, hasErrors := false)
  }

  /**
   The settling callbacks of `submitHandler` (src/App.js:27-39). On success
   the result list becomes the shows of the response, in response order, and
   loading goes off; the error flag is not touched. On failure the error flag
   goes on, loading goes off, and the previous result list stays.
   */
  function SettleSearch(s: State, outcome: Outcome<seq<Catalog.SearchHit>>): (r: State)
    ensures !r.isLoading
    ensures outcome.Success? ==> r.shows == ShowsOf(outcome.data) && r.hasErrors == s.hasErrors
    ensures outcome.Failure? ==> r.shows == s.shows && r.hasErrors
    ensures r.show == s.show && r.episodes == s.episodes && r.cast == s.cast
  {
    match outcome
    case Success(hits) => s.(isLoading := false, shows := ShowsOf(hits))
    case Failure => s.(hasErrors := true, isLoading := false)
  }

  /** A search that settles before anything else happens. */
  lemma SearchRoundTrip(s: State, outcome: Outcome<seq<Catalog.SearchHit>>)
    ensures var r := SettleSearch(StartSearch(s), outcome);
      && !r.isLoading
      && (outcome.Success? ==> !r.hasErrors && r.shows == ShowsOf(outcome.data))
      && (outcome.Failure? ==> r.hasErrors && r.shows == s.shows)
      && r.show == s.show && r.episodes == s.episodes && r.cast == s.cast
  {
  }

  /**
   The settling callbacks of `clickHandler` (src/App.js:46-56). When all three
   requests succeed, show, episodes and cast become the three responses in
   endpoint order. On failure nothing changes: the error is only logged. No
   branch touches the result list or either flag.
   */
  function SettleDetail(s: State, outcome: Outcome<Detail>): (r: State)
    ensures outcome.Success? ==>
              && r.show == Catalog.Some(outcome.data.show)
              && r.episodes == outcome.data.episodes
              && r.cast == Catalog.Some(outcome.data.cast)
    ensures outcome.Failure? ==> r == s
    ensures r.shows == s.shows && r.isLoading == s.isLoading && r.hasErrors == s.hasErrors
  {
    match outcome
    case Success(d) => s.(show := Catalog.Some(d.show), episodes := d.episodes, cast := Catalog.Some(d.cast))
    case Failure => s
  }

  /** What can happen to the app: a handler runs, or one of its requests settles. */
  datatype Event =
    | Submit(query: string)
    | SearchSettled(hits: Outcome<seq<Catalog.SearchHit>>)
    | Select(id: nat)
    | DetailSettled(detail: Outcome<Detail>)

  /**
   One event. `clickHandler` changes no state when it runs: it only issues
   its requests, so `Select` leaves the state as it is.
   */
  function Step(s: State, ev: Event): (r: State)
    ensures ev.Submit? ==> r.isLoading && !r.hasErrors && r.shows == s.shows
    ensures ev.SearchSettled? ==> !r.isLoading
    ensures ev.SearchSettled? && ev.hits.Success? ==> r.shows == ShowsOf(ev.hits.data) && r.hasErrors == s.hasErrors
    ensures ev.SearchSettled? && ev.hits.Failure? ==> r.shows == s.shows && r.hasErrors
    ensures ev.DetailSettled? && ev.detail.Success? ==>
              && r.show == Catalog.Some(ev.detail.data.show)
              && r.episodes == ev.detail.data.episodes
              && r.cast == Catalog.Some(ev.detail.data.cast)
    ensures ev.DetailSettled? && ev.detail.Failure? ==> r == s
    ensures ev.Select? ==> r == s
    ensures ev.Submit? || ev.SearchSettled? ==> r.show == s.show && r.episodes == s.episodes && r.cast == s.cast
    ensures ev.Select? || ev.DetailSettled? ==>
              r.shows == s.shows && r.isLoading == s.isLoading && r.hasErrors == s.hasErrors
  {
    match ev
    case Submit(_) => StartSearch(s)
    case SearchSettled(o) => SettleSearch(s, o)
    case Select(_) => s
    case DetailSettled(o) => SettleDetail(s, o)
  }

  /**
   The request paths an event issues: `submitHandler` fetches the search path
   for its query (src/App.js:26), `clickHandler` fetches the three detail
   paths of its id (src/App.js:43-44), and a settling callback fetches nothing.
   */
  function Requests(ev: Event): (paths: seq<string>)
    ensures ev.Submit? ==> |paths| == 1 && |"/search/shows?q="| <= |paths[0]|
                             && paths[0][|"/search/shows?q="|..] == ev.query
    ensures ev.Select? ==> |paths| == 3 && forall i :: 0 <= i < 3 ==>
                             |"/shows/"| < |paths[i]| && paths[i][..|"/shows/"|] == "/shows/"
    ensures ev.Submit? ==> paths == [SearchPath(ev.query)]
    ensures ev.Select? ==> paths == DetailPaths(ev.id)
    ensures ev.SearchSettled? || ev.DetailSettled? ==> paths == []
  {
    match ev
    case Submit(query) => [SearchPath(query)]
    case Select(id) => DetailPaths(id)
    case _ => []
  }

  /**
   The requests determine the handler's argument: two submissions that fetch
   the same path searched the same query, and two selections that fetch the
   same paths selected the same show. A submission never issues the same
   requests as a selection: one path against three.
   */
  lemma RequestsIdentify(a: Event, b: Event)
    requires a.Submit? || a.Select?
    requires Requests(a) == Requests(b)
    ensures a == b
  {
    if a.Select? && b.Select? {
      DetailPathsDistinct(a.id, b.id);
    } else if a.Submit? && b.Submit? {
      assert a.query == Requests(a)[0][|"/search/shows?q="|..];
    }
  }

  /** A run of events, earliest first. */
  function Run(s: State, evs: seq<Event>): State
    decreases |evs|
  {
    if |evs| == 0 then s else Run(Step(s, evs[0]), evs[1..])
  }

  /**
   The state invariant: the loading and error flags are never both on; show
   and cast are set together, and episodes are only there once they are.
   */
  predicate Consistent(s: State)
  {
    && !(s.isLoading && s.hasErrors)
    && (s.show.None? <==> s.cast.None?)
    && (s.show.None? ==> s.episodes == [])
  }

  /** Every event keeps the invariant. */
  lemma StepConsistent(s: State, ev: Event)
    requires Consistent(s)
    ensures Consistent(Step(s, ev))
  {
  }

  /** Every run of events from a consistent state ends in a consistent state. */
  lemma {:induction false} RunConsistent(s: State, evs: seq<Event>)
    requires Consistent(s)
    ensures Consistent(Run(s, evs))
    decreases |evs|
  {
    if |evs| > 0 {
      StepConsistent(s, evs[0]);
      RunConsistent(Step(s, evs[0]), evs[1..]);
    }
  }

  /** Every state reachable from `Initial`, under any interleaving of events, is consistent. */
  lemma ReachableConsistent(evs: seq<Event>)
    ensures Consistent(Run(Initial, evs))
  {
    RunConsistent(Initial, evs);
  }

  /**
   In every reachable state the `ShowSummary` component only shows the cast
   pane with a cast list that is not `null`: the pane needs episodes, and
   episodes arrive together with the cast.
   */
  lemma CastPaneNeverNull(evs: seq<Event>, v: SummaryView.ViewState)
    ensures var s := Run(Initial, evs);
      SummaryView.Render(s.episodes, s.cast, v).CastPane? ==> s.cast.Some?
  {
    ReachableConsistent(evs);
  }

  /** The response of the last search to settle successfully, if any. */
  function LastSearchHits(evs: seq<Event>): Catalog.Option<seq<Catalog.SearchHit>>
    decreases |evs|
  {
    if |evs| == 0 then Catalog.None
    else
      var last := evs[|evs| - 1];
      if last.SearchSettled? && last.hits.Success? then Catalog.Some(last.hits.data)
      else LastSearchHits(evs[..|evs| - 1])
  }

  /** The responses of the last detail request to settle successfully, if any. */
  function LastDetail(evs: seq<Event>): Catalog.Option<Detail>
    decreases |evs|
  {
    if |evs| == 0 then Catalog.None
    else
      var last := evs[|evs| - 1];
      if last.DetailSettled? && last.detail.Success? then Catalog.Some(last.detail.data)
      else LastDetail(evs[..|evs| - 1])
  }

  /** Running `evs` then `ev` is running `evs` and stepping once more. */
  lemma {:induction false} RunSnoc(s: State, evs: seq<Event>, ev: Event)
    ensures Run(s, evs + [ev]) == Step(Run(s, evs), ev)
    decreases |evs|
  {
    if |evs| > 0 {
      assert (evs + [ev])[1..] == evs[1..] + [ev];
      RunSnoc(Step(s, evs[0]), evs[1..], ev);
    }
  }

  /**
   Last settled search wins: the result list shows the response of the
   search that settled successfully last, whichever query it was for, or the
   starting list if none has.
   */
  lemma {:induction false} ShowsFromLastSearch(s: State, evs: seq<Event>)
    ensures Run(s, evs).shows == match LastSearchHits(evs)
                                 case Some(hits) => ShowsOf(hits)
                                 case None => s.shows
    decreases |evs|
  {
    if |evs| > 0 {
      var init := evs[..|evs| - 1];
      assert evs == init + [evs[|evs| - 1]];
      RunSnoc(s, init, evs[|evs| - 1]);
      ShowsFromLastSearch(s, init);
    }
  }

  /**
   Last settled detail wins: show, episodes and cast are those of the detail
   request that settled successfully last, or the starting ones if none has.
   */
  lemma {:induction false} DetailFromLastSettled(s: State, evs: seq<Event>)
    ensures var r := Run(s, evs);
      match LastDetail(evs)
      case Some(d) => r.show == Catalog.Some(d.show) && r.episodes == d.episodes && r.cast == Catalog.Some(d.cast)
      case None => r.show == s.show && r.episodes == s.episodes && r.cast == s.cast
    decreases |evs|
  {
    if |evs| > 0 {
      var init := evs[..|evs| - 1];
      assert evs == init + [evs[|evs| - 1]];
      RunSnoc(s, init, evs[|evs| - 1]);
      DetailFromLastSettled(s, init);
    }
  }

  /**
   Searching for "batman" and receiving one hit, the show with id 1 named
   "Batman", lists exactly that show with neither flag on.
   */
  lemma BatmanSearch()
    ensures var r := Run(Initial, [Submit("batman"), SearchSettled(Success([Catalog.SearchHit(Catalog.ShowBrief(1, "Batman"))]))]);
      && r.shows == [Catalog.ShowBrief(1, "Batman")]
      && !r.isLoading && !r.hasErrors
  {
  }

  /**
   No request is guarded against a newer one: when two searches overlap, the
   first to settle turns loading off while the second is still in flight,
   and if the older one settles last its stale results replace the newer ones.
   */
  lemma OverlappingSearches(older: seq<Catalog.SearchHit>, newer: seq<Catalog.SearchHit>)
    ensures !Run(Initial, [Submit("a"), Submit("b"), SearchSettled(Success(newer))]).isLoading
    ensures Run(Initial, [Submit("a"), Submit("b"), SearchSettled(Success(newer)), SearchSettled(Success(older))]).shows
         == ShowsOf(older)
  {
    var a := Submit("a");
    var b := Submit("b");
    var n := SearchSettled(Success(newer));
    var o := SearchSettled(Success(older));
    RunSnoc(Initial, [a], b);
    RunSnoc(Initial, [a, b], n);
    RunSnoc(Initial, [a, b, n], o);
    assert [a] + [b] == [a, b] && [a, b] + [n] == [a, b, n] && [a, b, n] + [o] == [a, b, n, o];
    assert Run(Initial, [a]) == StartSearch(Initial) by {
      assert [a][1..] == [];
    }
  }
}
