/**
 The season filter of `ShowSummary` (src/App.js:204-211): a season group is
 kept iff one of its episodes' names contains the filter text, compared
 case-insensitively; episodes inside a kept group are not filtered.

 Case folding: the source calls `toLowerCase` on both sides, which folds all
 of Unicode. This model folds only the ASCII letters `A`-`Z`.
 */
module SeasonFilter {
  import Seqs
  import Grouping

  /** ASCII lower-casing of one character. */
  function LowerChar(c: char): (r: char)
    ensures 'A' <= c <= 'Z' ==> r as int == c as int + 32
    ensures !('A' <= c <= 'Z') ==> r == c
    ensures !('A' <= r <= 'Z')
  {
    if 'A' <= c <= 'Z' then (c as int + 32) as char else c
  }

  /** `s.toLowerCase()`, restricted to ASCII folding. */
  function Lower(s: string): (r: string)
    ensures |r| == |s|
    ensures forall i :: 0 <= i < |s| ==> r[i] == LowerChar(s[i])
  {
    seq(|s|, i requires 0 <= i < |s| => LowerChar(s[i]))
  }

  /** Folding twice is folding once. */
  lemma LowerIdempotent(s: string)
    ensures Lower(Lower(s)) == Lower(s)
  {
  }

  /** `needle` sits in `hay` starting at position `i`. */
  ghost predicate OccursAt(hay: string, needle: string, i: int)
  {
    0 <= i && i + |needle| <= |hay| && hay[i..i + |needle|] == needle
  }

  /** `hay.includes(needle)`: true iff `needle` occurs somewhere in `hay`. */
  function Includes(hay: string, needle: string): (r: bool)
    ensures r <==> exists i :: OccursAt(hay, needle, i)
    decreases |hay|
  {
    if |needle| > |hay| then false
    else if hay[..|needle|] == needle then
      assert OccursAt(hay, needle, 0);
      true
    else
      var rest := Includes(hay[1..], needle);
      IncludesStep(hay, needle);
      rest
  }

  /** An occurrence not at the front of `hay` is an occurrence in `hay[1..]`, shifted by one. */
  lemma IncludesStep(hay: string, needle: string)
    requires |needle| <= |hay|
    requires hay[..|needle|] != needle
    ensures (exists i :: OccursAt(hay, needle, i)) <==> (exists i :: OccursAt(hay[1..], needle, i))
  {
    if exists i :: OccursAt(hay, needle, i) {
      var i :| OccursAt(hay, needle, i);
      assert i > 0;
      assert hay[1..][i - 1..i - 1 + |needle|] == hay[i..i + |needle|];
      assert OccursAt(hay[1..], needle, i - 1);
    }
    if exists i :: OccursAt(hay[1..], needle, i) {
      var i :| OccursAt(hay[1..], needle, i);
      assert hay[1..][i..i + |needle|] == hay[i + 1..i + 1 + |needle|];
      assert OccursAt(hay, needle, i + 1);
    }
  }

  /** The empty string occurs in every string. */
  lemma IncludesEmpty(hay: string)
    ensures Includes(hay, "")
  {
  }

  /** `episode.name.toLowerCase().includes(filter.toLowerCase())`. */
  predicate EpisodeMatches(e: Grouping.Episode, filter: string)
  {
    Includes(Lower(e.name), Lower(filter))
  }

  function MatchesFilter(filter: string): Grouping.Episode -> bool
  {
    (e: Grouping.Episode) => EpisodeMatches(e, filter)
  }

  /** `episodes.some(...)` on one group. */
  function GroupMatches(filter: string): Grouping.SeasonGroup -> bool
  {
    (g: Grouping.SeasonGroup) => Seqs.Any(g.1, MatchesFilter(filter))
  }

  /** Some episode of `g` has a name containing `filter`, case-insensitively. */
  ghost predicate HasMatchingEpisode(g: Grouping.SeasonGroup, filter: string)
  {
    exists k :: 0 <= k < |g.1| && OccursIn(Lower(filter), Lower(g.1[k].name))
  }

  /** Substring occurrence, stated without `Includes`. */
  ghost predicate OccursIn(needle: string, hay: string)
  {
    exists i :: OccursAt(hay, needle, i)
  }

  /**
   `seasons.filter(...)` (src/App.js:204-211): a group is in the result iff
   it is one of the input groups with an episode whose lower-cased name
   contains the lower-cased filter; kept groups are whole input groups.
   */
  function FilterSeasons(groups: seq<Grouping.SeasonGroup>, filter: string): (r: seq<Grouping.SeasonGroup>)
    ensures |r| <= |groups|
    ensures forall i :: 0 <= i < |r| ==> r[i] in groups && HasMatchingEpisode(r[i], filter)
    ensures forall i :: 0 <= i < |groups| && HasMatchingEpisode(groups[i], filter) ==> groups[i] in r
  {
    var r := Seqs.Filter(groups, GroupMatches(filter));
    assert forall g: Grouping.SeasonGroup :: GroupMatches(filter)(g) <==> HasMatchingEpisode(g, filter);
    r
  }

  /** Kept groups keep their relative order: they sit at increasing positions of the input. */
  lemma FilterSeasonsKeepsOrder(groups: seq<Grouping.SeasonGroup>, filter: string)
    ensures Seqs.IsEmbedding(Seqs.FilterPositions(groups, GroupMatches(filter)), FilterSeasons(groups, filter), groups)
    ensures forall j :: 0 <= j < |groups| ==>
              (j in Seqs.FilterPositions(groups, GroupMatches(filter)) <==> HasMatchingEpisode(groups[j], filter))
  {
    assert forall g: Grouping.SeasonGroup :: GroupMatches(filter)(g) <==> HasMatchingEpisode(g, filter);
  }

  /** Filtering a concatenation filters each part. */
  lemma FilterSeasonsConcat(a: seq<Grouping.SeasonGroup>, b: seq<Grouping.SeasonGroup>, filter: string)
    ensures FilterSeasons(a + b, filter) == FilterSeasons(a, filter) + FilterSeasons(b, filter)
  {
    Seqs.FilterConcat(a, b, GroupMatches(filter));
  }

  /** The empty filter keeps every non-empty group, so it keeps any grouping unchanged. */
  lemma EmptyFilterKeepsAll(groups: seq<Grouping.SeasonGroup>)
    requires forall i :: 0 <= i < |groups| ==> |groups[i].1| > 0
    ensures FilterSeasons(groups, "") == groups
  {
    forall i | 0 <= i < |groups|
      ensures GroupMatches("")(groups[i])
    {
      IncludesEmpty(Lower(groups[i].1[0].name));
      assert MatchesFilter("")(groups[i].1[0]);
    }
    Seqs.FilterKeepsAll(groups, GroupMatches(""));
  }

  /** Only the folded filter text matters: filters equal up to ASCII case select the same groups. */
  lemma FilterIgnoresCase(groups: seq<Grouping.SeasonGroup>, f1: string, f2: string)
    requires Lower(f1) == Lower(f2)
    ensures FilterSeasons(groups, f1) == FilterSeasons(groups, f2)
  {
    forall g: Grouping.SeasonGroup
      ensures GroupMatches(f1)(g) == GroupMatches(f2)(g)
    {
      Seqs.FilterAgree(g.1, MatchesFilter(f1), MatchesFilter(f2));
    }
    Seqs.FilterAgree(groups, GroupMatches(f1), GroupMatches(f2));
  }

  /** Filtering by a text selects the same groups as filtering by its lower-cased form. */
  lemma FilterFoldsCase(groups: seq<Grouping.SeasonGroup>, filter: string)
    ensures FilterSeasons(groups, filter) == FilterSeasons(groups, Lower(filter))
  {
    LowerIdempotent(filter);
    FilterIgnoresCase(groups, filter, Lower(filter));
  }

  /** Filtering the filtered groups again with the same text changes nothing. */
  lemma FilterSeasonsIdempotent(groups: seq<Grouping.SeasonGroup>, filter: string)
    ensures FilterSeasons(FilterSeasons(groups, filter), filter) == FilterSeasons(groups, filter)
  {
    Seqs.FilterIdempotent(groups, GroupMatches(filter));
  }

  /** Kept groups keep ascending season order. */
  lemma FilterSeasonsAscends(groups: seq<Grouping.SeasonGroup>, filter: string)
    requires Grouping.Ascending(groups)
    ensures Grouping.Ascending(FilterSeasons(groups, filter))
  {
    var r := FilterSeasons(groups, filter);
    var idx := Seqs.FilterPositions(groups, GroupMatches(filter));
    FilterSeasonsKeepsOrder(groups, filter);
    forall i, j | 0 <= i < j < |r|
      ensures r[i].0 < r[j].0
    {
      assert r[i] == groups[idx[i]] && r[j] == groups[idx[j]];
    }
  }

  /**
   Filtering the grouper's output keeps what the grouping promised: seasons
   still ascend, and every shown group still holds all of its season's
   episodes in input order.
   */
  lemma FilteredGroupingAscends(eps: seq<Grouping.Episode>, filter: string)
    ensures Grouping.Ascending(FilterSeasons(Grouping.GroupBySeason(eps), filter))
    ensures forall i :: 0 <= i < |FilterSeasons(Grouping.GroupBySeason(eps), filter)| ==>
              FilterSeasons(Grouping.GroupBySeason(eps), filter)[i].1
                == Grouping.OfSeason(eps, FilterSeasons(Grouping.GroupBySeason(eps), filter)[i].0)
  {
    var groups := Grouping.GroupBySeason(eps);
    FilterSeasonsAscends(groups, filter);
    var r := FilterSeasons(groups, filter);
    forall i | 0 <= i < |r|
      ensures r[i].1 == Grouping.OfSeason(eps, r[i].0)
    {
      var j :| 0 <= j < |groups| && groups[j] == r[i];
    }
  }

  /**
   A season is shown after filtering the grouper's output iff it occurs in
   the episodes and one of its episodes matches the filter.
   */
  lemma FilteredSeasonsExactly(eps: seq<Grouping.Episode>, filter: string)
    ensures forall s :: s in Grouping.KeysOf(FilterSeasons(Grouping.GroupBySeason(eps), filter)) <==>
              s in Grouping.Seasons(eps) && HasMatchingEpisode((s, Grouping.OfSeason(eps, s)), filter)
  {
    var groups := Grouping.GroupBySeason(eps);
    forall s
      ensures s in Grouping.KeysOf(FilterSeasons(groups, filter)) <==>
                s in Grouping.Seasons(eps) && HasMatchingEpisode((s, Grouping.OfSeason(eps, s)), filter)
    {
      if s in Grouping.Seasons(eps) && HasMatchingEpisode((s, Grouping.OfSeason(eps, s)), filter) {
        MatchingSeasonKept(eps, groups, filter, s);
      }
      if s in Grouping.KeysOf(FilterSeasons(groups, filter)) {
        KeptSeasonMatches(eps, groups, filter, s);
      }
    }
  }

  /** A season of the episodes with a matching episode survives the filter. */
  lemma MatchingSeasonKept(eps: seq<Grouping.Episode>, groups: seq<Grouping.SeasonGroup>, filter: string, s: nat)
    requires Grouping.IsSeasonGrouping(eps, groups)
    requires s in Grouping.Seasons(eps) && HasMatchingEpisode((s, Grouping.OfSeason(eps, s)), filter)
    ensures s in Grouping.KeysOf(FilterSeasons(groups, filter))
  {
    var r := FilterSeasons(groups, filter);
    assert s in Grouping.KeysOf(groups);
    var i :| 0 <= i < |groups| && groups[i].0 == s;
    assert groups[i] == (s, Grouping.OfSeason(eps, s));
    assert groups[i] in r;
    var j :| 0 <= j < |r| && r[j] == groups[i];
    assert r[j].0 == s;
  }

  /** A season left after the filter is a season of the episodes with a matching episode. */
  lemma KeptSeasonMatches(eps: seq<Grouping.Episode>, groups: seq<Grouping.SeasonGroup>, filter: string, s: nat)
    requires Grouping.IsSeasonGrouping(eps, groups)
    requires s in Grouping.KeysOf(FilterSeasons(groups, filter))
    ensures s in Grouping.Seasons(eps) && HasMatchingEpisode((s, Grouping.OfSeason(eps, s)), filter)
  {
    var r := FilterSeasons(groups, filter);
    var j :| 0 <= j < |r| && r[j].0 == s;
    assert r[j] in groups && HasMatchingEpisode(r[j], filter);
    var i :| 0 <= i < |groups| && groups[i] == r[j];
    assert groups[i].0 in Grouping.KeysOf(groups);
    assert r[j] == (s, Grouping.OfSeason(eps, s));
  }
}
