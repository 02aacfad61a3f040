/**
 The episode grouper `groupEposiodesBySeason` (src/App.js:346-358).

 The source reduces the episode list into a plain JavaScript object keyed by
 `episode.season` and then calls `Object.entries` on it. Two steps are
 modelled separately:

 - `Reduce` is the `reduce` call: a left fold of `Collect` over the episodes,
   building a map from season to the episodes of that season.
 - `Entries` is `Object.entries`: every season key here is a non-negative
   integer, and the own-property order of an ordinary object lists such
   array-index keys first, in ascending numeric order (OrdinaryOwnPropertyKeys,
   section 10.1.11.1 of ECMA-262). So the groups come out sorted by season,
   whatever order the seasons were first seen in.

 `Object.entries` hands the keys back as decimal strings; the model keeps the
 season number itself.
 */
module Grouping {
  import Seqs

  /** An episode, reduced to what the grouper and the filter look at. */
  datatype Episode = Episode(season: nat, name: string)

  /** One `[season, episodes]` entry of the grouper's result. */
  type SeasonGroup = (nat, seq<Episode>)

  /** The object the reduce builds: season key to the episodes collected under it. */
  type Buckets = map<nat, seq<Episode>>

  /** The predicate "this episode belongs to season `s`". */
  function InSeason(s: nat): Episode -> bool
  {
    (e: Episode) => e.season == s
  }

  /** The predicate "this episode's season is one of `ks`". */
  function InSeasons(ks: set<nat>): Episode -> bool
  {
    (e: Episode) => e.season in ks
  }

  /** The input episodes of season `s`, in input order. */
  function OfSeason(eps: seq<Episode>, s: nat): seq<Episode>
  {
    Seqs.Filter(eps, InSeason(s))
  }

  /** The distinct seasons occurring in `eps`. */
  function Seasons(eps: seq<Episode>): set<nat>
  {
    set e | e in eps :: e.season
  }

  /** The season keys of a grouping. */
  function KeysOf(groups: seq<SeasonGroup>): set<nat>
  {
    set i | 0 <= i < |groups| :: groups[i].0
  }

  /** Season keys strictly increase along the sequence (so they are also pairwise distinct). */
  ghost predicate Ascending(groups: seq<SeasonGroup>)
  {
    forall i, j :: 0 <= i < j < |groups| ==> groups[i].0 < groups[j].0
  }

  /**
   The characterisation of a correct grouping of `eps`: one group per distinct
   season, in ascending season order, each holding exactly the input episodes
   of its season in input order.
   */
  ghost predicate IsSeasonGrouping(eps: seq<Episode>, groups: seq<SeasonGroup>)
  {
    && Ascending(groups)
    && KeysOf(groups) == Seasons(eps)
    && forall i :: 0 <= i < |groups| ==> groups[i].1 == OfSeason(eps, groups[i].0)
  }

  /** The episodes of all groups, concatenated group after group. */
  function Flattened(groups: seq<SeasonGroup>): seq<Episode>
    decreases |groups|
  {
    if |groups| == 0 then [] else groups[0].1 + Flattened(groups[1..])
  }

  /**
   The reducer callback (src/App.js:347-355). An absent key reads as
   `undefined`, which is falsy, so the first episode of a season creates a
   one-element array; a present key always holds an array, which is truthy,
   so later episodes are appended with `concat`. No other key is touched.
   */
  function Collect(acc: Buckets, e: Episode): (r: Buckets)
    ensures r.Keys == acc.Keys + {e.season}
    ensures e.season !in acc ==> r[e.season] == [e]
    ensures e.season in acc ==> r[e.season] == acc[e.season] + [e]
    ensures forall k :: k in acc && k != e.season ==> r[k] == acc[k]
  {
    if e.season !in acc then acc[e.season := [e]]
    else acc[e.season := acc[e.season] + [e]]
  }

  /**
   `episodes.reduce(Collect, {})`: a left fold, first episode first. Its keys
   are exactly the seasons that occur, and no key ever holds an empty list,
   since a key is created together with its first episode.
   */
  function Reduce(eps: seq<Episode>): (r: Buckets)
    ensures r.Keys == Seasons(eps)
    ensures forall s :: s in r ==> |r[s]| > 0
    decreases |eps|
  {
    if |eps| == 0 then map[]
    else
      var p := eps[..|eps| - 1];
      var e := eps[|eps| - 1];
      assert eps == p + [e];
      assert Seasons(eps) == Seasons(p) + {e.season};
      Collect(Reduce(p), e)
  }

  lemma MinExists(ks: set<nat>)
    requires ks != {}
    ensures exists k :: k in ks && forall j :: j in ks ==> k <= j
    decreases ks
  {
    var x :| x in ks;
    if ks != {x} {
      MinExists(ks - {x});
      var m :| m in ks - {x} && forall j :: j in ks - {x} ==> m <= j;
      var least := if x < m then x else m;
      forall j | j in ks
        ensures least <= j
      {
        if j != x {
          assert j in ks - {x};
        }
      }
      assert least in ks;
    } else {
      assert forall j :: j in ks ==> x <= j;
    }
  }

  /** The least key of a non-empty key set. */
  function MinKey(ks: set<nat>): (k: nat)
    requires ks != {}
    ensures k in ks
    ensures forall j :: j in ks ==> k <= j
  {
    MinExists(ks);
    var k :| k in ks && forall j :: j in ks ==> k <= j; k
  }

  /**
   `Object.entries` on the buckets: every key exactly once, paired with its
   value, keys in ascending numeric order.
   */
  function Entries(m: Buckets): (r: seq<SeasonGroup>)
    ensures Ascending(r)
    ensures KeysOf(r) == m.Keys
    ensures forall i :: 0 <= i < |r| ==> r[i].0 in m && r[i].1 == m[r[i].0]
    decreases m.Keys
  {
    if m.Keys == {} then []
    else
      var k := MinKey(m.Keys);
      var rest := Entries(m - {k});
      EntriesCons(k, m[k], rest, m.Keys);
      [(k, m[k])] + rest
  }

  lemma EntriesCons(k: nat, v: seq<Episode>, rest: seq<SeasonGroup>, ks: set<nat>)
    requires k in ks
    requires forall j :: j in ks ==> k <= j
    requires Ascending(rest)
    requires KeysOf(rest) == ks - {k}
    ensures Ascending([(k, v)] + rest)
    ensures KeysOf([(k, v)] + rest) == ks
  {
    var r := [(k, v)] + rest;
    forall i, j | 0 <= i < j < |r|
      ensures r[i].0 < r[j].0
    {
      assert r[j] == rest[j - 1];
      assert rest[j - 1].0 in KeysOf(rest);
      if i > 0 {
        assert r[i] == rest[i - 1];
      }
    }
    KeysOfCons((k, v), rest);
  }

  lemma KeysOfCons(g: SeasonGroup, rest: seq<SeasonGroup>)
    ensures KeysOf([g] + rest) == {g.0} + KeysOf(rest)
  {
    var r := [g] + rest;
    forall x | x in KeysOf(r)
      ensures x in {g.0} + KeysOf(rest)
    {
      var i :| 0 <= i < |r| && r[i].0 == x;
      if i > 0 {
        assert r[i] == rest[i - 1];
      }
    }
    forall x | x in KeysOf(rest)
      ensures x in KeysOf(r)
    {
      var i :| 0 <= i < |rest| && rest[i].0 == x;
      assert r[i + 1] == rest[i];
    }
    assert r[0] == g;
  }

  /** Appending an episode extends its own season's slice and no other. */
  lemma OfSeasonSnoc(eps: seq<Episode>, e: Episode, s: nat)
    ensures OfSeason(eps + [e], s) == OfSeason(eps, s) + (if e.season == s then [e] else [])
  {
    Seqs.FilterConcat(eps, [e], InSeason(s));
    assert Seqs.Filter([e], InSeason(s)) == (if e.season == s then [e] else []) + Seqs.Filter([], InSeason(s));
  }

  /** A season absent from `eps` has no episodes in it. */
  lemma OfAbsentSeason(eps: seq<Episode>, s: nat)
    requires s !in Seasons(eps)
    ensures OfSeason(eps, s) == []
  {
    OccupiedSeason(eps, s);
  }

  lemma OccupiedSeason(eps: seq<Episode>, s: nat)
    ensures |OfSeason(eps, s)| > 0 ==> s in Seasons(eps)
  {
    var r := OfSeason(eps, s);
    if |r| > 0 {
      assert r[0] in eps;
    }
  }

  /**
   What the reduce builds: exactly one key per distinct season, holding that
   season's episodes in input order.
   */
  lemma {:induction false} ReduceBySeason(eps: seq<Episode>)
    ensures Reduce(eps).Keys == Seasons(eps)
    ensures forall s :: s in Reduce(eps) ==> Reduce(eps)[s] == OfSeason(eps, s)
    decreases |eps|
  {
    if |eps| > 0 {
      var p := eps[..|eps| - 1];
      var e := eps[|eps| - 1];
      assert eps == p + [e];
      ReduceBySeason(p);
      assert Seasons(eps) == Seasons(p) + {e.season};
      forall s | s in Reduce(eps)
        ensures Reduce(eps)[s] == OfSeason(eps, s)
      {
        OfSeasonSnoc(p, e, s);
        if s == e.season && s !in Seasons(p) {
          OfAbsentSeason(p, s);
        }
      }
    }
  }

  /**
   `groupEposiodesBySeason` (src/App.js:346-358): one group per distinct
   season, in ascending season order, each group holding exactly the input
   episodes of its season in input order.
   */
  function GroupBySeason(eps: seq<Episode>): (groups: seq<SeasonGroup>)
    ensures IsSeasonGrouping(eps, groups)
  {
    ReduceBySeason(eps);
    Entries(Reduce(eps))
  }

  /**
   Every group of a correct grouping is non-empty, its episodes all carry its
   season, and no season key repeats.
   */
  lemma GroupsNonEmptyAndHomogeneous(eps: seq<Episode>, groups: seq<SeasonGroup>)
    requires IsSeasonGrouping(eps, groups)
    ensures forall i :: 0 <= i < |groups| ==> |groups[i].1| > 0
    ensures forall i, k :: 0 <= i < |groups| && 0 <= k < |groups[i].1| ==>
              groups[i].1[k].season == groups[i].0
    ensures forall i, j :: 0 <= i < |groups| && 0 <= j < |groups| && i != j ==>
              groups[i].0 != groups[j].0
  {
    forall i | 0 <= i < |groups|
      ensures |groups[i].1| > 0
    {
      var s := groups[i].0;
      assert s in KeysOf(groups);
      var e :| e in eps && e.season == s;
      var j :| 0 <= j < |eps| && eps[j] == e;
      assert InSeason(s)(eps[j]);
      assert e in OfSeason(eps, s);
    }
  }

  /**
   Within each group the episodes are the input episodes of that season at
   strictly increasing input positions: relative input order is kept.
   */
  lemma GroupKeepsInputOrder(eps: seq<Episode>, groups: seq<SeasonGroup>, i: nat)
    requires IsSeasonGrouping(eps, groups)
    requires i < |groups|
    ensures Seqs.IsEmbedding(Seqs.FilterPositions(eps, InSeason(groups[i].0)), groups[i].1, eps)
    ensures forall j :: 0 <= j < |eps| ==>
              (j in Seqs.FilterPositions(eps, InSeason(groups[i].0)) <==> eps[j].season == groups[i].0)
  {
  }

  /**
   Flattening groups with distinct keys, each holding its season's slice of
   `eps`, yields the episodes whose season is among the keys, multiplicities
   included.
   */
  lemma {:induction false} FlattenedCounts(eps: seq<Episode>, groups: seq<SeasonGroup>)
    requires forall i, j :: 0 <= i < j < |groups| ==> groups[i].0 != groups[j].0
    requires forall i :: 0 <= i < |groups| ==> groups[i].1 == OfSeason(eps, groups[i].0)
    ensures multiset(Flattened(groups)) == multiset(Seqs.Filter(eps, InSeasons(KeysOf(groups))))
    decreases |groups|
  {
    if |groups| == 0 {
      Seqs.FilterAgree(eps, InSeasons(KeysOf(groups)), InSeasons({}));
      assert forall i :: 0 <= i < |eps| ==> !InSeasons({})(eps[i]);
    } else {
      var g := groups[0];
      var rest := groups[1..];
      assert groups == [g] + rest;
      FlattenedCounts(eps, rest);
      KeysOfCons(g, rest);
      assert g.0 !in KeysOf(rest);
      Seqs.FilterSplit(eps, InSeason(g.0), InSeasons(KeysOf(rest)), InSeasons(KeysOf(groups)));
    }
  }

  /**
   Grouping covers every input episode exactly once: the flattened groups are
   a permutation of the input.
   */
  lemma GroupingIsPermutation(eps: seq<Episode>, groups: seq<SeasonGroup>)
    requires IsSeasonGrouping(eps, groups)
    ensures multiset(Flattened(groups)) == multiset(eps)
  {
    forall i, j | 0 <= i < j < |groups|
      ensures groups[i].0 != groups[j].0
    {
    }
    FlattenedCounts(eps, groups);
    forall i | 0 <= i < |eps|
      ensures InSeasons(Seasons(eps))(eps[i])
    {
      assert eps[i] in eps;
    }
    Seqs.FilterKeepsAll(eps, InSeasons(Seasons(eps)));
  }

  /** Two ascending groupings with the same key set have the same keys position by position. */
  lemma {:induction false} AscendingKeysDetermined(a: seq<SeasonGroup>, b: seq<SeasonGroup>)
    requires Ascending(a) && Ascending(b)
    requires KeysOf(a) == KeysOf(b)
    ensures |a| == |b|
    ensures forall i :: 0 <= i < |a| ==> a[i].0 == b[i].0
    decreases |a|
  {
    KeysOfEmpty(a);
    KeysOfEmpty(b);
    if |a| != 0 {
      assert a[0].0 in KeysOf(a);
      assert |b| > 0;
      assert b[0].0 in KeysOf(b);
      var ia :| 0 <= ia < |a| && a[ia].0 == b[0].0;
      var ib :| 0 <= ib < |b| && b[ib].0 == a[0].0;
      assert a[0].0 <= a[ia].0;
      assert b[0].0 <= b[ib].0;
      assert a[0].0 == b[0].0;
      KeysOfCons(a[0], a[1..]);
      KeysOfCons(b[0], b[1..]);
      assert a == [a[0]] + a[1..];
      assert b == [b[0]] + b[1..];
      AscendingHeadFresh(a);
      AscendingHeadFresh(b);
      AscendingKeysDetermined(a[1..], b[1..]);
      forall i | 0 <= i < |a|
        ensures a[i].0 == b[i].0
      {
        if i > 0 {
          assert a[i] == a[1..][i - 1];
          assert b[i] == b[1..][i - 1];
        }
      }
    }
  }

  lemma KeysOfEmpty(groups: seq<SeasonGroup>)
    ensures KeysOf(groups) == {} <==> |groups| == 0
  {
    if |groups| > 0 {
      assert groups[0].0 in KeysOf(groups);
    }
  }

  lemma AscendingHeadFresh(a: seq<SeasonGroup>)
    requires |a| > 0
    requires Ascending(a)
    ensures Ascending(a[1..])
    ensures a[0].0 !in KeysOf(a[1..])
  {
  }

  /**
   The characterisation pins the grouping down: any two groupings of the
   same episodes that satisfy it are equal. Together with `GroupBySeason`'s
   postcondition this makes `IsSeasonGrouping` an independent reference
   definition of the grouper.
   */
  lemma GroupingUnique(eps: seq<Episode>, a: seq<SeasonGroup>, b: seq<SeasonGroup>)
    requires IsSeasonGrouping(eps, a)
    requires IsSeasonGrouping(eps, b)
    ensures a == b
  {
    AscendingKeysDetermined(a, b);
    forall i | 0 <= i < |a|
      ensures a[i] == b[i]
    {
    }
  }

  /** The grouper yields no groups exactly when there are no episodes. */
  lemma GroupingEmptyIff(eps: seq<Episode>)
    ensures |GroupBySeason(eps)| == 0 <==> |eps| == 0
  {
  }

  /**
   Groups follow ascending season number, not first occurrence: an episode of
   season 2 listed before one of season 1 still yields season 1's group first.
   */
  lemma NotFirstSeenOrder()
    ensures GroupBySeason([Episode(2, "Pilot"), Episode(1, "Prequel")])
         == [(1, [Episode(1, "Prequel")]), (2, [Episode(2, "Pilot")])]
  {
    var eps := [Episode(2, "Pilot"), Episode(1, "Prequel")];
    var want: seq<SeasonGroup> := [(1, [eps[1]]), (2, [eps[0]])];
    assert Seasons(eps) == {1, 2} by {
      assert eps[0] in eps && eps[1] in eps;
    }
    KeysOfCons(want[0], want[1..]);
    KeysOfCons(want[1], []);
    assert KeysOf(want) == {1, 2};
    assert OfSeason(eps, 1) == [eps[1]] by {
      assert eps == [eps[0]] + [eps[1]];
      Seqs.FilterConcat([eps[0]], [eps[1]], InSeason(1));
      assert Seqs.Filter([eps[0]], InSeason(1)) == [] + Seqs.Filter([], InSeason(1));
      assert Seqs.Filter([eps[1]], InSeason(1)) == [eps[1]] + Seqs.Filter([], InSeason(1));
    }
    assert OfSeason(eps, 2) == [eps[0]] by {
      assert eps == [eps[0]] + [eps[1]];
      Seqs.FilterConcat([eps[0]], [eps[1]], InSeason(2));
      assert Seqs.Filter([eps[0]], InSeason(2)) == [eps[0]] + Seqs.Filter([], InSeason(2));
      assert Seqs.Filter([eps[1]], InSeason(2)) == [] + Seqs.Filter([], InSeason(2));
    }
    assert IsSeasonGrouping(eps, want);
    GroupingUnique(eps, GroupBySeason(eps), want);
  }
}
