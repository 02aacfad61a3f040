/**
 The records the viewer receives from the TV-show API, reduced to the fields
 the modelled logic reads. Every other field is opaque to the model.
 */
module Catalog {

  /** A value that may be absent: the `{}` and `null` placeholders of the app's initial state. */
  datatype Option<+T> = None | Some(value: T)

  /** One show of a search result list (`entry.show`). */
  datatype ShowBrief = ShowBrief(id: nat, name: string)

  /** One entry of the `/search/shows` response: `{ show: ... }`. */
  datatype SearchHit = SearchHit(show: ShowBrief)

  /**
   The value of one key of `show.externals`: the API sends a number, a
   string or `null` there.
   */
  datatype ExternalId = Null | Number(n: int) | Text(s: string)

  /** The full show record of `/shows/{id}`. */
  datatype ShowInfo = ShowInfo(id: nat, name: string, externals: seq<(string, ExternalId)>)

  /** One entry of `/shows/{id}/cast`: the actor and the character played. */
  datatype CastEntry = CastEntry(person: string, character: string)
}

/**
 The `Externals` list (src/App.js:275-287): `Object.entries(externals)`
 filtered on a truthy id.

 The keys of `externals` are names such as `tvrage` or `imdb`, none of them
 integer-like, so `Object.entries` lists them in insertion order; the model
 takes the object as that ordered entry list.
 */
module Externals {
  import Seqs
  import Catalog

  /** JavaScript truthiness of an external id: `null`, `0` and `""` are falsy. */
  predicate Truthy(v: Catalog.ExternalId): (b: bool)
    ensures b <==> v != Catalog.Null && v != Catalog.Number(0) && v != Catalog.Text("")
  {
    match v
    case Null => false
    case Number(n) => n != 0
    case Text(s) => |s| > 0
  }

  function HasId(): ((string, Catalog.ExternalId)) -> bool
  {
    (e: (string, Catalog.ExternalId)) => Truthy(e.1)
  }

  /**
   The entries with a truthy id, in their original order: an entry is kept
   iff its id is truthy, and nothing else is added.
   */
  function ExternalList(externals: seq<(string, Catalog.ExternalId)>): (r: seq<(string, Catalog.ExternalId)>)
    ensures forall i :: 0 <= i < |r| ==> r[i] in externals && r[i].1 != Catalog.Null
    ensures forall i :: 0 <= i < |r| ==> r[i].1 != Catalog.Number(0) && r[i].1 != Catalog.Text("")
    ensures forall i :: 0 <= i < |externals| && Truthy(externals[i].1) ==> externals[i] in r
  {
    Seqs.Filter(externals, HasId())
  }

  /** Kept entries sit at increasing positions of the input: their order is the input order. */
  lemma ExternalListKeepsOrder(externals: seq<(string, Catalog.ExternalId)>)
    ensures Seqs.IsEmbedding(Seqs.FilterPositions(externals, HasId()), ExternalList(externals), externals)
    ensures forall j :: 0 <= j < |externals| ==>
              (j in Seqs.FilterPositions(externals, HasId()) <==> Truthy(externals[j].1))
  {
  }
}
