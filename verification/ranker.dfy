/**
 The ranking step of `fetchSortedDistricts` (script.js:39-49) and the search
 as a whole: every record is paired with its distance from the reference
 point, and the list is sorted by that distance.
 */
module Ranker {
  import opened Districts
  import opened StableSort
  import opened Locator

  /** `districtsData.map(d => ({ ...d, distance: dist(reference, d) }))`. */
  function Annotate(reference: Point, data: seq<District>, dist: Metric): (r: seq<Ranked>)
    ensures |r| == |data|
  {
    if |data| == 0 then []
    else [Ranked(data[0], dist(reference, data[0].Location()))] + Annotate(reference, data[1..], dist)
  }

  /** Entry `i` of the mapped list is record `i` with its distance from the reference. */
  lemma {:induction false} AnnotateAt(reference: Point, data: seq<District>, dist: Metric)
    ensures forall i :: 0 <= i < |data| ==>
      Annotate(reference, data, dist)[i] == Ranked(data[i], dist(reference, data[i].Location()))
  {
    if |data| > 0 {
      AnnotateAt(reference, data[1..], dist);
      var a := Annotate(reference, data, dist);
      forall i | 1 <= i < |data|
        ensures a[i] == Ranked(data[i], dist(reference, data[i].Location()))
      {
        assert a[i] == Annotate(reference, data[1..], dist)[i - 1];
      }
    }
  }

  /** Dropping the added distances gives back the dataset: the map adds a field and changes nothing else. */
  lemma {:induction false} AnnotateKeepsRecords(reference: Point, data: seq<District>, dist: Metric)
    ensures Records(Annotate(reference, data, dist)) == data
  {
    if |data| > 0 {
      AnnotateKeepsRecords(reference, data[1..], dist);
      var a := Annotate(reference, data, dist);
      assert a[1..] == Annotate(reference, data[1..], dist);
      assert data == [data[0]] + data[1..];
    }
  }

  /**
   The ranking of `data` around `reference`: a rearrangement of the dataset
   in which each record carries its own distance from the reference, ordered
   by ascending distance, records at equal distance in dataset order.
   */
  function Rank(reference: Point, data: seq<District>, dist: Metric): (r: seq<Ranked>)
    ensures |r| == |data|
    ensures multiset(Records(r)) == multiset(data)
    ensures forall i :: 0 <= i < |r| ==> r[i].distance == dist(reference, r[i].record.Location())
    ensures Sorted(r)
    ensures KeepsTieOrder(r, Annotate(reference, data, dist))
  {
    var annotated := Annotate(reference, data, dist);
    var r := SortByDistance(annotated);
    AnnotateKeepsRecords(reference, data, dist);
    SortRecords(annotated);
    SortKeepsTieOrder(annotated);
    RearrangedKeepsDistances(reference, data, dist, r);
    r
  }

  /** Each entry of any rearrangement of `Annotate(reference, data, dist)` carries its own record's distance. */
  lemma RearrangedKeepsDistances(reference: Point, data: seq<District>, dist: Metric, r: seq<Ranked>)
    requires multiset(r) == multiset(Annotate(reference, data, dist))
    ensures forall i :: 0 <= i < |r| ==> r[i].distance == dist(reference, r[i].record.Location())
  {
    var annotated := Annotate(reference, data, dist);
    AnnotateAt(reference, data, dist);
    forall i | 0 <= i < |r|
      ensures r[i].distance == dist(reference, r[i].record.Location())
    {
      assert r[i] in multiset(annotated);
      var j :| 0 <= j < |annotated| && annotated[j] == r[i];
    }
  }

  /**
   With a distance that is never negative and is zero from a point to
   itself, a record at the reference point is ranked with distance 0, and
   the first entry of the ranking has distance 0.
   */
  lemma ReferenceRanksFirst(reference: Point, data: seq<District>, dist: Metric, i: int)
    requires IsDistance(dist)
    requires 0 <= i < |data| && data[i].Location() == reference
    ensures var r := Rank(reference, data, dist);
      && Ranked(data[i], 0.0) in r
      && r[0].distance == 0.0
  {
    var r := Rank(reference, data, dist);
    var annotated := Annotate(reference, data, dist);
    AnnotateAt(reference, data, dist);
    assert annotated[i] == Ranked(data[i], 0.0);
    assert multiset(r) == multiset(annotated);
    assert Ranked(data[i], 0.0) in multiset(r);
    var j :| 0 <= j < |r| && r[j] == Ranked(data[i], 0.0);
    assert r[0].distance <= r[j].distance;
  }

  /** What a search produces: no ranking at all, or the resolution and the ranking around it. */
  datatype Search = NoMatch | Found(resolution: Resolution, ranking: seq<Ranked>)

  /**
   `fetchSortedDistricts` once the dataset is in memory: resolve the term,
   return without a ranking if nothing matches, otherwise rank every record
   by its distance from the reference record.
   */
  function FetchSortedDistricts(term: string, data: seq<District>, dist: Metric): (r: Search)
    ensures r.NoMatch? <==> !NamesADistrict(data, term) && !NamesAState(data, term)
    ensures r.Found? ==> r.resolution == Resolve(term, data) && !r.resolution.NotFound?
    ensures r.Found? ==> |r.ranking| == |data| && multiset(Records(r.ranking)) == multiset(data)
    ensures r.Found? ==> Sorted(r.ranking)
    ensures r.Found? ==> KeepsTieOrder(r.ranking, Annotate(r.resolution.reference.Location(), data, dist))
    ensures r.Found? ==> forall i :: 0 <= i < |r.ranking| ==>
      r.ranking[i].distance == dist(r.resolution.reference.Location(), r.ranking[i].record.Location())
  {
    var resolution := Resolve(term, data);
    if resolution.NotFound? then NoMatch
    else Found(resolution, Rank(resolution.reference.Location(), data, dist))
  }

  /**
   The resolved reference record is itself in the dataset, so a successful
   search ranks it with distance 0 and puts a distance-0 entry first.
   */
  lemma SearchRanksReferenceFirst(term: string, data: seq<District>, dist: Metric)
    requires IsDistance(dist)
    ensures var r := FetchSortedDistricts(term, data, dist);
      r.Found? ==>
        && Ranked(r.resolution.reference, 0.0) in r.ranking
        && r.ranking[0].distance == 0.0
  {
    var r := FetchSortedDistricts(term, data, dist);
    if r.Found? {
      var i :| 0 <= i < |data| && data[i] == r.resolution.reference;
      ReferenceRanksFirst(r.resolution.reference.Location(), data, dist, i);
    }
  }
}
