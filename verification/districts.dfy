/**
 The records of the district dataset (`updated_districts.json`): one entry per
 district with its state and coordinates, and the ranked form the browser
 script builds with `{ ...district, distance }`.
 */
module Districts {

  /** A latitude/longitude pair in degrees. */
  datatype Point = Point(latitude: real, longitude: real)

  /** One dataset record: `{ district, state, latitude, longitude }`. */
  datatype District = District(district: string, state: string, latitude: real, longitude: real) {
    function Location(): Point {
      Point(latitude, longitude)
    }
  }

  /** A record together with its distance from the reference point. */
  datatype Ranked = Ranked(record: District, distance: real)

  /**
   The great-circle distance function (haversine, in km) is taken as a
   parameter; the ranking only relies on the two facts below.
   */
  type Metric = (Point, Point) -> real

  ghost predicate IsDistance(dist: Metric) {
    && (forall p, q :: dist(p, q) >= 0.0)
    && (forall p :: dist(p, p) == 0.0)
  }

  /** The records of a ranked list, in the list's order (the ranking with its distances dropped). */
  function Records(s: seq<Ranked>): (r: seq<District>)
    ensures |r| == |s|
  {
    if |s| == 0 then [] else [s[0].record] + Records(s[1..])
  }

  lemma RecordsCons(h: Ranked, t: seq<Ranked>)
    ensures Records([h] + t) == [h.record] + Records(t)
  {
    assert ([h] + t)[1..] == t;
  }
}
