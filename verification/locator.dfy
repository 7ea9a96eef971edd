/**
 Resolution of the search term to a reference record (script.js:13-37): an
 exact, case-insensitive district-name match wins; failing that, the first
 record of a state whose name matches; failing both, nothing is found.
 */
module Locator {
  import opened Wrappers
  import opened Text
  import opened Districts

  /** What the term resolved to; the reference record supplies the coordinates. */
  datatype Resolution =
    | DistrictMatch(reference: District)
    | StateMatch(reference: District)
    | NotFound

  /** `i` is the first record whose district name equals `term`, ignoring case. */
  ghost predicate IsFirstDistrictMatch(data: seq<District>, term: string, i: int) {
    && 0 <= i < |data|
    && SameIgnoringCase(data[i].district, term)
    && forall j :: 0 <= j < i ==> !SameIgnoringCase(data[j].district, term)
  }

  /** `i` is the first record whose state name equals `term`, ignoring case. */
  ghost predicate IsFirstStateMatch(data: seq<District>, term: string, i: int) {
    && 0 <= i < |data|
    && SameIgnoringCase(data[i].state, term)
    && forall j :: 0 <= j < i ==> !SameIgnoringCase(data[j].state, term)
  }

  ghost predicate NamesADistrict(data: seq<District>, term: string) {
    exists i :: 0 <= i < |data| && SameIgnoringCase(data[i].district, term)
  }

  ghost predicate NamesAState(data: seq<District>, term: string) {
    exists i :: 0 <= i < |data| && SameIgnoringCase(data[i].state, term)
  }

  /**
   `districtsData.find(d => d.district.toLowerCase() === key)`, searching from
   position `from`: the position of the first match, if any.
   */
  function FindDistrict(data: seq<District>, key: string, from: nat): (r: Option<nat>)
    requires from <= |data|
    ensures r.Some? ==> from <= r.value < |data| && Lower(data[r.value].district) == key
    ensures r.Some? ==> forall j :: from <= j < r.value ==> Lower(data[j].district) != key
    ensures r.None? ==> forall j :: from <= j < |data| ==> Lower(data[j].district) != key
    decreases |data| - from
  {
    if from == |data| then None
    else if Lower(data[from].district) == key then Some(from)
    else FindDistrict(data, key, from + 1)
  }

  /** `districtsData.filter(d => d.state.toLowerCase() === key)`. */
  function FilterState(data: seq<District>, key: string): (r: seq<District>)
    ensures |r| <= |data|
    ensures forall i :: 0 <= i < |r| ==> Lower(r[i].state) == key
    ensures |r| == 0 <==> forall j :: 0 <= j < |data| ==> Lower(data[j].state) != key
  {
    if |data| == 0 then []
    else
      var rest := FilterState(data[1..], key);
      assert forall j :: 1 <= j < |data| ==> data[j] == data[1..][j - 1];
      if Lower(data[0].state) == key then [data[0]] + rest else rest
  }

  /** The first record the filter keeps is the first state match in the dataset. */
  lemma {:induction false} FilterStateHead(data: seq<District>, key: string)
    requires |FilterState(data, key)| > 0
    ensures exists i ::
              && 0 <= i < |data| && data[i] == FilterState(data, key)[0]
              && Lower(data[i].state) == key
              && forall j :: 0 <= j < i ==> Lower(data[j].state) != key
  {
    if Lower(data[0].state) == key {
      assert data[0] == FilterState(data, key)[0];
    } else {
      FilterStateHead(data[1..], key);
      var i :| 0 <= i < |data[1..]| && data[1..][i] == FilterState(data[1..], key)[0]
        && Lower(data[1..][i].state) == key
        && forall j :: 0 <= j < i ==> Lower(data[1..][j].state) != key;
      assert data[i + 1] == FilterState(data, key)[0];
      forall j | 0 <= j < i + 1
        ensures Lower(data[j].state) != key
      {
        if j > 0 {
          assert data[j] == data[1..][j - 1];
        }
      }
    }
  }

  /**
   The locator. The term is lower-cased once; a district match takes
   priority over a state match even when the term names both, and among
   several matches the first in dataset order is the reference.
   */
  function Resolve(term: string, data: seq<District>): (r: Resolution)
    ensures r.DistrictMatch? <==> NamesADistrict(data, term)
    ensures r.DistrictMatch? ==> exists i :: IsFirstDistrictMatch(data, term, i) && r.reference == data[i]
    ensures r.StateMatch? <==> !NamesADistrict(data, term) && NamesAState(data, term)
    ensures r.StateMatch? ==> exists i :: IsFirstStateMatch(data, term, i) && r.reference == data[i]
    ensures r.NotFound? <==> !NamesADistrict(data, term) && !NamesAState(data, term)
  {
    var key := Lower(term);
    var searched := FindDistrict(data, key, 0);
    var stateDistricts := FilterState(data, key);
    if searched.None? && |stateDistricts| == 0 then
      NotFound
    else if searched.Some? then
      assert IsFirstDistrictMatch(data, term, searched.value);
      DistrictMatch(data[searched.value])
    else
      FilterStateHead(data, key);
      StateMatch(stateDistricts[0])
  }

  /**
   Terms that differ only in letter case, character by character, resolve to
   the same reference.
   */
  lemma {:induction false} ResolveIgnoresCase(term: string, other: string, data: seq<District>)
    requires |term| == |other|
    requires forall i :: 0 <= i < |term| ==> LowerChar(term[i]) == LowerChar(other[i])
    ensures Resolve(term, data) == Resolve(other, data)
  {
    LowerAt(term);
    LowerAt(other);
    assert Lower(term) == Lower(other);
  }

  /** In particular the upper- and lower-case spellings of a term resolve like the term. */
  lemma ResolveCaseVariants(term: string, data: seq<District>)
    ensures Resolve(Upper(term), data) == Resolve(term, data)
    ensures Resolve(Lower(term), data) == Resolve(term, data)
  {
    LowerOfUpper(term);
    LowerIsIdempotent(term);
  }

  /**
   A district named "Alpha" in state "Beta" and a district "Gamma" in state
   "Alpha": the term "ALPHA" resolves to the district "Alpha", although the
   record of state "Alpha" comes first.
   */
  lemma DistrictNameBeatsEarlierStateName()
    ensures var data := [District("Gamma", "Alpha", 1.0, 2.0), District("Alpha", "Beta", 3.0, 4.0)];
      Resolve("ALPHA", data) == DistrictMatch(data[1])
  {
    var data := [District("Gamma", "Alpha", 1.0, 2.0), District("Alpha", "Beta", 3.0, 4.0)];
    LowerAt("ALPHA");
    LowerAt("Alpha");
    LowerAt("Gamma");
    assert Lower("ALPHA") == "alpha";
    assert Lower("Alpha") == "alpha";
    assert Lower("Gamma") != "alpha";
    assert SameIgnoringCase(data[1].district, "ALPHA");
    assert !SameIgnoringCase(data[0].district, "ALPHA");
  }

  /** A term that names no district and no state, such as "Atlantis", is not found. */
  lemma UnknownTermIsNotFound()
    ensures var data := [District("Gamma", "Alpha", 1.0, 2.0), District("Alpha", "Beta", 3.0, 4.0)];
      Resolve("Atlantis", data) == NotFound
  {
  }
}
