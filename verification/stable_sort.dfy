/**
 The sort at script.js:49, `sort((a, b) => a.distance - b.distance)`: an
 ascending sort on the distance that, as `Array.prototype.sort` has been
 required to be since ECMAScript 2019, keeps records of equal distance in
 their input order. It is modelled as a stable insertion sort.
 */
module StableSort {
  import opened Districts

  /** Non-decreasing in distance. */
  predicate Sorted(s: seq<Ranked>) {
    forall i, j :: 0 <= i < j < |s| ==> s[i].distance <= s[j].distance
  }

  /** The entries at distance `k`, in the order they appear in `s`. */
  function AtDistance(s: seq<Ranked>, k: real): (r: seq<Ranked>)
    ensures |r| <= |s|
  {
    if |s| == 0 then []
    else (if s[0].distance == k then [s[0]] else []) + AtDistance(s[1..], k)
  }

  /**
   `out` keeps, for every distance, the entries at that distance in the order
   `s` has them: the definition of a stable rearrangement.
   */
  ghost predicate KeepsTieOrder(out: seq<Ranked>, s: seq<Ranked>) {
    forall k :: AtDistance(out, k) == AtDistance(s, k)
  }

  /**
   Inserts `x` before the first entry that is at least as far away, so that
   `x`, which came first in the input, stays ahead of entries at its distance.
   */
  function Insert(x: Ranked, s: seq<Ranked>): (r: seq<Ranked>)
    ensures |r| == |s| + 1
    ensures multiset(r) == multiset(s) + multiset{x}
  {
    if |s| == 0 || x.distance <= s[0].distance then
      [x] + s
    else
      var rest := Insert(x, s[1..]);
      assert s == [s[0]] + s[1..];
      assert multiset([s[0]] + rest) == multiset{s[0]} + multiset(rest);
      [s[0]] + rest
  }

  /** Inserting into a sorted list keeps it sorted. */
  lemma {:induction false} InsertSorted(x: Ranked, s: seq<Ranked>)
    requires Sorted(s)
    ensures Sorted(Insert(x, s))
    ensures Insert(x, s)[0] == x || (|s| > 0 && Insert(x, s)[0] == s[0])
  {
    if |s| == 0 || x.distance <= s[0].distance {
      SortedCons(x, s);
    } else {
      var rest := Insert(x, s[1..]);
      InsertSorted(x, s[1..]);
      SortedCons(s[0], rest);
    }
  }

  /** Putting an entry in front of a sorted list keeps it sorted if the entry is no farther than the old head. */
  lemma SortedCons(h: Ranked, t: seq<Ranked>)
    ensures Sorted(t) && (|t| == 0 || h.distance <= t[0].distance) ==> Sorted([h] + t)
  {
    if Sorted(t) && (|t| == 0 || h.distance <= t[0].distance) {
      forall i, j | 0 <= i < j < |[h] + t|
        ensures ([h] + t)[i].distance <= ([h] + t)[j].distance
      {
        if i > 0 {
          assert ([h] + t)[i] == t[i - 1];
        }
        assert ([h] + t)[j] == t[j - 1];
      }
    }
  }

  /** Insertion sort: sorts the tail, then inserts the head in front of its ties. */
  function SortByDistance(s: seq<Ranked>): (r: seq<Ranked>)
    ensures |r| == |s|
    ensures multiset(r) == multiset(s)
    ensures Sorted(r)
  {
    if |s| == 0 then []
    else
      assert s == [s[0]] + s[1..];
      InsertSorted(s[0], SortByDistance(s[1..]));
      Insert(s[0], SortByDistance(s[1..]))
  }

  /** Inserting adds exactly the record of `x` to the records of `s`. */
  lemma {:induction false} InsertRecords(x: Ranked, s: seq<Ranked>)
    ensures multiset(Records(Insert(x, s))) == multiset(Records(s)) + multiset{x.record}
  {
    if |s| == 0 || x.distance <= s[0].distance {
      RecordsCons(x, s);
    } else {
      InsertRecords(x, s[1..]);
      RecordsCons(s[0], Insert(x, s[1..]));
      RecordsCons(s[0], s[1..]);
      assert s == [s[0]] + s[1..];
    }
  }

  /** The sorted list holds the same records as its input, as many times each. */
  lemma {:induction false} SortRecords(s: seq<Ranked>)
    ensures multiset(Records(SortByDistance(s))) == multiset(Records(s))
  {
    if |s| > 0 {
      SortRecords(s[1..]);
      InsertRecords(s[0], SortByDistance(s[1..]));
    }
  }

  /** The entry `e` if it is at distance `k`, else nothing. */
  function Tie(e: Ranked, k: real): seq<Ranked> {
    if e.distance == k then [e] else []
  }

  /** `AtDistance` of a list with a head: the head's contribution, then the tail's. */
  lemma AtDistanceCons(h: Ranked, t: seq<Ranked>, k: real)
    ensures AtDistance([h] + t, k) == Tie(h, k) + AtDistance(t, k)
  {
    assert ([h] + t)[0] == h;
    assert ([h] + t)[1..] == t;
  }

  /** Two entries at different distances cannot both be at distance `k`, so their ties commute. */
  lemma TieSwap(a: Ranked, b: Ranked, k: real, t: seq<Ranked>)
    requires a.distance != b.distance
    ensures Tie(a, k) + (Tie(b, k) + t) == Tie(b, k) + (Tie(a, k) + t)
  {
  }

  /** Inserting `x` places it where it would have been at the head, as far as its ties go. */
  lemma {:induction false} InsertKeepsTieOrder(x: Ranked, s: seq<Ranked>, k: real)
    ensures AtDistance(Insert(x, s), k) == AtDistance([x] + s, k)
  {
    if |s| == 0 || x.distance <= s[0].distance {
    } else {
      var rest := Insert(x, s[1..]);
      calc {
        AtDistance(Insert(x, s), k);
        AtDistance([s[0]] + rest, k);
        { AtDistanceCons(s[0], rest, k); }
        Tie(s[0], k) + AtDistance(rest, k);
        { InsertKeepsTieOrder(x, s[1..], k); }
        Tie(s[0], k) + AtDistance([x] + s[1..], k);
        { AtDistanceCons(x, s[1..], k); }
        Tie(s[0], k) + (Tie(x, k) + AtDistance(s[1..], k));
        { TieSwap(s[0], x, k, AtDistance(s[1..], k)); }
        Tie(x, k) + (Tie(s[0], k) + AtDistance(s[1..], k));
        Tie(x, k) + AtDistance(s, k);
        { AtDistanceCons(x, s, k); }
        AtDistance([x] + s, k);
      }
    }
  }

  /** The sort is stable: entries at equal distance keep their input order. */
  lemma {:induction false} SortKeepsTieOrder(s: seq<Ranked>)
    ensures KeepsTieOrder(SortByDistance(s), s)
  {
    if |s| > 0 {
      SortKeepsTieOrder(s[1..]);
      forall k
        ensures AtDistance(SortByDistance(s), k) == AtDistance(s, k)
      {
        var tail := SortByDistance(s[1..]);
        InsertKeepsTieOrder(s[0], tail, k);
        assert ([s[0]] + tail)[1..] == tail;
      }
    }
  }

  /** Some entry sits at distance `k` exactly when `AtDistance(s, k)` is non-empty. */
  lemma {:induction false} AtDistanceNonEmpty(s: seq<Ranked>, k: real)
    ensures AtDistance(s, k) != [] <==> exists i :: 0 <= i < |s| && s[i].distance == k
  {
    if |s| > 0 {
      AtDistanceNonEmpty(s[1..], k);
      if s[0].distance != k && AtDistance(s[1..], k) == [] {
        forall i | 0 <= i < |s|
          ensures s[i].distance != k
        {
          if i > 0 {
            assert s[i] == s[1..][i - 1];
          }
        }
      }
      if AtDistance(s[1..], k) != [] {
        var i :| 0 <= i < |s[1..]| && s[1..][i].distance == k;
        assert s[i + 1].distance == k;
      }
    }
  }

  /** A non-empty list has its head at the head's distance. */
  lemma HeadIsAtItsDistance(s: seq<Ranked>)
    requires |s| > 0
    ensures exists k :: AtDistance(s, k) != []
  {
    assert AtDistance(s, s[0].distance) != [];
  }

  /** Only the empty list has no entry at any distance. */
  lemma OnlyEmptyMatchesEmpty(a: seq<Ranked>, b: seq<Ranked>)
    requires |a| == 0
    requires forall k :: AtDistance(a, k) == AtDistance(b, k)
    ensures |b| == 0
  {
    if |b| != 0 {
      HeadIsAtItsDistance(b);
      assert false;
    }
  }

  /**
   There is only one sorted, stable arrangement: two sorted lists with the same
   entries at every distance, in the same order, are equal.
   */
  lemma {:induction false} SortedStableIsUnique(a: seq<Ranked>, b: seq<Ranked>)
    requires Sorted(a) && Sorted(b)
    requires forall k :: AtDistance(a, k) == AtDistance(b, k)
    ensures a == b
  {
    if |a| == 0 {
      OnlyEmptyMatchesEmpty(a, b);
    } else if |b| == 0 {
      OnlyEmptyMatchesEmpty(b, a);
    } else {
      SameHead(a, b);
      SameTails(a, b);
      SortedStableIsUnique(a[1..], b[1..]);
      assert a == [a[0]] + a[1..];
      assert b == [b[0]] + b[1..];
    }
  }

  /** Two sorted lists with the same entries at every distance start with the same entry. */
  lemma SameHead(a: seq<Ranked>, b: seq<Ranked>)
    requires |a| > 0 && |b| > 0
    requires Sorted(a) && Sorted(b)
    requires forall k :: AtDistance(a, k) == AtDistance(b, k)
    ensures a[0] == b[0]
  {
    var m, n := a[0].distance, b[0].distance;
    AtDistanceNonEmpty(b, m);
    AtDistanceNonEmpty(a, n);
    assert n <= m;
    assert m <= n;
    assert AtDistance(a, m)[0] == a[0];
    assert AtDistance(b, m)[0] == b[0];
    assert AtDistance(a, m) == AtDistance(b, m);
  }

  /** Removing the same head from both lists keeps the entries at every distance equal. */
  lemma SameTails(a: seq<Ranked>, b: seq<Ranked>)
    requires |a| > 0 && |b| > 0 && a[0] == b[0]
    requires forall k :: AtDistance(a, k) == AtDistance(b, k)
    ensures forall k :: AtDistance(a[1..], k) == AtDistance(b[1..], k)
  {
    forall k
      ensures AtDistance(a[1..], k) == AtDistance(b[1..], k)
    {
      assert AtDistance(a, k) == Tie(a[0], k) + AtDistance(a[1..], k);
      assert AtDistance(b, k) == Tie(a[0], k) + AtDistance(b[1..], k);
      assert AtDistance(a, k) == AtDistance(b, k);
      assert AtDistance(a[1..], k) == AtDistance(a, k)[|Tie(a[0], k)|..];
      assert AtDistance(b[1..], k) == AtDistance(b, k)[|Tie(a[0], k)|..];
    }
  }

  /**
   The sort is characterised by its specification: any sorted list that keeps
   the tie order of `s` is `SortByDistance(s)`, and is therefore a permutation of `s`.
   */
  lemma SortIsTheStableSortedArrangement(s: seq<Ranked>, out: seq<Ranked>)
    requires Sorted(out) && KeepsTieOrder(out, s)
    ensures out == SortByDistance(s)
    ensures multiset(out) == multiset(s)
  {
    SortKeepsTieOrder(s);
    SortedStableIsUnique(out, SortByDistance(s));
  }
}
