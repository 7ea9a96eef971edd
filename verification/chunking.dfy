/**
 The chunk split of alteration.py:51,
 `[data[i:i + size] for i in range(0, len(data), size)]`.
 */
module Chunking {
  import opened Wrappers

  /** `range()` refuses a zero step with a `ValueError`. */
  datatype ChunkError = ZeroChunkSize

  function Min(a: int, b: int): int {
    if a <= b then a else b
  }

  /** The concatenation of a list of lists, in order. */
  function Flatten<T>(chunks: seq<seq<T>>): (r: seq<T>)
  {
    if |chunks| == 0 then [] else chunks[0] + Flatten(chunks[1..])
  }

  /**
   The slices taken at offsets `from`, `from + size`, ... below `|s|`, each
   clipped at the end of `s` as a Python slice is.
   */
  function ChunksFrom<T>(s: seq<T>, size: nat, from: nat): seq<seq<T>>
    requires size > 0
    decreases |s| - from
  {
    if from >= |s| then [] else [s[from..Min(from + size, |s|)]] + ChunksFrom(s, size, from + size)
  }

  /**
   The whole comprehension. A negative step gives an empty range, hence no
   chunks; a zero step raises.
   */
  function SplitChunks<T>(s: seq<T>, size: int): (r: Result<seq<seq<T>>, ChunkError>)
    ensures r.Failure? <==> size == 0
    ensures size < 0 ==> r == Success([])
    ensures size > 0 ==> r.Success? && Flatten(r.value) == s
    ensures size > 0 ==> r.Success? && IsChunking(r.value, size)
    ensures size > 0 ==> r.Success? && |r.value| == (|s| + size - 1) / size
  {
    if size == 0 then Failure(ZeroChunkSize)
    else if size < 0 then Success([])
    else
      ChunksFromFlatten(s, size, 0);
      ChunksFromShape(s, size, 0);
      ChunksFromCount(s, size, 0);
      Success(ChunksFrom(s, size, 0))
  }

  /** Every chunk is non-empty and at most `size` long; all but the last are exactly `size` long. */
  ghost predicate IsChunking<T>(chunks: seq<seq<T>>, size: nat) {
    && (forall k :: 0 <= k < |chunks| ==> 0 < |chunks[k]| <= size)
    && (forall k :: 0 <= k < |chunks| - 1 ==> |chunks[k]| == size)
  }

  /** Concatenating the chunks taken from offset `from` gives back `s[from..]`. */
  lemma {:induction false} ChunksFromFlatten<T>(s: seq<T>, size: nat, from: nat)
    requires size > 0
    requires from <= |s|
    ensures Flatten(ChunksFrom(s, size, from)) == s[from..]
    decreases |s| - from
  {
    if from < |s| {
      var end := Min(from + size, |s|);
      var rest := ChunksFrom(s, size, from + size);
      if from + size < |s| {
        ChunksFromFlatten(s, size, from + size);
      } else {
        assert rest == [];
      }
      assert ([s[from..end]] + rest)[1..] == rest;
      assert s[from..] == s[from..end] + s[end..];
    }
  }

  lemma {:induction false} ChunksFromShape<T>(s: seq<T>, size: nat, from: nat)
    requires size > 0
    ensures IsChunking(ChunksFrom(s, size, from), size)
    decreases |s| - from
  {
    if from < |s| {
      ChunksFromShape(s, size, from + size);
      var head := s[from..Min(from + size, |s|)];
      var rest := ChunksFrom(s, size, from + size);
      var chunks := [head] + rest;
      assert |rest| > 0 ==> from + size < |s|;
      forall k | 0 <= k < |chunks|
        ensures 0 < |chunks[k]| <= size
        ensures k < |chunks| - 1 ==> |chunks[k]| == size
      {
        if k > 0 {
          assert chunks[k] == rest[k - 1];
        }
      }
    }
  }

  /** From offset `from`, there are `ceil((|s| - from) / size)` chunks. */
  lemma {:induction false} ChunksFromCount<T>(s: seq<T>, size: nat, from: nat)
    requires size > 0
    requires from <= |s|
    ensures |ChunksFrom(s, size, from)| == (|s| - from + size - 1) / size
    decreases |s| - from
  {
    var n := |s| - from;
    if n == 0 {
      DivSmall(size - 1, size);
    } else if n <= size {
      DivSmall(n - 1, size);
      DivStep(n - 1, size);
      assert ChunksFrom(s, size, from + size) == [];
    } else {
      ChunksFromCount(s, size, from + size);
      DivStep(n - size + size - 1, size);
    }
  }

  /** Adding `size` to a non-negative numerator adds one to the quotient. */
  lemma DivStep(m: nat, size: nat)
    requires size > 0
    ensures (m + size) / size == m / size + 1
  {
    var q, r := m / size, m % size;
    var q', r' := (m + size) / size, (m + size) % size;
    assert m + size == (q + 1) * size + r;
    assert (q' - q - 1) * size == r - r';
    if q' > q + 1 {
      AtLeastOneMultiple(q' - q - 1, size);
    } else if q' < q + 1 {
      AtLeastOneMultiple(q + 1 - q', size);
    }
  }

  /** A numerator below the divisor gives quotient 0. */
  lemma DivSmall(m: nat, size: nat)
    requires m < size
    ensures m / size == 0
  {
    var q := m / size;
    assert m == q * size + m % size;
    if q >= 1 {
      AtLeastOneMultiple(q, size);
    }
  }

  lemma AtLeastOneMultiple(k: int, size: nat)
    requires k >= 1
    ensures k * size >= size
  {
    assert k * size == (k - 1) * size + size;
  }

  /** The list is empty exactly when there are no chunks. */
  lemma NoChunksIffEmpty<T>(s: seq<T>, size: int)
    requires size > 0
    ensures SplitChunks(s, size).value == [] <==> |s| == 0
  {
    if |s| > 0 {
      assert (|s| + size - 1) / size >= 1;
    }
  }
}
