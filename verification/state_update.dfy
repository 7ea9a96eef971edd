/**
 The dataset updater (alteration.py:35-67): each entry's district name is
 normalised, its state is looked up, and the entry's `state` field is
 overwritten; the dataset is processed chunk by chunk.

 The state lookup (`fetch_state_for_city`, an HTTP client with retries that
 answers "Unknown" on request errors and when no feature is found) is a
 parameter `lookup`.
 */
module StateUpdate {
  import opened Wrappers
  import opened Text
  import Chunking

  /** A JSON value as `json.load` yields it, as far as the updater looks at it. */
  datatype Value = Str(text: string) | Num(number: real) | Other

  /** One dataset entry: a JSON object. */
  type Entry = map<string, Value>

  datatype UpdateError =
    | ZeroChunkSize       // `range()` with a zero step raises ValueError
    | DistrictNotText     // `entry.get("district")` is absent or not a string, so `.lower()` raises

  /** `normalize_city_name`: lower-case, then strip surrounding whitespace. */
  function NormalizeCityName(name: string): (r: string)
    ensures |r| <= |name|
  {
    Strip(Lower(name))
  }

  /**
   A normalised name is the lower-cased name with only surrounding
   whitespace removed; it has no upper-case letter and no whitespace at
   either end.
   */
  lemma NormalizedForm(name: string)
    ensures HasNoUpper(NormalizeCityName(name))
    ensures IsTrimmed(NormalizeCityName(name))
    ensures exists a, b :: IsStripWindow(Lower(name), a, b) && NormalizeCityName(name) == Lower(name)[a..b]
  {
    LowerIsIdempotent(name);
    StripSpec(Lower(name));
    StripKeepsNoUpper(Lower(name));
  }

  /** Stripping only removes characters, so it cannot introduce an upper-case letter. */
  lemma StripKeepsNoUpper(s: string)
    requires HasNoUpper(s)
    ensures HasNoUpper(Strip(s))
  {
    var r := Strip(s);
    StripSpec(s);
    var a, b :| IsStripWindow(s, a, b) && r == s[a..b];
    assert forall i :: 0 <= i < |r| ==> r[i] == s[a + i];
  }

  /** Normalising an already normalised name changes nothing. */
  lemma {:induction false} NormalizeIsIdempotent(name: string)
    ensures NormalizeCityName(NormalizeCityName(name)) == NormalizeCityName(name)
  {
    var once := NormalizeCityName(name);
    NormalizedForm(name);
    LowerOfLowerCase(once);
    StripOfTrimmed(once);
  }

  predicate HasDistrictName(entry: Entry) {
    "district" in entry && entry["district"].Str?
  }

  /** `entry["state"] = state`: adds or overwrites `state` and no other field. */
  function SetState(entry: Entry, state: string): (r: Entry)
    ensures r.Keys == entry.Keys + {"state"}
    ensures r["state"] == Str(state)
    ensures forall k :: k in entry && k != "state" ==> r[k] == entry[k]
  {
    entry["state" := Str(state)]
  }

  /**
   `process_single_entry`: sets `state` to the state looked up for the
   normalised district name. Every other field, `district` included, keeps
   its value; `state` is added if it was missing.
   */
  function ProcessSingleEntry(entry: Entry, lookup: string -> string): (r: Result<Entry, UpdateError>)
    ensures r.Success? <==> HasDistrictName(entry)
    ensures r.Failure? ==> r.error == DistrictNotText
    ensures r.Success? ==> r.value.Keys == entry.Keys + {"state"}
    ensures r.Success? ==> r.value["state"] == Str(lookup(NormalizeCityName(entry["district"].text)))
    ensures r.Success? ==> forall k :: k in entry && k != "state" ==> r.value[k] == entry[k]
  {
    if HasDistrictName(entry) then
      var cityName := NormalizeCityName(entry["district"].text);
      Success(SetState(entry, lookup(cityName)))
    else
      Failure(DistrictNotText)
  }

  /** `out` is `entries` with every entry processed, one for one and in order. */
  ghost predicate ProcessedAs(out: seq<Entry>, entries: seq<Entry>, lookup: string -> string) {
    && |out| == |entries|
    && forall i :: 0 <= i < |entries| ==> ProcessSingleEntry(entries[i], lookup) == Success(out[i])
  }

  predicate AllHaveDistrictNames(entries: seq<Entry>) {
    forall i :: 0 <= i < |entries| ==> HasDistrictName(entries[i])
  }

  /**
   The inner loop (alteration.py:59-62): processes the entries of one chunk
   in order; the first entry without a district name aborts the chunk.
   */
  method ProcessChunk(chunk: seq<Entry>, lookup: string -> string) returns (r: Result<seq<Entry>, UpdateError>)
    ensures r.Success? <==> AllHaveDistrictNames(chunk)
    ensures r.Failure? ==> r.error == DistrictNotText
    ensures r.Success? ==> ProcessedAs(r.value, chunk, lookup)
  {
    var processed: seq<Entry> := [];
    var i := 0;
    while i < |chunk|
      invariant 0 <= i <= |chunk|
      invariant AllHaveDistrictNames(chunk[..i])
      invariant ProcessedAs(processed, chunk[..i], lookup)
    {
      var entry := ProcessSingleEntry(chunk[i], lookup);
      if entry.Failure? {
        return Failure(entry.error);
      }
      processed := processed + [entry.value];
      i := i + 1;
    }
    assert chunk[..i] == chunk;
    return Success(processed);
  }

  /** Processing chunk by chunk and concatenating is processing the concatenation. */
  lemma {:induction false} ProcessedChunksFlatten(written: seq<seq<Entry>>, chunks: seq<seq<Entry>>, lookup: string -> string)
    requires |written| == |chunks|
    requires forall k :: 0 <= k < |chunks| ==> ProcessedAs(written[k], chunks[k], lookup)
    ensures ProcessedAs(Chunking.Flatten(written), Chunking.Flatten(chunks), lookup)
  {
    if |chunks| > 0 {
      ProcessedChunksFlatten(written[1..], chunks[1..], lookup);
      var w, c := Chunking.Flatten(written[1..]), Chunking.Flatten(chunks[1..]);
      assert Chunking.Flatten(written) == written[0] + w;
      assert Chunking.Flatten(chunks) == chunks[0] + c;
      assert ProcessedAs(written[0], chunks[0], lookup);
      forall i | 0 <= i < |chunks[0] + c|
        ensures ProcessSingleEntry((chunks[0] + c)[i], lookup) == Success((written[0] + w)[i])
      {
        if i >= |chunks[0]| {
          assert (chunks[0] + c)[i] == c[i - |chunks[0]|];
          assert (written[0] + w)[i] == w[i - |chunks[0]|];
        }
      }
    }
  }

  /** What a run leaves behind: the processed chunks in output order, and the error that stopped it, if any. */
  datatype Run = Run(written: seq<seq<Entry>>, failure: Option<UpdateError>)

  /**
   `update_states_in_chunks` without the file system: splits the dataset,
   processes the chunks in order and collects each processed chunk where the
   source writes `output_part_<n>.json`. An error stops the run; the chunks
   finished before it stay written.
   */
  method UpdateStatesInChunks(data: seq<Entry>, chunkSize: int, lookup: string -> string) returns (run: Run)
    ensures chunkSize == 0 ==> run == Run([], Some(ZeroChunkSize))
    ensures chunkSize < 0 ==> run == Run([], None)
    ensures run.failure.None? <==> chunkSize < 0 || (chunkSize > 0 && AllHaveDistrictNames(data))
    ensures run.failure.Some? && chunkSize > 0 ==> run.failure == Some(DistrictNotText)
    ensures chunkSize > 0 ==> |run.written| <= (|data| + chunkSize - 1) / chunkSize
    ensures chunkSize > 0 ==> forall k :: 0 <= k < |run.written| ==> 0 < |run.written[k]| <= chunkSize
    ensures chunkSize > 0 && run.failure.None? ==> ProcessedAs(Chunking.Flatten(run.written), data, lookup)
    ensures chunkSize > 0 && run.failure.None? ==>
      var chunks := Chunking.SplitChunks(data, chunkSize).value;
      && |run.written| == |chunks|
      && forall j :: 0 <= j < |run.written| ==> ProcessedAs(run.written[j], chunks[j], lookup)
    ensures chunkSize > 0 && run.failure.Some? ==>
      var chunks := Chunking.SplitChunks(data, chunkSize).value;
      && |run.written| < |chunks|
      && !AllHaveDistrictNames(chunks[|run.written|])
      && forall j :: 0 <= j < |run.written| ==>
           AllHaveDistrictNames(chunks[j]) && ProcessedAs(run.written[j], chunks[j], lookup)
  {
    var split := Chunking.SplitChunks(data, chunkSize);
    if split.Failure? {
      return Run([], Some(ZeroChunkSize));
    }
    var chunks := split.value;
    var written: seq<seq<Entry>> := [];
    var k := 0;
    while k < |chunks|
      invariant 0 <= k <= |chunks|
      invariant |written| == k
      invariant forall j :: 0 <= j < k ==> ProcessedAs(written[j], chunks[j], lookup)
      invariant forall j :: 0 <= j < k ==> AllHaveDistrictNames(chunks[j])
    {
      var processed := ProcessChunk(chunks[k], lookup);
      if processed.Failure? {
        ChunkWithoutName(chunks, k, data);
        return Run(written, Some(processed.error));
      }
      written := written + [processed.value];
      k := k + 1;
    }
    if chunkSize > 0 {
      ProcessedChunksFlatten(written, chunks, lookup);
      AllChunksNamed(chunks, data);
    }
    return Run(written, None);
  }

  /** An entry of some chunk is an entry of the dataset. */
  lemma ChunkWithoutName(chunks: seq<seq<Entry>>, k: int, data: seq<Entry>)
    requires 0 <= k < |chunks| && Chunking.Flatten(chunks) == data
    requires !AllHaveDistrictNames(chunks[k])
    ensures !AllHaveDistrictNames(data)
  {
    var i :| 0 <= i < |chunks[k]| && !HasDistrictName(chunks[k][i]);
    FlattenContains(chunks, k, i);
  }

  lemma {:induction false} FlattenContains(chunks: seq<seq<Entry>>, k: int, i: int)
    requires 0 <= k < |chunks| && 0 <= i < |chunks[k]|
    ensures chunks[k][i] in Chunking.Flatten(chunks)
  {
    if k > 0 {
      FlattenContains(chunks[1..], k - 1, i);
    }
  }

  /** If every chunk has only named entries, so has the dataset. */
  lemma AllChunksNamed(chunks: seq<seq<Entry>>, data: seq<Entry>)
    requires Chunking.Flatten(chunks) == data
    requires forall j :: 0 <= j < |chunks| ==> AllHaveDistrictNames(chunks[j])
    ensures AllHaveDistrictNames(data)
  {
    forall i | 0 <= i < |data|
      ensures HasDistrictName(data[i])
    {
      var k, j := FlattenIndex(chunks, i);
    }
  }

  /** Every position of the concatenation falls in some chunk. */
  lemma {:induction false} FlattenIndex(chunks: seq<seq<Entry>>, i: int) returns (k: int, j: int)
    requires 0 <= i < |Chunking.Flatten(chunks)|
    ensures 0 <= k < |chunks| && 0 <= j < |chunks[k]|
    ensures Chunking.Flatten(chunks)[i] == chunks[k][j]
  {
    var rest := Chunking.Flatten(chunks[1..]);
    assert Chunking.Flatten(chunks) == chunks[0] + rest;
    if i < |chunks[0]| {
      k, j := 0, i;
    } else {
      var k', j' := FlattenIndex(chunks[1..], i - |chunks[0]|);
      k, j := k' + 1, j';
    }
  }
}
