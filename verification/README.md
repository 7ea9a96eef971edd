# District proximity search — Dafny model

A model of the lookup-and-rank core of a small district-proximity tool and of
the helper script that prepared its dataset.

* **Browser search** (`script.js`, `fetchSortedDistricts`). A search term is
  lower-cased and resolved against the district dataset. The first record
  whose district name equals the term wins. Failing that, the first record
  whose state name equals it wins. Failing both, the search ends without a
  ranking. Otherwise every record is paired with its distance from the
  reference record's coordinates, and the list is sorted by ascending
  distance with a stable sort.
* **Dataset updater** (`alteration.py`). The dataset is split into chunks of
  `chunk_size` entries. Each entry's district name is normalised (lower-cased,
  surrounding whitespace stripped), its state is looked up, and the entry's
  `state` field is overwritten.

Modules, one per concern:

| file | module | models |
|---|---|---|
| `wrappers.dfy` | `Wrappers` | `Option`, `Result` |
| `text.dfy` | `Text` | `toLowerCase` / `str.lower` (ASCII) and Python's `str.strip()` |
| `districts.dfy` | `Districts` | dataset records, ranked records, the distance parameter |
| `locator.dfy` | `Locator` | `find` on district names, `filter` on state names, the resolution |
| `stable_sort.dfy` | `StableSort` | `sort((a, b) => a.distance - b.distance)` as a stable insertion sort |
| `ranker.dfy` | `Ranker` | the `map` that adds `distance`, the ranking, the whole search |
| `chunking.dfy` | `Chunking` | the list comprehension that splits the dataset |
| `state_update.dfy` | `StateUpdate` | `normalize_city_name`, `process_single_entry`, the chunk loops |

The haversine distance is a parameter `dist: (Point, Point) -> real`. Every
property of the ranking holds for any such function, except the two lemmas
about the reference record ranking first. Those also require
`Districts.IsDistance(dist)`: distances are never negative, and the distance
from a point to itself is 0. The state lookup of the updater
(`fetch_state_for_city`) is likewise a parameter `lookup: string -> string`.

Stability is stated through `StableSort.AtDistance(s, k)`: the entries of `s`
at distance `k`, in order. The sort keeps, for every `k`, exactly the entries
at distance `k` that its input has, in the same order. `SortedStableIsUnique`
shows that a sorted list with this property is unique, so the sort is pinned
down by its specification.

Notes on the source:

* The code names the record fields `district` and `state`.
* `fetchSortedDistricts` does not itself reject an empty or untrimmed term.
* The no-match case only sets a status text and returns. It is modelled as
  the `NoMatch` result.

## Model

| member | source | states |
|---|---|---|
| Text.Lower | script.js:13 | lower-casing keeps the length of the string |
| Text.LowerAt | script.js:13-19 | character i of the lower-cased string is character i of the input with `A`-`Z` mapped to `a`-`z`; every other character is unchanged |
| Text.LowerIsIdempotent | alteration.py:37 | a lower-cased string has no upper-case letter, and lower-casing it again changes nothing |
| Text.LowerOfLowerCase | alteration.py:37 | a string without upper-case letters is its own lower-case form |
| Text.LowerOfUpper | script.js:13-19 | upper-casing a term before lower-casing it makes no difference |
| Text.TrimStartSpec | alteration.py:37 | removing leading whitespace keeps a suffix that is empty or starts with a non-space, and drops only whitespace |
| Text.TrimEndSpec | alteration.py:37 | removing trailing whitespace keeps a prefix that is empty or ends with a non-space, and drops only whitespace |
| Text.Strip | alteration.py:37 | stripping never lengthens a string |
| Text.StripSpec | alteration.py:37 | `strip()` returns a slice `s[a..b]` with only whitespace outside it and no whitespace at its own ends |
| Text.StripOfTrimmed | alteration.py:37 | stripping a string with no whitespace at either end returns it unchanged |
| Locator.FindDistrict | script.js:14-16 | a found position holds a record whose lower-cased district name is the key, and no earlier record's is; nothing is found only when no record's is |
| Locator.FilterState | script.js:18-20 | every kept record's lower-cased state name is the key; the result is empty exactly when no record's state name is the key |
| Locator.FilterStateHead | script.js:18-20 | the first record the filter keeps is the first state match in dataset order |
| Locator.Resolve | script.js:13-37 | a district match exactly when some district name equals the term ignoring case, with the first such record as reference; a state match exactly when no district but some state name matches, with the first such record as reference; not found exactly when neither matches |
| Locator.ResolveIgnoresCase | script.js:13-19 | two terms of equal length whose characters agree position by position once lower-cased resolve identically |
| Locator.ResolveCaseVariants | script.js:13-19 | the upper-case and lower-case spellings of a term resolve exactly as the term does |
| Locator.DistrictNameBeatsEarlierStateName | script.js:29-36 | with district "Alpha" in state "Beta" and district "Gamma" in state "Alpha", "ALPHA" resolves to the district "Alpha" although the state match comes first |
| Locator.UnknownTermIsNotFound | script.js:22-25 | a term naming no district and no state ("Atlantis") is not found |
| StableSort.Insert | script.js:49 | inserting adds exactly one entry: the result holds the entries of the list plus `x` |
| StableSort.InsertSorted | script.js:49 | inserting into a sorted list keeps it sorted, and the new head is `x` or the old head |
| StableSort.SortByDistance | script.js:49 | the sorted list has the input's length, is a permutation of it, and is non-decreasing in distance |
| StableSort.InsertRecords | script.js:49 | inserting adds exactly the record of `x` to the records of the list |
| StableSort.SortRecords | script.js:49 | the sorted list holds the same records as its input, each as many times |
| StableSort.InsertKeepsTieOrder | script.js:49 | inserting `x` leaves it ahead of every entry at its distance, as if it were prepended |
| StableSort.SortKeepsTieOrder | script.js:49 | the sort is stable: for every distance, the entries at that distance appear in input order |
| StableSort.SortedStableIsUnique | script.js:49 | two sorted lists with the same entries at every distance in the same order are equal |
| StableSort.SortIsTheStableSortedArrangement | script.js:49 | any sorted list that keeps the input's tie order is the sort's result, and so a permutation of the input |
| Ranker.Annotate | script.js:39-48 | the mapped list has one entry per record |
| Ranker.AnnotateAt | script.js:39-48 | entry i of the mapped list is record i paired with its distance from the reference |
| Ranker.AnnotateKeepsRecords | script.js:47 | dropping the added distances gives back the dataset exactly: the spread adds a field and changes no other |
| Ranker.Rank | script.js:39-49 | the ranking has the dataset's length, holds each record as often as the dataset does, gives each record its own distance from the reference, is non-decreasing in distance, and keeps dataset order among equal distances |
| Ranker.RearrangedKeepsDistances | script.js:41-49 | however the mapped list is rearranged, each entry still carries its own record's distance |
| Ranker.ReferenceRanksFirst | script.js:30-49 | for a distance that is non-negative and zero on equal points, a record at the reference point is ranked with distance 0 and the first entry has distance 0 |
| Ranker.FetchSortedDistricts | script.js:13-49 | no ranking exactly when the term names no district and no state; otherwise the resolution's reference is ranked against every record, sorted, a permutation of the dataset, each with its own distance, and records at equal distance keep their dataset order |
| Ranker.SearchRanksReferenceFirst | script.js:29-49 | a successful search ranks its reference record with distance 0, and its first entry has distance 0 |
| Chunking.SplitChunks | alteration.py:51 | a zero chunk size fails and a negative one gives no chunks; for a positive size the chunks concatenate back to the input, each is non-empty and at most `size` long, all but the last are exactly `size` long, and there are ceil(n / size) of them |
| Chunking.ChunksFromFlatten | alteration.py:51 | the chunks taken from offset `from` concatenate to `s[from..]` |
| Chunking.ChunksFromShape | alteration.py:51 | every chunk is non-empty and at most `size` long, and all but the last are exactly `size` long |
| Chunking.ChunksFromCount | alteration.py:51 | from offset `from` there are ceil((n - from) / size) chunks |
| Chunking.NoChunksIffEmpty | alteration.py:51 | there are no chunks exactly when the input is empty |
| StateUpdate.NormalizeCityName | alteration.py:36-37 | lower-cases and then strips the name, so the result is never longer than the name; its form is stated by `NormalizedForm` and its idempotence by `NormalizeIsIdempotent` |
| StateUpdate.NormalizedForm | alteration.py:36-37 | a normalised name is the lower-cased name with only surrounding whitespace removed; it has no upper-case letter and no whitespace at either end |
| StateUpdate.NormalizeIsIdempotent | alteration.py:36-37 | normalising a normalised name changes nothing |
| StateUpdate.SetState | alteration.py:43 | assigning `state` adds or overwrites that key only: the keys are the old keys plus `state`, and every other field keeps its value |
| StateUpdate.ProcessSingleEntry | alteration.py:40-44 | an entry whose `district` is missing or not a string fails; otherwise `state` holds the state looked up for the normalised district name and every other field, `district` included, is unchanged |
| StateUpdate.ProcessChunk | alteration.py:59-62 | a chunk succeeds exactly when all its entries have district names, and then yields one processed entry per input entry, in order |
| StateUpdate.ProcessedChunksFlatten | alteration.py:51-62 | processing chunk by chunk and concatenating equals processing the concatenated entries one by one |
| StateUpdate.UpdateStatesInChunks | alteration.py:47-67 | a zero chunk size fails before any output and a negative one produces none; otherwise the run succeeds exactly when every entry has a district name, and then written chunk j is chunk j of the split, processed entry by entry, and the written chunks concatenate to the whole dataset processed in order; a failed run has written exactly the processed chunks before the first chunk that holds an entry without a district name |

## Left out

- Data loading (script.js:10-11) and the `try`/`catch` that reports "Error loading district data." (script.js:57-60). This is asynchronous I/O. The dataset is a parameter of the model.
- All DOM work is user interface and is left out. This covers the status texts, clearing and filling the list, the `toFixed(2)` formatting, the click handler and its `alert` (script.js:3-7, 23, 32, 36, 51-56, 76-83). The click handler only passes on a trimmed, non-empty term; the model accepts any term.
- The numeric body of `calculateDistance` (script.js:63-74). It is floating-point trigonometry. Distance is the parameter `dist`, constrained only by `IsDistance` where needed.
- Floating-point effects are not modelled. Coordinates and distances are reals, so in the model no distance is `NaN` and the comparator is always consistent. In the script a `NaN` distance can arise, as the next line says.
- Records are exactly `{ district, state, latitude, longitude }`, with string names and numeric coordinates. Extra JSON fields are not modelled. Neither is a record that already has a `distance` field, which the spread would overwrite.
- Malformed records are not modelled. A non-string `state` in any record (script.js:19) throws inside the `try`. So does a non-string `district` at or before the first district match (script.js:15). A coordinate that is not a number does not throw either, because the arithmetic in `calculateDistance` (script.js:64, 66-67) converts it. A JSON `null`, `""` or `false` becomes 0, `true` becomes 1, and a numeric string such as `"12.5"` becomes its value; these give a finite but wrong distance. A missing coordinate (`undefined`), a string that is not a number, or an object gives `NaN`. The comparator at script.js:49 then returns `NaN`, which the sort treats as a tie, so the resulting order depends on the engine. The model's distances are reals and are never `NaN`.
- Text.Lower: maps only the ASCII letters. `toLowerCase` and `str.lower` also map non-ASCII letters, and in a few cases change the length.
- Text.Strip: the whitespace set is the one Python's `str.isspace()` accepts, listed by code point.
- `fetch_state_for_city` and the retrying HTTP session (alteration.py:7-33) are network client code. The looked-up state is the parameter `lookup: string -> string`, which assumes three things the source does not promise:
  - The answer is a string. alteration.py:29 returns whatever JSON value it finds under `state`, so a JSON `null` gives `None`.
  - The lookup never fails. Only `RequestException` is caught (alteration.py:31-33). Any other error propagates and aborts the run, such as a `KeyError` for a feature without `properties` at alteration.py:28.
  - The answer is fixed for each name. The source makes one network call per entry (alteration.py:42), so two entries with the same name can get different states, for instance "Unknown" once retries run out.
- File reading and writing, directory creation, progress printing and the hard-coded paths are left out (alteration.py:48-49, 53-58, 64-74). `UpdateStatesInChunks` returns the processed chunks in the order they would be written to `output_part_<n>.json`.
- Entries of the updater's dataset that are not JSON objects are not modelled: entries are maps from field names to values.
