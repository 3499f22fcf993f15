# Bias classification backend and training-data preparation, modelled in Dafny

This project models the deterministic core of a news-bias classifier:

- **The `/process` handler** (`backend/main.py`). A request `{id, text, url}` is keyed by
  the lowercase hex SHA-256 digest of `UTF8(id) ++ "_" ++ UTF8(text)`. The handler looks
  the key up in a document store. On a hit it returns the stored bias and extent. On a miss
  it sends the text to a remote classifier and picks one bias category and one extent
  category from the result. It writes `{hash, bias, extent}` under the key and returns the
  pair.
- **The vocabulary** (`backend/models.py`). The `Bias` and `Extent` enumerations and the
  request and response records, with the field validation that builds them from JSON.
- **The data-preparation scripts** (`data_prep/`). They are:
  - the vote-to-label transform (`4_transform.py`);
  - the first-occurrence dedup (`5_dedupe.py`);
  - the round-robin split of the corpus into one file per CPU (`1_split.py`).

Modules, one per concern:

- `Utf8`: the UTF-8 encoder of RFC 3629. `str.encode()` applies it to the id and the text.
- `JobKey`: `compute_job_hash`. It covers the preimage bytes and the hex rendering. SHA-256
  (FIPS 180-4, section 6.2) is a parameter that maps bytes to a 32-byte digest.
- `Models`: `backend/models.py`.
- `Categories`: `extract_from_categories`. Python's stable `list.sort` is modelled by a
  functional stable insertion sort. Lemmas about it state that the output is sorted, that it
  is a permutation of the input, and that element 0 is the earliest least confident entry.
- `Subsequences`: the order-preserving subsequence relation. Both the category partition and
  the dedup keep their input order, and both are stated with it.
- `Backend`: a class `JobService`. It holds the store as a `map<string, Record>` field, a
  ghost log of the texts sent to the classifier, and the digest and classifier functions as
  constants. `Process` is the handler.
- `Transform`, `Dedupe`, `Split`: the three scripts. In each one the loop is a method,
  proved against a specification function. The properties are lemmas about that function.
  `Dedupe.Dedup(rows, n)` is the script's state after it has read `n` rows. Its lemmas
  therefore hold after every step, and for the whole file with `n == |rows|`.

How the handler behaves, as the code is written:

- `/process` is synchronous. `backend/main.py` has no pending or queued job lifecycle, no
  polling endpoint and no event stream (the mocked backend in `mocked/main.py` is not part of
  this model).
- `extract_from_categories` returns the **least** confident category of each family. The
  comment at `backend/main.py:52` says "most confident". `JobService.Process` stores and
  returns what the code selects. The most-confident selection is defined and proved
  separately (see Findings).
- A request whose classification fails leaves no record. An identical request after it
  calls the classifier again.

## Model

| member | source | states |
|---|---|---|
| Utf8.EncodeChar | backend/main.py:27-29 | one character encodes to 1-4 bytes; the lead byte gives the sequence length; multi-byte sequences use only bytes of 0x80 and above; every continuation byte is of the form `10xxxxxx` (below 0xC0) |
| Utf8.Encode | backend/main.py:27-29 | `str.encode()`: every character takes one to four bytes, and a string takes one byte per character exactly when it is all ASCII; `EncodeInjective` shows nothing is lost |
| Utf8.EncodeAppend | backend/main.py:27-29 | encoding distributes over concatenation |
| Utf8.EncodeInjective | backend/main.py:27-29 | two strings with the same encoding are equal |
| Utf8.UnderscoreByte | backend/main.py:28 | byte 0x5F occurs in an encoding if and only if the string contains `_` |
| JobKey.Preimage | backend/main.py:27-29 | the hashed bytes are the id's encoding, byte 0x5F, then the text's encoding: at least one byte per character plus the delimiter and at most four per character plus the delimiter, with the delimiter right after the id's bytes |
| JobKey.Hex | backend/main.py:30 | `hexdigest` gives two characters per byte, each in `0-9a-f` |
| JobKey.ParseHexOfHex | backend/main.py:30 | the hex rendering reads back as the digest bytes, so no information is lost |
| JobKey.ComputeJobHash | backend/main.py:19-30 | the key is 64 lowercase hex characters that read back as SHA-256 of UTF8(id) ++ [0x5F] ++ UTF8(text), so it is determined by those bytes |
| JobKey.PreimageShift | backend/main.py:27-29 | moving `_` from the end of the id to the start of the text leaves the preimage unchanged |
| JobKey.JobHashCollision | backend/main.py:27-30 | ("a_b","c") and ("a","b_c") are different pairs with the same key, whatever the digest function |
| JobKey.PreimageInjective | backend/main.py:27-29 | if neither id contains `_`, equal preimages imply equal ids and equal texts |
| Models.BiasValue | backend/models.py:11-13 | each Bias member's value is one of "left", "right", "neutral"; `BiasRoundTrip` shows distinct members have distinct values |
| Models.ExtentValue | backend/models.py:20-23 | each Extent member's value is one of "minimal", "moderate", "strong", "extreme", never "none" |
| Models.ParseBias | backend/models.py:7-13 | parsing succeeds exactly for "left", "right", "neutral", and the member's value is the parsed string |
| Models.ParseExtent | backend/models.py:16-23 | parsing succeeds exactly for "minimal", "moderate", "strong", "extreme", and the member's value is the parsed string |
| Models.BiasRoundTrip | backend/models.py:7-13 | serialising a Bias and parsing it back gives the same member |
| Models.ExtentRoundTrip | backend/models.py:16-23 | serialising an Extent and parsing it back gives the same member |
| Models.NoneIsNoExtent | backend/models.py:16-23 | "none" is not an Extent value |
| Models.ParseRequest | backend/models.py:26-32 | a Request is built exactly when `id`, `text` and `url` are all present as strings, and then its fields are those strings, whatever other keys the object has; otherwise at least one field error is reported |
| Models.ParseProcessingResponse | backend/models.py:35-43 | built exactly when `processing` and `success` are booleans and `hash`, `bias`, `extent` are each absent, null or valid; then the booleans are the object's, and each optional field is None exactly when its key is absent or null and otherwise carries the object's string (for `bias` and `extent`, the member with that value) |
| Models.ParsePollingResponse | backend/models.py:46-53 | built exactly when `success`, `hash`, `bias` and `extent` are all present and valid, and then every field carries the object's value |
| Models.RequestRoundTrip | backend/models.py:26-32 | a serialised Request parses back to itself |
| Models.ProcessingRoundTrip | backend/models.py:35-43 | a serialised ProcessingResponse parses back to itself |
| Models.PollingRoundTrip | backend/models.py:46-53 | a serialised PollingResponse parses back to itself |
| Categories.BiasFamily | backend/main.py:46-48 | the `biases` list: only bias-named categories, no more than the input holds |
| Categories.ExtentFamily | backend/main.py:46-50 | the `extents` list: only categories without a bias name, no more than the input holds |
| Categories.FamiliesInOrder | backend/main.py:46-50 | each family is the input with the other family's categories left out, in input order, so ties among equal confidences are broken by input position |
| Categories.FamiliesPartition | backend/main.py:46-50 | every category lands in exactly one family (the multisets add up); the bias family holds exactly the categories named left/right/neutral, the extent family all the others |
| Categories.SortByConfidence | backend/main.py:53-54 | `list.sort(key=...)` returns the same categories, as many times each; `SortSpec` adds that they come out ascending |
| Categories.SortSpec | backend/main.py:53-54 | the sort by confidence gives an ascending permutation of its input |
| Categories.LeastIndex | backend/main.py:53-56 | the chosen index holds a confidence no larger than any other; every earlier element is strictly more confident (ties go to the earliest) |
| Categories.SortHead | backend/main.py:53-56 | after the stable ascending sort, element 0 is the earliest least confident element |
| Categories.Extract | backend/main.py:53-56 | indexing the sorted families fails exactly when a family is empty, with the bias error exactly when the bias family is; on success the pair is a member of each family |
| Categories.ExtractPicksLeastConfident | backend/main.py:40-56 | extraction fails if and only if a family is empty, with the bias error exactly when no category is bias-named; otherwise both results come from the input, are in the right family, are the earliest minimum of their family and have a confidence no larger than any family member |
| Categories.ExtractFromCategories | backend/main.py:40-56 | the partition loop, then sort and index 0, returns Extract's result: members of the input, each the least confident of its family |
| Categories.GreatestIndex | backend/main.py:52 | the chosen index holds the largest confidence; every earlier element is strictly less confident |
| Categories.ExtractMostConfident | backend/main.py:52 | the selection the comment describes: fails exactly on an empty family, otherwise returns input members at least as confident as every member of their family |
| Categories.LeastConfidentCounterexample | backend/main.py:52-56 | on [left .2, right .9, neutral .1, minimal .7, strong .95] the code returns (neutral .1, minimal .7), while the most confident pair is (right .9, strong .95) |
| Backend.JobService.constructor | backend/main.py:11-12 | the service starts with an empty store and holds the given digest and classifier |
| Backend.JobService.Process | backend/main.py:59-99 | hit: returns the stored bias/extent with success, leaves the store unchanged, calls no classifier. Miss: classifies `req.text` once (the url is never read). If extraction fails, the error is returned and the store is unchanged. Otherwise exactly one record {key, bias, extent} is added at the key and the same pair is returned. The invariant (each record under its own hash, with a bias-family and an extent-family category) is preserved, so every successful reply pairs a bias-named category with one that is not |
| Backend.JobService.ProcessTwice | backend/main.py:67-99 | a repeated successful request returns the same reply from the store with at most one classifier call; a failing request left no record, so it is classified again. That the second attempt fails too holds only because the classifier is a fixed function here; a remote classifier may answer differently |
| Backend.BiasNamesAreBiasValues | backend/main.py:47 | the names the handler treats as bias categories are exactly the Bias values of backend/models.py |
| Transform.VoteMappingRange | data_prep/4_transform.py:3-9 | the vote mapping has exactly the five vote keys, each mapped into [-2, 2] |
| Transform.DifferenceMappingSpec | data_prep/4_transform.py:10-20 | the difference mapping is defined exactly on [-4, 4]; a difference maps to (strength of its magnitude, lean of its sign): positive gives left, negative gives right, zero gives ("none", "neutral") |
| Transform.TransformRow | data_prep/4_transform.py:29-36 | succeeds exactly for five-column rows whose two votes are mapping keys; a row with any other number of columns fails to unpack; the result is `[text, lean, strength]` of the vote difference, which is always in [-4, 4] |
| Transform.SwapVotes | data_prep/4_transform.py:31-34 | swapping the democrat and republican votes swaps left/right and keeps the extent and the text |
| Transform.EqualVotesGiveNoExtent | data_prep/4_transform.py:15 | equal votes give ("neutral", "none"), and "none" does not parse as an Extent |
| Transform.TransformRows | data_prep/4_transform.py:28-36 | one output row per input row, in order, until the first failing row; the rows before it stay written and the failure is that row's error |
| Dedupe.Dedup | data_prep/5_dedupe.py:10-13 | the state after reading the first n rows: success exactly when none of them is empty; on success the kept rows are non-empty and at most n; on failure the error names the first empty row |
| Dedupe.DedupDistinct | data_prep/5_dedupe.py:11-13 | no two kept rows share a first column |
| Dedupe.DedupSubsequence | data_prep/5_dedupe.py:10-13 | the kept rows are a subsequence of the rows read, in input order |
| Dedupe.DedupCovers | data_prep/5_dedupe.py:10-13 | every first-column value of the rows read is the text of some kept row |
| Dedupe.DedupKeepsKept | data_prep/5_dedupe.py:12-13 | a kept row stays kept after any number of further rows (the lists are only appended to) |
| Dedupe.DedupKeepsFirstOccurrences | data_prep/5_dedupe.py:11-13 | the first row carrying each text is kept |
| Dedupe.DedupKeepsOnlyFirstOccurrences | data_prep/5_dedupe.py:11-13 | every kept row is the first occurrence of its text, so later rows with that text are dropped even if their labels differ |
| Dedupe.DedupIdentity | data_prep/5_dedupe.py:10-13 | the kept rows equal the rows read, and are as many, exactly when their first columns are distinct |
| Dedupe.DedupIdempotent | data_prep/5_dedupe.py:10-15 | deduplicating the output again returns it unchanged |
| Dedupe.SeenTexts | data_prep/5_dedupe.py:11 | the model's membership test agrees with `row[0] in deduped_text_only` on the list the script keeps |
| Dedupe.DedupeRows | data_prep/5_dedupe.py:6-15 | the loop with its two lists computes Dedup over all rows: the text list tracks the kept rows' first columns, and an empty row stops the script before anything is written |
| Split.DeleteColumns | data_prep/1_split.py:16 | `del row[1], row[1]` keeps column 0 and columns 3 onwards, removing the original columns 1 and 2 |
| Split.Distribute | data_prep/1_split.py:10-18 | there is one segment per writer |
| Split.DistributeSucceeds | data_prep/1_split.py:15-18 | the loop finishes exactly when every row has at least three columns and its routed index names an existing writer |
| Split.DistributeStopsAtFirstFailure | data_prep/1_split.py:15-18 | the loop stops at the first unwritable row: a too-short row fails at the deletion, otherwise the writer index is out of range |
| Split.DistributeWritesEachRowOnce | data_prep/1_split.py:15-18 | for every outcome, the rows before the stop index are all wide enough, and the writers together hold exactly those rows stripped, each as many times as it occurs in the input |
| Split.DistributeRoutes | data_prep/1_split.py:18 | after a full run, row j (stripped) is in segment `j % modulus` |
| Split.DistributeIdleWriters | data_prep/1_split.py:18 | writers at an index of the modulus or above (16 in the script) never receive a row |
| Split.SplitSegmentSizes | data_prep/1_split.py:15-18 | for every outcome, writer k holds one row for each index below the stop index congruent to k modulo the routing modulus (16 in the script) |
| Split.SplitSegmentContents | data_prep/1_split.py:15-18 | for every outcome, position p of writer k holds row k + modulus·p, stripped, and that row was read before the stop index; with the sizes this fixes every writer's contents: rows k, k+16, k+32, ... in input order |
| Split.CountRoutedClosed | data_prep/1_split.py:18 | the number of indices below n congruent to k is (n-1-k) div modulus + 1 when k is below both the modulus and n, and 0 otherwise |
| Split.SplitRows | data_prep/1_split.py:5-18 | the loop over a list of `cpu_count()` writers computes Distribute with modulus 16: the writers' contents and the error that stopped it |
| Split.SplitCorrected | data_prep/1_split.py:18 | routing by the writer count fails only on short rows; for every outcome the writers hold exactly the rows before the stop (as a multiset), writer k holds one row per index congruent to k mod cpuCount, and position p of writer k is row k + cpuCount·p |
| Split.CorrectedUsesEveryWriter | data_prep/1_split.py:10 | for every outcome, each writer whose index is below the stop index (the first short row, or the row count) receives a row; so when no row has fewer than three columns and there are at least as many rows as writers, every writer receives a row |
| Split.FourCpuCounterexample | data_prep/1_split.py:18 | with four writers and five rows, the code fails at row 4 with no such writer, and the corrected split does not fail |
| Split.TwentyCpusLeaveWritersIdle | data_prep/1_split.py:18 | with twenty writers, writers 16 to 19 stay empty whatever the input |

## Left out

- SHA-256 internals: the digest is a parameter of type `seq<byte> -> Digest` (32 bytes). Only the preimage and the hex shape are modelled.
- Google Cloud Natural Language `classify_text` is a constant function from text to categories. Its failures and timeouts are not modelled.
- Firestore is an in-memory map. Storage failures are not modelled, and neither is serialising category objects into documents.
- FastAPI routing, CORS middleware, uvicorn startup and response-model validation are not modelled. `backend/main.py:59` names `models.Response`, which `backend/models.py` does not define. The handler returns whole category objects, not `Bias`/`Extent` strings, and `Reply` models what it returns.
- Concurrency: two simultaneous identical requests can both miss and both classify. The model runs requests one at a time.
- Python strings with lone surrogates, which make `str.encode()` raise, are not modelled. Dafny characters are Unicode scalar values.
- Confidences are floats in the source and `real` here. NaN and its effect on sorting are not modelled.
- Categories.SortSpec: states that the sort is ascending and a permutation, not that it is stable over the whole list. Stability is stated only for element 0 (`Categories.SortHead`), the only element the source reads.
- Models.ParseRequest: pydantic's coercions (numbers to strings, for one) are not modelled. A field must carry a JSON value of its declared type.
- Models.ParseProcessingResponse: pydantic's coercions to `bool` (`1`, `"true"`) and to `str` are not modelled: pydantic version 1 turns a JSON number or boolean in `hash` into its string form (`true` becomes `"True"`), where the model reports `WrongType("hash")`.
- Models.ParsePollingResponse: pydantic's coercions are not modelled.
- Models.ParseProcessingResponse: pydantic version 1 behaviour is assumed: an `Optional[...]` field with no default may be absent and then is None. Under pydantic version 2 such a field is required.
- Backend.JobService.Process: records written by anyone else with missing fields (`job_data.get` returning None) are not modelled. The store holds only records written by the handler.
- CSV parsing and quoting, file opening and `os.mkdir("segments")` (which fails when the directory exists) are not modelled. Rows are sequences of strings and output files are sequences of rows.
- `mocked/main.py` is not modelled: its answers are random.
- The website and the browser extension are UI code and are not modelled.
- `data_prep/2_fetch_articles.py` is not modelled: it is network download.
- `data_prep/3_concat.py` is not modelled: it copies rows unchanged.

## Findings

| source | as written | input that shows it | evidently intended | confidence | as-written member | corrected member |
|---|---|---|---|---|---|---|
| data_prep/1_split.py:18 | rows go to `writers[i % 16]`, but there are `cpu_count()` writers | 4 CPUs and 5 three-column rows: row 4 fails with an index error (`writers[4]`); with 20 CPUs writers 16-19 get nothing | `writers[i % SEGMENTS]` | high; not executed | Split.FourCpuCounterexample | Split.SplitCorrected |
| backend/main.py:52-56 | sorts each family ascending and takes element 0, which is the least confident entry | [left .2, right .9, neutral .1, minimal .7, strong .95] gives (neutral, minimal) | the most confident entry, (right, strong), as the comment says | medium; not executed | Categories.LeastConfidentCounterexample | Categories.ExtractMostConfident |

The script and handler models (`Split.SplitRows`, `Backend.JobService.Process`) keep the
as-written behaviour, because they describe what the code does. The corrected definitions
are proved beside them.
