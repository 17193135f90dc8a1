# baklava, modelled in Dafny

baklava wraps the InspireFace face-recognition engine. An `InsightFace`
handle holds a vector of source features, one target feature, and an
optional chunk size. Its core, modelled here, has three parts:

- `prepare_images`
  - Allocates one zeroed feature slot per source image.
  - Splits the vector with `chunks_mut(chunk_size)`; the chunk size
    defaults to 1.
  - Runs one worker per chunk. The worker for chunk `idx` walks its slots
    in order and reads image `idx * chunk_size + iidx` for slot `iidx`.
    The first chunk uses `iidx` directly.
  - Each worker writes the extracted feature into the slot and stops at
    its first failure.
  - Worker results are dropped, so failures never reach the caller.
- `prepare_target_image` and `compare_images`
  - `compare_images` collects one cosine per source feature, in order,
    and any failed comparison aborts.
  - It refuses Median on exactly two scores.
  - Mean is the sum divided by the number of features.
  - Median sorts ascending and takes the middle score for an odd count.
    For an even count it takes the average of the sorted scores at
    `mid - 1` and `mid + 1`, with `mid = len / 2`.
  - `is_similar` compares the cosine with a threshold, 0.48 by default.
- `FFIError` and its `Display` messages.

The Dafny modules follow that structure:

- `Errors` (`src/error.rs`): the error enum and its messages. `Recover`
  reads an error back from its message.
- `Chunking` holds the `chunks_mut` partition as values, and the image
  index a worker computes. `MapChunks` places one result per chunk
  where its chunk lies.
- `Aggregation` holds the reduction of the scores (Mean and Median) and
  `is_similar`.
- `Baklava` holds the handle: the class `InsightFace` with its
  constructor, `PrepareImages`, `PrepareTargetImage` and `CompareImages`.
  It also holds the worker (`Worker`) and the thread scope
  (`SpawnWorkers`), both over an `array<Feature>`, and the functions
  that specify them:
  - `ChunkFeatures`: what one worker leaves in its chunk;
  - `Prepared`: what the whole batch leaves.

The engine is not modelled. Feature extraction is a parameter
`extract: string -> Result<Feature, FFIError>`. Comparison is a parameter
`compare: (Feature, Feature) -> Option<real>`. The percentage calibration
is a parameter `calibrate: real -> real`. Scores are reals.

## Model

| member | source | states |
|---|---|---|
| Errors.Message | src/error.rs:18-31 | every variant has a message, and the message determines the variant and its detail (`Recover` gives the error back) |
| Errors.MessageInjective | src/error.rs:20-29 | two errors have the same message exactly when they are the same error |
| Errors.DetailVerbatim | src/error.rs:25-28 | a detailed variant's message is its variant-specific prefix followed by the detail text unchanged |
| Errors.PlainMessages | src/error.rs:21-24 | the four plain variants display their fixed sentences |
| Chunking.ChunkLen | src/lib.rs:168 | a chunk is never longer than the chunk size, and a chunk starting inside the vector is non-empty and ends inside it |
| Chunking.ChunksMut | src/lib.rs:168-169 | `chunks_mut` yields n/size rounded up chunks, chunk `k` having the length of the chunk starting at `k * size` |
| Chunking.ChunkExists | src/lib.rs:169 | chunk `idx` exists exactly when it starts before the end of the vector |
| Chunking.ChunkLayout | src/lib.rs:168 | every chunk is non-empty and inside the vector; all but the last are full, and the last ends at the end of the vector |
| Chunking.NextChunk | src/lib.rs:176 | the chunk after chunk `idx` starts one chunk size further on, or the vector ends there after the last chunk |
| Chunking.ChunkOfIndex | src/lib.rs:168 | position `i` lies in exactly one chunk, chunk `i / size` at offset `i % size` (both directions) |
| Chunking.ChunkOf | src/lib.rs:168 | every position has a chunk that holds it and an offset inside that chunk |
| Chunking.ChunkElement | src/lib.rs:203-215 | element `iidx` of chunk `idx` is element `idx * size + iidx` of the vector |
| Chunking.ChunksCover | src/lib.rs:168 | laid end to end, the chunks give back the whole vector: contiguous, disjoint, covering |
| Chunking.CounterMatchesSlot | src/lib.rs:204-215 | the image index a worker computes, with its first-chunk special case, is the index of the slot it fills and always in range |
| Chunking.MapChunksLength | src/lib.rs:176-226 | when each worker's result has its chunk's length, the combined result has the vector's length |
| Chunking.MapChunksFlatten | src/lib.rs:168-226 | the combined result is the per-chunk results of the `chunks_mut` slices, in chunk order, laid end to end |
| Chunking.MapChunksAt | src/lib.rs:186-226 | the part of the combined result at chunk `idx` is exactly that chunk's result |
| Aggregation.Insert | src/lib.rs:401 | inserting into an ascending sequence keeps it ascending and adds exactly the one score |
| Aggregation.SortAscending | src/lib.rs:401 | the sorted scores are ascending and a permutation of the scores |
| Aggregation.SortedUnique | src/lib.rs:401 | two ascending permutations of the same scores are equal, so the unstable sort's result is determined |
| Aggregation.SortSortedIsIdentity | src/lib.rs:401 | sorting scores that are already ascending leaves them unchanged |
| Aggregation.SelectMedian | src/lib.rs:402-420 | odd count: the middle element; even count of at least four: the average at `mid - 1` and `mid + 1`; two elements: the "high mid" error |
| Aggregation.SelectMedianDefined | src/lib.rs:404-420 | the selection fails only on two elements (high mid missing); on every other non-empty count it yields a value |
| Aggregation.TwoSamples | src/lib.rs:387-392 | Median on two scores always fails with the message the library's test expects; Mean on two scores yields a value |
| Aggregation.MeanIsAverage | src/lib.rs:394-398 | Mean over all scores is their sum divided by their number |
| Aggregation.MeanBounds | src/lib.rs:394-398 | Mean lies between any lower and upper bound of the scores |
| Aggregation.SumPermutation | src/lib.rs:396 | the sum does not depend on the order of the scores |
| Aggregation.MeanOrderIndependent | src/lib.rs:394-398 | Mean is the same for any reordering of the scores |
| Aggregation.CountPermutation | src/lib.rs:401 | how many scores lie below or above a value does not depend on their order |
| Aggregation.MedianOrderIndependent | src/lib.rs:399-421 | Median is the same for any reordering of the scores |
| Aggregation.MedianOdd | src/lib.rs:416-419 | odd count: Median is one of the scores, with at most half of them strictly below and at most half strictly above |
| Aggregation.MedianEven | src/lib.rs:404-415 | even count of at least four: Median is the average of the sorted scores at `mid - 1` and `mid + 1`; it is never below the textbook median and equals it exactly when the sorted scores at `mid` and `mid + 1` are equal |
| Aggregation.MedianBounds | src/lib.rs:399-421 | on any count but two, Median yields a value between any lower and upper bound of the scores |
| Aggregation.MedianOfSorted | src/lib.rs:399-421 | on scores already ascending, Median is the selection applied to them as collected |
| Aggregation.MedianOfFive | src/lib.rs:416-419 | five ascending scores give the third |
| Aggregation.MedianOfFour | src/lib.rs:404-415 | four scores a <= b <= c <= d, collected out of order (d, a, c, b), give (b + d) / 2: 0.3 for 0.1 to 0.4, not the textbook 0.25 |
| Aggregation.IsSimilarMonotone | src/lib.rs:434-436 | a higher cosine or a lower threshold never turns a match into a mismatch; with no threshold the cosine is compared with 0.48 |
| Baklava.FirstFailureMeaning | src/lib.rs:203-223 | every image before a worker's stopping point succeeds, and the image at it, if any, fails |
| Baklava.FirstFailureAt | src/lib.rs:203-223 | the stopping point is the only index with all earlier images succeeding and itself failing or at the end |
| Baklava.ChunkStep | src/lib.rs:210-221 | while a worker runs, the image it reads either fails, and then it is the first failure, or yields the feature the chunk result holds at that slot |
| Baklava.Zeroes | src/lib.rs:152-154 | the freshly allocated vector has one zeroed slot per source |
| Baklava.ChunkFeatures | src/lib.rs:203-223 | a worker's chunk result has one slot per image of the chunk |
| Baklava.ChunkFeaturesMeaning | src/lib.rs:203-223 | before the first failure each slot holds its own image's feature; from the first failure on the slots stay zeroed |
| Baklava.Job | src/lib.rs:186-226 | a worker's result always has its chunk's length |
| Baklava.Prepared | src/lib.rs:152-232 | the prepared vector has one slot per source |
| Baklava.PreparedChunk | src/lib.rs:186-226 | chunk `idx` of the prepared vector is the result of chunk `idx`'s worker on that chunk's images |
| Baklava.PreparedSlot | src/lib.rs:203-215 | slot `i` is read through the chunk holding image `i`; with the default chunk size that chunk is image `i` alone |
| Baklava.SlotFromOwnImage | src/lib.rs:203-223 | slot `i` is zeroed or holds image `i`'s feature, never another image's; with the default chunk size every image that can be extracted is |
| Baklava.ChunkSizeIrrelevant | src/lib.rs:163-223 | when every image can be extracted, slot `i` holds image `i`'s feature for every chunk size |
| Baklava.AfterChunk | src/lib.rs:176-226 | running chunk `idx`'s worker on a vector done before the chunk and zeroed after it leaves it done up to the chunk's end |
| Baklava.FinishSlots | src/lib.rs:203-223 | the slots a worker writes plus the zeroed slots it leaves after its first failure make up its whole chunk result |
| Baklava.Worker | src/lib.rs:186-226 | the worker returns `Ok` when the whole chunk succeeds, or the first failing image's error; it writes the features of the chunk's images before the first failure into their slots and changes no other slot |
| Baklava.SpawnWorkers | src/lib.rs:171-232 | running the workers chunk by chunk over the zeroed vector leaves exactly the prepared vector |
| Baklava.Scores | src/lib.rs:372-384 | when every comparison succeeds there is one score per feature, each that feature's comparison |
| Baklava.Collect | src/lib.rs:372-384 | the scores exist exactly when every comparison succeeds, and then there is one per feature, in feature order |
| Baklava.CompareFailure | src/lib.rs:374-380 | one failed comparison anywhere fails the whole comparison with "Comparison fail" |
| Baklava.CompareAggregates | src/lib.rs:385-425 | when every comparison succeeds the result is the aggregation of the scores in order with its percentage, or the aggregation's error; Median on two features is always refused |
| Baklava.InsightFace.constructor | src/lib.rs:135-140 | a new handle has no source features, a zeroed target and the given chunk size |
| Baklava.InsightFace.PrepareImages | src/lib.rs:148-233 | the source features are replaced by a fresh vector with one slot per source, holding exactly the prepared vector for the configured chunk size; nothing else changes |
| Baklava.InsightFace.PrepareTargetImage | src/lib.rs:240-258 | a path with a NUL byte is refused with `Feature`; otherwise the extraction's error is returned, or its feature becomes the target; the source features are untouched |
| Baklava.InsightFace.CompareImages | src/lib.rs:368-426 | the loop with early return computes exactly the comparison outcome over the source features, whose properties the lemmas above state |

## Left out

- The native engine is a parameter, not a model. This covers model
  loading, session creation, bitmap and stream creation, face tracking,
  feature creation, `HFFaceComparison` and the release calls
  (`prepare_image_for_comparison`, `release_ptr`, `Drop`).
- `new`: the engine launch and session creation inside it are not
  modelled, so their `ModelLoad` and `Session` errors are not modelled
  either.
- Threads, `Arc`, `Mutex` and `thread::scope` are not modelled.
  - Each worker locks the whole chunk vector for its entire run, so the
    workers run one at a time. The model runs them sequentially in chunk
    order.
  - The model does not show that the result is the same for every
    interleaving.
  - The lock and `get_mut` failures ("Unable to acquire lock") are not
    modelled.
- `compute_percentage` is the `calibrate` parameter: it is a
  floating-point sigmoid with `exp` and `ln`.
- f32 and f64 arithmetic are modelled as reals. Rounding, NaN,
  `total_cmp` and the f32 to f64 cast in `is_similar` are not
  modelled.
- The worker's `IO` error variant is not declared in `src/error.rs`, so
  its message is unknown. The model keeps it apart from `FFIError` as
  `WorkerError.Io` with its text.
- `images.get(counter)` returning nothing (`MissingImage`) is not a
  modelled branch: `Chunking.CounterMatchesSlot` proves the index is
  always in range.
- Baklava.Worker: on a failed extraction, the slot is modelled as staying
  zeroed. The engine may already have created a feature there, which is
  not observable in the model.
- Baklava.InsightFace.PrepareTargetImage: on a failed extraction the
  target is modelled as unchanged, for the same reason.
- Baklava.InsightFace.PrepareImages requires a chunk size other than 0,
  because `chunks_mut(0)` panics.
- Baklava.InsightFace.CompareImages requires at least one source
  feature. On an empty list the library computes 0/0 for Mean, and
  Median's `mid - 1` underflows (a panic in a debug build).
- Aggregation.IsSimilarMonotone states the threshold test on reals. The
  source casts the f32 cosine to f64 first.
- `src/main.rs`, `src/ffi_wrapper.rs`, `build.rs` and the examples are
  not part of this model. They are FFI bindings, build plumbing and call
  sites with no logic of their own.
