/**
 * The `InsightFace` handle: batch preparation of the source features
 * (`prepare_images`), preparation of the target (`prepare_target_image`),
 * and the comparison that reduces the per-source scores to one cosine
 * (`compare_images`). The recognition engine is not modelled: extraction,
 * comparison and the percentage calibration are parameters.
 */
module Baklava {
  import opened Wrappers
  import opened Errors
  import opened Chunking
  import opened Aggregation

  /** A feature slot: zeroed as allocated, or the embedding an extraction wrote. */
  datatype Feature = Zeroed | Embedding(vector: seq<real>)

  /**
   * What a worker thread returns on failure: `FFIError::MissingImage` when
   * the path cannot become a C string, or the `IO` error with the fixed text
   * "Unable to prepare image" when the extraction fails.
   */
  datatype WorkerError = Ffi(error: FFIError) | Io(detail: string)

  const PrepareFailedText := "Unable to prepare image"
  const ComparisonFailText := "Comparison fail"

  /** The engine's extraction of one image (bitmap, stream, tracking, first face), success or failure. */
  type Extractor = string -> Result<Feature, FFIError>

  /** The engine's similarity of two features; `None` when its status is not success. */
  type Comparer = (Feature, Feature) -> Option<real>

  /**
   * One image as a worker handles it: a path holding a NUL byte cannot
   * become a C string (`MissingImage`); otherwise the engine extracts,
   * and any failure it reports becomes the worker's `IO` error.
   */
  function Attempt(path: string, extract: Extractor): Result<Feature, WorkerError> {
    if '\0' in path then Err(Ffi(MissingImage))
    else
      match extract(path)
      case Ok(f) => Ok(f)
      case Err(_) => Err(Io(PrepareFailedText))
  }

  /** How many images of `paths`, taken in order, succeed before the first failure. */
  function FirstFailure(paths: seq<string>, extract: Extractor): (stop: nat)
    ensures stop <= |paths|
  {
    if |paths| == 0 then 0
    else if Attempt(paths[0], extract).Err? then 0
    else 1 + FirstFailure(paths[1..], extract)
  }

  /** Every image before the first failure succeeds, and the image at it (if any) fails. */
  lemma {:induction false} FirstFailureMeaning(paths: seq<string>, extract: Extractor)
    ensures var stop := FirstFailure(paths, extract);
      && (forall j :: 0 <= j < stop ==> Attempt(paths[j], extract).Ok?)
      && (stop < |paths| ==> Attempt(paths[stop], extract).Err?)
    decreases |paths|
  {
    if |paths| > 0 && Attempt(paths[0], extract).Ok? {
      var tail := paths[1..];
      FirstFailureMeaning(tail, extract);
      assert forall j :: 1 <= j < |paths| ==> paths[j] == tail[j - 1];
    }
  }

  /** The first failure is the only index with every earlier image succeeding and itself failing (or the end). */
  lemma {:induction false} FirstFailureAt(paths: seq<string>, extract: Extractor, k: nat)
    requires k <= |paths|
    requires forall j :: 0 <= j < k ==> Attempt(paths[j], extract).Ok?
    requires k < |paths| ==> Attempt(paths[k], extract).Err?
    ensures FirstFailure(paths, extract) == k
    decreases k
  {
    if k > 0 {
      var tail := paths[1..];
      assert Attempt(paths[0], extract).Ok?;
      assert forall j :: 0 <= j < k - 1 ==> tail[j] == paths[j + 1];
      FirstFailureAt(tail, extract, k - 1);
    }
  }

  /**
   * One step of a worker, before the first failure: image `m` either fails,
   * and then it is the first failure, or succeeds with the feature the
   * chunk's result holds at `m`.
   */
  lemma ChunkStep(paths: seq<string>, extract: Extractor, m: nat)
    requires m < |paths| && m <= FirstFailure(paths, extract)
    ensures Attempt(paths[m], extract).Err? ==> m == FirstFailure(paths, extract)
    ensures Attempt(paths[m], extract).Ok? ==>
      m < FirstFailure(paths, extract) && Attempt(paths[m], extract) == Ok(ChunkFeatures(paths, extract)[m])
  {
    var stop := FirstFailure(paths, extract);
    if m < stop {
      ChunkFeaturesMeaning(paths, extract);
      assert Attempt(paths[m], extract) == Ok(ChunkFeatures(paths, extract)[m]);
    } else {
      FirstFailureMeaning(paths, extract);
      assert Attempt(paths[stop], extract).Err?;
    }
  }

  /** `n` zeroed slots, as the vector is allocated before any worker runs. */
  function Zeroes(n: nat): (r: seq<Feature>)
    ensures |r| == n && forall k :: 0 <= k < n ==> r[k] == Zeroed
  {
    seq(n, _ => Zeroed)
  }

  /**
   * What one worker leaves in its chunk: it walks the chunk's images in
   * order and writes each extracted feature; at the first failure it stops,
   * and that slot and the rest of the chunk stay zeroed.
   */
  function ChunkFeatures(paths: seq<string>, extract: Extractor): (r: seq<Feature>)
    ensures |r| == |paths|
  {
    if |paths| == 0 then []
    else
      match Attempt(paths[0], extract)
      case Err(_) => Zeroes(|paths|)
      case Ok(f) => [f] + ChunkFeatures(paths[1..], extract)
  }

  /**
   * A chunk's result slot by slot: the images before the first failure have
   * their own features, and from the first failure on the slots are zeroed.
   */
  lemma {:induction false} ChunkFeaturesMeaning(paths: seq<string>, extract: Extractor)
    ensures var r, stop := ChunkFeatures(paths, extract), FirstFailure(paths, extract);
      && (forall j :: 0 <= j < stop ==> Attempt(paths[j], extract) == Ok(r[j]))
      && (forall j :: stop <= j < |paths| ==> r[j] == Zeroed)
    decreases |paths|
  {
    if |paths| > 0 && Attempt(paths[0], extract).Ok? {
      var tail := paths[1..];
      ChunkFeaturesMeaning(tail, extract);
      var r := ChunkFeatures(paths, extract);
      assert r == [Attempt(paths[0], extract).value] + ChunkFeatures(tail, extract);
      assert forall j :: 1 <= j < |paths| ==> paths[j] == tail[j - 1] && r[j] == ChunkFeatures(tail, extract)[j - 1];
    }
  }

  /** One worker's job as a function of its chunk of paths. */
  function Job(extract: Extractor): (job: seq<string> -> seq<Feature>)
    ensures KeepsLength(job)
  {
    paths => ChunkFeatures(paths, extract)
  }

  /**
   * The vector `prepare_images` leaves: one worker per `chunks_mut` slice,
   * each slice's result in the slice's place.
   */
  function Prepared(images: seq<string>, size: nat, extract: Extractor): (r: seq<Feature>)
    requires size > 0
    ensures |r| == |images|
  {
    MapChunksLength(images, size, Job(extract));
    MapChunks(images, size, Job(extract))
  }

  /** Chunk `idx` of the prepared vector is that chunk's worker result. */
  lemma PreparedChunk(images: seq<string>, size: nat, extract: Extractor, idx: nat)
    requires size > 0 && idx * size < |images|
    ensures var lo := idx * size;
      var len := ChunkLen(|images|, size, lo);
      Prepared(images, size, extract)[lo..lo + len] == ChunkFeatures(images[lo..lo + len], extract)
  {
    MapChunksAt(images, size, Job(extract), idx);
  }

  /** Slot `i` of the prepared vector, read through the chunk that holds it, which starts at `lo`. */
  lemma PreparedSlot(images: seq<string>, size: nat, extract: Extractor, i: nat) returns (paths: seq<string>, lo: nat, j: nat)
    requires size > 0 && i < |images|
    ensures lo + |paths| <= |images| && paths == images[lo..lo + |paths|]
    ensures j < |paths| && lo + j == i
    ensures Prepared(images, size, extract)[i] == ChunkFeatures(paths, extract)[j]
    ensures size == DefaultChunkSize ==> paths == [images[i]]
  {
    var idx;
    idx, j := ChunkOf(|images|, size, i);
    lo := idx * size;
    paths := images[lo..lo + ChunkLen(|images|, size, lo)];
    PreparedChunk(images, size, extract, idx);
    assert Prepared(images, size, extract)[lo..lo + |paths|][j] == Prepared(images, size, extract)[i];
  }

  /**
   * Slot `i` never receives another image's feature: it is zeroed or holds
   * the feature of image `i`. With the default chunk size of one, every
   * image that can be extracted is, whatever happens to the others.
   */
  lemma SlotFromOwnImage(images: seq<string>, size: nat, extract: Extractor, i: nat)
    requires size > 0 && i < |images|
    ensures Prepared(images, size, extract)[i] == Zeroed
         || Attempt(images[i], extract) == Ok(Prepared(images, size, extract)[i])
    ensures size == DefaultChunkSize && Attempt(images[i], extract).Ok?
         ==> Attempt(images[i], extract) == Ok(Prepared(images, size, extract)[i])
  {
    var paths, lo, j := PreparedSlot(images, size, extract, i);
    ChunkFeaturesMeaning(paths, extract);
    if size == DefaultChunkSize && Attempt(images[i], extract).Ok? {
      FirstFailureAt(paths, extract, 1);
    }
  }

  /**
   * When every image can be extracted, slot `i` holds image `i`'s feature
   * for every chunk size: the batch does not depend on how it was chunked.
   */
  lemma ChunkSizeIrrelevant(images: seq<string>, size: nat, extract: Extractor, i: nat)
    requires size > 0 && i < |images|
    requires forall k :: 0 <= k < |images| ==> Attempt(images[k], extract).Ok?
    ensures Attempt(images[i], extract) == Ok(Prepared(images, size, extract)[i])
  {
    var paths, lo, j := PreparedSlot(images, size, extract, i);
    ChunkFeaturesMeaning(paths, extract);
    forall k | 0 <= k < |paths|
      ensures Attempt(paths[k], extract).Ok?
    {
      assert paths[k] == images[lo + k];
    }
    FirstFailureAt(paths, extract, |paths|);
  }

  /** `v` after the chunks before slot `done` have run: prepared slots, then zeroed ones. */
  ghost predicate DoneUpTo(v: seq<Feature>, images: seq<string>, size: nat, extract: Extractor, done: nat)
    requires size > 0
  {
    && |v| == |images|
    && forall i :: 0 <= i < |v| ==> v[i] == (if i < done then Prepared(images, size, extract)[i] else Zeroed)
  }

  /** `after` is `before` with the first `m` slots of `result` written from slot `lo` on. */
  ghost predicate WrittenFrom(before: seq<Feature>, after: seq<Feature>, result: seq<Feature>, lo: nat, m: nat)
    requires m <= |result|
  {
    && |after| == |before|
    && forall i :: 0 <= i < |before| ==> after[i] == (if lo <= i < lo + m then result[i - lo] else before[i])
  }

  /**
   * Running the worker for chunk `idx` on a vector whose earlier chunks are
   * done and whose later slots are zeroed finishes chunk `idx`.
   */
  lemma AfterChunk(images: seq<string>, size: nat, extract: Extractor, idx: nat, before: seq<Feature>, after: seq<Feature>)
    requires size > 0 && idx * size < |images|
    requires DoneUpTo(before, images, size, extract, idx * size)
    requires var lo := idx * size;
      var paths := images[lo..lo + ChunkLen(|images|, size, lo)];
      WrittenFrom(before, after, ChunkFeatures(paths, extract), lo, FirstFailure(paths, extract))
    ensures DoneUpTo(after, images, size, extract, idx * size + ChunkLen(|images|, size, idx * size))
  {
    var lo := idx * size;
    var len := ChunkLen(|images|, size, lo);
    var paths := images[lo..lo + len];
    PreparedChunk(images, size, extract, idx);
    ChunkFeaturesMeaning(paths, extract);
    FinishSlots(before, after, Prepared(images, size, extract), ChunkFeatures(paths, extract),
                lo, FirstFailure(paths, extract));
  }

  /**
   * Slot by slot: a vector done up to `lo` and zeroed after it, into which
   * the first `stop` slots of the chunk result at `lo` are written, is done
   * up to the end of that chunk when the rest of the result is zeroed.
   */
  lemma FinishSlots(before: seq<Feature>, after: seq<Feature>, whole: seq<Feature>, result: seq<Feature>, lo: nat, stop: nat)
    requires lo + |result| <= |whole| == |before| && stop <= |result|
    requires whole[lo..lo + |result|] == result
    requires forall j :: stop <= j < |result| ==> result[j] == Zeroed
    requires forall i :: 0 <= i < |before| ==> before[i] == (if i < lo then whole[i] else Zeroed)
    requires WrittenFrom(before, after, result, lo, stop)
    ensures forall i :: 0 <= i < |after| ==> after[i] == (if i < lo + |result| then whole[i] else Zeroed)
  {
    forall i | 0 <= i < |after|
      ensures after[i] == (if i < lo + |result| then whole[i] else Zeroed)
    {
      if lo <= i < lo + |result| {
        assert whole[lo..lo + |result|][i - lo] == whole[i];
      }
    }
  }

  /**
   * The body of one worker thread: it walks chunk `idx` in order, reads
   * image `Counter(idx, iidx, size)` for element `iidx` of the chunk, and
   * writes the extracted feature into that element, stopping at the first
   * failure, which it returns.
   */
  method Worker(features: array<Feature>, images: seq<string>, size: nat, idx: nat, extract: Extractor)
    returns (outcome: Result<(), WorkerError>)
    requires size > 0 && features.Length == |images| && idx * size < |images|
    modifies features
    ensures var lo := idx * size;
      var len := ChunkLen(|images|, size, lo);
      var paths := images[lo..lo + len];
      var stop := FirstFailure(paths, extract);
      && (stop == len ==> outcome == Ok(()))
      && (stop < len ==> outcome.Err? && Attempt(paths[stop], extract) == Err(outcome.error))
      && forall i :: 0 <= i < features.Length ==>
           features[i] == (if lo <= i < lo + stop then ChunkFeatures(paths, extract)[i - lo] else old(features[i]))
  {
    var lo := idx * size;
    var len := ChunkLen(|images|, size, lo);
    ghost var paths := images[lo..lo + len];
    ghost var stop := FirstFailure(paths, extract);
    ghost var result := ChunkFeatures(paths, extract);
    var iidx := 0;
    while iidx < len
      invariant 0 <= iidx <= stop
      invariant forall i :: 0 <= i < features.Length ==>
        features[i] == (if lo <= i < lo + iidx then result[i - lo] else old(features[i]))
    {
      var counter := Counter(idx, iidx, size);
      // `images.get(counter)` always finds the image: it is the chunk element's own index.
      assert counter == lo + iidx;
      var path := images[counter];
      assert paths[iidx] == path;
      // The C-string conversion and the extraction, with their errors.
      var attempt := Attempt(path, extract);
      ChunkStep(paths, extract, iidx);
      match attempt {
        case Err(e) =>
          return Err(e);
        case Ok(f) =>
          features[lo + iidx] := f;
      }
      iidx := iidx + 1;
    }
    outcome := Ok(());
  }

  /**
   * The thread scope of `prepare_images`: one worker per chunk of the
   * zeroed vector, in chunk order; each worker's result is dropped, as the
   * scope closure returns `Ok(())` whatever the workers report.
   */
  method SpawnWorkers(features: array<Feature>, sources: seq<string>, size: nat, extract: Extractor)
    requires size > 0 && features.Length == |sources|
    requires forall i :: 0 <= i < features.Length ==> features[i] == Zeroed
    modifies features
    ensures features[..] == Prepared(sources, size, extract)
  {
    var count := ChunkCount(|sources|, size);
    var idx := 0;
    ghost var done := 0;
    while idx < count
      invariant 0 <= idx <= count && done <= |sources|
      invariant idx < count ==> done == idx * size
      invariant idx == count ==> done == |sources|
      invariant DoneUpTo(features[..], sources, size, extract, done)
    {
      NextChunk(|sources|, size, idx);
      ghost var before := features[..];
      var _ := Worker(features, sources, size, idx, extract);
      AfterChunk(sources, size, extract, idx, before, features[..]);
      done := done + ChunkLen(|sources|, size, idx * size);
      idx := idx + 1;
    }
    assert features[..] == Prepared(sources, size, extract);
  }

  /**
   * The comparison scores, one per source feature and in source order;
   * `None` as soon as one comparison fails.
   */
  function Collect(features: seq<Feature>, target: Feature, compare: Comparer): (r: Option<seq<real>>)
    ensures r.Some? <==> forall i :: 0 <= i < |features| ==> compare(features[i], target).Some?
    ensures r.Some? ==> (|r.value| == |features|
      && forall i :: 0 <= i < |features| ==> r.value[i] == compare(features[i], target).value)
    decreases |features|
  {
    if |features| == 0 then Some([])
    else
      var last := |features| - 1;
      match Collect(features[..last], target, compare)
      case None =>
        assert !compare(features[..last][IndexOfFailure(features[..last], target, compare)], target).Some?;
        None
      case Some(prefix) =>
        match compare(features[last], target)
        case None => None
        case Some(v) => Some(prefix + [v])
  }

  /** An index at which the comparison fails, when there is one. */
  function IndexOfFailure(features: seq<Feature>, target: Feature, compare: Comparer): (k: nat)
    requires exists i :: 0 <= i < |features| && compare(features[i], target).None?
    ensures k < |features| && compare(features[k], target).None?
    decreases |features|
  {
    if compare(features[0], target).None? then 0
    else 1 + IndexOfFailure(features[1..], target, compare)
  }

  /** The scores when every comparison succeeds, one per feature in order. */
  function Scores(features: seq<Feature>, target: Feature, compare: Comparer): (scores: seq<real>)
    requires forall i :: 0 <= i < |features| ==> compare(features[i], target).Some?
    ensures |scores| == |features|
    ensures forall i :: 0 <= i < |features| ==> compare(features[i], target) == Some(scores[i])
  {
    seq(|features|, i requires 0 <= i < |features| => compare(features[i], target).value)
  }

  /**
   * The whole of `compare_images` on the prepared features: a failed
   * comparison gives `Comparison("Comparison fail")`; otherwise the scores
   * are aggregated and the cosine is returned with its calibrated percentage.
   */
  function CompareOutcome(features: seq<Feature>, target: Feature, methodology: Methodology,
                          compare: Comparer, calibrate: real -> real): Result<(real, real), FFIError>
    requires |features| > 0
  {
    match Collect(features, target, compare)
    case None => Err(Comparison(ComparisonFailText))
    case Some(scores) =>
      match Aggregate(scores, |features|, methodology)
      case Err(e) => Err(e)
      case Ok(cosine) => Ok((cosine, calibrate(cosine)))
  }

  /** One failed comparison, anywhere in the batch, fails the whole comparison. */
  lemma CompareFailure(features: seq<Feature>, target: Feature, methodology: Methodology,
                       compare: Comparer, calibrate: real -> real, k: nat)
    requires k < |features| && compare(features[k], target).None?
    ensures CompareOutcome(features, target, methodology, compare, calibrate)
         == Err(Comparison(ComparisonFailText))
  {
  }

  /**
   * With every comparison succeeding, the result is the aggregation of the
   * scores in source order; Median on two sources is always refused.
   */
  lemma CompareAggregates(features: seq<Feature>, target: Feature, methodology: Methodology,
                          compare: Comparer, calibrate: real -> real)
    requires |features| > 0
    requires forall i :: 0 <= i < |features| ==> compare(features[i], target).Some?
    ensures var r := CompareOutcome(features, target, methodology, compare, calibrate);
      var agg := Aggregate(Scores(features, target, compare), |features|, methodology);
      && (agg.Ok? ==> r == Ok((agg.value, calibrate(agg.value))))
      && (agg.Err? ==> r == Err(agg.error))
      && (|features| == 2 && methodology == Median ==> r == Err(Comparison(SampleTooSmallText)))
  {
    var collected := Collect(features, target, compare);
    assert collected.Some?;
    assert collected.value == Scores(features, target, compare);
  }

  /** The library's handle; the native session pointer is not modelled. */
  class InsightFace {
    var srcFeatures: array<Feature>
    var targetFeature: Feature
    var chunks: Option<nat>

    /** `new` after the engine has loaded the model and opened the session. */
    constructor (chunkSize: Option<nat>)
      ensures srcFeatures.Length == 0 && targetFeature == Zeroed && chunks == chunkSize
    {
      srcFeatures := new Feature[0];
      targetFeature := Zeroed;
      chunks := chunkSize;
    }

    /**
     * `prepare_images`: a fresh vector of one zeroed slot per source becomes
     * the source features, and is then split into chunks of the configured
     * size (one by default), each chunk filled by its worker.
     */
    method PrepareImages(sources: seq<string>, extract: Extractor)
      requires chunks != Some(0)
      modifies this
      ensures fresh(srcFeatures) && srcFeatures.Length == |sources|
      ensures chunks == old(chunks) && targetFeature == old(targetFeature)
      ensures srcFeatures[..] == Prepared(sources, ChunkSize(chunks), extract)
    {
      var features := new Feature[|sources|](_ => Zeroed);
      srcFeatures := features;
      SpawnWorkers(features, sources, ChunkSize(chunks), extract);
    }

    /**
     * `prepare_target_image`: a path holding a NUL byte is refused with
     * `Feature`; otherwise the extraction's own error is returned, or its
     * feature becomes the target.
     */
    method PrepareTargetImage(path: string, extract: Extractor) returns (r: Result<(), FFIError>)
      modifies this
      ensures srcFeatures == old(srcFeatures) && chunks == old(chunks)
      ensures '\0' in path ==> r == Err(Feature) && targetFeature == old(targetFeature)
      ensures '\0' !in path && extract(path).Err? ==> r == Err(extract(path).error) && targetFeature == old(targetFeature)
      ensures '\0' !in path && extract(path).Ok? ==> r == Ok(()) && targetFeature == extract(path).value
    {
      if '\0' in path {
        return Err(Feature);
      }
      match extract(path)
      case Err(e) =>
        r := Err(e);
      case Ok(f) =>
        targetFeature := f;
        r := Ok(());
    }

    /**
     * `compare_images`: one score per source feature, in order, aborting on
     * the first failed comparison; Median on two scores is refused; then
     * Mean or Median (on the scores sorted in place) and the percentage.
     */
    method CompareImages(methodology: Methodology, compare: Comparer, calibrate: real -> real)
      returns (r: Result<(real, real), FFIError>)
      requires srcFeatures.Length > 0
      ensures r == CompareOutcome(srcFeatures[..], targetFeature, methodology, compare, calibrate)
    {
      var cosineResult: seq<real> := [];
      var i := 0;
      while i < srcFeatures.Length
        invariant 0 <= i <= srcFeatures.Length
        invariant |cosineResult| == i
        invariant forall k :: 0 <= k < i ==> compare(srcFeatures[k], targetFeature) == Some(cosineResult[k])
      {
        var res := compare(srcFeatures[i], targetFeature);
        if res.None? {
          assert compare(srcFeatures[..][i], targetFeature).None?;
          return Err(Comparison(ComparisonFailText));
        }
        cosineResult := cosineResult + [res.value];
        i := i + 1;
      }
      var collected := Collect(srcFeatures[..], targetFeature, compare);
      assert collected.Some?;
      assert collected.value == cosineResult;
      if |cosineResult| == 2 && methodology == Median {
        return Err(Comparison(SampleTooSmallText));
      }
      var cosine: real;
      match methodology {
        case Mean =>
          cosine := Sum(cosineResult) / srcFeatures.Length as real;
        case Median =>
          cosineResult := SortAscending(cosineResult);
          var selected := SelectMedian(cosineResult);
          if selected.Err? {
            return Err(selected.error);
          }
          cosine := selected.value;
      }
      r := Ok((cosine, calibrate(cosine)));
    }
  }
}
