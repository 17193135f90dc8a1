/**
 * The library's error type and its user-visible messages: the `FFIError`
 * enum and its `Display` implementation.
 */
module Errors {
  import opened Wrappers

  /** The eight variants of `FFIError`; four carry a detail text. */
  datatype FFIError =
    | ModelLoad
    | Session
    | Feature
    | MissingImage
    | Bitmap(detail: string)
    | Stream(detail: string)
    | FaceTrack(detail: string)
    | Comparison(detail: string)
  {
    predicate HasDetail() {
      Bitmap? || Stream? || FaceTrack? || Comparison?
    }
  }

  const ModelLoadText := "Unable to load the model"
  const SessionText := "Unable to load the session"
  const FeatureText := "Unable to create the feature"
  const MissingImageText := "Unable to load the image"
  const BitmapPrefix := "Unable to create a bitmap due to: "
  const StreamPrefix := "Unable to create stream image due to: "
  const FaceTrackPrefix := "Facetrack encountered an error due to: "
  const ComparisonPrefix := "Unable to compare image due to: "

  /** The text that `Display` writes before the detail of a detailed variant. */
  function Prefix(e: FFIError): string
    requires e.HasDetail()
  {
    match e
    case Bitmap(_) => BitmapPrefix
    case Stream(_) => StreamPrefix
    case FaceTrack(_) => FaceTrackPrefix
    case Comparison(_) => ComparisonPrefix
  }

  /**
   * `Display::fmt`: a fixed sentence for the four plain variants, a
   * variant-specific prefix followed by the detail, verbatim, for the others.
   * The message always identifies the error it came from.
   */
  function Message(e: FFIError): (r: string)
    ensures Recover(r) == Some(e)
  {
    match e
    case ModelLoad => ModelLoadText
    case Session => SessionText
    case Feature => FeatureText
    case MissingImage => MissingImageText
    case Bitmap(m) => PrefixedRecovers(e, m); BitmapPrefix + m
    case Stream(m) => PrefixedRecovers(e, m); StreamPrefix + m
    case FaceTrack(m) => PrefixedRecovers(e, m); FaceTrackPrefix + m
    case Comparison(m) => PrefixedRecovers(e, m); ComparisonPrefix + m
  }

  /**
   * Reads an error back from its message: the inverse of `Message`. The
   * plain sentences are tried first; every prefix is longer than every plain
   * sentence, so a detailed message is never taken for a plain one.
   */
  function Recover(s: string): Option<FFIError> {
    if s == ModelLoadText then Some(ModelLoad)
    else if s == SessionText then Some(Session)
    else if s == FeatureText then Some(Feature)
    else if s == MissingImageText then Some(MissingImage)
    else if BitmapPrefix <= s then Some(Bitmap(s[|BitmapPrefix|..]))
    else if StreamPrefix <= s then Some(Stream(s[|StreamPrefix|..]))
    else if FaceTrackPrefix <= s then Some(FaceTrack(s[|FaceTrackPrefix|..]))
    else if ComparisonPrefix <= s then Some(Comparison(s[|ComparisonPrefix|..]))
    else None
  }

  lemma PrefixedRecovers(e: FFIError, m: string)
    requires e.HasDetail() && e.detail == m
    ensures Recover(Prefix(e) + m) == Some(e)
  {
    var s := Prefix(e) + m;
    assert s[..|Prefix(e)|] == Prefix(e);
    assert |s| >= 32;
    match e
    case Bitmap(_) =>
      assert s[|BitmapPrefix|..] == m;
    case Stream(_) =>
      assert s[17] != BitmapPrefix[17];
      assert s[|StreamPrefix|..] == m;
    case FaceTrack(_) =>
      assert s[0] != BitmapPrefix[0] && s[0] != StreamPrefix[0];
      assert s[|FaceTrackPrefix|..] == m;
    case Comparison(_) =>
      assert s[12] != BitmapPrefix[12] && s[12] != StreamPrefix[12];
      assert s[0] != FaceTrackPrefix[0];
      assert s[|ComparisonPrefix|..] == m;
  }

  /** Two errors with the same message are the same error. */
  lemma MessageInjective(e1: FFIError, e2: FFIError)
    ensures Message(e1) == Message(e2) <==> e1 == e2
  {
    if Message(e1) == Message(e2) {
      assert Some(e1) == Recover(Message(e1)) == Recover(Message(e2)) == Some(e2);
    }
  }

  /** A detailed variant's message is its prefix followed by the detail, verbatim. */
  lemma DetailVerbatim(e: FFIError)
    requires e.HasDetail()
    ensures |Message(e)| == |Prefix(e)| + |e.detail|
    ensures Message(e)[..|Prefix(e)|] == Prefix(e)
    ensures Message(e)[|Prefix(e)|..] == e.detail
  {
  }

  /** The plain variants' messages are fixed sentences. */
  lemma PlainMessages()
    ensures Message(ModelLoad) == "Unable to load the model"
    ensures Message(Session) == "Unable to load the session"
    ensures Message(Feature) == "Unable to create the feature"
    ensures Message(MissingImage) == "Unable to load the image"
  {
  }
}
