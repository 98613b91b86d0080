/**
 * The uploaded-video path: extracted frames are sent to the detector in
 * batches of five, each failure replaced by an empty result, and during
 * playback the result shown is the first analysed frame within half a second
 * of the playback position.
 */
module VideoUpload {
  import opened Wrappers
  import opened Detection

  /** A frame extracted from the video: `{ time, image, timestamp }` (milliseconds, JPEG bytes, seconds). */
  datatype VideoFrame = VideoFrame(time: real, image: seq<bv8>, timestamp: real)

  /** `batchSize`: frames sent to the detector together. */
  const BatchSize: nat := 5

  /** How close to the playback position an analysed frame must be, in seconds. */
  const Tolerance: real := 0.5

  function Abs(x: real): real
  {
    if x < 0.0 then -x else x
  }

  /** `Math.abs(result.timestamp - currentTime) < 0.5`. */
  predicate Near(frame: AnalysedFrame, currentTime: real)
  {
    Abs(frame.timestamp - currentTime) < Tolerance
  }

  /** `currentAlerts`: the analysed frames near the playback position, in order. */
  function NearFrames(analysis: seq<AnalysedFrame>, currentTime: real): (r: seq<AnalysedFrame>)
    ensures |r| <= |analysis|
  {
    if analysis == [] then []
    else if Near(analysis[0], currentTime) then [analysis[0]] + NearFrames(analysis[1..], currentTime)
    else NearFrames(analysis[1..], currentTime)
  }

  /** The filter keeps exactly the analysed frames near the playback position. */
  lemma {:induction false} NearFramesMembers(analysis: seq<AnalysedFrame>, currentTime: real)
    ensures forall f :: f in NearFrames(analysis, currentTime) <==> f in analysis && Near(f, currentTime)
    decreases |analysis|
  {
    if analysis != [] {
      NearFramesMembers(analysis[1..], currentTime);
      assert analysis == [analysis[0]] + analysis[1..];
    }
  }

  /** Filtering a concatenation filters each part in turn, so the kept frames stay in their original order. */
  lemma {:induction false} NearFramesKeepsOrder(a: seq<AnalysedFrame>, b: seq<AnalysedFrame>, currentTime: real)
    ensures NearFrames(a + b, currentTime) == NearFrames(a, currentTime) + NearFrames(b, currentTime)
    decreases |a|
  {
    if a == [] {
      assert a + b == b;
    } else {
      assert (a + b)[1..] == a[1..] + b;
      NearFramesKeepsOrder(a[1..], b, currentTime);
    }
  }

  /** `getCurrentFrameResults`: the first near frame's result, or `{ Persons: [] }`. */
  function GetCurrentFrameResults(analysis: seq<AnalysedFrame>, currentTime: real): DetectionResult
  {
    var currentAlerts := NearFrames(analysis, currentTime);
    if |currentAlerts| > 0 then currentAlerts[0].result else NoPersons
  }

  /** The result shown is that of the earliest analysed frame near the playback position; with none near, it is empty. */
  lemma {:induction false} CurrentFrameIsFirstNear(analysis: seq<AnalysedFrame>, currentTime: real)
    ensures (forall k :: 0 <= k < |analysis| ==> !Near(analysis[k], currentTime)) ==>
              GetCurrentFrameResults(analysis, currentTime) == NoPersons
    ensures forall k :: 0 <= k < |analysis| && Near(analysis[k], currentTime)
                        && (forall j :: 0 <= j < k ==> !Near(analysis[j], currentTime)) ==>
              GetCurrentFrameResults(analysis, currentTime) == analysis[k].result
  {
    if analysis != [] {
      CurrentFrameIsFirstNear(analysis[1..], currentTime);
      if !Near(analysis[0], currentTime) {
        forall k | 0 <= k < |analysis| && Near(analysis[k], currentTime)
                   && (forall j :: 0 <= j < k ==> !Near(analysis[j], currentTime))
          ensures GetCurrentFrameResults(analysis, currentTime) == analysis[k].result
        {
          assert analysis[1..][k - 1] == analysis[k];
          forall j | 0 <= j < k - 1 ensures !Near(analysis[1..][j], currentTime) {
            assert analysis[1..][j] == analysis[j + 1];
          }
        }
        forall k | 0 <= k < |analysis[1..]| ensures analysis[1..][k] == analysis[k + 1] { }
      }
    }
  }

  /** One frame through the detector: its own `timestamp` and `time`, with `{ Persons: [] }` if detection fails. */
  function Analyse(frame: VideoFrame, detect: seq<bv8> -> Result<DetectionResult, string>): (r: AnalysedFrame)
    ensures r.timestamp == frame.timestamp && r.time == frame.time
    ensures detect(frame.image).Failure? ==> r.result == NoPersons
    ensures detect(frame.image).Success? ==> r.result == detect(frame.image).value
  {
    match detect(frame.image)
    case Success(result) => AnalysedFrame(frame.timestamp, frame.time, result)
    case Failure(_) => AnalysedFrame(frame.timestamp, frame.time, NoPersons)
  }

  /** `batch.map(...)` awaited with `Promise.all`: the analysed frames of one batch, in batch order. */
  method AnalyseBatch(batch: seq<VideoFrame>, detect: seq<bv8> -> Result<DetectionResult, string>)
    returns (batchResults: seq<AnalysedFrame>)
    ensures |batchResults| == |batch|
    ensures forall k :: 0 <= k < |batch| ==> batchResults[k] == Analyse(batch[k], detect)
  {
    batchResults := [];
    var batchIndex := 0;
    while batchIndex < |batch|
      invariant 0 <= batchIndex <= |batch|
      invariant |batchResults| == batchIndex
      invariant forall k :: 0 <= k < batchIndex ==> batchResults[k] == Analyse(batch[k], detect)
    {
      batchResults := batchResults + [Analyse(batch[batchIndex], detect)];
      batchIndex := batchIndex + 1;
    }
  }

  /**
   * `processVideoFrames`: batches `[i, i + 5)` in order, each appended to
   * `results`; the k-th result belongs to the k-th frame.
   */
  method ProcessVideoFrames(frames: seq<VideoFrame>, detect: seq<bv8> -> Result<DetectionResult, string>)
    returns (results: seq<AnalysedFrame>)
    ensures |results| == |frames|
    ensures forall k :: 0 <= k < |frames| ==> results[k] == Analyse(frames[k], detect)
  {
    results := [];
    var i := 0;
    while i < |frames|
      invariant 0 <= i
      invariant i % BatchSize == 0
      invariant |results| == if i < |frames| then i else |frames|
      invariant forall k :: 0 <= k < |results| ==> results[k] == Analyse(frames[k], detect)
      decreases |frames| - i
    {
      var batchEnd := if i + BatchSize < |frames| then i + BatchSize else |frames|;
      var batch := frames[i..batchEnd];
      var batchResults := AnalyseBatch(batch, detect);
      results := results + batchResults;
      i := i + BatchSize;
    }
  }
}
