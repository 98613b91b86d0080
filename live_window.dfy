/**
 * The live trailing window of src/App.js: every poll appends the scene outcome
 * to a buffer, evicts the entries older than the retention horizon from its
 * front, and decides over the entries of the last `windowSize` seconds whether
 * the detected people are published.
 */
module LiveWindow {
  import opened Wrappers
  import opened Policy
  import opened Detection

  /** One buffered poll outcome `{ t, hasAlarm }`, `t` in seconds. */
  datatype SceneFrame = SceneFrame(t: real, hasAlarm: bool)

  /** Retention horizon `Math.max(30, (Number(ws) || 3) * 2)`. */
  function MaxKeep(x: NumInput): (r: real)
    ensures r >= 30.0
    ensures r >= 2.0 * NumberOr(x, 3.0)
    ensures r == 30.0 || r == 2.0 * NumberOr(x, 3.0)
  {
    Max(30.0, NumberOr(x, 3.0) * 2.0)
  }

  /** The decision window never reaches further back than the retention horizon. */
  lemma WindowWithinRetention(x: NumInput)
    ensures 0.5 <= WindowSize(x) <= MaxKeep(x)
  {
  }

  ghost predicate Sorted(s: seq<SceneFrame>)
  {
    forall i, j :: 0 <= i < j < |s| ==> s[i].t <= s[j].t
  }

  /**
   * The eviction loop: drop leading entries while the first one is older than
   * `cutoff`. The result is the suffix that starts at the first entry not older
   * than `cutoff`.
   */
  function Evict(s: seq<SceneFrame>, cutoff: real): (r: seq<SceneFrame>)
    ensures |r| <= |s|
    ensures r != [] ==> r[0].t >= cutoff
    decreases |s|
  {
    if s != [] && s[0].t < cutoff then Evict(s[1..], cutoff) else s
  }

  /** Eviction only removes a prefix: what is left is a suffix of the buffer. */
  lemma {:induction false} EvictIsSuffix(s: seq<SceneFrame>, cutoff: real)
    ensures Evict(s, cutoff) == s[|s| - |Evict(s, cutoff)|..]
    decreases |s|
  {
    if s != [] && s[0].t < cutoff {
      EvictIsSuffix(s[1..], cutoff);
      assert s[1..][|s| - 1 - |Evict(s, cutoff)|..] == s[|s| - |Evict(s, cutoff)|..];
    }
  }

  /** Eviction removes only entries older than the cutoff. */
  lemma {:induction false} EvictDropsOnlyOld(s: seq<SceneFrame>, cutoff: real)
    ensures forall i :: 0 <= i < |s| - |Evict(s, cutoff)| ==> s[i].t < cutoff
    decreases |s|
  {
    if s != [] && s[0].t < cutoff {
      EvictDropsOnlyOld(s[1..], cutoff);
      forall i | 1 <= i < |s| - |Evict(s, cutoff)| ensures s[i].t < cutoff {
        assert s[i] == s[1..][i - 1];
      }
    }
  }

  /** `buffer.filter(x => x.t >= lo)`. */
  function WindowFrames(s: seq<SceneFrame>, lo: real): (r: seq<SceneFrame>)
    ensures |r| <= |s|
    decreases |s|
  {
    if s == [] then []
    else (if s[0].t >= lo then [s[0]] else []) + WindowFrames(s[1..], lo)
  }

  /** The window holds exactly the buffered frames at or after its start. */
  lemma {:induction false} WindowFramesMembers(s: seq<SceneFrame>, lo: real)
    ensures forall f :: f in WindowFrames(s, lo) <==> f in s && f.t >= lo
    decreases |s|
  {
    if s != [] {
      WindowFramesMembers(s[1..], lo);
      assert s == [s[0]] + s[1..];
    }
  }

  /** `frames.some(x => x.hasAlarm)`. */
  function AnyAlarm(w: seq<SceneFrame>): (r: bool)
    ensures r <==> exists i :: 0 <= i < |w| && w[i].hasAlarm
    decreases |w|
  {
    w != [] && (w[0].hasAlarm || AnyAlarm(w[1..]))
  }

  /** `frames.filter(x => x.hasAlarm).length`. */
  function Positives(w: seq<SceneFrame>): (r: nat)
    ensures r <= |w|
    ensures r == 0 <==> forall i :: 0 <= i < |w| ==> !w[i].hasAlarm
    ensures r == |w| <==> forall i :: 0 <= i < |w| ==> w[i].hasAlarm
    decreases |w|
  {
    if w == [] then 0 else (if w[0].hasAlarm then 1 else 0) + Positives(w[1..])
  }

  /**
   * `people.some((p) => p.hasAlarm)`: the scene outcome of one poll. It is the
   * same `some` as `AnyAlarm`, over the mapped persons of the frame rather than
   * over buffered scene entries.
   */
  function SceneAlarm(people: seq<MappedPerson>): (r: bool)
    ensures r <==> exists i :: 0 <= i < |people| && people[i].hasAlarm
    decreases |people|
  {
    people != [] && (people[0].hasAlarm || SceneAlarm(people[1..]))
  }

  /**
   * `shouldShow`: true by default; over a non-empty window, "any" asks for one
   * alarmed frame and "percentage" for a share of alarmed frames of at least
   * the threshold.
   */
  function ShouldShow(w: seq<SceneFrame>, detectionMethod: Method, threshold: NumInput): (r: bool)
    ensures w == [] ==> r
    ensures w != [] && detectionMethod == Any ==> (r <==> exists i :: 0 <= i < |w| && w[i].hasAlarm)
    ensures w != [] && detectionMethod == Percentage ==> (r <==> PercentMeets(Positives(w), |w|, Threshold(threshold)))
  {
    if |w| > 0 then
      match detectionMethod
      case Any => AnyAlarm(w)
      case Percentage => PercentMeets(Positives(w), |w|, Threshold(threshold))
    else true
  }

  /** The buffer after one poll at `now`: push the scene outcome, then evict. */
  function Retained(buffer: seq<SceneFrame>, hasAlarm: bool, now: real, windowInput: NumInput): seq<SceneFrame>
  {
    Evict(buffer + [SceneFrame(now, hasAlarm)], now - MaxKeep(windowInput))
  }

  /** The decision window `[now - windowSize, now]` of a retained buffer. */
  function Window(retained: seq<SceneFrame>, now: real, windowInput: NumInput): seq<SceneFrame>
  {
    WindowFrames(retained, now - WindowSize(windowInput))
  }

  /** Eviction keeps order and removes only a prefix, so a sorted buffer stays sorted. */
  lemma {:induction false} EvictKeepsSorted(s: seq<SceneFrame>, cutoff: real)
    requires Sorted(s)
    ensures Sorted(Evict(s, cutoff))
    decreases |s|
  {
    if s != [] && s[0].t < cutoff {
      assert Sorted(s[1..]) by {
        forall i, j | 0 <= i < j < |s| - 1 ensures s[1..][i].t <= s[1..][j].t {
          assert s[1..][i] == s[i + 1] && s[1..][j] == s[j + 1];
        }
      }
      EvictKeepsSorted(s[1..], cutoff);
    }
  }

  /** In a sorted buffer every retained entry is at or after the cutoff. */
  lemma EvictSortedAboveCutoff(s: seq<SceneFrame>, cutoff: real)
    requires Sorted(s)
    ensures forall f :: f in Evict(s, cutoff) ==> f.t >= cutoff
  {
    var r := Evict(s, cutoff);
    var d := |s| - |r|;
    EvictIsSuffix(s, cutoff);
    forall k | 0 <= k < |r| ensures r[k].t >= cutoff {
      assert r[0] == s[d] && r[k] == s[d + k];
    }
  }

  /** After a push, the pushed entry survives eviction and is the last one. */
  lemma PushedFrameIsLast(buffer: seq<SceneFrame>, hasAlarm: bool, now: real, windowInput: NumInput)
    ensures var r := Retained(buffer, hasAlarm, now, windowInput);
            r != [] && r[|r| - 1] == SceneFrame(now, hasAlarm)
  {
    var s := buffer + [SceneFrame(now, hasAlarm)];
    var r := Retained(buffer, hasAlarm, now, windowInput);
    EvictDropsOnlyOld(s, now - MaxKeep(windowInput));
    EvictIsSuffix(s, now - MaxKeep(windowInput));
    assert s[|s| - 1].t >= now - MaxKeep(windowInput);
    assert r[|r| - 1] == s[|s| - 1];
  }

  /**
   * A poll on a sorted buffer whose clock did not go backwards keeps the buffer
   * sorted, and every retained entry is within the retention horizon.
   */
  lemma PollKeepsBufferSorted(buffer: seq<SceneFrame>, hasAlarm: bool, now: real, windowInput: NumInput)
    requires Sorted(buffer)
    requires buffer == [] || buffer[|buffer| - 1].t <= now
    ensures Sorted(Retained(buffer, hasAlarm, now, windowInput))
    ensures forall f :: f in Retained(buffer, hasAlarm, now, windowInput) ==> f.t >= now - MaxKeep(windowInput)
  {
    var s := buffer + [SceneFrame(now, hasAlarm)];
    assert Sorted(s) by {
      forall i, j | 0 <= i < j < |s| ensures s[i].t <= s[j].t {
        if j == |s| - 1 && i < |buffer| {
          assert buffer[i].t <= buffer[|buffer| - 1].t;
        }
      }
    }
    EvictKeepsSorted(s, now - MaxKeep(windowInput));
    EvictSortedAboveCutoff(s, now - MaxKeep(windowInput));
  }

  /** Evicting with a cutoff no later than the window start leaves the window unchanged. */
  lemma {:induction false} EvictionKeepsWindow(s: seq<SceneFrame>, cutoff: real, lo: real)
    requires cutoff <= lo
    ensures WindowFrames(Evict(s, cutoff), lo) == WindowFrames(s, lo)
    decreases |s|
  {
    if s != [] && s[0].t < cutoff {
      EvictionKeepsWindow(s[1..], cutoff, lo);
    }
  }

  /** The window is the same whether it is taken before or after eviction. */
  lemma WindowSameBeforeAndAfterEviction(buffer: seq<SceneFrame>, hasAlarm: bool, now: real, windowInput: NumInput)
    ensures Window(Retained(buffer, hasAlarm, now, windowInput), now, windowInput)
            == WindowFrames(buffer + [SceneFrame(now, hasAlarm)], now - WindowSize(windowInput))
  {
    var pushed := buffer + [SceneFrame(now, hasAlarm)];
    var cutoff, lo := now - MaxKeep(windowInput), now - WindowSize(windowInput);
    WindowWithinRetention(windowInput);
    EvictionKeepsWindow(pushed, cutoff, lo);
    calc {
      Window(Retained(buffer, hasAlarm, now, windowInput), now, windowInput);
      WindowFrames(Evict(pushed, cutoff), lo);
      WindowFrames(pushed, lo);
    }
  }

  /**
   * After a push the window holds the new frame, so it is never empty and the
   * `shouldShow = true` default is never taken.
   */
  lemma WindowHoldsNewFrame(buffer: seq<SceneFrame>, hasAlarm: bool, now: real, windowInput: NumInput)
    ensures SceneFrame(now, hasAlarm) in Window(Retained(buffer, hasAlarm, now, windowInput), now, windowInput)
    ensures Window(Retained(buffer, hasAlarm, now, windowInput), now, windowInput) != []
  {
    var r := Retained(buffer, hasAlarm, now, windowInput);
    PushedFrameIsLast(buffer, hasAlarm, now, windowInput);
    WindowFramesMembers(r, now - WindowSize(windowInput));
    assert SceneFrame(now, hasAlarm) in r;
  }

  /** Every frame of the window is a retained frame. */
  lemma WindowWithinRetained(retained: seq<SceneFrame>, now: real, windowInput: NumInput)
    ensures forall f :: f in Window(retained, now, windowInput) ==> f in retained && f.t >= now - WindowSize(windowInput)
  {
    WindowFramesMembers(retained, now - WindowSize(windowInput));
  }

  /** The in-place eviction `while (buffer.length && buffer[0].t < cutoff) buffer.shift()`. */
  method EvictLoop(s: seq<SceneFrame>, cutoff: real) returns (buf: seq<SceneFrame>)
    ensures buf == Evict(s, cutoff)
  {
    buf := s;
    while |buf| > 0 && buf[0].t < cutoff
      invariant Evict(buf, cutoff) == Evict(s, cutoff)
      decreases |buf|
    {
      buf := buf[1..];
    }
  }

  /**
   * The buffering and decision steps of one successful poll: push the scene
   * outcome, evict in place, and apply the rule to the trailing window.
   */
  method Decide(buffer: seq<SceneFrame>, people: seq<MappedPerson>, now: real, detectionMethod: Method,
                windowInput: NumInput, thresholdInput: NumInput)
    returns (retained: seq<SceneFrame>, shouldShow: bool)
    ensures retained == Retained(buffer, SceneAlarm(people), now, windowInput)
    ensures shouldShow == ShouldShow(Window(retained, now, windowInput), detectionMethod, thresholdInput)
  {
    var hasAlarmFrame := SceneAlarm(people);
    retained := EvictLoop(buffer + [SceneFrame(now, hasAlarmFrame)], now - MaxKeep(windowInput));
    var windowFrames := WindowFrames(retained, now - WindowSize(windowInput));
    shouldShow := ShouldShow(windowFrames, detectionMethod, thresholdInput);
  }

  /**
   * The live poll loop's state: the scene buffer, the running flag, the
   * published results and the last error shown.
   */
  class LiveDetector {
    var buffer: seq<SceneFrame>
    var iterating: bool
    var testResults: seq<MappedPerson>
    var errorDetails: Option<string>

    constructor ()
      ensures buffer == [] && !iterating && testResults == [] && errorDetails == None
    {
      buffer := [];
      iterating := false;
      testResults := [];
      errorDetails := None;
    }

    /**
     * One poll (`getSnapshot`) at clock reading `now` with the mapped detection
     * result, or the error the detection call raised. Returns whether the next
     * poll is scheduled.
     */
    method GetSnapshot(now: real, detection: Result<seq<MappedPerson>, string>,
                       detectionMethod: Method, windowInput: NumInput, thresholdInput: NumInput)
      returns (rescheduled: bool)
      modifies this
      ensures iterating == old(iterating)
      ensures detection.Failure? ==>
                && buffer == old(buffer)
                && testResults == old(testResults)
                && errorDetails == Some(detection.error)
                && !rescheduled
      ensures detection.Success? ==>
                && buffer == Retained(old(buffer), SceneAlarm(detection.value), now, windowInput)
                && testResults == (if iterating && ShouldShow(Window(buffer, now, windowInput), detectionMethod, thresholdInput)
                                   then detection.value else [])
                && errorDetails == old(errorDetails)
                && rescheduled == iterating
    {
      if detection.Failure? {
        errorDetails := Some(detection.error);
        return false;
      }
      var people := detection.value;
      var buf, shouldShow := Decide(buffer, people, now, detectionMethod, windowInput, thresholdInput);
      buffer := buf;
      testResults := if shouldShow then people else [];
      if iterating {
        rescheduled := true;
      } else {
        testResults := [];
        rescheduled := false;
      }
    }

    /**
     * `toggleRekognition`: flips the running flag. Switching on asks for an
     * immediate poll; switching off clears the published results. The buffer
     * is kept.
     */
    method ToggleRekognition() returns (startPoll: bool)
      modifies this
      ensures iterating == !old(iterating)
      ensures startPoll == iterating
      ensures testResults == (if iterating then old(testResults) else [])
      ensures buffer == old(buffer) && errorDetails == old(errorDetails)
    {
      iterating := !iterating;
      if iterating {
        startPoll := true;
      } else {
        testResults := [];
        startPoll := false;
      }
    }
  }
}
