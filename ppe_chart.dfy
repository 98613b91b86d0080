/**
 * The fixed-bucket aggregator of src/components/PPEChart.js: for a scrub
 * position it selects the analysed frames of the bucket
 * `[floor(t / ws) * ws, floor(t / ws) * ws + ws)`, counts per person how often
 * they appear and how often each protection is seen, decides presence by the
 * "any" or "percentage" rule, and rebuilds a synthetic body-part list that
 * `hasPPE` reads back.
 */
module PpeChart {
  import opened Wrappers
  import opened Policy
  import opened Detection

  /** The four protection types, in the order the source lists them. */
  datatype PpeType = Mask | Helmet | LeftGlove | RightGlove

  const PpeTypes: seq<PpeType> := [Mask, Helmet, LeftGlove, RightGlove]

  /** The body part a protection type is looked up on. */
  function PartName(t: PpeType): string
  {
    match t
    case Mask => "FACE"
    case Helmet => "HEAD"
    case LeftGlove => "LEFT_HAND"
    case RightGlove => "RIGHT_HAND"
  }

  /** The equipment type tags accepted as evidence of a protection type. */
  predicate AcceptedTag(t: PpeType, tag: string)
  {
    match t
    case Mask => tag == "MASK" || tag == "FACE_COVER"
    case Helmet => tag == "HELMET" || tag == "HEAD_COVER"
    case LeftGlove | RightGlove => tag == "GLOVE" || tag == "HAND_COVER"
  }

  /** `parts[i]` is the first body part with this name. */
  ghost predicate IsFirstNamed(parts: seq<BodyPart>, i: int, name: string)
  {
    0 <= i < |parts| && parts[i].name == name && forall j :: 0 <= j < i ==> parts[j].name != name
  }

  /** `BodyParts.find((bp) => bp.Name === name)`. */
  function FindPart(parts: seq<BodyPart>, name: string): Option<BodyPart>
    decreases |parts|
  {
    if parts == [] then None
    else if parts[0].name == name then Some(parts[0])
    else FindPart(parts[1..], name)
  }

  /** `find` yields nothing exactly when no part has the name, and otherwise the first part that has it. */
  lemma {:induction false} FindPartFirst(parts: seq<BodyPart>, name: string)
    ensures FindPart(parts, name).None? <==> forall i :: 0 <= i < |parts| ==> parts[i].name != name
    ensures FindPart(parts, name).Some? ==>
              exists i :: IsFirstNamed(parts, i, name) && parts[i] == FindPart(parts, name).value
    decreases |parts|
  {
    if parts != [] && parts[0].name != name {
      FindPartFirst(parts[1..], name);
      var r := FindPart(parts[1..], name);
      if r.Some? {
        var i :| IsFirstNamed(parts[1..], i, name) && parts[1..][i] == r.value;
        assert IsFirstNamed(parts, i + 1, name);
      } else {
        forall i | 0 <= i < |parts| ensures parts[i].name != name {
          if i > 0 {
            assert parts[i] == parts[1..][i - 1];
          }
        }
      }
    } else if parts != [] {
      assert IsFirstNamed(parts, 0, name);
    }
  }

  /** `EquipmentDetections.some((eq) => <accepted tag>)`. */
  function SomeAccepted(eqs: seq<Equipment>, t: PpeType): (r: bool)
    ensures r <==> exists i :: 0 <= i < |eqs| && AcceptedTag(t, eqs[i].typ)
    decreases |eqs|
  {
    eqs != [] && (AcceptedTag(t, eqs[0].typ) || SomeAccepted(eqs[1..], t))
  }

  /** The part for `t` exists, carries an equipment list, and the list has an accepted tag. */
  function PartsHavePPE(parts: seq<BodyPart>, t: PpeType): bool
  {
    var part := FindPart(parts, PartName(t));
    part.Some? && part.value.equipment.Some? && SomeAccepted(part.value.equipment.value, t)
  }

  /** `hasPPEInFrame(person, t)`. */
  function HasPPEInFrame(person: Person, t: PpeType): bool
  {
    person.bodyParts.Some? && PartsHavePPE(person.bodyParts.value, t)
  }

  /**
   * `hasPPEInFrame` holds exactly when the person has body parts, the first
   * part named for `t` exists, its equipment is an array, and some entry of it
   * has a tag accepted for `t`; it is false in every other case.
   */
  lemma HasPPEInFrameExactly(person: Person, t: PpeType)
    ensures HasPPEInFrame(person, t) <==>
              person.bodyParts.Some? &&
              exists i :: IsFirstNamed(person.bodyParts.value, i, PartName(t))
                          && person.bodyParts.value[i].equipment.Some?
                          && exists k :: 0 <= k < |person.bodyParts.value[i].equipment.value|
                                         && AcceptedTag(t, person.bodyParts.value[i].equipment.value[k].typ)
  {
    if person.bodyParts.Some? {
      var parts := person.bodyParts.value;
      var part := FindPart(parts, PartName(t));
      FindPartFirst(parts, PartName(t));
      if part.Some? {
        var i :| IsFirstNamed(parts, i, PartName(t)) && parts[i] == part.value;
        forall j | IsFirstNamed(parts, j, PartName(t)) ensures j == i { }
      }
    }
  }

  /** A person of the aggregated bucket: its id and its synthetic body parts. */
  datatype AggregatedPerson = AggregatedPerson(id: int, bodyParts: seq<BodyPart>)

  /** `hasPPE(person, t)` on an aggregated person. */
  function HasPPE(person: AggregatedPerson, t: PpeType): bool
  {
    PartsHavePPE(person.bodyParts, t)
  }

  /** Per-type presence counters `{ MASK, HELMET, LEFT_GLOVE, RIGHT_GLOVE }` of one person. */
  datatype Counts = Counts(mask: nat, helmet: nat, leftGlove: nat, rightGlove: nat)
  {
    function Get(t: PpeType): nat
    {
      match t
      case Mask => mask
      case Helmet => helmet
      case LeftGlove => leftGlove
      case RightGlove => rightGlove
    }

    /** `counts[t] += 1`. */
    function Increment(t: PpeType): (c: Counts)
      ensures c.Get(t) == Get(t) + 1
      ensures forall u :: u != t ==> c.Get(u) == Get(u)
    {
      match t
      case Mask => this.(mask := mask + 1)
      case Helmet => this.(helmet := helmet + 1)
      case LeftGlove => this.(leftGlove := leftGlove + 1)
      case RightGlove => this.(rightGlove := rightGlove + 1)
    }
  }

  const NoCounts := Counts(0, 0, 0, 0)

  /** Position of a type in `PpeTypes`. */
  function TypeIndex(t: PpeType): (k: nat)
    ensures k < |PpeTypes| && PpeTypes[k] == t
  {
    match t
    case Mask => 0
    case Helmet => 1
    case LeftGlove => 2
    case RightGlove => 3
  }

  /** The counter of `t` after the first `k` types of `PpeTypes` were examined for `person`. */
  function CountedSoFar(counts: Counts, person: Person, k: nat, t: PpeType): nat
  {
    counts.Get(t) + (if TypeIndex(t) < k && HasPPEInFrame(person, t) then 1 else 0)
  }

  /** The inner loop `ppeTypes.forEach((t) => { if (hasPPEInFrame(person, t)) counts[t] += 1; })`. */
  method CountPresence(counts: Counts, person: Person) returns (r: Counts)
    ensures forall t :: r.Get(t) == counts.Get(t) + (if HasPPEInFrame(person, t) then 1 else 0)
  {
    r := counts;
    var k := 0;
    while k < |PpeTypes|
      invariant 0 <= k <= |PpeTypes|
      invariant r.Get(Mask) == CountedSoFar(counts, person, k, Mask)
      invariant r.Get(Helmet) == CountedSoFar(counts, person, k, Helmet)
      invariant r.Get(LeftGlove) == CountedSoFar(counts, person, k, LeftGlove)
      invariant r.Get(RightGlove) == CountedSoFar(counts, person, k, RightGlove)
    {
      var t := PpeTypes[k];
      if HasPPEInFrame(person, t) {
        r := r.Increment(t);
      }
      k := k + 1;
    }
    forall t ensures r.Get(t) == counts.Get(t) + (if HasPPEInFrame(person, t) then 1 else 0) {
      assert r.Get(t) == CountedSoFar(counts, person, 4, t);
    }
  }

  // ---------------------------------------------------------------------------
  // Specification of the aggregation

  /** Number of the bucket holding `t`: `Math.floor(t / ws)`. */
  function BucketIndex(t: real, ws: real): int
    requires ws > 0.0
  {
    (t / ws).Floor
  }

  /** Start of the bucket holding `t`: `Math.floor(t / ws) * ws`. */
  function BucketStart(t: real, ws: real): real
    requires ws > 0.0
  {
    BucketIndex(t, ws) as real * ws
  }

  /** The bucket holds the scrub position and is exactly `ws` wide. */
  lemma BucketContains(t: real, ws: real)
    requires ws > 0.0
    ensures BucketStart(t, ws) <= t < BucketStart(t, ws) + ws
  {
    var q := t / ws;
    var f := q.Floor as real;
    var g := f + 1.0;
    assert f <= q < g;
    assert q * ws == t;
    MulMonotone(f, q, ws);
    MulStrictMonotone(q, g, ws);
    assert g * ws == f * ws + ws;
    assert q * ws < g * ws;
    assert t < g * ws;
    assert t < f * ws + ws;
    assert BucketStart(t, ws) == f * ws;
  }

  lemma MulMonotone(a: real, b: real, c: real)
    requires a <= b && c > 0.0
    ensures a * c <= b * c
  {
  }

  lemma MulStrictMonotone(a: real, b: real, c: real)
    requires a < b && c > 0.0
    ensures a * c < b * c
  {
  }

  /** `analysisResults.filter((r) => lo <= r.timestamp && r.timestamp < hi)`. */
  function InBucket(frames: seq<AnalysedFrame>, lo: real, hi: real): (r: seq<AnalysedFrame>)
    ensures |r| <= |frames|
    decreases |frames|
  {
    if frames == [] then []
    else
      (if lo <= frames[0].timestamp < hi then [frames[0]] else []) + InBucket(frames[1..], lo, hi)
  }

  /** The bucket holds exactly the frames whose timestamp lies in `[lo, hi)`. */
  lemma {:induction false} InBucketMembers(frames: seq<AnalysedFrame>, lo: real, hi: real)
    ensures forall f :: f in InBucket(frames, lo, hi) <==> f in frames && lo <= f.timestamp < hi
    decreases |frames|
  {
    if frames != [] {
      InBucketMembers(frames[1..], lo, hi);
      assert frames == [frames[0]] + frames[1..];
    }
  }

  /** All person occurrences of the frames, frame by frame in order. */
  function Occurrences(frames: seq<AnalysedFrame>): seq<Person>
  {
    if frames == [] then [] else Occurrences(frames[..|frames| - 1]) + frames[|frames| - 1].result.persons
  }

  /** The ids of a run of occurrences. */
  function Ids(occ: seq<Person>): (r: seq<int>)
    ensures |r| == |occ| && forall i :: 0 <= i < |occ| ==> r[i] == occ[i].id
  {
    if occ == [] then [] else Ids(occ[..|occ| - 1]) + [occ[|occ| - 1].id]
  }

  /** How many occurrences carry `id`. */
  function Appearances(occ: seq<Person>, id: int): nat
  {
    if occ == [] then 0
    else Appearances(occ[..|occ| - 1], id) + (if occ[|occ| - 1].id == id then 1 else 0)
  }

  /** How many occurrences of `id` show protection `t`. */
  function TypeCount(occ: seq<Person>, id: int, t: PpeType): nat
  {
    if occ == [] then 0
    else TypeCount(occ[..|occ| - 1], id, t)
         + (if occ[|occ| - 1].id == id && HasPPEInFrame(occ[|occ| - 1], t) then 1 else 0)
  }

  function CountsOf(occ: seq<Person>, id: int): Counts
  {
    Counts(TypeCount(occ, id, Mask), TypeCount(occ, id, Helmet),
           TypeCount(occ, id, LeftGlove), TypeCount(occ, id, RightGlove))
  }

  /** Index of the first occurrence of `x` in `s`. */
  function FirstIndex(s: seq<int>, x: int): (k: nat)
    requires x in s
    ensures k < |s| && s[k] == x && x !in s[..k]
  {
    if s[0] == x then 0 else 1 + FirstIndex(s[1..], x)
  }

  /**
   * The keys of a JavaScript `Map` filled by `set` in the order of `s`: every
   * distinct element once.
   */
  function Dedup(s: seq<int>): (r: seq<int>)
    ensures forall x :: x in r <==> x in s
    ensures forall i, j :: 0 <= i < j < |r| ==> r[i] != r[j]
  {
    if s == [] then []
    else
      var init, x := s[..|s| - 1], s[|s| - 1];
      if x in init then Dedup(init) else Dedup(init) + [x]
  }

  /** Appending an element does not move the first index of an element already present. */
  lemma {:induction false} FirstIndexAppend(init: seq<int>, x: int, y: int)
    requires y in init
    ensures FirstIndex(init + [x], y) == FirstIndex(init, y)
    decreases |init|
  {
    if init[0] != y {
      assert (init + [x])[1..] == init[1..] + [x];
      FirstIndexAppend(init[1..], x, y);
    }
  }

  /** The first index of an element appended to a sequence without it is the last position. */
  lemma {:induction false} FirstIndexOfNew(init: seq<int>, x: int)
    requires x !in init
    ensures FirstIndex(init + [x], x) == |init|
    decreases |init|
  {
    if init != [] {
      assert (init + [x])[1..] == init[1..] + [x];
      FirstIndexOfNew(init[1..], x);
    }
  }

  /** The keys come in the order of their first appearance. */
  lemma {:induction false} DedupFirstAppearanceOrder(s: seq<int>)
    ensures forall i, j :: 0 <= i < j < |Dedup(s)| ==> FirstIndex(s, Dedup(s)[i]) < FirstIndex(s, Dedup(s)[j])
  {
    if s != [] {
      var init, x := s[..|s| - 1], s[|s| - 1];
      assert s == init + [x];
      DedupFirstAppearanceOrder(init);
      var d := Dedup(init);
      forall y | y in d ensures FirstIndex(s, y) == FirstIndex(init, y) {
        FirstIndexAppend(init, x, y);
      }
      if x !in init {
        FirstIndexOfNew(init, x);
        forall y | y in d ensures FirstIndex(init, y) < |init| { }
      }
    }
  }

  /**
   * Presence of a protection over the bucket: "any" asks for one frame with
   * it, "percentage" for `count / appearances * 100 >= threshold` (with no
   * appearance the JavaScript quotient is NaN and the comparison false).
   */
  function Presence(detectionMethod: Method, threshold: real, count: nat, appearances: nat): (r: bool)
    ensures detectionMethod == Any ==> (r <==> count > 0)
    ensures detectionMethod == Percentage ==>
              (r <==> appearances > 0 && count as real * 100.0 >= threshold * appearances as real)
  {
    match detectionMethod
    case Any => count > 0
    case Percentage =>
      if appearances > 0 then
        PercentMeetsCrossMultiplied(count, appearances, threshold);
        PercentMeets(count, appearances, threshold)
      else false
  }

  /** A body part carrying one synthetic detection at confidence 100. */
  function SyntheticPart(name: string, tag: string): BodyPart
  {
    BodyPart(name, Some([Equipment(tag, 100.0)]))
  }

  /** The synthetic body parts of the present protections, FACE, HEAD, LEFT_HAND, RIGHT_HAND in that order. */
  function SyntheticBodyParts(mask: bool, helmet: bool, leftGlove: bool, rightGlove: bool): seq<BodyPart>
  {
    (if mask then [SyntheticPart("FACE", "MASK")] else [])
    + (if helmet then [SyntheticPart("HEAD", "HELMET")] else [])
    + (if leftGlove then [SyntheticPart("LEFT_HAND", "GLOVE")] else [])
    + (if rightGlove then [SyntheticPart("RIGHT_HAND", "GLOVE")] else [])
  }

  /** The aggregated entry of one person: presence decided per type, rebuilt as body parts. */
  function AggregatePerson(id: int, appearances: nat, counts: Counts,
                           detectionMethod: Method, threshold: real): AggregatedPerson
  {
    AggregatedPerson(id, SyntheticBodyParts(
      Presence(detectionMethod, threshold, counts.Get(Mask), appearances),
      Presence(detectionMethod, threshold, counts.Get(Helmet), appearances),
      Presence(detectionMethod, threshold, counts.Get(LeftGlove), appearances),
      Presence(detectionMethod, threshold, counts.Get(RightGlove), appearances)))
  }

  /** `{ Persons }`, with `windowStart` and `windowEnd` only when the bucket is not empty. */
  datatype WindowResult = WindowResult(persons: seq<AggregatedPerson>, bounds: Option<(real, real)>)

  /** The specification of `getCurrentWindowResults`. */
  function WindowResults(frames: seq<AnalysedFrame>, currentTime: real, detectionMethod: Method,
                         windowInput: NumInput, thresholdInput: NumInput): WindowResult
  {
    var ws := WindowSize(windowInput);
    BucketResults(frames, BucketStart(currentTime, ws), ws, detectionMethod, Threshold(thresholdInput))
  }

  /** The result for the bucket `[start, start + ws)`. */
  function BucketResults(frames: seq<AnalysedFrame>, start: real, ws: real, detectionMethod: Method,
                         threshold: real): WindowResult
  {
    var bucket := InBucket(frames, start, start + ws);
    if bucket == [] then WindowResult([], None)
    else WindowResult(Aggregated(bucket, detectionMethod, threshold), Some((start, start + ws)))
  }

  /** One aggregated entry per distinct id of the bucket, in order of first appearance. */
  function Aggregated(bucket: seq<AnalysedFrame>, detectionMethod: Method, threshold: real): seq<AggregatedPerson>
  {
    var occ := Occurrences(bucket);
    var ids := Dedup(Ids(occ));
    seq(|ids|, k requires 0 <= k < |ids| =>
      AggregatePerson(ids[k], Appearances(occ, ids[k]), CountsOf(occ, ids[k]), detectionMethod, threshold))
  }

  // ---------------------------------------------------------------------------
  // Properties of the specification

  /** A person's count for any protection never exceeds their appearances. */
  lemma {:induction false} TypeCountAtMostAppearances(occ: seq<Person>, id: int, t: PpeType)
    ensures TypeCount(occ, id, t) <= Appearances(occ, id)
    decreases |occ|
  {
    if occ != [] {
      TypeCountAtMostAppearances(occ[..|occ| - 1], id, t);
    }
  }

  /** A person has appeared exactly when their id occurs. */
  lemma {:induction false} AppearancesPositiveIffSeen(occ: seq<Person>, id: int)
    ensures Appearances(occ, id) > 0 <==> id in Ids(occ)
    decreases |occ|
  {
    if occ != [] {
      var init := occ[..|occ| - 1];
      AppearancesPositiveIffSeen(init, id);
      assert Ids(occ) == Ids(init) + [occ[|occ| - 1].id];
    }
  }

  /** An id occurs among the occurrences exactly when some frame shows a person with it. */
  lemma {:induction false} IdsOfFrames(frames: seq<AnalysedFrame>, id: int)
    ensures id in Ids(Occurrences(frames)) <==>
              exists i, j :: 0 <= i < |frames| && 0 <= j < |frames[i].result.persons|
                             && frames[i].result.persons[j].id == id
    decreases |frames|
  {
    if frames != [] {
      var init, last := frames[..|frames| - 1], frames[|frames| - 1];
      IdsOfFrames(init, id);
      var a, b := Occurrences(init), last.result.persons;
      assert Occurrences(frames) == a + b;
      if id in Ids(a + b) {
        var n :| 0 <= n < |a + b| && Ids(a + b)[n] == id;
        if n >= |a| {
          assert b[n - |a|].id == id;
          assert frames[|frames| - 1] == last;
        } else {
          assert Ids(a)[n] == id;
          var i, j :| 0 <= i < |init| && 0 <= j < |init[i].result.persons| && init[i].result.persons[j].id == id;
          assert frames[i] == init[i];
        }
      }
      if exists i, j :: 0 <= i < |frames| && 0 <= j < |frames[i].result.persons| && frames[i].result.persons[j].id == id {
        var i, j :| 0 <= i < |frames| && 0 <= j < |frames[i].result.persons| && frames[i].result.persons[j].id == id;
        if i == |frames| - 1 {
          assert Ids(a + b)[|a| + j] == id;
        } else {
          assert init[i] == frames[i];
          var n :| 0 <= n < |a| && Ids(a)[n] == id;
          assert Ids(a + b)[n] == id;
        }
      }
    }
  }

  /** Tallying one more occurrence appends its id. */
  lemma IdsAppend(occ: seq<Person>, p: Person)
    ensures Ids(occ + [p]) == Ids(occ) + [p.id]
  {
    assert (occ + [p])[..|occ|] == occ;
  }

  /** Tallying one more occurrence adds its id to the key order when it is new. */
  lemma OrderAppend(occ: seq<Person>, p: Person)
    ensures Dedup(Ids(occ + [p])) == if p.id in Ids(occ) then Dedup(Ids(occ)) else Dedup(Ids(occ)) + [p.id]
  {
    IdsAppend(occ, p);
    var ids := Ids(occ) + [p.id];
    assert ids[..|ids| - 1] == Ids(occ);
  }

  /** Tallying one more occurrence adds one appearance to its id only. */
  lemma AppearancesAppend(occ: seq<Person>, p: Person, id: int)
    ensures Appearances(occ + [p], id) == Appearances(occ, id) + (if p.id == id then 1 else 0)
  {
    assert (occ + [p])[..|occ|] == occ;
  }

  /** Tallying one more occurrence adds to its id's counters the protections it shows. */
  lemma CountsAppend(occ: seq<Person>, p: Person, id: int)
    ensures forall t :: CountsOf(occ + [p], id).Get(t)
                        == CountsOf(occ, id).Get(t) + (if p.id == id && HasPPEInFrame(p, t) then 1 else 0)
  {
    assert (occ + [p])[..|occ|] == occ;
  }

  /** Counters that agree on every type are equal. */
  lemma CountsExtensional(a: Counts, b: Counts)
    requires forall t :: a.Get(t) == b.Get(t)
    ensures a == b
  {
    assert a.Get(Mask) == b.Get(Mask) && a.Get(Helmet) == b.Get(Helmet);
    assert a.Get(LeftGlove) == b.Get(LeftGlove) && a.Get(RightGlove) == b.Get(RightGlove);
  }

  /** `find` over a concatenation looks in the second part only when the first has no match. */
  lemma {:induction false} FindPartConcat(a: seq<BodyPart>, b: seq<BodyPart>, name: string)
    ensures FindPart(a + b, name) == if FindPart(a, name).Some? then FindPart(a, name) else FindPart(b, name)
    decreases |a|
  {
    if a != [] {
      assert (a + b)[1..] == a[1..] + b;
      FindPartConcat(a[1..], b, name);
    } else {
      assert a + b == b;
    }
  }

  /** The tag the aggregator writes for each type. */
  function SyntheticTag(t: PpeType): string
  {
    match t
    case Mask => "MASK"
    case Helmet => "HELMET"
    case LeftGlove | RightGlove => "GLOVE"
  }

  /** The synthetic part of `t` when it is present, nothing otherwise. */
  function PartIf(present: bool, t: PpeType): seq<BodyPart>
  {
    if present then [SyntheticPart(PartName(t), SyntheticTag(t))] else []
  }

  /** Looking up `u`'s part in `t`'s optional part finds it only when `t == u` and it is present. */
  lemma FindInPartIf(present: bool, t: PpeType, u: PpeType)
    ensures FindPart(PartIf(present, t), PartName(u))
            == if present && t == u then Some(SyntheticPart(PartName(u), SyntheticTag(u))) else None
  {
  }

  /**
   * The aggregated person answers `hasPPE` with exactly the presence decided
   * for each type: rebuilding body parts and reading them back round-trips.
   */
  lemma HasPPERoundTrip(id: int, appearances: nat, counts: Counts, detectionMethod: Method, threshold: real, u: PpeType)
    ensures HasPPE(AggregatePerson(id, appearances, counts, detectionMethod, threshold), u)
            == Presence(detectionMethod, threshold, counts.Get(u), appearances)
  {
    var m := Presence(detectionMethod, threshold, counts.Get(Mask), appearances);
    var h := Presence(detectionMethod, threshold, counts.Get(Helmet), appearances);
    var l := Presence(detectionMethod, threshold, counts.Get(LeftGlove), appearances);
    var r := Presence(detectionMethod, threshold, counts.Get(RightGlove), appearances);
    var a1, a2, a3, a4 := PartIf(m, Mask), PartIf(h, Helmet), PartIf(l, LeftGlove), PartIf(r, RightGlove);
    var parts := AggregatePerson(id, appearances, counts, detectionMethod, threshold).bodyParts;
    assert parts == ((a1 + a2) + a3) + a4;
    var n := PartName(u);
    FindPartConcat((a1 + a2) + a3, a4, n);
    FindPartConcat(a1 + a2, a3, n);
    FindPartConcat(a1, a2, n);
    FindInPartIf(m, Mask, u);
    FindInPartIf(h, Helmet, u);
    FindInPartIf(l, LeftGlove, u);
    FindInPartIf(r, RightGlove, u);
    var found := FindPart(parts, n);
    if found.Some? {
      assert found.value.equipment.value[0].typ == SyntheticTag(u);
    }
  }

  /** Rank of a body-part name in the fixed order FACE, HEAD, LEFT_HAND, RIGHT_HAND. */
  function PartRank(name: string): int
  {
    if name == "FACE" then 0 else if name == "HEAD" then 1 else if name == "LEFT_HAND" then 2 else 3
  }

  /** The synthetic parts come one per present type, in the fixed order FACE, HEAD, LEFT_HAND, RIGHT_HAND. */
  lemma SyntheticPartsOrdered(mask: bool, helmet: bool, leftGlove: bool, rightGlove: bool)
    ensures var parts := SyntheticBodyParts(mask, helmet, leftGlove, rightGlove);
            && |parts| == (if mask then 1 else 0) + (if helmet then 1 else 0)
                          + (if leftGlove then 1 else 0) + (if rightGlove then 1 else 0)
            && forall i, j :: 0 <= i < j < |parts| ==> PartRank(parts[i].name) < PartRank(parts[j].name)
  {
    var parts := SyntheticBodyParts(mask, helmet, leftGlove, rightGlove);
    var ranks := seq(|parts|, i requires 0 <= i < |parts| => PartRank(parts[i].name));
    var expected := (if mask then [0] else []) + (if helmet then [1] else [])
                    + (if leftGlove then [2] else []) + (if rightGlove then [3] else []);
    assert ranks == expected;
  }

  /** The selected bucket holds the scrub position, is `ws >= 0.5` wide, and is reported only when not empty. */
  lemma WindowBounds(frames: seq<AnalysedFrame>, currentTime: real, detectionMethod: Method,
                     windowInput: NumInput, thresholdInput: NumInput)
    ensures var r := WindowResults(frames, currentTime, detectionMethod, windowInput, thresholdInput);
            var ws := WindowSize(windowInput);
            var start := BucketStart(currentTime, ws);
            && ws >= 0.5
            && start <= currentTime < start + ws
            && (InBucket(frames, start, start + ws) == [] ==> r == WindowResult([], None))
            && (InBucket(frames, start, start + ws) != [] ==> r.bounds == Some((start, start + ws)))
  {
    BucketContains(currentTime, WindowSize(windowInput));
  }

  /** Scrub positions in the same bucket give the same result. */
  lemma BucketInvariance(frames: seq<AnalysedFrame>, t1: real, t2: real, detectionMethod: Method,
                         windowInput: NumInput, thresholdInput: NumInput)
    requires BucketIndex(t1, WindowSize(windowInput)) == BucketIndex(t2, WindowSize(windowInput))
    ensures WindowResults(frames, t1, detectionMethod, windowInput, thresholdInput)
            == WindowResults(frames, t2, detectionMethod, windowInput, thresholdInput)
  {
  }

  /** The frames of the bucket selected for a scrub position. */
  function Bucket(frames: seq<AnalysedFrame>, currentTime: real, windowInput: NumInput): seq<AnalysedFrame>
  {
    var ws := WindowSize(windowInput);
    var start := BucketStart(currentTime, ws);
    InBucket(frames, start, start + ws)
  }

  /** Some frame shows a person with this id. */
  ghost predicate SeenIn(frames: seq<AnalysedFrame>, id: int)
  {
    exists i, j :: 0 <= i < |frames| && 0 <= j < |frames[i].result.persons| && frames[i].result.persons[j].id == id
  }

  /** Some aggregated entry carries this id. */
  ghost predicate Listed(persons: seq<AggregatedPerson>, id: int)
  {
    exists k :: 0 <= k < |persons| && persons[k].id == id
  }

  /** The ids of the aggregated entries are the bucket's distinct ids, in order of first appearance. */
  lemma WindowPersonIds(frames: seq<AnalysedFrame>, currentTime: real, detectionMethod: Method,
                        windowInput: NumInput, thresholdInput: NumInput)
    ensures var r := WindowResults(frames, currentTime, detectionMethod, windowInput, thresholdInput);
            var occ := Occurrences(Bucket(frames, currentTime, windowInput));
            && (forall i, j :: 0 <= i < j < |r.persons| ==> r.persons[i].id != r.persons[j].id)
            && (forall i, j :: 0 <= i < j < |r.persons| ==>
                  FirstIndex(Ids(occ), r.persons[i].id) < FirstIndex(Ids(occ), r.persons[j].id))
            && (forall id :: Listed(r.persons, id) <==> SeenIn(Bucket(frames, currentTime, windowInput), id))
  {
    var r := WindowResults(frames, currentTime, detectionMethod, windowInput, thresholdInput);
    var bucket := Bucket(frames, currentTime, windowInput);
    var occ := Occurrences(bucket);
    var ids := Dedup(Ids(occ));
    if bucket != [] {
      assert |r.persons| == |ids| && forall k :: 0 <= k < |ids| ==> r.persons[k].id == ids[k];
      DedupFirstAppearanceOrder(Ids(occ));
      forall id ensures Listed(r.persons, id) <==> SeenIn(bucket, id) {
        IdsOfFrames(bucket, id);
        if id in ids {
          var k :| 0 <= k < |ids| && ids[k] == id;
          assert r.persons[k].id == id;
        }
      }
    } else {
      forall id ensures !SeenIn(bucket, id) { }
    }
  }

  /**
   * Each aggregated entry has appeared at least once, none of its counts
   * exceeds its appearances, and `hasPPE` on it answers the presence decided
   * from its own counts.
   */
  lemma WindowPersonPresence(frames: seq<AnalysedFrame>, currentTime: real, detectionMethod: Method,
                             windowInput: NumInput, thresholdInput: NumInput, k: int, t: PpeType)
    requires 0 <= k < |WindowResults(frames, currentTime, detectionMethod, windowInput, thresholdInput).persons|
    ensures var r := WindowResults(frames, currentTime, detectionMethod, windowInput, thresholdInput);
            var occ := Occurrences(Bucket(frames, currentTime, windowInput));
            var id := r.persons[k].id;
            && 0 < Appearances(occ, id)
            && TypeCount(occ, id, t) <= Appearances(occ, id)
            && HasPPE(r.persons[k], t)
               == Presence(detectionMethod, Threshold(thresholdInput), TypeCount(occ, id, t), Appearances(occ, id))
  {
    var occ := Occurrences(Bucket(frames, currentTime, windowInput));
    var ids := Dedup(Ids(occ));
    var id := ids[k];
    assert id in Ids(occ);
    AppearancesPositiveIffSeen(occ, id);
    TypeCountAtMostAppearances(occ, id, t);
    HasPPERoundTrip(id, Appearances(occ, id), CountsOf(occ, id), detectionMethod, Threshold(thresholdInput), t);
    assert CountsOf(occ, id).Get(t) == TypeCount(occ, id, t) by {
      match t
      case Mask =>
      case Helmet =>
      case LeftGlove =>
      case RightGlove =>
    }
  }

  // ---------------------------------------------------------------------------
  // The aggregation loop

  /** `personAppearances` after tallying the occurrences `occ`. */
  ghost function AppearanceMap(occ: seq<Person>): map<int, nat>
  {
    map id | id in Ids(occ) :: Appearances(occ, id)
  }

  /** `ppeCounts` after tallying the occurrences `occ`. */
  ghost function CountsMap(occ: seq<Person>): map<int, Counts>
  {
    map id | id in Ids(occ) :: CountsOf(occ, id)
  }

  /** The two Maps and their key order after tallying the occurrences `occ`. */
  ghost predicate Tallied(occ: seq<Person>, appearances: map<int, nat>, ppeCounts: map<int, Counts>, order: seq<int>)
  {
    && order == Dedup(Ids(occ))
    && appearances == AppearanceMap(occ)
    && ppeCounts == CountsMap(occ)
  }

  /** An id never seen has all counters at zero. */
  lemma CountsOfUnseen(occ: seq<Person>, id: int)
    requires id !in Ids(occ)
    ensures CountsOf(occ, id) == NoCounts
  {
    AppearancesPositiveIffSeen(occ, id);
    TypeCountAtMostAppearances(occ, id, Mask);
    TypeCountAtMostAppearances(occ, id, Helmet);
    TypeCountAtMostAppearances(occ, id, LeftGlove);
    TypeCountAtMostAppearances(occ, id, RightGlove);
  }

  /** One more occurrence changes the appearance Map at its own id only. */
  lemma AppearanceMapAppend(occ: seq<Person>, p: Person)
    ensures AppearanceMap(occ + [p]) == AppearanceMap(occ)[p.id := Appearances(occ + [p], p.id)]
  {
    IdsAppend(occ, p);
    var m, m' := AppearanceMap(occ), AppearanceMap(occ + [p]);
    forall id | id in m' && id != p.id ensures m'[id] == m[id] {
      AppearancesAppend(occ, p, id);
    }
  }

  /** One more occurrence changes the counter Map at its own id only. */
  lemma CountsMapAppend(occ: seq<Person>, p: Person)
    ensures CountsMap(occ + [p]) == CountsMap(occ)[p.id := CountsOf(occ + [p], p.id)]
  {
    IdsAppend(occ, p);
    var m, m' := CountsMap(occ), CountsMap(occ + [p]);
    forall id | id in m' && id != p.id ensures m'[id] == m[id] {
      CountsAppend(occ, p, id);
      CountsExtensional(CountsOf(occ + [p], id), CountsOf(occ, id));
    }
  }

  /** The counters `CountPresence` returns for an occurrence are its id's counters over the occurrences so far. */
  lemma CountsAfterPresence(occ: seq<Person>, p: Person, counts: Counts)
    requires forall t :: counts.Get(t) == CountsOf(occ, p.id).Get(t) + (if HasPPEInFrame(p, t) then 1 else 0)
    ensures counts == CountsOf(occ + [p], p.id)
  {
    CountsAppend(occ, p, p.id);
    CountsExtensional(counts, CountsOf(occ + [p], p.id));
  }

  /** Tally one person occurrence into the Maps (`personAppearances.set`, `ppeCounts.set`). */
  method TallyPerson(person: Person, appearances: map<int, nat>, ppeCounts: map<int, Counts>, order: seq<int>,
                     ghost occ: seq<Person>)
    returns (appearances': map<int, nat>, ppeCounts': map<int, Counts>, order': seq<int>)
    requires Tallied(occ, appearances, ppeCounts, order)
    ensures Tallied(occ + [person], appearances', ppeCounts', order')
  {
    var pid := person.id;
    ghost var occ' := occ + [person];
    OrderAppend(occ, person);
    order' := if pid in appearances then order else order + [pid];
    assert order' == Dedup(Ids(occ'));

    AppearancesPositiveIffSeen(occ, pid);
    AppearancesAppend(occ, person, pid);
    var seen := if pid in appearances then appearances[pid] else 0;
    assert seen == Appearances(occ, pid);
    appearances' := appearances[pid := seen + 1];
    AppearanceMapAppend(occ, person);
    assert appearances' == AppearanceMap(occ)[pid := Appearances(occ', pid)];

    var counts := if pid in ppeCounts then ppeCounts[pid] else NoCounts;
    if pid !in ppeCounts {
      CountsOfUnseen(occ, pid);
    }
    assert counts == CountsOf(occ, pid);
    counts := CountPresence(counts, person);
    CountsAfterPresence(occ, person, counts);
    ppeCounts' := ppeCounts[pid := counts];
    CountsMapAppend(occ, person);
    assert ppeCounts' == CountsMap(occ)[pid := CountsOf(occ', pid)];
  }

  /** The inner loop of the tally: every person of one frame, in order. */
  method TallyFrame(persons: seq<Person>, appearances: map<int, nat>, ppeCounts: map<int, Counts>, order: seq<int>,
                    ghost done: seq<Person>)
    returns (appearances': map<int, nat>, ppeCounts': map<int, Counts>, order': seq<int>)
    requires Tallied(done, appearances, ppeCounts, order)
    ensures Tallied(done + persons, appearances', ppeCounts', order')
  {
    appearances', ppeCounts', order' := appearances, ppeCounts, order;
    ghost var occ := done;
    var j := 0;
    while j < |persons|
      invariant 0 <= j <= |persons|
      invariant occ == done + persons[..j]
      invariant Tallied(occ, appearances', ppeCounts', order')
    {
      appearances', ppeCounts', order' := TallyPerson(persons[j], appearances', ppeCounts', order', occ);
      occ := occ + [persons[j]];
      assert persons[..j + 1] == persons[..j] + [persons[j]];
      j := j + 1;
    }
    assert persons[..j] == persons;
  }

  /** The nested `forEach` loops: tally every person of every frame of the bucket. */
  method TallyBucket(windowResults: seq<AnalysedFrame>)
    returns (appearances: map<int, nat>, ppeCounts: map<int, Counts>, order: seq<int>)
    ensures Tallied(Occurrences(windowResults), appearances, ppeCounts, order)
  {
    appearances, ppeCounts, order := map[], map[], [];
    var i := 0;
    while i < |windowResults|
      invariant 0 <= i <= |windowResults|
      invariant Tallied(Occurrences(windowResults[..i]), appearances, ppeCounts, order)
    {
      appearances, ppeCounts, order :=
        TallyFrame(windowResults[i].result.persons, appearances, ppeCounts, order, Occurrences(windowResults[..i]));
      assert windowResults[..i + 1][..i] == windowResults[..i];
      i := i + 1;
    }
    assert windowResults[..i] == windowResults;
  }

  /** The entry the aggregation builds from the tallied Maps for the k-th key is the specified one. */
  lemma AggregatedEntry(bucket: seq<AnalysedFrame>, appearances: map<int, nat>, ppeCounts: map<int, Counts>,
                        order: seq<int>, detectionMethod: Method, threshold: real, k: nat)
    requires Tallied(Occurrences(bucket), appearances, ppeCounts, order)
    requires k < |order|
    ensures order[k] in appearances
    ensures AggregatePerson(order[k], appearances[order[k]],
                            if order[k] in ppeCounts then ppeCounts[order[k]] else NoCounts,
                            detectionMethod, threshold)
            == Aggregated(bucket, detectionMethod, threshold)[k]
  {
    var occ := Occurrences(bucket);
    var pid := order[k];
    assert pid in Ids(occ);
    assert appearances[pid] == Appearances(occ, pid);
    assert ppeCounts[pid] == CountsOf(occ, pid);
  }

  /** `Array.from(personAppearances.entries()).map(...)`: one aggregated entry per key, in key order. */
  method AggregateAll(appearances: map<int, nat>, ppeCounts: map<int, Counts>, order: seq<int>,
                      detectionMethod: Method, threshold: real, ghost bucket: seq<AnalysedFrame>)
    returns (aggregated: seq<AggregatedPerson>)
    requires Tallied(Occurrences(bucket), appearances, ppeCounts, order)
    ensures aggregated == Aggregated(bucket, detectionMethod, threshold)
  {
    ghost var occ := Occurrences(bucket);
    ghost var expected := Aggregated(bucket, detectionMethod, threshold);
    aggregated := [];
    var k := 0;
    while k < |order|
      invariant 0 <= k <= |order|
      invariant aggregated == expected[..k]
    {
      var pid := order[k];
      var counts := if pid in ppeCounts then ppeCounts[pid] else NoCounts;
      var entry := AggregatePerson(pid, appearances[pid], counts, detectionMethod, threshold);
      AggregatedEntry(bucket, appearances, ppeCounts, order, detectionMethod, threshold, k);
      assert expected[..k + 1] == expected[..k] + [entry];
      aggregated := aggregated + [entry];
      k := k + 1;
    }
    assert expected[..k] == expected;
  }

  /** `getCurrentWindowResults`: select the bucket, tally it, and aggregate per person. */
  method GetCurrentWindowResults(analysisResults: seq<AnalysedFrame>, currentTime: real, detectionMethod: Method,
                                 windowInput: NumInput, thresholdInput: NumInput)
    returns (r: WindowResult)
    ensures r == WindowResults(analysisResults, currentTime, detectionMethod, windowInput, thresholdInput)
  {
    var ws := WindowSize(windowInput);
    var windowStart := BucketStart(currentTime, ws);
    var windowEnd := windowStart + ws;
    var windowResults := InBucket(analysisResults, windowStart, windowEnd);
    if |windowResults| == 0 {
      return WindowResult([], None);
    }
    var appearances, ppeCounts, order := TallyBucket(windowResults);
    var aggregated := AggregateAll(appearances, ppeCounts, order, detectionMethod, Threshold(thresholdInput),
                                   windowResults);
    r := WindowResult(aggregated, Some((windowStart, windowEnd)));
  }
}
