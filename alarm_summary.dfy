/**
 * The alarm summary of the live path: for each published person, how many
 * required body parts lack protection in the temporal window, the total of
 * those counts, how many persons have at least one, and whether the banner
 * is shown at all.
 */
module AlarmSummary {
  import opened Wrappers
  import opened Detection

  /** `REQUIRED_KEYS`: the body parts every person must have covered. */
  const RequiredKeys: seq<string> := ["FACE", "HEAD", "LEFT_HAND", "RIGHT_HAND"]

  /** `entry && entry.present === true`: the window marked this part as covered. */
  predicate PresentInWindow(compliance: map<string, ComplianceEntry>, key: string)
  {
    key in compliance && compliance[key].present == Some(true)
  }

  /** The `reduce` over the keys: one for every key not present in the window. */
  function MissingAmong(compliance: map<string, ComplianceEntry>, keys: seq<string>): (r: nat)
    ensures r <= |keys|
    ensures r == 0 <==> forall i :: 0 <= i < |keys| ==> PresentInWindow(compliance, keys[i])
    ensures r == |keys| <==> forall i :: 0 <= i < |keys| ==> !PresentInWindow(compliance, keys[i])
  {
    if keys == [] then 0
    else
      var prefix := keys[..|keys| - 1];
      var last := keys[|keys| - 1];
      assert forall i :: 0 <= i < |prefix| ==> prefix[i] == keys[i];
      MissingAmong(compliance, prefix) + (if PresentInWindow(compliance, last) then 0 else 1)
  }

  /** The keys among `keys` that the window does not mark as present. */
  ghost function MissingKeys(compliance: map<string, ComplianceEntry>, keys: seq<string>): set<string>
  {
    set k | k in keys && !PresentInWindow(compliance, k)
  }

  /** No key is listed twice. */
  ghost predicate Distinct(keys: seq<string>)
  {
    forall i, j :: 0 <= i < j < |keys| ==> keys[i] != keys[j]
  }

  /** For distinct keys the fold counts exactly the set of missing keys. */
  lemma {:induction false} MissingAmongCountsMissingKeys(compliance: map<string, ComplianceEntry>, keys: seq<string>)
    requires Distinct(keys)
    ensures MissingAmong(compliance, keys) == |MissingKeys(compliance, keys)|
  {
    if keys == [] {
      assert MissingKeys(compliance, keys) == {};
    } else {
      var prefix := keys[..|keys| - 1];
      var last := keys[|keys| - 1];
      assert keys == prefix + [last];
      MissingAmongCountsMissingKeys(compliance, prefix);
      assert last !in prefix by {
        forall i | 0 <= i < |prefix| ensures prefix[i] != last {
          assert prefix[i] == keys[i];
        }
      }
      if PresentInWindow(compliance, last) {
        assert MissingKeys(compliance, keys) == MissingKeys(compliance, prefix);
      } else {
        assert MissingKeys(compliance, keys) == MissingKeys(compliance, prefix) + {last};
        assert last !in MissingKeys(compliance, prefix);
      }
    }
  }

  /** `getWindowAdjustedMissingCount`: the window-adjusted count when `ppeCompliance` is there, else the frame-level list. */
  function MissingCount(person: MappedPerson): (r: nat)
    ensures person.ppeCompliance.Some? ==>
              && r <= |RequiredKeys|
              && (r == 0 <==> forall i :: 0 <= i < |RequiredKeys| ==> PresentInWindow(person.ppeCompliance.value, RequiredKeys[i]))
    ensures person.ppeCompliance.None? && person.missingPPE.Some? ==> r == |person.missingPPE.value|
    ensures person.ppeCompliance.None? && person.missingPPE.None? ==> r == 0
  {
    match person.ppeCompliance
    case Some(compliance) => MissingAmong(compliance, RequiredKeys)
    case None => if person.missingPPE.Some? then |person.missingPPE.value| else 0
  }

  /** With `ppeCompliance`, the count is the number of required parts the window does not mark as present. */
  lemma MissingCountIsMissingRequiredParts(person: MappedPerson)
    requires person.ppeCompliance.Some?
    ensures MissingCount(person) == |MissingKeys(person.ppeCompliance.value, RequiredKeys)|
  {
    MissingAmongCountsMissingKeys(person.ppeCompliance.value, RequiredKeys);
  }

  /** `adjustedMissingCounts`: one count per published person. */
  function AdjustedMissingCounts(testResults: seq<MappedPerson>): seq<nat>
  {
    seq(|testResults|, i requires 0 <= i < |testResults| => MissingCount(testResults[i]))
  }

  /** `reduce((a, b) => a + b, 0)`. */
  function Sum(s: seq<nat>): nat
  {
    if s == [] then 0 else Sum(s[..|s| - 1]) + s[|s| - 1]
  }

  /** `filter((c) => c > 0).length`. */
  function CountPositive(s: seq<nat>): (r: nat)
    ensures r <= |s|
  {
    if s == [] then 0 else CountPositive(s[..|s| - 1]) + (if s[|s| - 1] > 0 then 1 else 0)
  }

  /** Every positive count contributes at least one to the total. */
  lemma {:induction false} CountPositiveAtMostSum(s: seq<nat>)
    ensures CountPositive(s) <= Sum(s)
  {
    if s != [] {
      CountPositiveAtMostSum(s[..|s| - 1]);
    }
  }

  /** The total is zero exactly when no count is positive, and exactly when every count is zero. */
  lemma {:induction false} NoPositiveIffZeroSum(s: seq<nat>)
    ensures CountPositive(s) == 0 <==> Sum(s) == 0
    ensures Sum(s) == 0 <==> forall i :: 0 <= i < |s| ==> s[i] == 0
  {
    if s != [] {
      var prefix := s[..|s| - 1];
      NoPositiveIffZeroSum(prefix);
      assert forall i :: 0 <= i < |prefix| ==> prefix[i] == s[i];
    }
  }

  /** What the banner shows: `peopleWithAlarms` and `totalMissingPPE`. */
  datatype Summary = Summary(peopleWithAlarms: nat, totalMissingPPE: nat)

  /** The `AlarmSummary` component: None when it renders nothing, otherwise the two figures it shows. */
  function Render(testResults: seq<MappedPerson>): (r: Option<Summary>)
    ensures r.None? <==> forall i :: 0 <= i < |testResults| ==> MissingCount(testResults[i]) == 0
    ensures r.Some? ==>
              && 1 <= r.value.peopleWithAlarms <= |testResults|
              && r.value.peopleWithAlarms <= r.value.totalMissingPPE
  {
    var counts := AdjustedMissingCounts(testResults);
    var totalMissingPPE := Sum(counts);
    var peopleWithAlarms := CountPositive(counts);
    NoPositiveIffZeroSum(counts);
    CountPositiveAtMostSum(counts);
    assert forall i :: 0 <= i < |testResults| ==> counts[i] == MissingCount(testResults[i]);
    if peopleWithAlarms == 0 then None
    else Some(Summary(peopleWithAlarms, totalMissingPPE))
  }

  /** Nothing is rendered exactly when the total of missing items is zero. */
  lemma RenderNothingIffNoMissing(testResults: seq<MappedPerson>)
    ensures Render(testResults).None? <==> Sum(AdjustedMissingCounts(testResults)) == 0
    ensures Render(testResults).Some? ==>
              && Render(testResults).value.totalMissingPPE == Sum(AdjustedMissingCounts(testResults))
              && Render(testResults).value.peopleWithAlarms == CountPositive(AdjustedMissingCounts(testResults))
  {
    NoPositiveIffZeroSum(AdjustedMissingCounts(testResults));
  }

  /** When every published person carries `ppeCompliance`, the total is at most four per person. */
  lemma {:induction false} TotalBoundedByRequiredParts(testResults: seq<MappedPerson>)
    requires forall i :: 0 <= i < |testResults| ==> testResults[i].ppeCompliance.Some?
    ensures Sum(AdjustedMissingCounts(testResults)) <= |RequiredKeys| * |testResults|
  {
    if testResults != [] {
      var prefix := testResults[..|testResults| - 1];
      TotalBoundedByRequiredParts(prefix);
      assert AdjustedMissingCounts(testResults)[..|testResults| - 1] == AdjustedMissingCounts(prefix);
    }
  }
}
