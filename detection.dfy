/**
 * The detection predicate of the frame loop: the detector returns one
 * result per image, each with an optional list of boxes; a phone is present
 * when some box of some result has the phone class of the COCO label set.
 * The confidence threshold is applied by the detector itself, so a box here
 * is already a confident one and is represented by its class id alone.
 */
module Detection {
  import opened Wrappers

  /** Class id of "cell phone" in the detector's label set. */
  const PhoneClass: int := 67

  /** One detector result: `boxes` is None when the detector attached no box list. */
  datatype DetectorResult = DetectorResult(boxes: Option<seq<int>>)

  /** Some box of `r` carries the phone class. */
  predicate HasPhoneBox(r: DetectorResult)
  {
    r.boxes.Some? && exists j :: 0 <= j < |r.boxes.value| && r.boxes.value[j] == PhoneClass
  }

  /** Specification of the detection signal: some result has a phone box. */
  predicate ContainsPhone(results: seq<DetectorResult>)
  {
    exists i :: 0 <= i < |results| && HasPhoneBox(results[i])
  }

  /**
   * Scan the results in order, stopping at the first phone box, as the
   * nested loops with early `break` of the frame loop do.
   */
  method PhoneDetected(results: seq<DetectorResult>) returns (found: bool)
    ensures found <==> ContainsPhone(results)
  {
    found := false;
    var i := 0;
    while i < |results|
      invariant 0 <= i <= |results|
      invariant !found
      invariant forall k :: 0 <= k < i ==> !HasPhoneBox(results[k])
    {
      var r := results[i];
      if r.boxes.Some? {
        var boxes := r.boxes.value;
        var j := 0;
        while j < |boxes|
          invariant 0 <= j <= |boxes|
          invariant forall m :: 0 <= m < j ==> boxes[m] != PhoneClass
        {
          if boxes[j] == PhoneClass {
            found := true;
            break;
          }
          j := j + 1;
        }
        if found {
          return;
        }
      }
      i := i + 1;
    }
  }

  /** Number of phone boxes over all results, an independent counting view of the signal. */
  function PhoneBoxes(results: seq<DetectorResult>): nat
  {
    if results == [] then 0
    else PhoneBoxes(results[..|results| - 1]) + BoxCount(results[|results| - 1])
  }

  /** Number of phone boxes in one result; a result without boxes has none. */
  function BoxCount(r: DetectorResult): nat
  {
    match r.boxes
    case None => 0
    case Some(bs) => Occurrences(bs)
  }

  function Occurrences(bs: seq<int>): nat
  {
    if bs == [] then 0
    else Occurrences(bs[..|bs| - 1]) + (if bs[|bs| - 1] == PhoneClass then 1 else 0)
  }

  lemma {:induction false} OccurrencesPositive(bs: seq<int>)
    ensures Occurrences(bs) > 0 <==> exists j :: 0 <= j < |bs| && bs[j] == PhoneClass
  {
    if bs != [] {
      var init := bs[..|bs| - 1];
      OccurrencesPositive(init);
      if exists j :: 0 <= j < |init| && init[j] == PhoneClass {
        var j :| 0 <= j < |init| && init[j] == PhoneClass;
        assert bs[j] == PhoneClass;
      }
      if exists j :: 0 <= j < |bs| && bs[j] == PhoneClass {
        var j :| 0 <= j < |bs| && bs[j] == PhoneClass;
        if j < |init| {
          assert init[j] == PhoneClass;
        }
      }
    }
  }

  /** The signal is true exactly when at least one phone box was reported. */
  lemma {:induction false} ContainsPhoneIffBoxes(results: seq<DetectorResult>)
    ensures ContainsPhone(results) <==> PhoneBoxes(results) > 0
  {
    if results != [] {
      var init := results[..|results| - 1];
      var last := results[|results| - 1];
      ContainsPhoneIffBoxes(init);
      if last.boxes.Some? {
        OccurrencesPositive(last.boxes.value);
      }
      assert BoxCount(last) > 0 <==> HasPhoneBox(last);
      if ContainsPhone(init) {
        var i :| 0 <= i < |init| && HasPhoneBox(init[i]);
        assert results[i] == init[i];
      }
      if ContainsPhone(results) {
        var i :| 0 <= i < |results| && HasPhoneBox(results[i]);
        if i < |init| {
          assert init[i] == results[i];
        }
      }
    }
  }

  /** A result whose box list is None contributes nothing, wherever it appears. */
  lemma NoBoxesContributeNothing(before: seq<DetectorResult>, after: seq<DetectorResult>)
    ensures ContainsPhone(before + [DetectorResult(None)] + after) <==> ContainsPhone(before + after)
  {
    var withNone := before + [DetectorResult(None)] + after;
    var without := before + after;
    if ContainsPhone(withNone) {
      var i :| 0 <= i < |withNone| && HasPhoneBox(withNone[i]);
      if i < |before| {
        assert without[i] == withNone[i];
      } else {
        assert i > |before|;
        assert without[i - 1] == withNone[i];
      }
    }
    if ContainsPhone(without) {
      var i :| 0 <= i < |without| && HasPhoneBox(without[i]);
      if i < |before| {
        assert withNone[i] == without[i];
      } else {
        assert withNone[i + 1] == without[i];
      }
    }
  }

  /** The signal of a concatenation is the disjunction of the signals of its parts. */
  lemma ContainsPhoneAppend(a: seq<DetectorResult>, b: seq<DetectorResult>)
    ensures ContainsPhone(a + b) <==> ContainsPhone(a) || ContainsPhone(b)
  {
    if ContainsPhone(a + b) {
      var i :| 0 <= i < |a + b| && HasPhoneBox((a + b)[i]);
      if i >= |a| {
        assert b[i - |a|] == (a + b)[i];
      }
    }
    if ContainsPhone(a) {
      var i :| 0 <= i < |a| && HasPhoneBox(a[i]);
      assert (a + b)[i] == a[i];
    }
    if ContainsPhone(b) {
      var i :| 0 <= i < |b| && HasPhoneBox(b[i]);
      assert (a + b)[|a| + i] == b[i];
    }
  }
}
