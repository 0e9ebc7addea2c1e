/**
 * The filter as script.js runs it: three pieces of state that
 * `getPredictPlate` updates in place, the reset done when an upload starts,
 * and the per-frame loop that feeds detections through the filter.
 */
module PlatePredictor {
  import opened PlateTable
  import opened PlateFilter

  class Predictor {
    /** The window of the last plates read, oldest first. */
    var predictQueue: seq<string>
    /** The frequency table, in insertion order. */
    var predictMap: Table
    /** The streak of calls in which nothing was read. */
    var tmp: nat

    /** The state as a value, to state what a call does. */
    function State(): Filter
      reads this
    {
      Filter(predictQueue, predictMap, tmp)
    }

    ghost predicate Valid()
      reads this
    {
      Consistent(State())
    }

    /** The state when the script loads. */
    constructor ()
      ensures Valid() && State() == Fresh
    {
      predictQueue := [];
      predictMap := Table([], map[]);
      tmp := 0;
    }

    /** Done when an upload starts: empties the window and the table and zeroes the streak. */
    method Reset()
      modifies this
      ensures Valid() && State() == Fresh
    {
      predictQueue := [];
      predictMap := predictMap.Clear();
      tmp := 0;
    }

    /**
     * The scan over the table's entries in insertion order: it keeps the first
     * entry whose count is strictly greater than the best seen so far.
     */
    method ScanMode() returns (mode: Maybe<string>)
      requires predictMap.WellFormed()
      ensures mode == Mode(predictMap)
    {
      var keys, counts := predictMap.keys, predictMap.counts;
      mode := Null;
      // The source starts `maxCount` at -Infinity, so the first entry always wins;
      // `mode` being still `null` plays that part here.
      var maxCount := 0;
      ghost var best := -1;
      var i := 0;
      assert forall j :: 0 <= j < |keys| ==> keys[j] in counts by {
        assert forall j :: 0 <= j < |keys| ==> keys[j] in keys;
      }
      while i < |keys|
        invariant 0 <= i <= |keys|
        invariant forall j :: 0 <= j < |keys[..i]| ==> keys[..i][j] in counts
        invariant best == ModeIndex(keys[..i], counts)
        invariant mode == if best == -1 then Null else Value(keys[best])
        invariant best != -1 ==> maxCount == counts[keys[best]]
      {
        ModeIndexStep(keys, counts, i);
        var value := keys[i];
        var count := counts[value];
        if mode.Null? || count > maxCount {
          maxCount := count;
          mode := Value(value);
          best := i;
        }
        i := i + 1;
      }
      assert keys[..i] == keys;
    }

    /** `predictQueue.push(p)` and `predictMap.set(p, (predictMap.get(p) || 0) + 1)`. */
    method PushPlate(p: string)
      modifies this
      ensures (predictQueue, predictMap) == Push(old(predictQueue), old(predictMap), p)
      ensures tmp == old(tmp)
    {
      predictQueue := predictQueue + [p];
      predictMap := predictMap.Set(p, predictMap.GetOrZero(p) + 1);
    }

    /**
     * `predictQueue.shift()`, then the shifted plate's count is decremented and
     * its key deleted once the count is 0.
     */
    method ShiftOldest()
      requires predictQueue != []
      modifies this
      ensures (predictQueue, predictMap) == Shift(old(predictQueue), old(predictMap))
      ensures tmp == old(tmp)
    {
      var oldest := predictQueue[0];
      predictQueue := predictQueue[1..];
      predictMap := predictMap.Set(oldest, predictMap.GetOrZero(oldest) - 1);
      if predictMap.counts[oldest] == 0 {
        predictMap := predictMap.Delete(oldest);
      }
    }

    /**
     * A plate was read: reset the streak, push and count the plate, and past
     * `Capacity` shift the oldest plate out.
     */
    method RecordPlate(p: string)
      requires Valid() && p != ""
      modifies this
      ensures Valid()
      ensures State() == Record(old(State()), p)
    {
      ghost var before := State();
      RecordKeepsConsistent(before, p);
      PushKeepsTallies(before.queue, before.table, p);
      tmp := 0;
      PushPlate(p);
      if |predictQueue| > Capacity {
        ShiftOldest();
      }
    }

    /** One call of `getPredictPlate`: updates the state and returns what is displayed. */
    method GetPredictPlate(newPlate: Maybe<string>) returns (txt: Maybe<string>)
      requires Valid()
      modifies this
      ensures Valid()
      ensures State() == Step(old(State()), newPlate).next
      ensures txt == Step(old(State()), newPlate).shown
    {
      ghost var before := State();
      StepKeepsConsistent(before, newPlate);
      if IsMiss(newPlate) {
        tmp := tmp + 1;
        assert Step(before, newPlate) == Conclude(State());
      }
      if !IsMiss(newPlate) {
        var p := newPlate.v;
        RecordPlate(p);
        PlateStep(before, p);
        EarlyReturnUnreachable(before, p);
        if predictMap.Size() == 0 {
          return Null;
        }
        assert Step(before, newPlate) == Conclude(State());
      }
      var mode := ScanMode();
      if tmp == MissLimit {
        predictQueue := [];
        predictMap := predictMap.Clear();
        return Value(Sentinel);
      }
      return mode;
    }
  }

  /** One entry of a frame's `detections`: its `status` and `plate_text`. */
  datatype Detection = Detection(status: string, plateText: Maybe<string>)

  /** What a detection feeds to the filter: its plate text when it succeeded, `null` otherwise. */
  function Observation(d: Detection): Maybe<string> {
    if d.status == "success" then d.plateText else Null
  }

  /** What a frame's detections feed to the filter, in order. */
  function Observations(detections: seq<Detection>): (inputs: seq<Maybe<string>>)
    ensures |inputs| == |detections|
    decreases |detections|
  {
    if detections == [] then []
    else Observations(detections[..|detections| - 1]) + [Observation(detections[|detections| - 1])]
  }

  lemma ObservationsSnoc(detections: seq<Detection>, i: nat)
    requires i < |detections|
    ensures Observations(detections[..i + 1]) == Observations(detections[..i]) + [Observation(detections[i])]
  {
    assert detections[..i + 1][..i] == detections[..i];
  }

  /** The `i`-th input is what the `i`-th detection feeds. */
  lemma {:induction false} ObservationsAt(detections: seq<Detection>, i: nat)
    requires i < |detections|
    ensures Observations(detections)[i] == Observation(detections[i])
    decreases |detections|
  {
    var init := detections[..|detections| - 1];
    if i < |init| {
      ObservationsAt(init, i);
    }
  }

  /** The returned values that are shown: every `null` is dropped, the rest keep their order. */
  function Displayed(shown: seq<Maybe<string>>): (plates: seq<string>)
    ensures |plates| + multiset(shown)[Null] == |shown|
    ensures forall x :: x in plates <==> Value(x) in shown
    ensures forall x :: multiset(plates)[x] == multiset(shown)[Value(x)]
    decreases |shown|
  {
    if shown == [] then []
    else
      var init := Displayed(shown[..|shown| - 1]);
      assert shown == shown[..|shown| - 1] + [shown[|shown| - 1]];
      match shown[|shown| - 1]
      case Null => init
      case Value(s) => init + [s]
  }

  lemma DisplayedSnoc(shown: seq<Maybe<string>>, x: Maybe<string>)
    ensures Displayed(shown + [x]) == if x.Null? then Displayed(shown) else Displayed(shown) + [x.v]
  {
    assert (shown + [x])[..|shown|] == shown;
  }

  /**
   * The loop over a frame's detections: each is fed to the filter in order,
   * and the plates it returns, without the `null`s, are what the frame shows.
   */
  method HandleDetections(predictor: Predictor, detections: seq<Detection>) returns (plates: seq<string>)
    requires predictor.Valid()
    modifies predictor
    ensures predictor.Valid()
    ensures var t := Run(old(predictor.State()), Observations(detections));
            predictor.State() == t.next && plates == Displayed(t.shown)
  {
    ghost var start := predictor.State();
    ghost var inputs: seq<Maybe<string>> := [];
    ghost var shown: seq<Maybe<string>> := [];
    plates := [];
    var i := 0;
    while i < |detections|
      invariant 0 <= i <= |detections|
      invariant predictor.Valid()
      invariant inputs == Observations(detections[..i])
      invariant Run(start, inputs) == Trace(predictor.State(), shown)
      invariant plates == Displayed(shown)
    {
      var det := detections[i];
      ghost var before := predictor.State();
      var txt := predictor.GetPredictPlate(Observation(det));
      RunSnoc(start, inputs, Observation(det), before, shown);
      ObservationsSnoc(detections, i);
      DisplayedSnoc(shown, txt);
      if txt != Null {
        plates := plates + [txt.v];
      }
      inputs := inputs + [Observation(det)];
      shown := shown + [txt];
      i := i + 1;
    }
    assert detections[..i] == detections;
  }
}
