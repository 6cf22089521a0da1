/** The simulator, the serial decoder and the stable tracker together: what the tracker's verdict
    says about the samples that were put on the wire. */
module ScalePipeline {
  import opened Text
  import opened ScaleStream
  import opened ScaleSim
  import opened StableTracker

  /** The readings decoded from `chunks`, each with the time it was made. */
  function Events(readings: seq<Reading>, times: seq<int>): (events: seq<Event>)
    requires |readings| == |times|
    ensures |events| == |times|
    ensures forall i :: 0 <= i < |times| ==> events[i] == Event(readings[i], times[i])
  {
    seq(|times|, i requires 0 <= i < |times| => Event(readings[i], times[i]))
  }

  /** `chunks` is the text written for `samples`, cut so that each piece fits the decoder. */
  predicate Written(samples: seq<Sample>, unit: string, chunks: seq<string>) {
    && SharedUnit(unit)
    && (forall x :: x in samples ==> InWeightRange(x))
    && Concat(chunks) == Stream(samples, unit) && Fits("", chunks)
  }

  function Decoded(m: Memory, du: string, chunks: seq<string>): seq<Reading> {
    Readings(m, du, RunFrames("", chunks))
  }

  lemma DecodedAt(m: Memory, du: string, samples: seq<Sample>, unit: string, chunks: seq<string>)
    requires Written(samples, unit, chunks)
    ensures |Decoded(m, du, chunks)| == |samples|
    ensures forall i :: 0 <= i < |samples| ==>
      var r := Decoded(m, du, chunks)[i];
      r.weight == Some(Weight(samples[i].thousandths)) && (Steady(r) <==> samples[i].stable)
  {
    SimulatorRoundTrip(m, du, samples, unit, chunks);
    forall i | 0 <= i < |samples|
      ensures var r := Decoded(m, du, chunks)[i];
        r.weight == Some(Weight(samples[i].thousandths)) && (Steady(r) <==> samples[i].stable)
    {
      assert Decoded(m, du, chunks)[i] == Expected(samples[i], unit);
    }
  }

  /** No Ready without cause: behind it stand stable samples within tolerance of the one that
      began the hold, for as long as the hold asks. */
  lemma ReadyComesFromSamples(cfg: Config, m: Memory, du: string, samples: seq<Sample>, unit: string,
                              chunks: seq<string>, times: seq<int>, n: nat) returns (k: nat)
    requires Written(samples, unit, chunks) && n < |samples| == |times| && 0.0 <= cfg.tolerance
    requires |Decoded(m, du, chunks)| == |times|
    requires VerdictAt(cfg, Events(Decoded(m, du, chunks), times), n) == Ready
    ensures k < n && times[n] - times[k] >= cfg.hold
    ensures forall i :: k <= i <= n ==>
      samples[i].stable && Distance(Weight(samples[k].thousandths), Weight(samples[i].thousandths)) <= cfg.tolerance
  {
    DecodedAt(m, du, samples, unit, chunks);
    var events := Events(Decoded(m, du, chunks), times);
    k := ReadyIsSound(cfg, events, n);
    forall i | k <= i <= n
      ensures samples[i].stable
      ensures Distance(Weight(samples[k].thousandths), Weight(samples[i].thousandths)) <= cfg.tolerance
    {
      assert Steady(events[i].reading) && Steady(events[k].reading);
      assert WeightAt(events, i) == Weight(samples[i].thousandths);
      assert WeightAt(events, k) == Weight(samples[k].thousandths);
    }
  }

  /** The clock does not go back, through the history and on. */
  predicate Follows(before: seq<Event>, times: seq<int>) {
    && Ticks(before)
    && (forall i, j :: 0 <= i <= j < |times| ==> times[i] <= times[j])
    && (before != [] && times != [] ==> before[|before| - 1].at <= times[0])
  }

  lemma EqualReadings(readings: seq<Reading>, times: seq<int>, weight: real)
    requires |readings| == |times|
    requires forall i :: 0 <= i < |readings| ==> Steady(readings[i]) && readings[i].weight == Some(weight)
    requires forall i, j :: 0 <= i <= j < |times| ==> times[i] <= times[j]
    ensures SameWeight(Events(readings, times), weight)
  {
  }

  lemma EqualReadingsBecomeReady(cfg: Config, before: seq<Event>, readings: seq<Reading>, times: seq<int>, weight: real)
    requires 2 <= |readings| == |times| && 0.0 <= cfg.tolerance
    requires forall i :: 0 <= i < |readings| ==> Steady(readings[i]) && readings[i].weight == Some(weight)
    requires Follows(before, times) && times[|times| - 1] - times[0] >= cfg.hold
    ensures VerdictAt(cfg, before + Events(readings, times), |before| + |times| - 1) == Ready
  {
    var window := Events(readings, times);
    TicksOn(before, window);
    EqualReadings(readings, times, weight);
    HeldWeightBecomesReady(cfg, before, window, weight);
  }

  lemma TicksOn(before: seq<Event>, window: seq<Event>)
    requires Ticks(before) && Ticks(window)
    requires before != [] && window != [] ==> before[|before| - 1].at <= window[0].at
    ensures Ticks(before + window)
  {
    var all := before + window;
    forall i, j | 0 <= i <= j < |all|
      ensures all[i].at <= all[j].at
    {
      if i < |before| <= j {
        assert all[i].at <= before[|before| - 1].at && window[0].at <= window[j - |before|].at;
      }
    }
  }

  /** And no held weight without Ready: a stable weight repeated over the hold ends in Ready,
      whatever the decoder remembers and whatever the tracker has seen before. */
  lemma HeldSamplesBecomeReady(cfg: Config, before: seq<Event>, m: Memory, du: string, samples: seq<Sample>,
                               unit: string, chunks: seq<string>, times: seq<int>)
    requires Written(samples, unit, chunks) && 2 <= |samples| == |times| && 0.0 <= cfg.tolerance
    requires forall i :: 0 <= i < |samples| ==>
      samples[i].stable && samples[i].thousandths == samples[0].thousandths
    requires Follows(before, times) && times[|times| - 1] - times[0] >= cfg.hold
    ensures |Decoded(m, du, chunks)| == |times|
    ensures VerdictAt(cfg, before + Events(Decoded(m, du, chunks), times), |before| + |times| - 1) == Ready
  {
    DecodedAt(m, du, samples, unit, chunks);
    var readings, weight := Decoded(m, du, chunks), Weight(samples[0].thousandths);
    EqualReadingsBecomeReady(cfg, before, readings, times, weight);
  }

  /** The simulator, the decoder and the tracker, sample by sample: an unstable one is answered Moving
      and a stable one Holding or Ready, each with its weight and unit; none is an error. */
  lemma EverySampleIsAnswered(cfg: Config, m: Memory, du: string, samples: seq<Sample>, unit: string,
                              chunks: seq<string>, times: seq<int>, n: nat)
    requires Written(samples, unit, chunks) && n < |samples| == |times|
    ensures |Decoded(m, du, chunks)| == |times|
    ensures var snapshot := SnapshotAt(cfg, Events(Decoded(m, du, chunks), times), n);
      && snapshot.weight == Some(Weight(samples[n].thousandths)) && snapshot.unit == unit
      && (samples[n].stable ==> snapshot.state == Holding || snapshot.state == Ready)
      && (!samples[n].stable ==> snapshot.state == Moving)
  {
    SimulatorRoundTrip(m, du, samples, unit, chunks);
    var readings := Decoded(m, du, chunks);
    assert readings[n] == Expected(samples[n], unit);
    UnitTrims(unit);
    AnswerOverHistory(cfg, Events(readings, times), n);
    SharedUnitIsLower(unit);
  }

  lemma SharedUnitIsLower(unit: string)
    requires SharedUnit(unit)
    ensures Lower(unit) == unit && unit != ""
  {
  }
}
