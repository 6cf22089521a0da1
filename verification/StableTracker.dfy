/** Deciding when a weight has been held long enough (src/scale/stable.rs).
    Times are integers on one clock; weights are exact. */
module StableTracker {
  import opened Text
  import opened ScaleStream

  datatype StableState = NoWeight | Moving | Holding | Ready | Error

  datatype Config = Config(hold: nat, tolerance: real)

  datatype Snapshot = Snapshot(state: StableState, weight: Option<real>, unit: string,
                               stableSince: Option<int>, updatedAt: int)

  /** A reading with the time it carries. */
  datatype Event = Event(reading: Reading, at: int)

  /** The weight being held and when it was first seen. */
  datatype Hold = Hold(candidate: Option<real>, since: Option<int>)

  const NOTHING := Hold(None, None)

  function NormalizeUnit(unit: string): string {
    var unit := Lower(Trim(unit));
    if unit == "" then "kg" else unit
  }

  function Distance(a: real, b: real): real {
    if a >= b then a - b else b - a
  }

  predicate CandidateChanged(cfg: Config, h: Hold, weight: real) {
    h.candidate.None? || Distance(h.candidate.value, weight) > cfg.tolerance
  }

  /** Whether the clock ran from `start` to `now` for `duration`; never when it went back. */
  predicate ElapsedAtLeast(start: int, now: int, duration: nat) {
    start <= now && now - start >= duration
  }

  predicate Steady(r: Reading) {
    Trim(r.error) == "" && r.weight.Some? && r.stable == Some(true)
  }

  function NextHold(cfg: Config, h: Hold, e: Event): Hold {
    if !Steady(e.reading) then NOTHING
    else if CandidateChanged(cfg, h, e.reading.weight.value) then Hold(e.reading.weight, Some(e.at))
    else h
  }

  function Verdict(cfg: Config, h: Hold, e: Event): StableState {
    if Trim(e.reading.error) != "" then Error
    else if e.reading.weight.None? then NoWeight
    else if e.reading.stable != Some(true) then Moving
    else if CandidateChanged(cfg, h, e.reading.weight.value) then Holding
    else if ElapsedAtLeast(h.since.GetOr(e.at), e.at, cfg.hold) then Ready
    else Holding
  }

  function Observed(cfg: Config, h: Hold, e: Event): Snapshot {
    var state := Verdict(cfg, h, e);
    Snapshot(state, if state in {Error, NoWeight} then None else e.reading.weight,
             NormalizeUnit(e.reading.unit), NextHold(cfg, h, e).since, e.at)
  }

  class StableTracker {
    const config: Config
    var candidateWeight: Option<real>
    var stableSince: Option<int>
    var last: Snapshot

    function Holds(): Hold
      reads this
    {
      Hold(candidateWeight, stableSince)
    }

    constructor (config: Config, now: int)
      ensures this.config == config && Holds() == NOTHING
      ensures last == Snapshot(NoWeight, None, "kg", None, now)
    {
      this.config := config;
      candidateWeight, stableSince := None, None;
      last := Snapshot(NoWeight, None, "kg", None, now);
    }

    method Apply(reading: Reading, now: int) returns (snapshot: Snapshot)
      modifies this
      ensures Holds() == NextHold(config, old(Holds()), Event(reading, now))
      ensures snapshot == last == Observed(config, old(Holds()), Event(reading, now))
      ensures Trim(reading.error) != "" ==> snapshot.state == Error && snapshot.weight == None
      ensures Trim(reading.error) == "" && reading.weight.None? ==> snapshot.state == NoWeight
      ensures Trim(reading.error) == "" && reading.weight.Some? ==> snapshot.weight == reading.weight
      ensures Trim(reading.error) == "" && reading.weight.Some? && reading.stable != Some(true) ==>
        snapshot.state == Moving
      ensures Trim(reading.error) == "" && reading.weight.Some? && reading.stable == Some(true) ==>
        snapshot.state == Holding || snapshot.state == Ready
    {
      var unit := NormalizeUnit(reading.unit);
      if Trim(reading.error) != "" {
        snapshot := Reset(Error, None, unit, now);
        return;
      }
      if reading.weight.None? {
        snapshot := Reset(NoWeight, None, unit, now);
        return;
      }
      if reading.stable != Some(true) {
        snapshot := Reset(Moving, reading.weight, unit, now);
        return;
      }
      if CandidateChanged(config, Holds(), reading.weight.value) {
        candidateWeight := reading.weight;
        stableSince := Some(now);
        snapshot := Snap(Holding, reading.weight, unit, now);
        return;
      }
      var since := stableSince.GetOr(now);
      var state := if ElapsedAtLeast(since, now, config.hold) then Ready else Holding;
      snapshot := Snap(state, reading.weight, unit, now);
    }

    method Reset(state: StableState, weight: Option<real>, unit: string, now: int) returns (snapshot: Snapshot)
      modifies this
      ensures Holds() == NOTHING
      ensures snapshot == last == Snapshot(state, weight, unit, None, now)
    {
      candidateWeight, stableSince := None, None;
      snapshot := Snap(state, weight, unit, now);
    }

    method Snap(state: StableState, weight: Option<real>, unit: string, now: int) returns (snapshot: Snapshot)
      modifies `last
      ensures snapshot == last == Snapshot(state, weight, unit, stableSince, now)
    {
      last := Snapshot(state, weight, unit, stableSince, now);
      return last;
    }
  }

  /** The tracker applied to one reading after another. */
  method ApplyAll(tracker: StableTracker, events: seq<Event>) returns (snapshots: seq<Snapshot>)
    requires tracker.Holds() == NOTHING
    modifies tracker
    ensures |snapshots| == |events|
    ensures forall n :: 0 <= n < |events| ==> snapshots[n] == SnapshotAt(tracker.config, events, n)
  {
    snapshots := [];
    for n := 0 to |events|
      invariant |snapshots| == n && tracker.Holds() == Run(tracker.config, NOTHING, events[..n])
      invariant forall i :: 0 <= i < n ==> snapshots[i] == SnapshotAt(tracker.config, events, i)
    {
      assert events[..n + 1][..n] == events[..n];
      var snapshot := tracker.Apply(events[n].reading, events[n].at);
      snapshots := snapshots + [snapshot];
    }
  }

  /* ----- whole histories ----- */

  /** What is held after a run of events. */
  function Run(cfg: Config, h: Hold, events: seq<Event>): Hold {
    if events == [] then h else NextHold(cfg, Run(cfg, h, events[..|events| - 1]), events[|events| - 1])
  }

  /** The verdict on event `n` of a history that starts from nothing held. */
  function VerdictAt(cfg: Config, events: seq<Event>, n: nat): StableState
    requires n < |events|
  {
    Verdict(cfg, Run(cfg, NOTHING, events[..n]), events[n])
  }

  function WeightAt(events: seq<Event>, k: nat): real
    requires k < |events| && Steady(events[k].reading)
  {
    events[k].reading.weight.value
  }

  /** The history alone says where the hold at event `n` began: at `n` itself
      when the event before is not steady or the hold there began with a weight
      out of tolerance, and where that hold began otherwise. */
  function Anchor(cfg: Config, events: seq<Event>, n: nat): (k: Option<nat>)
    requires n < |events|
    ensures k.None? <==> !Steady(events[n].reading)
    ensures k.Some? ==> k.value <= n && forall i :: k.value <= i <= n ==> Steady(events[i].reading)
    ensures k.Some? && 0.0 <= cfg.tolerance ==>
      forall i :: k.value <= i <= n ==> Distance(WeightAt(events, k.value), WeightAt(events, i)) <= cfg.tolerance
  {
    if !Steady(events[n].reading) then None
    else if n == 0 || Anchor(cfg, events, n - 1).None? then Some(n)
    else
      var k := Anchor(cfg, events, n - 1).value;
      if Distance(WeightAt(events, k), WeightAt(events, n)) > cfg.tolerance then Some(n) else Some(k)
  }

  lemma {:induction false} HeldIsAnchored(cfg: Config, events: seq<Event>, n: nat)
    requires n < |events|
    ensures Run(cfg, NOTHING, events[..n + 1])
         == match Anchor(cfg, events, n)
            case None => NOTHING
            case Some(k) => Hold(Some(WeightAt(events, k)), Some(events[k].at))
  {
    assert events[..n + 1][..n] == events[..n];
    if n > 0 {
      HeldIsAnchored(cfg, events, n - 1);
    }
  }

  /** Ready, characterised over the entire history: exactly when the hold began
      at an earlier event and has lasted. */
  lemma ReadyIffHeld(cfg: Config, events: seq<Event>, n: nat)
    requires n < |events|
    ensures VerdictAt(cfg, events, n) == Ready <==>
      && Anchor(cfg, events, n).Some? && Anchor(cfg, events, n).value < n
      && ElapsedAtLeast(events[Anchor(cfg, events, n).value].at, events[n].at, cfg.hold)
  {
    if n > 0 {
      HeldIsAnchored(cfg, events, n - 1);
    }
  }

  /** What the tracker answers to event `n` of a history that starts from nothing held. */
  function SnapshotAt(cfg: Config, events: seq<Event>, n: nat): Snapshot
    requires n < |events|
  {
    Observed(cfg, Run(cfg, NOTHING, events[..n]), events[n])
  }

  /** The hold at event `n` began before it and has lasted. */
  predicate HasLasted(cfg: Config, events: seq<Event>, n: nat)
    requires n < |events|
  {
    match Anchor(cfg, events, n)
    case None => false
    case Some(k) => k < n && events[k].at <= events[n].at && events[n].at - events[k].at >= cfg.hold
  }

  /** The whole answer, told by the readings of the history alone: an error before all else, then
      a missing weight, then a reading that is not stable; of the stable ones those whose hold has
      lasted are Ready and the others Holding. The weight is shown unless there is none or an error,
      the hold's beginning whenever there is one, and the unit in lower case, kilograms when blank. */
  lemma AnswerOverHistory(cfg: Config, events: seq<Event>, n: nat)
    requires n < |events|
    ensures var r, snapshot := events[n].reading, SnapshotAt(cfg, events, n);
      && (snapshot.state == Error <==> Trim(r.error) != "")
      && (snapshot.state == NoWeight <==> Trim(r.error) == "" && r.weight == None)
      && (snapshot.state == Moving <==> Trim(r.error) == "" && r.weight != None && r.stable != Some(true))
      && (snapshot.state == Ready <==> HasLasted(cfg, events, n))
      && (snapshot.state == Holding <==>
            Trim(r.error) == "" && r.weight != None && r.stable == Some(true) && !HasLasted(cfg, events, n))
      && snapshot.weight == (if Trim(r.error) == "" then r.weight else None)
      && snapshot.updatedAt == events[n].at
      && snapshot.unit == (if Trim(r.unit) == "" then "kg" else Lower(Trim(r.unit)))
      && snapshot.stableSince ==
           match Anchor(cfg, events, n)
           case None => None
           case Some(k) => Some(events[k].at)
  {
    OneAnswer(cfg, Run(cfg, NOTHING, events[..n]), events[n]);
    ReadyIffLasted(cfg, events, n);
    SinceIsAnchored(cfg, events, n);
  }

  /** The answer to one event, but for which of the steady ones are Ready and when the hold began. */
  lemma OneAnswer(cfg: Config, h: Hold, e: Event)
    ensures var r, snapshot := e.reading, Observed(cfg, h, e);
      && (snapshot.state == Error <==> Trim(r.error) != "")
      && (snapshot.state == NoWeight <==> Trim(r.error) == "" && r.weight == None)
      && (snapshot.state == Moving <==> Trim(r.error) == "" && r.weight != None && r.stable != Some(true))
      && (snapshot.state in {Ready, Holding} <==> Steady(r))
      && snapshot.weight == (if Trim(r.error) == "" then r.weight else None)
      && snapshot.updatedAt == e.at
      && snapshot.unit == (if Trim(r.unit) == "" then "kg" else Lower(Trim(r.unit)))
  {
    LowerIsBlankIff(Trim(e.reading.unit));
  }

  lemma ReadyIffLasted(cfg: Config, events: seq<Event>, n: nat)
    requires n < |events|
    ensures SnapshotAt(cfg, events, n).state == Ready <==> HasLasted(cfg, events, n)
  {
    ReadyIffHeld(cfg, events, n);
  }

  lemma SinceIsAnchored(cfg: Config, events: seq<Event>, n: nat)
    requires n < |events|
    ensures SnapshotAt(cfg, events, n).stableSince
         == match Anchor(cfg, events, n)
            case None => None
            case Some(k) => Some(events[k].at)
  {
    HeldIsAnchored(cfg, events, n);
    assert events[..n + 1][..n] == events[..n];
  }

  lemma LowerIsBlankIff(s: string)
    ensures Lower(s) == "" <==> s == ""
  {
    assert |Lower(s)| == |s|;
  }

  /** Sound: behind every Ready stands an earlier reading since which all were
      steady, close to it, and the hold has passed; so any two weights of the
      hold differ by at most twice the tolerance. */
  lemma ReadyIsSound(cfg: Config, events: seq<Event>, n: nat) returns (k: nat)
    requires n < |events| && 0.0 <= cfg.tolerance && VerdictAt(cfg, events, n) == Ready
    ensures k < n && events[n].at - events[k].at >= cfg.hold
    ensures forall i :: k <= i <= n ==> Steady(events[i].reading)
    ensures forall i :: k <= i <= n ==> Distance(WeightAt(events, k), WeightAt(events, i)) <= cfg.tolerance
    ensures forall i, j :: k <= i <= n && k <= j <= n ==>
      Distance(WeightAt(events, i), WeightAt(events, j)) <= 2.0 * cfg.tolerance
  {
    ReadyIffHeld(cfg, events, n);
    k := Anchor(cfg, events, n).value;
    forall i, j | k <= i <= n && k <= j <= n
      ensures Distance(WeightAt(events, i), WeightAt(events, j)) <= 2.0 * cfg.tolerance
    {
      assert Distance(WeightAt(events, k), WeightAt(events, i)) <= cfg.tolerance;
      assert Distance(WeightAt(events, k), WeightAt(events, j)) <= cfg.tolerance;
    }
  }

  /** What a tracker can hold once the clock has reached `now`. */
  predicate HeldBy(h: Hold, now: int) {
    (h.candidate.Some? <==> h.since.Some?) && (h.since.Some? ==> h.since.value <= now)
  }

  /** Readings of one weight, steady and on a clock that does not go back. */
  predicate SameWeight(events: seq<Event>, weight: real) {
    && (forall i :: 0 <= i < |events| ==> Steady(events[i].reading) && WeightAt(events, i) == weight)
    && (forall i, j :: 0 <= i <= j < |events| ==> events[i].at <= events[j].at)
  }

  lemma {:induction false} HeldThroughSameWeight(cfg: Config, h: Hold, events: seq<Event>, weight: real)
    requires events != [] && 0.0 <= cfg.tolerance && SameWeight(events, weight) && HeldBy(h, events[0].at)
    ensures var after := Run(cfg, h, events);
      && after.candidate.Some? && Distance(after.candidate.value, weight) <= cfg.tolerance
      && after.since.Some? && after.since.value <= events[0].at
  {
    var front := events[..|events| - 1];
    assert WeightAt(events, |events| - 1) == weight;
    if front == [] {
      assert Run(cfg, h, front) == h;
    } else {
      assert SameWeight(front, weight) by {
        forall i | 0 <= i < |front| ensures Steady(front[i].reading) && WeightAt(front, i) == weight {
          assert WeightAt(events, i) == weight;
        }
      }
      HeldThroughSameWeight(cfg, h, front, weight);
    }
  }

  /** Live: from any state, two or more equal steady readings that span the hold
      end in Ready. */
  lemma SameWeightBecomesReady(cfg: Config, h: Hold, events: seq<Event>, weight: real)
    requires |events| >= 2 && 0.0 <= cfg.tolerance && SameWeight(events, weight) && HeldBy(h, events[0].at)
    requires events[|events| - 1].at - events[0].at >= cfg.hold
    ensures var n := |events| - 1;
      Verdict(cfg, Run(cfg, h, events[..n]), events[n]) == Ready
  {
    var front := events[..|events| - 1];
    assert WeightAt(events, |events| - 1) == weight;
    assert SameWeight(front, weight) by {
      forall i | 0 <= i < |front| ensures Steady(front[i].reading) && WeightAt(front, i) == weight {
        assert WeightAt(events, i) == weight;
      }
    }
    HeldThroughSameWeight(cfg, h, front, weight);
  }

  /** The clock of a history does not go back. */
  predicate Ticks(events: seq<Event>) {
    forall i, j :: 0 <= i <= j < |events| ==> events[i].at <= events[j].at
  }

  /** Whatever came before, a tracker holds nothing from the future. */
  lemma {:induction false} ReachableIsHeldBy(cfg: Config, events: seq<Event>, now: int)
    requires Ticks(events) && (events != [] ==> events[|events| - 1].at <= now)
    ensures HeldBy(Run(cfg, NOTHING, events), now)
    decreases |events|
  {
    if events != [] {
      ReachableIsHeldBy(cfg, events[..|events| - 1], now);
    }
  }

  lemma {:induction false} RunAppend(cfg: Config, h: Hold, before: seq<Event>, after: seq<Event>)
    ensures Run(cfg, h, before + after) == Run(cfg, Run(cfg, h, before), after)
    decreases |after|
  {
    var all := before + after;
    if after == [] {
      assert all == before;
    } else {
      assert all[..|all| - 1] == before + after[..|after| - 1];
      RunAppend(cfg, h, before, after[..|after| - 1]);
    }
  }

  /** Live over histories: after any events at all, two or more equal steady readings that span
      the hold end in Ready, as long as the clock does not go back. */
  lemma HeldWeightBecomesReady(cfg: Config, before: seq<Event>, window: seq<Event>, weight: real)
    requires |window| >= 2 && 0.0 <= cfg.tolerance && SameWeight(window, weight)
    requires window[|window| - 1].at - window[0].at >= cfg.hold && Ticks(before + window)
    ensures VerdictAt(cfg, before + window, |before| + |window| - 1) == Ready
  {
    var n := |window| - 1;
    var all := before + window;
    assert forall i :: 0 <= i < |before| ==> all[i] == before[i];
    assert all[|before|] == window[0] && all[|before| + n] == window[n];
    ReachableIsHeldBy(cfg, before, window[0].at);
    SameWeightBecomesReady(cfg, Run(cfg, NOTHING, before), window, weight);
    RunAppend(cfg, NOTHING, before, window[..n]);
    assert all[..|before| + n] == before + window[..n];
  }

  /** With a negative tolerance every reading starts a new hold: none is ever ready. */
  lemma NegativeToleranceNeverReady(cfg: Config, events: seq<Event>, n: nat)
    requires n < |events| && cfg.tolerance < 0.0
    ensures VerdictAt(cfg, events, n) != Ready
  {
    ReadyIffHeld(cfg, events, n);
  }

  /* ----- re-anchoring ----- */

  /** How often the held weight changes over `events`. */
  function Changes(cfg: Config, h: Hold, events: seq<Event>): nat
    requires forall i :: 0 <= i < |events| ==> Steady(events[i].reading)
    decreases |events|
  {
    if events == [] then 0
    else
      assert Steady(events[0].reading);
      (if CandidateChanged(cfg, h, events[0].reading.weight.value) then 1 else 0)
      + Changes(cfg, NextHold(cfg, h, events[0]), events[1..])
  }

  predicate AllNear(cfg: Config, weight: real, events: seq<Event>) {
    forall i :: 0 <= i < |events| ==>
      Steady(events[i].reading) && Distance(weight, WeightAt(events, i)) <= cfg.tolerance
  }

  predicate PairwiseNear(cfg: Config, events: seq<Event>) {
    forall i :: 0 <= i < |events| ==> Steady(events[i].reading) && AllNear(cfg, WeightAt(events, i), events)
  }

  lemma {:induction false} NearNeverChanges(cfg: Config, h: Hold, events: seq<Event>)
    requires h.candidate.Some? && AllNear(cfg, h.candidate.value, events)
    ensures Changes(cfg, h, events) == 0
    decreases |events|
  {
    if events != [] {
      assert Distance(h.candidate.value, WeightAt(events, 0)) <= cfg.tolerance;
      assert AllNear(cfg, h.candidate.value, events[1..]) by { NearTail(cfg, h.candidate.value, events); }
      NearNeverChanges(cfg, h, events[1..]);
    }
  }

  lemma NearTail(cfg: Config, weight: real, events: seq<Event>)
    requires events != [] && AllNear(cfg, weight, events)
    ensures AllNear(cfg, weight, events[1..])
  {
    forall i | 0 <= i < |events[1..]|
      ensures Steady(events[1..][i].reading) && Distance(weight, WeightAt(events[1..], i)) <= cfg.tolerance
    {
      assert Distance(weight, WeightAt(events, i + 1)) <= cfg.tolerance;
    }
  }

  /** In a window whose weights are pairwise within tolerance the held weight
      changes at most once, and not at all after a change on the first reading. */
  lemma {:induction false} WindowReanchorsAtMostOnce(cfg: Config, h: Hold, events: seq<Event>)
    requires events != [] && PairwiseNear(cfg, events)
    ensures Changes(cfg, h, events) <= 1
    ensures CandidateChanged(cfg, h, WeightAt(events, 0)) ==>
      Changes(cfg, NextHold(cfg, h, events[0]), events[1..]) == 0
    decreases |events|
  {
    assert AllNear(cfg, WeightAt(events, 0), events);
    if CandidateChanged(cfg, h, WeightAt(events, 0)) {
      NearTail(cfg, WeightAt(events, 0), events);
      NearNeverChanges(cfg, NextHold(cfg, h, events[0]), events[1..]);
    } else if |events| > 1 {
      forall i | 0 <= i < |events[1..]|
        ensures Steady(events[1..][i].reading) && AllNear(cfg, WeightAt(events[1..], i), events[1..])
      {
        assert AllNear(cfg, WeightAt(events, i + 1), events);
        NearTail(cfg, WeightAt(events, i + 1), events);
      }
      WindowReanchorsAtMostOnce(cfg, NextHold(cfg, h, events[0]), events[1..]);
    }
  }
}
