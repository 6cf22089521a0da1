/** The interleaved print handlers together with one GoDEX device: who put which bytes on it
    (src/service/http.rs, src/print/godex/executor.rs, src/service/driver_print_runtime.rs). */
module PrintDevice {
  import opened Text
  import opened PrintActivity
  import opened PrintExclusion
  import opened Godex

  /** One finished executor call with what it did to the device. */
  datatype Execution = Execution(handler: nat, outcome: Outcome, mark: Mark)

  /** The server and the device. `jobs` has the finished calls of each admitted handler, in the
      order of admission; `open` is what the call that is running has done. */
  datatype World = World(server: Server, jobs: seq<seq<Execution>>, open: Mark, device: string)

  /** A step of a handler, or one use of the transport inside its executor call. */
  datatype Action = Move(step: Step) | Use(h: nat, ok: bool, bytes: string)

  const NOTHING := Mark([], [], [])

  function Plan(renders: seq<PackRender>, h: nat): seq<Call>
    requires h < |renders|
  {
    AllCalls(renders[h])
  }

  /** How an executor call may end after what it did: without a device it does nothing, and it may
      fail before it has used the transport. */
  predicate EndsWith(plan: seq<Call>, open: Mark, o: Outcome) {
    match o
    case Printed => RunOf(plan, open.calls, open.results, true)
    case Failed => open == NOTHING || RunOf(plan, open.calls, open.results, false)
    case Unavailable => open == NOTHING
  }

  predicate CanAct(requests: seq<Request>, renders: seq<PackRender>, w: World, a: Action) {
    && |w.server.phases| == |requests| == |renders|
    && match a
       case Move(step) =>
         && Enabled(requests, w.server, step)
         && (step.EndCall? ==> EndsWith(Plan(renders, step.h), w.open, step.outcome))
       case Use(h, ok, bytes) =>
         && h < |requests| && w.server.phases[h].Executing?
         && |w.open.calls| < |Plan(renders, h)| && AllWell(w.open.calls, w.open.results)
         && Arrives(Plan(renders, h)[|w.open.calls|], ok, bytes)
  }

  /** The running call becomes a finished one of the handler admitted last. */
  function Filed(jobs: seq<seq<Execution>>, e: Execution): seq<seq<Execution>> {
    if jobs == [] then [[e]] else jobs[..|jobs| - 1] + [jobs[|jobs| - 1] + [e]]
  }

  function Longer(open: Mark, c: Call, ok: bool, bytes: string): Mark {
    Mark(open.calls + [c], open.results + [ok], open.writes + [bytes])
  }

  function Act(requests: seq<Request>, renders: seq<PackRender>, w: World, a: Action): World
    requires CanAct(requests, renders, w, a)
  {
    match a
    case Use(h, ok, bytes) =>
      w.(open := Longer(w.open, Plan(renders, h)[|w.open.calls|], ok, bytes), device := w.device + bytes)
    case Move(step) =>
      var server := Apply(requests, w.server, step);
      match step
      case TryStart(_) => World(server, if w.server.activity.busy then w.jobs else w.jobs + [[]], w.open, w.device)
      case EndCall(h, o) => World(server, Filed(w.jobs, Execution(h, o, w.open)), NOTHING, w.device)
      case _ => World(server, w.jobs, w.open, w.device)
  }

  ghost predicate IsWorldRun(requests: seq<Request>, renders: seq<PackRender>, run: seq<World>) {
    && |requests| == |renders|
    && run != [] && run[0] == World(Start(requests), [], NOTHING, "")
    && forall i :: 0 <= i < |run| - 1 ==> Comes(requests, renders, run[i], run[i + 1])
  }

  ghost predicate Comes(requests: seq<Request>, renders: seq<PackRender>, w: World, x: World) {
    exists a :: CanAct(requests, renders, w, a) && x == Act(requests, renders, w, a)
  }

  /* ----- the bytes and the log entries of finished calls ----- */

  function JobText(job: seq<Execution>): string {
    if job == [] then "" else JobText(job[..|job| - 1]) + Concat(job[|job| - 1].mark.writes)
  }

  function DeviceText(jobs: seq<seq<Execution>>): string {
    if jobs == [] then "" else DeviceText(jobs[..|jobs| - 1]) + JobText(jobs[|jobs| - 1])
  }

  function Entries(job: seq<Execution>): seq<Entry> {
    if job == [] then []
    else
      var e := job[|job| - 1];
      Entries(job[..|job| - 1]) + [Begin(e.handler), End(e.handler, e.outcome)]
  }

  lemma JobSnoc(job: seq<Execution>, e: Execution)
    ensures JobText(job + [e]) == JobText(job) + Concat(e.mark.writes)
    ensures Entries(job + [e]) == Entries(job) + [Begin(e.handler), End(e.handler, e.outcome)]
  {
    assert (job + [e])[..|job|] == job;
  }

  lemma DeviceSnoc(jobs: seq<seq<Execution>>, job: seq<Execution>)
    ensures DeviceText(jobs + [job]) == DeviceText(jobs) + JobText(job)
  {
    assert (jobs + [job])[..|jobs|] == jobs;
  }

  lemma FiledText(jobs: seq<seq<Execution>>, e: Execution)
    ensures DeviceText(Filed(jobs, e)) == DeviceText(jobs) + Concat(e.mark.writes)
  {
    if jobs == [] {
      JobSnoc([], e);
      DeviceSnoc([], [e]);
      assert [] + [e] == [e] && [] + [[e]] == [[e]];
    } else {
      var before, last := jobs[..|jobs| - 1], jobs[|jobs| - 1];
      JobSnoc(last, e);
      DeviceSnoc(before, last + [e]);
      Assoc(DeviceText(before), JobText(last), Concat(e.mark.writes));
    }
  }

  /* ----- what every run keeps ----- */

  /** The entries of a handler's finished calls. */
  function Finished(h: nat, p: Phase): seq<Entry> {
    if p.Executing? then Successes(h, p.done) else Own(h, p)
  }

  predicate JobsMatch(phases: seq<Phase>, order: seq<nat>, jobs: seq<seq<Execution>>) {
    && |jobs| == |order| && InBounds(order, |phases|)
    && forall i :: 0 <= i < |order| ==> Entries(jobs[i]) == Finished(order[i], phases[order[i]])
  }

  /** A running call: the front of its plan, up to and with its first failure that counts. */
  predicate Running(plan: seq<Call>, open: Mark) {
    && open.calls <= plan && Delivered(open.calls, open.results, open.writes)
    && (AllWell(open.calls, open.results) || RunOf(plan, open.calls, open.results, false))
  }

  predicate OpenFits(renders: seq<PackRender>, phases: seq<Phase>, open: Mark)
    requires |phases| == |renders|
  {
    && (forall h :: 0 <= h < |phases| && phases[h].Executing? ==> Running(Plan(renders, h), open))
    && ((forall h :: 0 <= h < |phases| ==> !phases[h].Executing?) ==> open == NOTHING)
  }

  /** A finished call: a run of its handler's plan that ended as its outcome says. */
  predicate SoundExecution(renders: seq<PackRender>, e: Execution) {
    && e.handler < |renders| && EndsWith(Plan(renders, e.handler), e.mark, e.outcome)
    && Delivered(e.mark.calls, e.mark.results, e.mark.writes)
  }

  predicate JobsSound(renders: seq<PackRender>, jobs: seq<seq<Execution>>) {
    forall i, k :: 0 <= i < |jobs| && 0 <= k < |jobs[i]| ==> SoundExecution(renders, jobs[i][k])
  }

  /** What jobs, running call and device are to the handlers' phases. */
  predicate DevicePart(renders: seq<PackRender>, phases: seq<Phase>, order: seq<nat>, jobs: seq<seq<Execution>>,
                       open: Mark, device: string)
  {
    && |phases| == |renders|
    && JobsMatch(phases, order, jobs)
    && OpenFits(renders, phases, open)
    && JobsSound(renders, jobs)
    && device == DeviceText(jobs) + Concat(open.writes)
  }

  predicate WorldInvariant(requests: seq<Request>, renders: seq<PackRender>, w: World) {
    && |requests| == |renders|
    && Invariant(requests, w.server)
    && DevicePart(renders, w.server.phases, w.server.admitted, w.jobs, w.open, w.device)
  }

  /* ----- each kind of step ----- */

  lemma JobsAfterOther(phases: seq<Phase>, order: seq<nat>, jobs: seq<seq<Execution>>, h: nat, p: Phase)
    requires JobsMatch(phases, order, jobs) && h < |phases|
    requires h !in order || Finished(h, p) == Finished(h, phases[h])
    ensures JobsMatch(phases[h := p], order, jobs)
  {
    forall i | 0 <= i < |order|
      ensures Entries(jobs[i]) == Finished(order[i], phases[h := p][order[i]])
    {
      assert order[i] in order;
    }
  }

  lemma JobsAfterAdmission(phases: seq<Phase>, order: seq<nat>, jobs: seq<seq<Execution>>, h: nat)
    requires JobsMatch(phases, order, jobs) && h < |phases| && h !in order
    ensures JobsMatch(phases[h := Guarded(0)], order + [h], jobs + [[]])
  {
    JobsAfterOther(phases, order, jobs, h, Guarded(0));
  }

  /** `h` was admitted last, and once. */
  predicate LastIn(order: seq<nat>, h: nat) {
    order != [] && order[|order| - 1] == h && forall i :: 0 <= i < |order| - 1 ==> order[i] != h
  }

  lemma FiledAt(jobs: seq<seq<Execution>>, e: Execution, i: nat)
    requires i < |jobs|
    ensures |Filed(jobs, e)| == |jobs|
    ensures Filed(jobs, e)[i] == if i + 1 == |jobs| then jobs[i] + [e] else jobs[i]
  {
  }

  lemma JobAfterCall(job: seq<Execution>, before: seq<Entry>, after: seq<Entry>, e: Execution)
    requires Entries(job) == before && after == before + [Begin(e.handler), End(e.handler, e.outcome)]
    ensures Entries(job + [e]) == after
  {
    JobSnoc(job, e);
  }

  lemma JobsAfterCall(phases: seq<Phase>, order: seq<nat>, jobs: seq<seq<Execution>>, h: nat, p: Phase, e: Execution)
    requires JobsMatch(phases, order, jobs) && LastIn(order, h) && h < |phases|
    requires Finished(h, p) == Finished(h, phases[h]) + [Begin(e.handler), End(e.handler, e.outcome)]
    ensures JobsMatch(phases[h := p], order, Filed(jobs, e))
  {
    var after := phases[h := p];
    FiledAt(jobs, e, |order| - 1);
    forall i | 0 <= i < |order|
      ensures Entries(Filed(jobs, e)[i]) == Finished(order[i], after[order[i]])
    {
      FiledAt(jobs, e, i);
      if i + 1 == |order| {
        JobAfterCall(jobs[i], Finished(h, phases[h]), Finished(h, p), e);
      } else {
        assert after[order[i]] == phases[order[i]];
      }
    }
  }

  lemma OpenAfterOther(renders: seq<PackRender>, phases: seq<Phase>, open: Mark, h: nat, p: Phase)
    requires |phases| == |renders| && OpenFits(renders, phases, open)
    requires h < |phases| && !phases[h].Executing? && !p.Executing?
    ensures OpenFits(renders, phases[h := p], open)
  {
    var after := phases[h := p];
    if forall g :: 0 <= g < |after| ==> !after[g].Executing? {
      forall g | 0 <= g < |phases|
        ensures !phases[g].Executing?
      {
        assert g != h ==> !after[g].Executing?;
      }
    }
  }

  /** Only the live handler executes. */
  lemma OthersIdle(phases: seq<Phase>, order: seq<nat>, h: nat)
    requires Orders(phases, order) && h < |phases| && Live(phases[h])
    ensures forall g :: 0 <= g < |phases| && g != h ==> !Live(phases[g])
  {
    LiveIsLast(phases, order, h);
    forall g | 0 <= g < |phases| && Live(phases[g])
      ensures g == h
    {
      LiveIsLast(phases, order, g);
    }
  }

  lemma OpenAfterBegin(renders: seq<PackRender>, phases: seq<Phase>, open: Mark, h: nat, p: Phase)
    requires |phases| == |renders| && OpenFits(renders, phases, open) && h < |phases| && p.Executing?
    requires forall g :: 0 <= g < |phases| ==> !phases[g].Executing?
    ensures OpenFits(renders, phases[h := p], open)
  {
    assert phases[h := p][h].Executing?;
  }

  lemma OpenAfterEnd(renders: seq<PackRender>, phases: seq<Phase>, h: nat, p: Phase)
    requires |phases| == |renders| && h < |phases| && !p.Executing?
    requires forall g :: 0 <= g < |phases| && g != h ==> !phases[g].Executing?
    ensures OpenFits(renders, phases[h := p], NOTHING)
  {
  }

  lemma UseRuns(plan: seq<Call>, open: Mark, ok: bool, bytes: string)
    requires Running(plan, open) && AllWell(open.calls, open.results) && |open.calls| < |plan|
    requires Arrives(plan[|open.calls|], ok, bytes)
    ensures Running(plan, Longer(open, plan[|open.calls|], ok, bytes))
  {
    var c := plan[|open.calls|];
    DeliveredOneMore(open.calls, open.results, open.writes, c, ok, bytes);
    var made, results := open.calls + [c], open.results + [ok];
    assert made[..|made| - 1] == open.calls && results[..|made| - 1] == open.results;
  }

  lemma OneRuns(renders: seq<PackRender>, phases: seq<Phase>, h: nat, open: Mark)
    requires |phases| == |renders| && h < |phases| && phases[h].Executing? && Running(Plan(renders, h), open)
    requires forall g :: 0 <= g < |phases| && g != h ==> !phases[g].Executing?
    ensures OpenFits(renders, phases, open)
  {
  }

  lemma UsePart(renders: seq<PackRender>, phases: seq<Phase>, order: seq<nat>, jobs: seq<seq<Execution>>,
                open: Mark, device: string, h: nat, ok: bool, bytes: string)
    requires DevicePart(renders, phases, order, jobs, open, device)
    requires h < |phases| && phases[h].Executing? && |open.calls| < |Plan(renders, h)|
    requires AllWell(open.calls, open.results) && Arrives(Plan(renders, h)[|open.calls|], ok, bytes)
    requires forall g :: 0 <= g < |phases| && g != h ==> !phases[g].Executing?
    ensures DevicePart(renders, phases, order, jobs,
                       Longer(open, Plan(renders, h)[|open.calls|], ok, bytes), device + bytes)
  {
    UseRuns(Plan(renders, h), open, ok, bytes);
    OneRuns(renders, phases, h, Longer(open, Plan(renders, h)[|open.calls|], ok, bytes));
    ConcatSnoc(open.writes, bytes);
    Assoc(DeviceText(jobs), Concat(open.writes), bytes);
  }

  /** A step that neither starts nor ends an executor call. */
  lemma QuietPart(renders: seq<PackRender>, phases: seq<Phase>, order: seq<nat>, jobs: seq<seq<Execution>>,
                  open: Mark, device: string, h: nat, p: Phase)
    requires DevicePart(renders, phases, order, jobs, open, device)
    requires h < |phases| && !phases[h].Executing? && !p.Executing?
    requires h !in order || Finished(h, p) == Finished(h, phases[h])
    ensures DevicePart(renders, phases[h := p], order, jobs, open, device)
  {
    JobsAfterOther(phases, order, jobs, h, p);
    OpenAfterOther(renders, phases, open, h, p);
  }

  lemma NewJobSound(renders: seq<PackRender>, jobs: seq<seq<Execution>>)
    requires JobsSound(renders, jobs)
    ensures JobsSound(renders, jobs + [[]])
  {
    forall i, k | 0 <= i < |jobs + [[]]| && 0 <= k < |(jobs + [[]])[i]|
      ensures SoundExecution(renders, (jobs + [[]])[i][k])
    {
      assert i < |jobs| && SoundExecution(renders, jobs[i][k]);
    }
  }

  lemma AdmittedPart(renders: seq<PackRender>, phases: seq<Phase>, order: seq<nat>, jobs: seq<seq<Execution>>,
                     open: Mark, device: string, h: nat)
    requires DevicePart(renders, phases, order, jobs, open, device)
    requires h < |phases| && !phases[h].Executing? && h !in order
    ensures DevicePart(renders, phases[h := Guarded(0)], order + [h], jobs + [[]], open, device)
  {
    JobsAfterAdmission(phases, order, jobs, h);
    OpenAfterOther(renders, phases, open, h, Guarded(0));
    NewJobSound(renders, jobs);
    DeviceSnoc(jobs, []);
    assert DeviceText(jobs) + "" == DeviceText(jobs);
  }

  lemma BegunPart(renders: seq<PackRender>, phases: seq<Phase>, order: seq<nat>, jobs: seq<seq<Execution>>,
                  open: Mark, device: string, h: nat, p: Phase)
    requires DevicePart(renders, phases, order, jobs, open, device)
    requires h < |phases| && p.Executing? && Finished(h, p) == Finished(h, phases[h])
    requires forall g :: 0 <= g < |phases| ==> !phases[g].Executing?
    ensures DevicePart(renders, phases[h := p], order, jobs, open, device)
  {
    JobsAfterOther(phases, order, jobs, h, p);
    OpenAfterBegin(renders, phases, open, h, p);
  }

  lemma FiledSound(renders: seq<PackRender>, jobs: seq<seq<Execution>>, e: Execution)
    requires JobsSound(renders, jobs) && SoundExecution(renders, e)
    ensures JobsSound(renders, Filed(jobs, e))
  {
    forall i, k | 0 <= i < |Filed(jobs, e)| && 0 <= k < |Filed(jobs, e)[i]|
      ensures SoundExecution(renders, Filed(jobs, e)[i][k])
    {
      if i < |jobs| && k < |jobs[i]| {
        assert SoundExecution(renders, jobs[i][k]);
      }
    }
  }

  lemma RunningIsSound(renders: seq<PackRender>, phases: seq<Phase>, open: Mark, h: nat, o: Outcome)
    requires |phases| == |renders| && OpenFits(renders, phases, open)
    requires h < |phases| && phases[h].Executing? && EndsWith(Plan(renders, h), open, o)
    ensures SoundExecution(renders, Execution(h, o, open))
  {
    assert Running(Plan(renders, h), open);
  }

  lemma EndedText(jobs: seq<seq<Execution>>, h: nat, o: Outcome, open: Mark)
    ensures DeviceText(jobs) + Concat(open.writes)
         == DeviceText(Filed(jobs, Execution(h, o, open))) + Concat(NOTHING.writes)
  {
    FiledText(jobs, Execution(h, o, open));
    assert DeviceText(Filed(jobs, Execution(h, o, open))) + "" == DeviceText(Filed(jobs, Execution(h, o, open)));
  }

  lemma EndedPart(renders: seq<PackRender>, phases: seq<Phase>, order: seq<nat>, jobs: seq<seq<Execution>>,
                  open: Mark, device: string, h: nat, p: Phase, o: Outcome)
    requires DevicePart(renders, phases, order, jobs, open, device) && LastIn(order, h)
    requires h < |phases| && phases[h].Executing? && !p.Executing? && EndsWith(Plan(renders, h), open, o)
    requires Finished(h, p) == Finished(h, phases[h]) + [Begin(h), End(h, o)]
    requires forall g :: 0 <= g < |phases| && g != h ==> !phases[g].Executing?
    ensures DevicePart(renders, phases[h := p], order, Filed(jobs, Execution(h, o, open)), NOTHING, device)
  {
    RunningIsSound(renders, phases, open, h, o);
    JobsAfterCall(phases, order, jobs, h, p, Execution(h, o, open));
    OpenAfterEnd(renders, phases, h, p);
    FiledSound(renders, jobs, Execution(h, o, open));
    EndedText(jobs, h, o, open);
  }

  lemma FinishedAfterEnd(h: nat, done: nat, o: Outcome)
    ensures Finished(h, if o == Printed then Guarded(done + 1) else Leaving(done, o))
         == Finished(h, Executing(done)) + [Begin(h), End(h, o)]
  {
  }

  lemma FinishedAfterLeaving(h: nat, done: nat, o: Outcome)
    ensures Finished(h, Leaving(done, Printed)) == Finished(h, Guarded(done))
    ensures Finished(h, Answered(done, o)) == Finished(h, Leaving(done, o))
  {
    assert Successes(h, done) + [] == Successes(h, done);
  }

  /** A handler that has not been admitted is not in the order; one with the guard is last, alone. */
  lemma WhereHandlersStand(requests: seq<Request>, s: Server, h: nat)
    requires Invariant(requests, s) && h < |s.phases|
    ensures s.phases[h].Arrived? ==> h !in s.admitted
    ensures Live(s.phases[h]) ==> LastIn(s.admitted, h)
    ensures Live(s.phases[h]) ==> forall g :: 0 <= g < |s.phases| && g != h ==> !s.phases[g].Executing?
  {
    if Live(s.phases[h]) {
      LiveIsLast(s.phases, s.admitted, h);
      OthersIdle(s.phases, s.admitted, h);
      forall i | 0 <= i < |s.admitted| - 1
        ensures s.admitted[i] != h
      {
        assert s.admitted[i] in s.admitted[..|s.admitted| - 1];
      }
    }
  }

  /** The steps outside an executor call leave the handler's finished calls as they are. */
  lemma QuietFinished(request: Request, busy: bool, h: nat, p: Phase, step: Step)
    requires (step.Finish? && p.Guarded?) || (step.DropGuard? && p.Leaving?) || (step.BeginCall? && p.Guarded?)
    ensures Finished(h, NextPhase(request, busy, p, step)) == Finished(h, p)
  {
    if step.Finish? {
      FinishedAfterLeaving(h, p.done, Printed);
    } else if step.DropGuard? {
      FinishedAfterLeaving(h, p.done, p.outcome);
    }
  }

  lemma EndFinished(request: Request, busy: bool, h: nat, p: Phase, step: Step)
    requires p.Executing? && step.EndCall? && step.h == h
    ensures var next := NextPhase(request, busy, p, step);
      !next.Executing? && Finished(h, next) == Finished(h, p) + [Begin(h), End(h, step.outcome)]
  {
    FinishedAfterEnd(h, p.done, step.outcome);
  }

  /** The device's side of a step that is not one of an executor call. */
  lemma QuietMove(requests: seq<Request>, renders: seq<PackRender>, w: World, step: Step)
    requires WorldInvariant(requests, renders, w) && CanAct(requests, renders, w, Move(step))
    requires !step.BeginCall? && !step.EndCall? && (step.TryStart? ==> w.server.activity.busy)
    ensures var x := Act(requests, renders, w, Move(step));
      DevicePart(renders, x.server.phases, x.server.admitted, x.jobs, x.open, x.device)
  {
    var h, before := step.h, w.server.phases[step.h];
    WhereHandlersStand(requests, w.server, h);
    if step.Finish? || step.DropGuard? {
      QuietFinished(requests[h], w.server.activity.busy, h, before, step);
    }
    QuietPart(renders, w.server.phases, w.server.admitted, w.jobs, w.open, w.device, h,
              NextPhase(requests[h], w.server.activity.busy, before, step));
  }

  lemma AdmittingMove(requests: seq<Request>, renders: seq<PackRender>, w: World, step: Step)
    requires WorldInvariant(requests, renders, w) && CanAct(requests, renders, w, Move(step))
    requires step.TryStart? && !w.server.activity.busy
    ensures var x := Act(requests, renders, w, Move(step));
      DevicePart(renders, x.server.phases, x.server.admitted, x.jobs, x.open, x.device)
  {
    WhereHandlersStand(requests, w.server, step.h);
    AdmittedPart(renders, w.server.phases, w.server.admitted, w.jobs, w.open, w.device, step.h);
  }

  lemma BeginningMove(requests: seq<Request>, renders: seq<PackRender>, w: World, step: Step)
    requires WorldInvariant(requests, renders, w) && CanAct(requests, renders, w, Move(step)) && step.BeginCall?
    ensures var x := Act(requests, renders, w, Move(step));
      DevicePart(renders, x.server.phases, x.server.admitted, x.jobs, x.open, x.device)
  {
    var h, before := step.h, w.server.phases[step.h];
    WhereHandlersStand(requests, w.server, h);
    QuietFinished(requests[h], w.server.activity.busy, h, before, step);
    BegunPart(renders, w.server.phases, w.server.admitted, w.jobs, w.open, w.device, h,
              NextPhase(requests[h], w.server.activity.busy, before, step));
  }

  lemma EndingMove(requests: seq<Request>, renders: seq<PackRender>, w: World, step: Step)
    requires WorldInvariant(requests, renders, w) && CanAct(requests, renders, w, Move(step)) && step.EndCall?
    ensures var x := Act(requests, renders, w, Move(step));
      DevicePart(renders, x.server.phases, x.server.admitted, x.jobs, x.open, x.device)
  {
    var h, before := step.h, w.server.phases[step.h];
    WhereHandlersStand(requests, w.server, h);
    EndFinished(requests[h], w.server.activity.busy, h, before, step);
    EndedPart(renders, w.server.phases, w.server.admitted, w.jobs, w.open, w.device, h,
              NextPhase(requests[h], w.server.activity.busy, before, step), step.outcome);
  }

  lemma MovePart(requests: seq<Request>, renders: seq<PackRender>, w: World, step: Step)
    requires WorldInvariant(requests, renders, w) && CanAct(requests, renders, w, Move(step))
    ensures var x := Act(requests, renders, w, Move(step));
      DevicePart(renders, x.server.phases, x.server.admitted, x.jobs, x.open, x.device)
  {
    if step.BeginCall? {
      BeginningMove(requests, renders, w, step);
    } else if step.EndCall? {
      EndingMove(requests, renders, w, step);
    } else if step.TryStart? && !w.server.activity.busy {
      AdmittingMove(requests, renders, w, step);
    } else {
      QuietMove(requests, renders, w, step);
    }
  }

  lemma ActKeeps(requests: seq<Request>, renders: seq<PackRender>, w: World, a: Action)
    requires WorldInvariant(requests, renders, w) && CanAct(requests, renders, w, a)
    ensures WorldInvariant(requests, renders, Act(requests, renders, w, a))
  {
    match a
    case Move(step) =>
      StepKeeps(requests, w.server, step);
      MovePart(requests, renders, w, step);
    case Use(h, ok, bytes) =>
      WhereHandlersStand(requests, w.server, h);
      UsePart(renders, w.server.phases, w.server.admitted, w.jobs, w.open, w.device, h, ok, bytes);
  }

  lemma StartIsSound(requests: seq<Request>, renders: seq<PackRender>)
    requires |requests| == |renders|
    ensures WorldInvariant(requests, renders, World(Start(requests), [], NOTHING, ""))
  {
    StartHolds(requests);
  }

  lemma {:induction false} WorldKeeps(requests: seq<Request>, renders: seq<PackRender>, run: seq<World>, n: nat)
    requires IsWorldRun(requests, renders, run) && n < |run|
    ensures WorldInvariant(requests, renders, run[n])
  {
    if n == 0 {
      StartIsSound(requests, renders);
    } else {
      WorldKeeps(requests, renders, run, n - 1);
      assert Comes(requests, renders, run[n - 1], run[n - 1 + 1]);
      var a :| CanAct(requests, renders, run[n - 1], a) && run[n] == Act(requests, renders, run[n - 1], a);
      ActKeeps(requests, renders, run[n - 1], a);
    }
  }

  /* ----- the guarantees ----- */

  /** All calls of a job succeed, each a whole run of the handler's plan. */
  predicate IsWholeJob(renders: seq<PackRender>, h: nat, count: nat, job: seq<Execution>) {
    && |job| == count
    && forall k :: 0 <= k < |job| ==>
         job[k].handler == h && job[k].outcome == Printed && SoundExecution(renders, job[k])
  }

  lemma {:induction false} EntriesOfSuccesses(h: nat, n: nat, job: seq<Execution>)
    requires Entries(job) == Successes(h, n)
    ensures |job| == n && forall k :: 0 <= k < |job| ==> job[k].handler == h && job[k].outcome == Printed
    decreases |job|
  {
    EntriesLength(job);
    SuccessesLength(h, n);
    if job != [] {
      var front, e := job[..|job| - 1], job[|job| - 1];
      LastTwo(Entries(front), Begin(e.handler), End(e.handler, e.outcome),
              Successes(h, n - 1), Begin(h), End(h, Printed));
      EntriesOfSuccesses(h, n - 1, front);
    }
  }

  lemma {:induction false} EntriesLength(job: seq<Execution>)
    ensures |Entries(job)| == 2 * |job|
  {
    if job != [] {
      EntriesLength(job[..|job| - 1]);
    }
  }

  lemma {:induction false} SuccessesLength(h: nat, n: nat)
    ensures |Successes(h, n)| == 2 * n
  {
    if n > 0 {
      SuccessesLength(h, n - 1);
    }
  }

  lemma LastTwo<T>(a: seq<T>, x: T, y: T, b: seq<T>, p: T, q: T)
    requires a + [x, y] == b + [p, q]
    ensures a == b && x == p && y == q
  {
    var s := a + [x, y];
    assert s[..|s| - 2] == a && s[|s| - 2] == x && s[|s| - 1] == y;
    assert s == b + [p, q] && s[..|s| - 2] == b;
  }

  /** In every state of every interleaving the device holds the bytes of one job per admitted
      handler, in the order of admission, and behind them only those of the call that is running:
      bytes of two jobs never mix. A job answered 200 is its whole number of copies, each a run of
      its handler's plan that answers Ok; without a live guard nothing else is on the device. */
  lemma DeviceHoldsWholeJobs(requests: seq<Request>, renders: seq<PackRender>, run: seq<World>, n: nat)
    requires IsWorldRun(requests, renders, run) && n < |run|
    ensures var w := run[n];
      && |w.jobs| == |w.server.admitted| && |w.server.phases| == |requests| == |renders|
      && InBounds(w.server.admitted, |requests|)
      && w.device == DeviceText(w.jobs) + Concat(w.open.writes)
      && (!SomeLive(w.server) ==> w.device == DeviceText(w.jobs))
      && (forall h :: 0 <= h < |requests| && w.server.phases[h].Executing? ==> Running(Plan(renders, h), w.open))
      && forall i :: 0 <= i < |w.jobs| ==>
           AdmittedJob(requests, renders, w.server.admitted[i], w.server.phases[w.server.admitted[i]], w.jobs[i])
  {
    WorldKeeps(requests, renders, run, n);
    var w := run[n];
    forall i | 0 <= i < |w.jobs|
      ensures AdmittedJob(requests, renders, w.server.admitted[i], w.server.phases[w.server.admitted[i]], w.jobs[i])
    {
      JobIsAdmitted(requests, renders, w.server.admitted[i], w.server.phases[w.server.admitted[i]], w.jobs[i]);
    }
    if !SomeLive(w.server) {
      assert w.open == NOTHING;
      assert DeviceText(w.jobs) + "" == DeviceText(w.jobs);
    }
  }

  /** The finished calls of an admitted handler: each is sound, they are the ones in its part of the
      log, and a handler answered with success has a whole job. */
  predicate AdmittedJob(requests: seq<Request>, renders: seq<PackRender>, h: nat, p: Phase, job: seq<Execution>)
    requires h < |requests|
  {
    && (forall k :: 0 <= k < |job| ==> SoundExecution(renders, job[k]))
    && Entries(job) == Finished(h, p)
    && (p.Answered? && p.outcome == Printed ==>
          requests[h].Prepared? && IsWholeJob(renders, h, requests[h].job.printCount, job))
  }

  lemma JobIsAdmitted(requests: seq<Request>, renders: seq<PackRender>, h: nat, p: Phase, job: seq<Execution>)
    requires h < |requests| && Fits(requests[h], p) && Entries(job) == Finished(h, p)
    requires forall k :: 0 <= k < |job| ==> SoundExecution(renders, job[k])
    ensures AdmittedJob(requests, renders, h, p, job)
  {
    if p.Answered? && p.outcome == Printed {
      assert Successes(h, p.done) + [] == Successes(h, p.done);
      EntriesOfSuccesses(h, p.done, job);
    }
  }
}
