/** Concurrent print handlers as interleaved steps: the guard of
    src/service/print_activity.rs and the loop of driver_print_response in
    src/service/http.rs, each atomic action one step. */
module PrintExclusion {
  import opened Text
  import opened PrintActivity

  /** Where one handler stands; `done` counts its successful executor calls. */
  datatype Phase =
    | Arrived
    | Rejected(status: nat)
    | Guarded(done: nat)
    | Executing(done: nat)
    | Leaving(done: nat, outcome: Outcome)
    | Answered(done: nat, outcome: Outcome)

  /** The shared state. `admitted` records who took the guard, in order. */
  datatype Server = Server(activity: Activity, phases: seq<Phase>, log: seq<Entry>, admitted: seq<nat>)

  datatype Step =
    | Refuse(h: nat)
    | TryStart(h: nat)
    | BeginCall(h: nat)
    | EndCall(h: nat, outcome: Outcome)
    | Finish(h: nat)
    | DropGuard(h: nat)

  function Start(requests: seq<Request>): Server {
    Server(Idle(), seq(|requests|, _ => Arrived), [], [])
  }

  predicate Enabled(requests: seq<Request>, s: Server, step: Step) {
    && |s.phases| == |requests| && step.h < |requests|
    && match step
       case Refuse(h) => s.phases[h].Arrived? && !requests[h].Prepared?
       case TryStart(h) => s.phases[h].Arrived? && requests[h].Prepared?
       case BeginCall(h) =>
         s.phases[h].Guarded? && requests[h].Prepared? && s.phases[h].done < requests[h].job.printCount
       case EndCall(h, _) => s.phases[h].Executing?
       case Finish(h) => s.phases[h].Guarded? && requests[h].Prepared? && s.phases[h].done >= requests[h].job.printCount
       case DropGuard(h) => s.phases[h].Leaving?
  }

  /** What a step does to the phase of its handler. */
  function NextPhase(request: Request, busy: bool, p: Phase, step: Step): Phase {
    match step
    case Refuse(_) => Rejected(if request.Malformed? then 400 else 422)
    case TryStart(_) => if busy then Rejected(409) else Guarded(0)
    case BeginCall(_) => if p.Guarded? then Executing(p.done) else p
    case EndCall(_, o) =>
      if !p.Executing? then p else if o == Printed then Guarded(p.done + 1) else Leaving(p.done, o)
    case Finish(_) => if p.Guarded? then Leaving(p.done, Printed) else p
    case DropGuard(_) => if p.Leaving? then Answered(p.done, p.outcome) else p
  }

  /** What a step adds to the executor's log. */
  function Logged(step: Step): seq<Entry> {
    match step
    case BeginCall(h) => [Begin(h)]
    case EndCall(h, o) => [End(h, o)]
    case _ => []
  }

  function Apply(requests: seq<Request>, s: Server, step: Step): Server
    requires Enabled(requests, s, step)
  {
    var h := step.h;
    var phases := s.phases[h := NextPhase(requests[h], s.activity.busy, s.phases[h], step)];
    if step.TryStart? && !s.activity.busy then
      Server(PrintingJob(requests[h].job), phases, s.log, s.admitted + [h])
    else
      Server(if step.DropGuard? then Idle() else s.activity, phases, s.log + Logged(step), s.admitted)
  }

  /** `run` is an interleaving of the handlers' steps from the start. */
  ghost predicate IsRun(requests: seq<Request>, run: seq<Server>) {
    && run != [] && run[0] == Start(requests)
    && forall i :: 0 <= i < |run| - 1 ==> Follows(requests, run[i], run[i + 1])
  }

  ghost predicate Follows(requests: seq<Request>, s: Server, t: Server) {
    exists step :: Enabled(requests, s, step) && t == Apply(requests, s, step)
  }

  /* ----- what every run keeps ----- */

  /** A live guard: taken and not yet dropped. */
  predicate Live(p: Phase) {
    p.Guarded? || p.Executing? || p.Leaving?
  }

  /** What a handler in phase `p` has put into the executor's log. */
  function Own(h: nat, p: Phase): seq<Entry> {
    match p
    case Arrived => []
    case Rejected(_) => []
    case Guarded(done) => Successes(h, done)
    case Executing(done) => Successes(h, done) + [Begin(h)]
    case Leaving(done, o) => Successes(h, done) + if o == Printed then [] else [Begin(h), End(h, o)]
    case Answered(done, o) => Successes(h, done) + if o == Printed then [] else [Begin(h), End(h, o)]
  }

  /** A handler's phase goes with its request. */
  predicate Fits(request: Request, p: Phase) {
    match p
    case Arrived => true
    case Rejected(status) =>
      if request.Prepared? then status == 409 else status == if request.Malformed? then 400 else 422
    case Guarded(done) => request.Prepared? && done <= request.job.printCount
    case Executing(done) => request.Prepared? && done < request.job.printCount
    case Leaving(done, o) =>
      request.Prepared? && if o == Printed then done == request.job.printCount else done < request.job.printCount
    case Answered(done, o) =>
      request.Prepared? && if o == Printed then done == request.job.printCount else done < request.job.printCount
  }

  predicate InBounds(order: seq<nat>, n: nat) {
    forall i :: 0 <= i < |order| ==> order[i] < n
  }

  /** The log entries of the handlers in `order`, one block after another. */
  function Blocks(phases: seq<Phase>, order: seq<nat>): seq<Entry>
    requires InBounds(order, |phases|)
  {
    if order == [] then []
    else
      var h := order[|order| - 1];
      Blocks(phases, order[..|order| - 1]) + Own(h, phases[h])
  }

  predicate Admitted(p: Phase) {
    Live(p) || p.Answered?
  }

  predicate PhasesFit(requests: seq<Request>, phases: seq<Phase>) {
    |phases| == |requests| && forall h :: 0 <= h < |requests| ==> Fits(requests[h], phases[h])
  }

  /** `order` lists each admitted handler once, and only the last may be live. */
  predicate Orders(phases: seq<Phase>, order: seq<nat>) {
    && InBounds(order, |phases|)
    && (forall h :: 0 <= h < |phases| ==> (Admitted(phases[h]) <==> h in order))
    && (forall i, j :: 0 <= i < j < |order| ==> order[i] != order[j])
    && (forall i :: 0 <= i < |order| - 1 ==> !Live(phases[order[i]]))
  }

  /** What the shared state shows: the job of the live handler, or idle. */
  function Shown(requests: seq<Request>, phases: seq<Phase>, order: seq<nat>): Activity
    requires PhasesFit(requests, phases) && Orders(phases, order)
  {
    if order != [] && Live(phases[order[|order| - 1]]) then PrintingJob(requests[order[|order| - 1]].job) else Idle()
  }

  predicate Invariant(requests: seq<Request>, s: Server) {
    && PhasesFit(requests, s.phases)
    && Orders(s.phases, s.admitted)
    && s.log == Blocks(s.phases, s.admitted)
    && s.activity == Shown(requests, s.phases, s.admitted)
  }

  lemma {:induction false} BlocksIgnoreOthers(phases: seq<Phase>, order: seq<nat>, h: nat, p: Phase)
    requires InBounds(order, |phases|) && h < |phases| && h !in order
    ensures Blocks(phases[h := p], order) == Blocks(phases, order)
  {
    if order != [] {
      BlocksIgnoreOthers(phases, order[..|order| - 1], h, p);
    }
  }

  lemma BlocksSnoc(phases: seq<Phase>, order: seq<nat>, h: nat)
    requires InBounds(order, |phases|) && h < |phases|
    ensures Blocks(phases, order + [h]) == Blocks(phases, order) + Own(h, phases[h])
  {
    assert (order + [h])[..|order|] == order;
  }

  /** The live handler is the one admitted last. */
  lemma LiveIsLast(phases: seq<Phase>, order: seq<nat>, h: nat)
    requires Orders(phases, order) && h < |phases| && Live(phases[h])
    ensures order != [] && h == order[|order| - 1]
    ensures order == order[..|order| - 1] + [h] && h !in order[..|order| - 1]
  {
    var i :| 0 <= i < |order| && order[i] == h;
    assert i == |order| - 1;
    assert forall k :: 0 <= k < |order| - 1 ==> order[k] != h;
  }

  /** When the live handler moves on, only its own block at the end of the log grows. */
  lemma LiveMoves(phases: seq<Phase>, order: seq<nat>, h: nat, p: Phase, added: seq<Entry>)
    requires Orders(phases, order) && h < |phases| && Live(phases[h])
    requires Own(h, p) == Own(h, phases[h]) + added
    ensures Blocks(phases[h := p], order) == Blocks(phases, order) + added
  {
    LiveIsLast(phases, order, h);
    var before := order[..|order| - 1];
    BlocksIgnoreOthers(phases, before, h, p);
    BlocksSnoc(phases, before, h);
    BlocksSnoc(phases[h := p], before, h);
    Assoc(Blocks(phases, before), Own(h, phases[h]), added);
  }

  lemma OrdersAfterRefusal(phases: seq<Phase>, order: seq<nat>, h: nat, status: nat)
    requires Orders(phases, order) && h < |phases| && phases[h].Arrived?
    ensures h !in order && Orders(phases[h := Rejected(status)], order)
  {
    assert h !in order;
    forall i | 0 <= i < |order| ensures order[i] != h {
      assert order[i] in order;
    }
  }

  lemma OrdersAfterAdmission(phases: seq<Phase>, order: seq<nat>, h: nat)
    requires Orders(phases, order) && h < |phases| && phases[h].Arrived?
    requires order != [] ==> !Live(phases[order[|order| - 1]])
    ensures h !in order && Orders(phases[h := Guarded(0)], order + [h])
  {
    assert h !in order;
    forall i | 0 <= i < |order| ensures order[i] != h && !Live(phases[order[i]]) {
      assert order[i] in order;
    }
    assert forall g :: g in order + [h] <==> g in order || g == h;
  }

  lemma OrdersAfterMove(phases: seq<Phase>, order: seq<nat>, h: nat, p: Phase)
    requires Orders(phases, order) && h < |phases| && Live(phases[h]) && Admitted(p)
    ensures Orders(phases[h := p], order)
  {
    LiveIsLast(phases, order, h);
    forall i | 0 <= i < |order| - 1 ensures order[i] != h && !Live(phases[h := p][order[i]]) {
      assert order[i] != order[|order| - 1];
    }
  }

  lemma RefusalKeeps(requests: seq<Request>, s: Server, h: nat, status: nat)
    requires Invariant(requests, s) && h < |requests| && s.phases[h].Arrived? && Fits(requests[h], Rejected(status))
    ensures Invariant(requests, s.(phases := s.phases[h := Rejected(status)]))
  {
    OrdersAfterRefusal(s.phases, s.admitted, h, status);
    BlocksIgnoreOthers(s.phases, s.admitted, h, Rejected(status));
    assert s.admitted != [] ==> s.admitted[|s.admitted| - 1] in s.admitted;
  }

  lemma AdmissionLogs(phases: seq<Phase>, order: seq<nat>, h: nat)
    requires InBounds(order, |phases|) && h < |phases| && h !in order
    ensures InBounds(order + [h], |phases|)
    ensures Blocks(phases[h := Guarded(0)], order + [h]) == Blocks(phases, order)
  {
    BlocksIgnoreOthers(phases, order, h, Guarded(0));
    BlocksSnoc(phases[h := Guarded(0)], order, h);
    assert Own(h, Guarded(0)) == [];
  }

  lemma IdleMeansNoneLive(requests: seq<Request>, s: Server)
    requires Invariant(requests, s) && !s.activity.busy
    ensures s.admitted != [] ==> !Live(s.phases[s.admitted[|s.admitted| - 1]])
    ensures s.activity == Idle()
  {
  }

  lemma AdmissionKeeps(requests: seq<Request>, s: Server, h: nat)
    requires Invariant(requests, s) && h < |requests| && s.phases[h].Arrived?
    requires requests[h].Prepared? && !s.activity.busy
    ensures Invariant(requests, Server(PrintingJob(requests[h].job),
                                       s.phases[h := Guarded(0)], s.log, s.admitted + [h]))
  {
    IdleMeansNoneLive(requests, s);
    OrdersAfterAdmission(s.phases, s.admitted, h);
    AdmissionLogs(s.phases, s.admitted, h);
    var phases, order := s.phases[h := Guarded(0)], s.admitted + [h];
    assert PhasesFit(requests, phases);
    assert order[|order| - 1] == h && Live(phases[h]);
  }

  /** A step of the handler that holds the guard keeps the invariant. */
  lemma LiveStepKeeps(requests: seq<Request>, s: Server, h: nat, p: Phase, added: seq<Entry>)
    requires Invariant(requests, s) && h < |requests| && Live(s.phases[h])
    requires Fits(requests[h], p) && Admitted(p) && Own(h, p) == Own(h, s.phases[h]) + added
    ensures Invariant(requests, Server(if Live(p) then s.activity else Idle(),
                                       s.phases[h := p], s.log + added, s.admitted))
  {
    LiveIsLast(s.phases, s.admitted, h);
    OrdersAfterMove(s.phases, s.admitted, h, p);
    LiveMoves(s.phases, s.admitted, h, p, added);
  }

  /** What such a step makes of the handler's own phase and block. */
  lemma LiveStepFits(request: Request, h: nat, p: Phase, busy: bool, step: Step)
    requires Live(p) && Fits(request, p) && step.h == h
    requires match step
      case BeginCall(_) => p.Guarded? && p.done < request.job.printCount
      case EndCall(_, _) => p.Executing?
      case Finish(_) => p.Guarded? && p.done >= request.job.printCount
      case DropGuard(_) => p.Leaving?
      case _ => false
    ensures var next := NextPhase(request, busy, p, step);
      && Fits(request, next) && Admitted(next)
      && (Live(next) <==> !step.DropGuard?)
      && Own(h, next) == Own(h, p) + Logged(step)
  {
    var s := Successes(h, p.done);
    match step
    case EndCall(_, o) => assert s + [Begin(h)] + [End(h, o)] == s + [Begin(h), End(h, o)];
    case Finish(_) => assert s + [] == s;
    case _ =>
  }

  lemma StepKeeps(requests: seq<Request>, s: Server, step: Step)
    requires Invariant(requests, s) && Enabled(requests, s, step)
    ensures Invariant(requests, Apply(requests, s, step))
  {
    var h := step.h;
    if step.Refuse? || step.TryStart? {
      assert s.log + [] == s.log;
      if step.TryStart? && !s.activity.busy {
        AdmissionKeeps(requests, s, h);
      } else {
        RefusalKeeps(requests, s, h, NextPhase(requests[h], s.activity.busy, s.phases[h], step).status);
      }
    } else {
      LiveStepFits(requests[h], h, s.phases[h], s.activity.busy, step);
      LiveStepKeeps(requests, s, h, NextPhase(requests[h], s.activity.busy, s.phases[h], step), Logged(step));
    }
  }

  lemma StartHolds(requests: seq<Request>)
    ensures Invariant(requests, Start(requests))
  {
  }

  lemma {:induction false} RunKeeps(requests: seq<Request>, run: seq<Server>, n: nat)
    requires IsRun(requests, run) && n < |run|
    ensures Invariant(requests, run[n])
  {
    if n == 0 {
      StartHolds(requests);
    } else {
      RunKeeps(requests, run, n - 1);
      assert Follows(requests, run[n - 1], run[n - 1 + 1]);
      var step :| Enabled(requests, run[n - 1], step) && run[n] == Apply(requests, run[n - 1], step);
      StepKeeps(requests, run[n - 1], step);
    }
  }

  /* ----- the guarantees ----- */

  ghost predicate SomeLive(s: Server) {
    exists h :: 0 <= h < |s.phases| && Live(s.phases[h])
  }

  /** In every state of every interleaving the server is busy exactly when a guard
      is live, at most one is, it shows that handler's job, and without one it is idle. */
  lemma BusyIffOneGuard(requests: seq<Request>, run: seq<Server>, n: nat)
    requires IsRun(requests, run) && n < |run|
    ensures var s := run[n];
      && (s.activity.busy <==> SomeLive(s))
      && (!SomeLive(s) ==> s.activity == Idle())
      && (forall h, g ::
            0 <= h < |s.phases| && 0 <= g < |s.phases| && Live(s.phases[h]) && Live(s.phases[g]) ==> h == g)
      && |s.phases| == |requests|
      && (forall h :: 0 <= h < |s.phases| && Live(s.phases[h]) ==>
            requests[h].Prepared? && Shows(s.activity, requests[h].job))
      && (s.activity.busy || Quiet(s.activity))
  {
    RunKeeps(requests, run, n);
    var s := run[n];
    forall h | 0 <= h < |s.phases| && Live(s.phases[h]) ensures s.admitted != [] && h == s.admitted[|s.admitted| - 1] {
      LiveIsLast(s.phases, s.admitted, h);
    }
  }

  /** In every state of every interleaving the executor's log is one block per
      admitted handler, in the order of admission, every block but that of the live
      guard being a whole job; handlers answered 400, 409 or 422 have no part in it. */
  lemma LogIsJobBlocks(requests: seq<Request>, run: seq<Server>, n: nat)
    requires IsRun(requests, run) && n < |run|
    ensures var s := run[n];
      && |s.phases| == |requests| && InBounds(s.admitted, |requests|)
      && (forall i, j :: 0 <= i < j < |s.admitted| ==> s.admitted[i] != s.admitted[j])
      && s.log == Blocks(s.phases, s.admitted)
      && (forall i :: 0 <= i < |s.admitted| - 1 ==> s.phases[s.admitted[i]].Answered?)
      && (forall h :: 0 <= h < |requests| ==> HandlerBlock(requests[h], h, s.phases[h], h in s.admitted))
  {
    RunKeeps(requests, run, n);
    var s := run[n];
    forall i | 0 <= i < |s.admitted| - 1 ensures s.phases[s.admitted[i]].Answered? {
      assert s.admitted[i] in s.admitted;
    }
    forall h | 0 <= h < |requests| ensures HandlerBlock(requests[h], h, s.phases[h], h in s.admitted) {
      if s.phases[h].Answered? {
        AnsweredIsWhole(requests[h], h, s.phases[h]);
      }
    }
  }

  /** An answered handler that was admitted has logged a whole job with its
      status; a rejected one was not admitted, for the reason its status gives. */
  ghost predicate HandlerBlock(request: Request, h: nat, p: Phase, admitted: bool) {
    && (p.Answered? ==>
          && admitted && request.Prepared?
          && IsJobBlock(Own(h, p), h, request.job.printCount, StatusOf(p.outcome)))
    && (p.Rejected? ==>
          !admitted && p.status == if request.Malformed? then 400 else if request.Unprepared? then 422 else 409)
    && (p.Arrived? ==> !admitted)
  }

  lemma AnsweredIsWhole(request: Request, h: nat, p: Phase)
    requires p.Answered? && Fits(request, p)
    ensures IsJobBlock(Own(h, p), h, request.job.printCount, StatusOf(p.outcome))
  {
    if p.outcome == Printed {
      assert Successes(h, p.done) + [] == Successes(h, p.done);
    }
  }

  /** Work a handler still has before it has dropped its guard. */
  function Remaining(request: Request, p: Phase): nat
    requires Fits(request, p)
  {
    match p
    case Guarded(done) => 2 * (request.job.printCount - done) + 2
    case Executing(done) => 2 * (request.job.printCount - done) + 1
    case Leaving(_, _) => 1
    case _ => 0
  }

  /** A step the handler with the guard can always take. */
  function OwnStep(request: Request, h: nat, p: Phase): Step
    requires Fits(request, p) && Live(p)
  {
    match p
    case Guarded(done) => if done < request.job.printCount then BeginCall(h) else Finish(h)
    case Executing(_) => EndCall(h, Printed)
    case Leaving(_, _) => DropGuard(h)
  }

  /** No guard is stuck: its handler always has a step of its own, and every such
      step brings it nearer to dropping the guard. */
  lemma GuardGetsDropped(requests: seq<Request>, s: Server, h: nat, step: Step)
    requires Invariant(requests, s) && h < |requests| && Live(s.phases[h])
    ensures Enabled(requests, s, OwnStep(requests[h], h, s.phases[h]))
    ensures step.h == h && Enabled(requests, s, step) ==>
      var t := Apply(requests, s, step);
      Fits(requests[h], t.phases[h]) && Remaining(requests[h], t.phases[h]) < Remaining(requests[h], s.phases[h])
  {
  }
}
