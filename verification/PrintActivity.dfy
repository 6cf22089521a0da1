/** One print job at a time (src/service/print_activity.rs and the guarded part
    of driver_print_response in src/service/http.rs). */
module PrintActivity {
  import opened Text

  datatype Activity = Activity(busy: bool, status: string, caption: string, detail: string,
                               epc: string, itemCode: string, itemName: string, printer: string)

  function Idle(): Activity {
    Activity(false, "idle", "Bo'sh", "", "", "", "", "")
  }

  /** How many copies a job makes: a requested count of zero has become one. */
  type PrintCount = n: nat | n >= 1 witness 1

  datatype Job = Job(epc: string, itemCode: string, itemName: string, printer: string, printCount: PrintCount)

  function PrintingJob(job: Job): Activity {
    Activity(true, "printing", "Band", "Printer server boshqa mobile print so'rovi bilan band.",
             job.epc, job.itemCode, job.itemName, job.printer)
  }

  /** Nothing is being printed. */
  predicate Quiet(a: Activity) {
    && !a.busy && a.status == "idle" && a.caption == "Bo'sh" && a.detail == ""
    && a.epc == "" && a.itemCode == "" && a.itemName == "" && a.printer == ""
  }

  /** A job is being printed, and it is this one. */
  predicate Shows(a: Activity, job: Job) {
    && a.busy && a.status == "printing" && a.caption == "Band"
    && a.epc == job.epc && a.itemCode == job.itemCode && a.itemName == job.itemName && a.printer == job.printer
  }

  /** What the checks before the guard make of a request body. */
  datatype Request = Malformed | Unprepared | Prepared(job: Job)

  /** How one call of the executor can end. */
  datatype Outcome = Printed | Unavailable | Failed

  function StatusOf(o: Outcome): nat {
    match o
    case Printed => 200
    case Unavailable => 503
    case Failed => 500
  }

  /** An executor call begins and ends; the device is busy in between. */
  datatype Entry = Begin(handler: nat) | End(handler: nat, outcome: Outcome)

  class PrintActivityState {
    var snapshot: Activity

    constructor ()
      ensures snapshot == Idle() && Quiet(snapshot)
    {
      snapshot := Idle();
    }

    /** Takes the guard, or reports who holds it. */
    method TryStart(job: Job) returns (r: Result<(), Activity>)
      modifies this
      ensures old(snapshot).busy ==> r == Err(old(snapshot)) && snapshot == old(snapshot)
      ensures !old(snapshot).busy ==> r == Ok(()) && snapshot == PrintingJob(job) && Shows(snapshot, job)
    {
      if snapshot.busy {
        return Err(snapshot);
      }
      snapshot := PrintingJob(job);
      return Ok(());
    }

    /** Dropping the guard. */
    method Clear()
      modifies this
      ensures snapshot == Idle() && Quiet(snapshot)
    {
      snapshot := Idle();
    }
  }

  /** The executor behind its lock, as the record of its calls and of the texts it reported. */
  class Executor {
    var log: seq<Entry>
    var reports: seq<string>

    method Execute(handler: nat) returns (o: Outcome, report: string)
      modifies this
      ensures log == old(log) + [Begin(handler), End(handler, o)]
      ensures reports == old(reports) + [report]
    {
      o, report := *, *;
      log := log + [Begin(handler), End(handler, o)];
      reports := reports + [report];
    }
  }

  /** `n` successful calls of one handler. */
  function Successes(handler: nat, n: nat): seq<Entry> {
    if n == 0 then [] else Successes(handler, n - 1) + [Begin(handler), End(handler, Printed)]
  }

  /** A whole job: all its calls succeed, or some do and the next one fails. */
  predicate IsJobBlock(block: seq<Entry>, handler: nat, printCount: nat, status: nat) {
    || (status == 200 && block == Successes(handler, printCount))
    || (exists n, o {:trigger Successes(handler, n), StatusOf(o)} :: 0 <= n < printCount && o in {Unavailable, Failed}
          && status == StatusOf(o) && block == Successes(handler, n) + [Begin(handler), End(handler, o)])
  }

  /** One request handled with no other in between. `lastStatus` is the text of the
      last copy, which a finished job is answered with. */
  method DriverPrintResponse(state: PrintActivityState, executor: Executor, request: Request, handler: nat)
    returns (status: nat, lastStatus: string)
    modifies state, executor
    ensures request == Malformed ==> status == 400
    ensures request == Unprepared ==> status == 422
    ensures request.Prepared? && old(state.snapshot).busy ==> status == 409
    ensures !request.Prepared? || old(state.snapshot).busy ==>
      && state.snapshot == old(state.snapshot)
      && executor.log == old(executor.log) && executor.reports == old(executor.reports)
    ensures request.Prepared? && !old(state.snapshot).busy ==>
      && state.snapshot == Idle()
      && old(executor.log) <= executor.log
      && IsJobBlock(executor.log[|old(executor.log)|..], handler, request.job.printCount, status)
    ensures request.Prepared? && !old(state.snapshot).busy ==>
      && |executor.log| > |old(executor.log)|
      && match executor.log[|executor.log| - 1]
         case Begin(_) => false
         case End(h, o) =>
           h == handler && status == match o
             case Printed => 200
             case Unavailable => 503
             case Failed => 500
    ensures status == 200 ==> executor.reports != [] && lastStatus == executor.reports[|executor.reports| - 1]
  {
    match request {
      case Malformed => return 400, "";
      case Unprepared => return 422, "";
      case Prepared(job) =>
        var guard := state.TryStart(job);
        if guard.Err? {
          return 409, "";
        }
        ghost var before := executor.log;
        lastStatus := "";
        for n := 0 to job.printCount
          invariant executor.log == before + Successes(handler, n)
          invariant n > 0 ==> executor.reports != [] && lastStatus == executor.reports[|executor.reports| - 1]
        {
          var o, report := executor.Execute(handler);
          if o != Printed {
            state.Clear();
            assert executor.log[|before|..] == Successes(handler, n) + [Begin(handler), End(handler, o)];
            assert StatusOf(o) == StatusOf(o);
            return StatusOf(o), "";
          }
          lastStatus := report;
          Assoc(before, Successes(handler, n), [Begin(handler), End(handler, Printed)]);
        }
        state.Clear();
        status := 200;
    }
  }
}
