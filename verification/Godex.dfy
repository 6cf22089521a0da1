/** Sending a label to a GoDEX printer (src/print/godex/executor.rs and the file
    transport of src/service/driver_print_runtime.rs). Device data is text whose
    characters stand for bytes. */
module Godex {
  import opened Text

  datatype PackRender = PackRender(
    commands: seq<string>, textName: string, textBmp: string, qrName: string, qrBmp: string)

  /** One use of the transport; a failure of a tolerated one is ignored. */
  datatype Call = Send(command: string, read: bool, tolerated: bool) | Raw(payload: string)

  /** Which part of the sequence failed; print commands count from one. */
  datatype ExecutionError = DisableBuzzer | DownloadText | DownloadQr | PrintCommand(number: nat) | FinalStatus

  /* ----- bytes on the wire ----- */

  predicate IsLineEnd(c: char) {
    c == '\r' || c == '\n'
  }

  function TrimEnd(s: string): string {
    if s != "" && IsLineEnd(s[|s| - 1]) then TrimEnd(s[..|s| - 1]) else s
  }

  function EncodeCommand(command: string): string {
    TrimEnd(command) + "\r\n"
  }

  function Encode(c: Call): string {
    match c
    case Send(command, _, _) => EncodeCommand(command)
    case Raw(payload) => payload
  }

  function Wire(calls: seq<Call>): string {
    if calls == [] then "" else Encode(calls[0]) + Wire(calls[1..])
  }

  lemma {:induction false} WireAppend(a: seq<Call>, b: seq<Call>)
    ensures Wire(a + b) == Wire(a) + Wire(b)
  {
    if a == [] {
      assert a + b == b;
    } else {
      assert (a + b)[0] == a[0] && (a + b)[1..] == a[1..] + b;
      WireAppend(a[1..], b);
      Assoc(Encode(a[0]), Wire(a[1..]), Wire(b));
    }
  }

  lemma WireOne(c: Call)
    ensures Wire([c]) == Encode(c)
  {
    assert [c][1..] == [];
    assert Wire([c]) == Encode(c) + "";
  }

  /* ----- the sequence of calls ----- */

  function Announcement(name: string, size: nat): string {
    "~EB," + name + "," + Decimal(size)
  }

  function Download(name: string, graphic: string): seq<Call> {
    if name == "" || graphic == "" then []
    else [Send("~MDELG," + name, false, true), Send(Announcement(name, |graphic|), false, false), Raw(graphic)]
  }

  function Prints(commands: seq<string>): (calls: seq<Call>)
    ensures |calls| == |commands| && forall i :: 0 <= i < |calls| ==> calls[i] == Send(commands[i], false, false)
  {
    seq(|commands|, i requires 0 <= i < |commands| => Send(commands[i], false, false))
  }

  const BUZZER_OFF := Send("^XSET,BUZZER,0", false, false)
  const STATUS := Send("~S,STATUS", true, false)

  function AllCalls(render: PackRender): seq<Call> {
    [BUZZER_OFF] + Download(render.textName, render.textBmp) + Download(render.qrName, render.qrBmp)
    + Prints(render.commands) + [STATUS]
  }

  /** The part of the sequence a call belongs to. */
  function Blame(render: PackRender, i: nat): ExecutionError {
    var a := 1 + |Download(render.textName, render.textBmp)|;
    var b := a + |Download(render.qrName, render.qrBmp)|;
    if i == 0 then DisableBuzzer
    else if i < a then DownloadText
    else if i < b then DownloadQr
    else if i < b + |render.commands| then PrintCommand(i - b + 1)
    else FinalStatus
  }

  /* ----- running a sequence over a transport that may fail ----- */

  function Tolerated(c: Call): bool {
    c.Send? && c.tolerated
  }

  predicate AllWell(calls: seq<Call>, results: seq<bool>) {
    |calls| == |results| && forall i :: 0 <= i < |calls| ==> results[i] || Tolerated(calls[i])
  }

  /** `made` with `results` is a run of `plan`: all of it when it went well, else
      up to and with the first failure that is not tolerated. */
  predicate RunOf(plan: seq<Call>, made: seq<Call>, results: seq<bool>, ok: bool) {
    if ok then made == plan && AllWell(made, results)
    else
      && 0 < |made| == |results| && made <= plan
      && AllWell(made[..|made| - 1], results[..|made| - 1])
      && !results[|made| - 1] && !Tolerated(made[|made| - 1])
  }

  lemma RunThenRun(p: seq<Call>, m: seq<Call>, r: seq<bool>, q: seq<Call>, n: seq<Call>, s: seq<bool>, ok: bool)
    requires RunOf(p, m, r, true) && RunOf(q, n, s, ok)
    ensures RunOf(p + q, m + n, r + s, ok)
  {
    if !ok {
      assert (m + n)[..|m + n| - 1] == m + n[..|n| - 1];
      assert (r + s)[..|m + n| - 1] == r + s[..|n| - 1];
    }
  }

  lemma RunStops(p: seq<Call>, m: seq<Call>, r: seq<bool>, q: seq<Call>)
    requires RunOf(p, m, r, false)
    ensures RunOf(p + q, m, r, false)
  {
  }

  /** What a call puts on the device: all its bytes when it succeeds, else only a front part of them. */
  predicate Arrives(c: Call, done: bool, bytes: string) {
    bytes <= Encode(c) && (done ==> bytes == Encode(c))
  }

  predicate Delivered(calls: seq<Call>, results: seq<bool>, writes: seq<string>) {
    |calls| == |results| == |writes| && forall i :: 0 <= i < |calls| ==> Arrives(calls[i], results[i], writes[i])
  }

  /** What a transport had done at some moment, call by call. */
  datatype Mark = Mark(calls: seq<Call>, results: seq<bool>, writes: seq<string>)

  /** A device reached through calls that may fail, leaving part of their bytes behind. */
  class Transport {
    var calls: seq<Call>
    var results: seq<bool>
    var writes: seq<string>

    function Now(): Mark
      reads this
    {
      Mark(calls, results, writes)
    }

    /** All the bytes the device has received. */
    function Device(): string
      reads this
    {
      Concat(writes)
    }

    method Perform(c: Call) returns (ok: bool, bytes: string)
      modifies this
      ensures calls == old(calls) + [c] && results == old(results) + [ok] && writes == old(writes) + [bytes]
      ensures Arrives(c, ok, bytes) && Device() == old(Device()) + bytes
    {
      ok := *;
      var k: nat := |Encode(c)|;
      if !ok {
        k := *;
        k := if k > |Encode(c)| then |Encode(c)| else k;
      }
      assert Encode(c)[..|Encode(c)|] == Encode(c);
      bytes := Encode(c)[..k];
      ConcatSnoc(writes, bytes);
      calls, results, writes := calls + [c], results + [ok], writes + [bytes];
    }

    /** Call `k` of a plan whose first `k` calls have gone well. */
    method Next(c: Call, ghost from: Mark, ghost plan: seq<Call>, ghost k: nat) returns (ok: bool)
      requires k < |plan| && plan[k] == c && Ran(from, Now(), plan[..k], true)
      modifies this
      ensures ok ==> Ran(from, Now(), plan[..k + 1], true)
      ensures !ok ==> Ran(from, Now(), plan, false) && |calls| == |from.calls| + k + 1
    {
      var done, bytes := Perform(c);
      ok := done || Tolerated(c);
      RanNext(from, old(Now()), Now(), plan, k, done, bytes);
    }
  }

  /** Between two moments a transport has run `plan`, and the device has received
      what each of its calls delivered. */
  predicate Ran(from: Mark, to: Mark, plan: seq<Call>, ok: bool) {
    && from.calls <= to.calls && from.results <= to.results && from.writes <= to.writes
    && RunOf(plan, to.calls[|from.calls|..], to.results[|from.results|..], ok)
    && Delivered(to.calls[|from.calls|..], to.results[|from.results|..], to.writes[|from.writes|..])
  }

  lemma RanNothing(m: Mark, plan: seq<Call>)
    ensures Ran(m, m, plan[..0], true)
  {
  }

  lemma Longer<T>(from: seq<T>, mid: seq<T>, x: T)
    requires from <= mid
    ensures from <= mid + [x] && (mid + [x])[|from|..] == mid[|from|..] + [x]
  {
  }

  lemma DeliveredOneMore(calls: seq<Call>, results: seq<bool>, writes: seq<string>, c: Call, done: bool, bytes: string)
    requires Delivered(calls, results, writes) && Arrives(c, done, bytes)
    ensures Delivered(calls + [c], results + [done], writes + [bytes])
  {
  }

  lemma RanOneMore(from: Mark, mid: Mark, to: Mark, plan: seq<Call>, c: Call, done: bool, bytes: string)
    requires Ran(from, mid, plan, true) && Arrives(c, done, bytes)
    requires to == Mark(mid.calls + [c], mid.results + [done], mid.writes + [bytes])
    ensures Ran(from, to, plan + [c], done || Tolerated(c))
  {
    var made, results, writes := mid.calls[|from.calls|..], mid.results[|from.results|..], mid.writes[|from.writes|..];
    Longer(from.calls, mid.calls, c);
    Longer(from.results, mid.results, done);
    Longer(from.writes, mid.writes, bytes);
    RunThenRun(plan, made, results, [c], [c], [done], done || Tolerated(c));
    DeliveredOneMore(made, results, writes, c, done, bytes);
  }

  /** A run that has stopped is a stopped run of any longer plan. */
  lemma RanStops(from: Mark, to: Mark, plan: seq<Call>, rest: seq<Call>)
    requires Ran(from, to, plan, false)
    ensures Ran(from, to, plan + rest, false)
  {
    RunStops(plan, to.calls[|from.calls|..], to.results[|from.results|..], rest);
  }

  /** Call `k` of a plan keeps the run going, or stops it. */
  lemma RanNext(from: Mark, mid: Mark, to: Mark, plan: seq<Call>, k: nat, done: bool, bytes: string)
    requires k < |plan| && Ran(from, mid, plan[..k], true) && Arrives(plan[k], done, bytes)
    requires to == Mark(mid.calls + [plan[k]], mid.results + [done], mid.writes + [bytes])
    ensures |to.calls| == |from.calls| + k + 1
    ensures if done || Tolerated(plan[k]) then Ran(from, to, plan[..k + 1], true) else Ran(from, to, plan, false)
  {
    RanOneMore(from, mid, to, plan[..k], plan[k], done, bytes);
    assert plan[..k] + [plan[k]] == plan[..k + 1];
    if !(done || Tolerated(plan[k])) {
      RanStops(from, to, plan[..k + 1], plan[k + 1..]);
      assert plan[..k + 1] + plan[k + 1..] == plan;
    }
  }

  /** Where the parts of the sequence stand. */
  predicate Parts(plan: seq<Call>, text: seq<Call>, qr: seq<Call>, commands: seq<string>) {
    var a, b := 1 + |text|, 1 + |text| + |qr|;
    && |plan| == b + |commands| + 1
    && plan[0] == BUZZER_OFF && plan[1..a] == text && plan[a..b] == qr
    && (forall i :: 0 <= i < |commands| ==> plan[b + i] == Send(commands[i], false, false))
    && plan[b + |commands|] == STATUS
  }

  lemma PartsOf(first: Call, text: seq<Call>, qr: seq<Call>, commands: seq<string>, last: Call)
    requires first == BUZZER_OFF && last == STATUS
    ensures Parts([first] + text + qr + Prints(commands) + [last], text, qr, commands)
  {
  }

  /** Deletes the old graphic, announces the new one and writes it, unless it is empty. */
  method DownloadGraphic(t: Transport, name: string, graphic: string,
                         ghost from: Mark, ghost plan: seq<Call>, ghost k: nat)
    returns (ok: bool)
    requires k + |Download(name, graphic)| <= |plan|
    requires plan[k..k + |Download(name, graphic)|] == Download(name, graphic)
    requires Ran(from, t.Now(), plan[..k], true)
    modifies t
    ensures ok ==> Ran(from, t.Now(), plan[..k + |Download(name, graphic)|], true)
    ensures !ok ==> Ran(from, t.Now(), plan, false)
    ensures !ok ==> k <= |t.calls| - |from.calls| - 1 < k + |Download(name, graphic)|
  {
    if name == "" || graphic == "" {
      return true;
    }
    ghost var d := plan[k..k + 3];
    assert plan[k] == d[0] && plan[k + 1] == d[1] && plan[k + 2] == d[2];
    ok := t.Next(Send("~MDELG," + name, false, true), from, plan, k);
    if ok {
      ok := t.Next(Send(Announcement(name, |graphic|), false, false), from, plan, k + 1);
    }
    if ok {
      ok := t.Next(Raw(graphic), from, plan, k + 2);
    }
  }

  /** The calls made are the whole sequence or end with its first failure that
      counts; the result is Ok exactly when there is none, and else names its part. */
  method ExecutePackRender(t: Transport, render: PackRender) returns (r: Result<string, ExecutionError>)
    modifies t
    ensures Ran(old(t.Now()), t.Now(), AllCalls(render), r.Ok?) && (r.Ok? ==> r.value == "sent")
    ensures r.Err? ==> |old(t.calls)| < |t.calls| && r.error == Blame(render, |t.calls| - |old(t.calls)| - 1)
  {
    ghost var text, qr := Download(render.textName, render.textBmp), Download(render.qrName, render.qrBmp);
    PartsOf(BUZZER_OFF, text, qr, render.commands, STATUS);
    r := RunPlan(t, render, AllCalls(render));
  }

  method RunPlan(t: Transport, render: PackRender, ghost plan: seq<Call>) returns (r: Result<string, ExecutionError>)
    requires Parts(plan, Download(render.textName, render.textBmp), Download(render.qrName, render.qrBmp),
                   render.commands)
    modifies t
    ensures Ran(old(t.Now()), t.Now(), plan, r.Ok?) && (r.Ok? ==> r.value == "sent")
    ensures r.Err? ==> |old(t.calls)| < |t.calls| && r.error == Blame(render, |t.calls| - |old(t.calls)| - 1)
  {
    ghost var from := t.Now();
    ghost var a := 1 + |Download(render.textName, render.textBmp)|;
    ghost var b := a + |Download(render.qrName, render.qrBmp)|;
    var failed := Prepare(t, render, plan, a, b);
    if failed.Some? {
      return Err(failed.value);
    }
    r := PrintAndCheck(t, render.commands, from, plan, b);
  }

  /** The print commands and the final status query. */
  method PrintAndCheck(t: Transport, commands: seq<string>, ghost from: Mark, ghost plan: seq<Call>, ghost k: nat)
    returns (r: Result<string, ExecutionError>)
    requires k + |commands| + 1 == |plan| && Ran(from, t.Now(), plan[..k], true)
    requires forall i :: 0 <= i < |commands| ==> plan[k + i] == Send(commands[i], false, false)
    requires plan[k + |commands|] == STATUS
    modifies t
    ensures Ran(from, t.Now(), plan, r.Ok?) && (r.Ok? ==> r.value == "sent")
    ensures r.Err? ==>
      var i := |t.calls| - |from.calls| - 1 - k;
      0 <= i && r.error == if i < |commands| then PrintCommand(i + 1) else FinalStatus
  {
    var ok, sent := SendCommands(t, commands, from, plan, k);
    if !ok {
      return Err(PrintCommand(sent + 1));
    }
    ok := t.Next(STATUS, from, plan, k + |commands|);
    if !ok {
      return Err(FinalStatus);
    }
    assert plan[..k + |commands| + 1] == plan;
    return Ok("sent");
  }

  /** The buzzer command and both graphics: the first `b` calls of the plan. */
  method Prepare(t: Transport, render: PackRender, ghost plan: seq<Call>, ghost a: nat, ghost b: nat)
    returns (failed: Option<ExecutionError>)
    requires a == 1 + |Download(render.textName, render.textBmp)| && b == a + |Download(render.qrName, render.qrBmp)|
    requires b <= |plan| && plan[0] == BUZZER_OFF
    requires plan[1..a] == Download(render.textName, render.textBmp)
    requires plan[a..b] == Download(render.qrName, render.qrBmp)
    modifies t
    ensures failed.None? ==> Ran(old(t.Now()), t.Now(), plan[..b], true)
    ensures failed.Some? ==> Ran(old(t.Now()), t.Now(), plan, false)
    ensures failed.Some? ==>
      var i := |t.calls| - |old(t.calls)| - 1;
      0 <= i < b && failed.value == if i == 0 then DisableBuzzer else if i < a then DownloadText else DownloadQr
  {
    ghost var from := t.Now();
    RanNothing(from, plan);
    var ok := t.Next(BUZZER_OFF, from, plan, 0);
    if !ok {
      return Some(DisableBuzzer);
    }
    ok := DownloadGraphic(t, render.textName, render.textBmp, from, plan, 1);
    if !ok {
      return Some(DownloadText);
    }
    ok := DownloadGraphic(t, render.qrName, render.qrBmp, from, plan, a);
    return if ok then None else Some(DownloadQr);
  }

  /** The print commands, up to the first that fails. */
  method SendCommands(t: Transport, commands: seq<string>, ghost from: Mark, ghost plan: seq<Call>, ghost k: nat)
    returns (ok: bool, sent: nat)
    requires k + |commands| <= |plan| && Ran(from, t.Now(), plan[..k], true)
    requires forall i :: 0 <= i < |commands| ==> plan[k + i] == Send(commands[i], false, false)
    modifies t
    ensures ok ==> sent == |commands| && Ran(from, t.Now(), plan[..k + |commands|], true)
    ensures !ok ==> sent < |commands| && Ran(from, t.Now(), plan, false) && |t.calls| == |from.calls| + k + sent + 1
  {
    sent := 0;
    while sent < |commands|
      invariant sent <= |commands| && Ran(from, t.Now(), plan[..k + sent], true)
    {
      ok := t.Next(Send(commands[sent], false, false), from, plan, k + sent);
      if !ok {
        return;
      }
      sent := sent + 1;
    }
    ok := true;
  }

  /* ----- the printer's side ----- */

  /** What a reader of the stream finds: a command line, or announced data. */
  datatype Item = Line(text: string) | Data(bytes: string)

  predicate NotReturn(c: char) {
    c != '\r'
  }

  /** Where the text after the last comma begins; 0 without a comma. */
  function AfterLastComma(s: string): (k: nat)
    ensures k <= |s| && forall i :: k <= i < |s| ==> s[i] != ','
  {
    if s == "" then 0
    else if s[|s| - 1] == ',' then |s|
    else AfterLastComma(s[..|s| - 1])
  }

  /** The size a line announces, if it announces one. */
  function AnnouncedSize(line: string): Option<nat> {
    var digits := line[AfterLastComma(line)..];
    if "~EB," <= line && digits != "" && AllDigits(digits) then Some(DigitsValue(digits)) else None
  }

  /** Reads lines, and after a line that announces n bytes takes n bytes as they are. */
  function Receive(s: string): Option<seq<Item>>
    decreases |s|
  {
    if s == "" then Some([])
    else
      var end := RunEnd(s, 0, NotReturn);
      if end + 2 > |s| || s[end + 1] != '\n' then None
      else
        var line, rest := s[..end], s[end + 2..];
        match AnnouncedSize(line)
        case None => Prepend([Line(line)], Receive(rest))
        case Some(n) =>
          if n > |rest| then None
          else Prepend([Line(line), Data(rest[..n])], Receive(rest[n..]))
  }

  function Prepend(items: seq<Item>, r: Option<seq<Item>>): Option<seq<Item>> {
    if r.None? then None else Some(items + r.value)
  }

  function ItemOf(c: Call): Item {
    match c
    case Send(command, _, _) => Line(command)
    case Raw(payload) => Data(payload)
  }

  function Items(calls: seq<Call>): seq<Item> {
    seq(|calls|, i requires 0 <= i < |calls| => ItemOf(calls[i]))
  }

  predicate OneLine(command: string) {
    forall i :: 0 <= i < |command| ==> !IsLineEnd(command[i])
  }

  /** A command line ends at the first line end behind it. */
  lemma LineEndsAt(s: string, line: string, rest: string)
    requires OneLine(line) && s == line + "\r\n" + rest
    ensures |line| + 2 <= |s| && RunEnd(s, 0, NotReturn) == |line| && s[|line| + 1] == '\n'
    ensures s[..|line|] == line && s[|line| + 2..] == rest
  {
    RunEndIs(s, 0, |line|, NotReturn);
  }

  lemma ReceiveUnfold(s: string, end: nat)
    requires end + 2 <= |s| && RunEnd(s, 0, NotReturn) == end && s[end + 1] == '\n'
    ensures Receive(s)
         == match AnnouncedSize(s[..end])
            case None => Prepend([Line(s[..end])], Receive(s[end + 2..]))
            case Some(n) =>
              if n > |s[end + 2..]| then None
              else Prepend([Line(s[..end]), Data(s[end + 2..][..n])], Receive(s[end + 2..][n..]))
  {
  }

  lemma ReceiveSplit(s: string, line: string, rest: string)
    requires |line| + 2 <= |s| && RunEnd(s, 0, NotReturn) == |line| && s[|line| + 1] == '\n'
    requires s[..|line|] == line && s[|line| + 2..] == rest
    ensures Receive(s)
         == match AnnouncedSize(line)
            case None => Prepend([Line(line)], Receive(rest))
            case Some(n) => if n > |rest| then None else Prepend([Line(line), Data(rest[..n])], Receive(rest[n..]))
  {
    ReceiveUnfold(s, |line|);
  }

  lemma ReceiveLine(command: string, rest: string)
    requires OneLine(command)
    ensures Receive(EncodeCommand(command) + rest)
         == match AnnouncedSize(command)
            case None => Prepend([Line(command)], Receive(rest))
            case Some(n) => if n > |rest| then None else Prepend([Line(command), Data(rest[..n])], Receive(rest[n..]))
  {
    assert TrimEnd(command) == command;
    LineEndsAt(EncodeCommand(command) + rest, command, rest);
    ReceiveSplit(EncodeCommand(command) + rest, command, rest);
  }

  lemma {:induction false} CommaBefore(s: string, k: nat)
    requires 0 < k <= |s| && s[k - 1] == ',' && forall i :: k <= i < |s| ==> s[i] != ','
    ensures AfterLastComma(s) == k
    decreases |s|
  {
    if k < |s| {
      CommaBefore(s[..|s| - 1], k);
    }
  }

  lemma AnnouncementSize(name: string, size: nat)
    ensures AnnouncedSize(Announcement(name, size)) == Some(size)
  {
    var s, k := Announcement(name, size), |name| + 5;
    assert s[k..] == Decimal(size) && s[k - 1] == ',';
    forall i | k <= i < |s| ensures s[i] != ',' {
      assert s[i] == Decimal(size)[i - k];
    }
    CommaBefore(s, k);
    assert "~EB," <= s;
  }

  /** Single lines, each announcement followed by data of its size, data nowhere else. */
  predicate Readable(calls: seq<Call>)
    decreases |calls|
  {
    calls == [] ||
    (calls[0].Send? && OneLine(calls[0].command)
     && match AnnouncedSize(calls[0].command)
        case None => Readable(calls[1..])
        case Some(n) => |calls| >= 2 && calls[1].Raw? && |calls[1].payload| == n && Readable(calls[2..]))
  }

  lemma {:induction false} ReadableAppend(a: seq<Call>, b: seq<Call>)
    requires Readable(a) && Readable(b)
    ensures Readable(a + b)
    decreases |a|
  {
    if a == [] {
      assert a + b == b;
    } else if AnnouncedSize(a[0].command).None? {
      assert (a + b)[1..] == a[1..] + b;
      ReadableAppend(a[1..], b);
    } else {
      assert (a + b)[2..] == a[2..] + b && (a + b)[1] == a[1];
      ReadableAppend(a[2..], b);
    }
  }

  lemma ItemsUnfold(calls: seq<Call>, n: nat)
    requires n <= |calls|
    ensures Items(calls) == Items(calls[..n]) + Items(calls[n..])
  {
  }

  lemma PrependTwice(a: seq<Item>, b: seq<Item>, r: Option<seq<Item>>)
    ensures Prepend(a, Prepend(b, r)) == Prepend(a + b, r)
  {
    if r.Some? {
      Assoc(a, b, r.value);
    }
  }

  /** Readable calls are received as themselves, whatever follows them. */
  lemma {:induction false} ReceiveCalls(calls: seq<Call>, rest: string)
    requires Readable(calls)
    ensures Receive(Wire(calls) + rest) == Prepend(Items(calls), Receive(rest))
    decreases |calls|
  {
    if calls == [] {
      assert Wire(calls) + rest == rest;
      ItemsOfNothing(rest);
    } else if AnnouncedSize(calls[0].command).None? {
      ReceiveCalls(calls[1..], rest);
      ReceiveFirst(calls, rest);
    } else {
      ReceiveCalls(calls[2..], rest);
      ReceiveFirstTwo(calls, rest);
    }
  }

  lemma ItemsOfNothing(rest: string)
    ensures Prepend(Items([]), Receive(rest)) == Receive(rest)
  {
    var r := Receive(rest);
    if r.Some? {
      assert Items([]) + r.value == r.value;
    }
  }

  lemma ReceiveFirst(calls: seq<Call>, rest: string)
    requires calls != [] && Readable(calls) && AnnouncedSize(calls[0].command).None?
    requires Receive(Wire(calls[1..]) + rest) == Prepend(Items(calls[1..]), Receive(rest))
    ensures Receive(Wire(calls) + rest) == Prepend(Items(calls), Receive(rest))
  {
    var command := calls[0].command;
    Assoc(EncodeCommand(command), Wire(calls[1..]), rest);
    ReceiveLine(command, Wire(calls[1..]) + rest);
    PrependTwice([Line(command)], Items(calls[1..]), Receive(rest));
    ItemsUnfold(calls, 1);
    assert Items(calls[..1]) == [Line(command)];
  }

  lemma ReceiveFirstTwo(calls: seq<Call>, rest: string)
    requires calls != [] && Readable(calls) && AnnouncedSize(calls[0].command).Some?
    requires Receive(Wire(calls[2..]) + rest) == Prepend(Items(calls[2..]), Receive(rest))
    ensures Receive(Wire(calls) + rest) == Prepend(Items(calls), Receive(rest))
  {
    var command, data, later := calls[0].command, calls[1].payload, Wire(calls[2..]) + rest;
    assert calls[1..][1..] == calls[2..];
    TwoThenRest(EncodeCommand(command), data, Wire(calls[2..]), rest);
    assert Wire(calls) == EncodeCommand(command) + (data + Wire(calls[2..]));
    ReceiveLine(command, data + later);
    assert (data + later)[..|data|] == data && (data + later)[|data|..] == later;
    PrependTwice([Line(command), Data(data)], Items(calls[2..]), Receive(rest));
    ItemsUnfold(calls, 2);
    assert Items(calls[..2]) == [Line(command), Data(data)];
  }

  lemma TwoThenRest(a: string, b: string, c: string, d: string)
    ensures a + (b + c) + d == a + (b + (c + d))
  {
  }

  predicate OneLineRender(render: PackRender) {
    OneLine(render.textName) && OneLine(render.qrName)
    && forall i :: 0 <= i < |render.commands| ==> OneLine(render.commands[i])
  }

  lemma DownloadIsReadable(name: string, graphic: string)
    requires OneLine(name)
    ensures Readable(Download(name, graphic))
  {
    var d := Download(name, graphic);
    if d != [] {
      AnnouncementSize(name, |graphic|);
      var a := Announcement(name, |graphic|);
      assert OneLine(a) by {
        assert forall i :: 0 <= i < |Decimal(|graphic|)| ==> IsDigit(Decimal(|graphic|)[i]);
      }
      assert d[1..][2..] == [] && d[1..][1] == d[2];
      assert Readable(d[1..]);
      assert d[0].command[1] == 'M' && AnnouncedSize(d[0].command) == None;
    }
  }

  /** Print commands up to `k` that are no announcements read as lines. */
  lemma {:induction false} PrintsAreReadable(commands: seq<string>)
    requires forall i :: 0 <= i < |commands| ==> OneLine(commands[i]) && AnnouncedSize(commands[i]) == None
    ensures Readable(Prints(commands))
  {
    if commands != [] {
      PrintsAreReadable(commands[1..]);
      assert Prints(commands)[1..] == Prints(commands[1..]);
    }
  }

  lemma FixedAreReadable()
    ensures Readable([BUZZER_OFF]) && Readable([STATUS])
  {
    assert BUZZER_OFF.command[0] == '^' && STATUS.command[1] == 'S';
    assert [BUZZER_OFF][1..] == [] && [STATUS][1..] == [];
  }

  /** Everything sent before the print command `k`. */
  function Before(render: PackRender, k: nat): seq<Call>
    requires k <= |render.commands|
  {
    [BUZZER_OFF] + Download(render.textName, render.textBmp) + Download(render.qrName, render.qrBmp)
    + Prints(render.commands[..k])
  }

  lemma BeforeIsReadable(render: PackRender, k: nat)
    requires OneLineRender(render) && k <= |render.commands|
    requires forall i :: 0 <= i < k ==> AnnouncedSize(render.commands[i]) == None
    ensures Readable(Before(render, k))
  {
    var text, qr := Download(render.textName, render.textBmp), Download(render.qrName, render.qrBmp);
    FixedAreReadable();
    DownloadIsReadable(render.textName, render.textBmp);
    DownloadIsReadable(render.qrName, render.qrBmp);
    PrintsAreReadable(render.commands[..k]);
    ReadableAppend([BUZZER_OFF], text);
    ReadableAppend([BUZZER_OFF] + text, qr);
    ReadableAppend([BUZZER_OFF] + text + qr, Prints(render.commands[..k]));
  }

  /** A print command that looks like an announcement is read with data behind it
      that was never sent as such. */
  lemma AnnouncingCommandIsMisread(render: PackRender, k: nat)
    requires OneLineRender(render) && k < |render.commands| && AnnouncedSize(render.commands[k]).Some?
    requires forall i :: 0 <= i < k ==> AnnouncedSize(render.commands[i]) == None
    ensures Receive(Wire(AllCalls(render))) != Some(Items(AllCalls(render)))
  {
    var plan, pre := AllCalls(render), Before(render, k);
    BeforeIsReadable(render, k);
    SplitPlan(render, k);
    MisreadAfter(pre, plan[|pre|], plan[|pre| + 1..]);
  }

  lemma MisreadAfter(pre: seq<Call>, c: Call, post: seq<Call>)
    requires Readable(pre) && c.Send? && OneLine(c.command) && AnnouncedSize(c.command).Some?
    requires post != [] && post[0].Send?
    ensures Receive(Wire(pre + ([c] + post))) != Some(Items(pre + ([c] + post)))
  {
    var plan := pre + ([c] + post);
    WireAppend(pre, [c] + post);
    ReceiveCalls(pre, Wire([c] + post));
    assert ([c] + post)[1..] == post;
    ReceiveAnnouncing(c.command, Wire(post));
    DataOutOfPlace(Items(pre), Receive(Wire([c] + post)));
    assert plan[|pre| + 1] == post[0];
    assert Items(plan)[|pre| + 1] == ItemOf(post[0]);
  }

  lemma ReceiveAnnouncing(command: string, rest: string)
    requires OneLine(command) && AnnouncedSize(command).Some?
    ensures var r := Receive(EncodeCommand(command) + rest);
      r.Some? ==> |r.value| >= 2 && r.value[1].Data?
  {
    ReceiveLine(command, rest);
  }

  lemma DataOutOfPlace(items: seq<Item>, r: Option<seq<Item>>)
    requires r.Some? ==> |r.value| >= 2 && r.value[1].Data?
    ensures var p := Prepend(items, r); p.Some? ==> |p.value| >= |items| + 2 && p.value[|items| + 1].Data?
  {
  }

  lemma SplitPlan(render: PackRender, k: nat)
    requires k < |render.commands|
    ensures var plan, pre := AllCalls(render), Before(render, k);
      && |pre| + 1 < |plan| && plan == pre + ([plan[|pre|]] + plan[|pre| + 1..])
      && plan[|pre|] == Send(render.commands[k], false, false) && plan[|pre| + 1].Send?
  {
    var head := [BUZZER_OFF] + Download(render.textName, render.textBmp) + Download(render.qrName, render.qrBmp);
    var prints := Prints(render.commands);
    assert Prints(render.commands[..k]) == prints[..k];
    SplitAt(head, prints, STATUS, k);
  }

  lemma SplitAt(head: seq<Call>, prints: seq<Call>, last: Call, k: nat)
    requires k < |prints|
    ensures var plan, pre := head + prints + [last], head + prints[..k];
      && |pre| + 1 < |plan| && plan == pre + ([plan[|pre|]] + plan[|pre| + 1..])
      && plan[|pre|] == prints[k] && plan[|pre| + 1] == if k + 1 < |prints| then prints[k + 1] else last
  {
  }

  /** The stream is self-delimiting exactly when no print command itself looks like
      an announcement: a reader then recovers every command and both graphics. */
  lemma StreamIsSelfDelimiting(render: PackRender)
    requires OneLineRender(render)
    ensures Receive(Wire(AllCalls(render))) == Some(Items(AllCalls(render))) <==>
      forall i :: 0 <= i < |render.commands| ==> AnnouncedSize(render.commands[i]) == None
  {
    if k :| 0 <= k < |render.commands| && AnnouncedSize(render.commands[k]).Some? {
      var first := FirstAnnouncing(render.commands, k);
      AnnouncingCommandIsMisread(render, first);
    } else {
      PlanIsReadable(render);
      ReadsBackAlone(AllCalls(render));
    }
  }

  lemma PlanIsReadable(render: PackRender)
    requires OneLineRender(render)
    requires forall i :: 0 <= i < |render.commands| ==> AnnouncedSize(render.commands[i]) == None
    ensures Readable(AllCalls(render))
  {
    BeforeIsReadable(render, |render.commands|);
    assert render.commands[..|render.commands|] == render.commands;
    FixedAreReadable();
    ReadableAppend(Before(render, |render.commands|), [STATUS]);
  }

  lemma ReadsBackAlone(calls: seq<Call>)
    requires Readable(calls)
    ensures Receive(Wire(calls)) == Some(Items(calls))
  {
    ReceiveCalls(calls, "");
    assert Wire(calls) + "" == Wire(calls);
    assert Items(calls) + [] == Items(calls);
  }

  lemma FirstAnnouncing(commands: seq<string>, k: nat) returns (first: nat)
    requires k < |commands| && AnnouncedSize(commands[k]).Some?
    ensures first < |commands| && AnnouncedSize(commands[first]).Some?
    ensures forall i :: 0 <= i < first ==> AnnouncedSize(commands[i]) == None
  {
    first := 0;
    while AnnouncedSize(commands[first]) == None
      invariant first <= k
      decreases k - first
      invariant forall i :: 0 <= i < first ==> AnnouncedSize(commands[i]) == None
    {
      first := first + 1;
    }
  }
}
