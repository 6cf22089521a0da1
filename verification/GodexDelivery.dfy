/** What a GoDEX printer reads when the tolerated deletes of a run may fail half-way
    (src/print/godex/executor.rs, src/service/driver_print_runtime.rs). */
module GodexDelivery {
  import opened Text
  import opened Godex

  /** The call put some of its bytes on the device, but not all. */
  predicate Torn(c: Call, bytes: string) {
    bytes != "" && bytes != Encode(c)
  }

  /** The calls whose bytes reached the device whole. */
  function Arrived(calls: seq<Call>, writes: seq<string>): seq<Call>
    requires |calls| == |writes|
  {
    if calls == [] then []
    else (if writes[0] == Encode(calls[0]) then [calls[0]] else []) + Arrived(calls[1..], writes[1..])
  }

  lemma {:induction false} ArrivedAppend(a: seq<Call>, v: seq<string>, b: seq<Call>, w: seq<string>)
    requires |a| == |v| && |b| == |w|
    ensures Arrived(a + b, v + w) == Arrived(a, v) + Arrived(b, w)
  {
    if a == [] {
      assert a + b == b && v + w == w;
    } else {
      assert (a + b)[1..] == a[1..] + b && (v + w)[1..] == v[1..] + w;
      ArrivedAppend(a[1..], v[1..], b, w);
      Assoc(if v[0] == Encode(a[0]) then [a[0]] else [], Arrived(a[1..], v[1..]), Arrived(b, w));
    }
  }

  lemma {:induction false} AllArrived(calls: seq<Call>, writes: seq<string>)
    requires |calls| == |writes| && forall i :: 0 <= i < |calls| ==> writes[i] == Encode(calls[i])
    ensures Arrived(calls, writes) == calls
  {
    if calls != [] {
      AllArrived(calls[1..], writes[1..]);
    }
  }

  /** When no call is torn the device holds the bytes of those that arrived. */
  lemma {:induction false} WholeWrites(calls: seq<Call>, writes: seq<string>)
    requires |calls| == |writes| && forall i :: 0 <= i < |calls| ==> !Torn(calls[i], writes[i])
    ensures Concat(writes) == Wire(Arrived(calls, writes))
  {
    if calls != [] {
      var rest := Arrived(calls[1..], writes[1..]);
      WholeWrites(calls[1..], writes[1..]);
      assert !Torn(calls[0], writes[0]);
      if writes[0] == Encode(calls[0]) {
        WireAppend([calls[0]], rest);
        WireOne(calls[0]);
      } else {
        assert [] + rest == rest && "" + Wire(rest) == Wire(rest);
      }
    }
  }

  /** Only plain lines are lost. */
  predicate LosesLines(calls: seq<Call>, writes: seq<string>)
    requires |calls| == |writes|
  {
    forall i :: 0 <= i < |calls| && writes[i] != Encode(calls[i]) ==>
      calls[i].Send? && AnnouncedSize(calls[i].command) == None
  }

  lemma {:induction false} ArrivedIsReadable(calls: seq<Call>, writes: seq<string>)
    requires |calls| == |writes| && Readable(calls) && LosesLines(calls, writes)
    ensures Readable(Arrived(calls, writes))
    decreases |calls|
  {
    if calls == [] {
    } else if AnnouncedSize(calls[0].command).None? {
      ArrivedIsReadable(calls[1..], writes[1..]);
      assert [] + Arrived(calls[1..], writes[1..]) == Arrived(calls[1..], writes[1..]);
    } else {
      ArrivedIsReadable(calls[2..], writes[2..]);
      ArrivedPair(calls, writes);
    }
  }

  lemma ArrivedPair(calls: seq<Call>, writes: seq<string>)
    requires |calls| == |writes| >= 2 && writes[0] == Encode(calls[0]) && writes[1] == Encode(calls[1])
    ensures Arrived(calls, writes) == [calls[0], calls[1]] + Arrived(calls[2..], writes[2..])
  {
    assert calls == calls[..2] + calls[2..] && writes == writes[..2] + writes[2..];
    ArrivedAppend(calls[..2], writes[..2], calls[2..], writes[2..]);
    AllArrived(calls[..2], writes[..2]);
    assert calls[..2] == [calls[0], calls[1]];
  }

  /* ----- a torn line ----- */

  /** What is read where a line was torn: nothing, or a line longer than the one that followed. */
  lemma TornLineIsMisread(torn: string, bytes: string, next: string, rest: string)
    requires OneLine(torn) && OneLine(next) && next != ""
    requires bytes <= EncodeCommand(torn) && bytes != "" && bytes != EncodeCommand(torn)
    ensures var r := Receive(bytes + (EncodeCommand(next) + rest));
      r.Some? ==> r.value != [] && r.value[0] != Line(next)
  {
    var s := bytes + (EncodeCommand(next) + rest);
    assert TrimEnd(torn) == torn && TrimEnd(next) == next;
    assert EncodeCommand(torn) == torn + "\r\n";
    if |bytes| <= |torn| {
      assert bytes == torn[..|bytes|];
      assert OneLine(bytes + next);
      assert s == bytes + next + "\r\n" + rest;
      LineEndsAt(s, bytes + next, rest);
      ReceiveSplit(s, bytes + next, rest);
      assert |bytes + next| > |next|;
    } else {
      assert bytes == torn + "\r";
      HalfLineEnd(s, torn, EncodeCommand(next) + rest);
    }
  }

  lemma HalfLineEnd(s: string, line: string, after: string)
    requires OneLine(line) && s == line + "\r" + after && after != "" && after[0] != '\n'
    ensures Receive(s) == None
  {
    RunEndIs(s, 0, |line|, NotReturn);
    assert s[|line| + 1] == after[0];
  }

  /** Behind readable calls, a torn line keeps everything from being read as it was meant. */
  lemma MisreadAfterTorn(pre: seq<Call>, torn: string, bytes: string, next: string, rest: string, meant: seq<Item>)
    requires Readable(pre) && OneLine(torn) && OneLine(next) && next != ""
    requires bytes <= EncodeCommand(torn) && bytes != "" && bytes != EncodeCommand(torn)
    requires |pre| < |meant| && meant[|pre|] == Line(next)
    ensures Receive(Wire(pre) + (bytes + (EncodeCommand(next) + rest))) != Some(meant)
  {
    ReceiveCalls(pre, bytes + (EncodeCommand(next) + rest));
    TornLineIsMisread(torn, bytes, next, rest);
  }

  /* ----- the whole sequence ----- */

  /** A run that answers Ok: every failure was tolerated, and each call delivered what it could. */
  predicate WentWell(render: PackRender, results: seq<bool>, writes: seq<string>) {
    AllWell(AllCalls(render), results) && Delivered(AllCalls(render), results, writes)
  }

  /** Such a run is what `ExecutePackRender` leaves behind when it answers Ok. */
  lemma OkRunWentWell(render: PackRender, from: Mark, to: Mark)
    requires Ran(from, to, AllCalls(render), true)
    ensures to.calls[|from.calls|..] == AllCalls(render)
    ensures WentWell(render, to.results[|from.results|..], to.writes[|from.writes|..])
  {
  }

  lemma WholeUnlessTolerated(render: PackRender, results: seq<bool>, writes: seq<string>, i: nat)
    requires WentWell(render, results, writes) && i < |writes|
    ensures !Tolerated(AllCalls(render)[i]) ==> writes[i] == Encode(AllCalls(render)[i])
  {
  }

  predicate Quiet(render: PackRender) {
    forall i :: 0 <= i < |render.commands| ==> AnnouncedSize(render.commands[i]) == None
  }

  lemma DeleteIsPlain(name: string)
    ensures AnnouncedSize("~MDELG," + name) == None
    ensures OneLine(name) ==> OneLine("~MDELG," + name)
  {
    assert ("~MDELG," + name)[1] == 'M';
  }

  lemma AnnouncementIsLine(name: string, size: nat)
    requires OneLine(name)
    ensures OneLine(Announcement(name, size)) && Announcement(name, size) != ""
  {
    assert forall i :: 0 <= i < |Decimal(size)| ==> IsDigit(Decimal(size)[i]);
  }

  /** A delete of the sequence: what comes before it reads as lines, and its announcement follows. */
  lemma DeleteInPlace(render: PackRender, t: nat) returns (name: string, size: nat)
    requires OneLineRender(render) && t < |AllCalls(render)| && Tolerated(AllCalls(render)[t])
    ensures var plan := AllCalls(render);
      && t + 1 < |plan| && OneLine(name) && Readable(plan[..t])
      && plan[t] == Send("~MDELG," + name, false, true)
      && plan[t + 1] == Send(Announcement(name, size), false, false)
  {
    var text, qr := Download(render.textName, render.textBmp), Download(render.qrName, render.qrBmp);
    var head := [BUZZER_OFF] + text;
    var tail := Prints(render.commands) + [STATUS];
    FixedAreReadable();
    DownloadIsReadable(render.textName, render.textBmp);
    ReadableAppend([BUZZER_OFF], text);
    assert AllCalls(render) == head + qr + tail;
    if t < |head| {
      name, size := render.textName, |render.textBmp|;
      assert AllCalls(render)[..t] == [BUZZER_OFF];
    } else {
      name, size := render.qrName, |render.qrBmp|;
      assert AllCalls(render)[..t] == head;
    }
  }

  lemma TornMisreadIn(plan: seq<Call>, writes: seq<string>, t: nat, torn: string, next: string)
    requires |plan| == |writes| && t + 1 < |plan| && Readable(plan[..t]) && LosesLines(plan, writes)
    requires plan[t].Send? && plan[t].command == torn && plan[t + 1].Send? && plan[t + 1].command == next
    requires OneLine(torn) && OneLine(next) && next != ""
    requires forall i :: 0 <= i < t ==> !Torn(plan[i], writes[i])
    requires writes[t] <= Encode(plan[t]) && Torn(plan[t], writes[t]) && writes[t + 1] == Encode(plan[t + 1])
    ensures Receive(Concat(writes)) != Some(Items(Arrived(plan, writes)))
  {
    var pre, meant := Arrived(plan[..t], writes[..t]), Items(Arrived(plan, writes));
    ArrivedIsReadable(plan[..t], writes[..t]);
    WholeWrites(plan[..t], writes[..t]);
    AroundTorn(plan, writes, t);
    MisreadAfterTorn(pre, torn, writes[t], next, Concat(writes[t + 2..]), meant);
  }

  /** A torn delete is misread whatever follows it. */
  lemma TornIsMisread(render: PackRender, results: seq<bool>, writes: seq<string>, t: nat)
    requires OneLineRender(render) && WentWell(render, results, writes)
    requires t < |writes| && Torn(AllCalls(render)[t], writes[t])
    requires forall i :: 0 <= i < t ==> !Torn(AllCalls(render)[i], writes[i])
    ensures Receive(Concat(writes)) != Some(Items(Arrived(AllCalls(render), writes)))
  {
    WholeUnlessTolerated(render, results, writes, t);
    var name, size := DeleteInPlace(render, t);
    WholeUnlessTolerated(render, results, writes, t + 1);
    LostAreLines(render, results, writes);
    DeleteIsPlain(name);
    AnnouncementIsLine(name, size);
    TornMisreadIn(AllCalls(render), writes, t, "~MDELG," + name, Announcement(name, size));
  }

  lemma AroundTorn(plan: seq<Call>, writes: seq<string>, t: nat)
    requires |plan| == |writes| && t + 1 < |plan|
    requires writes[t] != Encode(plan[t]) && writes[t + 1] == Encode(plan[t + 1])
    ensures Concat(writes) == Concat(writes[..t]) + (writes[t] + (writes[t + 1] + Concat(writes[t + 2..])))
    ensures var pre := Arrived(plan[..t], writes[..t]);
      |pre| < |Arrived(plan, writes)| && Arrived(plan, writes)[|pre|] == plan[t + 1]
  {
    assert writes == writes[..t] + writes[t..] && plan == plan[..t] + plan[t..];
    ConcatAppend(writes[..t], writes[t..]);
    ArrivedAppend(plan[..t], writes[..t], plan[t..], writes[t..]);
    assert writes[t..][1..] == writes[t + 1..] && writes[t + 1..][1..] == writes[t + 2..];
    assert plan[t..][1..] == plan[t + 1..];
    assert Arrived(plan[t..], writes[t..]) == Arrived(plan[t + 1..], writes[t + 1..]);
    assert Arrived(plan[t + 1..], writes[t + 1..])[0] == plan[t + 1];
  }

  lemma LostAreLines(render: PackRender, results: seq<bool>, writes: seq<string>)
    requires OneLineRender(render) && WentWell(render, results, writes)
    ensures LosesLines(AllCalls(render), writes)
  {
    var plan := AllCalls(render);
    forall i | 0 <= i < |plan| && writes[i] != Encode(plan[i])
      ensures plan[i].Send? && AnnouncedSize(plan[i].command) == None
    {
      WholeUnlessTolerated(render, results, writes, i);
      var name, size := DeleteInPlace(render, i);
      DeleteIsPlain(name);
    }
  }

  lemma AnnouncingMisreadIn(plan: seq<Call>, writes: seq<string>, n: nat)
    requires |plan| == |writes| && n + 1 < |plan| && Readable(plan[..n]) && LosesLines(plan, writes)
    requires plan[n].Send? && OneLine(plan[n].command) && AnnouncedSize(plan[n].command).Some? && plan[n + 1].Send?
    requires forall i :: n <= i < |writes| ==> writes[i] == Encode(plan[i])
    requires forall i :: 0 <= i < |writes| ==> !Torn(plan[i], writes[i])
    ensures Receive(Concat(writes)) != Some(Items(Arrived(plan, writes)))
  {
    WholeWrites(plan, writes);
    ArrivedIsReadable(plan[..n], writes[..n]);
    ArrivedBehind(plan, writes, n);
    MisreadAfter(Arrived(plan[..n], writes[..n]), plan[n], plan[n + 1..]);
  }

  /** An announcing print command is misread, whichever deletes were lost. */
  lemma AnnouncingIsMisread(render: PackRender, results: seq<bool>, writes: seq<string>, k: nat)
    requires OneLineRender(render) && WentWell(render, results, writes)
    requires k < |render.commands| && AnnouncedSize(render.commands[k]).Some?
    requires forall i :: 0 <= i < k ==> AnnouncedSize(render.commands[i]) == None
    requires forall i :: 0 <= i < |writes| ==> !Torn(AllCalls(render)[i], writes[i])
    ensures Receive(Concat(writes)) != Some(Items(Arrived(AllCalls(render), writes)))
  {
    BeforeIsReadable(render, k);
    SplitPlan(render, k);
    LostAreLines(render, results, writes);
    RestIsWhole(render, results, writes, k);
    AnnouncingMisreadIn(AllCalls(render), writes, |Before(render, k)|);
  }

  /** From the first print command on every call arrives. */
  lemma RestIsWhole(render: PackRender, results: seq<bool>, writes: seq<string>, k: nat)
    requires WentWell(render, results, writes) && k < |render.commands|
    ensures var n := |Before(render, k)|;
      && n < |writes| == |AllCalls(render)| && AllCalls(render)[..n] == Before(render, k)
      && forall i :: n <= i < |writes| ==> writes[i] == Encode(AllCalls(render)[i])
  {
    var plan, n := AllCalls(render), |Before(render, k)|;
    SplitPlan(render, k);
    forall i | n <= i < |writes|
      ensures writes[i] == Encode(plan[i])
    {
      WholeUnlessTolerated(render, results, writes, i);
    }
  }

  lemma ArrivedBehind(plan: seq<Call>, writes: seq<string>, n: nat)
    requires |plan| == |writes| && n < |plan| && forall i :: n <= i < |writes| ==> writes[i] == Encode(plan[i])
    ensures Arrived(plan, writes) == Arrived(plan[..n], writes[..n]) + ([plan[n]] + plan[n + 1..])
  {
    assert plan == plan[..n] + plan[n..] && writes == writes[..n] + writes[n..];
    ArrivedAppend(plan[..n], writes[..n], plan[n..], writes[n..]);
    AllArrived(plan[n..], writes[n..]);
    assert plan[n..] == [plan[n]] + plan[n + 1..];
  }

  /** What the device holds after a run that answers Ok reads back as the calls that arrived whole
      exactly when no print command looks like an announcement and every delete that failed had put
      nothing on the device, or its whole line. */
  lemma DeviceReadsBackIff(render: PackRender, results: seq<bool>, writes: seq<string>)
    requires OneLineRender(render) && WentWell(render, results, writes)
    ensures Receive(Concat(writes)) == Some(Items(Arrived(AllCalls(render), writes))) <==>
      Quiet(render) && forall i :: 0 <= i < |writes| ==> !Torn(AllCalls(render)[i], writes[i])
  {
    if t :| 0 <= t < |writes| && Torn(AllCalls(render)[t], writes[t]) {
      var first := FirstTorn(AllCalls(render), writes, t);
      TornIsMisread(render, results, writes, first);
    } else if k :| 0 <= k < |render.commands| && AnnouncedSize(render.commands[k]).Some? {
      var first := FirstAnnouncing(render.commands, k);
      AnnouncingIsMisread(render, results, writes, first);
    } else {
      PlanIsReadable(render);
      LostAreLines(render, results, writes);
      ArrivedIsReadable(AllCalls(render), writes);
      WholeWrites(AllCalls(render), writes);
      ReadsBackAlone(Arrived(AllCalls(render), writes));
    }
  }

  lemma FirstTorn(calls: seq<Call>, writes: seq<string>, t: nat) returns (first: nat)
    requires t < |calls| == |writes| && Torn(calls[t], writes[t])
    ensures first <= t && Torn(calls[first], writes[first])
    ensures forall i :: 0 <= i < first ==> !Torn(calls[i], writes[i])
  {
    first := 0;
    while !Torn(calls[first], writes[first])
      invariant first <= t && forall i :: 0 <= i < first ==> !Torn(calls[i], writes[i])
      decreases t - first
    {
      first := first + 1;
    }
  }

  lemma TornBytes(name: string)
    ensures "~MDEL" <= EncodeCommand("~MDELG," + name) && "~MDEL" != EncodeCommand("~MDELG," + name)
  {
    TrimKeepsFront("~MDELG", "," + name);
    assert "~MDELG," + name == "~MDELG" + ("," + name);
  }

  lemma {:induction false} TrimKeepsFront(front: string, back: string)
    requires front != "" && !IsLineEnd(front[|front| - 1])
    ensures front <= TrimEnd(front + back)
    decreases |back|
  {
    var s := front + back;
    if back == "" {
      assert s == front;
    } else if IsLineEnd(s[|s| - 1]) {
      assert s[..|s| - 1] == front + back[..|back| - 1];
      TrimKeepsFront(front, back[..|back| - 1]);
    }
  }

  /** The run that fails at a delete alone, five bytes of which reach the device: it goes well, and
      what is read runs the torn line into the announcement. */
  lemma TornDeleteHappens(render: PackRender, t: nat) returns (results: seq<bool>, writes: seq<string>)
    requires OneLineRender(render) && t < |AllCalls(render)| && Tolerated(AllCalls(render)[t])
    ensures WentWell(render, results, writes) && forall i :: 0 <= i < |results| ==> (results[i] <==> i != t)
    ensures Receive(Concat(writes)) != Some(Items(Arrived(AllCalls(render), writes)))
  {
    var plan := AllCalls(render);
    var name, size := DeleteInPlace(render, t);
    TornBytes(name);
    results := seq(|plan|, i requires 0 <= i < |plan| => i != t);
    writes := seq(|plan|, i requires 0 <= i < |plan| => if i == t then "~MDEL" else Encode(plan[i]));
    assert Torn(plan[t], writes[t]);
    DeviceReadsBackIff(render, results, writes);
  }
}
