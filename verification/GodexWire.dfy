/** The bytes of a GoDEX print run and the part an error names, spelled out
    (src/print/godex/executor.rs, src/service/driver_print_runtime.rs). */
module GodexWire {
  import opened Text
  import opened Godex
  import opened GodexDelivery

  /* ----- the bytes ----- */

  function GraphicText(name: string, graphic: string): string {
    if name == "" || graphic == "" then ""
    else "~MDELG," + name + "\r\n" + ("~EB," + name + "," + Decimal(|graphic|) + "\r\n" + graphic)
  }

  function LinesText(commands: seq<string>): string {
    if commands == [] then "" else commands[0] + "\r\n" + LinesText(commands[1..])
  }

  /** What a printer is sent: buzzer off, the text graphic, the QR graphic, the commands, the query. */
  function RunText(render: PackRender): string {
    "^XSET,BUZZER,0\r\n" + GraphicText(render.textName, render.textBmp) + GraphicText(render.qrName, render.qrBmp)
    + LinesText(render.commands) + "~S,STATUS\r\n"
  }

  lemma LineEncodes(command: string)
    requires OneLine(command)
    ensures EncodeCommand(command) == command + "\r\n"
  {
    assert TrimEnd(command) == command;
  }

  /** Line ends a command brings along are replaced by one CR LF. */
  lemma {:induction false} LineEndsAreTrimmed(command: string, ends: string)
    requires command == "" || !IsLineEnd(command[|command| - 1])
    requires forall i :: 0 <= i < |ends| ==> ends[i] == '\r' || ends[i] == '\n'
    ensures EncodeCommand(command + ends) == command + "\r\n"
    decreases |ends|
  {
    var s := command + ends;
    if ends == "" {
      assert s == command;
    } else {
      assert s[|s| - 1] == ends[|ends| - 1] && s[..|s| - 1] == command + ends[..|ends| - 1];
      LineEndsAreTrimmed(command, ends[..|ends| - 1]);
    }
  }

  lemma AnnouncementEncodes(name: string, size: nat)
    requires OneLine(name)
    ensures EncodeCommand(Announcement(name, size)) == "~EB," + name + "," + Decimal(size) + "\r\n"
  {
    AnnouncementIsLine(name, size);
    LineEncodes(Announcement(name, size));
  }

  lemma DeleteEncodes(name: string)
    requires OneLine(name)
    ensures EncodeCommand("~MDELG," + name) == "~MDELG," + name + "\r\n"
  {
    DeleteIsPlain(name);
    LineEncodes("~MDELG," + name);
  }

  lemma ThreeCalls(a: Call, b: Call, c: Call)
    ensures Wire([a, b, c]) == Encode(a) + (Encode(b) + Encode(c))
  {
    WireOne(c);
    WireAppend([b], [c]);
    WireOne(b);
    WireAppend([a], [b, c]);
    WireOne(a);
    assert [b] + [c] == [b, c] && [a] + [b, c] == [a, b, c];
  }

  lemma DownloadSpelled(name: string, graphic: string)
    requires OneLine(name)
    ensures Wire(Download(name, graphic)) == GraphicText(name, graphic)
  {
    if name != "" && graphic != "" {
      var d := Download(name, graphic);
      ThreeCalls(d[0], d[1], d[2]);
      DeleteEncodes(name);
      AnnouncementEncodes(name, |graphic|);
    }
  }

  lemma {:induction false} PrintsSpelled(commands: seq<string>)
    requires forall i :: 0 <= i < |commands| ==> OneLine(commands[i])
    ensures Wire(Prints(commands)) == LinesText(commands)
  {
    if commands != [] {
      LineEncodes(commands[0]);
      assert Prints(commands)[1..] == Prints(commands[1..]);
      PrintsSpelled(commands[1..]);
    }
  }

  lemma FixedSpelled()
    ensures Wire([BUZZER_OFF]) == "^XSET,BUZZER,0\r\n" && Wire([STATUS]) == "~S,STATUS\r\n"
  {
    FixedAreReadable();
    LineEncodes("^XSET,BUZZER,0");
    LineEncodes("~S,STATUS");
    WireOne(BUZZER_OFF);
    WireOne(STATUS);
  }

  lemma FiveParts(a: seq<Call>, b: seq<Call>, c: seq<Call>, d: seq<Call>, e: seq<Call>)
    ensures Wire(a + b + c + d + e) == Wire(a) + Wire(b) + Wire(c) + Wire(d) + Wire(e)
  {
    WireAppend(a + b + c + d, e);
    WireAppend(a + b + c, d);
    WireAppend(a + b, c);
    WireAppend(a, b);
  }

  /** The calls of a run encode to exactly that text. */
  lemma WireSpelled(render: PackRender)
    requires OneLineRender(render)
    ensures Wire(AllCalls(render)) == RunText(render)
  {
    FiveParts([BUZZER_OFF], Download(render.textName, render.textBmp), Download(render.qrName, render.qrBmp),
              Prints(render.commands), [STATUS]);
    FixedSpelled();
    DownloadSpelled(render.textName, render.textBmp);
    DownloadSpelled(render.qrName, render.qrBmp);
    PrintsSpelled(render.commands);
  }

  lemma AllDelivered(plan: seq<Call>, results: seq<bool>, writes: seq<string>)
    requires Delivered(plan, results, writes) && forall i :: 0 <= i < |results| ==> results[i]
    ensures Concat(writes) == Wire(plan)
  {
    forall i | 0 <= i < |plan|
      ensures writes[i] == Encode(plan[i])
    {
      assert Arrives(plan[i], results[i], writes[i]);
    }
    AllArrived(plan, writes);
    WholeWrites(plan, writes);
  }

  lemma Tails<T>(before: seq<T>, all: seq<T>)
    requires before <= all
    ensures all == before + all[|before|..]
  {
  }

  /** A run without a failure adds exactly that text to the device. */
  lemma WholeRunSpelled(render: PackRender, from: Mark, to: Mark)
    requires OneLineRender(render) && Ran(from, to, AllCalls(render), true)
    requires forall i :: 0 <= i < |to.results[|from.results|..]| ==> to.results[|from.results|..][i]
    ensures Concat(to.writes) == Concat(from.writes) + RunText(render)
  {
    AllDelivered(AllCalls(render), to.results[|from.results|..], to.writes[|from.writes|..]);
    WireSpelled(render);
    Tails(from.writes, to.writes);
    ConcatAppend(from.writes, to.writes[|from.writes|..]);
  }

  /* ----- the part an error names ----- */

  /** The error after a failed call says which it was: the buzzer command first and the status query
      last, a use of one of the two graphics between them, or a print command by its number. */
  lemma BlameNamesCall(render: PackRender, i: nat)
    requires i < |AllCalls(render)|
    ensures var c := AllCalls(render)[i];
      match Blame(render, i)
      case DisableBuzzer => i == 0 && c == Send("^XSET,BUZZER,0", false, false)
      case DownloadText => IsUseOf(c, render.textName, render.textBmp)
      case DownloadQr => IsUseOf(c, render.qrName, render.qrBmp)
      case PrintCommand(n) => 1 <= n <= |render.commands| && c == Send(render.commands[n - 1], false, false)
      case FinalStatus => i + 1 == |AllCalls(render)| && c == Send("~S,STATUS", true, false)
  {
    var text, qr := Download(render.textName, render.textBmp), Download(render.qrName, render.qrBmp);
    PartsOf(BUZZER_OFF, text, qr, render.commands, STATUS);
    BlameInParts(AllCalls(render), text, qr, render, i);
  }

  lemma BlameInParts(plan: seq<Call>, text: seq<Call>, qr: seq<Call>, render: PackRender, i: nat)
    requires Parts(plan, text, qr, render.commands) && i < |plan|
    requires text == Download(render.textName, render.textBmp) && qr == Download(render.qrName, render.qrBmp)
    ensures match Blame(render, i)
      case DisableBuzzer => i == 0 && plan[i] == BUZZER_OFF
      case DownloadText => IsUseOf(plan[i], render.textName, render.textBmp)
      case DownloadQr => IsUseOf(plan[i], render.qrName, render.qrBmp)
      case PrintCommand(n) => 1 <= n <= |render.commands| && plan[i] == Send(render.commands[n - 1], false, false)
      case FinalStatus => i + 1 == |plan| && plan[i] == STATUS
  {
    var a, b := 1 + |text|, 1 + |text| + |qr|;
    PartsAt(plan, text, qr, render.commands, i);
    if 1 <= i < a {
      UsesOf(render.textName, render.textBmp, i - 1);
    } else if a <= i < b {
      UsesOf(render.qrName, render.qrBmp, i - a);
    }
  }

  lemma PartsAt(plan: seq<Call>, text: seq<Call>, qr: seq<Call>, commands: seq<string>, i: nat)
    requires Parts(plan, text, qr, commands) && i < |plan|
    ensures var a, b := 1 + |text|, 1 + |text| + |qr|;
      plan[i] == if i == 0 then BUZZER_OFF
                 else if i < a then text[i - 1]
                 else if i < b then qr[i - a]
                 else if i < b + |commands| then Send(commands[i - b], false, false)
                 else STATUS
  {
    var a, b := 1 + |text|, 1 + |text| + |qr|;
    if 1 <= i < a {
      assert plan[i] == plan[1..a][i - 1];
    } else if a <= i < b {
      assert plan[i] == plan[a..b][i - a];
    } else if b <= i < b + |commands| {
      assert plan[b + (i - b)] == Send(commands[i - b], false, false);
    }
  }

  lemma UsesOf(name: string, graphic: string, i: nat)
    requires i < |Download(name, graphic)|
    ensures IsUseOf(Download(name, graphic)[i], name, graphic)
  {
  }

  /** The call deletes, announces or writes a graphic. */
  predicate IsUseOf(c: Call, name: string, graphic: string) {
    || c == Send("~MDELG," + name, false, true)
    || c == Send("~EB," + name + "," + Decimal(|graphic|), false, false)
    || c == Raw(graphic)
  }

  /** The text graphic is blamed before the QR graphic, and print commands in their order. */
  lemma BlameInOrder(render: PackRender, i: nat, j: nat)
    requires i < j < |AllCalls(render)|
    ensures Blame(render, i) == DownloadQr ==> Blame(render, j) != DownloadText
    ensures Blame(render, i).PrintCommand? && Blame(render, j).PrintCommand? ==>
      Blame(render, i).number < Blame(render, j).number
  {
  }
}
