/** The stateful decoder from serial text to readings (src/scale/stream.rs). */
module ScaleStream {
  import opened Text
  import opened ScaleFrame
  import opened ScaleWeight

  const BUFFER: nat := 1024

  const EMPTY_FRAME := "<empty-frame>"

  datatype Reading = Reading(weight: Option<real>, unit: string, stable: Option<bool>, raw: string, error: string)

  /** What the decoder remembers between frames, apart from the unread text. */
  datatype Memory = Memory(lastUnit: string, seen: bool)

  function Serial(unit: string): Reading {
    Reading(None, unit, None, "", "")
  }

  function FrameMemory(m: Memory, defaultUnit: string, frame: string): Memory {
    var parsed := Parse(Trim(frame), defaultUnit);
    if Trim(frame) == "" || parsed.None? then m
    else Memory(if Trim(parsed.value.unit) != "" then parsed.value.unit else m.lastUnit, true)
  }

  function FrameReading(m: Memory, defaultUnit: string, frame: string): Option<Reading> {
    var trimmed := Trim(frame);
    if trimmed == "" then
      if m.seen then Some(Serial(m.lastUnit).(weight := Some(0.0), raw := EMPTY_FRAME)) else None
    else
      var base := Serial(FrameMemory(m, defaultUnit, frame).lastUnit).(raw := trimmed);
      match Parse(trimmed, defaultUnit)
      case None => Some(base)
      case Some(p) => Some(base.(weight := Some(p.weight), stable := p.stable))
  }

  function Emitted(r: Option<Reading>): seq<Reading> {
    if r.Some? then [r.value] else []
  }

  /** Decoding one frame, as a step. */
  function Step(defaultUnit: string): (Memory, string) -> (Memory, seq<Reading>) {
    (m: Memory, frame: string) => (FrameMemory(m, defaultUnit, frame), Emitted(FrameReading(m, defaultUnit, frame)))
  }

  /** Memory after decoding `frames` in order. */
  function After(m: Memory, defaultUnit: string, frames: seq<string>): Memory {
    FoldState(Step(defaultUnit), m, frames)
  }

  /** Readings given by `frames` in order. */
  function Readings(m: Memory, defaultUnit: string, frames: seq<string>): seq<Reading> {
    FoldOutput(Step(defaultUnit), m, frames)
  }

  lemma ReadingsUnfold(m: Memory, du: string, frame: string, rest: seq<string>)
    ensures After(m, du, [frame] + rest) == After(FrameMemory(m, du, frame), du, rest)
    ensures Readings(m, du, [frame] + rest)
         == Emitted(FrameReading(m, du, frame)) + Readings(FrameMemory(m, du, frame), du, rest)
  {
    assert ([frame] + rest)[1..] == rest;
  }

  lemma ReadingsAppend(m: Memory, du: string, a: seq<string>, b: seq<string>)
    ensures After(m, du, a + b) == After(After(m, du, a), du, b)
    ensures Readings(m, du, a + b) == Readings(m, du, a) + Readings(After(m, du, a), du, b)
  {
    FoldAppend(Step(du), m, a, b);
  }

  lemma FramesUnfold(done: seq<string>, buffer: string, frame: string, rest: string)
    requires Pop(buffer) == Some((frame, rest))
    ensures done + Frames(buffer) == done + [frame] + Frames(rest)
    ensures Leftover(buffer) == Leftover(rest)
  {
    assert Frames(buffer) == [frame] + Frames(rest);
  }

  lemma ReadingsSnoc(m: Memory, du: string, done: seq<string>, frame: string)
    ensures After(m, du, done + [frame]) == FrameMemory(After(m, du, done), du, frame)
    ensures Readings(m, du, done + [frame])
         == Readings(m, du, done) + Emitted(FrameReading(After(m, du, done), du, frame))
  {
    ReadingsAppend(m, du, done, [frame]);
    OneFrame(After(m, du, done), du, frame);
  }

  lemma OneFrame(m: Memory, du: string, frame: string)
    ensures After(m, du, [frame]) == FrameMemory(m, du, frame)
    ensures Readings(m, du, [frame]) == Emitted(FrameReading(m, du, frame))
  {
    ReadingsUnfold(m, du, frame, []);
    assert [frame] + [] == [frame];
  }

  class SerialStreamDecoder {
    var pending: string
    var lastUnit: string
    var seenParsedValue: bool
    const defaultUnit: string

    ghost predicate Valid()
      reads this
    {
      NoDelimiter(pending) && |pending| <= BUFFER
    }

    function Mem(): Memory
      reads this
    {
      Memory(lastUnit, seenParsedValue)
    }

    constructor (defaultUnit: string)
      ensures Valid() && pending == "" && this.defaultUnit == defaultUnit
      ensures Mem() == Memory(if Trim(defaultUnit) == "" then "kg" else Lower(Trim(defaultUnit)), false)
    {
      pending := "";
      lastUnit := if Trim(defaultUnit) == "" then "kg" else Lower(Trim(defaultUnit));
      seenParsedValue := false;
      this.defaultUnit := defaultUnit;
    }

    method FrameToReading(frame: string) returns (r: Option<Reading>)
      modifies `lastUnit, `seenParsedValue
      ensures r == FrameReading(old(Mem()), defaultUnit, frame)
      ensures Mem() == FrameMemory(old(Mem()), defaultUnit, frame)
    {
      var trimmed := Trim(frame);
      if trimmed == "" {
        if !seenParsedValue {
          return None;
        }
        return Some(Serial(lastUnit).(weight := Some(0.0), raw := EMPTY_FRAME));
      }
      var parsed := ParseWeight(trimmed, defaultUnit);
      if parsed.None? {
        return Some(Serial(lastUnit).(raw := trimmed));
      }
      if Trim(parsed.value.unit) != "" {
        lastUnit := parsed.value.unit;
      }
      seenParsedValue := true;
      return Some(Serial(lastUnit).(
        weight := Some(parsed.value.weight), stable := parsed.value.stable, raw := trimmed));
    }

    method PushChunk(chunk: string) returns (out: seq<Reading>)
      modifies this
      ensures Valid() && |pending| <= 1024
      ensures var buffer := AppendRaw(old(pending), chunk, 1024);
        && pending == Leftover(buffer)
        && out == Readings(old(Mem()), defaultUnit, Frames(buffer))
        && Mem() == After(old(Mem()), defaultUnit, Frames(buffer))
    {
      pending := AppendRaw(pending, chunk, BUFFER);
      ghost var buffer := pending;
      ghost var done: seq<string> := [];
      out := [];
      while true
        invariant |pending| <= BUFFER
        invariant Leftover(buffer) == Leftover(pending)
        invariant Frames(buffer) == done + Frames(pending)
        invariant out == Readings(old(Mem()), defaultUnit, done)
        invariant Mem() == After(old(Mem()), defaultUnit, done)
        decreases |pending|
      {
        var popped := PopSerialFrame(pending);
        if popped.None? {
          assert done + [] == done;
          break;
        }
        FramesUnfold(done, pending, popped.value.0, popped.value.1);
        ReadingsSnoc(old(Mem()), defaultUnit, done, popped.value.0);
        pending := popped.value.1;
        var reading := FrameToReading(popped.value.0);
        if reading.Some? {
          out := out + [reading.value];
        }
        done := done + [popped.value.0];
      }
    }
  }

  /* ----- whole runs over many chunks ----- */

  /** Text left unread after a chunk. */
  function Unread(pending: string, chunk: string): string {
    Leftover(AppendRaw(pending, chunk, BUFFER))
  }

  /** Every chunk fits in the buffer beside the text left from before it. */
  predicate Fits(pending: string, chunks: seq<string>)
    decreases |chunks|
  {
    chunks == [] || (|pending| + |chunks[0]| <= BUFFER && Fits(Unread(pending, chunks[0]), chunks[1..]))
  }

  /** All frames popped over a run of pushes. */
  function RunFrames(pending: string, chunks: seq<string>): seq<string>
    decreases |chunks|
  {
    if chunks == [] then []
    else Frames(AppendRaw(pending, chunks[0], BUFFER)) + RunFrames(Unread(pending, chunks[0]), chunks[1..])
  }

  function RunUnread(pending: string, chunks: seq<string>): string
    decreases |chunks|
  {
    if chunks == [] then pending else RunUnread(Unread(pending, chunks[0]), chunks[1..])
  }

  /** The decoder pushed with each chunk in turn. */
  method PushAll(decoder: SerialStreamDecoder, chunks: seq<string>) returns (out: seq<Reading>)
    modifies decoder
    ensures out == Readings(old(decoder.Mem()), decoder.defaultUnit, RunFrames(old(decoder.pending), chunks))
    ensures decoder.Mem() == After(old(decoder.Mem()), decoder.defaultUnit, RunFrames(old(decoder.pending), chunks))
    ensures decoder.pending == RunUnread(old(decoder.pending), chunks)
  {
    if chunks == [] {
      return [];
    }
    ghost var m, frames := decoder.Mem(), Frames(AppendRaw(decoder.pending, chunks[0], BUFFER));
    var first := decoder.PushChunk(chunks[0]);
    ghost var later := RunFrames(decoder.pending, chunks[1..]);
    var rest := PushAll(decoder, chunks[1..]);
    ReadingsAppend(m, decoder.defaultUnit, frames, later);
    out := first + rest;
  }

  /** Chunks that open with a delimiter while no text is unread: each of them,
      and nothing else, yields a zero-length frame. */
  function Blanks(pending: string, chunks: seq<string>): nat
    decreases |chunks|
  {
    if chunks == [] then 0
    else (if OpensEmpty(pending, chunks[0]) then 1 else 0) + Blanks(Unread(pending, chunks[0]), chunks[1..])
  }

  function NonEmpty(frames: seq<string>): seq<string> {
    if frames == [] then []
    else (if frames[0] == "" then [] else [frames[0]]) + NonEmpty(frames[1..])
  }

  lemma {:induction false} NonEmptyAppend(a: seq<string>, b: seq<string>)
    ensures NonEmpty(a + b) == NonEmpty(a) + NonEmpty(b)
  {
    if a == [] {
      assert a + b == b;
    } else {
      assert (a + b)[0] == a[0] && (a + b)[1..] == a[1..] + b;
      NonEmptyAppend(a[1..], b);
    }
  }

  lemma {:induction false} LinesNonEmpty(line: string, s: string)
    ensures NonEmpty(Lines(line, s)) == Lines(line, s)
    decreases |s|
  {
    if s != "" {
      if IsDelimiter(s[0]) {
        LinesNonEmpty("", s[1..]);
        NonEmptyAppend(if line == "" then [] else [line], Lines("", s[1..]));
      } else {
        LinesNonEmpty(line + [s[0]], s[1..]);
      }
    }
  }

  /** Chunking invariance of the framer: however the stream is cut, the
      non-empty frames, the unread text and the state of the stream are those of
      reading it one character at a time; zero-length frames are counted by `Blanks`. */
  lemma {:induction false} FramesIgnoreChunking(pending: string, chunks: seq<string>)
    requires NoDelimiter(pending) && Fits(pending, chunks)
    ensures NonEmpty(RunFrames(pending, chunks)) == Lines(pending, Concat(chunks))
    ensures |RunFrames(pending, chunks)| == |Lines(pending, Concat(chunks))| + Blanks(pending, chunks)
    ensures RunUnread(pending, chunks) == OpenLine(pending, Concat(chunks))
    decreases |chunks|
  {
    if chunks != [] {
      var unread := Unread(pending, chunks[0]);
      OneChunk(pending, chunks[0]);
      FramesIgnoreChunking(unread, chunks[1..]);
      LinesAppend(pending, chunks[0], Concat(chunks[1..]));
      NonEmptyAppend(Frames(pending + chunks[0]), RunFrames(unread, chunks[1..]));
    }
  }

  lemma OneChunk(pending: string, chunk: string)
    requires NoDelimiter(pending)
    ensures NonEmpty(Frames(pending + chunk)) == Lines(pending, chunk)
    ensures |Frames(pending + chunk)| == |Lines(pending, chunk)| + (if OpensEmpty(pending, chunk) then 1 else 0)
    ensures Leftover(pending + chunk) == OpenLine(pending, chunk)
  {
    DrainIsLines(pending, chunk);
    LinesNonEmpty(pending, chunk);
    NonEmptyAppend(if OpensEmpty(pending, chunk) then [""] else [], Lines(pending, chunk));
  }

  /* ----- a chunk that does not fit ----- */

  /** When text overflows the buffer its front is lost and the rest is read as if it began there: the
      line that was cut keeps only what follows the cut, every later line is as in the whole text. */
  lemma OverflowReads(pending: string, chunk: string, dropped: string, head: string, run: string, tail: string)
    requires |pending| + |chunk| > BUFFER && |head + run + tail| == BUFFER
    requires dropped + (head + run + tail) == pending + chunk
    requires NoDelimiter(head) && AllDelimiters(run) && run != ""
    ensures var frames := Frames(AppendRaw(pending, chunk, BUFFER));
      NonEmpty(frames) == (if head == "" then [] else [head]) + Lines("", tail)
    ensures var cut := OpenLine("", dropped) + head;
      Lines("", pending + chunk) == Lines("", dropped) + ((if cut == "" then [] else [cut]) + Lines("", tail))
    ensures Unread(pending, chunk) == OpenLine("", tail) == OpenLine("", pending + chunk)
  {
    var kept := head + run + tail;
    KeptIs(pending, chunk, dropped, kept);
    assert "" + kept == kept && "" + head == head;
    OneChunk("", kept);
    LinesOfSplit("", head, run, tail);
    LinesAppend("", dropped, kept);
    LinesOfSplit(OpenLine("", dropped), head, run, tail);
  }

  /** Without a line end in what is kept nothing is read, and all of it stays unread. */
  lemma OverflowWaits(pending: string, chunk: string, dropped: string, kept: string)
    requires |pending| + |chunk| > BUFFER && |kept| == BUFFER && dropped + kept == pending + chunk
    requires NoDelimiter(kept)
    ensures Frames(AppendRaw(pending, chunk, BUFFER)) == [] && Unread(pending, chunk) == kept
  {
    KeptIs(pending, chunk, dropped, kept);
  }

  lemma KeptIs(pending: string, chunk: string, dropped: string, kept: string)
    requires |pending| + |chunk| > BUFFER && |kept| == BUFFER && dropped + kept == pending + chunk
    ensures AppendRaw(pending, chunk, BUFFER) == kept
  {
    var all := pending + chunk;
    assert all[|all| - BUFFER..] == kept;
  }

  /* ----- readings over histories ----- */

  /** The frame has text with a weight in it. */
  predicate HasWeight(du: string, frame: string) {
    Trim(frame) != "" && Parse(Trim(frame), du).Some?
  }

  /** The unit of the last frame of the history that had a weight with one, or the one before it. */
  function UnitAfter(m: Memory, du: string, frames: seq<string>): string {
    if frames == [] then m.lastUnit
    else
      var last := frames[|frames| - 1];
      if HasWeight(du, last) && Trim(Parse(Trim(last), du).value.unit) != "" then Parse(Trim(last), du).value.unit
      else UnitAfter(m, du, frames[..|frames| - 1])
  }

  predicate SeenIn(m: Memory, du: string, frames: seq<string>) {
    m.seen || exists i :: 0 <= i < |frames| && HasWeight(du, frames[i])
  }

  lemma SeenSnoc(m: Memory, du: string, frames: seq<string>, frame: string)
    ensures SeenIn(m, du, frames + [frame]) <==> SeenIn(m, du, frames) || HasWeight(du, frame)
  {
    var all := frames + [frame];
    assert all[|frames|] == frame && forall i :: 0 <= i < |frames| ==> all[i] == frames[i];
    if i :| 0 <= i < |frames| && HasWeight(du, frames[i]) {
      assert HasWeight(du, all[i]);
    }
  }

  lemma MemoryNext(m: Memory, du: string, frame: string)
    ensures FrameMemory(m, du, frame).seen == (m.seen || HasWeight(du, frame))
    ensures FrameMemory(m, du, frame).lastUnit ==
      if HasWeight(du, frame) && Trim(Parse(Trim(frame), du).value.unit) != "" then Parse(Trim(frame), du).value.unit
      else m.lastUnit
  {
  }

  /** What the decoder remembers after any frames. */
  lemma {:induction false} MemoryIs(m: Memory, du: string, frames: seq<string>)
    ensures After(m, du, frames) == Memory(UnitAfter(m, du, frames), SeenIn(m, du, frames))
    decreases |frames|
  {
    if frames != [] {
      var front, last := frames[..|frames| - 1], frames[|frames| - 1];
      assert frames == front + [last];
      MemoryIs(m, du, front);
      ReadingsSnoc(m, du, front, last);
      SeenSnoc(m, du, front, last);
      MemoryNext(After(m, du, front), du, last);
    }
  }

  /** What a frame gives, told by the frames up to it: a blank one nothing before the first weight
      and a zero after it; a text without a weight itself alone; any other its weight and flag. Each
      shows the last unit that came with a weight. */
  lemma ReadingOverHistory(m: Memory, du: string, frames: seq<string>, frame: string)
    ensures var r, text := FrameReading(After(m, du, frames), du, frame), Trim(frame);
      && (text == "" && !SeenIn(m, du, frames) ==> r == None)
      && (text == "" && SeenIn(m, du, frames) ==>
            r == Some(Reading(Some(0.0), UnitAfter(m, du, frames), None, "<empty-frame>", "")))
      && (text != "" && Parse(text, du) == None ==>
            r == Some(Reading(None, UnitAfter(m, du, frames), None, text, "")))
      && (text != "" && Parse(text, du) != None ==>
            var p := Parse(text, du).value;
            r == Some(Reading(Some(p.weight), UnitAfter(m, du, frames + [frame]), p.stable, text, "")))
  {
    MemoryIs(m, du, frames);
    MemoryIs(m, du, frames + [frame]);
    ReadingsSnoc(m, du, frames, frame);
  }
}
