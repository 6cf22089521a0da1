/** What cutting the serial stream into chunks can and cannot change. */
module ScaleChunking {
  import opened Text
  import opened ScaleFrame
  import opened ScaleParser
  import opened ScaleWeight
  import opened ScaleStream

  /** The readings that come from frames of non-zero length. */
  function Kept(m: Memory, du: string, frames: seq<string>): seq<Reading>
    decreases |frames|
  {
    if frames == [] then []
    else
      (if frames[0] == "" then [] else Emitted(FrameReading(m, du, frames[0])))
      + Kept(FrameMemory(m, du, frames[0]), du, frames[1..])
  }

  /** How many zero-length frames arrive once a weight has been seen. */
  function BlankReadings(m: Memory, du: string, frames: seq<string>): nat
    decreases |frames|
  {
    if frames == [] then 0
    else
      (if frames[0] == "" && m.seen then 1 else 0)
      + BlankReadings(FrameMemory(m, du, frames[0]), du, frames[1..])
  }

  lemma EmptyFrame(m: Memory, du: string)
    ensures FrameMemory(m, du, "") == m
    ensures |Emitted(FrameReading(m, du, ""))| == if m.seen then 1 else 0
  {
  }

  lemma {:induction false} DroppingBlanks(m: Memory, du: string, frames: seq<string>)
    ensures After(m, du, frames) == After(m, du, NonEmpty(frames))
    ensures Kept(m, du, frames) == Readings(m, du, NonEmpty(frames))
    ensures |Readings(m, du, frames)| == |Kept(m, du, frames)| + BlankReadings(m, du, frames)
    ensures BlankReadings(m, du, frames) == 0 ==> Readings(m, du, frames) == Kept(m, du, frames)
    decreases |frames|
  {
    if frames != [] {
      EmptyFrame(m, du);
      DroppingBlanks(FrameMemory(m, du, frames[0]), du, frames[1..]);
      if frames[0] != "" {
        ReadingsUnfold(m, du, frames[0], NonEmpty(frames[1..]));
      } else {
        assert NonEmpty(frames) == NonEmpty(frames[1..]);
      }
    }
  }

  /** No chunk opens with a delimiter while nothing is unread and a weight has
      already been seen. */
  predicate NoPhantom(m: Memory, du: string, pending: string, chunks: seq<string>)
    decreases |chunks|
  {
    chunks == [] ||
    (!(OpensEmpty(pending, chunks[0]) && m.seen)
     && NoPhantom(After(m, du, Frames(AppendRaw(pending, chunks[0], BUFFER))), du,
                  Unread(pending, chunks[0]), chunks[1..]))
  }

  lemma {:induction false} BlankReadingsAppend(m: Memory, du: string, a: seq<string>, b: seq<string>)
    ensures BlankReadings(m, du, a + b) == BlankReadings(m, du, a) + BlankReadings(After(m, du, a), du, b)
    decreases |a|
  {
    if a == [] {
      assert a + b == b;
    } else {
      assert (a + b)[0] == a[0] && (a + b)[1..] == a[1..] + b;
      BlankReadingsAppend(FrameMemory(m, du, a[0]), du, a[1..], b);
    }
  }

  lemma {:induction false} LinesGiveNoBlankReading(m: Memory, du: string, frames: seq<string>)
    requires NonEmpty(frames) == frames
    ensures BlankReadings(m, du, frames) == 0
    decreases |frames|
  {
    if frames != [] {
      NonEmptyShorter(frames[1..]);
      LinesGiveNoBlankReading(FrameMemory(m, du, frames[0]), du, frames[1..]);
    }
  }

  lemma {:induction false} NonEmptyShorter(frames: seq<string>)
    ensures |NonEmpty(frames)| <= |frames|
    ensures |NonEmpty(frames)| == |frames| ==> NonEmpty(frames) == frames
  {
    if frames != [] {
      NonEmptyShorter(frames[1..]);
    }
  }

  lemma ChunkBlankReadings(m: Memory, du: string, pending: string, chunk: string)
    requires NoDelimiter(pending)
    ensures BlankReadings(m, du, Frames(pending + chunk)) == if OpensEmpty(pending, chunk) && m.seen then 1 else 0
  {
    DrainIsLines(pending, chunk);
    LinesNonEmpty(pending, chunk);
    LinesGiveNoBlankReading(m, du, Lines(pending, chunk));
    EmptyFrame(m, du);
    if OpensEmpty(pending, chunk) {
      BlankReadingsAppend(m, du, [""], Lines(pending, chunk));
      assert After(m, du, [""]) == m;
      assert BlankReadings(m, du, [""]) == if m.seen then 1 else 0;
    } else {
      assert [] + Lines(pending, chunk) == Lines(pending, chunk);
    }
  }

  lemma {:induction false} PhantomsAreBlankReadings(m: Memory, du: string, pending: string, chunks: seq<string>)
    requires NoDelimiter(pending) && Fits(pending, chunks)
    ensures NoPhantom(m, du, pending, chunks) <==> BlankReadings(m, du, RunFrames(pending, chunks)) == 0
    decreases |chunks|
  {
    if chunks != [] {
      var frames := Frames(pending + chunks[0]);
      ChunkBlankReadings(m, du, pending, chunks[0]);
      PhantomsAreBlankReadings(After(m, du, frames), du, Unread(pending, chunks[0]), chunks[1..]);
      BlankReadingsAppend(m, du, frames, RunFrames(Unread(pending, chunks[0]), chunks[1..]));
    }
  }

  /** Chunking invariance of the decoder. Any two ways to cut one stream into
      chunks that fit leave the same memory and give the same readings for frames
      of non-zero length, namely those of the stream's lines; the whole output is
      that of the lines exactly when no phantom arises. */
  lemma ReadingsIgnoreChunking(m: Memory, du: string, pending: string, chunks: seq<string>)
    requires NoDelimiter(pending) && Fits(pending, chunks)
    ensures var lines, frames := Lines(pending, Concat(chunks)), RunFrames(pending, chunks);
      && After(m, du, frames) == After(m, du, lines)
      && Kept(m, du, frames) == Readings(m, du, lines)
      && (Readings(m, du, frames) == Readings(m, du, lines) <==> NoPhantom(m, du, pending, chunks))
  {
    FramesIgnoreChunking(pending, chunks);
    DroppingBlanks(m, du, RunFrames(pending, chunks));
    PhantomsAreBlankReadings(m, du, pending, chunks);
  }

  /** Cutting between the two characters of a CR LF pair adds a zero weight that
      the uncut text does not give, whatever the line before it says. */
  lemma SplitCrLfAddsZero(m: Memory, du: string, line: string)
    requires m.seen && NoDelimiter(line) && line != "" && |line| + 2 <= BUFFER
    ensures var once := Readings(m, du, RunFrames("", [line + "\r\n"]));
      var twice := Readings(m, du, RunFrames("", [line + "\r", "\n"]));
      && |twice| == |once| + 1
      && twice[|once|].weight == Some(0.0) && twice[|once|].raw == EMPTY_FRAME
  {
    CrLfTogether(line);
    CrLfApart(line);
    BlankAfterLine(m, du, line);
  }

  lemma CrLfTogether(line: string)
    requires NoDelimiter(line) && |line| + 2 <= BUFFER
    ensures RunFrames("", [line + "\r\n"]) == [line]
  {
    PopSplits(line, "\r\n", "");
    assert line + "\r\n" + "" == line + "\r\n";
    OneLineThenEnd(line, line + "\r\n");
    RunOfOne(line + "\r\n");
  }

  lemma CrLfApart(line: string)
    requires NoDelimiter(line) && |line| + 1 <= BUFFER
    ensures RunFrames("", [line + "\r", "\n"]) == [line] + [""]
  {
    PopSplits(line, "\r", "");
    PopSplits("", "\n", "");
    assert line + "\r" + "" == line + "\r" && "" + "\n" + "" == "\n";
    OneLineThenEnd(line, line + "\r");
    OneLineThenEnd("", "\n");
    RunOfTwo(line + "\r", "\n");
  }

  lemma SeenStays(m: Memory, du: string, frame: string)
    requires m.seen
    ensures FrameMemory(m, du, frame).seen
  {
  }

  lemma BlankAfterLine(m: Memory, du: string, line: string)
    requires m.seen
    ensures var once, twice := Readings(m, du, [line]), Readings(m, du, [line] + [""]);
      && |twice| == |once| + 1
      && twice[|once|].weight == Some(0.0) && twice[|once|].raw == EMPTY_FRAME
  {
    ReadingsSnoc(m, du, [line], "");
    OneFrame(m, du, line);
    SeenStays(m, du, line);
    BlankReading(FrameMemory(m, du, line), du);
  }

  lemma BlankReading(m: Memory, du: string)
    requires m.seen
    ensures var r := Emitted(FrameReading(m, du, ""));
      |r| == 1 && r[0].weight == Some(0.0) && r[0].raw == EMPTY_FRAME
  {
  }

  lemma OneLineThenEnd(line: string, buffer: string)
    requires Pop(buffer) == Some((line, ""))
    ensures Frames(buffer) == [line] && Leftover(buffer) == ""
  {
    assert Pop("") == None;
  }

  lemma RunOfOne(chunk: string)
    requires |chunk| <= BUFFER
    ensures RunFrames("", [chunk]) == Frames(chunk)
  {
    assert "" + chunk == chunk;
  }

  lemma RunOfTwo(first: string, second: string)
    requires |first| <= BUFFER && |second| <= BUFFER && Leftover(first) == ""
    ensures RunFrames("", [first, second]) == Frames(first) + Frames(second)
  {
    assert "" + first == first;
    assert [first, second][1..] == [second];
    RunOfOne(second);
  }

  /* ----- when chunks fit ----- */

  /** Every line of the stream, finished or not, has at most `limit` characters. */
  predicate LinesWithin(line: string, s: string, limit: nat)
    decreases |s|
  {
    |line| <= limit
    && (s == "" || LinesWithin(if IsDelimiter(s[0]) then "" else line + [s[0]], s[1..], limit))
  }

  lemma {:induction false} LinesWithinSplit(line: string, a: string, b: string, limit: nat)
    requires LinesWithin(line, a + b, limit)
    ensures LinesWithin(OpenLine(line, a), b, limit)
    decreases |a|
  {
    if a == "" {
      assert a + b == b;
    } else {
      assert (a + b)[0] == a[0] && (a + b)[1..] == a[1..] + b;
      LinesWithinSplit(if IsDelimiter(a[0]) then "" else line + [a[0]], a[1..], b, limit);
    }
  }

  /** Chunks no longer than what short lines leave free always fit; the serial
      reader's 256-byte reads fit when no line passes 768 bytes. */
  lemma {:induction false} ShortLinesFit(pending: string, chunks: seq<string>, limit: nat)
    requires NoDelimiter(pending) && LinesWithin(pending, Concat(chunks), limit)
    requires forall c :: c in chunks ==> limit + |c| <= BUFFER
    ensures Fits(pending, chunks)
    decreases |chunks|
  {
    if chunks != [] {
      assert chunks[0] in chunks;
      DrainIsLines(pending, chunks[0]);
      LinesWithinSplit(pending, chunks[0], Concat(chunks[1..]), limit);
      ShortLinesFit(Unread(pending, chunks[0]), chunks[1..], limit);
    }
  }

  /** Every delimiter of the stream ends a line that has text. */
  predicate NoBlankLine(line: string, s: string)
    decreases |s|
  {
    s == "" ||
    (if IsDelimiter(s[0]) then line != "" && NoBlankLine("", s[1..]) else NoBlankLine(line + [s[0]], s[1..]))
  }

  lemma {:induction false} NoBlankLineSplit(line: string, a: string, b: string)
    requires NoBlankLine(line, a + b)
    ensures NoBlankLine(OpenLine(line, a), b)
    decreases |a|
  {
    if a == "" {
      assert a + b == b;
    } else {
      assert (a + b)[0] == a[0] && (a + b)[1..] == a[1..] + b;
      NoBlankLineSplit(if IsDelimiter(a[0]) then "" else line + [a[0]], a[1..], b);
    }
  }

  lemma {:induction false} NoBlankLineNoBlanks(pending: string, chunks: seq<string>)
    requires NoDelimiter(pending) && Fits(pending, chunks) && NoBlankLine(pending, Concat(chunks))
    ensures Blanks(pending, chunks) == 0
    decreases |chunks|
  {
    if chunks != [] {
      var rest := Concat(chunks[1..]);
      DrainIsLines(pending, chunks[0]);
      NoBlankLineSplit(pending, chunks[0], rest);
      NoBlankLineNoBlanks(Unread(pending, chunks[0]), chunks[1..]);
      if chunks[0] != "" {
        assert (chunks[0] + rest)[0] == chunks[0][0];
      }
    }
  }

  /** A stream without blank lines is popped as its lines under every chunking. */
  lemma FramesAreLines(pending: string, chunks: seq<string>)
    requires NoDelimiter(pending) && Fits(pending, chunks) && NoBlankLine(pending, Concat(chunks))
    ensures RunFrames(pending, chunks) == Lines(pending, Concat(chunks))
  {
    FramesIgnoreChunking(pending, chunks);
    NoBlankLineNoBlanks(pending, chunks);
    NonEmptyShorter(RunFrames(pending, chunks));
  }

  /* ----- the unit remembered between frames ----- */

  lemma {:induction false} TrimNothing(s: string)
    requires s != "" && !IsSpace(s[0]) && !IsSpace(s[|s| - 1])
    ensures Trim(s) == s
  {
  }

  lemma {:induction false} UnitlessCandidates(s: string, ms: seq<Match>, du: string, c: Candidate)
    requires AllParses(s, ms) && c in Candidates(s, ms, du) && !c.hasUnit
    ensures c.unit == Lower(Trim(du))
  {
    var first := ToCandidate(s, ms[0], du);
    assert !first.hasUnit ==> first.unit == Lower(Trim(du));
    if c in Candidates(s, ms[1..], du) {
      UnitlessCandidates(s, ms[1..], du, c);
    }
  }

  /** The best candidate of the frame's text was written without a unit. */
  predicate Unitless(text: string, du: string) {
    var best := Best(FrameCandidates(NormalizeMinus(text), du));
    best.Some? && !best.value.hasUnit
  }

  lemma UnitlessParse(text: string, du: string)
    requires Unitless(text, du)
    ensures Parse(text, du).Some? && Parse(text, du).value.unit == Lower(Trim(du))
  {
    var s := NormalizeMinus(text);
    FrameCandidatesFromFrame(s, du);
    BestBeatsTheRest(FrameCandidates(s, du));
    MatchesParse(s, 0);
    UnitlessCandidates(s, Matches(s, 0), du, Best(FrameCandidates(s, du)).value);
  }

  lemma TrimLowerTrim(s: string)
    ensures Trim(Lower(Trim(s))) == "" <==> Trim(s) == ""
  {
    var t := Trim(s);
    if t != "" {
      TrimNothing(Lower(t));
    }
  }

  /** The scale contract says a frame without a unit reuses the last parsed
      unit. The decoder does so exactly when the configured default unit is blank
      or already equal to it; otherwise it falls back to the default. */
  lemma UnitlessFrame(m: Memory, du: string, frame: string)
    requires Trim(frame) != "" && Unitless(Trim(frame), du)
    ensures FrameMemory(m, du, frame).lastUnit == (if Trim(du) == "" then m.lastUnit else Lower(Trim(du)))
    ensures FrameMemory(m, du, frame).lastUnit == m.lastUnit <==> Trim(du) == "" || Lower(Trim(du)) == m.lastUnit
  {
    UnitlessParse(Trim(frame), du);
    TrimLowerTrim(du);
  }
}
