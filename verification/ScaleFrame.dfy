/** Splitting the raw serial text into frames (src/scale/frame.rs). */
module ScaleFrame {
  import opened Text

  predicate IsDelimiter(c: char) {
    c == '\r' || c == '\n'
  }

  predicate IsPlain(c: char) {
    !IsDelimiter(c)
  }

  predicate NoDelimiter(s: string) {
    forall i :: 0 <= i < |s| ==> !IsDelimiter(s[i])
  }

  predicate AllDelimiters(s: string) {
    forall i :: 0 <= i < |s| ==> IsDelimiter(s[i])
  }

  /** The first frame of `buffer` and what follows the delimiters after it. */
  function Pop(buffer: string): (popped: Option<(string, string)>)
    ensures popped.None? <==> NoDelimiter(buffer)
    ensures popped.Some? ==> |popped.value.1| < |buffer| && NoDelimiter(popped.value.0)
  {
    var frameEnd := RunEnd(buffer, 0, IsPlain);
    if frameEnd == |buffer| then None
    else
      assert IsDelimiter(buffer[frameEnd]);
      Some((buffer[..frameEnd], buffer[RunEnd(buffer, frameEnd, IsDelimiter)..]))
  }

  /** `Pop` is the only way to read the buffer as frame, delimiters, rest. */
  lemma PopSplits(frame: string, run: string, rest: string)
    requires NoDelimiter(frame) && AllDelimiters(run) && run != ""
    requires rest != "" ==> !IsDelimiter(rest[0])
    ensures Pop(frame + run + rest) == Some((frame, rest))
  {
    var buffer := frame + run + rest;
    var mid := |frame| + |run|;
    assert forall k :: |frame| <= k < mid ==> buffer[k] == run[k - |frame|];
    assert forall k :: mid <= k < |buffer| ==> buffer[k] == rest[k - mid];
    RunEndIs(buffer, 0, |frame|, IsPlain);
    RunEndIs(buffer, |frame|, mid, IsDelimiter);
    assert buffer[..|frame|] == frame;
    assert buffer[mid..] == rest;
  }

  method PopSerialFrame(buffer: string) returns (popped: Option<(string, string)>)
    ensures popped == Pop(buffer)
    ensures popped.None? <==> NoDelimiter(buffer)
  {
    var index := 0;
    while index < |buffer| && !IsDelimiter(buffer[index])
      invariant index <= |buffer|
      invariant NoDelimiter(buffer[..index])
    {
      index := index + 1;
    }
    RunEndIs(buffer, 0, index, IsPlain);
    if index == |buffer| {
      return None;
    }
    var restIndex := index;
    while restIndex < |buffer| && IsDelimiter(buffer[restIndex])
      invariant index <= restIndex <= |buffer|
      invariant forall k :: index <= k < restIndex ==> IsDelimiter(buffer[k])
      invariant restIndex == index ==> IsDelimiter(buffer[index])
    {
      restIndex := restIndex + 1;
    }
    RunEndIs(buffer, index, restIndex, IsDelimiter);
    return Some((buffer[..index], buffer[restIndex..]));
  }

  /** The kept text: all of it, or its last `max` characters. */
  function AppendRaw(existing: string, chunk: string, max: nat): (r: string)
    ensures |r| <= max
    ensures r == existing + chunk <==> |existing| + |chunk| <= max
    ensures |existing| + |chunk| > max ==>
      |r| == max && exists dropped: string :: dropped + r == existing + chunk
  {
    var combined := existing + chunk;
    if |combined| <= max then combined
    else
      assert combined[..|combined| - max] + combined[|combined| - max..] == combined;
      combined[|combined| - max..]
  }

  /* ----- draining a buffer ----- */

  /** Every frame popped from `buffer` until none is left. */
  function Frames(buffer: string): seq<string>
    decreases |buffer|
  {
    match Pop(buffer)
    case None => []
    case Some((frame, rest)) => [frame] + Frames(rest)
  }

  /** What is left of `buffer` once no frame can be popped. */
  function Leftover(buffer: string): (r: string)
    ensures NoDelimiter(r) && |r| <= |buffer|
    decreases |buffer|
  {
    match Pop(buffer)
    case None => buffer
    case Some((_, rest)) => Leftover(rest)
  }

  /* ----- the same stream read one character at a time ----- */

  /** Non-empty lines of `s`, continuing an unfinished line `line`. */
  function Lines(line: string, s: string): seq<string>
    decreases |s|
  {
    if s == "" then []
    else if !IsDelimiter(s[0]) then Lines(line + [s[0]], s[1..])
    else (if line == "" then [] else [line]) + Lines("", s[1..])
  }

  /** The unfinished line after `s`. */
  function OpenLine(line: string, s: string): string
    decreases |s|
  {
    if s == "" then line
    else OpenLine(if IsDelimiter(s[0]) then "" else line + [s[0]], s[1..])
  }

  lemma {:induction false} LinesAppend(line: string, a: string, b: string)
    ensures Lines(line, a + b) == Lines(line, a) + Lines(OpenLine(line, a), b)
    ensures OpenLine(line, a + b) == OpenLine(OpenLine(line, a), b)
    decreases |a|
  {
    if a == "" {
      assert a + b == b;
    } else {
      assert (a + b)[0] == a[0] && (a + b)[1..] == a[1..] + b;
      LinesAppend(if IsDelimiter(a[0]) then "" else line + [a[0]], a[1..], b);
    }
  }

  lemma {:induction false} LinesOfPlain(line: string, s: string)
    requires NoDelimiter(s)
    ensures Lines(line, s) == [] && OpenLine(line, s) == line + s
    decreases |s|
  {
    if s != "" {
      LinesOfPlain(line + [s[0]], s[1..]);
      assert line + [s[0]] + s[1..] == line + s;
    } else {
      assert line + s == line;
    }
  }

  lemma {:induction false} LinesOfRun(line: string, run: string)
    requires AllDelimiters(run) && run != ""
    ensures Lines(line, run) == (if line == "" then [] else [line])
    ensures OpenLine(line, run) == ""
    decreases |run|
  {
    if |run| > 1 {
      LinesOfRun("", run[1..]);
    }
  }

  lemma LinesOfSplit(line: string, plain: string, run: string, rest: string)
    requires NoDelimiter(plain) && AllDelimiters(run) && run != ""
    ensures Lines(line, plain + run + rest)
         == (if line + plain == "" then [] else [line + plain]) + Lines("", rest)
    ensures OpenLine(line, plain + run + rest) == OpenLine("", rest)
  {
    LinesAppend(line, plain, run);
    LinesAppend(line, plain + run, rest);
    LinesOfPlain(line, plain);
    LinesOfRun(line + plain, run);
  }

  predicate OpensEmpty(pending: string, s: string) {
    pending == "" && s != "" && IsDelimiter(s[0])
  }

  lemma SplitFirstLine(s: string) returns (plain: string, run: string, rest: string)
    requires !NoDelimiter(s)
    ensures s == plain + run + rest && |rest| < |s|
    ensures NoDelimiter(plain) && AllDelimiters(run) && run != ""
    ensures rest != "" ==> !IsDelimiter(rest[0])
  {
    var k := RunEnd(s, 0, IsPlain);
    assert k < |s|;
    var e := RunEnd(s, k, IsDelimiter);
    assert e > k;
    plain, run, rest := s[..k], s[k..e], s[e..];
    ThreeParts(s, k, e);
  }

  lemma PlainAppend(a: string, b: string)
    requires NoDelimiter(a) && NoDelimiter(b)
    ensures NoDelimiter(a + b)
  {
  }

  lemma DrainStep(pending: string, plain: string, run: string, rest: string)
    requires NoDelimiter(pending) && NoDelimiter(plain) && AllDelimiters(run) && run != ""
    requires rest != "" ==> !IsDelimiter(rest[0])
    ensures Frames(pending + (plain + run + rest)) == [pending + plain] + Frames(rest)
    ensures Leftover(pending + (plain + run + rest)) == Leftover(rest)
  {
    var frame := pending + plain;
    PlainAppend(pending, plain);
    PopSplits(frame, run, rest);
    Regroup(pending, plain, run, rest);
    var popped := Pop(frame + run + rest);
    assert popped.value.0 == frame && popped.value.1 == rest;
  }

  lemma OpensEmptyIffNoText(line: string, plain: string, run: string, rest: string)
    requires NoDelimiter(plain) && AllDelimiters(run) && run != ""
    ensures OpensEmpty(line, plain + run + rest) <==> line + plain == ""
  {
    var s := plain + run + rest;
    assert s[0] == if plain == "" then run[0] else plain[0];
  }

  lemma DrainRest(pending: string, plain: string, run: string, rest: string)
    requires NoDelimiter(pending) && NoDelimiter(plain) && AllDelimiters(run) && run != ""
    requires rest != "" ==> !IsDelimiter(rest[0])
    requires Frames(rest) == Lines("", rest) && Leftover(rest) == OpenLine("", rest)
    ensures var s := plain + run + rest;
      && Frames(pending + s) == (if OpensEmpty(pending, s) then [""] else []) + Lines(pending, s)
      && Leftover(pending + s) == OpenLine(pending, s)
  {
    LinesOfSplit(pending, plain, run, rest);
    DrainStep(pending, plain, run, rest);
    OpensEmptyIffNoText(pending, plain, run, rest);
    if pending + plain == "" {
      assert [] + Lines("", rest) == Lines("", rest);
    } else {
      Assoc([], [pending + plain], Lines("", rest));
    }
  }

  /** Draining `pending + s` pops exactly the non-empty lines, preceded by one
      zero-length frame when `s` opens with a delimiter and nothing is pending. */
  lemma {:induction false} DrainIsLines(pending: string, s: string)
    requires NoDelimiter(pending)
    ensures Frames(pending + s) == (if OpensEmpty(pending, s) then [""] else []) + Lines(pending, s)
    ensures Leftover(pending + s) == OpenLine(pending, s)
    decreases |s|
  {
    if NoDelimiter(s) {
      LinesOfPlain(pending, s);
      assert NoDelimiter(pending + s);
    } else {
      var plain, run, rest := SplitFirstLine(s);
      DrainIsLines("", rest);
      assert "" + rest == rest && [] + Lines("", rest) == Lines("", rest);
      DrainRest(pending, plain, run, rest);
    }
  }
}
