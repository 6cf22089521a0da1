/** A request as a client writes it, and what the server's reader makes of it. */
module HttpMessage {
  import opened Text
  import opened HttpFraming

  const CRLF := "\r\n"

  /** A line of the head: some text without line ends. */
  predicate HeadLine(line: string) {
    line != "" && Plain(line)
  }

  predicate Plain(s: string) {
    forall i :: 0 <= i < |s| ==> s[i] != '\r' && s[i] != '\n'
  }

  predicate HeadLines(lines: seq<string>) {
    forall i :: 0 <= i < |lines| ==> HeadLine(lines[i])
  }

  /** A line that does not name the content length. */
  predicate OtherHeader(line: string) {
    var colon := Find(line, ":", 0);
    colon.None? || Lower(Trim(line[..colon.value])) != "content-length"
  }

  const LF := "\n"

  /** A client may end its lines with CR LF or with LF alone. */
  predicate LineEnd(e: string) {
    e == CRLF || e == LF
  }

  function Ended(lines: seq<string>, e: string): string {
    if lines == [] then "" else lines[0] + e + Ended(lines[1..], e)
  }

  /** A line that announces a length, with white space wherever the standard or the reader lets it. */
  datatype LengthLine = LengthLine(lead: string, name: string, gap: string, value: string)

  function LineText(l: LengthLine): string {
    l.lead + l.name + l.gap + ":" + l.value
  }

  predicate Blanks(s: string) {
    AllSpace(s) && Plain(s)
  }

  predicate NamesLength(l: LengthLine) {
    Blanks(l.lead) && Blanks(l.gap) && Lower(l.name) == "content-length" && Plain(l.value)
  }

  /** The value is `n`, digits with leading zeros, a plus sign and white space allowed. */
  predicate SaysLength(l: LengthLine, before: string, sign: string, digits: string, behind: string, n: nat) {
    && NamesLength(l) && l.value == before + (sign + digits) + behind
    && Blanks(before) && Blanks(behind) && (sign == "" || sign == "+")
    && digits != "" && AllDigits(digits) && DigitsValue(digits) == n && n < 0x1_0000_0000_0000_0000
  }

  /** The lines of a head: the request line, other headers, the length, and headers of any kind. */
  function HeadOf(requestLine: string, headers: seq<string>, l: LengthLine, more: seq<string>): seq<string> {
    [requestLine] + headers + [LineText(l)] + more
  }

  function Head(lines: seq<string>, e: string): string {
    Ended(lines, e) + e
  }

  /* ----- the first blank line is the one that ends the head ----- */

  lemma OccursShifted(front: string, back: string, needle: string, i: nat)
    ensures Occurs(front + back, |front| + i, needle) <==> Occurs(back, i, needle)
  {
    var s := front + back;
    if i + |needle| <= |back| {
      assert s[|front| + i..|front| + i + |needle|] == back[i..i + |needle|];
    }
  }

  lemma OccursChar(s: string, i: nat, needle: string, k: nat)
    requires k < |needle|
    ensures Occurs(s, i, needle) ==> i + k < |s| && s[i + k] == needle[k]
  {
    assert Occurs(s, i, needle) ==> s[i..i + |needle|][k] == s[i + k];
  }

  /** No blank line begins in a head line or its line end, when other text than a line end follows. */
  lemma NoBlankInLine(line: string, back: string, i: nat)
    requires HeadLine(line) && back != "" && i < |line| + 2 && back[0] != '\n'
    ensures !Occurs(line + CRLF + back, i, LF2)
    ensures back[0] != '\r' || i != |line| ==> !Occurs(line + CRLF + back, i, CRLF2)
  {
    var s := line + CRLF + back;
    assert s[|line|] == '\r' && s[|line| + 1] == '\n' && s[|line| + 2] == back[0];
    OccursChar(s, i, LF2, 0);
    OccursChar(s, i, LF2, 1);
    OccursChar(s, i, CRLF2, 0);
    OccursChar(s, i, CRLF2, 2);
  }

  /** The text of head lines, the empty line and any body: the first CR LF CR LF stands two
      characters before the body, and no LF LF before its last LF. */
  lemma {:induction false} BlankEndsHead(lines: seq<string>, body: string)
    requires lines != [] && HeadLines(lines)
    ensures |Ended(lines, CRLF)| > 2
    ensures FirstCrLfBlank(Ended(lines, CRLF) + (CRLF + body), |Ended(lines, CRLF)| - 2)
  {
    var line, rest := lines[0], lines[1..];
    var back := Ended(rest, CRLF) + (CRLF + body);
    var s := Ended(lines, CRLF) + (CRLF + body);
    Assoc(line + CRLF, Ended(rest, CRLF), CRLF + body);
    assert s == line + CRLF + back;
    if rest == [] {
      assert back == CRLF + body;
      BlankAfterLine(line, body, s);
    } else {
      BlankEndsHead(rest, body);
      assert HeadLine(rest[0]) && back[0] == rest[0][0];
      BlankLater(line, back, s, |Ended(rest, CRLF)| - 2);
    }
  }

  /** The first CR LF CR LF stands at `at`, and no LF LF before its end. */
  predicate FirstCrLfBlank(s: string, at: nat) {
    && Occurs(s, at, CRLF2)
    && (forall i :: 0 <= i < at ==> !Occurs(s, i, CRLF2))
    && forall i :: 0 <= i < at + 3 ==> !Occurs(s, i, LF2)
  }

  lemma BlankAfterLine(line: string, body: string, s: string)
    requires HeadLine(line) && s == line + CRLF + (CRLF + body)
    ensures FirstCrLfBlank(s, |line|)
  {
    assert s[|line|..|line| + 4] == CRLF2;
    forall i | 0 <= i < |line| + 3
      ensures !Occurs(s, i, LF2) && (i < |line| ==> !Occurs(s, i, CRLF2))
    {
      if i < |line| + 2 {
        NoBlankInLine(line, CRLF + body, i);
      } else {
        OccursChar(s, i, LF2, 0);
      }
    }
  }

  lemma BlankLater(line: string, back: string, s: string, at: nat)
    requires HeadLine(line) && back != "" && back[0] != '\r' && back[0] != '\n' && s == line + CRLF + back
    requires FirstCrLfBlank(back, at)
    ensures FirstCrLfBlank(s, |line| + 2 + at)
  {
    var front := line + CRLF;
    OccursShifted(front, back, CRLF2, at);
    forall i | 0 <= i < |front| + at + 3
      ensures !Occurs(s, i, LF2) && (i < |front| + at ==> !Occurs(s, i, CRLF2))
    {
      if i < |front| {
        NoBlankInLine(line, back, i);
      } else {
        OccursShifted(front, back, LF2, i - |front|);
        OccursShifted(front, back, CRLF2, i - |front|);
      }
    }
  }

  lemma FirstPlace(s: string, needle: string, at: nat)
    requires Occurs(s, at, needle) && forall i :: 0 <= i < at ==> !Occurs(s, i, needle)
    ensures Find(s, needle, 0) == Some(at)
  {
  }

  lemma LaterPlace(s: string, needle: string, at: nat)
    requires forall i :: 0 <= i < at ==> !Occurs(s, i, needle)
    ensures Find(s, needle, 0).Some? ==> Find(s, needle, 0).value >= at
  {
  }

  lemma CrLfHeadEnds(lines: seq<string>, body: string)
    requires lines != [] && HeadLines(lines)
    ensures var head := Head(lines, CRLF);
      && FirstBlank(head + body) == Some(|head|)
      && HeaderEndOffset(head + body) == Some(|head|)
  {
    var s, at := Ended(lines, CRLF) + (CRLF + body), |Ended(lines, CRLF)| - 2;
    BlankEndsHead(lines, body);
    assert s == Head(lines, CRLF) + body;
    FirstPlace(s, CRLF2, at);
    LaterPlace(s, LF2, at + 3);
  }

  /** A head whose lines end with LF has no CR, and its first LF LF is its end. */
  lemma {:induction false} LfBlankEndsHead(lines: seq<string>, body: string)
    requires lines != [] && HeadLines(lines)
    ensures var s, at := Ended(lines, LF) + LF + body, |Ended(lines, LF)| - 1;
      && at > 0 && Occurs(s, at, LF2)
      && (forall i :: 0 <= i < at ==> !Occurs(s, i, LF2))
      && forall i :: 0 <= i < at + 2 ==> s[i] != '\r'
  {
    var line, rest := lines[0], lines[1..];
    var back := Ended(rest, LF) + LF + body;
    var s := Ended(lines, LF) + LF + body;
    assert s == line + LF + back;
    if rest == [] {
      assert s[|line|..|line| + 2] == LF2;
      forall i | 0 <= i < |line|
        ensures !Occurs(s, i, LF2)
      {
        OccursChar(s, i, LF2, 0);
      }
    } else {
      LfBlankEndsHead(rest, body);
      assert HeadLine(rest[0]) && back[0] == rest[0][0];
      LfBlankLater(line, back, s, |Ended(rest, LF)| - 1);
    }
  }

  lemma LfBlankLater(line: string, back: string, s: string, at: nat)
    requires HeadLine(line) && at + 2 <= |back| && back[0] != '\n' && s == line + LF + back
    requires Occurs(back, at, LF2)
    requires forall i :: 0 <= i < at ==> !Occurs(back, i, LF2)
    requires forall i :: 0 <= i < at + 2 ==> back[i] != '\r'
    ensures var later := |line| + 1 + at;
      && Occurs(s, later, LF2)
      && (forall i :: 0 <= i < later ==> !Occurs(s, i, LF2))
      && forall i :: 0 <= i < later + 2 ==> s[i] != '\r'
  {
    var front := line + LF;
    OccursShifted(front, back, LF2, at);
    forall i | 0 <= i < |front| + at
      ensures !Occurs(s, i, LF2)
    {
      if i < |front| {
        OccursChar(s, i, LF2, 0);
        OccursChar(s, i, LF2, 1);
      } else {
        OccursShifted(front, back, LF2, i - |front|);
      }
    }
  }

  lemma NoCrNoCrLf(s: string, n: nat)
    requires n <= |s| && forall i :: 0 <= i < n ==> s[i] != '\r'
    ensures forall i :: 0 <= i < n ==> !Occurs(s, i, CRLF2)
  {
    forall i | 0 <= i < n
      ensures !Occurs(s, i, CRLF2)
    {
      OccursChar(s, i, CRLF2, 0);
    }
  }

  lemma LfHeadEnds(lines: seq<string>, body: string)
    requires lines != [] && HeadLines(lines)
    ensures var head := Head(lines, LF);
      && |head| >= 2 && FirstBlank(head + body) == Some(|head|)
      && Find(head + body, LF2, 0) == Some(|head| - 2)
      && forall i :: 0 <= i < |head| ==> !Occurs(head + body, i, CRLF2)
  {
    var s, at := Ended(lines, LF) + LF + body, |Ended(lines, LF)| - 1;
    LfBlankEndsHead(lines, body);
    FirstPlace(s, LF2, at);
    NoCrNoCrLf(s, at + 2);
    LaterPlace(s, CRLF2, at + 2);
  }

  /* ----- the length the head announces ----- */

  lemma DropsCr(line: string)
    ensures DropCr(line + ['\r']) == line
  {
  }

  lemma EndedBy<T>(line: seq<T>, first: T, second: T, rest: seq<T>)
    ensures line + [first] + [second] + rest == line + [first, second] + rest
  {
  }

  lemma OneEndedLine(line: string, rest: string, e: string)
    requires HeadLine(line) && LineEnd(e)
    ensures Lines(line + e + rest) == [line] + Lines(rest)
  {
    if e == CRLF {
      LinesUnfold(line + ['\r'], rest);
      DropsCr(line);
      EndedBy(line, '\r', '\n', rest);
    } else {
      LinesUnfold(line, rest);
    }
  }

  lemma {:induction false} LinesOfEnded(lines: seq<string>, rest: string, e: string)
    requires HeadLines(lines) && LineEnd(e)
    ensures Lines(Ended(lines, e) + rest) == lines + Lines(rest)
  {
    if lines == [] {
      assert "" + rest == rest && [] + Lines(rest) == Lines(rest);
    } else {
      var first, others := lines[0], lines[1..];
      LinesOfEnded(others, rest, e);
      assert HeadLine(first);
      OneEndedLine(first, Ended(others, e) + rest, e);
      Assoc(first + e, Ended(others, e), rest);
      Assoc([first], others, Lines(rest));
      assert [first] + others == lines;
    }
  }

  lemma ColonAfter(name: string, value: string)
    requires ':' !in name
    ensures Find(name + ":" + value, ":", 0) == Some(|name|)
    ensures (name + ":" + value)[..|name|] == name && (name + ":" + value)[|name| + 1..] == value
  {
    var line := name + ":" + value;
    forall i | 0 <= i < |name|
      ensures !Occurs(line, i, ":")
    {
      OccursChar(line, i, ":", 0);
      assert line[i] == name[i] && name[i] in name;
    }
    assert line[|name|..|name| + 1] == ":";
    FirstPlace(line, ":", |name|);
  }

  lemma LengthInFirst(name: string, value: string, after: seq<string>)
    requires ':' !in name && Lower(Trim(name)) == "content-length"
    ensures LengthIn([name + ":" + value] + after) == ParseUsize(Trim(value))
  {
    ColonAfter(name, value);
  }

  lemma NameChars(name: string)
    requires Lower(name) == "content-length"
    ensures |name| == 14 && Plain(name) && ':' !in name && !IsSpace(name[0]) && !IsSpace(name[|name| - 1])
  {
    forall k | 0 <= k < |name|
      ensures LowerChar(name[k]) == "content-length"[k] && name[k] != ':' && name[k] != '\r' && name[k] != '\n'
    {
      assert Lower(name)[k] == LowerChar(name[k]);
    }
  }

  lemma BlankHasNoColon(s: string)
    requires AllSpace(s)
    ensures ':' !in s
  {
  }

  /** The name is found in any case and with white space around it. */
  lemma NameReads(l: LengthLine)
    requires NamesLength(l)
    ensures ':' !in l.lead + l.name + l.gap && Trim(l.lead + l.name + l.gap) == l.name
    ensures HeadLine(LineText(l))
  {
    NameChars(l.name);
    BlankHasNoColon(l.lead);
    BlankHasNoColon(l.gap);
    TrimIs(l.lead, l.name, l.gap);
  }

  /** The first line that names the length decides, whatever its value. */
  lemma LengthLineDecides(l: LengthLine, after: seq<string>)
    requires NamesLength(l)
    ensures LengthIn([LineText(l)] + after) == ParseUsize(Trim(l.value))
  {
    NameReads(l);
    LengthInFirst(l.lead + l.name + l.gap, l.value, after);
  }

  lemma NumberReads(before: string, sign: string, digits: string, behind: string)
    requires AllSpace(before) && AllSpace(behind) && (sign == "" || sign == "+")
    requires digits != "" && AllDigits(digits) && DigitsValue(digits) < 0x1_0000_0000_0000_0000
    ensures ParseUsize(Trim(before + (sign + digits) + behind)) == Some(DigitsValue(digits))
  {
    assert IsDigit(digits[0]) && IsDigit(digits[|digits| - 1]);
    TrimIs(before, sign + digits, behind);
    assert sign == "" ==> sign + digits == digits;
    assert sign == "+" ==> (sign + digits)[1..] == digits;
  }

  /** A value that is no number of 64 bits is none at all. */
  lemma BadNumberIsNone(value: string)
    requires value == "" || value == "+" ||
      (exists i :: 0 <= i < |value| && !IsDigit(value[i]) && !(i == 0 && value[i] == '+')) ||
      (AllDigits(value) && DigitsValue(value) >= 0x1_0000_0000_0000_0000)
    ensures ParseUsize(value) == None
  {
    if i :| 0 <= i < |value| && !IsDigit(value[i]) && !(i == 0 && value[i] == '+') {
      assert value[0] == '+' ==> value[1..][i - 1] == value[i];
    }
  }

  lemma {:induction false} OthersAreSkipped(headers: seq<string>, after: seq<string>)
    requires forall i :: 0 <= i < |headers| ==> OtherHeader(headers[i])
    ensures LengthIn(headers + after) == LengthIn(after)
  {
    if headers == [] {
      assert headers + after == after;
    } else {
      assert (headers + after)[1..] == headers[1..] + after;
      OthersAreSkipped(headers[1..], after);
    }
  }

  /* ----- the whole request ----- */

  /** Lines a client may put into the head. */
  predicate GoodHead(requestLine: string, headers: seq<string>, l: LengthLine, more: seq<string>) {
    && HeadLine(requestLine) && HeadLines(headers) && NamesLength(l) && HeadLines(more)
    && forall i :: 0 <= i < |headers| ==> OtherHeader(headers[i])
  }

  lemma Nested<T>(a: seq<T>, b: seq<T>, c: seq<T>, d: seq<T>, f: seq<T>)
    ensures a + b + c + d + f == a + (b + (c + (d + f)))
  {
  }

  lemma LengthOf(head: string, first: string, others: seq<string>)
    requires Lines(head) == [first] + others
    ensures ContentLengthFromHeaders(head) == LengthIn(others)
  {
    assert ([first] + others)[1..] == others;
  }

  /** What the head announces is what its first length line says. */
  lemma HeadAnnounces(requestLine: string, headers: seq<string>, l: LengthLine, more: seq<string>, e: string)
    requires GoodHead(requestLine, headers, l, more) && LineEnd(e)
    ensures HeadLines(HeadOf(requestLine, headers, l, more))
    ensures ContentLengthFromHeaders(Head(HeadOf(requestLine, headers, l, more), e)) == ParseUsize(Trim(l.value))
  {
    var lines, rest := HeadOf(requestLine, headers, l, more), more + Lines(e);
    NameReads(l);
    LinesOfEnded(lines, e, e);
    Nested([requestLine], headers, [LineText(l)], more, Lines(e));
    LengthOf(Head(lines, e), requestLine, headers + ([LineText(l)] + rest));
    OthersAreSkipped(headers, [LineText(l)] + rest);
    LengthLineDecides(l, rest);
  }

  /** A length that is no number counts as none, even when a good one follows it. */
  lemma BadLengthMeansNoBody(requestLine: string, headers: seq<string>, l: LengthLine, more: seq<string>, e: string,
                             body: string)
    requires GoodHead(requestLine, headers, l, more) && LineEnd(e) && ParseUsize(Trim(l.value)) == None
    ensures var head := Head(HeadOf(requestLine, headers, l, more), e);
      ExpectedLength(head + body, |head|) == |head|
  {
    var head := Head(HeadOf(requestLine, headers, l, more), e);
    HeadAnnounces(requestLine, headers, l, more, e);
    assert (head + body)[..|head|] == head;
  }

  /** The request is one message, and its head ends where the body begins. */
  lemma RequestIsRead(lines: seq<string>, e: string, body: string, pieces: seq<string>)
    requires lines != [] && HeadLines(lines) && LineEnd(e)
    requires ContentLengthFromHeaders(Head(lines, e)) == Some(|body|)
    requires Pieces(pieces) && Concat(pieces) == Head(lines, e) + body
    ensures ReadHead("", pieces) == Head(lines, e) + body
  {
    var head := Head(lines, e);
    HeadEnds(lines, e, body);
    assert (head + body)[..|head|] == head;
    ReadSizesDoNotMatterIff(head + body);
  }

  /** A request that says the length of its body, in any of the ways the reader takes, is read whole
      and exactly, in pieces of any size. */
  lemma RequestReadsBack(requestLine: string, headers: seq<string>, l: LengthLine, more: seq<string>, e: string,
                         before: string, sign: string, digits: string, behind: string,
                         body: string, pieces: seq<string>)
    requires GoodHead(requestLine, headers, l, more) && LineEnd(e)
    requires SaysLength(l, before, sign, digits, behind, |body|)
    requires Pieces(pieces) && Concat(pieces) == Head(HeadOf(requestLine, headers, l, more), e) + body
    ensures ReadHead("", pieces) == Head(HeadOf(requestLine, headers, l, more), e) + body
    ensures e == CRLF ==> ParseBody(ReadHead("", pieces)) == body
  {
    HeadAnnounces(requestLine, headers, l, more, e);
    NumberReads(before, sign, digits, behind);
    RequestIsRead(HeadOf(requestLine, headers, l, more), e, body, pieces);
    BodyReadsBack(HeadOf(requestLine, headers, l, more), body);
  }

  /** Behind a head with CR LF the body handed on is the body that was written, whatever its bytes. */
  lemma BodyReadsBack(lines: seq<string>, body: string)
    requires lines != [] && HeadLines(lines)
    ensures ParseBody(Head(lines, CRLF) + body) == body
  {
    var head := Head(lines, CRLF);
    CrLfHeadEnds(lines, body);
    BodyFollowsHead(head + body);
    assert (head + body)[..|head|] == head;
    SameTail(head, ParseBody(head + body), body);
  }

  /** Behind a head with LF alone it is exactly when the body holds no CR LF CR LF: the body is cut
      at the first of these, wherever it stands. */
  lemma LfBodyReadsBackIff(lines: seq<string>, body: string)
    requires lines != [] && HeadLines(lines)
    ensures ParseBody(Head(lines, LF) + body) == body <==> forall i :: 0 <= i < |body| ==> !Occurs(body, i, CRLF2)
  {
    var head := Head(lines, LF);
    var s := head + body;
    LfHeadEnds(lines, body);
    var found := Find(s, CRLF2, 0);
    if found.Some? {
      OccursShifted(head, body, CRLF2, found.value - |head|);
      assert |ParseBody(s)| < |body|;
    } else {
      forall i | 0 <= i < |body|
        ensures !Occurs(body, i, CRLF2)
      {
        OccursShifted(head, body, CRLF2, i);
      }
      assert s[|head|..] == body;
    }
  }

  lemma SameTail(head: string, a: string, b: string)
    requires head + a == head + b
    ensures a == b
  {
    assert (head + a)[|head|..] == a && (head + b)[|head|..] == b;
  }

  /** Bytes behind a request are not part of it, when reads end where it ends. */
  lemma NextRequestIsLeft(lines: seq<string>, e: string, body: string, more: string)
    requires lines != [] && HeadLines(lines) && LineEnd(e)
    requires ContentLengthFromHeaders(Head(lines, e)) == Some(|body|)
    ensures var head := Head(lines, e);
      ReadHead("", [head] + CutAfter(head + body + more, |head|, |head| + |body|)) == head + body
  {
    HeadEnds(lines, e, body + more);
    CutBehind(Head(lines, e), body, more);
  }

  lemma HeadEnds(lines: seq<string>, e: string, rest: string)
    requires lines != [] && HeadLines(lines) && LineEnd(e)
    ensures Head(lines, e) != "" && FirstBlank(Head(lines, e) + rest) == Some(|Head(lines, e)|)
  {
    if e == CRLF {
      CrLfHeadEnds(lines, rest);
    } else {
      LfHeadEnds(lines, rest);
    }
  }

  lemma ThreeFronts<T>(a: seq<T>, b: seq<T>, c: seq<T>)
    ensures a + b + c == a + (b + c) && (a + b + c)[..|a|] == a && (a + b + c)[..|a| + |b|] == a + b
  {
  }

  lemma CutBehind(head: string, body: string, more: string)
    requires head != "" && FirstBlank(head + (body + more)) == Some(|head|)
    requires ContentLengthFromHeaders(head) == Some(|body|)
    ensures ReadHead("", [head] + CutAfter(head + body + more, |head|, |head| + |body|)) == head + body
  {
    ThreeFronts(head, body, more);
    OverlongIsCut(head + body + more, |head|, |head| + |body|);
  }
}
