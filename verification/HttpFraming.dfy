/** Reading one HTTP request from a socket in pieces (src/service/http_runtime.rs).
    Text stands for bytes; a read past the last piece finds the end of the stream. */
module HttpFraming {
  import opened Text

  const CRLF2 := "\r\n\r\n"
  const LF2 := "\n\n"
  const USIZE_LIMIT: nat := 0x1_0000_0000_0000_0000

  predicate Occurs(s: string, i: int, needle: string) {
    0 <= i && i + |needle| <= |s| && s[i..i + |needle|] == needle
  }

  /** The first place at or after `from` where `needle` stands. */
  function Find(s: string, needle: string, from: nat): (r: Option<nat>)
    requires from <= |s|
    ensures r.Some? ==>
      from <= r.value && Occurs(s, r.value, needle) && forall i :: from <= i < r.value ==> !Occurs(s, i, needle)
    ensures r.None? ==> forall i :: from <= i ==> !Occurs(s, i, needle)
    decreases |s| - from
  {
    if Occurs(s, from, needle) then Some(from)
    else if from == |s| then None
    else Find(s, needle, from + 1)
  }

  /** Where the head ends: after the first CR LF CR LF, or without one after the first LF LF. */
  function HeaderEndOffset(raw: string): (r: Option<nat>)
    ensures r.Some? ==> 2 <= r.value <= |raw|
  {
    match Find(raw, CRLF2, 0)
    case Some(i) => Some(i + 4)
    case None =>
      match Find(raw, LF2, 0)
      case Some(i) => Some(i + 2)
      case None => None
  }

  /* ----- the announced length ----- */

  predicate NotNewline(c: char) {
    c != '\n'
  }

  function DropCr(line: string): string {
    if line != "" && line[|line| - 1] == '\r' then line[..|line| - 1] else line
  }

  /** Lines ended by LF or CR LF; text after the last LF is a line of its own. */
  function Lines(s: string): seq<string>
    decreases |s|
  {
    if s == "" then []
    else
      var i := RunEnd(s, 0, NotNewline);
      if i == |s| then [s] else [DropCr(s[..i])] + Lines(s[i + 1..])
  }

  function ParseUsize(s: string): Option<nat> {
    var digits := if s != "" && s[0] == '+' then s[1..] else s;
    if digits != "" && AllDigits(digits) && DigitsValue(digits) < USIZE_LIMIT then Some(DigitsValue(digits)) else None
  }

  /** The value of the first Content-Length line, if that line has a number. */
  function LengthIn(lines: seq<string>): Option<nat> {
    if lines == [] then None
    else
      var colon := Find(lines[0], ":", 0);
      if colon.Some? && Lower(Trim(lines[0][..colon.value])) == "content-length"
      then ParseUsize(Trim(lines[0][colon.value + 1..]))
      else LengthIn(lines[1..])
  }

  function ContentLengthFromHeaders(headers: string): Option<nat> {
    var lines := Lines(headers);
    if lines == [] then None else LengthIn(lines[1..])
  }

  function ExpectedLength(request: string, headerEnd: nat): nat
    requires headerEnd <= |request|
  {
    headerEnd + ContentLengthFromHeaders(request[..headerEnd]).GetOr(0)
  }

  /* ----- reading ----- */

  predicate Pieces(pieces: seq<string>) {
    forall i :: 0 <= i < |pieces| ==> pieces[i] != ""
  }

  /** Reads on until `expected` bytes have come or the stream ends. */
  function ReadBody(request: string, pieces: seq<string>, expected: nat): string
    decreases |pieces|
  {
    if |request| >= expected || pieces == [] then request
    else ReadBody(request + pieces[0], pieces[1..], expected)
  }

  /** Reads on until the head is complete, then the body. */
  function ReadHead(request: string, pieces: seq<string>): string
    decreases |pieces|
  {
    match HeaderEndOffset(request)
    case Some(e) => ReadBody(request, pieces, ExpectedLength(request, e))
    case None => if pieces == [] then request else ReadHead(request + pieces[0], pieces[1..])
  }

  method ReadHttpRequest(pieces: seq<string>) returns (request: string)
    requires Pieces(pieces)
    ensures request == ReadHead("", pieces)
  {
    if pieces == [] {
      return "";
    }
    request := pieces[0];
    var next := 1;
    assert "" + pieces[0] == pieces[0];
    while HeaderEndOffset(request).None?
      invariant 1 <= next <= |pieces|
      invariant ReadHead("", pieces) == ReadHead(request, pieces[next..])
      decreases |pieces| - next
    {
      if next == |pieces| {
        return;
      }
      assert pieces[next..][1..] == pieces[next + 1..];
      request := request + pieces[next];
      next := next + 1;
    }
    var headerEnd := HeaderEndOffset(request).GetOr(|request|);
    var expected := ExpectedLength(request, headerEnd);
    while |request| < expected
      invariant next <= |pieces|
      invariant ReadHead("", pieces) == ReadBody(request, pieces[next..], expected)
      decreases |pieces| - next
    {
      if next == |pieces| {
        break;
      }
      assert pieces[next..][1..] == pieces[next + 1..];
      request := request + pieces[next];
      next := next + 1;
    }
  }

  /** The text before and after the first `sep`. */
  function SplitOnce(s: string, sep: string): Option<(string, string)> {
    match Find(s, sep, 0)
    case None => None
    case Some(i) => Some((s[..i], s[i + |sep|..]))
  }

  function ParseBody(raw: string): string {
    match SplitOnce(raw, CRLF2)
    case Some((_, body)) => body
    case None =>
      match SplitOnce(raw, LF2)
      case Some((_, body)) => body
      case None => ""
  }

  /** The body handed on is exactly what follows the head. */
  lemma BodyFollowsHead(raw: string)
    ensures HeaderEndOffset(raw).Some? ==> raw == raw[..HeaderEndOffset(raw).value] + ParseBody(raw)
    ensures HeaderEndOffset(raw).None? ==> ParseBody(raw) == ""
  {
  }

  /* ----- which blank line comes first ----- */

  /** The end of the first blank line of either kind. */
  function FirstBlank(s: string): (r: Option<nat>)
    ensures r.None? <==> HeaderEndOffset(s).None?
  {
    match (Find(s, CRLF2, 0), Find(s, LF2, 0))
    case (None, None) => None
    case (Some(i), None) => Some(i + 4)
    case (None, Some(j)) => Some(j + 2)
    case (Some(i), Some(j)) => Some(if i + 4 <= j + 2 then i + 4 else j + 2)
  }

  lemma OccursInPrefix(s: string, p: nat, i: int, needle: string)
    requires p <= |s|
    ensures Occurs(s[..p], i, needle) <==> Occurs(s, i, needle) && i + |needle| <= p
  {
    if 0 <= i && i + |needle| <= p {
      assert s[..p][i..i + |needle|] == s[i..i + |needle|];
    }
  }

  /** In a prefix the first place is the same, once the prefix reaches past it. */
  lemma FindInPrefix(s: string, p: nat, needle: string)
    requires p <= |s|
    ensures var whole := Find(s, needle, 0);
      Find(s[..p], needle, 0) == if whole.Some? && whole.value + |needle| <= p then whole else None
  {
    var whole, part := Find(s, needle, 0), Find(s[..p], needle, 0);
    if part.Some? {
      OccursInPrefix(s, p, part.value, needle);
    }
    if whole.Some? {
      OccursInPrefix(s, p, whole.value, needle);
    }
  }

  /** A prefix shows the end of the head exactly when it reaches past the first
      blank line; it shows that end, or a later CR LF CR LF after an LF LF. */
  lemma HeaderEndInPrefix(s: string, p: nat)
    requires p <= |s| && FirstBlank(s).Some?
    ensures var h, r := FirstBlank(s).value, HeaderEndOffset(s[..p]);
      && (r.Some? <==> h <= p)
      && (r.Some? ==> 0 < h <= r.value <= p)
      && (r.Some? && r.value > h ==> h >= 2 && s[h - 1] == '\n')
  {
    FindInPrefix(s, p, CRLF2);
    FindInPrefix(s, p, LF2);
    var lf := Find(s, LF2, 0);
    if lf.Some? {
      assert s[lf.value + 1] == s[lf.value..lf.value + 2][1];
    }
  }

  /* ----- the announced length settles early ----- */

  lemma LinesUnfold(line: string, rest: string)
    requires forall i :: 0 <= i < |line| ==> line[i] != '\n'
    ensures Lines(line + "\n" + rest) == [DropCr(line)] + Lines(rest)
  {
    var s := line + "\n" + rest;
    RunEndIs(s, 0, |line|, NotNewline);
    assert s[..|line|] == line && s[|line| + 1..] == rest;
  }

  lemma FirstLine(a: string) returns (line: string, rest: string)
    requires a != "" && a[|a| - 1] == '\n'
    ensures a == line + "\n" + rest && forall i :: 0 <= i < |line| ==> line[i] != '\n'
    ensures rest != "" ==> rest[|rest| - 1] == '\n'
  {
    var i := RunEnd(a, 0, NotNewline);
    assert a[|a| - 1] == '\n' ==> i < |a|;
    line, rest := a[..i], a[i + 1..];
  }

  lemma {:induction false} LinesAppend(a: string, b: string)
    requires a != "" ==> a[|a| - 1] == '\n'
    ensures Lines(a + b) == Lines(a) + Lines(b)
    decreases |a|
  {
    if a == "" {
      assert a + b == b;
    } else {
      var line, rest := FirstLine(a);
      LinesAppend(rest, b);
      LinesUnfold(line, rest);
      LinesUnfold(line, rest + b);
      Assoc(line + "\n", rest, b);
      Assoc([DropCr(line)], Lines(rest), Lines(b));
    }
  }

  lemma {:induction false} LengthInLonger(x: seq<string>, y: seq<string>)
    requires LengthIn(x).Some?
    ensures LengthIn(x + y) == LengthIn(x)
  {
    assert (x + y)[0] == x[0] && (x + y)[1..] == x[1..] + y;
    var colon := Find(x[0], ":", 0);
    if !(colon.Some? && Lower(Trim(x[0][..colon.value])) == "content-length") {
      LengthInLonger(x[1..], y);
    }
  }

  /** Once a head ended by a line feed announces a length, more text does not change it. */
  lemma LengthSettles(s: string, h: nat, e: nat)
    requires 0 < h <= e <= |s| && s[h - 1] == '\n' && ContentLengthFromHeaders(s[..h]).Some?
    ensures ContentLengthFromHeaders(s[..e]) == ContentLengthFromHeaders(s[..h])
  {
    assert s[..e] == s[..h] + s[h..e];
    LengthSettlesAfter(s[..h], s[h..e]);
  }

  lemma LengthSettlesAfter(a: string, b: string)
    requires a != "" && a[|a| - 1] == '\n' && ContentLengthFromHeaders(a).Some?
    ensures ContentLengthFromHeaders(a + b) == ContentLengthFromHeaders(a)
  {
    LinesAppend(a, b);
    LengthInMore(Lines(a), Lines(b));
  }

  lemma LengthInMore(x: seq<string>, y: seq<string>)
    requires x != [] && LengthIn(x[1..]).Some?
    ensures LengthIn((x + y)[1..]) == LengthIn(x[1..])
  {
    TailOfSum(x, y);
    LengthInLonger(x[1..], y);
  }

  lemma TailOfSum<T>(x: seq<T>, y: seq<T>)
    requires x != []
    ensures (x + y)[1..] == x[1..] + y
  {
  }

  /* ----- read sizes ----- */

  /** `s` holds no more than one message: a head and at most the announced body. */
  predicate OneMessage(s: string) {
    FirstBlank(s).Some? && FirstBlank(s).value <= |s| && |s| <= ExpectedLength(s, FirstBlank(s).value)
  }

  lemma FirstBlankInside(s: string)
    requires FirstBlank(s).Some?
    ensures 2 <= FirstBlank(s).value <= |s|
  {
  }

  /** Whenever the head looks complete, the length then expected covers the message. */
  lemma ExpectsAll(s: string, p: nat)
    requires OneMessage(s) && p <= |s| && HeaderEndOffset(s[..p]).Some?
    ensures ExpectedLength(s[..p], HeaderEndOffset(s[..p]).value) >= |s|
  {
    HeaderEndInPrefix(s, p);
    LengthStays(s, FirstBlank(s).value, HeaderEndOffset(s[..p]).value, p);
  }

  lemma LengthStays(s: string, h: nat, e: nat, p: nat)
    requires 0 < h <= e <= p <= |s| && (e > h ==> s[h - 1] == '\n')
    ensures ExpectedLength(s[..p], e) >= ExpectedLength(s, h)
  {
    assert s[..p][..e] == s[..e];
    if e > h && ContentLengthFromHeaders(s[..h]).Some? {
      LengthSettles(s, h, e);
    }
  }

  lemma {:induction false} BodyReadsAll(request: string, pieces: seq<string>, expected: nat)
    requires |request| + |Concat(pieces)| <= expected
    ensures ReadBody(request, pieces, expected) == request + Concat(pieces)
    decreases |pieces|
  {
    if pieces == [] {
      assert request + "" == request;
    } else if |request| >= expected {
      assert Concat(pieces) == "" && request + "" == request;
    } else {
      BodyReadsAll(request + pieces[0], pieces[1..], expected);
      Assoc(request, pieces[0], Concat(pieces[1..]));
    }
  }

  lemma {:induction false} HeadReadsAll(s: string, p: nat, pieces: seq<string>)
    requires p <= |s| && s == s[..p] + Concat(pieces)
    requires OneMessage(s) || FirstBlank(s).None?
    ensures ReadHead(s[..p], pieces) == s
    decreases |pieces|
  {
    if HeaderEndOffset(s[..p]).Some? {
      if OneMessage(s) {
        ExpectsAll(s, p);
      } else {
        NoBlankInPrefix(s, p);
      }
      BodyReadsAll(s[..p], pieces, ExpectedLength(s[..p], HeaderEndOffset(s[..p]).value));
    } else if pieces == [] {
      assert s[..p] + "" == s[..p];
    } else {
      var q := p + |pieces[0]|;
      Assoc(s[..p], pieces[0], Concat(pieces[1..]));
      assert s[..q] == s[..p] + pieces[0];
      HeadReadsAll(s, q, pieces[1..]);
    }
  }

  lemma NoBlankInPrefix(s: string, p: nat)
    requires p <= |s| && FirstBlank(s).None?
    ensures HeaderEndOffset(s[..p]).None?
  {
    FindInPrefix(s, p, CRLF2);
    FindInPrefix(s, p, LF2);
  }

  /** What follows the head, cut at the end of the announced body. */
  function CutAfter(s: string, h: nat, e: nat): seq<string>
    requires h <= e <= |s|
  {
    if h == e then [s[e..]] else [s[h..e], s[e..]]
  }

  lemma CutIsWhole(s: string, h: nat, e: nat)
    requires 0 < h <= e < |s|
    ensures Pieces([s[..h]] + CutAfter(s, h, e)) && Concat([s[..h]] + CutAfter(s, h, e)) == s
  {
    var after := CutAfter(s, h, e);
    assert Concat([s[e..]]) == s[e..];
    if h < e {
      assert after[1..] == [s[e..]];
    }
    assert Concat(after) == s[h..e] + s[e..] == s[h..];
    assert ([s[..h]] + after)[1..] == after;
  }

  lemma FirstRead(piece: string, rest: seq<string>)
    requires HeaderEndOffset("").None?
    ensures ReadHead("", [piece] + rest) == ReadHead(piece, rest)
  {
    assert ([piece] + rest)[1..] == rest && "" + piece == piece;
  }

  lemma HeadDone(request: string, rest: seq<string>, h: nat)
    requires HeaderEndOffset(request) == Some(h)
    ensures ReadHead(request, rest) == ReadBody(request, rest, ExpectedLength(request, h))
  {
  }

  lemma BodyCut(s: string, h: nat, e: nat)
    requires h <= e <= |s|
    ensures ReadBody(s[..h], CutAfter(s, h, e), e) == s[..e]
  {
    if h < e {
      assert CutAfter(s, h, e)[1..] == [s[e..]];
      assert s[..h] + s[h..e] == s[..e];
    }
  }

  /** The end of the head appears with its last character. */
  lemma HeadAppears(s: string, h: nat)
    requires FirstBlank(s) == Some(h) && 0 < h <= |s|
    ensures HeaderEndOffset("").None? && HeaderEndOffset(s[..h]) == Some(h)
    ensures ExpectedLength(s[..h], h) == ExpectedLength(s, h)
  {
    HeaderEndInPrefix(s, 0);
    HeaderEndInPrefix(s, h);
    assert s[..0] == "";
    assert s[..h][..h] == s[..h];
  }

  /** Cut at its ends, a stream longer than its message is read only that far. */
  lemma OverlongIsCut(s: string, h: nat, e: nat)
    requires FirstBlank(s) == Some(h) && 0 < h <= e == ExpectedLength(s, h) <= |s|
    ensures ReadHead("", [s[..h]] + CutAfter(s, h, e)) == s[..e]
  {
    HeadAppears(s, h);
    FirstRead(s[..h], CutAfter(s, h, e));
    HeadDone(s[..h], CutAfter(s, h, e), h);
    BodyCut(s, h, e);
  }

  /** The bytes read do not depend on the sizes of the reads exactly when the stream
      holds no more than one message; then they are the whole stream. This covers
      heads with either kind of line ends. */
  lemma ReadSizesDoNotMatterIff(s: string)
    requires FirstBlank(s).Some?
    ensures (forall pieces :: Pieces(pieces) && Concat(pieces) == s ==> ReadHead("", pieces) == s) <==> OneMessage(s)
  {
    FirstBlankInside(s);
    if OneMessage(s) {
      forall pieces | Pieces(pieces) && Concat(pieces) == s ensures ReadHead("", pieces) == s {
        assert s[..0] == "" && "" + s == s;
        HeadReadsAll(s, 0, pieces);
      }
    } else {
      var h := FirstBlank(s).value;
      var e := ExpectedLength(s, h);
      CutIsWhole(s, h, e);
      OverlongIsCut(s, h, e);
      assert |s[..e]| < |s|;
    }
  }

  /** A stream without a blank line is read to its end. */
  lemma HeadlessIsReadWhole(s: string, pieces: seq<string>)
    requires FirstBlank(s).None? && Concat(pieces) == s
    ensures ReadHead("", pieces) == s
  {
    assert s[..0] == "" && "" + s == s;
    HeadReadsAll(s, 0, pieces);
  }
}
