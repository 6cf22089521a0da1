/** Wrapping label text into lines (src/print/godex/wrap.rs, src/print/godex/text.rs). */
module Wrap {
  import opened Text

  /* ----- words ----- */

  predicate IsInk(c: char) {
    !IsSpace(c)
  }

  predicate IsWord(w: string) {
    w != "" && forall i :: 0 <= i < |w| ==> !IsSpace(w[i])
  }

  predicate AllWords(ws: seq<string>) {
    forall w :: w in ws ==> IsWord(w)
  }

  /** The words of a text, split at runs of white space. */
  function Words(s: string): (ws: seq<string>)
    ensures AllWords(ws)
    decreases |s|
  {
    var i := RunEnd(s, 0, IsSpace);
    if i == |s| then []
    else
      var j := RunEnd(s, i, IsInk);
      assert IsWord(s[i..j]);
      [s[i..j]] + Words(s[j..])
  }

  /** Words in one line, a blank between each two. */
  function Join(ws: seq<string>): string {
    if ws == [] then ""
    else if |ws| == 1 then ws[0]
    else Join(ws[..|ws| - 1]) + " " + ws[|ws| - 1]
  }

  /** Printer control characters and line ends become blanks, runs of blanks one. */
  function SanitizeLabelText(value: string): string {
    Join(Words(Blanked(value)))
  }

  predicate IsControl(c: char) {
    c in {'\r', '\n', '^', '~'}
  }

  function Blanked(value: string): (r: string)
    ensures |r| == |value| && forall i :: 0 <= i < |value| ==> r[i] == if IsControl(value[i]) then ' ' else value[i]
  {
    seq(|value|, i requires 0 <= i < |value| => if IsControl(value[i]) then ' ' else value[i])
  }

  /** Splitting takes the first word off a text of blanks, a word and a rest. */
  lemma WordsUnfold(blanks: string, w: string, rest: string)
    requires IsWord(w) && (forall k :: 0 <= k < |blanks| ==> IsSpace(blanks[k]))
    requires rest != "" ==> IsSpace(rest[0])
    ensures Words(blanks + w + rest) == [w] + Words(rest)
  {
    var t, i, j := blanks + w + rest, |blanks|, |blanks| + |w|;
    assert t[i] == w[0];
    assert forall k :: i <= k < j ==> t[k] == w[k - i];
    assert j < |t| ==> t[j] == rest[0];
    RunEndIs(t, 0, i, IsSpace);
    RunEndIs(t, i, j, IsInk);
    assert t[i..j] == w && t[j..] == rest;
  }

  predicate Blank(s: string) {
    forall k :: 0 <= k < |s| ==> IsSpace(s[k])
  }

  /** Either a text is blank or it opens with blanks, a word and a rest. */
  lemma FirstWord(s: string) returns (blanks: string, w: string, rest: string)
    ensures Words(s) == [] <==> Blank(s)
    ensures !Blank(s) ==>
      && s == blanks + w + rest && |rest| < |s| && Blank(blanks) && IsWord(w)
      && (rest != "" ==> IsSpace(rest[0])) && Words(s) == [w] + Words(rest)
  {
    var i := RunEnd(s, 0, IsSpace);
    if i < |s| {
      var j := RunEnd(s, i, IsInk);
      blanks, w, rest := s[..i], s[i..j], s[j..];
      assert IsWord(w);
      ThreeParts(s, i, j);
      WordsUnfold(blanks, w, rest);
    } else {
      blanks, w, rest := "", "", "";
    }
  }

  lemma BlankThenWord(s: string, w: string)
    requires Blank(s) && IsWord(w)
    ensures Words(s + " " + w) == [w]
  {
    WordsUnfold(s + " ", w, "");
    assert s + " " + w + "" == s + " " + w;
    assert Words("") == [];
  }

  lemma {:induction false} WordsOfPrefix(s: string, w: string)
    requires IsWord(w)
    ensures Words(s + " " + w) == Words(s) + [w]
    decreases |s|
  {
    var blanks, first, rest := FirstWord(s);
    if Blank(s) {
      BlankThenWord(s, w);
    } else {
      WordsOfPrefix(rest, w);
      WordsUnfold(blanks, first, rest + " " + w);
      Regroup(blanks + first, rest, " ", w);
      Assoc([first], Words(rest), [w]);
    }
  }

  lemma WordsOfWord(w: string)
    requires IsWord(w)
    ensures Words(w) == [w]
  {
    RunEndIs(w, 0, 0, IsSpace);
    RunEndIs(w, 0, |w|, IsInk);
    assert w[0..|w|] == w && w[|w|..] == "";
    assert Words("") == [];
  }

  /** Splitting a joined line gives its words back. */
  lemma {:induction false} WordsOfJoin(ws: seq<string>)
    requires AllWords(ws)
    ensures Words(Join(ws)) == ws
  {
    if |ws| == 1 {
      WordsOfWord(ws[0]);
    } else if ws != [] {
      var front, w := ws[..|ws| - 1], ws[|ws| - 1];
      assert IsWord(w);
      WordsOfJoin(front);
      JoinSnoc(front, w);
      WordsOfPrefix(Join(front), w);
      assert ws == front + [w];
    }
  }

  /* ----- one pass ----- */

  /** Finished lines and the line being filled; "" when none is. */
  datatype Fill = Fill(lines: seq<string>, current: string)

  /** The lines once the current one is pushed. */
  function Pushed(f: Fill): seq<string> {
    if f.current == "" then f.lines else f.lines + [f.current]
  }

  function Candidate(current: string, word: string): string {
    if current == "" then word else current + " " + word
  }

  /** `word` cut into full pieces of `width` and what is left, at most as long. */
  function Pieces(word: string, width: nat): (p: (seq<string>, string))
    requires width >= 1
    ensures Concat(p.0) + p.1 == word && |p.1| <= width && (word != "" ==> p.1 != "")
    ensures forall i :: 0 <= i < |p.0| ==> |p.0[i]| == width
  {
    if |word| <= width then ([], word)
    else
      var rest := Pieces(word[width..], width);
      Assoc(word[..width], Concat(rest.0), rest.1);
      assert word[..width] + word[width..] == word;
      ([word[..width]] + rest.0, rest.1)
  }

  function Place(f: Fill, word: string, width: nat, breakLong: bool): Fill
    requires breakLong ==> width >= 1
  {
    if |Candidate(f.current, word)| <= width then Fill(f.lines, Candidate(f.current, word))
    else
      var lines := Pushed(f);
      if !breakLong || |word| <= width then Fill(lines, word)
      else
        Fill(lines + Pieces(word, width).0, Pieces(word, width).1)
  }

  function Filled(words: seq<string>, width: nat, breakLong: bool): Fill
    requires breakLong ==> width >= 1
  {
    if words == [] then Fill([], "")
    else Place(Filled(words[..|words| - 1], width, breakLong), words[|words| - 1], width, breakLong)
  }

  lemma FilledNext(words: seq<string>, n: nat, width: nat, breakLong: bool)
    requires n < |words| && (breakLong ==> width >= 1)
    ensures Filled(words[..n + 1], width, breakLong)
         == Place(Filled(words[..n], width, breakLong), words[n], width, breakLong)
  {
    assert words[..n + 1][..n] == words[..n];
  }

  function WrapWords(text: string, width: nat, breakLong: bool): seq<string>
    requires breakLong ==> width >= 1
  {
    var lines := Pushed(Filled(Words(text), width, breakLong));
    if lines == [] then [text] else lines
  }

  method WrapWordsByCharCount(text: string, width: nat, breakLong: bool) returns (lines: seq<string>)
    requires breakLong ==> width >= 1
    ensures lines == WrapWords(text, width, breakLong)
  {
    lines := [];
    var current := "";
    var words := Words(text);
    for n := 0 to |words|
      invariant Fill(lines, current) == Filled(words[..n], width, breakLong)
    {
      FilledNext(words, n, width, breakLong);
      lines, current := PlaceWord(lines, current, words[n], width, breakLong);
    }
    assert words[..|words|] == words;
    if current != "" {
      lines := lines + [current];
    }
    if lines == [] {
      return [text];
    }
  }

  /** One turn of the loop: the word joins the current line, or the line is pushed first. */
  method PlaceWord(before: seq<string>, line: string, word: string, width: nat, breakLong: bool)
    returns (lines: seq<string>, current: string)
    requires breakLong ==> width >= 1
    ensures Fill(lines, current) == Place(Fill(before, line), word, width, breakLong)
  {
    var candidate := Candidate(line, word);
    if |candidate| <= width {
      return before, candidate;
    }
    lines := if line != "" then before + [line] else before;
    if !breakLong || |word| <= width {
      return lines, word;
    }
    lines, current := Chop(lines, word, width);
  }

  /** A long word goes out in whole pieces; its last piece starts the next line. */
  method Chop(before: seq<string>, word: string, width: nat) returns (lines: seq<string>, current: string)
    requires width >= 1
    ensures lines == before + Pieces(word, width).0 && current == Pieces(word, width).1
  {
    lines := before;
    var chars := word;
    while |chars| > width
      invariant lines + Pieces(chars, width).0 == before + Pieces(word, width).0
      invariant Pieces(chars, width).1 == Pieces(word, width).1
      decreases |chars|
    {
      Assoc(lines, [chars[..width]], Pieces(chars[width..], width).0);
      lines := lines + [chars[..width]];
      chars := chars[width..];
    }
    current := chars;
  }

  /* ----- both passes ----- */

  function WidthChars(widthDots: int, xMul: int, pitchDots: int, minChars: nat): nat {
    var mul := if xMul < 1 then 1 else xMul;
    var charWidth := if pitchDots * mul < 1 then 1 else pitchDots * mul;
    var fit := if widthDots < 0 then 0 else widthDots / charWidth;
    if fit < minChars then minChars else fit
  }

  predicate AllFit(lines: seq<string>, width: nat) {
    forall l :: l in lines ==> |l| <= width
  }

  /** The lines of a clean text: the first pass when every word fits, else the second. */
  function WrappedText(clean: string, width: nat): seq<string>
    requires clean == "" || width >= 1
  {
    if clean == "" then [""]
    else WrapWords(clean, width, !AllFit(Words(clean), width))
  }

  /** Needs room for one character when there is text: see ChoppingEndsIff. */
  method WrapTextForEzpl(text: string, widthDots: int, xMul: int, pitchDots: int, minChars: nat)
    returns (lines: seq<string>)
    requires SanitizeLabelText(text) == "" || WidthChars(widthDots, xMul, pitchDots, minChars) >= 1
    ensures var clean, width := SanitizeLabelText(text), WidthChars(widthDots, xMul, pitchDots, minChars);
      && lines == WrappedText(clean, width)
      && (clean != "" ==> AllFit(lines, width))
  {
    var clean := SanitizeLabelText(text);
    if clean == "" {
      return [""];
    }
    var width := WidthChars(widthDots, xMul, pitchDots, minChars);
    lines := WrapWordsByCharCount(clean, width, false);
    SanitizedIsJoined(text);
    CleanHasWords(clean);
    FirstPassFitsIff(clean, width);
    SecondPassFits(clean, width);
    if exists l :: l in lines && |l| > width {
      lines := WrapWordsByCharCount(clean, width, true);
    }
  }

  /* ----- the first pass is greedy grouping ----- */

  predicate NoEmptyGroup(g: seq<seq<string>>) {
    forall i :: 0 <= i < |g| ==> g[i] != []
  }

  /** The words grouped line by line, each word joining the last line if it fits. */
  function Greedy(words: seq<string>, width: nat): (g: seq<seq<string>>)
    ensures g == [] <==> words == []
    ensures NoEmptyGroup(g)
  {
    if words == [] then [] else Grow(Greedy(words[..|words| - 1], width), words[|words| - 1], width)
  }

  function Grow(g: seq<seq<string>>, w: string, width: nat): (r: seq<seq<string>>)
    ensures r != [] && (NoEmptyGroup(g) ==> NoEmptyGroup(r))
  {
    if g != [] && |Join(g[|g| - 1] + [w])| <= width then g[..|g| - 1] + [g[|g| - 1] + [w]] else g + [[w]]
  }

  function JoinEach(g: seq<seq<string>>): (r: seq<string>)
    ensures |r| == |g| && forall i :: 0 <= i < |g| ==> r[i] == Join(g[i])
  {
    seq(|g|, i requires 0 <= i < |g| => Join(g[i]))
  }

  lemma JoinSnoc(ws: seq<string>, w: string)
    requires ws != []
    ensures Join(ws + [w]) == Join(ws) + " " + w
  {
    assert (ws + [w])[..|ws|] == ws;
  }

  lemma JoinOfWords(ws: seq<string>)
    requires AllWords(ws) && ws != []
    ensures Join(ws) != ""
  {
    if |ws| == 1 {
      assert IsWord(ws[0]);
    }
  }

  /** A fill and the groups it stands for. */
  predicate Mirrors(f: Fill, g: seq<seq<string>>) {
    if f.current == "" then f.lines == [] && g == []
    else g != [] && g[|g| - 1] != [] && f.lines == JoinEach(g[..|g| - 1]) && f.current == Join(g[|g| - 1])
  }

  lemma PlaceMirrorsGrow(f: Fill, g: seq<seq<string>>, w: string, width: nat)
    requires Mirrors(f, g) && IsWord(w)
    ensures Mirrors(Place(f, w, width, false), Grow(g, w, width))
  {
    var r := Grow(g, w, width);
    if g != [] {
      JoinSnoc(g[|g| - 1], w);
      if |Join(g[|g| - 1] + [w])| <= width {
        assert r[..|r| - 1] == g[..|g| - 1];
      } else {
        assert r[..|r| - 1] == g;
        assert JoinEach(g) == JoinEach(g[..|g| - 1]) + [Join(g[|g| - 1])];
      }
    } else {
      assert r == [[w]];
    }
  }

  lemma {:induction false} FilledMirrorsGreedy(words: seq<string>, width: nat)
    requires AllWords(words)
    ensures Mirrors(Filled(words, width, false), Greedy(words, width))
  {
    if words != [] {
      assert IsWord(words[|words| - 1]);
      FilledMirrorsGreedy(words[..|words| - 1], width);
      PlaceMirrorsGrow(Filled(words[..|words| - 1], width, false), Greedy(words[..|words| - 1], width),
                       words[|words| - 1], width);
    }
  }

  lemma MirroredLines(f: Fill, g: seq<seq<string>>)
    requires Mirrors(f, g)
    ensures Pushed(f) == JoinEach(g)
  {
    if g != [] {
      assert JoinEach(g) == JoinEach(g[..|g| - 1]) + [Join(g[|g| - 1])];
    }
  }

  /** The lines of the first pass are the greedy groups. */
  lemma FirstPassIsGreedy(words: seq<string>, width: nat)
    requires AllWords(words)
    ensures Pushed(Filled(words, width, false)) == JoinEach(Greedy(words, width))
  {
    FilledMirrorsGreedy(words, width);
    MirroredLines(Filled(words, width, false), Greedy(words, width));
  }

  /* ----- how wide lines are ----- */

  lemma {:induction false} JoinAppend(a: seq<string>, b: seq<string>)
    requires a != [] && b != []
    ensures Join(a + b) == Join(a) + " " + Join(b)
  {
    if |b| == 1 {
      assert a + b == a + [b[0]];
      JoinSnoc(a, b[0]);
    } else {
      var front, w := b[..|b| - 1], b[|b| - 1];
      JoinAppend(a, front);
      assert a + b == a + front + [w] && b == front + [w];
      JoinSnoc(a + front, w);
      JoinSnoc(front, w);
      Regroup(Join(a) + " ", Join(front), " ", w);
    }
  }

  /** A later stretch of words never makes a longer line. */
  lemma SuffixIsNoLonger(ws: seq<string>, k: nat)
    requires k <= |ws|
    ensures |Join(ws[k..])| <= |Join(ws)|
  {
    if 0 < k < |ws| {
      JoinAppend(ws[..k], ws[k..]);
      assert ws[..k] + ws[k..] == ws;
    } else if k == 0 {
      assert ws[k..] == ws;
    }
  }

  lemma ExtendLast(before: seq<seq<string>>, last: seq<string>, w: string)
    ensures Concat(before + [last + [w]]) == Concat(before + [last]) + [w]
  {
    ConcatSnoc(before, last);
    ConcatSnoc(before, last + [w]);
    Assoc(Concat(before), last, [w]);
  }

  lemma GrowKeepsWords(g: seq<seq<string>>, w: string, width: nat)
    ensures Concat(Grow(g, w, width)) == Concat(g) + [w]
  {
    if g != [] {
      ExtendLast(g[..|g| - 1], g[|g| - 1], w);
      assert g == g[..|g| - 1] + [g[|g| - 1]];
    }
    ConcatSnoc(g, [w]);
  }

  lemma {:induction false} GreedyKeepsWords(words: seq<string>, width: nat)
    ensures Concat(Greedy(words, width)) == words
  {
    if words != [] {
      GreedyKeepsWords(words[..|words| - 1], width);
      GrowKeepsWords(Greedy(words[..|words| - 1], width), words[|words| - 1], width);
      assert words == words[..|words| - 1] + [words[|words| - 1]];
    }
  }

  predicate GroupsFit(g: seq<seq<string>>, width: nat) {
    forall i :: 0 <= i < |g| ==> |Join(g[i])| <= width
  }

  lemma GrowFitsIff(g: seq<seq<string>>, w: string, width: nat)
    ensures GroupsFit(Grow(g, w, width), width) <==> GroupsFit(g, width) && |w| <= width
  {
    if g != [] && |Join(g[|g| - 1] + [w])| <= width {
      var before, last := g[..|g| - 1], g[|g| - 1];
      if last != [] {
        JoinSnoc(last, w);
      }
      GroupsFitSnoc(before, last, width);
      GroupsFitSnoc(before, last + [w], width);
      assert g == before + [last];
    } else {
      GroupsFitSnoc(g, [w], width);
    }
  }

  lemma AllFitSnoc(words: seq<string>, w: string, width: nat)
    ensures AllFit(words + [w], width) <==> AllFit(words, width) && |w| <= width
  {
    assert w in words + [w];
    assert forall x :: x in words ==> x in words + [w];
  }

  lemma {:induction false} GreedyFitsIff(words: seq<string>, width: nat)
    ensures GroupsFit(Greedy(words, width), width) <==> AllFit(words, width)
  {
    if words != [] {
      var front, w := words[..|words| - 1], words[|words| - 1];
      GreedyFitsIff(front, width);
      GrowFitsIff(Greedy(front, width), w, width);
      AllFitSnoc(front, w, width);
      assert words == front + [w];
    }
  }

  lemma GroupsFitSnoc(g: seq<seq<string>>, x: seq<string>, width: nat)
    ensures GroupsFit(g + [x], width) <==> GroupsFit(g, width) && |Join(x)| <= width
  {
    var r := g + [x];
    assert r[|g|] == x && forall i :: 0 <= i < |g| ==> r[i] == g[i];
  }

  lemma CleanHasWords(clean: string)
    requires clean == Join(Words(clean))
    ensures clean != "" <==> Words(clean) != []
  {
    if Words(clean) != [] {
      JoinOfWords(Words(clean));
    }
  }

  lemma SanitizedIsJoined(text: string)
    ensures SanitizeLabelText(text) == Join(Words(SanitizeLabelText(text)))
  {
    WordsOfJoin(Words(Blanked(text)));
  }

  lemma {:induction false} WordsAreFrom(s: string)
    ensures forall w, c :: w in Words(s) && c in w ==> c in s
    decreases |s|
  {
    var i := RunEnd(s, 0, IsSpace);
    if i < |s| {
      var j := RunEnd(s, i, IsInk);
      WordsAreFrom(s[j..]);
      assert Words(s) == [s[i..j]] + Words(s[j..]);
    }
  }

  lemma {:induction false} JoinIsFrom(ws: seq<string>)
    ensures forall c :: c in Join(ws) ==> c == ' ' || exists w :: w in ws && c in w
  {
    if |ws| > 1 {
      JoinIsFrom(ws[..|ws| - 1]);
      assert forall w :: w in ws[..|ws| - 1] ==> w in ws;
    }
  }

  /** Clean text has no printer control character and no line end, and cleaning it again changes nothing. */
  lemma SanitizedIsClean(text: string)
    ensures forall c :: c in SanitizeLabelText(text) ==> c != '\r' && c != '\n' && c != '^' && c != '~'
    ensures SanitizeLabelText(SanitizeLabelText(text)) == SanitizeLabelText(text)
  {
    var clean := SanitizeLabelText(text);
    WordsAreFrom(Blanked(text));
    JoinIsFrom(Words(Blanked(text)));
    SanitizedIsJoined(text);
    assert Blanked(clean) == clean by {
      assert forall i :: 0 <= i < |clean| ==> clean[i] in clean;
    }
  }

  /** The first pass keeps within the width exactly when every word does. */
  lemma FirstPassFitsIff(clean: string, width: nat)
    requires Words(clean) != []
    ensures AllFit(WrapWords(clean, width, false), width) <==> AllFit(Words(clean), width)
  {
    var words := Words(clean);
    FirstPassIsGreedy(words, width);
    GreedyFitsIff(words, width);
    var g := Greedy(words, width);
    var lines := JoinEach(g);
    assert AllFit(lines, width) <==> GroupsFit(g, width) by {
      if AllFit(lines, width) {
        forall i | 0 <= i < |g| ensures |Join(g[i])| <= width {
          assert lines[i] in lines;
        }
      }
    }
  }

  predicate FillFits(f: Fill, width: nat) {
    AllFit(f.lines, width) && |f.current| <= width
  }

  lemma PlaceFits(f: Fill, word: string, width: nat)
    requires width >= 1 && FillFits(f, width)
    ensures FillFits(Place(f, word, width, true), width)
  {
    var p := Pieces(word, width).0;
    assert forall x :: x in p ==> |x| <= width;
  }

  lemma {:induction false} FilledFits(words: seq<string>, width: nat)
    requires width >= 1
    ensures FillFits(Filled(words, width, true), width)
  {
    if words != [] {
      FilledFits(words[..|words| - 1], width);
      PlaceFits(Filled(words[..|words| - 1], width, true), words[|words| - 1], width);
    }
  }

  /** The second pass always keeps within the width. */
  lemma SecondPassFits(clean: string, width: nat)
    requires width >= 1 && Words(clean) != []
    ensures AllFit(WrapWords(clean, width, true), width)
  {
    FilledFits(Words(clean), width);
    FilledKeepsText(Words(clean), width, true);
    ConcatOfWords(Words(clean));
  }

  /* ----- what lines keep of the text ----- */

  /** The characters of `s` that are not white space. */
  function Squeeze(s: string): (r: string)
    ensures forall c :: c in r ==> !IsSpace(c)
  {
    if s == "" then "" else (if IsSpace(s[0]) then "" else [s[0]]) + Squeeze(s[1..])
  }

  lemma SqueezeUnfold(c: char, s: string)
    ensures Squeeze([c] + s) == (if IsSpace(c) then "" else [c]) + Squeeze(s)
  {
    assert ([c] + s)[1..] == s;
  }

  lemma {:induction false} SqueezeAppend(a: string, b: string)
    ensures Squeeze(a + b) == Squeeze(a) + Squeeze(b)
  {
    if a == "" {
      assert a + b == b;
    } else {
      var c, rest := a[0], a[1..];
      assert a == [c] + rest;
      SqueezeAppend(rest, b);
      SqueezeUnfold(c, rest);
      Assoc([c], rest, b);
      SqueezeUnfold(c, rest + b);
      Assoc(if IsSpace(c) then "" else [c], Squeeze(rest), Squeeze(b));
    }
  }

  lemma {:induction false} SqueezeInk(w: string)
    requires forall i :: 0 <= i < |w| ==> !IsSpace(w[i])
    ensures Squeeze(w) == w
  {
    if w != "" {
      SqueezeInk(w[1..]);
    }
  }

  lemma {:induction false} SqueezeSpaces(s: string)
    requires forall i :: 0 <= i < |s| ==> IsSpace(s[i])
    ensures Squeeze(s) == ""
  {
    if s != "" {
      SqueezeSpaces(s[1..]);
    }
  }

  /** The words of a text are its characters without the white space. */
  lemma {:induction false} WordsKeepText(s: string)
    ensures Concat(Words(s)) == Squeeze(s)
    decreases |s|
  {
    var i := RunEnd(s, 0, IsSpace);
    if i == |s| {
      SqueezeSpaces(s);
    } else {
      var j := RunEnd(s, i, IsInk);
      WordsKeepText(s[j..]);
      SqueezeFirstWord(s, i, j);
    }
  }

  lemma SqueezeFirstWord(s: string, i: nat, j: nat)
    requires i <= j <= |s| && (forall k :: 0 <= k < i ==> IsSpace(s[k])) && (forall k :: i <= k < j ==> !IsSpace(s[k]))
    ensures Squeeze(s) == s[i..j] + Squeeze(s[j..])
  {
    ThreeParts(s, i, j);
    SqueezeParts(s[..i], s[i..j], s[j..]);
  }

  lemma SqueezeParts(blanks: string, word: string, rest: string)
    requires forall k :: 0 <= k < |blanks| ==> IsSpace(blanks[k])
    requires forall k :: 0 <= k < |word| ==> !IsSpace(word[k])
    ensures Squeeze(blanks + word + rest) == word + Squeeze(rest)
  {
    SqueezeSpaces(blanks);
    SqueezeInk(word);
    SqueezeThree(blanks, word, rest);
    assert "" + word == word;
  }

  lemma SqueezeThree(a: string, b: string, c: string)
    ensures Squeeze(a + b + c) == Squeeze(a) + Squeeze(b) + Squeeze(c)
  {
    SqueezeAppend(a + b, c);
    SqueezeAppend(a, b);
  }

  function FillText(f: Fill): string {
    Squeeze(Concat(f.lines)) + Squeeze(f.current)
  }

  lemma CandidateText(current: string, word: string)
    requires IsWord(word)
    ensures Squeeze(Candidate(current, word)) == Squeeze(current) + word
  {
    SqueezeInk(word);
    if current != "" {
      SqueezeJoined(current, word);
    }
  }

  lemma SqueezeJoined(a: string, b: string)
    ensures Squeeze(a + " " + b) == Squeeze(a) + Squeeze(b)
  {
    SqueezeThree(a, " ", b);
    SqueezeSpaces(" ");
    assert Squeeze(a) + "" == Squeeze(a);
  }

  lemma PushedText(f: Fill)
    ensures Squeeze(Concat(Pushed(f))) == FillText(f)
  {
    ConcatSnoc(f.lines, f.current);
    SqueezeAppend(Concat(f.lines), f.current);
  }

  lemma PlaceKeepsText(f: Fill, word: string, width: nat, breakLong: bool)
    requires IsWord(word) && (breakLong ==> width >= 1)
    ensures FillText(Place(f, word, width, breakLong)) == FillText(f) + word
  {
    if |Candidate(f.current, word)| <= width {
      CandidateText(f.current, word);
    } else {
      PushedText(f);
      if breakLong && |word| > width {
        PiecesText(Pushed(f), Pieces(word, width).0, Pieces(word, width).1, word);
      } else {
        SqueezeInk(word);
      }
    }
  }

  lemma PiecesText(lines: seq<string>, front: seq<string>, last: string, word: string)
    requires IsWord(word) && Concat(front) + last == word
    ensures FillText(Fill(lines + front, last)) == Squeeze(Concat(lines)) + word
  {
    SqueezeInk(word);
    SqueezeAppend(Concat(front), last);
    ConcatAppend(lines, front);
    SqueezeAppend(Concat(lines), Concat(front));
    Assoc(Squeeze(Concat(lines)), Squeeze(Concat(front)), Squeeze(last));
  }

  lemma {:induction false} FilledText(words: seq<string>, width: nat, breakLong: bool)
    requires AllWords(words) && (breakLong ==> width >= 1)
    ensures FillText(Filled(words, width, breakLong)) == Concat(words)
  {
    if words != [] {
      var front, w := words[..|words| - 1], words[|words| - 1];
      assert IsWord(w);
      FilledText(front, width, breakLong);
      PlaceKeepsText(Filled(front, width, breakLong), w, width, breakLong);
      ConcatSnoc(front, w);
      assert words == front + [w];
    }
  }

  lemma FilledKeepsText(words: seq<string>, width: nat, breakLong: bool)
    requires AllWords(words) && (breakLong ==> width >= 1)
    ensures Squeeze(Concat(Pushed(Filled(words, width, breakLong)))) == Concat(words)
  {
    FilledText(words, width, breakLong);
    PushedText(Filled(words, width, breakLong));
  }

  lemma ConcatOfWords(words: seq<string>)
    requires AllWords(words) && words != []
    ensures Concat(words) != ""
  {
    assert IsWord(words[0]);
  }

  /** Either pass keeps the characters of the text, in order. */
  lemma WrapKeepsText(text: string, width: nat, breakLong: bool)
    requires breakLong ==> width >= 1
    ensures Squeeze(Concat(WrapWords(text, width, breakLong))) == Squeeze(text)
  {
    FilledKeepsText(Words(text), width, breakLong);
    WordsKeepText(text);
    if Pushed(Filled(Words(text), width, breakLong)) == [] {
      assert Concat([text]) == text;
    }
  }

  lemma {:induction false} JoinOfLines(g: seq<seq<string>>)
    requires NoEmptyGroup(g)
    ensures Join(JoinEach(g)) == Join(Concat(g))
    ensures g != [] ==> Concat(g) != []
  {
    if |g| == 1 {
      assert g == [g[0]] && Concat([g[0]]) == g[0] && JoinEach(g) == [Join(g[0])];
    } else if g != [] {
      var front, last := g[..|g| - 1], g[|g| - 1];
      JoinOfLines(front);
      assert JoinEach(g)[..|g| - 1] == JoinEach(front);
      ConcatSnoc(front, last);
      assert g == front + [last];
      JoinAppend(Concat(front), last);
    }
  }

  /** The first pass breaks only between words: joining its lines gives the clean
      text back. */
  lemma JoinedLinesAreTheText(clean: string, width: nat)
    requires clean == Join(Words(clean)) && clean != ""
    ensures Join(WrapWords(clean, width, false)) == clean
  {
    CleanHasWords(clean);
    FirstPassIsGreedy(Words(clean), width);
    GreedyKeepsWords(Words(clean), width);
    JoinOfLines(Greedy(Words(clean), width));
  }

  /* ----- no grouping needs fewer lines ----- */

  /** `h` puts the words on lines, in order, each within the width. */
  predicate Grouping(h: seq<seq<string>>, words: seq<string>, width: nat) {
    Concat(h) == words && NoEmptyGroup(h) && GroupsFit(h, width)
  }

  /** `shorter` is `h` without its last word `w`. */
  predicate Dropped(h: seq<seq<string>>, shorter: seq<seq<string>>, w: string) {
    && h != [] && h[|h| - 1] != []
    && (if |h[|h| - 1]| == 1 then |shorter| == |h| - 1
        else |shorter| == |h| && h[|h| - 1] == shorter[|shorter| - 1] + [w])
  }

  /** A grouping of the words but the last, from one of all the words. */
  lemma DropLastWord(h: seq<seq<string>>, words: seq<string>, width: nat) returns (shorter: seq<seq<string>>)
    requires words != [] && Grouping(h, words, width)
    ensures Grouping(shorter, words[..|words| - 1], width) && Dropped(h, shorter, words[|words| - 1])
  {
    assert h != [];
    var before, last := h[..|h| - 1], h[|h| - 1];
    ConcatSnoc(before, last);
    GroupsFitSnoc(before, last, width);
    assert h == before + [last];
    LastOfBoth(Concat(before), last, words);
    if |last| == 1 {
      shorter := before;
    } else {
      var rest := last[..|last| - 1];
      shorter := before + [rest];
      ConcatSnoc(before, rest);
      ShorterLine(last);
      GroupsFitSnoc(before, rest, width);
    }
  }

  lemma LastOfBoth<T>(a: seq<T>, last: seq<T>, words: seq<T>)
    requires last != [] && words == a + last
    ensures words[|words| - 1] == last[|last| - 1] && last == last[..|last| - 1] + [words[|words| - 1]]
    ensures words[..|words| - 1] == a + last[..|last| - 1]
    ensures |last| == 1 ==> words[..|words| - 1] == a
  {
  }

  lemma ShorterLine(ws: seq<string>)
    requires |ws| > 1
    ensures |Join(ws[..|ws| - 1])| <= |Join(ws)|
  {
  }

  /** Fewer lines, or as many with no more words on the last. */
  predicate Ahead(g: seq<seq<string>>, h: seq<seq<string>>) {
    |g| < |h| || (|g| == |h| && (g != [] ==> |g[|g| - 1]| <= |h[|h| - 1]|))
  }

  /** Greedy stays ahead of every grouping. */
  lemma {:induction false} GreedyStaysAhead(words: seq<string>, width: nat, h: seq<seq<string>>)
    requires Grouping(h, words, width)
    ensures Ahead(Greedy(words, width), h)
    decreases |words|
  {
    if words == [] {
      WordPerGroup(h);
    } else {
      var front, w := words[..|words| - 1], words[|words| - 1];
      var shorter := DropLastWord(h, words, width);
      GreedyStaysAhead(front, width, shorter);
      GreedyKeepsWords(front, width);
      LastWordNests(front, Greedy(front, width), width, shorter, h, w);
      GrowStaysAhead(Greedy(front, width), w, width, shorter, h);
    }
  }

  /** Where a grouping is level, the word that fits on the other's last line fits on its own. */
  lemma LastWordNests(front: seq<string>, g: seq<seq<string>>, width: nat, shorter: seq<seq<string>>,
                      h: seq<seq<string>>, w: string)
    requires Concat(g) == front && Concat(shorter) == front
    requires Dropped(h, shorter, w) && GroupsFit(h, width) && Ahead(g, shorter)
    ensures |h[|h| - 1]| > 1 && |g| == |shorter| ==> g != [] && |Join(g[|g| - 1] + [w])| <= width
  {
    if |h[|h| - 1]| > 1 && |g| == |shorter| {
      LastIsSuffix(g);
      LastIsSuffix(shorter);
      LastLinesNest(front, g[|g| - 1], shorter[|shorter| - 1], w);
      assert |Join(h[|h| - 1])| <= width;
    }
  }

  lemma GrowStaysAhead(g: seq<seq<string>>, w: string, width: nat, shorter: seq<seq<string>>, h: seq<seq<string>>)
    requires Ahead(g, shorter) && Dropped(h, shorter, w)
    requires |h[|h| - 1]| > 1 && |g| == |shorter| ==> g != [] && |Join(g[|g| - 1] + [w])| <= width
    ensures Ahead(Grow(g, w, width), h)
  {
    GrowSize(g, w, width);
  }

  lemma {:induction false} WordPerGroup(h: seq<seq<string>>)
    requires NoEmptyGroup(h)
    ensures |Concat(h)| >= |h|
  {
    if h != [] {
      WordPerGroup(h[1..]);
    }
  }

  lemma GrowSize(g: seq<seq<string>>, w: string, width: nat)
    ensures var r := Grow(g, w, width);
      && (|r| == |g| + 1 ==> |r[|r| - 1]| == 1)
      && (|r| != |g| + 1 ==> |r| == |g| && g != [] && |r[|r| - 1]| == |g[|g| - 1]| + 1)
      && (g != [] && |Join(g[|g| - 1] + [w])| <= width ==> |r| == |g|)
  {
  }

  lemma LastLinesNest(front: seq<string>, a: seq<string>, b: seq<string>, w: string)
    requires |a| <= |b| <= |front| && front[|front| - |a|..] == a && front[|front| - |b|..] == b
    ensures |Join(a + [w])| <= |Join(b + [w])|
  {
    assert b[|b| - |a|..] == a;
    assert (b + [w])[|b| - |a|..] == a + [w];
    SuffixIsNoLonger(b + [w], |b| - |a|);
  }

  lemma LastIsSuffix(g: seq<seq<string>>)
    requires g != []
    ensures var last := g[|g| - 1];
      |last| <= |Concat(g)| && Concat(g)[|Concat(g)| - |last|..] == last
  {
    var before, last := g[..|g| - 1], g[|g| - 1];
    ConcatSnoc(before, last);
    assert g == before + [last];
  }

  /** Greedy wrapping is optimal: when every word fits, its lines are a grouping of
      the words, and no grouping uses fewer lines. */
  lemma GreedyIsOptimal(words: seq<string>, width: nat)
    requires AllWords(words) && AllFit(words, width)
    ensures Grouping(Greedy(words, width), words, width)
    ensures JoinEach(Greedy(words, width)) == Pushed(Filled(words, width, false))
    ensures forall h :: Grouping(h, words, width) ==> |Greedy(words, width)| <= |h|
  {
    GreedyKeepsWords(words, width);
    GreedyFitsIff(words, width);
    FirstPassIsGreedy(words, width);
    forall h | Grouping(h, words, width) ensures |Greedy(words, width)| <= |h| {
      GreedyStaysAhead(words, width, h);
    }
  }

  /* ----- chopping a long word ----- */

  /** The characters left after `n` turns of the chopping loop. */
  function Chopped(chars: string, width: nat, n: nat): string {
    if n == 0 then chars
    else
      var rest := Chopped(chars, width, n - 1);
      if |rest| > width then rest[width..] else rest
  }

  /** The loop that chops a long word ends exactly when the width is at least one
      or there is nothing to chop; at width 0 it adds empty lines for ever. */
  lemma ChoppingEndsIff(chars: string, width: nat)
    ensures (exists n :: |Chopped(chars, width, n)| <= width) <==> width >= 1 || chars == ""
  {
    if width >= 1 {
      ChopShrinks(chars, width, |chars|);
      assert |Chopped(chars, width, |chars|)| <= width;
    } else if chars == "" {
      assert |Chopped(chars, width, 0)| <= width;
    } else {
      forall n: nat ensures |Chopped(chars, width, n)| > width {
        ChopStuck(chars, n);
      }
    }
  }

  lemma {:induction false} ChopShrinks(chars: string, width: nat, n: nat)
    requires width >= 1
    ensures |Chopped(chars, width, n)| <= width || |Chopped(chars, width, n)| + n <= |chars|
  {
    if n > 0 {
      ChopShrinks(chars, width, n - 1);
    }
  }

  lemma {:induction false} ChopStuck(chars: string, n: nat)
    ensures Chopped(chars, 0, n) == chars
  {
    if n > 0 {
      ChopStuck(chars, n - 1);
    }
  }
}
