/** What wrapping does to a label's text, told in the printer's dots and from the text alone
    (src/print/godex/wrap.rs, src/print/godex/text.rs). */
module WrapDots {
  import opened Text
  import opened Wrap

  /* ----- the width in dots ----- */

  /** Dots of one character: the pitch times the enlargement, each at least one. */
  function CharDots(xMul: int, pitchDots: int): (c: int)
    ensures c >= 1
  {
    var dots := pitchDots * (if xMul >= 1 then xMul else 1);
    if dots >= 1 then dots else 1
  }

  /** The dots a line may take: those of the label, or of the least number of characters when more. */
  function LineDots(widthDots: int, xMul: int, pitchDots: int, minChars: nat): int {
    var least := minChars * CharDots(xMul, pitchDots);
    if widthDots >= least then widthDots else least
  }

  lemma QuotientBound(n: nat, widthDots: int, c: int)
    requires c >= 1 && widthDots >= 0
    ensures n <= widthDots / c <==> n * c <= widthDots
  {
    var q := widthDots / c;
    assert widthDots == c * q + widthDots % c;
    if n <= q {
      Grows(n, q, c);
    } else {
      Grows(q + 1, n, c);
    }
  }

  lemma Grows(a: int, b: int, c: int)
    requires a <= b && c >= 1
    ensures a * c <= b * c
  {
    assert (b - a) * c >= 0;
  }

  lemma GrowsIff(a: nat, b: nat, c: int)
    requires c >= 1
    ensures a <= b <==> a * c <= b * c
  {
    if a <= b {
      Grows(a, b, c);
    } else {
      Grows(b + 1, a, c);
    }
  }

  lemma NotNegative(n: nat, c: int)
    requires c >= 1
    ensures n * c >= 0
  {
  }

  /** The width in characters is the largest whose dots a line may take. */
  lemma WidthIs(widthDots: int, xMul: int, pitchDots: int, minChars: nat, n: nat)
    ensures n <= WidthChars(widthDots, xMul, pitchDots, minChars) <==>
      n * CharDots(xMul, pitchDots) <= LineDots(widthDots, xMul, pitchDots, minChars)
  {
    var c := CharDots(xMul, pitchDots);
    GrowsIff(n, minChars, c);
    NotNegative(minChars, c);
    if widthDots >= 0 {
      QuotientBound(n, widthDots, c);
    }
  }

  /** Whether a text takes no more than `dots`. */
  predicate TakesAtMost(text: string, c: int, dots: int) {
    |text| * c <= dots
  }

  predicate AllTake(texts: seq<string>, c: int, dots: int) {
    forall x :: x in texts ==> TakesAtMost(x, c, dots)
  }

  /** `h` puts the words on lines, in order, each within `dots`. */
  predicate DotGrouping(h: seq<seq<string>>, words: seq<string>, c: int, dots: int) {
    && Concat(h) == words && NoEmptyGroup(h)
    && forall i :: 0 <= i < |h| ==> TakesAtMost(Join(h[i]), c, dots)
  }

  lemma AllTakeIff(texts: seq<string>, widthDots: int, xMul: int, pitchDots: int, minChars: nat)
    ensures AllTake(texts, CharDots(xMul, pitchDots), LineDots(widthDots, xMul, pitchDots, minChars)) <==>
      AllFit(texts, WidthChars(widthDots, xMul, pitchDots, minChars))
  {
    forall x | x in texts
      ensures TakesAtMost(x, CharDots(xMul, pitchDots), LineDots(widthDots, xMul, pitchDots, minChars)) <==>
        |x| <= WidthChars(widthDots, xMul, pitchDots, minChars)
    {
      WidthIs(widthDots, xMul, pitchDots, minChars, |x|);
    }
  }

  lemma DotGroupingIff(h: seq<seq<string>>, words: seq<string>, widthDots: int, xMul: int, pitchDots: int,
                       minChars: nat)
    ensures DotGrouping(h, words, CharDots(xMul, pitchDots), LineDots(widthDots, xMul, pitchDots, minChars)) <==>
      Grouping(h, words, WidthChars(widthDots, xMul, pitchDots, minChars))
  {
    forall i | 0 <= i < |h|
      ensures TakesAtMost(Join(h[i]), CharDots(xMul, pitchDots), LineDots(widthDots, xMul, pitchDots, minChars)) <==>
        |Join(h[i])| <= WidthChars(widthDots, xMul, pitchDots, minChars)
    {
      WidthIs(widthDots, xMul, pitchDots, minChars, |Join(h[i])|);
    }
  }

  /** The code returns when there is nothing to wrap or one character fits. */
  lemma OneCharacterFitsIff(widthDots: int, xMul: int, pitchDots: int, minChars: nat)
    ensures WidthChars(widthDots, xMul, pitchDots, minChars) >= 1 <==>
      CharDots(xMul, pitchDots) <= LineDots(widthDots, xMul, pitchDots, minChars)
  {
    WidthIs(widthDots, xMul, pitchDots, minChars, 1);
  }

  lemma LinesOfWords(clean: string, width: nat)
    requires clean != "" && clean == Join(Words(clean)) && AllFit(Words(clean), width)
    ensures WrapWords(clean, width, false) == JoinEach(Greedy(Words(clean), width))
    ensures |WrapWords(clean, width, false)| == |Greedy(Words(clean), width)|
  {
    CleanHasWords(clean);
    GreedyIsOptimal(Words(clean), width);
  }

  /** Wrapping in dots, from the arguments alone. No line takes more dots than a line may. When every
      word takes no more, the lines joined with blanks are the clean text, and no way to put its
      words on lines within those dots uses fewer. */
  lemma WrapInDots(text: string, widthDots: int, xMul: int, pitchDots: int, minChars: nat)
    requires SanitizeLabelText(text) == "" ||
      CharDots(xMul, pitchDots) <= LineDots(widthDots, xMul, pitchDots, minChars)
    ensures SanitizeLabelText(text) == "" || WidthChars(widthDots, xMul, pitchDots, minChars) >= 1
    ensures var clean := SanitizeLabelText(text);
      var lines := WrappedText(clean, WidthChars(widthDots, xMul, pitchDots, minChars));
      var c, dots := CharDots(xMul, pitchDots), LineDots(widthDots, xMul, pitchDots, minChars);
      && (clean == "" ==> lines == [""])
      && (clean != "" ==> AllTake(lines, c, dots) && Squeeze(Concat(lines)) == Kept(text))
      && (clean != "" && AllTake(Words(clean), c, dots) ==>
            && Join(lines) == clean
            && forall h :: DotGrouping(h, Words(clean), c, dots) ==> |lines| <= |h|)
  {
    OneCharacterFitsIff(widthDots, xMul, pitchDots, minChars);
    var clean, width := SanitizeLabelText(text), WidthChars(widthDots, xMul, pitchDots, minChars);
    if clean != "" {
      var lines := WrappedText(clean, width);
      SanitizedKeepsText(text);
      SanitizedIsJoined(text);
      CleanHasWords(clean);
      FirstPassFitsIff(clean, width);
      SecondPassFits(clean, width);
      AllTakeIff(lines, widthDots, xMul, pitchDots, minChars);
      AllTakeIff(Words(clean), widthDots, xMul, pitchDots, minChars);
      WrapKeepsText(clean, width, !AllFit(Words(clean), width));
      if AllFit(Words(clean), width) {
        JoinedLinesAreTheText(clean, width);
        LinesOfWords(clean, width);
        FewestInDots(Words(clean), widthDots, xMul, pitchDots, minChars);
      }
    }
  }

  lemma FewestInDots(words: seq<string>, widthDots: int, xMul: int, pitchDots: int, minChars: nat)
    requires AllWords(words) && AllFit(words, WidthChars(widthDots, xMul, pitchDots, minChars))
    ensures forall h ::
      DotGrouping(h, words, CharDots(xMul, pitchDots), LineDots(widthDots, xMul, pitchDots, minChars)) ==>
        |Greedy(words, WidthChars(widthDots, xMul, pitchDots, minChars))| <= |h|
  {
    var width := WidthChars(widthDots, xMul, pitchDots, minChars);
    GreedyIsOptimal(words, width);
    forall h | DotGrouping(h, words, CharDots(xMul, pitchDots), LineDots(widthDots, xMul, pitchDots, minChars))
      ensures |Greedy(words, width)| <= |h|
    {
      DotGroupingIff(h, words, widthDots, xMul, pitchDots, minChars);
    }
  }

  /* ----- the second pass is the first on the pieces of long words ----- */

  /** The words, each longer than the width cut into pieces of it. */
  function CutWords(words: seq<string>, width: nat): seq<string>
    requires width >= 1
  {
    if words == [] then []
    else
      var p := Pieces(words[|words| - 1], width);
      CutWords(words[..|words| - 1], width) + (p.0 + [p.1])
  }

  /** Placing words one after another. */
  function PlaceAll(f: Fill, words: seq<string>, width: nat): Fill {
    if words == [] then f
    else Place(PlaceAll(f, words[..|words| - 1], width), words[|words| - 1], width, false)
  }

  lemma PlaceSnoc(f: Fill, words: seq<string>, w: string, width: nat)
    ensures PlaceAll(f, words + [w], width) == Place(PlaceAll(f, words, width), w, width, false)
  {
    assert (words + [w])[..|words|] == words;
  }

  lemma {:induction false} PlaceAfter(a: seq<string>, b: seq<string>, width: nat)
    ensures Filled(a + b, width, false) == PlaceAll(Filled(a, width, false), b, width)
    decreases |b|
  {
    if b == [] {
      assert a + b == a;
    } else {
      assert (a + b)[..|a + b| - 1] == a + b[..|b| - 1];
      PlaceAfter(a, b[..|b| - 1], width);
    }
  }

  /** Pieces of the full width fill one line each. */
  lemma {:induction false} FullPieces(f: Fill, pieces: seq<string>, width: nat)
    requires width >= 1 && pieces != [] && forall i :: 0 <= i < |pieces| ==> |pieces[i]| == width
    ensures PlaceAll(f, pieces, width) == Fill(Pushed(f) + pieces[..|pieces| - 1], pieces[|pieces| - 1])
    decreases |pieces|
  {
    var front, last := pieces[..|pieces| - 1], pieces[|pieces| - 1];
    assert pieces == front + [last];
    if front == [] {
      assert Pushed(f) + [] == Pushed(f);
      assert PlaceAll(f, [], width) == f;
    } else {
      FullPieces(f, front, width);
      var lines := Pushed(f) + front[..|front| - 1];
      assert lines + [front[|front| - 1]] == Pushed(f) + front;
    }
  }

  lemma PiecesOfLong(word: string, width: nat)
    requires width >= 1 && |word| > width
    ensures Pieces(word, width).0 != [] && Pieces(word, width).1 != ""
  {
  }

  /** A long word is placed as its pieces are. */
  lemma LongIsPlaced(f: Fill, word: string, width: nat)
    requires width >= 1 && |word| > width
    ensures var p := Pieces(word, width);
      Place(f, word, width, true) == PlaceAll(f, p.0 + [p.1], width)
  {
    var p := Pieces(word, width);
    PiecesOfLong(word, width);
    PlaceSnoc(f, p.0, p.1, width);
    FullPiecesThenRest(f, p.0, p.1, width);
  }

  lemma FullPiecesThenRest(f: Fill, pieces: seq<string>, rest: string, width: nat)
    requires width >= 1 && pieces != [] && rest != "" && |rest| <= width
    requires forall i :: 0 <= i < |pieces| ==> |pieces[i]| == width
    ensures Place(PlaceAll(f, pieces, width), rest, width, false) == Fill(Pushed(f) + pieces, rest)
  {
    FullPieces(f, pieces, width);
    var lines, last := Pushed(f) + pieces[..|pieces| - 1], pieces[|pieces| - 1];
    assert lines + [last] == Pushed(f) + pieces;
    assert |Candidate(last, rest)| > width;
  }

  lemma ShortIsPlaced(f: Fill, word: string, width: nat)
    requires width >= 1 && |word| <= width
    ensures var p := Pieces(word, width);
      Place(f, word, width, true) == PlaceAll(f, p.0 + [p.1], width)
  {
    assert [] + [word] == [word];
    PlaceSnoc(f, [], word, width);
    assert PlaceAll(f, [], width) == f;
  }

  lemma {:induction false} SecondPassPlaces(words: seq<string>, width: nat)
    requires width >= 1
    ensures Filled(words, width, true) == Filled(CutWords(words, width), width, false)
  {
    if words != [] {
      var front, word := words[..|words| - 1], words[|words| - 1];
      var p := Pieces(word, width);
      SecondPassPlaces(front, width);
      PlaceAfter(CutWords(front, width), p.0 + [p.1], width);
      if |word| > width {
        LongIsPlaced(Filled(front, width, true), word, width);
      } else {
        ShortIsPlaced(Filled(front, width, true), word, width);
      }
    }
  }

  lemma {:induction false} PiecesAreWords(word: string, width: nat)
    requires width >= 1 && IsWord(word)
    ensures var p := Pieces(word, width); AllWords(p.0 + [p.1]) && AllFit(p.0 + [p.1], width)
    decreases |word|
  {
    if |word| > width {
      PiecesAreWords(word[width..], width);
      var rest := Pieces(word[width..], width);
      assert Pieces(word, width).0 + [Pieces(word, width).1] == [word[..width]] + (rest.0 + [rest.1]);
    }
  }

  lemma {:induction false} CutAreWords(words: seq<string>, width: nat)
    requires width >= 1 && AllWords(words)
    ensures AllWords(CutWords(words, width)) && AllFit(CutWords(words, width), width)
  {
    if words != [] {
      assert words[|words| - 1] in words;
      assert forall w :: w in words[..|words| - 1] ==> w in words;
      CutAreWords(words[..|words| - 1], width);
      PiecesAreWords(words[|words| - 1], width);
    }
  }

  /** The lines of the second pass are a grouping of the words and the pieces of long ones, and no
      grouping of these within the width uses fewer. */
  lemma SecondPassIsOptimal(words: seq<string>, width: nat)
    requires width >= 1 && AllWords(words)
    ensures var cut := CutWords(words, width);
      && Pushed(Filled(words, width, true)) == JoinEach(Greedy(cut, width))
      && Grouping(Greedy(cut, width), cut, width)
      && forall h :: Grouping(h, cut, width) ==> |Greedy(cut, width)| <= |h|
  {
    SecondPassPlaces(words, width);
    CutAreWords(words, width);
    GreedyIsOptimal(CutWords(words, width), width);
  }

  /* ----- what cleaning keeps ----- */

  /** The characters that are neither white space nor one of the four the printer reserves. */
  function Kept(s: string): string {
    if s == "" then ""
    else
      (if IsSpace(s[0]) || s[0] == '\r' || s[0] == '\n' || s[0] == '^' || s[0] == '~' then "" else [s[0]])
      + Kept(s[1..])
  }

  lemma {:induction false} SqueezeBlanked(s: string)
    ensures Squeeze(Blanked(s)) == Kept(s)
  {
    if s != "" {
      var rest := s[1..];
      assert Blanked(s) == [Blanked(s)[0]] + Blanked(rest);
      SqueezeUnfold(Blanked(s)[0], Blanked(rest));
      SqueezeBlanked(rest);
    }
  }

  /** Cleaning keeps every other character, in order. */
  lemma SanitizedKeepsText(text: string)
    ensures Squeeze(SanitizeLabelText(text)) == Kept(text)
  {
    var words := Words(Blanked(text));
    WordsKeepText(Blanked(text));
    SqueezeBlanked(text);
    WordsKeepText(SanitizeLabelText(text));
    WordsOfJoin(words);
  }
}
