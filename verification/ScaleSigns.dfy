/** Frames without a unit, and where a sign belongs (src/scale/parser.rs). */
module ScaleSigns {
  import opened Text
  import opened ScaleParser
  import opened ScaleWeight
  import opened ScaleChunking
  import opened ScaleSim

  predicate Number(digits: string) {
    digits != "" && AllDigits(digits) && DigitsValue(digits) <= 1000000
  }

  /** Digits up to the end of the frame, from `start` behind what may be a sign. */
  function LastNumber(s: string, start: nat, prefixEnd: nat): Match {
    Match(start, prefixEnd, prefixEnd, |s|, |s|, |s|, |UNITS|, |s|, |s|, |s|)
  }

  lemma NoUnitAtEnd(s: string)
    ensures FirstUnit(s, |s|, 0) == |UNITS|
  {
  }

  lemma LastNumberTakesAll(s: string, start: nat, prefixEnd: nat)
    requires start <= prefixEnd < |s| && prefixEnd <= start + 1
    requires prefixEnd == start + 1 ==> IsPrefixSign(s[start])
    requires forall k :: prefixEnd <= k < |s| ==> IsDigit(s[k])
    ensures TakesAll(s, LastNumber(s, start, prefixEnd))
  {
    NoUnitAtEnd(s);
    RunEndIs(s, prefixEnd, |s|, IsDigit);
  }

  lemma WholeValue(digits: string)
    requires AllDigits(digits)
    ensures NumberValue(digits, "") == DigitsValue(digits) as real
  {
    assert digits + "" == digits;
    assert Pow10(0) == 1;
  }

  lemma LastNumberCandidate(s: string, start: nat, prefixEnd: nat, du: string)
    requires IsParse(s, LastNumber(s, start, prefixEnd)) && prefixEnd < |s|
    ensures AllDigits(s[prefixEnd..])
    ensures var c := ToCandidate(s, LastNumber(s, start, prefixEnd), du);
      var sign := ResolveSign(s[start..prefixEnd], "");
      var value := DigitsValue(s[prefixEnd..]) as real;
      c == Candidate(if sign.negative then -value else value, Lower(Trim(du)), start, false, sign)
  {
    var m := LastNumber(s, start, prefixEnd);
    assert Whole(s, m) == s[prefixEnd..] && Fraction(s, m) == "" && s[m.suffixStart..m.end] == "";
    WholeValue(s[prefixEnd..]);
  }

  lemma NoSign()
    ensures ResolveSign("", "") == ResolvedSign(false, false, false)
  {
    assert Trim("") == "" && Upper("") == "";
  }

  lemma LetterIsMinus(letter: char)
    requires letter == 'N' || letter == 'n'
    ensures ResolveSign([letter], "") == ResolvedSign(true, true, false)
  {
    assert Trim([letter]) == [letter];
    assert Upper([letter]) == "N";
  }

  lemma LineIsPlain(s: string)
    requires forall k :: 0 <= k < |s| ==> s[k] <= '~'
    ensures NormalizeMinus(s) == s
  {
    AsciiHasNoDashes(s);
  }

  /** A number alone is a frame without a unit. */
  lemma BareNumberIsUnitless(digits: string, du: string)
    requires Number(digits)
    ensures Unitless(digits, du)
    ensures Parse(digits, du).Some? && Parse(digits, du).value.weight == DigitsValue(digits) as real
  {
    var m := LastNumber(digits, 0, 0);
    LineIsPlain(digits);
    LastNumberTakesAll(digits, 0, 0);
    OnlyGreedyMatch(digits, m);
    assert digits[0..] == digits && digits[0..0] == "";
    LastNumberCandidate(digits, 0, 0, du);
    NoSign();
    OneCandidate(digits, m, du);
  }

  /** A letter N in front of a number, in either case, makes it negative. */
  lemma LetterNegates(letter: char, digits: string, du: string)
    requires (letter == 'N' || letter == 'n') && Number(digits)
    ensures var parsed := Parse([letter] + digits, du);
      parsed.Some? && parsed.value.weight == -(DigitsValue(digits) as real)
  {
    var s := [letter] + digits;
    var m := LastNumber(s, 0, 1);
    LineIsPlain(s);
    LastNumberTakesAll(s, 0, 1);
    OnlyGreedyMatch(s, m);
    assert s[1..] == digits && s[0..1] == [letter];
    LastNumberCandidate(s, 0, 1, du);
    LetterIsMinus(letter);
    OneCandidate(s, m, du);
  }

  /* ----- a sign between two numbers ----- */

  /** Digits from the front of the frame, a blank and a minus sign. */
  function FirstNumber(n: nat): Match {
    Match(0, 0, 0, n, n, n + 1, |UNITS|, n + 1, n + 1, n + 2)
  }

  lemma UnitStarts(s: string, at: nat, u: nat)
    requires u < |UNITS| && at < |s|
    ensures UnitMatches(s, at, u) ==> LowerChar(s[at]) == UNITS[u][0]
  {
    if UnitMatches(s, at, u) {
      assert Lower(s[at..at + |UNITS[u]|])[0] == UNITS[u][0];
    }
  }

  lemma NoUnitAtSign(s: string, at: nat)
    requires at < |s| && s[at] == '-'
    ensures FirstUnit(s, at, 0) == |UNITS|
  {
    forall u | 0 <= u < |UNITS|
      ensures !UnitMatches(s, at, u)
    {
      UnitStarts(s, at, u);
    }
  }

  lemma FirstNumberTakesAll(s: string, n: nat)
    requires 0 < n && n + 2 <= |s| && (forall k :: 0 <= k < n ==> IsDigit(s[k])) && s[n] == ' ' && s[n + 1] == '-'
    ensures TakesAll(s, FirstNumber(n))
  {
    RunEndIs(s, 0, n, IsDigit);
    RunEndIs(s, n, n + 1, IsSpace);
    NoUnitAtSign(s, n + 1);
    RunEndIs(s, n + 1, n + 1, IsSpace);
  }

  lemma TrailingMinus()
    ensures ResolveSign("", "-") == ResolvedSign(true, true, false)
  {
    assert Trim("-") == "-";
  }

  lemma FirstNumberCandidate(s: string, n: nat, du: string)
    requires IsParse(s, FirstNumber(n)) && s[n + 1] == '-'
    ensures AllDigits(s[..n])
    ensures ToCandidate(s, FirstNumber(n), du)
         == Candidate(-(DigitsValue(s[..n]) as real), Lower(Trim(du)), 0, false, ResolvedSign(true, true, false))
  {
    var m := FirstNumber(n);
    assert s[m.start..m.prefixEnd] == "" && s[m.suffixStart..m.end] == "-";
    assert Whole(s, m) == s[..n] && Fraction(s, m) == "";
    TrailingMinus();
    WholeValue(s[..n]);
  }

  lemma TwoMatches(s: string, a: Match, b: Match)
    requires TakesAll(s, a) && TakesAll(s, b) && a.start == 0 && b.start == a.end
    requires forall k :: b.end <= k < |s| ==> !IsDigit(s[k])
    ensures Matches(s, 0) == [a] + [b]
  {
    GreedyMatchIsUnique(s, a);
    FoundAtOnce(s, a.start);
    MatchesUnfold(s, a.start, a);
    OnlyMatch(s, b);
  }

  lemma OneKept(s: string, b: Match, du: string)
    requires AllParses(s, [b]) && IsParse(s, b) && InRange(ToCandidate(s, b, du))
    ensures Candidates(s, [b], du) == [ToCandidate(s, b, du)]
  {
    assert [b][1..] == [];
  }

  lemma TwoKept(s: string, a: Match, b: Match, du: string)
    requires AllParses(s, [a] + [b]) && AllParses(s, [b]) && IsParse(s, a) && IsParse(s, b)
    requires InRange(ToCandidate(s, a, du)) && InRange(ToCandidate(s, b, du))
    ensures Candidates(s, [a] + [b], du) == [ToCandidate(s, a, du), ToCandidate(s, b, du)]
  {
    FirstCandidate(s, a, [b], du);
    OneKept(s, b, du);
  }

  lemma NegativeWins(c: Candidate, d: Candidate)
    requires c.sign == ResolvedSign(true, true, false) && d.sign == ResolvedSign(false, false, false) && !d.hasUnit
    ensures Best([c, d]) == Some(c)
  {
    assert [c, d][..1] == [c];
  }

  /** Of two matches the one with the minus sign is chosen. */
  lemma SignedOneIsChosen(s: string, a: Match, b: Match, du: string, c: Candidate, d: Candidate)
    requires Matches(s, 0) == [a] + [b] && IsParse(s, a) && IsParse(s, b)
    requires ToCandidate(s, a, du) == c && ToCandidate(s, b, du) == d && InRange(c) && InRange(d)
    requires c.sign == ResolvedSign(true, true, false) && d.sign == ResolvedSign(false, false, false) && !d.hasUnit
    ensures Best(FrameCandidates(s, du)) == Some(c)
  {
    assert AllParses(s, [a] + [b]) && AllParses(s, [b]);
    TwoKept(s, a, b, du);
    NegativeWins(c, d);
  }

  lemma ChosenWeight(s: string, du: string, c: Candidate)
    requires NormalizeMinus(s) == s && Best(FrameCandidates(s, du)) == Some(c)
    ensures Parse(s, du).Some? && Parse(s, du).value.weight == c.weight
  {
  }

  ghost predicate TwoNumbers(s: string, n: nat) {
    && 0 < n && n + 2 < |s|
    && (forall k :: 0 <= k < n ==> IsDigit(s[k])) && s[n] == ' ' && s[n + 1] == '-'
    && forall k :: n + 2 <= k < |s| ==> IsDigit(s[k])
  }

  lemma TextOfTwo(first: string, second: string)
    requires Number(first) && Number(second)
    ensures var s, n := first + " -" + second, |first|;
      TwoNumbers(s, n) && s[..n] == first && s[n + 2..] == second && NormalizeMinus(s) == s
  {
    LineIsPlain(first + " -" + second);
  }

  lemma SignInText(s: string, n: nat, du: string)
    requires TwoNumbers(s, n) && Number(s[..n]) && Number(s[n + 2..])
    ensures exists c :: Best(FrameCandidates(s, du)) == Some(c) && c.weight == -(DigitsValue(s[..n]) as real)
  {
    var a, b := FirstNumber(n), LastNumber(s, n + 2, n + 2);
    FirstNumberTakesAll(s, n);
    LastNumberTakesAll(s, n + 2, n + 2);
    TwoMatches(s, a, b);
    FirstNumberCandidate(s, n, du);
    LastNumberCandidate(s, n + 2, n + 2, du);
    NoSign();
    assert s[n + 2..n + 2] == "";
    SignedOneIsChosen(s, a, b, du, ToCandidate(s, a, du), ToCandidate(s, b, du));
  }

  /** A minus sign belongs to the number before it, even with a blank between and a number behind:
      "5 -3" is minus five. */
  lemma SignBelongsToNumberBefore(first: string, second: string, du: string)
    requires Number(first) && Number(second)
    ensures var parsed := Parse(first + " -" + second, du);
      parsed.Some? && parsed.value.weight == -(DigitsValue(first) as real)
  {
    TextOfTwo(first, second);
    SignInText(first + " -" + second, |first|, du);
    var c :| Best(FrameCandidates(first + " -" + second, du)) == Some(c) && c.weight == -(DigitsValue(first) as real);
    ChosenWeight(first + " -" + second, du, c);
  }

  /* ----- the sign and the number of any match, from its characters ----- */

  predicate MinusBefore(s: string, m: Match)
    requires InOrder(s, m)
  {
    m.start < m.prefixEnd && (s[m.start] == '-' || s[m.start] == 'N' || s[m.start] == 'n')
  }

  predicate PlusBefore(s: string, m: Match)
    requires InOrder(s, m)
  {
    m.start < m.prefixEnd && s[m.start] == '+'
  }

  predicate SignBehind(s: string, m: Match, sign: char)
    requires InOrder(s, m)
  {
    m.suffixStart < m.end && s[m.suffixStart] == sign
  }

  lemma PrefixSign(text: string)
    requires text == "" || (|text| == 1 && IsPrefixSign(text[0]))
    ensures Upper(Trim(text)) == "-" <==> text == "-"
    ensures Upper(Trim(text)) == "+" <==> text == "+"
    ensures Upper(Trim(text)) == "N" <==> text == "N" || text == "n"
  {
    if text != "" {
      assert text == [text[0]] && Trim(text) == text;
      assert Upper(text)[0] == UpperChar(text[0]) && Upper(text) == [UpperChar(text[0])];
    }
  }

  lemma SuffixSign(text: string)
    requires text == "" || (|text| == 1 && IsSuffixSign(text[0]))
    ensures Trim(text) == text
  {
  }

  lemma SignText(s: string, m: Match)
    requires IsParse(s, m)
    ensures var before, behind := s[m.start..m.prefixEnd], s[m.suffixStart..m.end];
      && (before == "" || (|before| == 1 && IsPrefixSign(before[0])))
      && (behind == "" || (|behind| == 1 && IsSuffixSign(behind[0])))
      && (MinusBefore(s, m) <==> before == "-" || before == "N" || before == "n")
      && (PlusBefore(s, m) <==> before == "+")
      && (SignBehind(s, m, '-') <==> behind == "-") && (SignBehind(s, m, '+') <==> behind == "+")
  {
    var before, behind := s[m.start..m.prefixEnd], s[m.suffixStart..m.end];
    assert before != "" ==> before == [s[m.start]];
    assert behind != "" ==> behind == [s[m.suffixStart]];
  }

  /** What a match says, read off its characters: a minus sign or a letter N before the number, or a
      minus sign behind it, makes it negative; otherwise a plus sign on either side makes it positive;
      the weight is the number with that sign. */
  lemma SignOfMatch(s: string, m: Match, du: string)
    requires IsParse(s, m)
    ensures var c := ToCandidate(s, m, du);
      var negative := MinusBefore(s, m) || SignBehind(s, m, '-');
      var positive := !negative && (PlusBefore(s, m) || SignBehind(s, m, '+'));
      var number := NumberValue(Whole(s, m), Fraction(s, m));
      && (c.sign.negative <==> negative) && (c.sign.positive <==> positive)
      && (c.sign.hasSign <==> negative || positive)
      && c.weight == if negative then -number else number
  {
    SignText(s, m);
    PrefixSign(s[m.start..m.prefixEnd]);
    SuffixSign(s[m.suffixStart..m.end]);
  }

  /** The number itself: its whole part and its fraction, one decimal place for each digit of it. */
  lemma NumberIs(whole: string, fraction: string)
    requires AllDigits(whole) && AllDigits(fraction)
    ensures NumberValue(whole, fraction)
         == DigitsValue(whole) as real + DigitsValue(fraction) as real / Pow10(|fraction|) as real
  {
    DigitsValueAppend(whole, fraction);
    Quotient(DigitsValue(whole), Pow10(|fraction|), DigitsValue(fraction), DigitsValue(whole + fraction));
  }

  lemma Quotient(a: nat, p: nat, b: nat, sum: nat)
    requires p > 0 && sum == a * p + b
    ensures sum as real / p as real == a as real + b as real / p as real
  {
    AsReal(a, p, b);
    DivideOut(a as real, p as real, b as real);
  }

  lemma AsReal(a: nat, p: nat, b: nat)
    ensures (a * p + b) as real == a as real * p as real + b as real
  {
  }

  lemma DivideOut(x: real, p: real, y: real)
    requires p > 0.0
    ensures (x * p + y) / p == x + y / p
  {
  }

  /* ----- a plus sign ----- */

  lemma PlusSigns()
    ensures ResolveSign("+", "") == ResolveSign("", "+") == ResolvedSign(true, false, true)
  {
    PrefixSign("+");
    PrefixSign("");
    SuffixSign("+");
  }

  /** A plus sign in front of a number leaves it as it is. */
  lemma PlusBeforeKeeps(digits: string, du: string)
    requires Number(digits)
    ensures var parsed := Parse("+" + digits, du);
      parsed.Some? && parsed.value.weight == DigitsValue(digits) as real
  {
    var s := "+" + digits;
    var m := LastNumber(s, 0, 1);
    LineIsPlain(s);
    LastNumberTakesAll(s, 0, 1);
    OnlyGreedyMatch(s, m);
    assert s[1..] == digits && s[0..1] == "+";
    LastNumberCandidate(s, 0, 1, du);
    PlusSigns();
    OneCandidate(s, m, du);
  }

  /** Digits from the front of the frame and a sign behind them. */
  function SignedNumber(n: nat): Match {
    Match(0, 0, 0, n, n, n, |UNITS|, n, n, n + 1)
  }

  lemma NoUnitAtSignChar(s: string, at: nat)
    requires at < |s| && IsSuffixSign(s[at])
    ensures FirstUnit(s, at, 0) == |UNITS|
  {
    forall u | 0 <= u < |UNITS|
      ensures !UnitMatches(s, at, u)
    {
      UnitStarts(s, at, u);
    }
  }

  lemma SignedNumberTakesAll(s: string, n: nat)
    requires 0 < n && |s| == n + 1 && (forall k :: 0 <= k < n ==> IsDigit(s[k])) && IsSuffixSign(s[n])
    ensures TakesAll(s, SignedNumber(n))
  {
    RunEndIs(s, 0, n, IsDigit);
    RunEndIs(s, n, n, IsSpace);
    NoUnitAtSignChar(s, n);
  }

  lemma SignedNumberWeight(s: string, n: nat, du: string)
    requires IsParse(s, SignedNumber(n)) && |s| == n + 1
    ensures AllDigits(s[..n])
    ensures ToCandidate(s, SignedNumber(n), du).weight ==
      if s[n] == '-' then -(DigitsValue(s[..n]) as real) else DigitsValue(s[..n]) as real
  {
    var m := SignedNumber(n);
    assert Whole(s, m) == s[..n] && Fraction(s, m) == "";
    WholeValue(s[..n]);
    SignOfMatch(s, m, du);
  }

  /** A sign behind a number: minus negates it, plus leaves it as it is. */
  lemma SignBehindNumber(digits: string, sign: char, du: string)
    requires Number(digits) && IsSuffixSign(sign)
    ensures var parsed := Parse(digits + [sign], du);
      parsed.Some? &&
      parsed.value.weight == if sign == '-' then -(DigitsValue(digits) as real) else DigitsValue(digits) as real
  {
    var s, n := digits + [sign], |digits|;
    LineIsPlain(s);
    assert s[..n] == digits;
    SignedNumberTakesAll(s, n);
    OnlyGreedyMatch(s, SignedNumber(n));
    SignedNumberWeight(s, n, du);
    OneCandidate(s, SignedNumber(n), du);
  }

  /* ----- the stability markers ----- */

  /** `word` stands in the text with no letter, digit or underscore next to it. */
  predicate Apart(before: string, word: string, behind: string) {
    && (before != "" ==> !IsWordChar(before[|before| - 1]))
    && (behind != "" ==> !IsWordChar(behind[0]))
  }

  lemma WordFound(before: string, word: string, behind: string, upper: string)
    requires Apart(before, word, behind) && word != "" && Upper(word) == upper
    ensures HasWord(before + word + behind, upper)
  {
    var s := before + word + behind;
    assert s[|before|..|before| + |upper|] == word;
    assert WordAt(s, |before|, upper);
  }

  /** US or UNSTABLE, in any case and wherever it stands, says unstable, whatever else does. */
  lemma UnstableMarkerWins(before: string, word: string, behind: string)
    requires Apart(before, word, behind) && (Upper(word) == "US" || Upper(word) == "UNSTABLE")
    ensures StableFlag(before + word + behind) == Some(false)
  {
    WordFound(before, word, behind, Upper(word));
  }

  predicate Without(s: string, letter: char) {
    forall k :: 0 <= k < |s| ==> UpperChar(s[k]) != letter
  }

  /** ST or STABLE, in any case, says stable in a text without a letter U around it. */
  lemma StableMarkerCounts(before: string, word: string, behind: string)
    requires Apart(before, word, behind) && (Upper(word) == "ST" || Upper(word) == "STABLE")
    requires Without(before, 'U') && Without(behind, 'U')
    ensures StableFlag(before + word + behind) == Some(true)
  {
    var s := before + word + behind;
    WordFound(before, word, behind, Upper(word));
    LetterFree(word);
    WithoutThree(before, word, behind, 'U');
    NoSuchWord(s, "US", 'U');
    NoSuchWord(s, "UNSTABLE", 'U');
  }

  lemma LetterFree(word: string)
    requires Upper(word) == "ST" || Upper(word) == "STABLE"
    ensures Without(word, 'U')
  {
    forall k | 0 <= k < |word|
      ensures UpperChar(word[k]) != 'U'
    {
      assert Upper(word)[k] == UpperChar(word[k]);
    }
  }

  lemma WithoutThree(a: string, b: string, c: string, letter: char)
    requires Without(a, letter) && Without(b, letter) && Without(c, letter)
    ensures Without(a + b + c, letter)
  {
  }

  lemma NoSuchWord(s: string, word: string, letter: char)
    requires word != "" && word[0] == letter && Without(s, letter)
    ensures !HasWord(s, word)
  {
    if HasWord(s, word) {
      WordNeedsItsFirstLetter(s, word);
    }
  }

  /** Without a letter S or U there is no marker. */
  lemma NoMarker(s: string)
    requires Without(s, 'S') && Without(s, 'U')
    ensures StableFlag(s) == None
  {
    NoSuchWord(s, "US", 'U');
    NoSuchWord(s, "UNSTABLE", 'U');
    NoSuchWord(s, "ST", 'S');
    NoSuchWord(s, "STABLE", 'S');
  }

  /** A marker inside a longer word is none. */
  lemma MarkerInsideWord(s: string)
    requires forall k :: 0 <= k < |s| ==> IsWordChar(s[k])
    ensures StableFlag(s).Some? ==> Upper(s) in {"US", "UNSTABLE", "ST", "STABLE"}
  {
    WholeWordOnly(s, "US");
    WholeWordOnly(s, "UNSTABLE");
    WholeWordOnly(s, "ST");
    WholeWordOnly(s, "STABLE");
  }

  lemma WholeWordOnly(s: string, word: string)
    requires forall k :: 0 <= k < |s| ==> IsWordChar(s[k])
    ensures HasWord(s, word) ==> Upper(s) == word
  {
    if HasWord(s, word) {
      var i :| 0 <= i < |s| && WordAt(s, i, word);
      assert i == 0 && i + |word| == |s|;
      assert s[i..i + |word|] == s;
    }
  }
}
