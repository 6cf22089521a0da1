/** The scale simulator's frames and sample order (src/bin/rp-scale-sim-scale.rs). */
module ScaleSim {
  import opened Text
  import opened ScaleFrame
  import opened ScaleParser
  import opened ScaleWeight
  import opened ScaleStream
  import opened ScaleChunking

  /** A weight in thousandths of a unit. */
  datatype Sample = Sample(thousandths: int, stable: bool, repeat: nat)

  function DigitChar(d: nat): (c: char)
    requires d < 10
    ensures IsDigit(c) && DigitValue(c) == d
  {
    ('0' as int + d) as char
  }

  function Pad3(n: nat): (s: string)
    requires n < 1000
    ensures |s| == 3 && AllDigits(s)
  {
    [DigitChar(n / 100), DigitChar(n / 10 % 10), DigitChar(n % 10)]
  }

  function Sign(n: int): string {
    if n < 0 then "-" else ""
  }

  function Magnitude(n: int): nat {
    if n < 0 then -n else n
  }

  /** `n` thousandths with three decimals. */
  function Fixed3(n: int): string {
    Sign(n) + Decimal(Magnitude(n) / 1000) + "." + Pad3(Magnitude(n) % 1000)
  }

  function Marker(stable: bool): (s: string)
    ensures |s| == 2
  {
    if stable then "ST" else "US"
  }

  function Body(n: int, unit: string, stable: bool): string {
    Fixed3(n) + " " + Trim(unit) + " " + Marker(stable)
  }

  function FormatFrame(n: int, unit: string, stable: bool): string {
    Body(n, unit, stable) + "\r"
  }

  /** Units the simulator and the decoder agree on. */
  predicate SharedUnit(unit: string) {
    unit in ["kg", "g", "lb", "oz"]
  }

  /* ----- the layout of one frame ----- */

  /** Ends of the sign, whole digits, fraction digits and unit in a body. */
  datatype Ends = Ends(sign: nat, whole: nat, fraction: nat, unit: nat)

  function BodyEnds(n: int, unit: string): Ends {
    var a := |Sign(n)|;
    var b := a + |Decimal(Magnitude(n) / 1000)|;
    Ends(a, b, b + 4, b + 5 + |unit|)
  }

  /** `s` is sign, digits, point, fraction, blank, unit, blank and marker. */
  ghost predicate PartsAt(s: string, sign: string, whole: string, fraction: string, unit: string, marker: string,
                          e: Ends)
  {
    && |s| == e.unit + 3 && e.fraction == e.whole + 4 && e.unit == e.fraction + 1 + |unit|
    && e.sign == |sign| && e.sign < e.whole
    && s[..e.sign] == sign
    && s[e.sign..e.whole] == whole
    && s[e.whole] == '.'
    && s[e.whole + 1..e.fraction] == fraction
    && s[e.fraction] == ' '
    && s[e.fraction + 1..e.unit] == unit
    && s[e.unit] == ' '
    && s[e.unit + 1..] == marker
  }

  ghost predicate LaidOut(s: string, n: int, unit: string, stable: bool, e: Ends) {
    PartsAt(s, Sign(n), Decimal(Magnitude(n) / 1000), Pad3(Magnitude(n) % 1000), unit, Marker(stable), e)
  }

  lemma BodyText(n: int, unit: string, stable: bool)
    requires Trim(unit) == unit
    ensures Body(n, unit, stable)
         == Sign(n) + Decimal(Magnitude(n) / 1000) + "." + Pad3(Magnitude(n) % 1000) + " " + unit + " " + Marker(stable)
  {
  }

  lemma BodyIsLaidOut(n: int, unit: string, stable: bool)
    requires Trim(unit) == unit
    ensures LaidOut(Body(n, unit, stable), n, unit, stable, BodyEnds(n, unit))
  {
    BodyText(n, unit, stable);
    SlicesOf(Body(n, unit, stable), Sign(n), Decimal(Magnitude(n) / 1000), Pad3(Magnitude(n) % 1000), unit,
             Marker(stable), BodyEnds(n, unit));
  }

  lemma SlicesOf(s: string, a: string, b: string, c: string, d: string, m: string, e: Ends)
    requires b != "" && |c| == 3 && |m| == 2 && s == a + b + "." + c + " " + d + " " + m
    requires e == Ends(|a|, |a| + |b|, |a| + |b| + 4, |a| + |b| + 5 + |d|)
    ensures PartsAt(s, a, b, c, d, m, e)
  {
  }

  /* ----- the one match in a body ----- */

  function UnitIndex(unit: string): (u: nat)
    requires SharedUnit(unit)
    ensures u < |UNITS| && UNITS[u] == unit
  {
    if unit == "kg" then 0 else if unit == "g" then 1 else if unit == "lb" then 2 else 4
  }

  function BodyMatch(unit: string, e: Ends): Match
    requires SharedUnit(unit)
  {
    Match(0, e.sign, e.sign, e.whole, e.fraction, e.fraction + 1, UnitIndex(unit), e.unit, e.unit + 1, e.unit + 1)
  }

  /** What the characters of a body are, whatever number it shows. */
  ghost predicate Looks(s: string, unit: string, stable: bool, e: Ends) {
    && |s| == e.unit + 3 && e.fraction == e.whole + 4 && e.unit == e.fraction + 1 + |unit|
    && e.sign < e.whole && e.sign <= 1 && (e.sign == 1 ==> s[0] == '-')
    && (forall k :: e.sign <= k < e.whole ==> IsDigit(s[k]))
    && s[e.whole] == '.'
    && (forall k :: e.whole + 1 <= k < e.fraction ==> IsDigit(s[k]))
    && s[e.fraction] == ' ' && s[e.fraction + 1..e.unit] == unit && s[e.unit] == ' '
    && s[e.unit + 1] == Marker(stable)[0] && s[e.unit + 2] == Marker(stable)[1]
  }

  lemma BodyLooks(s: string, n: int, unit: string, stable: bool, e: Ends)
    requires LaidOut(s, n, unit, stable, e)
    ensures Looks(s, unit, stable, e) && e.sign == if n < 0 then 1 else 0
  {
    assert s[e.unit + 1..][0] == s[e.unit + 1] && s[e.unit + 1..][1] == s[e.unit + 2];
    forall k | e.sign <= k < e.whole ensures IsDigit(s[k]) {
      assert s[k] == s[e.sign..e.whole][k - e.sign];
    }
    forall k | e.whole + 1 <= k < e.fraction ensures IsDigit(s[k]) {
      assert s[k] == s[e.whole + 1..e.fraction][k - e.whole - 1];
    }
    if n < 0 {
      assert s[..e.sign][0] == s[0];
    }
  }

  lemma UnitFits(s: string, at: nat, unit: string)
    requires SharedUnit(unit) && at + |unit| <= |s| && s[at..at + |unit|] == unit
    ensures UnitMatches(s, at, UnitIndex(unit))
  {
    assert Lower(unit) == unit;
  }

  lemma UnitFound(s: string, at: nat, unit: string)
    requires SharedUnit(unit) && at + |unit| <= |s| && s[at..at + |unit|] == unit
    ensures FirstUnit(s, at, 0) == UnitIndex(unit)
  {
    var u := UnitIndex(unit);
    UnitFits(s, at, unit);
    forall v | 0 <= v < u ensures !UnitMatches(s, at, v) {
      UnitDiffers(s, at, unit, v);
    }
  }

  lemma UnitDiffers(s: string, at: nat, unit: string, v: nat)
    requires SharedUnit(unit) && at + |unit| <= |s| && s[at..at + |unit|] == unit
    requires v < UnitIndex(unit)
    ensures !UnitMatches(s, at, v)
  {
    assert s[at] == s[at..at + |unit|][0];
    assert Lower([s[at]])[0] == s[at];
  }

  lemma NumberPart(s: string, unit: string, stable: bool, e: Ends)
    requires Looks(s, unit, stable, e)
    ensures e.sign == if IsPrefixSign(s[0]) then 1 else 0
    ensures RunEnd(s, e.sign, IsSpace) == e.sign
    ensures RunEnd(s, e.sign, IsDigit) == e.whole
    ensures NumberEnd(s, e.whole) == e.fraction
  {
    assert IsDigit(s[e.sign]);
    RunEndIs(s, e.sign, e.sign, IsSpace);
    RunEndIs(s, e.sign, e.whole, IsDigit);
    RunEndIs(s, e.whole + 1, e.fraction, IsDigit);
  }

  lemma UnitPart(s: string, unit: string, stable: bool, e: Ends)
    requires Looks(s, unit, stable, e) && SharedUnit(unit)
    ensures RunEnd(s, e.fraction, IsSpace) == e.fraction + 1
    ensures FirstUnit(s, e.fraction + 1, 0) == UnitIndex(unit)
    ensures RunEnd(s, e.unit, IsSpace) == e.unit + 1
    ensures !IsSuffixSign(s[e.unit + 1])
  {
    UnitSpaces(s, unit, stable, e);
    UnitFound(s, e.fraction + 1, unit);
  }

  lemma UnitSpaces(s: string, unit: string, stable: bool, e: Ends)
    requires Looks(s, unit, stable, e) && SharedUnit(unit)
    ensures RunEnd(s, e.fraction, IsSpace) == e.fraction + 1
    ensures RunEnd(s, e.unit, IsSpace) == e.unit + 1
    ensures !IsSuffixSign(s[e.unit + 1])
  {
    SharedUnitIsPlain(unit);
    assert unit[0] == s[e.fraction + 1..e.unit][0] == s[e.fraction + 1];
    OneSpace(s, e.fraction);
    OneSpace(s, e.unit);
  }

  lemma SharedUnitIsPlain(unit: string)
    requires SharedUnit(unit)
    ensures unit != "" && !IsSpace(unit[0])
  {
  }

  lemma OneSpace(s: string, at: nat)
    requires at + 1 < |s| && s[at] == ' ' && !IsSpace(s[at + 1])
    ensures RunEnd(s, at, IsSpace) == at + 1
  {
    RunEndIs(s, at, at + 1, IsSpace);
  }

  lemma BodyTakesAll(s: string, unit: string, stable: bool, e: Ends)
    requires Looks(s, unit, stable, e) && SharedUnit(unit)
    ensures TakesAll(s, BodyMatch(unit, e))
  {
    NumberPart(s, unit, stable, e);
    UnitPart(s, unit, stable, e);
    BodyIsParse(s, unit, stable, e);
  }

  lemma BodyNumberParses(s: string, unit: string, stable: bool, e: Ends)
    requires Looks(s, unit, stable, e) && SharedUnit(unit)
    ensures InOrder(s, BodyMatch(unit, e)) && NumberParses(s, BodyMatch(unit, e))
  {
  }

  lemma UnitParsesAt(s: string, m: Match)
    requires InOrder(s, m) && m.unit < |UNITS| && UnitMatches(s, m.unitStart, m.unit)
    requires m.unitStart == m.numberEnd + 1 && s[m.numberEnd] == ' '
    requires m.unitEnd == m.unitStart + |UNITS[m.unit]| < |s| && s[m.unitEnd] == ' '
    requires m.end == m.suffixStart == m.unitEnd + 1
    ensures UnitParses(s, m)
  {
  }

  lemma BodyIsParse(s: string, unit: string, stable: bool, e: Ends)
    requires Looks(s, unit, stable, e) && SharedUnit(unit)
    ensures IsParse(s, BodyMatch(unit, e))
  {
    BodyNumberParses(s, unit, stable, e);
    UnitFits(s, e.fraction + 1, unit);
    UnitParsesAt(s, BodyMatch(unit, e));
  }

  lemma BodyTail(s: string, unit: string, stable: bool, e: Ends)
    requires Looks(s, unit, stable, e)
    ensures forall k :: e.unit + 1 <= k < |s| ==> !IsDigit(s[k])
  {
  }

  lemma OnlyGreedyMatch(s: string, m: Match)
    requires TakesAll(s, m) && m.start == 0
    requires forall k :: m.end <= k < |s| ==> !IsDigit(s[k])
    ensures Matches(s, 0) == [m]
  {
    OnlyMatch(s, m);
  }

  lemma BodyScan(s: string, unit: string, stable: bool, e: Ends)
    requires Looks(s, unit, stable, e) && SharedUnit(unit)
    ensures Matches(s, 0) == [BodyMatch(unit, e)]
  {
    BodyTakesAll(s, unit, stable, e);
    BodyTail(s, unit, stable, e);
    OnlyGreedyMatch(s, BodyMatch(unit, e));
  }

  /* ----- what the decoder makes of a body ----- */

  predicate PlainBodyChar(c: char) {
    IsDigit(c) || c in "-. kglboz"
  }

  lemma BodyChars(s: string, unit: string, stable: bool, e: Ends)
    requires Looks(s, unit, stable, e) && SharedUnit(unit)
    ensures forall k :: 0 <= k <= e.unit ==> PlainBodyChar(s[k])
  {
    forall k | 0 <= k <= e.unit ensures PlainBodyChar(s[k]) {
      if e.fraction + 1 <= k < e.unit {
        UnitChar(unit, k - e.fraction - 1);
        assert s[k] == s[e.fraction + 1..e.unit][k - e.fraction - 1];
      }
    }
  }

  lemma UnitChar(unit: string, k: nat)
    requires SharedUnit(unit) && k < |unit|
    ensures unit[k] in "kglboz"
  {
  }

  lemma AsciiHasNoDashes(s: string)
    requires forall k :: 0 <= k < |s| ==> s[k] <= '~'
    ensures NormalizeMinus(s) == s
  {
  }

  lemma BodyIsAscii(s: string, unit: string, stable: bool, e: Ends)
    requires Looks(s, unit, stable, e) && SharedUnit(unit)
    ensures NormalizeMinus(s) == s
  {
    BodyChars(s, unit, stable, e);
    forall k | 0 <= k < |s|
      ensures s[k] <= '~'
    {
      if k <= e.unit {
        assert PlainBodyChar(s[k]);
      }
    }
    AsciiHasNoDashes(s);
  }

  lemma WordNeedsItsFirstLetter(s: string, word: string)
    requires HasWord(s, word) && word != ""
    ensures exists k :: 0 <= k < |s| && UpperChar(s[k]) == word[0]
  {
    var i :| 0 <= i < |s| && WordAt(s, i, word);
    assert Upper(s[i..i + |word|])[0] == UpperChar(s[i]);
  }

  lemma MarkerIsAWord(s: string, unit: string, stable: bool, e: Ends)
    requires Looks(s, unit, stable, e)
    ensures HasWord(s, Marker(stable))
  {
    var at := e.unit + 1;
    assert s[at..at + 2] == Marker(stable);
    assert Upper(Marker(stable)) == Marker(stable);
    assert WordAt(s, at, Marker(stable));
  }

  lemma StableHasNoU(s: string, unit: string, e: Ends)
    requires Looks(s, unit, true, e) && SharedUnit(unit)
    ensures forall k :: 0 <= k < |s| ==> UpperChar(s[k]) != 'U'
  {
    BodyChars(s, unit, true, e);
    forall k | 0 <= k < |s|
      ensures UpperChar(s[k]) != 'U'
    {
      if k <= e.unit {
        assert PlainBodyChar(s[k]);
      } else {
        assert k == e.unit + 1 || k == e.unit + 2;
      }
    }
  }

  lemma BodyFlag(s: string, unit: string, stable: bool, e: Ends)
    requires Looks(s, unit, stable, e) && SharedUnit(unit)
    ensures StableFlag(s) == Some(stable)
  {
    MarkerIsAWord(s, unit, stable, e);
    if stable {
      StableHasNoU(s, unit, e);
      if HasWord(s, "US") {
        WordNeedsItsFirstLetter(s, "US");
      }
      if HasWord(s, "UNSTABLE") {
        WordNeedsItsFirstLetter(s, "UNSTABLE");
      }
    }
  }

  lemma SignResolves(n: int)
    ensures ResolveSign(Sign(n), "") ==
      if n < 0 then ResolvedSign(true, true, false) else ResolvedSign(false, false, false)
  {
    assert Trim("-") == "-" && Upper("-") == "-" && Trim("") == "" && Upper("") == "";
  }

  lemma Fixed3Value(n: int)
    ensures NumberValue(Decimal(Magnitude(n) / 1000), Pad3(Magnitude(n) % 1000)) == Magnitude(n) as real / 1000.0
  {
    var whole, fraction := Decimal(Magnitude(n) / 1000), Pad3(Magnitude(n) % 1000);
    DigitsValueAppend(whole, fraction);
    Pad3Value(Magnitude(n) % 1000);
    assert Pow10(3) == 1000;
  }

  lemma Pad3Value(n: nat)
    requires n < 1000
    ensures DigitsValue(Pad3(n)) == n
  {
    var s := Pad3(n);
    assert s[..2][..1] == s[..1] && s[..1][..0] == "";
    assert DigitsValue(s[..1]) == n / 100;
    assert DigitsValue(s[..2]) == 10 * (n / 100) + n / 10 % 10;
  }

  /** The weight a sample stands for. */
  function Weight(n: int): real {
    n as real / 1000.0
  }

  lemma BodyCandidate(s: string, n: int, unit: string, stable: bool, e: Ends, du: string)
    requires LaidOut(s, n, unit, stable, e) && SharedUnit(unit)
    requires IsParse(s, BodyMatch(unit, e))
    ensures var c := ToCandidate(s, BodyMatch(unit, e), du);
      c.weight == Weight(n) && c.unit == unit
  {
    var m := BodyMatch(unit, e);
    assert s[0..e.sign] == Sign(n) && s[m.suffixStart..m.end] == "";
    SignResolves(n);
    BodyNumber(s, n, unit, stable, e);
  }

  lemma BodyNumber(s: string, n: int, unit: string, stable: bool, e: Ends)
    requires LaidOut(s, n, unit, stable, e) && SharedUnit(unit)
    requires IsParse(s, BodyMatch(unit, e))
    ensures var m := BodyMatch(unit, e);
      NumberValue(Whole(s, m), Fraction(s, m)) == Magnitude(n) as real / 1000.0
  {
    var m := BodyMatch(unit, e);
    assert Whole(s, m) == Decimal(Magnitude(n) / 1000) && Fraction(s, m) == Pad3(Magnitude(n) % 1000);
    Fixed3Value(n);
  }

  lemma WeightInRange(n: int)
    ensures -LIMIT <= Weight(n) <= LIMIT <==> -1000000000 <= n <= 1000000000
  {
  }

  lemma BodyBest(s: string, n: int, unit: string, stable: bool, e: Ends, du: string) returns (c: Candidate)
    requires LaidOut(s, n, unit, stable, e) && SharedUnit(unit)
    ensures c.weight == Weight(n) && c.unit == unit
    ensures Best(FrameCandidates(s, du)) == if InRange(c) then Some(c) else None
  {
    BodyLooks(s, n, unit, stable, e);
    BodyScan(s, unit, stable, e);
    BodyIsParse(s, unit, stable, e);
    BodyCandidate(s, n, unit, stable, e, du);
    OneCandidate(s, BodyMatch(unit, e), du);
    c := ToCandidate(s, BodyMatch(unit, e), du);
  }

  lemma ParseOfBest(s: string, du: string, best: Option<Candidate>, flag: Option<bool>)
    requires NormalizeMinus(s) == s && Best(FrameCandidates(s, du)) == best && StableFlag(s) == flag
    ensures Parse(s, du) == if best.None? then None else Some(ParsedWeight(best.value.weight, best.value.unit, flag))
  {
  }

  /** Printing then parsing: the weight, unit and flag come back exactly when the
      weight is within one million, and otherwise nothing does. */
  lemma BodyParses(n: int, unit: string, stable: bool, du: string)
    requires SharedUnit(unit)
    ensures Parse(Body(n, unit, stable), du)
         == if -1000000000 <= n <= 1000000000 then Some(ParsedWeight(Weight(n), unit, Some(stable))) else None
  {
    var s, e := Body(n, unit, stable), BodyEnds(n, unit);
    UnitTrims(unit);
    BodyIsLaidOut(n, unit, stable);
    BodyLooks(s, n, unit, stable, e);
    BodyIsAscii(s, unit, stable, e);
    BodyFlag(s, unit, stable, e);
    var c := BodyBest(s, n, unit, stable, e, du);
    WeightInRange(n);
    ParseOfBest(s, du, if InRange(c) then Some(c) else None, Some(stable));
  }

  lemma OneCandidate(s: string, m: Match, du: string)
    requires Matches(s, 0) == [m] && IsParse(s, m)
    ensures var c := ToCandidate(s, m, du);
      Best(FrameCandidates(s, du)) == if InRange(c) then Some(c) else None
  {
    var c := ToCandidate(s, m, du);
    assert AllParses(s, [m]) && [m][1..] == [];
    assert Candidates(s, [m], du) == if InRange(c) then [c] else [];
  }

  lemma UnitTrims(unit: string)
    requires SharedUnit(unit)
    ensures Trim(unit) == unit
  {
    TrimNothing(unit);
  }

  /** The unit list holds "lbs" behind "lb", so the scanner never reports it. */
  lemma LbsIsNeverReported(s: string, at: nat)
    requires at <= |s|
    ensures UNITS[3] == "lbs" && FirstUnit(s, at, 0) != 3
  {
    if UnitMatches(s, at, 3) {
      assert s[at..at + 3][..2] == s[at..at + 2];
      assert Lower(s[at..at + 2]) == Lower(s[at..at + 3])[..2] == "lb";
      assert UnitMatches(s, at, 2);
    }
  }

  /* ----- whole runs ----- */

  predicate InWeightRange(sample: Sample) {
    -1000000000 <= sample.thousandths <= 1000000000
  }

  function Frame(sample: Sample, unit: string): string {
    FormatFrame(sample.thousandths, unit, sample.stable)
  }

  function BodyOf(sample: Sample, unit: string): string {
    Body(sample.thousandths, unit, sample.stable)
  }

  /** The text the simulator writes for a run of samples. */
  function Stream(samples: seq<Sample>, unit: string): string {
    if samples == [] then "" else Frame(samples[0], unit) + Stream(samples[1..], unit)
  }

  function Bodies(samples: seq<Sample>, unit: string): seq<string> {
    if samples == [] then [] else [BodyOf(samples[0], unit)] + Bodies(samples[1..], unit)
  }

  /** The reading a sample should come back as. */
  function Expected(sample: Sample, unit: string): Reading {
    Reading(Some(Weight(sample.thousandths)), unit, Some(sample.stable), BodyOf(sample, unit), "")
  }

  const LONGEST_BODY: nat := 20

  lemma BodyLength(sample: Sample, unit: string)
    requires SharedUnit(unit) && InWeightRange(sample)
    ensures 0 < |BodyOf(sample, unit)| <= LONGEST_BODY
  {
    UnitTrims(unit);
    assert Pow10(7) == 10000000;
    DecimalLength(Magnitude(sample.thousandths) / 1000, 7);
  }

  lemma BodyPlain(s: string, unit: string, stable: bool, e: Ends)
    requires Looks(s, unit, stable, e) && SharedUnit(unit)
    ensures NoDelimiter(s) && !IsSpace(s[0]) && !IsSpace(s[|s| - 1])
  {
    BodyChars(s, unit, stable, e);
    forall k | 0 <= k < |s|
      ensures !IsDelimiter(s[k])
    {
      if k <= e.unit {
        assert PlainBodyChar(s[k]);
      }
    }
    assert e.sign == 0 ==> IsDigit(s[0]);
  }

  lemma BodyShape(sample: Sample, unit: string)
    requires SharedUnit(unit) && InWeightRange(sample)
    ensures var s := BodyOf(sample, unit);
      NoDelimiter(s) && Trim(s) == s && 0 < |s| <= LONGEST_BODY
  {
    UnitTrims(unit);
    BodyIsLaidOut(sample.thousandths, unit, sample.stable);
    BodyLooks(BodyOf(sample, unit), sample.thousandths, unit, sample.stable, BodyEnds(sample.thousandths, unit));
    BodyPlain(BodyOf(sample, unit), unit, sample.stable, BodyEnds(sample.thousandths, unit));
    BodyLength(sample, unit);
    TrimNothing(BodyOf(sample, unit));
  }

  lemma {:induction false} PlainPrefix(line: string, plain: string, s: string, limit: nat)
    requires NoDelimiter(plain) && |line| + |plain| <= limit
    ensures NoBlankLine(line, plain + s) == NoBlankLine(line + plain, s)
    ensures LinesWithin(line, plain + s, limit) == LinesWithin(line + plain, s, limit)
    decreases |plain|
  {
    if plain == "" {
      assert plain + s == s && line + plain == line;
    } else {
      assert (plain + s)[0] == plain[0] && (plain + s)[1..] == plain[1..] + s;
      assert line + [plain[0]] + plain[1..] == line + plain;
      PlainPrefix(line + [plain[0]], plain[1..], s, limit);
    }
  }

  lemma LineThenCr(body: string, rest: string)
    requires NoDelimiter(body) && 0 < |body| <= LONGEST_BODY
    requires NoBlankLine("", rest) && LinesWithin("", rest, LONGEST_BODY)
    ensures Lines("", body + "\r" + rest) == [body] + Lines("", rest)
    ensures NoBlankLine("", body + "\r" + rest)
    ensures LinesWithin("", body + "\r" + rest, LONGEST_BODY)
  {
    LinesOfSplit("", body, "\r", rest);
    PlainPrefix("", body, "\r" + rest, LONGEST_BODY);
    assert "" + body == body;
    assert body + "\r" + rest == body + ("\r" + rest);
    assert ("\r" + rest)[0] == '\r' && ("\r" + rest)[1..] == rest;
  }

  lemma {:induction false} StreamLines(samples: seq<Sample>, unit: string)
    requires SharedUnit(unit) && forall x :: x in samples ==> InWeightRange(x)
    ensures Lines("", Stream(samples, unit)) == Bodies(samples, unit)
    ensures NoBlankLine("", Stream(samples, unit))
    ensures LinesWithin("", Stream(samples, unit), LONGEST_BODY)
  {
    if samples != [] {
      StreamLines(samples[1..], unit);
      BodyShape(samples[0], unit);
      LineThenCr(BodyOf(samples[0], unit), Stream(samples[1..], unit));
    }
  }

  lemma ParsedReading(m: Memory, du: string, frame: string, p: ParsedWeight)
    requires frame != "" && Trim(frame) == frame && Parse(frame, du) == Some(p) && Trim(p.unit) != ""
    ensures FrameReading(m, du, frame) == Some(Reading(Some(p.weight), p.unit, p.stable, frame, ""))
  {
  }

  lemma BodyReading(m: Memory, du: string, sample: Sample, unit: string)
    requires SharedUnit(unit) && InWeightRange(sample)
    ensures FrameReading(m, du, BodyOf(sample, unit)) == Some(Expected(sample, unit))
  {
    BodyShape(sample, unit);
    BodyParses(sample.thousandths, unit, sample.stable, du);
    UnitTrims(unit);
    ParsedReading(m, du, BodyOf(sample, unit), ParsedWeight(Weight(sample.thousandths), unit, Some(sample.stable)));
  }

  lemma {:induction false} BodiesReadings(m: Memory, du: string, samples: seq<Sample>, unit: string)
    requires SharedUnit(unit) && forall x :: x in samples ==> InWeightRange(x)
    ensures |Readings(m, du, Bodies(samples, unit))| == |samples|
    ensures forall i :: 0 <= i < |samples| ==> Readings(m, du, Bodies(samples, unit))[i] == Expected(samples[i], unit)
    decreases |samples|
  {
    if samples != [] {
      var body := BodyOf(samples[0], unit);
      BodyReading(m, du, samples[0], unit);
      BodiesReadings(FrameMemory(m, du, body), du, samples[1..], unit);
      ReadingsUnfold(m, du, body, Bodies(samples[1..], unit));
    }
  }

  /** The simulator and the decoder undo each other over whole runs: whatever the
      decoder remembers and its default unit, and however the written text is cut
      into chunks that fit the buffer, it gives one reading per sample, in order,
      with the same weight, unit and stable flag. */
  lemma SimulatorRoundTrip(m: Memory, du: string, samples: seq<Sample>, unit: string, chunks: seq<string>)
    requires SharedUnit(unit) && forall x :: x in samples ==> InWeightRange(x)
    requires Concat(chunks) == Stream(samples, unit) && Fits("", chunks)
    ensures var readings := Readings(m, du, RunFrames("", chunks));
      && |readings| == |samples|
      && forall i :: 0 <= i < |samples| ==> readings[i] == Expected(samples[i], unit)
  {
    StreamLines(samples, unit);
    FramesAreLines("", chunks);
    BodiesReadings(m, du, samples, unit);
  }

  /** Chunks of up to 1004 characters always fit. */
  lemma SmallChunksFit(samples: seq<Sample>, unit: string, chunks: seq<string>)
    requires SharedUnit(unit) && forall x :: x in samples ==> InWeightRange(x)
    requires Concat(chunks) == Stream(samples, unit)
    requires forall c :: c in chunks ==> |c| <= BUFFER - LONGEST_BODY
    ensures Fits("", chunks)
  {
    StreamLines(samples, unit);
    ShortLinesFit("", chunks, LONGEST_BODY);
  }

  /** A frame spelled out: sign, whole part, point, three decimals, blank, unit, blank, marker, CR. */
  lemma FrameSpelled(whole: nat, a: nat, b: nat, c: nat, negative: bool, unit: string, stable: bool)
    requires SharedUnit(unit) && a < 10 && b < 10 && c < 10 && (negative ==> whole + a + b + c > 0)
    ensures var n := 1000 * whole + 100 * a + 10 * b + c;
      FormatFrame(if negative then -n else n, unit, stable)
        == (if negative then "-" else "") + Decimal(whole) + "." + [DigitChar(a), DigitChar(b), DigitChar(c)]
           + " " + unit + " " + (if stable then "ST" else "US") + "\r"
  {
    var n := 1000 * whole + 100 * a + 10 * b + c;
    UnitTrims(unit);
    NumberSpelled(whole, a, b, c, negative);
    BodyText(if negative then -n else n, unit, stable);
  }

  lemma NumberSpelled(whole: nat, a: nat, b: nat, c: nat, negative: bool)
    requires a < 10 && b < 10 && c < 10 && (negative ==> whole + a + b + c > 0)
    ensures var n := 1000 * whole + 100 * a + 10 * b + c;
      var k := if negative then -n else n;
      && Sign(k) == (if negative then "-" else "") && Magnitude(k) / 1000 == whole
      && Pad3(Magnitude(k) % 1000) == [DigitChar(a), DigitChar(b), DigitChar(c)]
  {
    ThreeDigits(whole, a, b, c);
  }

  lemma ThreeDigits(whole: nat, a: nat, b: nat, c: nat)
    requires a < 10 && b < 10 && c < 10
    ensures var n := 1000 * whole + 100 * a + 10 * b + c;
      n / 1000 == whole && n % 1000 / 100 == a && n % 1000 / 10 % 10 == b && n % 1000 % 10 == c
  {
    var rest := 100 * a + 10 * b + c;
    QuotientIs(1000 * whole + rest, 1000, whole, rest);
    QuotientIs(rest, 100, a, 10 * b + c);
    QuotientIs(rest, 10, 10 * a + b, c);
    QuotientIs(10 * a + b, 10, a, b);
  }

  /* ----- the order of samples ----- */

  function Repeats(sample: Sample): (n: nat)
    ensures n >= 1
  {
    if sample.repeat == 0 then 1 else sample.repeat
  }

  /** The samples, each as often as it is to be repeated. */
  function Expansion(samples: seq<Sample>): (out: seq<Sample>)
    ensures |out| >= |samples|
  {
    if samples == [] then []
    else Expansion(samples[..|samples| - 1]) + seq(Repeats(samples[|samples| - 1]), _ => samples[|samples| - 1])
  }

  lemma {:induction false} ExpansionPrefix(samples: seq<Sample>, k: nat)
    requires k < |samples|
    ensures Expansion(samples[..k + 1]) <= Expansion(samples)
    ensures Expansion(samples[..k + 1]) == Expansion(samples[..k]) + seq(Repeats(samples[k]), _ => samples[k])
  {
    assert samples[..k + 1][..k] == samples[..k];
    if k + 1 < |samples| {
      ExpansionPrefix(samples[..|samples| - 1], k);
      assert samples[..|samples| - 1][..k + 1] == samples[..k + 1];
    } else {
      assert samples[..k + 1] == samples;
    }
  }

  /** The copies of one sample stand together, after those of the samples before it. */
  lemma ExpansionAt(samples: seq<Sample>, k: nat, offset: nat)
    requires k < |samples| && offset < Repeats(samples[k])
    ensures |Expansion(samples[..k])| + offset < |Expansion(samples)|
    ensures Expansion(samples)[|Expansion(samples[..k])| + offset] == samples[k]
  {
    ExpansionPrefix(samples, k);
    assert Expansion(samples[..k + 1])[|Expansion(samples[..k])| + offset] == samples[k];
  }

  /** Where the copies of sample `k` end: at those of the next, or at the end. */
  lemma ExpansionNext(samples: seq<Sample>, k: nat)
    requires k < |samples|
    ensures |Expansion(samples[..k])| + Repeats(samples[k])
         == if k + 1 < |samples| then |Expansion(samples[..k + 1])| else |Expansion(samples)|
  {
    ExpansionPrefix(samples, k);
    assert k + 1 == |samples| ==> samples[..k + 1] == samples;
  }

  /** Where the sample after copy `offset` of sample `k` stands. */
  lemma StepOn(samples: seq<Sample>, k: nat, offset: nat)
    requires k < |samples| && offset < Repeats(samples[k])
    ensures var at, total := |Expansion(samples[..k])| + offset, |Expansion(samples)|;
      && at < total && Expansion(samples)[at] == samples[k]
      && NextPlace(total, at) ==
           if offset + 1 < Repeats(samples[k]) then at + 1
           else if k + 1 < |samples| then |Expansion(samples[..k + 1])|
           else |Expansion(samples[..0])|
  {
    ExpansionAt(samples, k, offset);
    ExpansionNext(samples, k);
    if offset + 1 < Repeats(samples[k]) {
      ExpansionAt(samples, k, offset + 1);
    } else if k + 1 < |samples| {
      ExpansionAt(samples, k + 1, 0);
    } else {
      assert samples[..0] == [];
    }
  }

  class SampleSequencer {
    const samples: seq<Sample>
    var index: nat
    var remaining: nat

    ghost predicate Valid()
      reads this
    {
      samples != [] ==> index < |samples| && remaining < Repeats(samples[index])
    }

    /** Where the sequencer stands in the expansion of its samples. */
    ghost function Position(): (p: nat)
      requires Valid() && samples != []
      reads this
    {
      |Expansion(samples[..index])| + Offset()
    }

    /** Copies of the current sample already given. */
    ghost function Offset(): (o: nat)
      requires Valid() && samples != []
      reads this
      ensures o < Repeats(samples[index])
    {
      if remaining == 0 then 0 else Repeats(samples[index]) - remaining
    }

    constructor (samples: seq<Sample>)
      ensures Valid() && this.samples == samples && (samples != [] ==> Position() == 0)
    {
      this.samples := samples;
      index, remaining := 0, 0;
    }

    method Next() returns (sample: Sample)
      requires Valid()
      modifies this
      ensures Valid()
      ensures samples == [] ==> sample == Sample(0, true, 1)
      ensures samples != [] ==>
        && old(Position()) < |Expansion(samples)|
        && sample == Expansion(samples)[old(Position())]
        && Position() == NextPlace(|Expansion(samples)|, old(Position()))
    {
      if samples == [] {
        return Sample(0, true, 1);
      }
      StepOn(samples, index, Offset());
      if remaining == 0 {
        remaining := Repeats(samples[index]);
      }
      sample := samples[index];
      remaining := remaining - 1;
      if remaining == 0 {
        WrapsAround(index, |samples|);
        index := (index + 1) % |samples|;
      }
    }

    /** Any number of calls reads on through the endless repetition of the expansion. */
    method Take(n: nat) returns (out: seq<Sample>)
      requires Valid() && samples != []
      modifies this
      ensures Valid() && |out| == n
      ensures forall i :: 0 <= i < n ==> out[i] == Endless(samples, old(Position()), i)
    {
      out := [];
      ghost var start := Position();
      while |out| < n
        invariant Valid() && |out| <= n
        invariant Position() == Place(|Expansion(samples)|, start, |out|)
        invariant forall i :: 0 <= i < |out| ==> out[i] == Endless(samples, start, i)
      {
        var sample := Next();
        out := out + [sample];
      }
    }
  }

  lemma WrapsAround(k: nat, n: nat)
    requires k < n
    ensures (k + 1) % n == if k + 1 == n then 0 else k + 1
  {
  }

  function NextPlace(total: nat, p: nat): nat {
    if p + 1 == total then 0 else p + 1
  }

  /** The place `n` steps on from `p` in a cycle of `total` places. */
  function Place(total: nat, p: nat, n: nat): nat {
    if n == 0 then p else NextPlace(total, Place(total, p, n - 1))
  }

  lemma {:induction false} PlaceInCycle(total: nat, p: nat, n: nat)
    requires p < total
    ensures Place(total, p, n) == (p + n) % total
  {
    if n == 0 {
      ModOf(0, p, total);
    } else {
      PlaceInCycle(total, p, n - 1);
      NextMod(p + n - 1, total);
    }
  }

  /** Entry `i` after place `p` of the expansion repeated without end. */
  function Endless(samples: seq<Sample>, p: nat, i: nat): Sample {
    var place := Place(|Expansion(samples)|, p, i);
    if place < |Expansion(samples)| then Expansion(samples)[place] else Sample(0, true, 1)
  }

  /** From the start, entry `i` is that of the expansion at `i` modulo its length. */
  lemma EndlessIsCyclic(samples: seq<Sample>, i: nat)
    requires samples != []
    ensures Endless(samples, 0, i) == Expansion(samples)[i % |Expansion(samples)|]
  {
    PlaceInCycle(|Expansion(samples)|, 0, i);
  }

  lemma NextMod(a: nat, total: nat)
    requires total > 0
    ensures (a + 1) % total == if a % total + 1 == total then 0 else a % total + 1
  {
    var q, r := a / total, a % total;
    assert a == q * total + r;
    if r + 1 == total {
      assert a + 1 == (q + 1) * total + 0;
      ModOf(q + 1, 0, total);
    } else {
      ModOf(q, r + 1, total);
    }
  }

  lemma ModOf(q: nat, r: nat, total: nat)
    requires r < total
    ensures (q * total + r) % total == r
  {
    var a := q * total + r;
    var k := a / total - q;
    assert total * (a / total) + a % total == a;
    assert k * total == r - a % total;
    MultipleOf(k, total);
  }

  lemma MultipleOf(k: int, total: nat)
    ensures k >= 1 ==> k * total >= total
    ensures k <= -1 ==> k * total + total <= 0
  {
  }
}
