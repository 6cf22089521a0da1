/** Choosing one weight among the matches of a frame (src/scale/parser.rs). */
module ScaleWeight {
  import opened Text
  import opened ScaleParser

  /** Weights are exact decimals. */
  datatype Candidate = Candidate(weight: real, unit: string, index: nat, hasUnit: bool, sign: ResolvedSign)

  datatype ResolvedSign = ResolvedSign(hasSign: bool, negative: bool, positive: bool)

  datatype ParsedWeight = ParsedWeight(weight: real, unit: string, stable: Option<bool>)

  const LIMIT: real := 1000000.0

  function NormalizeMinus(raw: string): (r: string)
    ensures |r| == |raw|
    ensures forall i :: 0 <= i < |raw| ==>
      r[i] == if raw[i] in {'\U{2212}', '\U{2013}', '\U{2014}'} then '-' else raw[i]
  {
    seq(|raw|, i requires 0 <= i < |raw| =>
      if raw[i] in {'\U{2212}', '\U{2013}', '\U{2014}'} then '-' else raw[i])
  }

  function ResolveSign(prefix: string, suffix: string): ResolvedSign {
    var prefix, suffix := Upper(Trim(prefix)), Trim(suffix);
    if prefix == "-" || suffix == "-" || prefix == "N" then ResolvedSign(true, true, false)
    else if prefix == "+" || suffix == "+" then ResolvedSign(true, false, true)
    else ResolvedSign(false, false, false)
  }

  /** The number written as `whole` digits, a point and `fraction` digits. */
  function NumberValue(whole: string, fraction: string): (v: real)
    requires AllDigits(whole) && AllDigits(fraction)
    ensures v >= 0.0
  {
    var digits := whole + fraction;
    DigitsValue(digits) as real / Pow10(|fraction|) as real
  }

  function Whole(s: string, m: Match): (r: string)
    requires IsParse(s, m)
    ensures AllDigits(r)
  {
    s[m.intStart..m.intEnd]
  }

  function Fraction(s: string, m: Match): (r: string)
    requires IsParse(s, m)
    ensures AllDigits(r)
  {
    if m.numberEnd > m.intEnd then s[m.intEnd + 1..m.numberEnd] else ""
  }

  function ToCandidate(s: string, m: Match, defaultUnit: string): Candidate
    requires IsParse(s, m)
  {
    var sign := ResolveSign(s[m.start..m.prefixEnd], s[m.suffixStart..m.end]);
    var number := NumberValue(Whole(s, m), Fraction(s, m));
    Candidate(if sign.negative then -number else number,
              if m.unit == |UNITS| then Lower(Trim(defaultUnit)) else UNITS[m.unit],
              m.start, m.unit < |UNITS|, sign)
  }

  predicate InRange(c: Candidate) {
    -LIMIT <= c.weight <= LIMIT
  }

  function KeepInRange(c: Candidate): seq<Candidate> {
    if InRange(c) then [c] else []
  }

  ghost predicate AllParses(s: string, ms: seq<Match>) {
    forall m :: m in ms ==> IsParse(s, m)
  }

  /** Candidates of the matches in order, those out of range dropped. */
  function Candidates(s: string, ms: seq<Match>, defaultUnit: string): (cs: seq<Candidate>)
    requires AllParses(s, ms)
  {
    if ms == [] then []
    else
      KeepInRange(ToCandidate(s, ms[0], defaultUnit)) + Candidates(s, ms[1..], defaultUnit)
  }

  function Score(c: Candidate): int {
    (if c.hasUnit then 80 else 0) + (if c.sign.hasSign then 40 else 0)
    + (if c.sign.negative then 120 else 0) + (if c.sign.positive then 10 else 0)
  }

  /** The better of two candidates, the second one winning ties. */
  function Better(x: Candidate, y: Candidate): Candidate {
    if Score(x) > Score(y) || (Score(x) == Score(y) && x.index > y.index) then x else y
  }

  function Best(cs: seq<Candidate>): (r: Option<Candidate>)
    ensures r.None? <==> cs == []
  {
    if cs == [] then None
    else if |cs| == 1 then Some(cs[0])
    else Some(Better(Best(cs[..|cs| - 1]).value, cs[|cs| - 1]))
  }

  predicate IsWordChar(c: char) {
    IsDigit(c) || 'A' <= c <= 'Z' || 'a' <= c <= 'z' || c == '_'
  }

  predicate WordAt(s: string, i: nat, word: string) {
    && i + |word| <= |s| && Upper(s[i..i + |word|]) == word
    && (i > 0 ==> !IsWordChar(s[i - 1])) && (i + |word| < |s| ==> !IsWordChar(s[i + |word|]))
  }

  /** `word`, upper case, stands in `s` as a word of its own, in any case. */
  predicate HasWord(s: string, word: string) {
    exists i :: 0 <= i < |s| && WordAt(s, i, word)
  }

  function StableFlag(s: string): Option<bool> {
    if HasWord(s, "US") || HasWord(s, "UNSTABLE") then Some(false)
    else if HasWord(s, "ST") || HasWord(s, "STABLE") then Some(true)
    else None
  }

  function FrameCandidates(s: string, defaultUnit: string): seq<Candidate> {
    MatchesParse(s, 0);
    Candidates(s, Matches(s, 0), defaultUnit)
  }

  function Parse(raw: string, defaultUnit: string): Option<ParsedWeight> {
    var s := NormalizeMinus(raw);
    match Best(FrameCandidates(s, defaultUnit))
    case None => None
    case Some(best) => Some(ParsedWeight(best.weight, best.unit, StableFlag(s)))
  }

  lemma MatchesParse(s: string, from: nat)
    requires from <= |s|
    ensures AllParses(s, Matches(s, from))
  {
    MatchesAreGreedy(s, from);
    forall m | m in Matches(s, from) ensures IsParse(s, m) {
      MatchAtTakesAll(s, m.start);
    }
  }

  method ParseWeight(raw: string, defaultUnit: string) returns (parsed: Option<ParsedWeight>)
    ensures parsed == Parse(raw, defaultUnit)
  {
    var s := NormalizeMinus(raw);
    var candidates: seq<Candidate> := [];
    var next := NextMatch(s, 0);
    ghost var from := 0;
    MatchesParse(s, 0);
    while next.Some?
      invariant from <= |s| && next == NextMatch(s, from) && AllParses(s, Matches(s, from))
      invariant candidates + Candidates(s, Matches(s, from), defaultUnit) == FrameCandidates(s, defaultUnit)
      decreases |s| - from
    {
      var m := next.value;
      MatchesUnfold(s, from, m);
      MatchesParse(s, m.end);
      assert m in Matches(s, from);
      var c := ToCandidate(s, m, defaultUnit);
      CandidatesUnfold(s, m, Matches(s, m.end), defaultUnit, candidates);
      if InRange(c) {
        candidates := candidates + [c];
      } else {
        assert candidates + [] == candidates;
      }
      next := NextMatch(s, m.end);
      from := m.end;
    }
    assert candidates == FrameCandidates(s, defaultUnit);
    var best := Best(candidates);
    if best.None? {
      return None;
    }
    return Some(ParsedWeight(best.value.weight, best.value.unit, StableFlag(s)));
  }

  lemma FirstCandidate(s: string, m: Match, ms: seq<Match>, defaultUnit: string)
    requires AllParses(s, [m] + ms) && AllParses(s, ms) && IsParse(s, m)
    ensures Candidates(s, [m] + ms, defaultUnit)
         == KeepInRange(ToCandidate(s, m, defaultUnit)) + Candidates(s, ms, defaultUnit)
  {
    assert ([m] + ms)[1..] == ms;
  }

  lemma CandidatesUnfold(s: string, m: Match, ms: seq<Match>, defaultUnit: string, before: seq<Candidate>)
    requires AllParses(s, [m] + ms) && AllParses(s, ms) && IsParse(s, m)
    ensures before + Candidates(s, [m] + ms, defaultUnit)
         == before + KeepInRange(ToCandidate(s, m, defaultUnit)) + Candidates(s, ms, defaultUnit)
  {
    FirstCandidate(s, m, ms, defaultUnit);
    Assoc(before, KeepInRange(ToCandidate(s, m, defaultUnit)), Candidates(s, ms, defaultUnit));
  }

  /* ----- what the choice means ----- */

  /** The order the scores stand for: a minus sign counts most, then a unit,
      then a plus sign, then standing later in the frame. */
  predicate Beats(x: Candidate, y: Candidate) {
    if x.sign.negative != y.sign.negative then x.sign.negative
    else if x.hasUnit != y.hasUnit then x.hasUnit
    else if x.sign.positive != y.sign.positive then x.sign.positive
    else x.index > y.index
  }

  /** The sign flags agree with each other and with the weight. */
  predicate Sound(c: Candidate) {
    && c.sign.hasSign == (c.sign.negative || c.sign.positive)
    && !(c.sign.negative && c.sign.positive)
    && InRange(c)
    && (if c.sign.negative then c.weight <= 0.0 else c.weight >= 0.0)
  }

  predicate FromFrame(cs: seq<Candidate>) {
    && (forall c :: c in cs ==> Sound(c))
    && (forall i, j :: 0 <= i < j < |cs| ==> cs[i].index < cs[j].index)
  }

  ghost predicate StartsFrom(ms: seq<Match>, low: nat) {
    ms == [] || (low <= ms[0].start && StartsFrom(ms[1..], ms[0].start + 1))
  }

  lemma {:induction false} DisjointStartFrom(ms: seq<Match>, low: nat)
    requires forall i :: 0 <= i < |ms| ==> low <= ms[i].start < ms[i].end
    requires forall i, j :: 0 <= i < j < |ms| ==> ms[i].end <= ms[j].start
    ensures StartsFrom(ms, low)
  {
    if ms != [] {
      DisjointStartFrom(ms[1..], ms[0].start + 1);
    }
  }

  lemma CandidateSound(s: string, m: Match, defaultUnit: string)
    requires IsParse(s, m)
    ensures var c := ToCandidate(s, m, defaultUnit);
      c.index == m.start && (InRange(c) ==> Sound(c))
  {
  }

  lemma {:induction false} CandidatesFromFrame(s: string, ms: seq<Match>, defaultUnit: string, low: nat)
    requires AllParses(s, ms) && StartsFrom(ms, low)
    ensures FromFrame(Candidates(s, ms, defaultUnit))
    ensures forall c :: c in Candidates(s, ms, defaultUnit) ==> low <= c.index
  {
    if ms != [] {
      CandidatesFromFrame(s, ms[1..], defaultUnit, ms[0].start + 1);
      CandidateSound(s, ms[0], defaultUnit);
      FromFramePrepend(ToCandidate(s, ms[0], defaultUnit), Candidates(s, ms[1..], defaultUnit));
    }
  }

  lemma FromFramePrepend(c: Candidate, cs: seq<Candidate>)
    requires FromFrame(cs) && forall d :: d in cs ==> c.index < d.index
    ensures InRange(c) && Sound(c) ==> FromFrame([c] + cs)
  {
  }

  lemma BetterBeats(x: Candidate, y: Candidate)
    requires Sound(x) && Sound(y) && x.index != y.index
    ensures Better(x, y) == x ==> Beats(x, y)
    ensures Better(x, y) != x ==> Better(x, y) == y && Beats(y, x)
  {
  }

  lemma BeatsIsTransitive(x: Candidate, y: Candidate, z: Candidate)
    requires Beats(x, y) && Beats(y, z)
    ensures Beats(x, z)
  {
  }

  lemma FromFrameFront(cs: seq<Candidate>)
    requires cs != [] && FromFrame(cs)
    ensures FromFrame(cs[..|cs| - 1]) && Sound(cs[|cs| - 1])
    ensures forall c :: c in cs[..|cs| - 1] ==> Sound(c) && c.index < cs[|cs| - 1].index
    ensures forall c :: c in cs <==> c in cs[..|cs| - 1] || c == cs[|cs| - 1]
  {
    assert cs == cs[..|cs| - 1] + [cs[|cs| - 1]];
  }

  /** The chosen candidate beats every other one. */
  lemma {:induction false} BestBeatsTheRest(cs: seq<Candidate>)
    requires cs != [] && FromFrame(cs)
    ensures Best(cs).value in cs
    ensures forall c :: c in cs && c != Best(cs).value ==> Beats(Best(cs).value, c)
  {
    if |cs| > 1 {
      var front, last := cs[..|cs| - 1], cs[|cs| - 1];
      FromFrameFront(cs);
      BestBeatsTheRest(front);
      BetterBeats(Best(front).value, last);
      forall c | c in cs && c != Best(cs).value
        ensures Beats(Best(cs).value, c)
      {
        if Best(cs).value == last && c != Best(front).value {
          BeatsIsTransitive(last, Best(front).value, c);
        }
      }
    }
  }

  lemma FrameCandidatesFromFrame(s: string, defaultUnit: string)
    ensures FromFrame(FrameCandidates(s, defaultUnit))
  {
    MatchesParse(s, 0);
    DisjointStartFrom(Matches(s, 0), 0);
    CandidatesFromFrame(s, Matches(s, 0), defaultUnit, 0);
  }

  /** What a frame's weight is: nothing without an in-range candidate, otherwise
      the one candidate that beats all others, never beyond one million, and
      never positive when any candidate carries a minus sign. */
  lemma ParseMeaning(raw: string, defaultUnit: string)
    ensures var cs := FrameCandidates(NormalizeMinus(raw), defaultUnit);
      var parsed := Parse(raw, defaultUnit);
      && (parsed.None? <==> cs == [])
      && (parsed.Some? ==>
            && -LIMIT <= parsed.value.weight <= LIMIT
            && ((exists c :: c in cs && c.sign.negative) ==> parsed.value.weight <= 0.0)
            && exists b :: b in cs && b.weight == parsed.value.weight && b.unit == parsed.value.unit
                 && forall c :: c in cs && c != b ==> Beats(b, c))
  {
    var s := NormalizeMinus(raw);
    FrameCandidatesFromFrame(s, defaultUnit);
    var cs := FrameCandidates(s, defaultUnit);
    if cs != [] {
      BestBeatsTheRest(cs);
      var b := Best(cs).value;
      if c :| c in cs && c.sign.negative {
        assert b.sign.negative;
      }
    }
  }
}
