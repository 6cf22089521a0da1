/** Reading a weight out of one frame (src/scale/parser.rs). */
module ScaleParser {
  import opened Text

  /* ----- the weight pattern -----
     sign? spaces digits ([.,] digits)? spaces unit? spaces sign?, ignoring case */

  const UNITS: seq<string> := ["kg", "g", "lb", "lbs", "oz"]

  predicate IsPrefixSign(c: char) {
    c == '-' || c == '+' || UpperChar(c) == 'N'
  }

  predicate IsSuffixSign(c: char) {
    c == '-' || c == '+'
  }

  /** Where the parts of one match begin and end; `unit` indexes UNITS, and is
      |UNITS| when the frame gives no unit. */
  datatype Match = Match(start: nat, prefixEnd: nat, intStart: nat, intEnd: nat, numberEnd: nat,
                         unitStart: nat, unit: nat, unitEnd: nat, suffixStart: nat, end: nat)

  function UnitLength(unit: nat): nat
    requires unit <= |UNITS|
  {
    if unit < |UNITS| then |UNITS[unit]| else 0
  }

  predicate UnitMatches(s: string, at: nat, unit: nat)
    requires unit <= |UNITS|
  {
    at + UnitLength(unit) <= |s|
    && (unit < |UNITS| ==> Lower(s[at..at + |UNITS[unit]|]) == UNITS[unit])
  }

  predicate InOrder(s: string, m: Match) {
    && m.start <= m.prefixEnd <= m.intStart < m.intEnd <= m.numberEnd
    && m.numberEnd <= m.unitStart <= m.unitEnd <= m.suffixStart <= m.end <= |s|
  }

  /** The sign, the spaces after it and the digits of the number. */
  ghost predicate NumberParses(s: string, m: Match)
    requires InOrder(s, m)
  {
    && m.prefixEnd <= m.start + 1 && (m.prefixEnd == m.start + 1 ==> IsPrefixSign(s[m.start]))
    && (forall k :: m.prefixEnd <= k < m.intStart ==> IsSpace(s[k]))
    && (forall k :: m.intStart <= k < m.intEnd ==> IsDigit(s[k]))
    && (m.numberEnd == m.intEnd
        || ((s[m.intEnd] == '.' || s[m.intEnd] == ',') && m.intEnd + 2 <= m.numberEnd
            && forall k :: m.intEnd + 1 <= k < m.numberEnd ==> IsDigit(s[k])))
  }

  /** The unit, the spaces around it and the sign after it. */
  ghost predicate UnitParses(s: string, m: Match)
    requires InOrder(s, m)
  {
    && (forall k :: m.numberEnd <= k < m.unitStart ==> IsSpace(s[k]))
    && m.unit <= |UNITS| && UnitMatches(s, m.unitStart, m.unit)
    && m.unitEnd == m.unitStart + UnitLength(m.unit)
    && (forall k :: m.unitEnd <= k < m.suffixStart ==> IsSpace(s[k]))
    && m.end <= m.suffixStart + 1 && (m.end == m.suffixStart + 1 ==> IsSuffixSign(s[m.suffixStart]))
  }

  /** `m` is one way to read the pattern in `s`; many may start at one place. */
  ghost predicate IsParse(s: string, m: Match) {
    InOrder(s, m) && NumberParses(s, m) && UnitParses(s, m)
  }

  /** Leftmost-first order of a backtracking matcher: every repetition takes as
      much as it can, and a unit earlier in the list is tried first. */
  ghost predicate TriedNoLater(a: Match, b: Match) {
    if a.prefixEnd != b.prefixEnd then a.prefixEnd > b.prefixEnd
    else if a.intStart != b.intStart then a.intStart > b.intStart
    else if a.intEnd != b.intEnd then a.intEnd > b.intEnd
    else if a.numberEnd != b.numberEnd then a.numberEnd > b.numberEnd
    else if a.unitStart != b.unitStart then a.unitStart > b.unitStart
    else if a.unit != b.unit then a.unit < b.unit
    else if a.suffixStart != b.suffixStart then a.suffixStart > b.suffixStart
    else a.end >= b.end
  }

  function FirstUnit(s: string, at: nat, from: nat): (unit: nat)
    requires at <= |s| && from <= |UNITS|
    ensures from <= unit <= |UNITS| && UnitMatches(s, at, unit)
    ensures forall u :: from <= u < unit ==> !UnitMatches(s, at, u)
    decreases |UNITS| - from
  {
    if UnitMatches(s, at, from) then from else FirstUnit(s, at, from + 1)
  }

  function NumberEnd(s: string, intEnd: nat): (e: nat)
    requires intEnd <= |s|
    ensures intEnd <= e <= |s|
  {
    if intEnd + 1 < |s| && (s[intEnd] == '.' || s[intEnd] == ',') && IsDigit(s[intEnd + 1])
    then RunEnd(s, intEnd + 1, IsDigit)
    else intEnd
  }

  /** The greedy match starting exactly at `start`, found without backtracking. */
  function MatchAt(s: string, start: nat): (r: Option<Match>)
    requires start <= |s|
    ensures r.Some? ==> r.value.start == start && start < r.value.end <= |s|
  {
    var prefixEnd := if start < |s| && IsPrefixSign(s[start]) then start + 1 else start;
    var intStart := RunEnd(s, prefixEnd, IsSpace);
    var intEnd := RunEnd(s, intStart, IsDigit);
    if intEnd == intStart then None
    else
      var numberEnd := NumberEnd(s, intEnd);
      var unitStart := RunEnd(s, numberEnd, IsSpace);
      var unit := FirstUnit(s, unitStart, 0);
      var unitEnd := unitStart + UnitLength(unit);
      var suffixStart := RunEnd(s, unitEnd, IsSpace);
      var end := if suffixStart < |s| && IsSuffixSign(s[suffixStart]) then suffixStart + 1 else suffixStart;
      Some(Match(start, prefixEnd, intStart, intEnd, numberEnd, unitStart, unit, unitEnd, suffixStart, end))
  }

  /** Each part of `g` after the number's first digit takes all it can. */
  ghost predicate TakesAll(s: string, g: Match) {
    && IsParse(s, g)
    && g.intEnd == RunEnd(s, g.intStart, IsDigit)
    && g.numberEnd == NumberEnd(s, g.intEnd)
    && g.unitStart == RunEnd(s, g.numberEnd, IsSpace)
    && g.unit == FirstUnit(s, g.unitStart, 0)
    && g.suffixStart == RunEnd(s, g.unitEnd, IsSpace)
    && g.end == if g.suffixStart < |s| && IsSuffixSign(s[g.suffixStart]) then g.suffixStart + 1 else g.suffixStart
  }

  lemma MatchAtNumber(s: string, start: nat)
    requires start <= |s| && MatchAt(s, start).Some?
    ensures var g := MatchAt(s, start).value;
      && InOrder(s, g) && NumberParses(s, g)
      && g.intEnd == RunEnd(s, g.intStart, IsDigit) && g.numberEnd == NumberEnd(s, g.intEnd)
  {
  }

  lemma MatchAtUnit(s: string, start: nat)
    requires start <= |s| && MatchAt(s, start).Some? && InOrder(s, MatchAt(s, start).value)
    ensures var g := MatchAt(s, start).value;
      && UnitParses(s, g)
      && g.unitStart == RunEnd(s, g.numberEnd, IsSpace)
      && g.unit == FirstUnit(s, g.unitStart, 0)
      && g.suffixStart == RunEnd(s, g.unitEnd, IsSpace)
      && g.end == if g.suffixStart < |s| && IsSuffixSign(s[g.suffixStart]) then g.suffixStart + 1 else g.suffixStart
  {
  }

  lemma MatchAtTakesAll(s: string, start: nat)
    requires start <= |s| && MatchAt(s, start).Some?
    ensures TakesAll(s, MatchAt(s, start).value) && MatchAt(s, start).value.start == start
  {
    MatchAtNumber(s, start);
    MatchAtUnit(s, start);
  }

  lemma SignThenNumber(s: string, m: Match)
    requires IsParse(s, m)
    ensures m.prefixEnd == (if IsPrefixSign(s[m.start]) then m.start + 1 else m.start)
    ensures RunEnd(s, m.prefixEnd, IsSpace) == m.intStart
    ensures RunEnd(s, m.intStart, IsDigit) >= m.intEnd
  {
    assert IsDigit(s[m.intStart]);
    assert m.prefixEnd == m.start ==> IsSpace(s[m.start]) || IsDigit(s[m.start]);
    RunEndIs(s, m.prefixEnd, m.intStart, IsSpace);
    RunEndReaches(s, m.intStart, m.intEnd, IsDigit);
  }

  lemma RestIsGreedy(s: string, m: Match, g: Match)
    requires IsParse(s, m) && TakesAll(s, g) && m.intEnd == g.intEnd
    ensures g.numberEnd >= m.numberEnd
    ensures g.numberEnd == m.numberEnd ==> g.unitStart >= m.unitStart
    ensures g.numberEnd == m.numberEnd && g.unitStart == m.unitStart ==> g.unit <= m.unit
    ensures g.numberEnd == m.numberEnd && g.unitStart == m.unitStart && g.unit == m.unit ==>
              g.suffixStart >= m.suffixStart && (g.suffixStart == m.suffixStart ==> g.end >= m.end)
  {
    if m.numberEnd > m.intEnd {
      assert IsDigit(s[m.intEnd + 1]);
      RunEndReaches(s, m.intEnd + 1, m.numberEnd, IsDigit);
    }
    if g.numberEnd == m.numberEnd {
      RunEndReaches(s, g.numberEnd, m.unitStart, IsSpace);
    }
    if g.numberEnd == m.numberEnd && g.unitStart == m.unitStart && g.unit == m.unit {
      RunEndReaches(s, g.unitEnd, m.suffixStart, IsSpace);
    }
  }

  lemma GreedyIsFirstTried(s: string, m: Match, g: Match)
    requires IsParse(s, m) && TakesAll(s, g) && m.start == g.start
    ensures TriedNoLater(g, m)
  {
    SignThenNumber(s, m);
    SignThenNumber(s, g);
    if g.intEnd == m.intEnd {
      RestIsGreedy(s, m, g);
    }
  }

  /** The scanner returns the match a backtracking matcher of the pattern would
      return at `start`: it exists when any reading does, and none is tried
      before it. */
  lemma MatchAtIsFirstTried(s: string, m: Match)
    requires IsParse(s, m)
    ensures MatchAt(s, m.start).Some? && TriedNoLater(MatchAt(s, m.start).value, m)
  {
    SignThenNumber(s, m);
    MatchAtTakesAll(s, m.start);
    GreedyIsFirstTried(s, m, MatchAt(s, m.start).value);
  }

  /** The greedy reading at a place is unique, and it is what the scanner finds. */
  lemma GreedyMatchIsUnique(s: string, m: Match)
    requires TakesAll(s, m)
    ensures MatchAt(s, m.start) == Some(m)
  {
    MatchAtIsFirstTried(s, m);
    MatchAtTakesAll(s, m.start);
    TakesAllAgree(s, m, MatchAt(s, m.start).value);
  }

  lemma NumbersStartTogether(s: string, a: Match, b: Match)
    requires IsParse(s, a) && IsParse(s, b) && a.start == b.start
    ensures a.prefixEnd == b.prefixEnd && a.intStart == b.intStart
  {
    SignThenNumber(s, a);
    SignThenNumber(s, b);
  }

  lemma TakesAllAgree(s: string, a: Match, b: Match)
    requires TakesAll(s, a) && TakesAll(s, b) && a.start == b.start
    ensures a == b
  {
    NumbersStartTogether(s, a, b);
  }

  /** The match at any place, inside the frame or not. */
  function TryAt(s: string, i: int): Option<Match> {
    if 0 <= i <= |s| then MatchAt(s, i) else None
  }

  /** The search tried at each place of the frame. */
  function Matcher(s: string): int -> Option<Match> {
    (i: int) => TryAt(s, i)
  }

  /** The first match at or after `from`. */
  function NextMatch(s: string, from: nat): (r: Option<Match>)
    requires from <= |s|
    ensures r.Some? ==> from <= r.value.start < r.value.end <= |s|
  {
    NextMatchStarts(s, from);
    FirstSome(Matcher(s), from, |s|)
  }

  lemma NextMatchStarts(s: string, from: nat)
    requires from <= |s|
    ensures var r := FirstSome(Matcher(s), from, |s|);
      r.Some? ==> from <= r.value.start < r.value.end <= |s|
  {
    var at := FirstSomeIsFirst(Matcher(s), from, |s|);
  }

  /** All matches from `from` on, each search resuming where the last match ended. */
  function Matches(s: string, from: nat): (ms: seq<Match>)
    requires from <= |s|
    ensures forall m :: m in ms ==> from <= m.start < m.end <= |s|
    ensures forall i, j :: 0 <= i < j < |ms| ==> ms[i].end <= ms[j].start
    decreases |s| - from
  {
    match NextMatch(s, from)
    case None => []
    case Some(m) => [m] + Matches(s, m.end)
  }

  lemma MatchesUnfold(s: string, from: nat, m: Match)
    requires from <= |s| && NextMatch(s, from) == Some(m)
    ensures m.end <= |s| && Matches(s, from) == [m] + Matches(s, m.end)
  {
  }

  lemma NoDigitNoMatch(s: string, from: nat)
    requires from <= |s| && forall k :: from <= k < |s| ==> !IsDigit(s[k])
    ensures NextMatch(s, from) == None
  {
    var at := NextMatchIsLeftmost(s, from);
  }

  lemma FoundAtOnce(s: string, from: nat)
    requires from <= |s| && MatchAt(s, from).Some?
    ensures NextMatch(s, from) == MatchAt(s, from)
  {
    var at := NextMatchIsLeftmost(s, from);
  }

  /** A greedy reading with no digit behind it is the only match from its start on. */
  lemma OnlyMatch(s: string, m: Match)
    requires TakesAll(s, m)
    requires forall k :: m.end <= k < |s| ==> !IsDigit(s[k])
    ensures Matches(s, m.start) == [m]
  {
    GreedyMatchIsUnique(s, m);
    FoundAtOnce(s, m.start);
    NoDigitNoMatch(s, m.end);
    MatchesUnfold(s, m.start, m);
  }

  /** The scan finds the leftmost place where a match starts, and the match there. */
  lemma NextMatchIsLeftmost(s: string, from: nat) returns (at: nat)
    requires from <= |s|
    ensures from <= at <= |s| && NextMatch(s, from) == MatchAt(s, at)
    ensures forall i :: from <= i < at ==> MatchAt(s, i).None?
    ensures NextMatch(s, from).None? ==> at == |s|
  {
    at := FirstSomeIsFirst(Matcher(s), from, |s|);
    forall i | from <= i < at
      ensures MatchAt(s, i).None?
    {
      assert Matcher(s)(i).None?;
    }
  }

  lemma {:induction false} MatchesAreGreedy(s: string, from: nat)
    requires from <= |s|
    ensures forall m :: m in Matches(s, from) ==> MatchAt(s, m.start) == Some(m)
    decreases |s| - from
  {
    var next := NextMatch(s, from);
    if next.Some? {
      var at := NextMatchIsLeftmost(s, from);
      MatchesUnfold(s, from, next.value);
      MatchesAreGreedy(s, next.value.end);
    }
  }

  /** No digit escapes the scan: each lies inside some match. */
  lemma {:induction false} EveryDigitIsInAMatch(s: string, from: nat, d: nat) returns (m: Match)
    requires from <= d < |s| && IsDigit(s[d])
    ensures m in Matches(s, from) && m.start <= d < m.end
    decreases |s| - from
  {
    DigitMatches(s, d);
    var at := NextMatchIsLeftmost(s, from);
    m := NextMatch(s, from).value;
    MatchesUnfold(s, from, m);
    if d >= m.end {
      m := EveryDigitIsInAMatch(s, m.end, d);
    }
  }

  lemma DigitMatches(s: string, d: nat)
    requires d < |s| && IsDigit(s[d])
    ensures MatchAt(s, d).Some?
  {
    RunEndIs(s, d, d, IsSpace);
  }
}
