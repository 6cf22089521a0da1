/** Characters, sequences and decimal digits shared by the other modules.
    Text is a `seq<char>` in which every character stands for one byte. */
module Text {
  datatype Option<+T> = None | Some(value: T) {
    function GetOr(default: T): T {
      if Some? then value else default
    }
  }

  datatype Result<+T, +E> = Ok(value: T) | Err(error: E)

  /* ----- characters ----- */

  predicate IsSpace(c: char) {
    c == ' ' || '\t' <= c <= '\r'
  }

  predicate IsDigit(c: char) {
    '0' <= c <= '9'
  }

  function LowerChar(c: char): char {
    if 'A' <= c <= 'Z' then (c as int + 32) as char else c
  }

  function UpperChar(c: char): char {
    if 'a' <= c <= 'z' then (c as int - 32) as char else c
  }

  function Lower(s: string): (r: string)
    ensures |r| == |s| && forall i :: 0 <= i < |s| ==> r[i] == LowerChar(s[i])
  {
    seq(|s|, i requires 0 <= i < |s| => LowerChar(s[i]))
  }

  function Upper(s: string): (r: string)
    ensures |r| == |s| && forall i :: 0 <= i < |s| ==> r[i] == UpperChar(s[i])
  {
    seq(|s|, i requires 0 <= i < |s| => UpperChar(s[i]))
  }

  function Trim(s: string): (r: string)
    ensures r == "" || (!IsSpace(r[0]) && !IsSpace(r[|r| - 1]))
    ensures |r| <= |s|
    ensures r == "" <==> forall i :: 0 <= i < |s| ==> IsSpace(s[i])
    ensures forall c :: c in r ==> c in s
    decreases |s|
  {
    if s == "" then ""
    else if IsSpace(s[0]) then Trim(s[1..])
    else if IsSpace(s[|s| - 1]) then Trim(s[..|s| - 1])
    else s
  }

  predicate AllSpace(s: string) {
    forall k :: 0 <= k < |s| ==> IsSpace(s[k])
  }

  /** Trimming takes exactly the white space around a text. */
  lemma {:induction false} TrimIs(lead: string, body: string, trail: string)
    requires AllSpace(lead) && AllSpace(trail)
    requires body == "" || (!IsSpace(body[0]) && !IsSpace(body[|body| - 1]))
    ensures Trim(lead + body + trail) == body
    decreases |lead| + |trail|
  {
    var s := lead + body + trail;
    if body == "" {
      assert forall k :: 0 <= k < |s| ==> IsSpace(s[k]);
    } else if lead != "" {
      assert s[1..] == lead[1..] + body + trail;
      TrimIs(lead[1..], body, trail);
    } else if trail != "" {
      assert s[0] == body[0] && s[|s| - 1] == trail[|trail| - 1];
      assert s[..|s| - 1] == lead + body + trail[..|trail| - 1];
      TrimIs(lead, body, trail[..|trail| - 1]);
    } else {
      assert s == body;
    }
  }

  /** The first position at or after `i` whose character fails `p`. */
  function RunEnd(s: string, i: nat, p: char -> bool): (j: nat)
    requires i <= |s|
    ensures i <= j <= |s|
    ensures forall k :: i <= k < j ==> p(s[k])
    ensures j < |s| ==> !p(s[j])
    decreases |s| - i
  {
    if i < |s| && p(s[i]) then RunEnd(s, i + 1, p) else i
  }

  /** Where a run ends is settled by its characters and the one that stops it. */
  lemma RunEndIs(s: string, i: nat, j: nat, p: char -> bool)
    requires i <= j <= |s|
    requires forall k :: i <= k < j ==> p(s[k])
    requires j < |s| ==> !p(s[j])
    ensures RunEnd(s, i, p) == j
  {
    var r := RunEnd(s, i, p);
    assert !(r < j) && !(j < r);
  }

  /** A run of `p` cannot end inside a stretch satisfying `p`. */
  lemma RunEndReaches(s: string, i: nat, j: nat, p: char -> bool)
    requires i <= j <= |s|
    requires forall k :: i <= k < j ==> p(s[k])
    ensures RunEnd(s, i, p) >= j
  {
    assert !(RunEnd(s, i, p) < j);
  }

  /* ----- sequences of sequences ----- */

  function Concat<T>(parts: seq<seq<T>>): seq<T> {
    if parts == [] then [] else parts[0] + Concat(parts[1..])
  }

  lemma {:induction false} ConcatAppend<T>(a: seq<seq<T>>, b: seq<seq<T>>)
    ensures Concat(a + b) == Concat(a) + Concat(b)
  {
    if a == [] {
      assert a + b == b;
    } else {
      assert (a + b)[0] == a[0] && (a + b)[1..] == a[1..] + b;
      ConcatAppend(a[1..], b);
    }
  }

  lemma ConcatSnoc<T>(a: seq<seq<T>>, x: seq<T>)
    ensures Concat(a + [x]) == Concat(a) + x
  {
    ConcatAppend(a, [x]);
    assert [x][1..] == [];
    assert Concat([x]) == x;
  }

  lemma ThreeParts<T>(s: seq<T>, i: nat, j: nat)
    requires i <= j <= |s|
    ensures s == s[..i] + s[i..j] + s[j..]
  {
  }

  lemma Assoc<T>(a: seq<T>, b: seq<T>, c: seq<T>)
    ensures a + (b + c) == a + b + c
  {
  }

  lemma Regroup<T>(a: seq<T>, b: seq<T>, c: seq<T>, d: seq<T>)
    ensures a + (b + c + d) == a + b + c + d
  {
  }

  /* ----- the first place where a search succeeds ----- */

  function FirstSome<T>(find: int -> Option<T>, low: int, high: int): Option<T>
    requires low <= high
    decreases high - low
  {
    if find(low).Some? then find(low)
    else if low == high then None
    else FirstSome(find, low + 1, high)
  }

  lemma {:induction false} FirstSomeIsFirst<T>(find: int -> Option<T>, low: int, high: int) returns (at: int)
    requires low <= high
    ensures low <= at <= high
    ensures forall i :: low <= i < at ==> find(i).None?
    ensures FirstSome(find, low, high) == find(at)
    ensures find(at).None? ==> at == high
    decreases high - low
  {
    if find(low).Some? || low == high {
      at := low;
    } else {
      at := FirstSomeIsFirst(find, low + 1, high);
    }
  }

  /* ----- a stateful step run over a list ----- */

  function FoldState<S, I, O>(step: (S, I) -> (S, seq<O>), state: S, inputs: seq<I>): S
    decreases |inputs|
  {
    if inputs == [] then state else FoldState(step, step(state, inputs[0]).0, inputs[1..])
  }

  function FoldOutput<S, I, O>(step: (S, I) -> (S, seq<O>), state: S, inputs: seq<I>): seq<O>
    decreases |inputs|
  {
    if inputs == [] then []
    else step(state, inputs[0]).1 + FoldOutput(step, step(state, inputs[0]).0, inputs[1..])
  }

  lemma {:induction false} FoldAppend<S, I, O>(step: (S, I) -> (S, seq<O>), state: S, a: seq<I>, b: seq<I>)
    ensures FoldState(step, state, a + b) == FoldState(step, FoldState(step, state, a), b)
    ensures FoldOutput(step, state, a + b)
         == FoldOutput(step, state, a) + FoldOutput(step, FoldState(step, state, a), b)
    decreases |a|
  {
    if a == [] {
      assert a + b == b;
    } else {
      assert (a + b)[0] == a[0] && (a + b)[1..] == a[1..] + b;
      FoldAppend(step, step(state, a[0]).0, a[1..], b);
    }
  }

  /* ----- hexadecimal digits and powers of two ----- */

  function HexChar(d: nat): (c: char)
    requires d < 16
    ensures IsUpperHex(c) && HexDigit(c) == d
  {
    if d < 10 then ('0' as int + d) as char else ('A' as int + d - 10) as char
  }

  predicate IsUpperHex(c: char) {
    IsDigit(c) || 'A' <= c <= 'F'
  }

  function HexDigit(c: char): (d: nat)
    requires IsUpperHex(c)
    ensures d < 16
  {
    if IsDigit(c) then c as int - '0' as int else c as int - 'A' as int + 10
  }

  function Pow2(n: nat): (p: nat)
    ensures p > 0
  {
    if n == 0 then 1 else 2 * Pow2(n - 1)
  }

  /** Bit `k` of a number, by arithmetic. */
  predicate BitOf(n: nat, k: nat) {
    n / Pow2(k) % 2 == 1
  }

  lemma HalveThenDivide(n: nat, p: nat)
    requires p > 0
    ensures n / 2 / p == n / (2 * p)
  {
    var q, r := n / 2 / p, n / 2 % p;
    assert n == 2 * p * q + (2 * r + n % 2);
    QuotientIs(n, 2 * p, q, 2 * r + n % 2);
  }

  lemma QuotientIs(n: int, d: int, q: int, r: int)
    requires n == d * q + r && 0 <= r < d
    ensures n / d == q
  {
    var e := n / d - q;
    assert n == d * (n / d) + n % d;
    assert d * e == r - n % d;
    assert e >= 1 ==> d * e >= d;
    assert e <= -1 ==> d * e <= -d;
  }

  /* ----- decimal digits ----- */

  function Pow10(n: nat): (p: nat)
    ensures p > 0
  {
    if n == 0 then 1 else 10 * Pow10(n - 1)
  }

  predicate AllDigits(s: string) {
    forall i :: 0 <= i < |s| ==> IsDigit(s[i])
  }

  function DigitValue(c: char): nat
    requires IsDigit(c)
  {
    c as int - '0' as int
  }

  function DigitsValue(s: string): nat
    requires AllDigits(s)
  {
    if s == "" then 0
    else
      assert IsDigit(s[|s| - 1]);
      10 * DigitsValue(s[..|s| - 1]) + DigitValue(s[|s| - 1])
  }

  /** The decimal digits of `n`, without leading zeros; "0" for zero. */
  function Decimal(n: nat): (s: string)
    ensures |s| > 0
    ensures AllDigits(s)
    ensures DigitsValue(s) == n
    ensures |s| > 1 ==> s[0] != '0'
  {
    var last := [('0' as int + n % 10) as char];
    if n < 10 then
      assert last[..|last| - 1] == "";
      last
    else
      var s := Decimal(n / 10) + last;
      assert s[..|s| - 1] == Decimal(n / 10);
      s
  }

  lemma {:induction false} DecimalLength(n: nat, k: nat)
    requires n < Pow10(k) && k >= 1
    ensures |Decimal(n)| <= k
    decreases k
  {
    if n >= 10 {
      DecimalLength(n / 10, k - 1);
    }
  }

  lemma DigitsSnoc(s: string, c: char)
    requires AllDigits(s) && IsDigit(c)
    ensures AllDigits(s + [c]) && DigitsValue(s + [c]) == 10 * DigitsValue(s) + DigitValue(c)
  {
    assert (s + [c])[..|s + [c]| - 1] == s;
  }

  lemma {:induction false} DigitsValueAppend(a: string, b: string)
    requires AllDigits(a) && AllDigits(b)
    ensures AllDigits(a + b)
    ensures DigitsValue(a + b) == DigitsValue(a) * Pow10(|b|) + DigitsValue(b)
    decreases |b|
  {
    if b == "" {
      assert a + b == a;
    } else {
      var front, last := b[..|b| - 1], b[|b| - 1];
      DigitsValueAppend(a, front);
      assert a + b == a + front + [last] && b == front + [last];
      DigitsSnoc(a + front, last);
      DigitsSnoc(front, last);
      ShiftDigits(DigitsValue(a), Pow10(|front|));
    }
  }

  lemma ShiftDigits(x: nat, p: nat)
    ensures x * (10 * p) == 10 * (x * p)
  {
  }
}
