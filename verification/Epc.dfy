/** Generating and normalising EPC codes (src/print/epc.rs, src/print/zebra/epc.rs). */
module Epc {
  import opened Text

  const WORD: nat := 0x1_0000_0000
  const LONG: nat := 0x1_0000_0000_0000_0000
  const SPAN: nat := 0x100_0000_0000_0000
  const BLOCK: nat := 0x200_0000

  /** A signed 64-bit count of nanoseconds. */
  type Nanos = n: int | -0x8000_0000_0000_0000 <= n < 0x8000_0000_0000_0000

  /* ----- 32-bit words, least significant bit first ----- */

  type Word = w: seq<bool> | |w| == 32 witness seq(32, _ => false)

  /** The lowest `width` bits of `n`. */
  function Bits(n: nat, width: nat): (w: seq<bool>)
    ensures |w| == width
  {
    if width == 0 then [] else [n % 2 == 1] + Bits(n / 2, width - 1)
  }

  function Value(w: seq<bool>): nat {
    if w == [] then 0 else (if w[0] then 1 else 0) + 2 * Value(w[1..])
  }

  lemma {:induction false} ValueOfBits(n: nat, width: nat)
    requires n < Pow2(width)
    ensures Value(Bits(n, width)) == n
  {
    if width > 0 {
      ValueOfBits(n / 2, width - 1);
      assert Bits(n, width)[1..] == Bits(n / 2, width - 1);
    }
  }

  lemma {:induction false} BitsOfValue(w: seq<bool>)
    ensures Value(w) < Pow2(|w|) && Bits(Value(w), |w|) == w
  {
    if w != [] {
      BitsOfValue(w[1..]);
      assert Value(w) / 2 == Value(w[1..]);
      assert w == [w[0]] + w[1..];
    }
  }

  /** `v` and `w` are alike except at bit `k`. */
  predicate DifferOnlyAt(v: seq<bool>, w: seq<bool>, k: nat) {
    k < |v| == |w| && forall i :: 0 <= i < |v| ==> (v[i] != w[i] <==> i == k)
  }

  /** Flipping bit `k` moves the value by 2^k. */
  lemma {:induction false} FlippedBit(v: seq<bool>, w: seq<bool>, k: nat)
    requires DifferOnlyAt(v, w, k)
    ensures Value(v) == Value(w) + Pow2(k) || Value(w) == Value(v) + Pow2(k)
  {
    if k == 0 {
      assert v[1..] == w[1..];
    } else {
      assert v[0] == w[0];
      FlippedBit(v[1..], w[1..], k - 1);
    }
  }

  function ToWord(n: nat): Word {
    Bits(n, 32)
  }

  function Xor(v: Word, w: Word): Word {
    seq(32, i requires 0 <= i < 32 => v[i] != w[i])
  }

  /** Every bit moved up by `k`, the top ones coming back at the bottom. */
  function RotateLeft(w: Word, k: nat): Word
    requires k <= 32
  {
    w[32 - k..] + w[..32 - k]
  }

  /** The lowest bit forced to one. */
  function Odd(w: Word): Word {
    w[0 := true]
  }

  /* ----- hexadecimal ----- */

  predicate AllUpperHex(s: string) {
    forall i :: 0 <= i < |s| ==> IsUpperHex(s[i])
  }

  /** The lowest `width` hexadecimal digits of `n`, zeros in front. */
  function Hex(n: nat, width: nat): (s: string)
    ensures |s| == width && AllUpperHex(s)
  {
    if width == 0 then "" else Hex(n / 16, width - 1) + [HexChar(n % 16)]
  }

  function HexValue(s: string): nat
    requires AllUpperHex(s)
  {
    if s == "" then 0
    else
      assert IsUpperHex(s[|s| - 1]);
      16 * HexValue(s[..|s| - 1]) + HexDigit(s[|s| - 1])
  }

  function Pow16(n: nat): (p: nat)
    ensures p > 0
  {
    if n == 0 then 1 else 16 * Pow16(n - 1)
  }

  lemma {:induction false} HexReadsBack(n: nat, width: nat)
    requires n < Pow16(width)
    ensures HexValue(Hex(n, width)) == n
  {
    if width > 0 {
      HexReadsBack(n / 16, width - 1);
      var s := Hex(n, width);
      assert s[..|s| - 1] == Hex(n / 16, width - 1);
    }
  }

  /* ----- the code of one moment ----- */

  /** A word mixed with the rotated sequence number and the salt, and made odd. */
  function Mixed(base: Word, v: Word, salt: Word): Word {
    Odd(Xor(Xor(base, RotateLeft(v, 7)), salt))
  }

  function Tail(ns: Nanos, s: nat, salt: Word): Word {
    var atom := ToWord(ns % LONG / 1000 % WORD);
    Mixed(Xor(atom, RotateLeft(ToWord(ns % WORD), 13)), ToWord(s), salt)
  }

  function FormatEpc24(ns: Nanos, s: nat, salt: Word): string {
    "30" + Hex(ns % SPAN, 14) + Hex(Value(Tail(ns, s, salt)), 8)
  }

  lemma PowersOf16()
    ensures Pow16(14) == SPAN && Pow16(8) == WORD
  {
    assert Pow16(4) == 0x1_0000;
    assert Pow16(8) == WORD;
    assert Pow16(12) == 0x1_0000 * WORD;
  }

  lemma PowersOf2()
    ensures Pow2(25) == BLOCK && Pow2(32) == WORD
  {
    assert Pow2(8) == 256;
    assert Pow2(16) == 0x1_0000;
    assert Pow2(24) == 0x100_0000;
    assert Pow2(32) == 256 * Pow2(24);
  }

  /** The printed code is 24 hexadecimal digits from which the clock modulo 2^56
      and the tail read back. */
  lemma EpcReadsBack(ns: Nanos, s: nat, salt: Word)
    ensures var epc := FormatEpc24(ns, s, salt);
      && |epc| == 24 && AllUpperHex(epc) && epc[..2] == "30"
      && HexValue(epc[2..16]) == ns % SPAN
      && HexValue(epc[16..]) == Value(Tail(ns, s, salt))
  {
    var epc, tail := FormatEpc24(ns, s, salt), Tail(ns, s, salt);
    PowersOf16();
    PowersOf2();
    BitsOfValue(tail);
    HexReadsBack(ns % SPAN, 14);
    HexReadsBack(Value(tail), 8);
    assert epc[2..16] == Hex(ns % SPAN, 14);
    assert epc[16..] == Hex(Value(tail), 8);
  }

  /** Two codes agree exactly when the clock modulo 2^56 and the tail do. */
  lemma EpcEqualIff(ns: Nanos, s: nat, ns': Nanos, s': nat, salt: Word)
    ensures FormatEpc24(ns, s, salt) == FormatEpc24(ns', s', salt) <==>
      ns % SPAN == ns' % SPAN && Tail(ns, s, salt) == Tail(ns', s', salt)
  {
    EpcReadsBack(ns, s, salt);
    EpcReadsBack(ns', s', salt);
    BitsOfValue(Tail(ns, s, salt));
    BitsOfValue(Tail(ns', s', salt));
  }

  lemma {:induction false} BitIs(n: nat, width: nat, k: nat)
    requires k < width
    ensures Bits(n, width)[k] <==> BitOf(n, k)
  {
    if k > 0 {
      BitIs(n / 2, width - 1, k - 1);
      HalveThenDivide(n, Pow2(k - 1));
    }
  }

  /** The bit of the sequence number that the rotation brings to place `i`. */
  function Source(i: nat): nat
    requires i < 32
  {
    if i < 7 then i + 25 else i - 7
  }

  lemma RotatedBit(v: Word, i: nat)
    requires i < 32
    ensures RotateLeft(v, 7)[i] == v[Source(i)]
  {
  }

  lemma MixedBit(base: Word, v: Word, salt: Word, i: nat)
    requires 1 <= i < 32
    ensures Mixed(base, v, salt)[i] == ((base[i] != v[Source(i)]) != salt[i])
  {
    RotatedBit(v, i);
  }

  /** An odd number of the four is set. */
  predicate Odds(a: bool, b: bool, c: bool, d: bool) {
    ((a != b) != c) != d
  }

  /** Each bit of the tail, told by arithmetic on clock and sequence number: microseconds, the clock
      13 places on, the sequence number 7 places on and the salt, added modulo two; the lowest is one. */
  lemma TailBit(ns: Nanos, s: nat, salt: Word, i: nat)
    requires i < 32
    ensures var atom, clock := BitOf(ns % LONG / 1000 % WORD, i), BitOf(ns % WORD, (i + 19) % 32);
      Tail(ns, s, salt)[i] == (i == 0 || Odds(atom, clock, BitOf(s, (i + 25) % 32), salt[i]))
  {
    BitIs(ns % LONG / 1000 % WORD, 32, i);
    BitIs(ns % WORD, 32, (i + 19) % 32);
    BitIs(s, 32, (i + 25) % 32);
    WordsBit(ToWord(ns % LONG / 1000 % WORD), ToWord(ns % WORD), ToWord(s), salt, i);
  }

  lemma WordsBit(atom: Word, clock: Word, v: Word, salt: Word, i: nat)
    requires i < 32
    ensures Mixed(Xor(atom, RotateLeft(clock, 13)), v, salt)[i]
         == (i == 0 || Odds(atom[i], clock[(i + 19) % 32], v[(i + 25) % 32], salt[i]))
  {
    ClockBit(clock, i);
    if i > 0 {
      MixedBit(Xor(atom, RotateLeft(clock, 13)), v, salt, i);
      assert Source(i) == (i + 25) % 32;
    }
  }

  lemma ClockBit(w: Word, i: nat)
    requires i < 32
    ensures RotateLeft(w, 13)[i] == w[(i + 19) % 32]
  {
  }

  lemma MixedAgreeIff(base: Word, v: Word, w: Word, salt: Word)
    ensures Mixed(base, v, salt) == Mixed(base, w, salt) <==>
      forall i :: 0 <= i < 32 && i != 25 ==> v[i] == w[i]
  {
    var x, y := Mixed(base, v, salt), Mixed(base, w, salt);
    assert x[0] && y[0];
    forall i | 1 <= i < 32
      ensures x[i] == y[i] <==> v[Source(i)] == w[Source(i)]
    {
      MixedBit(base, v, salt, i);
      MixedBit(base, w, salt, i);
    }
    SourcesCover(x, y, v, w);
  }

  /** Every bit but bit 25 has a place other than the lowest. */
  lemma SourcesCover(x: Word, y: Word, v: Word, w: Word)
    requires x[0] == y[0]
    requires forall i :: 1 <= i < 32 ==> (x[i] == y[i] <==> v[Source(i)] == w[Source(i)])
    ensures x == y <==> forall i :: 0 <= i < 32 && i != 25 ==> v[i] == w[i]
  {
    if x == y {
      forall i | 0 <= i < 32 && i != 25
        ensures v[i] == w[i]
      {
        var k := if i < 25 then i + 7 else i - 25;
        assert Source(k) == i && x[k] == y[k];
      }
    } else {
      var k :| 0 <= k < 32 && x[k] != y[k];
      assert v[Source(k)] != w[Source(k)] && Source(k) != 25;
    }
  }

  /** The rotation moves bit 25 of the sequence number onto the bit that is then
      forced, so the tail at one moment tells everything but that bit. */
  lemma TailsAgreeIff(ns: Nanos, s: nat, t: nat, salt: Word)
    ensures Tail(ns, s, salt) == Tail(ns, t, salt) <==>
      forall i :: 0 <= i < 32 && i != 25 ==> ToWord(s)[i] == ToWord(t)[i]
  {
    var base := Xor(ToWord(ns % LONG / 1000 % WORD), RotateLeft(ToWord(ns % WORD), 13));
    MixedAgreeIff(base, ToWord(s), ToWord(t), salt);
  }

  /** At one moment two sequence numbers give one code exactly when they are
      equal or differ in bit 25 alone, and then they are 2^25 apart. */
  lemma SameMomentCollision(ns: Nanos, s: nat, t: nat, salt: Word)
    requires s < WORD && t < WORD
    ensures FormatEpc24(ns, s, salt) == FormatEpc24(ns, t, salt) <==>
      s == t || DifferOnlyAt(ToWord(s), ToWord(t), 25)
    ensures DifferOnlyAt(ToWord(s), ToWord(t), 25) ==> s == t + BLOCK || t == s + BLOCK
  {
    EpcEqualIff(ns, s, ns, t, salt);
    TailsAgreeIff(ns, s, t, salt);
    PowersOf2();
    ValueOfBits(s, 32);
    ValueOfBits(t, 32);
    if ToWord(s)[25] == ToWord(t)[25] {
      assert (forall i :: 0 <= i < 32 ==> ToWord(s)[i] == ToWord(t)[i]) ==> ToWord(s) == ToWord(t);
    } else if DifferOnlyAt(ToWord(s), ToWord(t), 25) {
      FlippedBit(ToWord(s), ToWord(t), 25);
    }
  }

  lemma {:induction false} BitsPlusPower(n: nat, k: nat, width: nat)
    requires n < Pow2(k) && k < width
    ensures DifferOnlyAt(Bits(n, width), Bits(n + Pow2(k), width), k)
  {
    if k > 0 {
      BitsPlusPower(n / 2, k - 1, width - 1);
      assert (n + Pow2(k)) / 2 == n / 2 + Pow2(k - 1);
    }
  }

  /** The first two sequence numbers each meet the one 2^25 later. */
  lemma BlockCollides(ns: Nanos, s: nat, salt: Word)
    requires s < 2
    ensures FormatEpc24(ns, s, salt) == FormatEpc24(ns, s + BLOCK, salt)
  {
    PowersOf2();
    BitsPlusPower(s, 25, 32);
    SameMomentCollision(ns, s, s + BLOCK, salt);
  }

  /* ----- the generator ----- */

  datatype State = State(lastNs: Nanos, count: nat)

  const INITIAL := State(0, 0)

  function Tick(st: State, ns: Nanos): (r: State)
    ensures st.count < WORD ==> r.count < WORD
  {
    State(ns, if ns != st.lastNs then 0 else (st.count + 1) % WORD)
  }

  class EpcGenerator {
    var lastNs: Nanos
    var count: nat
    const salt: Word

    function St(): State
      reads this
    {
      State(lastNs, count)
    }

    constructor (salt: Word)
      ensures St() == INITIAL && this.salt == Odd(salt)
    {
      lastNs, count := 0, 0;
      this.salt := Odd(salt);
    }

    method NextAtUnixNs(ns: Nanos) returns (epc: string)
      modifies this
      ensures St() == Tick(old(St()), ns)
      ensures epc == FormatEpc24(ns, St().count, salt)
    {
      if ns != lastNs {
        lastNs := ns;
        count := 0;
      } else {
        count := (count + 1) % WORD;
      }
      epc := FormatEpc24(ns, count, salt);
    }

    /** One call per reading of the clock. */
    method Issue(times: seq<Nanos>) returns (epcs: seq<string>)
      requires St() == INITIAL
      modifies this
      ensures |epcs| == |times| && forall i :: 0 <= i < |times| ==> epcs[i] == Issued(times, i, salt)
    {
      epcs := [];
      for n := 0 to |times|
        invariant |epcs| == n && St() == After(times, n)
        invariant forall i :: 0 <= i < n ==> epcs[i] == Issued(times, i, salt)
      {
        var epc := NextAtUnixNs(times[n]);
        epcs := epcs + [epc];
      }
    }
  }

  /** The generator's state after the first `n` calls. */
  function After(times: seq<Nanos>, n: nat): (st: State)
    requires n <= |times|
    ensures st.count < WORD
    ensures n > 0 ==> st.lastNs == times[n - 1]
  {
    if n == 0 then INITIAL else Tick(After(times, n - 1), times[n - 1])
  }

  /** The sequence number that call `i` uses. */
  function CountAt(times: seq<Nanos>, i: nat): (c: nat)
    requires i < |times|
    ensures c < WORD
  {
    After(times, i + 1).count
  }

  function Issued(times: seq<Nanos>, i: nat, salt: Word): string
    requires i < |times|
  {
    FormatEpc24(times[i], CountAt(times, i), salt)
  }

  predicate NonDecreasing(times: seq<Nanos>) {
    forall i, j :: 0 <= i <= j < |times| ==> times[i] <= times[j]
  }

  lemma CountNext(times: seq<Nanos>, i: nat)
    requires 0 < i < |times|
    ensures CountAt(times, i) == if times[i] == times[i - 1] then (CountAt(times, i - 1) + 1) % WORD else 0
  {
  }

  lemma FirstCount(times: seq<Nanos>)
    requires times != []
    ensures CountAt(times, 0) == if times[0] == 0 then 1 else 0
  {
    assert After(times, 0) == INITIAL;
  }

  /** While the clock stands still the sequence number counts the calls, modulo 2^32. */
  lemma {:induction false} CountsCalls(times: seq<Nanos>, i: nat, d: nat)
    requires i + d < |times| && forall k :: i <= k <= i + d ==> times[k] == times[i]
    ensures CountAt(times, i + d) == (CountAt(times, i) + d) % WORD
  {
    if d > 0 {
      CountsCalls(times, i, d - 1);
      CountNext(times, i + d);
      OneMore(CountAt(times, i), d);
    }
  }

  lemma OneMore(c: nat, d: nat)
    requires d > 0
    ensures ((c + (d - 1)) % WORD + 1) % WORD == (c + d) % WORD
  {
  }

  lemma SmallStep(c: nat, d: nat)
    requires c < WORD && 0 < d < BLOCK
    ensures (c + d) % WORD != c && (c + d) % WORD != c + BLOCK && c != (c + d) % WORD + BLOCK
  {
  }

  lemma SameMomentDiffers(ns: Nanos, c: nat, d: nat, salt: Word)
    requires c < WORD && 0 < d < BLOCK
    ensures FormatEpc24(ns, c, salt) != FormatEpc24(ns, (c + d) % WORD, salt)
  {
    SmallStep(c, d);
    SameMomentCollision(ns, c, (c + d) % WORD, salt);
  }

  lemma OtherMomentDiffers(ns: Nanos, s: nat, ns': Nanos, s': nat, salt: Word)
    requires 0 < ns' - ns < SPAN
    ensures FormatEpc24(ns, s, salt) != FormatEpc24(ns', s', salt)
  {
    SpanApart(ns, ns');
    EpcEqualIff(ns, s, ns', s', salt);
  }

  lemma SpanApart(a: int, b: int)
    requires 0 < b - a < SPAN
    ensures a % SPAN != b % SPAN
  {
  }

  lemma CallsAtOneMomentDiffer(times: seq<Nanos>, salt: Word, i: nat, j: nat)
    requires i < j < |times| && j - i < BLOCK && forall k :: i <= k <= j ==> times[k] == times[i]
    ensures Issued(times, i, salt) != Issued(times, j, salt)
  {
    CountsCalls(times, i, j - i);
    SameMomentDiffers(times[i], CountAt(times, i), j - i, salt);
  }

  /** The first call of the stretch of equal clock readings around call `i`. */
  lemma {:induction false} StretchStart(times: seq<Nanos>, i: nat) returns (f: nat)
    requires i < |times|
    ensures f <= i && (forall k :: f <= k <= i ==> times[k] == times[i])
    ensures f == 0 || times[f - 1] != times[f]
  {
    if i == 0 || times[i] != times[i - 1] {
      f := i;
    } else {
      f := StretchStart(times, i - 1);
    }
  }

  /** A stretch begins at count zero, but for one at zero that opens the run. */
  lemma StartCount(times: seq<Nanos>, f: nat)
    requires f < |times| && (f == 0 || times[f - 1] != times[f])
    ensures CountAt(times, f) == if f == 0 && times[0] == 0 then 1 else 0
  {
    if f > 0 {
      CountNext(times, f);
    } else {
      FirstCount(times);
    }
  }

  /** The clock stands still for more than 2^25 calls. */
  predicate Overused(times: seq<Nanos>, i: nat) {
    i + BLOCK < |times| && forall k :: i <= k <= i + BLOCK ==> times[k] == times[i]
  }

  lemma IssuedAs(times: seq<Nanos>, i: nat, ns: Nanos, c: nat, salt: Word)
    requires i < |times| && times[i] == ns && CountAt(times, i) == c
    ensures Issued(times, i, salt) == FormatEpc24(ns, c, salt)
  {
  }

  lemma CountBlockLater(times: seq<Nanos>, f: nat)
    requires Overused(times, f) && CountAt(times, f) < 2
    ensures CountAt(times, f + BLOCK) == CountAt(times, f) + BLOCK
  {
    CountsCalls(times, f, BLOCK);
  }

  /** A stretch of more than 2^25 calls at one moment repeats a code, whatever the clock does elsewhere. */
  lemma LongStretchRepeats(times: seq<Nanos>, salt: Word, i: nat) returns (f: nat)
    requires Overused(times, i)
    ensures f + BLOCK < |times| && Issued(times, f, salt) == Issued(times, f + BLOCK, salt)
  {
    f := StretchStart(times, i);
    StartCount(times, f);
    CountBlockLater(times, f);
    BlockRepeats(times, salt, f);
  }

  lemma BlockRepeats(times: seq<Nanos>, salt: Word, f: nat)
    requires f + BLOCK < |times| && times[f + BLOCK] == times[f]
    requires CountAt(times, f) < 2 && CountAt(times, f + BLOCK) == CountAt(times, f) + BLOCK
    ensures Issued(times, f, salt) == Issued(times, f + BLOCK, salt)
  {
    var ns, c := times[f], CountAt(times, f);
    BlockCollides(ns, c, salt);
    IssuedAs(times, f, ns, c, salt);
    IssuedAs(times, f + BLOCK, ns, c + BLOCK, salt);
  }

  predicate AllDistinct(times: seq<Nanos>, salt: Word) {
    forall i, j :: 0 <= i < j < |times| ==> Issued(times, i, salt) != Issued(times, j, salt)
  }

  /* ----- a clock that may go back ----- */

  /** Between calls `i` and `j` the clock leaves their moment and comes back to it. */
  predicate Returns(times: seq<Nanos>, i: nat, j: nat) {
    i < j < |times| && times[i] == times[j] && exists k :: i < k < j && times[k] != times[i]
  }

  /** Call `i` is in a stretch at zero that opens the run, where counting starts at one. */
  predicate InOpening(times: seq<Nanos>, i: nat) {
    i < |times| && forall k :: 0 <= k <= i ==> times[k] == 0
  }

  /** A return that repeats nothing: one call alone, back at zero after an opening of fewer than
      2^25 calls there, which has left the count zero unused. */
  predicate Spared(times: seq<Nanos>, i: nat, j: nat) {
    && InOpening(times, i) && !InOpening(times, BLOCK - 1)
    && j < |times| && (j + 1 < |times| ==> times[j + 1] != times[j])
  }

  /** Any two readings are less than 2^56 ns apart. */
  predicate WithinSpan(times: seq<Nanos>) {
    forall i, j :: 0 <= i < |times| && 0 <= j < |times| ==> times[i] - times[j] < SPAN
  }

  lemma {:induction false} OpeningCount(times: seq<Nanos>, i: nat)
    requires InOpening(times, i)
    ensures CountAt(times, i) == (i + 1) % WORD
  {
    FirstCount(times);
    CountsCalls(times, 0, i);
  }

  /** Counts at one moment that are close but not equal give different codes. */
  lemma CountsDiffer(ns: Nanos, c: nat, d: nat, salt: Word)
    requires c < d < c + BLOCK && d < WORD
    ensures FormatEpc24(ns, c, salt) != FormatEpc24(ns, d, salt)
  {
    SameMomentCollision(ns, c, d, salt);
  }

  lemma SparedStandsAlone(times: seq<Nanos>, i: nat, j: nat)
    requires forall p: nat, q: nat :: Returns(times, p, q) ==> Spared(times, p, q)
    requires Returns(times, i, j)
    ensures times[j - 1] != times[j]
  {
    if times[j - 1] == times[j] {
      var k :| i < k < j && times[k] != times[i];
      assert Returns(times, i, j - 1);
    }
  }

  lemma SparedCounts(times: seq<Nanos>, i: nat, j: nat)
    requires forall p: nat, q: nat :: Returns(times, p, q) ==> Spared(times, p, q)
    requires Returns(times, i, j)
    ensures times[j] == times[i] && CountAt(times, j) == 0
    ensures CountAt(times, i) == i + 1 < BLOCK
  {
    SparedStandsAlone(times, i, j);
    StartCount(times, j);
    OpeningIsShort(times, i);
    OpeningCount(times, i);
  }

  lemma SparedDiffer(times: seq<Nanos>, salt: Word, i: nat, j: nat)
    requires forall p: nat, q: nat :: Returns(times, p, q) ==> Spared(times, p, q)
    requires Returns(times, i, j)
    ensures Issued(times, i, salt) != Issued(times, j, salt)
  {
    SparedCounts(times, i, j);
    CountsDiffer(times[i], 0, i + 1, salt);
    IssuedAs(times, i, times[i], i + 1, salt);
    IssuedAs(times, j, times[i], 0, salt);
  }

  lemma OpeningIsShort(times: seq<Nanos>, i: nat)
    requires InOpening(times, i) && !InOpening(times, BLOCK - 1)
    ensures i + 1 < BLOCK
  {
  }

  /** When every return is spared and no moment is overused, no two calls agree. */
  lemma PairDiffers(times: seq<Nanos>, salt: Word, i: nat, j: nat)
    requires WithinSpan(times) && i < j < |times|
    requires forall k: nat :: !Overused(times, k)
    requires forall p: nat, q: nat :: Returns(times, p, q) ==> Spared(times, p, q)
    ensures Issued(times, i, salt) != Issued(times, j, salt)
  {
    if times[i] < times[j] {
      OtherMomentDiffers(times[i], CountAt(times, i), times[j], CountAt(times, j), salt);
    } else if times[j] < times[i] {
      OtherMomentDiffers(times[j], CountAt(times, j), times[i], CountAt(times, i), salt);
    } else if forall k :: i <= k <= j ==> times[k] == times[i] {
      assert !Overused(times, i);
      CallsAtOneMomentDiffer(times, salt, i, j);
    } else {
      assert Returns(times, i, j);
      SparedDiffer(times, salt, i, j);
    }
  }

  lemma SameCountSameCode(times: seq<Nanos>, salt: Word, i: nat, j: nat)
    requires i < j < |times| && times[i] == times[j] && CountAt(times, i) == CountAt(times, j)
    ensures !AllDistinct(times, salt)
  {
    assert Issued(times, i, salt) == Issued(times, j, salt);
  }

  /** Where a moment is left and found again, its two stretches begin apart. */
  lemma TwoStretches(times: seq<Nanos>, i: nat, j: nat) returns (f: nat, g: nat)
    requires Returns(times, i, j)
    ensures f <= i < g <= j && times[f] == times[g] == times[i]
    ensures (f == 0 || times[f - 1] != times[f]) && times[g - 1] != times[g]
    ensures forall k :: f <= k <= i ==> times[k] == times[i]
    ensures forall k :: g <= k <= j ==> times[k] == times[i]
  {
    f := StretchStart(times, i);
    g := StretchStart(times, j);
    var k :| i < k < j && times[k] != times[i];
    assert g > k;
  }

  /** A return of any other kind repeats a code. */
  lemma ReturnRepeats(times: seq<Nanos>, salt: Word, i: nat, j: nat)
    requires Returns(times, i, j) && AllDistinct(times, salt)
    ensures Spared(times, i, j)
  {
    var f, g := TwoStretches(times, i, j);
    StartCount(times, f);
    StartCount(times, g);
    if CountAt(times, f) == 0 {
      SameCountSameCode(times, salt, f, g);
    }
    assert f == 0 && times[0] == 0;
    if j + 1 < |times| && times[j + 1] == times[j] {
      CountsCalls(times, g, 1);
      assert (0 + 1) % WORD == 1;
      SameCountSameCode(times, salt, f, g + 1);
    }
    if InOpening(times, BLOCK - 1) {
      LongOpeningRepeats(times, salt, g);
    }
  }

  lemma LongOpeningCount(times: seq<Nanos>)
    requires InOpening(times, BLOCK - 1)
    ensures times[BLOCK - 1] == 0 && CountAt(times, BLOCK - 1) == BLOCK
  {
    OpeningCount(times, BLOCK - 1);
  }

  lemma CountsMeet(ns: Nanos, salt: Word)
    ensures FormatEpc24(ns, BLOCK, salt) == FormatEpc24(ns, 0, salt)
  {
    BlockCollides(ns, 0, salt);
  }

  /** Counts 2^25 and zero at one moment share a code. */
  lemma UsedCountRepeats(times: seq<Nanos>, salt: Word, i: nat, j: nat)
    requires i < j < |times| && times[i] == times[j] && CountAt(times, i) == BLOCK && CountAt(times, j) == 0
    ensures !AllDistinct(times, salt)
  {
    CountsMeet(times[i], salt);
    IssuedAs(times, i, times[i], BLOCK, salt);
    IssuedAs(times, j, times[i], 0, salt);
  }

  /** An opening of 2^25 calls at zero has used the code of the count zero. */
  lemma LongOpeningRepeats(times: seq<Nanos>, salt: Word, g: nat)
    requires InOpening(times, BLOCK - 1) && 0 < g < |times| && times[g] == 0 && times[g - 1] != 0
    ensures !AllDistinct(times, salt)
  {
    LongOpeningCount(times);
    StartCount(times, g);
    UsedCountRepeats(times, salt, BLOCK - 1, g);
  }

  /** Uniqueness over whole runs on any clock whose readings lie within 2^56 ns: all codes of one
      generator are distinct exactly when the clock never stands still for more than 2^25 calls and
      never returns to a moment it has left, unless the return is spared. */
  lemma UniqueIff(times: seq<Nanos>, salt: Word)
    requires WithinSpan(times)
    ensures AllDistinct(times, salt) <==>
      (forall i: nat :: !Overused(times, i)) && forall i: nat, j: nat :: Returns(times, i, j) ==> Spared(times, i, j)
  {
    if AllDistinct(times, salt) {
      forall i: nat
        ensures !Overused(times, i)
      {
        if Overused(times, i) {
          var f := LongStretchRepeats(times, salt, i);
        }
      }
      forall i: nat, j: nat | Returns(times, i, j)
        ensures Spared(times, i, j)
      {
        ReturnRepeats(times, salt, i, j);
      }
    } else {
      NotDistinct(times, salt);
    }
  }

  lemma NotDistinct(times: seq<Nanos>, salt: Word)
    requires WithinSpan(times) && !AllDistinct(times, salt)
    ensures (exists i: nat :: Overused(times, i))
      || exists i: nat, j: nat :: Returns(times, i, j) && !Spared(times, i, j)
  {
    var i, j :| 0 <= i < j < |times| && Issued(times, i, salt) == Issued(times, j, salt);
    if (forall k: nat :: !Overused(times, k)) && forall p: nat, q: nat :: Returns(times, p, q) ==> Spared(times, p, q) {
      PairDiffers(times, salt, i, j);
    }
  }

  /** A run that does not open at zero is spared nothing. */
  lemma UniqueIffNoReturn(times: seq<Nanos>, salt: Word)
    requires WithinSpan(times) && (times != [] ==> times[0] != 0)
    ensures AllDistinct(times, salt) <==>
      (forall i: nat :: !Overused(times, i)) && forall i: nat, j: nat :: !Returns(times, i, j)
  {
    UniqueIff(times, salt);
  }

  lemma NeverReturns(times: seq<Nanos>, i: nat, j: nat)
    requires NonDecreasing(times)
    ensures !Returns(times, i, j)
  {
    assert forall k :: i < k < j < |times| ==> times[i] <= times[k] <= times[j];
  }

  lemma OverusedIff(times: seq<Nanos>, i: nat)
    requires NonDecreasing(times) && i + BLOCK < |times|
    ensures Overused(times, i) <==> times[i] == times[i + BLOCK]
  {
    assert forall k :: i <= k <= i + BLOCK ==> times[i] <= times[k] <= times[i + BLOCK];
  }

  /** On a clock that never goes back the codes are distinct exactly when no moment is asked for
      more than 2^25 of them. */
  lemma UniqueIffNoMomentOverused(times: seq<Nanos>, salt: Word)
    requires NonDecreasing(times) && (times != [] ==> times[|times| - 1] - times[0] < SPAN)
    ensures AllDistinct(times, salt) <==> forall i :: 0 <= i < |times| - BLOCK ==> times[i] != times[i + BLOCK]
  {
    WithinEnds(times);
    UniqueIff(times, salt);
    forall i: nat, j: nat
      ensures !Returns(times, i, j)
    {
      NeverReturns(times, i, j);
    }
    NoneOverusedIff(times);
  }

  lemma NoneOverusedIff(times: seq<Nanos>)
    requires NonDecreasing(times)
    ensures (forall i: nat :: !Overused(times, i))
      <==> forall i :: 0 <= i < |times| - BLOCK ==> times[i] != times[i + BLOCK]
  {
    if i: nat :| Overused(times, i) {
      OverusedIff(times, i);
    } else {
      forall i | 0 <= i < |times| - BLOCK
        ensures times[i] != times[i + BLOCK]
      {
        OverusedIff(times, i);
      }
    }
  }

  lemma WithinEnds(times: seq<Nanos>)
    requires NonDecreasing(times) && (times != [] ==> times[|times| - 1] - times[0] < SPAN)
    ensures WithinSpan(times)
  {
    forall i, j | 0 <= i < |times| && 0 <= j < |times|
      ensures times[i] - times[j] < SPAN
    {
      assert times[0] <= times[j] && times[i] <= times[|times| - 1];
    }
  }

  /** A clock that steps back to a moment it has left repeats that moment's code. */
  lemma ClockSteppingBackRepeats(a: Nanos, b: Nanos, salt: Word)
    requires a != b && a != 0
    ensures Issued([a, b, a], 0, salt) == Issued([a, b, a], 2, salt)
  {
    var times: seq<Nanos> := [a, b, a];
    CountNext(times, 2);
    FirstCount(times);
  }

  /** One that steps back to a new moment, or once to the zero it opened at, does not. */
  lemma ClockSteppingBackMaySpare(a: Nanos, b: Nanos, salt: Word)
    requires a != b && a - b < SPAN && b - a < SPAN && b != 0 && b < SPAN && -(b as int) < SPAN
    ensures AllDistinct([a, b], salt) && AllDistinct([0, b, 0], salt)
  {
    UniqueIff([a, b], salt);
    UniqueIff([0, b, 0], salt);
  }

  /* ----- accepting codes ----- */

  function Without(s: string, a: char, b: char): (r: string)
    ensures forall c :: c in r ==> c in s && c != a && c != b
    ensures a !in s && b !in s ==> r == s
  {
    if s == "" then ""
    else if s[0] == a || s[0] == b then Without(s[1..], a, b)
    else
      assert s == [s[0]] + s[1..];
      [s[0]] + Without(s[1..], a, b)
  }

  predicate IsHex(c: char) {
    IsUpperHex(c) || 'a' <= c <= 'f'
  }

  datatype EpcError = Empty | NotHex | OddLength | NotWholeWords | BadLength

  /** The code in upper case without its 0x prefix, blanks and dashes. */
  function Cleaned(epc: string): string {
    var value := Upper(Trim(epc));
    Without(if "0X" <= value then value[2..] else value, ' ', '-')
  }

  /** What is asked of a cleaned code. */
  function Checked(value: string): Result<string, EpcError> {
    if value == "" then Err(Empty)
    else if !(forall i :: 0 <= i < |value| ==> IsHex(value[i])) then Err(NotHex)
    else if |value| % 2 != 0 then Err(OddLength)
    else if |value| % 4 != 0 then Err(NotWholeWords)
    else if |value| < 8 || |value| > 64 then Err(BadLength)
    else Ok(value)
  }

  function NormalizeEpc(epc: string): Result<string, EpcError> {
    Checked(Cleaned(epc))
  }

  predicate IsUpperText(s: string) {
    forall c :: c in s ==> UpperChar(c) == c
  }

  lemma UpperIsUpper(s: string)
    ensures IsUpperText(Upper(s))
  {
    forall c | c in Upper(s)
      ensures UpperChar(c) == c
    {
      var i :| 0 <= i < |s| && Upper(s)[i] == c;
    }
  }

  lemma CleanedIsUpper(epc: string)
    ensures IsUpperText(Cleaned(epc))
  {
    var value := Upper(Trim(epc));
    UpperIsUpper(Trim(epc));
    assert "0X" <= value ==> forall c :: c in value[2..] ==> c in value;
  }

  lemma UpperHexIsClean(s: string)
    requires s != "" && AllUpperHex(s)
    ensures Cleaned(s) == s
  {
    assert !IsSpace(s[0]) && !IsSpace(s[|s| - 1]);
    assert Trim(s) == s && Upper(s) == s;
    assert |s| > 1 ==> s[1] != 'X';
  }

  predicate WholeWords(s: string) {
    AllUpperHex(s) && |s| % 4 == 0 && 8 <= |s| <= 64
  }

  lemma CheckedIff(value: string)
    requires IsUpperText(value)
    ensures Checked(value).Ok? <==> WholeWords(value)
    ensures Checked(value).Ok? ==> Checked(value).value == value
  {
    forall i | 0 <= i < |value|
      ensures IsHex(value[i]) <==> IsUpperHex(value[i])
    {
      assert value[i] in value;
    }
  }

  /** A text is accepted unchanged exactly when it is upper-case hexadecimal,
      whole 16-bit words, 8 to 64 digits. */
  lemma AcceptedUnchanged(epc: string)
    ensures NormalizeEpc(epc) == Ok(epc) <==> WholeWords(epc)
  {
    CleanedIsUpper(epc);
    CheckedIff(Cleaned(epc));
    if WholeWords(epc) {
      UpperHexIsClean(epc);
    }
  }

  /** Normalising twice is normalising once, for every accepted text. */
  lemma NormalizeIsIdempotent(epc: string)
    requires NormalizeEpc(epc).Ok?
    ensures WholeWords(NormalizeEpc(epc).value)
    ensures NormalizeEpc(NormalizeEpc(epc).value) == NormalizeEpc(epc)
  {
    CleanedIsUpper(epc);
    CheckedIff(Cleaned(epc));
    AcceptedUnchanged(Cleaned(epc));
  }

  /* ----- codes as people write them ----- */

  /** `text` is `digits` with blanks or dashes anywhere between them. */
  predicate Spread(text: string, digits: string)
    decreases |text|
  {
    if text == "" then digits == ""
    else if text[0] == ' ' || text[0] == '-' then Spread(text[1..], digits)
    else digits != "" && text[0] == digits[0] && Spread(text[1..], digits[1..])
  }

  /** Digits of either case. */
  predicate AllHex(s: string) {
    forall i :: 0 <= i < |s| ==> IsDigit(s[i]) || 'A' <= s[i] <= 'F' || 'a' <= s[i] <= 'f'
  }

  lemma {:induction false} WithoutSpread(text: string, digits: string)
    requires Spread(text, digits) && AllHex(digits)
    ensures Without(Upper(text), ' ', '-') == Upper(digits)
    decreases |text|
  {
    if text != "" {
      var upper := Upper(text);
      assert upper[1..] == Upper(text[1..]) && upper[0] == UpperChar(text[0]);
      if text[0] == ' ' || text[0] == '-' {
        WithoutSpread(text[1..], digits);
      } else {
        assert AllHex(digits[1..]);
        WithoutSpread(text[1..], digits[1..]);
        assert IsDigit(digits[0]) || 'A' <= digits[0] <= 'F' || 'a' <= digits[0] <= 'f';
        assert Upper(digits) == [UpperChar(digits[0])] + Upper(digits[1..]);
      }
    } else {
      assert Upper(text) == "" && Upper(digits) == "";
    }
  }

  lemma {:induction false} SpreadHasNoX(text: string, digits: string)
    requires Spread(text, digits) && AllHex(digits)
    ensures forall i :: 0 <= i < |text| ==> UpperChar(text[i]) != 'X'
    decreases |text|
  {
    if text != "" {
      if text[0] == ' ' || text[0] == '-' {
        SpreadHasNoX(text[1..], digits);
      } else {
        assert AllHex(digits[1..]);
        SpreadHasNoX(text[1..], digits[1..]);
        assert IsDigit(digits[0]) || 'A' <= digits[0] <= 'F' || 'a' <= digits[0] <= 'f';
      }
      assert forall i :: 1 <= i < |text| ==> text[i] == text[1..][i - 1];
    }
  }

  predicate Edged(text: string) {
    text == "" || (!IsSpace(text[0]) && !IsSpace(text[|text| - 1]))
  }

  lemma CleanedPrefixed(text: string, digits: string, prefix: string)
    requires Spread(text, digits) && AllHex(digits) && prefix in {"", "0x", "0X"}
    ensures var value := Upper(prefix + text);
      Without(if "0X" <= value then value[2..] else value, ' ', '-') == Upper(digits)
  {
    var value := Upper(prefix + text);
    WithoutSpread(text, digits);
    if prefix == "" {
      assert prefix + text == text;
      SpreadHasNoX(text, digits);
      assert |value| >= 2 ==> value[1] == UpperChar(text[1]);
    } else {
      assert value[..2] == "0X" && value[2..] == Upper(text);
    }
  }

  /** A code in any case, with or without a 0x in front, with blanks or dashes between its digits and
      white space around it, is cleaned to its upper-case digits. */
  lemma WrittenIsCleaned(lead: string, prefix: string, text: string, trail: string, digits: string)
    requires AllSpace(lead) && AllSpace(trail) && Edged(prefix + text)
    requires Spread(text, digits) && AllHex(digits) && prefix in {"", "0x", "0X"}
    ensures Cleaned(lead + (prefix + text) + trail) == Upper(digits)
  {
    TrimIs(lead, prefix + text, trail);
    CleanedPrefixed(text, digits, prefix);
  }

  lemma UpperOfHex(digits: string)
    requires AllHex(digits)
    ensures AllUpperHex(Upper(digits))
  {
    forall i | 0 <= i < |digits|
      ensures IsUpperHex(Upper(digits)[i])
    {
      assert Upper(digits)[i] == UpperChar(digits[i]);
    }
  }

  /** What such a code is answered with, by the number of its digits alone. */
  lemma WrittenIsNormalized(lead: string, prefix: string, text: string, trail: string, digits: string)
    requires AllSpace(lead) && AllSpace(trail) && Edged(prefix + text)
    requires Spread(text, digits) && AllHex(digits) && prefix in {"", "0x", "0X"}
    ensures NormalizeEpc(lead + (prefix + text) + trail) ==
      if |digits| == 0 then Err(Empty)
      else if |digits| % 2 == 1 then Err(OddLength)
      else if |digits| % 4 == 2 then Err(NotWholeWords)
      else if |digits| < 8 || |digits| > 64 then Err(BadLength)
      else Ok(Upper(digits))
  {
    WrittenIsCleaned(lead, prefix, text, trail, digits);
    UpperOfHex(digits);
    CheckedIs(Upper(digits));
  }

  lemma CheckedIs(value: string)
    requires AllUpperHex(value)
    ensures Checked(value) ==
      if |value| == 0 then Err(Empty)
      else if |value| % 2 == 1 then Err(OddLength)
      else if |value| % 4 == 2 then Err(NotWholeWords)
      else if |value| < 8 || |value| > 64 then Err(BadLength)
      else Ok(value)
  {
    assert forall i :: 0 <= i < |value| ==> IsHex(value[i]);
  }

  /** A code with any other character left after cleaning is answered with that. */
  lemma OtherCharacterIsRefused(epc: string)
    requires exists c :: c in Cleaned(epc) && !(IsDigit(c) || 'A' <= c <= 'F')
    ensures NormalizeEpc(epc) == Err(NotHex)
  {
    CleanedIsUpper(epc);
    var c :| c in Cleaned(epc) && !(IsDigit(c) || 'A' <= c <= 'F');
    var i :| 0 <= i < |Cleaned(epc)| && Cleaned(epc)[i] == c;
    assert UpperChar(c) == c;
    assert !IsHex(Cleaned(epc)[i]);
  }

  /** Generated codes are accepted as they are. */
  lemma GeneratedIsAccepted(ns: Nanos, s: nat, salt: Word)
    ensures NormalizeEpc(FormatEpc24(ns, s, salt)) == Ok(FormatEpc24(ns, s, salt))
  {
    EpcReadsBack(ns, s, salt);
    AcceptedUnchanged(FormatEpc24(ns, s, salt));
  }
}
