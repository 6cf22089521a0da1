/** The text behind a label's QR code (src/core/label.rs): five fields, each escaped byte by byte,
    joined with slashes after a fixed address; and the server's percent decoder
    (src/service/http.rs). Every character stands for one byte. */
module ScanPayload {
  import opened Text

  type Bytes = s: string | forall i :: 0 <= i < |s| ==> s[i] as int < 256

  const QR_BASE_URL := "https://scan.wspace.sbs/L/"

  /* ----- escaping ----- */

  /** The unreserved characters of section 2.3 of RFC 3986. */
  predicate Unreserved(c: char) {
    'A' <= c <= 'Z' || 'a' <= c <= 'z' || IsDigit(c) || c == '-' || c == '_' || c == '.' || c == '~'
  }

  function EscapeByte(c: char): string
    requires c as int < 256
  {
    if Unreserved(c) then [c]
    else if c == ' ' then "+"
    else ['%', HexChar(c as int / 16), HexChar(c as int % 16)]
  }

  function Escaped(s: Bytes): string {
    if s == "" then "" else EscapeByte(s[0]) + Escaped(s[1..])
  }

  method QueryEscape(value: Bytes) returns (out: string)
    ensures out == Escaped(value)
  {
    out := "";
    for i := 0 to |value|
      invariant out + Escaped(value[i..]) == Escaped(value)
    {
      var c := value[i];
      assert value[i..][0] == c && value[i..][1..] == value[i + 1..];
      Assoc(out, EscapeByte(c), Escaped(value[i + 1..]));
      if Unreserved(c) {
        out := out + [c];
      } else if c == ' ' {
        out := out + "+";
      } else {
        out := out + ['%', HexChar(c as int / 16), HexChar(c as int % 16)];
      }
    }
    assert value[|value|..] == "";
  }

  /* ----- decoding ----- */

  /** The value of a hexadecimal digit in either case. */
  function HexValue(c: char): (v: Option<nat>)
    ensures v.Some? ==> v.value < 16
  {
    if IsUpperHex(c) then Some(HexDigit(c))
    else if 'a' <= c <= 'f' then Some(c as int - 'a' as int + 10)
    else None
  }

  /** The two characters after a '%', read as a base-16 number of one byte. The number reader the
      decoder uses takes a leading plus sign. */
  function HexPair(a: char, b: char): (v: Option<nat>)
    ensures v.Some? ==> v.value < 256
  {
    if a == '+' then HexValue(b) else StrictPair(a, b)
  }

  /** The same pair by section 2.1 of RFC 3986: two hexadecimal digits. */
  function StrictPair(a: char, b: char): (v: Option<nat>)
    ensures v.Some? ==> v.value < 256
  {
    match (HexValue(a), HexValue(b))
    case (Some(high), Some(low)) => Some(16 * high + low)
    case (_, _) => None
  }

  /** Decoding with `pair` to read what follows a '%'; anything it cannot read stays as it is. */
  function DecodedBy(s: Bytes, pair: (char, char) -> Option<nat>): Bytes
    requires forall a, b :: pair(a, b).Some? ==> pair(a, b).value < 256
    decreases |s|
  {
    if s == "" then ""
    else if s[0] == '%' && 2 < |s| && pair(s[1], s[2]).Some? then
      [pair(s[1], s[2]).value as char] + DecodedBy(s[3..], pair)
    else [s[0]] + DecodedBy(s[1..], pair)
  }

  function Decoded(s: Bytes): Bytes {
    DecodedBy(s, HexPair)
  }

  function StrictlyDecoded(s: Bytes): Bytes {
    DecodedBy(s, StrictPair)
  }

  /** What one turn of the decoding loop adds: a byte read from three characters, or the next one. */
  lemma DecodedFrom(bytes: Bytes, i: nat)
    requires i < |bytes|
    ensures var byte := if i + 2 < |bytes| then HexPair(bytes[i + 1], bytes[i + 2]) else None;
      Decoded(bytes[i..]) ==
        if bytes[i] == '%' && byte.Some? then [byte.value as char] + Decoded(bytes[i + 3..])
        else [bytes[i]] + Decoded(bytes[i + 1..])
  {
    var rest := bytes[i..];
    assert rest[1..] == bytes[i + 1..];
    if i + 2 < |bytes| {
      assert rest[3..] == bytes[i + 3..];
    }
  }

  method PercentDecode(bytes: Bytes) returns (out: Bytes)
    ensures out == Decoded(bytes)
  {
    out := "";
    var index := 0;
    while index < |bytes|
      invariant 0 <= index <= |bytes|
      invariant out + Decoded(bytes[index..]) == Decoded(bytes)
    {
      DecodedFrom(bytes, index);
      if bytes[index] == '%' && index + 2 < |bytes| {
        var byte := HexPair(bytes[index + 1], bytes[index + 2]);
        if byte.Some? {
          Assoc(out, [byte.value as char], Decoded(bytes[index + 3..]));
          out := out + [byte.value as char];
          index := index + 3;
          continue;
        }
      }
      Assoc(out, [bytes[index]], Decoded(bytes[index + 1..]));
      out := out + [bytes[index]];
      index := index + 1;
    }
    assert bytes[|bytes|..] == "";
  }

  /* ----- what the escaped text looks like ----- */

  /** Only unreserved characters, '+', and '%' with two digits: no slash and no space. */
  lemma {:induction false} EscapedIsClean(s: Bytes)
    ensures forall c :: c in Escaped(s) ==> Unreserved(c) || c == '+' || c == '%'
  {
    if s != "" {
      EscapedIsClean(s[1..]);
    }
  }

  lemma EscapedIsBytes(s: Bytes)
    ensures forall i :: 0 <= i < |Escaped(s)| ==> Escaped(s)[i] as int < 128
  {
    EscapedIsClean(s);
    forall i | 0 <= i < |Escaped(s)|
      ensures Escaped(s)[i] as int < 128
    {
      assert Escaped(s)[i] in Escaped(s);
    }
  }

  /* ----- round trips ----- */

  function Replaced(s: Bytes, from: char, to: char): (r: Bytes)
    requires to as int < 256
    ensures |r| == |s| && forall i :: 0 <= i < |s| ==> r[i] == if s[i] == from then to else s[i]
  {
    seq(|s|, i requires 0 <= i < |s| => if s[i] == from then to else s[i])
  }

  lemma HexCharsReadBack(n: nat)
    requires n < 256
    ensures HexChar(n / 16) != '+' && HexChar(n / 16) != ' ' && HexChar(n % 16) != '+'
    ensures HexPair(HexChar(n / 16), HexChar(n % 16)) == Some(n)
  {
    assert 16 * (n / 16) + n % 16 == n;
  }

  /** Undoing one escaped byte at the front of any text, and going on. */
  lemma EscapeByteUndone(c: char, rest: Bytes)
    requires c as int < 256
    ensures forall i :: 0 <= i < |EscapeByte(c)| ==> EscapeByte(c)[i] as int < 256
    ensures Decoded(EscapeByte(c) + rest) == [if c == ' ' then '+' else c] + Decoded(rest)
    ensures c == ' ' || '+' !in EscapeByte(c)
  {
    var text := EscapeByte(c) + rest;
    if Unreserved(c) || c == ' ' {
      assert text[1..] == rest;
    } else {
      HexCharsReadBack(c as int);
      assert text[3..] == rest;
    }
  }

  /** Decoding an escaped text gives the text back with every space turned into a plus sign. */
  lemma {:induction false} DecodeOfEscape(s: Bytes)
    ensures forall i :: 0 <= i < |Escaped(s)| ==> Escaped(s)[i] as int < 256
    ensures Decoded(Escaped(s)) == Replaced(s, ' ', '+')
  {
    if s != "" {
      EscapedIsBytes(s);
      EscapedIsBytes(s[1..]);
      EscapeByteUndone(s[0], Escaped(s[1..]));
      DecodeOfEscape(s[1..]);
      assert Replaced(s, ' ', '+') == Replaced(s, ' ', '+')[..1] + Replaced(s[1..], ' ', '+');
    }
  }

  /** So the two undo each other on exactly the texts without a space. */
  lemma DecodeInvertsEscapeIff(s: Bytes)
    ensures forall i :: 0 <= i < |Escaped(s)| ==> Escaped(s)[i] as int < 256
    ensures Decoded(Escaped(s)) == s <==> ' ' !in s
  {
    DecodeOfEscape(s);
    if ' ' in s {
      var i :| 0 <= i < |s| && s[i] == ' ';
      assert Decoded(Escaped(s))[i] != s[i];
    } else {
      assert Replaced(s, ' ', '+') == s;
    }
  }

  /** A reader of the QR text: plus signs become spaces first, then the escapes are undone. */
  function ReadField(field: Bytes): Bytes {
    Decoded(Replaced(field, '+', ' '))
  }

  lemma ReplacedAppend(a: Bytes, b: Bytes, from: char, to: char)
    requires to as int < 256
    ensures Replaced(a + b, from, to) == Replaced(a, from, to) + Replaced(b, from, to)
  {
  }

  lemma EscapeByteRead(c: char, rest: Bytes)
    requires c as int < 256
    ensures forall i :: 0 <= i < |EscapeByte(c)| ==> EscapeByte(c)[i] as int < 256
    ensures ReadField(EscapeByte(c) + rest) == [c] + ReadField(rest)
  {
    EscapeByteUndone(c, Replaced(rest, '+', ' '));
    ReplacedAppend(EscapeByte(c), rest, '+', ' ');
    if c == ' ' {
      assert Replaced(EscapeByte(c), '+', ' ') == " ";
      assert (" " + Replaced(rest, '+', ' '))[1..] == Replaced(rest, '+', ' ');
    } else {
      assert Replaced(EscapeByte(c), '+', ' ') == EscapeByte(c);
    }
  }

  lemma {:induction false} FieldReadsBack(s: Bytes)
    ensures forall i :: 0 <= i < |Escaped(s)| ==> Escaped(s)[i] as int < 256
    ensures ReadField(Escaped(s)) == s
  {
    EscapedIsBytes(s);
    if s != "" {
      EscapedIsBytes(s[1..]);
      EscapeByteRead(s[0], Escaped(s[1..]));
      FieldReadsBack(s[1..]);
    }
  }

  /* ----- the whole payload ----- */

  function Join(parts: seq<string>): string
    requires parts != []
  {
    if |parts| == 1 then parts[0] else parts[0] + "/" + Join(parts[1..])
  }

  function SplitOnSlash(s: string): (r: seq<string>)
    ensures r != []
  {
    if s == "" then [""]
    else
      var rest := SplitOnSlash(s[1..]);
      if s[0] == '/' then [""] + rest else [[s[0]] + rest[0]] + rest[1..]
  }

  lemma SplitStep(c: char, s: string)
    requires c != '/'
    ensures SplitOnSlash([c] + s) == [[c] + SplitOnSlash(s)[0]] + SplitOnSlash(s)[1..]
  {
    assert ([c] + s)[1..] == s;
  }

  lemma {:induction false} SplitOfPlain(s: string)
    requires '/' !in s
    ensures SplitOnSlash(s) == [s]
  {
    if s != "" {
      assert s[0] in s && s == [s[0]] + s[1..];
      SplitOfPlain(s[1..]);
      SplitStep(s[0], s[1..]);
    }
  }

  lemma {:induction false} SplitAfterPlain(s: string, rest: string)
    requires '/' !in s
    ensures SplitOnSlash(s + "/" + rest) == [s] + SplitOnSlash(rest)
  {
    var text := s + "/" + rest;
    if s == "" {
      assert text[1..] == rest;
    } else {
      assert s[0] in s && text == [s[0]] + (s[1..] + "/" + rest);
      SplitAfterPlain(s[1..], rest);
      SplitStep(s[0], s[1..] + "/" + rest);
      assert ([s[1..]] + SplitOnSlash(rest))[1..] == SplitOnSlash(rest);
      assert [s[0]] + s[1..] == s;
    }
  }

  lemma {:induction false} SplitInvertsJoin(parts: seq<string>)
    requires parts != []
    requires forall i :: 0 <= i < |parts| ==> '/' !in parts[i]
    ensures SplitOnSlash(Join(parts)) == parts
  {
    if |parts| == 1 {
      SplitOfPlain(parts[0]);
    } else {
      SplitAfterPlain(parts[0], Join(parts[1..]));
      SplitInvertsJoin(parts[1..]);
    }
  }

  function EscapedParts(parts: seq<Bytes>): (r: seq<string>)
    ensures |r| == |parts| && forall i :: 0 <= i < |parts| ==> r[i] == Escaped(parts[i])
  {
    seq(|parts|, i requires 0 <= i < |parts| => Escaped(parts[i]))
  }

  function Payload(parts: seq<Bytes>): string
    requires |parts| == 5
  {
    QR_BASE_URL + Join(EscapedParts(parts))
  }

  method EncodeScanPayload(company: Bytes, product: Bytes, kg: Bytes, brutto: Bytes, epc: Bytes)
    returns (payload: string)
    ensures payload == Payload([company, product, kg, brutto, epc])
  {
    var fields := [company, product, kg, brutto, epc];
    var parts: seq<string> := [];
    for i := 0 to 5
      invariant |parts| == i && forall k :: 0 <= k < i ==> parts[k] == Escaped(fields[k])
    {
      var part := QueryEscape(fields[i]);
      parts := parts + [part];
    }
    assert parts == EscapedParts(fields);
    payload := QR_BASE_URL + Join(parts);
  }

  /** What stands after the address, split at its slashes: five fields, and reading each gives
      back the text that was put in, whatever its bytes are. */
  lemma PayloadReadsBack(parts: seq<Bytes>)
    requires |parts| == 5
    ensures QR_BASE_URL <= Payload(parts)
    ensures var fields := SplitOnSlash(Payload(parts)[|QR_BASE_URL|..]);
            && |fields| == 5
            && forall i :: 0 <= i < 5 ==>
                 (forall k :: 0 <= k < |fields[i]| ==> fields[i][k] as int < 256)
                 && ReadField(fields[i]) == parts[i]
  {
    var escaped := EscapedParts(parts);
    forall i | 0 <= i < 5
      ensures '/' !in escaped[i]
      ensures (forall k :: 0 <= k < |escaped[i]| ==> escaped[i][k] as int < 256)
              && ReadField(escaped[i]) == parts[i]
    {
      EscapedIsClean(parts[i]);
      FieldReadsBack(parts[i]);
    }
    assert Payload(parts)[|QR_BASE_URL|..] == Join(escaped);
    SplitInvertsJoin(escaped);
  }

  lemma PayloadIsInjective(a: seq<Bytes>, b: seq<Bytes>)
    requires |a| == |b| == 5
    ensures Payload(a) == Payload(b) ==> a == b
  {
    PayloadReadsBack(a);
    PayloadReadsBack(b);
  }

  /* ----- the decoder against the standard ----- */

  /** A '%', a plus sign and one hexadecimal digit, which section 2.1 of RFC 3986 does not allow. */
  ghost predicate SignedAt(s: string, i: nat) {
    i + 2 < |s| && s[i] == '%' && s[i + 1] == '+' && HexValue(s[i + 2]).Some?
  }

  ghost function SignedCount(s: string): nat {
    if s == "" then 0 else (if SignedAt(s, 0) then 1 else 0) + SignedCount(s[1..])
  }

  lemma {:induction false} SignedCountIsZeroIff(s: string)
    ensures SignedCount(s) == 0 <==> forall i: nat :: !SignedAt(s, i)
  {
    if s != "" {
      SignedCountIsZeroIff(s[1..]);
      forall i: nat
        ensures SignedAt(s[1..], i) == SignedAt(s, i + 1)
      {
      }
      if i: nat :| SignedAt(s, i) && i > 0 {
        assert SignedAt(s[1..], i - 1);
      }
    }
  }

  lemma CountSteps(s: string)
    requires s != "" && !SignedAt(s, 0)
    ensures SignedCount(s) == SignedCount(s[1..])
  {
  }

  /** Two characters that are not '%' cannot start a signed escape. */
  lemma CountSkipsPair(s: string)
    requires |s| >= 3 && s[1] != '%' && s[2] != '%'
    ensures SignedCount(s) == (if SignedAt(s, 0) then 1 else 0) + SignedCount(s[3..])
  {
    assert s[1..][1..] == s[2..] && s[2..][1..] == s[3..];
    CountSteps(s[1..]);
    CountSteps(s[2..]);
  }

  /** The standard reading copies a signed escape, character by character. */
  lemma SignedIsCopied(s: Bytes)
    requires SignedAt(s, 0)
    ensures StrictlyDecoded(s) == s[..3] + StrictlyDecoded(s[3..])
  {
    assert s[1..][1..] == s[2..] && s[2..][1..] == s[3..];
    var last := StrictlyDecoded(s[2..]);
    assert last == [s[2]] + StrictlyDecoded(s[3..]);
    assert StrictlyDecoded(s[1..]) == [s[1]] + last;
    assert StrictlyDecoded(s) == [s[0]] + StrictlyDecoded(s[1..]);
  }

  /** Each signed escape makes the decoded text two characters shorter than the standard reading. */
  lemma {:induction false} SignedEscapesShorten(s: Bytes)
    ensures |StrictlyDecoded(s)| == |Decoded(s)| + 2 * SignedCount(s)
    ensures SignedCount(s) == 0 ==> StrictlyDecoded(s) == Decoded(s)
    decreases |s|
  {
    if s == "" {
    } else if SignedAt(s, 0) {
      SignedEscapesShorten(s[3..]);
      SignedIsCopied(s);
      CountSkipsPair(s);
    } else if s[0] == '%' && 2 < |s| && StrictPair(s[1], s[2]).Some? {
      SignedEscapesShorten(s[3..]);
      CountSkipsPair(s);
    } else {
      SignedEscapesShorten(s[1..]);
    }
  }

  /** The decoder agrees with the standard on exactly the texts without a signed escape. */
  lemma DecodesAsStandardIff(s: Bytes)
    ensures Decoded(s) == StrictlyDecoded(s) <==> forall i: nat :: !SignedAt(s, i)
  {
    SignedEscapesShorten(s);
    SignedCountIsZeroIff(s);
  }

  /** Such a text: a percent sign, a plus sign and an F are read as the single byte 15. */
  lemma SignIsRead()
    ensures Decoded("%+F") == [15 as char] && StrictlyDecoded("%+F") == "%+F"
  {
    assert "%+F"[3..] == "" && "%+F"[1..] == "+F" && "+F"[1..] == "F" && "F"[1..] == "";
    assert DecodedBy("F", StrictPair) == "F" && DecodedBy("+F", StrictPair) == "+F";
  }

  /* ----- single escapes ----- */

  /** `c` is the hexadecimal digit of value `d`, in either case. */
  predicate DigitOf(c: char, d: nat) {
    || (d < 10 && c as int == '0' as int + d)
    || (10 <= d < 16 && (c as int == 'A' as int + d - 10 || c as int == 'a' as int + d - 10))
  }

  lemma HexValueIs(c: char, d: nat)
    ensures HexValue(c) == Some(d) <==> DigitOf(c, d)
  {
  }

  /** A percent sign and two digits, in either case, are the byte they spell, here and by the standard. */
  lemma EscapeIsByte(a: char, b: char, high: nat, low: nat, rest: Bytes)
    requires DigitOf(a, high) && DigitOf(b, low)
    ensures a as int < 128 && b as int < 128 && 16 * high + low < 256
    ensures Decoded(['%', a, b] + rest) == [(16 * high + low) as char] + Decoded(rest)
    ensures StrictlyDecoded(['%', a, b] + rest) == [(16 * high + low) as char] + StrictlyDecoded(rest)
  {
    HexValueIs(a, high);
    HexValueIs(b, low);
    assert (['%', a, b] + rest)[3..] == rest;
  }

  /** Any other character is kept, a percent sign too when no escape follows. */
  lemma OthersAreKept(c: char, rest: Bytes)
    requires c as int < 256
    requires c == '%' && |rest| >= 2 ==>
      !exists low :: DigitOf(rest[1], low) && (rest[0] == '+' || exists high :: DigitOf(rest[0], high))
    ensures Decoded([c] + rest) == [c] + Decoded(rest)
  {
    var s := [c] + rest;
    assert s[1..] == rest;
    if c == '%' && |rest| >= 2 {
      NoEscape(rest[0], rest[1]);
    }
  }

  lemma NoEscape(a: char, b: char)
    requires !exists low :: DigitOf(b, low) && (a == '+' || exists high :: DigitOf(a, high))
    ensures HexPair(a, b) == None
  {
    if HexValue(b).Some? {
      HexValueIs(b, HexValue(b).value);
      if HexValue(a).Some? {
        HexValueIs(a, HexValue(a).value);
      }
    }
  }

  /** What escaping leaves alone: the letters, digits and four marks of section 2.3 of RFC 3986. */
  predicate LeftAlone(c: char) {
    'A' <= c <= 'Z' || 'a' <= c <= 'z' || '0' <= c <= '9' || c == '-' || c == '_' || c == '.' || c == '~'
  }

  lemma {:induction false} EscapedLength(s: Bytes)
    ensures |Escaped(s)| >= |s|
    ensures Escaped(s) == s <==> forall i :: 0 <= i < |s| ==> LeftAlone(s[i])
  {
    if s != "" {
      EscapedLength(s[1..]);
      assert s == [s[0]] + s[1..];
      if LeftAlone(s[0]) {
        assert Escaped(s)[1..] == Escaped(s[1..]);
        assert forall i :: 1 <= i < |s| ==> s[i] == s[1..][i - 1];
      } else {
        assert EscapeByte(s[0])[0] != s[0] || |EscapeByte(s[0])| == 3;
      }
    }
  }

  /** The address in front, spelled out. */
  lemma PayloadAddress(parts: seq<Bytes>)
    requires |parts| == 5
    ensures "https://scan.wspace.sbs/L/" <= Payload(parts)
  {
    PayloadReadsBack(parts);
  }
}
