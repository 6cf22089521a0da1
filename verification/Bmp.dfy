/** Writing a one-bit picture as BMP bytes (src/print/godex/bmp.rs). */
module Bmp {
  import opened Bitmap
  import opened Text

  type Byte = n: nat | n < 256

  type Bytes = seq<Byte>

  const HEADER: nat := 62
  const WORD: nat := 0x1_0000_0000

  /* ----- bits of a byte, the most significant one first ----- */

  function Bits(n: nat, width: nat): (b: seq<bool>)
    ensures |b| == width
  {
    if width == 0 then [] else Bits(n / 2, width - 1) + [n % 2 == 1]
  }

  function Value(b: seq<bool>): nat {
    if b == [] then 0 else 2 * Value(b[..|b| - 1]) + if b[|b| - 1] then 1 else 0
  }

  lemma {:induction false} ValueOfBits(n: nat, width: nat)
    requires n < Pow2(width)
    ensures Value(Bits(n, width)) == n
  {
    if width > 0 {
      ValueOfBits(n / 2, width - 1);
      var b := Bits(n, width);
      assert b[..|b| - 1] == Bits(n / 2, width - 1);
    }
  }

  lemma {:induction false} BitsOfValue(b: seq<bool>)
    ensures Value(b) < Pow2(|b|) && Bits(Value(b), |b|) == b
  {
    if b != [] {
      BitsOfValue(b[..|b| - 1]);
      assert Value(b) / 2 == Value(b[..|b| - 1]);
      assert b == b[..|b| - 1] + [b[|b| - 1]];
    }
  }

  predicate Bit(b: Byte, k: nat)
    requires k < 8
  {
    Bits(b, 8)[k]
  }

  lemma {:induction false} BitsAre(n: nat, width: nat, k: nat)
    requires k < width
    ensures Bits(n, width)[k] <==> BitOf(n, width - 1 - k)
    decreases width
  {
    if k + 1 < width {
      BitsAre(n / 2, width - 1, k);
      HalveThenDivide(n, Pow2(width - 2 - k));
    }
  }

  /** `b` with the bit 0x80 shifted right `k` times set. */
  function OrBit(b: Byte, k: nat): Byte
    requires k < 8
  {
    BitsOfValue(Bits(b, 8)[k := true]);
    assert Pow2(8) == 256;
    Value(Bits(b, 8)[k := true])
  }

  lemma OrBitSets(b: Byte, j: nat, k: nat)
    requires j < 8 && k < 8
    ensures Bit(OrBit(b, j), k) <==> j == k || Bit(b, k)
  {
    BitsOfValue(Bits(b, 8)[j := true]);
  }

  lemma {:induction false} ZeroBits(width: nat, k: nat)
    requires k < width
    ensures !Bits(0, width)[k]
  {
    if k + 1 < width {
      ZeroBits(width - 1, k);
    }
  }

  lemma SameBits(a: Byte, b: Byte)
    requires forall k :: 0 <= k < 8 ==> (Bit(a, k) <==> Bit(b, k))
    ensures a == b
  {
    assert Bits(a, 8) == Bits(b, 8) by {
      forall k | 0 <= k < 8 ensures Bits(a, 8)[k] == Bits(b, 8)[k] {
        assert Bit(a, k) <==> Bit(b, k);
      }
    }
    assert Pow2(8) == 256;
    ValueOfBits(a, 8);
    ValueOfBits(b, 8);
  }

  /* ----- numbers in bytes, the least significant byte first ----- */

  function Le16(n: nat): (r: Bytes)
    ensures |r| == 2
  {
    [n % 256, n / 256 % 256]
  }

  function Le32(n: nat): (r: Bytes)
    ensures |r| == 4
  {
    Le16(n % 0x1_0000) + Le16(n / 0x1_0000)
  }

  function Read16(s: Bytes, at: nat): nat
    requires at + 2 <= |s|
  {
    s[at] as int + 256 * s[at + 1] as int
  }

  function Read32(s: Bytes, at: nat): nat
    requires at + 4 <= |s|
  {
    Read16(s, at) + 0x1_0000 * Read16(s, at + 2)
  }

  /** What a field means, byte by byte. */
  lemma LittleEndian(s: Bytes, at: nat)
    requires at + 4 <= |s|
    ensures Read16(s, at) == s[at] as int + 256 * s[at + 1] as int
    ensures Read32(s, at) ==
      s[at] as int + 256 * s[at + 1] as int + 65536 * s[at + 2] as int + 16777216 * s[at + 3] as int
  {
  }

  /** A number below 2^16 reads back, and a larger one reads back cut to 16 bits. */
  lemma ReadLe16(s: Bytes, at: nat, n: nat)
    requires at + 2 <= |s| && s[at..at + 2] == Le16(n)
    ensures Read16(s, at) == n % 0x1_0000
  {
    assert s[at] == s[at..at + 2][0] && s[at + 1] == s[at..at + 2][1];
    SixteenBits(n);
  }

  lemma SixteenBits(n: nat)
    ensures n % 256 + 256 * (n / 256 % 256) == n % 0x1_0000
  {
    var q, r := n / 256, n % 256;
    assert n == 0x1_0000 * (q / 256) + (256 * (q % 256) + r);
  }

  lemma ReadLe32(s: Bytes, at: nat, n: nat)
    requires at + 4 <= |s| && s[at..at + 4] == Le32(n)
    ensures Read32(s, at) == n % WORD
  {
    Halves(s, at, Le16(n % 0x1_0000), Le16(n / 0x1_0000));
    ReadLe16(s, at, n % 0x1_0000);
    ReadLe16(s, at + 2, n / 0x1_0000);
    ThirtyTwoBits(n);
  }

  lemma Halves<T>(s: seq<T>, at: nat, low: seq<T>, high: seq<T>)
    requires at + 4 <= |s| && |low| == |high| == 2 && s[at..at + 4] == low + high
    ensures s[at..at + 2] == low && s[at + 2..at + 4] == high
  {
    assert s[at..at + 2] == s[at..at + 4][..2] && s[at + 2..at + 4] == s[at..at + 4][2..];
  }

  lemma ThirtyTwoBits(n: nat)
    ensures n % 0x1_0000 + 0x1_0000 * (n / 0x1_0000 % 0x1_0000) == n % WORD
  {
  }

  /* ----- rows ----- */

  /** Bytes of one row: whole groups of four, enough for the width. */
  function RowBytes(width: nat): (n: nat)
    ensures 8 * n >= width && n % 4 == 0 && 8 * n < width + 32
  {
    (width + 31) / 32 * 4
  }

  /** `bytes` holds `row` bit by bit from the left, and zeros after it. */
  ghost predicate Packs(bytes: Bytes, row: seq<bool>) {
    |bytes| == RowBytes(|row|)
    && forall x :: 0 <= x < 8 * |bytes| ==> (BitAt(bytes, x) <==> x < |row| && row[x])
  }

  predicate BitAt(bytes: Bytes, x: nat)
    requires x < 8 * |bytes|
  {
    Bit(bytes[x / 8], x % 8)
  }

  lemma PacksIsUnique(a: Bytes, b: Bytes, row: seq<bool>)
    requires Packs(a, row) && Packs(b, row)
    ensures a == b
  {
    forall i | 0 <= i < |a| ensures a[i] == b[i] {
      forall k | 0 <= k < 8 ensures Bit(a[i], k) <==> Bit(b[i], k) {
        assert (8 * i + k) / 8 == i && (8 * i + k) % 8 == k;
        assert BitAt(a, 8 * i + k) == BitAt(b, 8 * i + k);
      }
      SameBits(a[i], b[i]);
    }
  }

  /** `bytes` packs the first `x` pixels of `row`, with every later bit clear. */
  ghost predicate PacksUpTo(bytes: Bytes, row: seq<bool>, x: nat)
    requires x <= |row|
  {
    |bytes| == RowBytes(|row|)
    && forall i :: 0 <= i < 8 * |bytes| ==> (BitAt(bytes, i) <==> i < x && row[i])
  }

  lemma PackPixel(bytes: Bytes, row: seq<bool>, x: nat)
    requires x < |row| && PacksUpTo(bytes, row, x)
    ensures PacksUpTo(if row[x] then bytes[x / 8 := OrBit(bytes[x / 8], x % 8)] else bytes, row, x + 1)
  {
    if row[x] {
      var after := bytes[x / 8 := OrBit(bytes[x / 8], x % 8)];
      forall i | 0 <= i < 8 * |after| ensures BitAt(after, i) <==> i < x + 1 && row[i] {
        assert i / 8 == x / 8 && i % 8 == x % 8 ==> i == x;
        OrBitSets(bytes[x / 8], x % 8, i % 8);
        assert BitAt(after, i) <==> BitAt(bytes, i) || i == x;
      }
    }
  }

  lemma ZeroRowPacks(bytes: Bytes, row: seq<bool>)
    requires |bytes| == RowBytes(|row|) && forall i :: 0 <= i < |bytes| ==> bytes[i] == 0
    ensures PacksUpTo(bytes, row, 0)
  {
    forall i | 0 <= i < 8 * |bytes| ensures !BitAt(bytes, i) {
      ZeroBits(8, i % 8);
    }
  }

  method PackRow(src: MonoBitmap, y: nat) returns (bytes: Bytes)
    requires src.Valid() && y < src.height
    ensures Packs(bytes, src.View().rows[y])
  {
    ghost var line := src.View().rows[y];
    var row := new Byte[RowBytes(src.width)](_ => 0);
    ZeroRowPacks(row[..], line);
    for x := 0 to src.width
      invariant src.View().rows[y] == line && PacksUpTo(row[..], line, x)
    {
      var light := src.IsLight(x, y);
      PackPixel(row[..], line, x);
      if light {
        row[x / 8] := OrBit(row[x / 8], x % 8);
      }
    }
    bytes := row[..];
  }

  /* ----- the whole file ----- */

  /** `data` holds the rows from the bottom up. */
  ghost predicate PacksRows(data: Bytes, width: nat, rows: seq<seq<bool>>) {
    |data| == RowBytes(width) * |rows|
    && forall y :: 0 <= y < |rows| ==> |rows[y]| == width && Packs(RowOf(data, RowBytes(width), |rows|, y), rows[y])
  }

  /** The bytes of row `y` from the top in the data of `height` rows of `n` bytes each. */
  function RowOf(data: Bytes, n: nat, height: nat, y: nat): (r: Bytes)
    requires |data| == n * height && y < height
    ensures |r| == n
  {
    RowInside(n, height, y);
    data[n * (height - 1 - y)..n * (height - 1 - y) + n]
  }

  lemma RowInside(n: nat, height: nat, y: nat)
    requires y < height
    ensures 0 <= n * (height - 1 - y) && n * (height - 1 - y) + n <= n * height
  {
    var below := height - 1 - y;
    assert n * below + n == n * (below + 1);
    Monotone(n, below + 1, height);
  }

  lemma Monotone(n: nat, a: nat, b: nat)
    requires a <= b
    ensures n * a <= n * b
  {
  }

  function Header(width: nat, height: nat, pixelBytes: nat): (r: Bytes)
    ensures |r| == HEADER
  {
    FileHeader(pixelBytes) + Le32(width) + Le32(height) + InfoRest(pixelBytes)
  }

  function FileHeader(pixelBytes: nat): (r: Bytes)
    ensures |r| == 18
  {
    [0x42, 0x4D] + Le32(HEADER + pixelBytes) + Le16(0) + Le16(0) + Le32(HEADER) + Le32(40)
  }

  function InfoRest(pixelBytes: nat): (r: Bytes)
    ensures |r| == 36
  {
    Le16(1) + Le16(1) + Le32(0) + Le32(pixelBytes) + InfoTail()
  }

  /** Resolution, colour counts and the two colours: ink is black, light is white. */
  function InfoTail(): (r: Bytes)
    ensures |r| == 24
  {
    Le32(0) + Le32(0) + Le32(2) + Le32(2)
    + [0, 0, 0, 0] + [0xFF, 0xFF, 0xFF, 0]
  }

  function PixelBytes(img: Image): nat {
    RowBytes(img.width) * img.height
  }

  /** `bytes` is the BMP file of `img`. */
  ghost predicate IsBmpOf(bytes: Bytes, img: Image) {
    var pixelBytes := PixelBytes(img);
    |bytes| == HEADER + pixelBytes
    && bytes[..HEADER] == Header(img.width, img.height, pixelBytes)
    && PacksRows(bytes[HEADER..], img.width, img.rows)
  }

  method EncodeMonoBmp(src: MonoBitmap) returns (out: Bytes)
    requires src.Valid()
    ensures IsBmpOf(out, src.View())
  {
    var header := Header(src.width, src.height, RowBytes(src.width) * src.height);
    ghost var rows := src.View().rows;
    var data: Bytes := [];
    for y := src.height downto 0
      invariant src.View().rows == rows && PacksRows(data, src.width, rows[y..])
    {
      var row := PackRow(src, y);
      PacksOneMore(data, src.width, rows[y + 1..], row, rows[y]);
      assert [rows[y]] + rows[y + 1..] == rows[y..];
      data := data + row;
    }
    out := header + data;
  }

  lemma RowOfOneMore(data: Bytes, bytes: Bytes, n: nat, h: nat, y: nat)
    requires |data| == n * h && |bytes| == n && y < h + 1
    ensures |data + bytes| == n * (h + 1)
    ensures RowOf(data + bytes, n, h + 1, y) == if y == 0 then bytes else RowOf(data, n, h, y - 1)
  {
    assert n * h + n == n * (h + 1);
    RowInside(n, h + 1, y);
    if y > 0 {
      RowInside(n, h, y - 1);
    }
  }

  lemma PacksOneMore(data: Bytes, width: nat, rows: seq<seq<bool>>, bytes: Bytes, row: seq<bool>)
    requires PacksRows(data, width, rows) && |row| == width && Packs(bytes, row)
    ensures PacksRows(data + bytes, width, [row] + rows)
  {
    var n, h := RowBytes(width), |rows|;
    RowOfOneMore(data, bytes, n, h, 0);
    forall y | 0 <= y < |[row] + rows|
      ensures |([row] + rows)[y]| == width && Packs(RowOf(data + bytes, n, h + 1, y), ([row] + rows)[y])
    {
      RowOfOneMore(data, bytes, n, h, y);
      assert y > 0 ==> ([row] + rows)[y] == rows[y - 1];
    }
  }

  /* ----- reading a file back ----- */

  datatype Colour = Colour(blue: Byte, green: Byte, red: Byte)

  const BLACK := Colour(0, 0, 0)
  const WHITE := Colour(255, 255, 255)

  /** Entry `k` of the colour table. */
  function TableColour(bytes: Bytes, k: nat): Colour
    requires 54 + 4 * k + 4 <= |bytes|
  {
    Colour(bytes[54 + 4 * k], bytes[54 + 4 * k + 1], bytes[54 + 4 * k + 2])
  }

  predicate HasPixels(bytes: Bytes, width: nat, height: nat) {
    |bytes| == HEADER + RowBytes(width) * height
  }

  /** The colour a reader of the format shows at column x of row y: rows are stored from the bottom
      up, and the pixel's bit chooses an entry of the table. */
  function Shown(bytes: Bytes, width: nat, height: nat, x: nat, y: nat): Colour
    requires HasPixels(bytes, width, height) && x < width && y < height
  {
    TableColour(bytes, if BitAt(RowOf(bytes[HEADER..], RowBytes(width), height, y), x) then 1 else 0)
  }

  /** The picture a reader of the format finds: sizes from the header, light where it shows white. */
  function Decode(bytes: Bytes): Image
    requires |bytes| >= HEADER && HasPixels(bytes, Read32(bytes, 18), Read32(bytes, 22))
  {
    var width, height := Read32(bytes, 18), Read32(bytes, 22);
    Image(width, height, seq(height, y requires 0 <= y < height =>
      seq(width, x requires 0 <= x < width => Shown(bytes, width, height, x, y) == WHITE)))
  }

  /** Sizes a 32-bit BMP header can hold. */
  predicate FitsBmp(img: Image) {
    img.width < 0x8000_0000 && img.height < 0x8000_0000 && HEADER + PixelBytes(img) < WORD
  }

  lemma HeaderParts(width: nat, height: nat, pixelBytes: nat)
    ensures var h := Header(width, height, pixelBytes);
      && h[..18] == FileHeader(pixelBytes) && h[18..22] == Le32(width) && h[22..26] == Le32(height)
      && h[26..] == InfoRest(pixelBytes)
  {
  }

  lemma FileHeaderSlices<T>(m: seq<T>, a: seq<T>, b: seq<T>, c: seq<T>, d: seq<T>, e: seq<T>)
    requires |m| == |b| == |c| == 2 && |a| == |d| == |e| == 4
    ensures var f := m + a + b + c + d + e;
      f[0] == m[0] && f[1] == m[1] && f[2..6] == a && f[10..14] == d && f[14..18] == e
  {
  }

  lemma InfoSlices<T>(a: seq<T>, b: seq<T>, c: seq<T>, d: seq<T>, e: seq<T>)
    requires |a| == |b| == 2 && |c| == |d| == 4
    ensures var f := a + b + c + d + e; f[0..2] == a && f[2..4] == b && f[8..12] == d
  {
  }

  lemma FileHeaderFields(n: nat)
    ensures var f := FileHeader(n);
      && f[0] == 0x42 && f[1] == 0x4D && f[2..6] == Le32(HEADER + n)
      && f[10..14] == Le32(HEADER) && f[14..18] == Le32(40)
  {
    FileHeaderSlices([0x42, 0x4D], Le32(HEADER + n), Le16(0), Le16(0), Le32(HEADER), Le32(40));
  }

  lemma InfoFields(n: nat)
    ensures var f := InfoRest(n);
      f[0..2] == Le16(1) && f[2..4] == Le16(1) && f[8..12] == Le32(n)
  {
    InfoSlices(Le16(1), Le16(1), Le32(0), Le32(n), InfoTail());
  }

  lemma RestSlices<T>(a: seq<T>, b: seq<T>, c: seq<T>, d: seq<T>, e: seq<T>, f: seq<T>, g: seq<T>,
                      h: seq<T>, i: seq<T>, j: seq<T>)
    requires |a| == |b| == 2 && |c| == |d| == |e| == |f| == |g| == |h| == |i| == |j| == 4
    ensures var r := a + b + c + d + (e + f + g + h + i + j);
      && r[4..8] == c && r[12..16] == e && r[16..20] == f && r[20..24] == g && r[24..28] == h
      && r[28..32] == i && r[32..36] == j
  {
  }

  lemma RestFields(n: nat)
    ensures var f := InfoRest(n);
      && f[4..8] == Le32(0) && f[12..16] == Le32(0) && f[16..20] == Le32(0)
      && f[20..24] == Le32(2) && f[24..28] == Le32(2)
      && f[28..32] == [0, 0, 0, 0] && f[32..36] == [0xFF, 0xFF, 0xFF, 0]
  {
    RestSlices(Le16(1), Le16(1), Le32(0), Le32(n), Le32(0), Le32(0), Le32(2), Le32(2),
               [0, 0, 0, 0], [0xFF, 0xFF, 0xFF, 0]);
  }

  lemma SizeFields(bytes: Bytes, img: Image)
    requires IsBmpOf(bytes, img)
    ensures HEADER <= |bytes|
    ensures bytes[..HEADER][18..22] == Le32(img.width) && bytes[..HEADER][22..26] == Le32(img.height)
  {
    HeaderParts(img.width, img.height, RowBytes(img.width) * img.height);
  }

  lemma SizesReadBack(bytes: Bytes, img: Image)
    requires IsBmpOf(bytes, img) && img.width < WORD && img.height < WORD
    ensures HEADER <= |bytes| && Read32(bytes, 18) == img.width && Read32(bytes, 22) == img.height
  {
    SizeFields(bytes, img);
    ReadHeaderField(bytes, 18, img.width);
    ReadHeaderField(bytes, 22, img.height);
  }

  lemma ReadHeaderField(bytes: Bytes, at: nat, n: nat)
    requires at + 4 <= HEADER <= |bytes| && bytes[..HEADER][at..at + 4] == Le32(n) && n < WORD
    ensures Read32(bytes, at) == n
  {
    HeaderSlice(bytes, at, at + 4);
    ReadLe32(bytes, at, n);
  }

  lemma HeaderSlice(bytes: Bytes, a: nat, b: nat)
    requires a <= b <= HEADER <= |bytes|
    ensures bytes[a..b] == bytes[..HEADER][a..b]
  {
  }

  lemma FileLength(bytes: Bytes, img: Image)
    requires IsBmpOf(bytes, img)
    ensures |bytes| == 62 + 4 * ((img.width + 31) / 32) * img.height
  {
  }

  /** The header's fixed fields and sizes, as a reader finds them. */
  lemma HeaderReadsBack(bytes: Bytes, img: Image)
    requires FitsBmp(img) && IsBmpOf(bytes, img)
    ensures HEADER <= |bytes| && bytes[0] == 0x42 && bytes[1] == 0x4D
    ensures Read32(bytes, 2) == |bytes| && Read32(bytes, 10) == HEADER && Read32(bytes, 14) == 40
    ensures Read16(bytes, 26) == 1 && Read16(bytes, 28) == 1 && Read32(bytes, 34) == |bytes| - HEADER
  {
    var n := HeaderSplits(bytes, img);
    HeaderFields(bytes, n);
  }

  lemma HeaderFields(bytes: Bytes, n: nat)
    requires |bytes| == HEADER + n < WORD
    requires bytes[..HEADER][..18] == FileHeader(n) && bytes[..HEADER][26..] == InfoRest(n)
    ensures bytes[0] == 0x42 && bytes[1] == 0x4D
    ensures Read32(bytes, 2) == |bytes| && Read32(bytes, 10) == HEADER && Read32(bytes, 14) == 40
    ensures Read16(bytes, 26) == 1 && Read16(bytes, 28) == 1 && Read32(bytes, 34) == n
  {
    FileHeaderReadsBack(bytes, n);
    InfoReadsBack(bytes, n);
  }

  lemma HeaderSplits(bytes: Bytes, img: Image) returns (n: nat)
    requires FitsBmp(img) && IsBmpOf(bytes, img)
    ensures |bytes| == HEADER + n < WORD
    ensures bytes[..HEADER][..18] == FileHeader(n) && bytes[..HEADER][26..] == InfoRest(n)
  {
    n := PixelBytes(img);
    HeaderCuts(bytes, img.width, img.height, n);
  }

  lemma HeaderCuts(bytes: Bytes, width: nat, height: nat, n: nat)
    requires HEADER <= |bytes| && bytes[..HEADER] == Header(width, height, n)
    ensures bytes[..HEADER][..18] == FileHeader(n) && bytes[..HEADER][26..] == InfoRest(n)
  {
    HeaderParts(width, height, n);
  }

  /** The other fields: no compression, nothing reserved, no resolution, two colours, both important. */
  lemma OtherFieldsReadBack(bytes: Bytes, img: Image)
    requires FitsBmp(img) && IsBmpOf(bytes, img)
    ensures HEADER <= |bytes| && Read16(bytes, 6) == 0 && Read16(bytes, 8) == 0
    ensures Read32(bytes, 30) == 0 && Read32(bytes, 38) == 0 && Read32(bytes, 42) == 0
    ensures Read32(bytes, 46) == 2 && Read32(bytes, 50) == 2
  {
    var n := HeaderSplits(bytes, img);
    OtherInfoFields(bytes, n);
    ReservedFields(bytes, n);
  }

  lemma OtherInfoFields(bytes: Bytes, n: nat)
    requires |bytes| >= HEADER && bytes[..HEADER][26..] == InfoRest(n)
    ensures Read32(bytes, 30) == 0 && Read32(bytes, 38) == 0 && Read32(bytes, 42) == 0
    ensures Read32(bytes, 46) == 2 && Read32(bytes, 50) == 2
  {
    RestFields(n);
    assert bytes[..HEADER][26..HEADER] == bytes[..HEADER][26..];
    InfoField(bytes, n, 4, 0);
    InfoField(bytes, n, 12, 0);
    InfoField(bytes, n, 16, 0);
    InfoField(bytes, n, 20, 2);
    InfoField(bytes, n, 24, 2);
  }

  lemma InfoField(bytes: Bytes, n: nat, at: nat, value: nat)
    requires |bytes| >= HEADER && bytes[..HEADER][26..HEADER] == InfoRest(n)
    requires at + 4 <= 36 && InfoRest(n)[at..at + 4] == Le32(value) && value < WORD
    ensures Read32(bytes, 26 + at) == value
  {
    FieldInside(bytes, 26, HEADER, at, at + 4);
    ReadLe32(bytes, 26 + at, value);
  }

  lemma ReservedSlices<T>(m: seq<T>, a: seq<T>, b: seq<T>, c: seq<T>, d: seq<T>, e: seq<T>)
    requires |m| == |b| == |c| == 2 && |a| == |d| == |e| == 4
    ensures var f := m + a + b + c + d + e; f[6..8] == b && f[8..10] == c
  {
  }

  lemma ReservedFields(bytes: Bytes, n: nat)
    requires |bytes| >= HEADER && bytes[..HEADER][..18] == FileHeader(n)
    ensures Read16(bytes, 6) == 0 && Read16(bytes, 8) == 0
  {
    ReservedSlices([0x42, 0x4D], Le32(HEADER + n), Le16(0), Le16(0), Le32(HEADER), Le32(40));
    FieldInside(bytes, 0, 18, 6, 8);
    FieldInside(bytes, 0, 18, 8, 10);
    ReadLe16(bytes, 6, 0);
    ReadLe16(bytes, 8, 0);
  }

  lemma FileHeaderPlaces(bytes: Bytes, n: nat)
    requires |bytes| >= HEADER && bytes[..HEADER][..18] == FileHeader(n)
    ensures FileHeader(n)[0] == 0x42 && FileHeader(n)[1] == 0x4D
    ensures bytes[2..6] == Le32(HEADER + n) && bytes[10..14] == Le32(HEADER) && bytes[14..18] == Le32(40)
  {
    FileHeaderFields(n);
    FieldInside(bytes, 0, 18, 2, 6);
    FieldInside(bytes, 0, 18, 10, 14);
    FieldInside(bytes, 0, 18, 14, 18);
  }

  lemma FileHeaderReadsBack(bytes: Bytes, n: nat)
    requires |bytes| >= HEADER && bytes[..HEADER][..18] == FileHeader(n) && HEADER + n < WORD
    ensures bytes[0] == 0x42 && bytes[1] == 0x4D
    ensures Read32(bytes, 2) == HEADER + n && Read32(bytes, 10) == HEADER && Read32(bytes, 14) == 40
  {
    FileHeaderPlaces(bytes, n);
    assert bytes[0] == bytes[..HEADER][..18][0] && bytes[1] == bytes[..HEADER][..18][1];
    ReadLe32(bytes, 2, HEADER + n);
    ReadLe32(bytes, 10, HEADER);
    ReadLe32(bytes, 14, 40);
  }

  lemma InfoReadsBack(bytes: Bytes, n: nat)
    requires |bytes| >= HEADER && bytes[..HEADER][26..] == InfoRest(n) && n < WORD
    ensures Read16(bytes, 26) == 1 && Read16(bytes, 28) == 1 && Read32(bytes, 34) == n
  {
    InfoFields(n);
    FieldInside(bytes, 26, HEADER, 0, 2);
    FieldInside(bytes, 26, HEADER, 2, 4);
    FieldInside(bytes, 26, HEADER, 8, 12);
    assert bytes[..HEADER][26..HEADER] == bytes[..HEADER][26..];
    ReadLe16(bytes, 26, 1);
    ReadLe16(bytes, 28, 1);
    ReadLe32(bytes, 34, n);
  }

  lemma FieldInside<T>(bytes: seq<T>, from: nat, to: nat, a: nat, b: nat)
    requires a <= b <= to - from && from <= to <= HEADER <= |bytes|
    ensures bytes[from + a..from + b] == bytes[..HEADER][from..to][a..b]
  {
    var inner := bytes[..HEADER][from..to];
    assert forall k :: a <= k < b ==> inner[k] == bytes[from + k];
  }

  lemma ColourTable(bytes: Bytes, img: Image)
    requires IsBmpOf(bytes, img)
    ensures HEADER <= |bytes|
    ensures bytes[54..58] == [0, 0, 0, 0] && bytes[58..62] == [0xFF, 0xFF, 0xFF, 0]
    ensures TableColour(bytes, 0) == BLACK && TableColour(bytes, 1) == WHITE
  {
    var n := RowBytes(img.width) * img.height;
    TableInside(bytes, img.width, img.height, n);
    assert bytes[54..58][0] == bytes[54] && bytes[54..58][1] == bytes[55] && bytes[54..58][2] == bytes[56];
    assert bytes[58..62][0] == bytes[58] && bytes[58..62][1] == bytes[59] && bytes[58..62][2] == bytes[60];
  }

  lemma TableInside(bytes: Bytes, width: nat, height: nat, n: nat)
    requires HEADER <= |bytes| && bytes[..HEADER] == Header(width, height, n)
    ensures bytes[54..58] == [0, 0, 0, 0] && bytes[58..62] == [0xFF, 0xFF, 0xFF, 0]
  {
    HeaderCuts(bytes, width, height, n);
    RestFields(n);
    FieldInside(bytes, 26, HEADER, 28, 32);
    FieldInside(bytes, 26, HEADER, 32, 36);
    assert bytes[..HEADER][26..HEADER] == bytes[..HEADER][26..];
  }

  /** What a reader of the format sees: white where the pixel is light, black elsewhere. */
  lemma ColourShown(bytes: Bytes, img: Image, x: nat, y: nat)
    requires Shaped(img) && IsBmpOf(bytes, img) && Inside(img, x, y)
    ensures HasPixels(bytes, img.width, img.height)
    ensures Shown(bytes, img.width, img.height, x, y) == if img.rows[y][x] then WHITE else BLACK
  {
    ColourTable(bytes, img);
    var row := RowOf(bytes[HEADER..], RowBytes(img.width), img.height, y);
    assert Packs(row, img.rows[y]);
    assert BitAt(row, x) <==> img.rows[y][x];
  }

  /** Decoding inverts encoding, so the encoding loses nothing. */
  lemma DecodeInvertsEncode(bytes: Bytes, img: Image)
    requires Shaped(img) && FitsBmp(img) && IsBmpOf(bytes, img)
    ensures Read32(bytes, 18) == img.width && Read32(bytes, 22) == img.height && Decode(bytes) == img
  {
    SizesReadBack(bytes, img);
    var d := Decode(bytes);
    forall x, y | Inside(img, x, y) ensures d.rows[y][x] == img.rows[y][x] {
      ColourShown(bytes, img, x, y);
    }
    SameImage(d, img);
  }

  /** One picture, one file: equal files come from equal pictures, and a picture
      has only one file. */
  lemma EncodingIsInjective(a: Bytes, b: Bytes, img: Image, other: Image)
    requires Shaped(img) && FitsBmp(img) && IsBmpOf(a, img)
    requires Shaped(other) && FitsBmp(other) && IsBmpOf(b, other)
    ensures a == b <==> img == other
  {
    DecodeInvertsEncode(a, img);
    DecodeInvertsEncode(b, other);
    if img == other {
      DataIsUnique(a[HEADER..], b[HEADER..], img.width, img.rows);
      assert a == a[..HEADER] + a[HEADER..] && b == b[..HEADER] + b[HEADER..];
    }
  }

  lemma DataIsUnique(a: Bytes, b: Bytes, width: nat, rows: seq<seq<bool>>)
    requires PacksRows(a, width, rows) && PacksRows(b, width, rows)
    ensures a == b
  {
    forall i | 0 <= i < |a| ensures a[i] == b[i] {
      SameByte(a, b, width, rows, i);
    }
  }

  lemma SameByte(a: Bytes, b: Bytes, width: nat, rows: seq<seq<bool>>, i: nat)
    requires PacksRows(a, width, rows) && PacksRows(b, width, rows) && i < |a|
    ensures a[i] == b[i]
  {
    var n := RowBytes(width);
    var y, j := RowOfByte(n, |rows|, i);
    ByteInRow(a, n, |rows|, i, y, j);
    ByteInRow(b, n, |rows|, i, y, j);
    PacksIsUnique(RowOf(a, n, |rows|, y), RowOf(b, n, |rows|, y), rows[y]);
  }

  lemma ByteInRow(data: Bytes, n: nat, height: nat, i: nat, y: nat, j: nat)
    requires |data| == n * height && i < |data| && y < height && j < n && i == n * (height - 1 - y) + j
    ensures data[i] == RowOf(data, n, height, y)[j]
  {
    RowInside(n, height, y);
    Inner(data, n * (height - 1 - y), n, j);
  }

  lemma Inner<T>(data: seq<T>, from: nat, n: nat, j: nat)
    requires from + n <= |data| && j < n
    ensures data[from..from + n][j] == data[from + j]
  {
  }

  lemma RowOfByte(n: nat, height: nat, i: nat) returns (y: nat, j: nat)
    requires i < n * height
    ensures y < height && j < n && i == n * (height - 1 - y) + j
  {
    var q := i / n;
    j := i % n;
    assert i == n * q + j;
    assert q >= height ==> n * q >= n * height;
    y := height - 1 - q;
  }

  /** Bits past the width are clear. */
  lemma PaddingIsClear(bytes: Bytes, img: Image, y: nat, x: nat)
    requires Shaped(img) && IsBmpOf(bytes, img) && y < img.height && img.width <= x < 8 * RowBytes(img.width)
    ensures !BitAt(RowOf(bytes[HEADER..], RowBytes(img.width), img.height, y), x)
  {
    assert Packs(RowOf(bytes[HEADER..], RowBytes(img.width), img.height, y), img.rows[y]);
  }

  /** Where the format keeps a pixel: column x of row y is one bit of one byte, the leftmost of
      eight in the highest place. */
  lemma PixelBit(bytes: Bytes, img: Image, x: nat, y: nat)
    requires Shaped(img) && IsBmpOf(bytes, img) && x < img.width && y < img.height
    ensures var at := HEADER + RowBytes(img.width) * (img.height - 1 - y) + x / 8;
      0 <= at < |bytes| && (bytes[at] / Pow2(7 - x % 8) % 2 == 1 <==> img.rows[y][x])
  {
    var n := RowBytes(img.width);
    var row := RowOf(bytes[HEADER..], n, img.height, y);
    assert Packs(row, img.rows[y]);
    assert BitAt(row, x) <==> img.rows[y][x];
    RowInside(n, img.height, y);
    Inner(bytes[HEADER..], n * (img.height - 1 - y), n, x / 8);
    BitsAre(row[x / 8], 8, x % 8);
  }
}
