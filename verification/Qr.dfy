/** Drawing a QR symbol into a square picture (src/print/godex/qr.rs). */
module Qr {
  import opened Text
  import opened Bitmap
  import opened Bmp

  /** The modules of a symbol, row by row; true is dark. */
  datatype Matrix = Matrix(size: nat, dark: seq<seq<bool>>)

  predicate Square(m: Matrix) {
    |m.dark| == m.size && forall y :: 0 <= y < m.size ==> |m.dark[y]| == m.size
  }

  predicate Dark(m: Matrix, x: int, y: int)
    requires Square(m)
  {
    0 <= x < m.size && 0 <= y < m.size && m.dark[y][x]
  }

  const QUIET: nat := 4

  /** How a symbol of `size` modules lies in a box. */
  datatype Layout = Layout(size: nat, box: nat, dots: nat, offset: nat)

  function Modules(size: nat): nat {
    size + 2 * QUIET
  }

  function LayOut(size: nat, box: nat): (l: Layout)
    ensures l.dots >= 1
  {
    var dots := Max(box / Modules(size), 1);
    var drawn := Modules(size) * dots;
    Layout(size, box, dots, (if drawn <= box then box - drawn else 0) / 2)
  }

  /** First dot of module `x`, along either side. */
  function Start(l: Layout, x: nat): nat {
    l.offset + (x + QUIET) * l.dots
  }

  /** The module a dot belongs to; below 0 or past the size outside the symbol. */
  function ModuleAt(l: Layout, p: int): int
    requires l.dots >= 1
  {
    (p - l.offset) / l.dots - QUIET
  }

  lemma DotInModule(l: Layout, p: int, x: nat)
    requires l.dots >= 1
    ensures ModuleAt(l, p) == x <==> Start(l, x) <= p < Start(l, x) + l.dots
  {
    var q, k := p - l.offset, x + QUIET;
    var d := q / l.dots;
    assert q == d * l.dots + q % l.dots;
    if d < k {
      Spread(d, k, l.dots);
    } else if k < d {
      Spread(k, d, l.dots);
    }
  }

  lemma Spread(a: int, b: int, dots: nat)
    requires a < b
    ensures a * dots + dots <= b * dots
  {
    assert (b - a - 1) * dots >= 0;
  }

  /** `img` shows exactly the dark modules. */
  ghost predicate Shows(img: Image, m: Matrix, l: Layout)
    requires Shaped(img) && Square(m) && l.dots >= 1
  {
    img.width == img.height == l.box
    && forall p, q :: Inside(img, p, q) ==> (Ink(img, p, q) <==> Dark(m, ModuleAt(l, p), ModuleAt(l, q)))
  }

  /* ----- drawing ----- */

  predicate InSquare(x: int, y: int, dots: nat, p: int, q: int) {
    x <= p < x + dots && y <= q < y + dots
  }

  /** `img` is `before` with the dots of a square inked up to row `dy`, column `dx`. */
  ghost predicate FilledUpTo(before: Image, img: Image, x: nat, y: nat, dots: nat, dx: nat, dy: nat)
    requires Shaped(before) && Shaped(img)
  {
    img.width == before.width && img.height == before.height
    && forall p, q :: Inside(img, p, q) ==>
         (Ink(img, p, q) <==> Ink(before, p, q) || (InSquare(x, y, dots, p, q) && Passed(x + dx, y + dy, p, q)))
  }

  lemma FillDot(before: Image, img: Image, x: nat, y: nat, dots: nat, dx: nat, dy: nat)
    requires Shaped(before) && Shaped(img) && dx < dots && dy < dots
    requires FilledUpTo(before, img, x, y, dots, dx, dy)
    ensures FilledUpTo(before, Painted(img, x + dx, y + dy, false), x, y, dots, dx + 1, dy)
  {
  }

  lemma FillRow(before: Image, img: Image, x: nat, y: nat, dots: nat, dy: nat)
    requires Shaped(before) && Shaped(img) && FilledUpTo(before, img, x, y, dots, dots, dy)
    ensures FilledUpTo(before, img, x, y, dots, 0, dy + 1)
  {
    forall p, q | Inside(img, p, q)
      ensures Ink(img, p, q) <==> Ink(before, p, q) || (InSquare(x, y, dots, p, q) && Passed(x, y + dy + 1, p, q))
    {
      assert InSquare(x, y, dots, p, q) ==> (Passed(x, y + dy + 1, p, q) <==> Passed(x + dots, y + dy, p, q));
    }
  }

  method FillSquare(bitmap: MonoBitmap, x: nat, y: nat, dots: nat)
    requires bitmap.Valid()
    modifies bitmap.pixels
    ensures bitmap.View().width == old(bitmap.View().width) && bitmap.View().height == old(bitmap.View().height)
    ensures forall p, q :: Inside(bitmap.View(), p, q) ==>
      (Ink(bitmap.View(), p, q) <==> old(Ink(bitmap.View(), p, q)) || InSquare(x, y, dots, p, q))
  {
    ghost var before := bitmap.View();
    for dy := 0 to dots
      invariant FilledUpTo(before, bitmap.View(), x, y, dots, 0, dy)
    {
      for dx := 0 to dots
        invariant FilledUpTo(before, bitmap.View(), x, y, dots, dx, dy)
      {
        FillDot(before, bitmap.View(), x, y, dots, dx, dy);
        bitmap.SetLight(x + dx, y + dy, false);
      }
      FillRow(before, bitmap.View(), x, y, dots, dy);
    }
    FillDone(before, bitmap.View(), x, y, dots);
  }

  lemma FillDone(before: Image, img: Image, x: nat, y: nat, dots: nat)
    requires Shaped(before) && Shaped(img) && FilledUpTo(before, img, x, y, dots, 0, dots)
    ensures forall p, q :: Inside(img, p, q) ==> (Ink(img, p, q) <==> Ink(before, p, q) || InSquare(x, y, dots, p, q))
  {
    forall p, q | Inside(img, p, q)
      ensures Ink(img, p, q) <==> Ink(before, p, q) || InSquare(x, y, dots, p, q)
    {
      assert InSquare(x, y, dots, p, q) ==> Passed(x, y + dots, p, q);
    }
  }

  /** `img` shows the dark modules before module (x, y) in reading order. */
  ghost predicate DrawnUpTo(img: Image, m: Matrix, l: Layout, x: nat, y: nat)
    requires Shaped(img) && Square(m) && l.dots >= 1
  {
    img.width == img.height == l.box
    && forall p, q :: Inside(img, p, q) ==>
         (Ink(img, p, q) <==> Dark(m, ModuleAt(l, p), ModuleAt(l, q)) && Passed(x, y, ModuleAt(l, p), ModuleAt(l, q)))
  }

  lemma DrawModule(before: Image, img: Image, m: Matrix, l: Layout, x: nat, y: nat)
    requires Shaped(before) && Shaped(img) && Square(m) && l.dots >= 1 && x < m.size && y < m.size
    requires DrawnUpTo(before, m, l, x, y) && img.width == before.width && img.height == before.height
    requires forall p, q :: Inside(img, p, q) ==>
      (Ink(img, p, q) <==> Ink(before, p, q) || (m.dark[y][x] && InSquare(Start(l, x), Start(l, y), l.dots, p, q)))
    ensures DrawnUpTo(img, m, l, x + 1, y)
  {
    forall p, q | Inside(img, p, q)
      ensures Ink(img, p, q) <==>
        Dark(m, ModuleAt(l, p), ModuleAt(l, q)) && Passed(x + 1, y, ModuleAt(l, p), ModuleAt(l, q))
    {
      DotInModule(l, p, x);
      DotInModule(l, q, y);
    }
  }

  lemma DrawRow(img: Image, m: Matrix, l: Layout, y: nat)
    requires Shaped(img) && Square(m) && l.dots >= 1 && DrawnUpTo(img, m, l, m.size, y)
    ensures DrawnUpTo(img, m, l, 0, y + 1)
  {
    forall p, q | Inside(img, p, q)
      ensures Ink(img, p, q) <==>
        Dark(m, ModuleAt(l, p), ModuleAt(l, q)) && Passed(0, y + 1, ModuleAt(l, p), ModuleAt(l, q))
    {
      assert Dark(m, ModuleAt(l, p), ModuleAt(l, q)) ==>
        (Passed(0, y + 1, ModuleAt(l, p), ModuleAt(l, q)) <==> Passed(m.size, y, ModuleAt(l, p), ModuleAt(l, q)));
    }
  }

  method DrawMatrix(m: Matrix, box: nat) returns (bitmap: MonoBitmap)
    requires Square(m)
    ensures bitmap.Valid() && Shows(bitmap.View(), m, LayOut(m.size, box))
  {
    var l := LayOut(m.size, box);
    bitmap := new MonoBitmap.Filled(box, box, true);
    for y := 0 to m.size
      invariant bitmap.Valid() && fresh(bitmap.pixels) && DrawnUpTo(bitmap.View(), m, l, 0, y)
    {
      for x := 0 to m.size
        invariant bitmap.Valid() && fresh(bitmap.pixels) && DrawnUpTo(bitmap.View(), m, l, x, y)
      {
        ghost var before := bitmap.View();
        if m.dark[y][x] {
          FillSquare(bitmap, Start(l, x), Start(l, y), l.dots);
        }
        DrawModule(before, bitmap.View(), m, l, x, y);
      }
      DrawRow(bitmap.View(), m, l, y);
    }
    DrawDone(bitmap.View(), m, l);
  }

  lemma DrawDone(img: Image, m: Matrix, l: Layout)
    requires Shaped(img) && Square(m) && l.dots >= 1 && DrawnUpTo(img, m, l, 0, m.size)
    ensures Shows(img, m, l)
  {
  }

  datatype QrError = EmptyPayload | BoxNotPositive | BuildFailed

  /** `encoded` is what the QR library makes of the payload. */
  method RenderQrGraphic(payload: string, encoded: Option<Matrix>, boxDots: int) returns (r: Result<Bytes, QrError>)
    requires encoded.Some? ==> Square(encoded.value)
    ensures payload == "" ==> r == Err(EmptyPayload)
    ensures payload != "" && boxDots <= 0 ==> r == Err(BoxNotPositive)
    ensures payload != "" && boxDots > 0 && encoded.None? ==> r == Err(BuildFailed)
    ensures payload != "" && boxDots > 0 && encoded.Some? ==>
      r.Ok? && exists img :: Shaped(img) && IsBmpOf(r.value, img)
                     && Shows(img, encoded.value, LayOut(encoded.value.size, boxDots))
  {
    if payload == "" {
      return Err(EmptyPayload);
    }
    if boxDots <= 0 {
      return Err(BoxNotPositive);
    }
    if encoded.None? {
      return Err(BuildFailed);
    }
    var bitmap := DrawMatrix(encoded.value, boxDots);
    var bytes := EncodeMonoBmp(bitmap);
    return Ok(bytes);
  }

  /* ----- what the picture keeps of the symbol ----- */

  predicate InBox(l: Layout, x: nat) {
    Start(l, x) + l.dots <= l.box
  }

  lemma LaidOutInside(size: nat, box: nat)
    requires box >= Modules(size)
    ensures var l := LayOut(size, box);
      Start(l, size) + QUIET * l.dots <= box && l.offset + QUIET * l.dots == Start(l, 0)
  {
    var count := Modules(size);
    var dots := box / count;
    assert box == count * dots + box % count;
    assert dots <= 0 ==> count * dots <= 0;
    assert (size + QUIET) * dots + QUIET * dots == count * dots;
  }

  /** No module is clipped exactly when the box has room for the modules and one
      quiet zone; smaller boxes draw one dot per module from the corner. */
  lemma ClippedIff(size: nat, box: nat)
    requires size > 0
    ensures (forall x :: 0 <= x < size ==> InBox(LayOut(size, box), x)) <==> box >= size + QUIET
  {
    var l := LayOut(size, box);
    if box >= Modules(size) {
      LaidOutInside(size, box);
      forall x | 0 <= x < size ensures InBox(l, x) {
        Spread(x + QUIET, size + QUIET, l.dots);
      }
    } else {
      TooSmall(size, box);
      assert box < size + QUIET ==> !InBox(l, size - 1);
    }
  }

  lemma TooSmall(size: nat, box: nat)
    requires box < Modules(size)
    ensures LayOut(size, box) == Layout(size, box, 1, 0)
  {
    assert box / Modules(size) == 0;
  }

  /** The quiet zone of section 6.3.8 of ISO/IEC 18004:2015: in a box of at least
      the module count, four modules' width on every side stays light. */
  lemma QuietZone(img: Image, m: Matrix, box: nat, p: int, q: int)
    requires Shaped(img) && Square(m) && box >= Modules(m.size)
    requires Shows(img, m, LayOut(m.size, box)) && Inside(img, p, q)
    requires var margin := QUIET * LayOut(m.size, box).dots;
      p < margin || p >= box - margin || q < margin || q >= box - margin
    ensures !Ink(img, p, q)
  {
    var l := LayOut(m.size, box);
    LaidOutInside(m.size, box);
    if Ink(img, p, q) {
      DotInModule(l, p, ModuleAt(l, p));
      DotInModule(l, q, ModuleAt(l, q));
      InsideSymbol(l, ModuleAt(l, p));
      InsideSymbol(l, ModuleAt(l, q));
    }
  }

  lemma InsideSymbol(l: Layout, x: nat)
    requires x < l.size
    ensures Start(l, 0) <= Start(l, x) && Start(l, x) + l.dots <= Start(l, l.size)
  {
    Spread(x + QUIET, l.size + QUIET, l.dots);
    assert QUIET * l.dots <= (x + QUIET) * l.dots;
  }

  lemma SampleModule(img: Image, m: Matrix, box: nat, x: nat, y: nat)
    requires Shaped(img) && Square(m) && Shows(img, m, LayOut(m.size, box))
    requires x < m.size && y < m.size && box >= m.size + QUIET
    ensures var l := LayOut(m.size, box);
      Inside(img, Start(l, x), Start(l, y)) && (Ink(img, Start(l, x), Start(l, y)) <==> m.dark[y][x])
  {
    var l := LayOut(m.size, box);
    ClippedIff(m.size, box);
    assert InBox(l, x) && InBox(l, y);
    DotInModule(l, Start(l, x), x);
    DotInModule(l, Start(l, y), y);
  }

  /** Sampling one dot per module of the decoded file recovers the whole matrix. */
  lemma MatrixRecovered(bytes: Bytes, img: Image, m: Matrix, box: nat)
    requires Shaped(img) && Square(m) && Shows(img, m, LayOut(m.size, box)) && FitsBmp(img) && IsBmpOf(bytes, img)
    requires box >= m.size + QUIET
    ensures Read32(bytes, 18) == Read32(bytes, 22) == box && Decode(bytes) == img
    ensures var l := LayOut(m.size, box);
      forall x, y :: 0 <= x < m.size && 0 <= y < m.size ==>
        Inside(img, Start(l, x), Start(l, y)) && (Ink(Decode(bytes), Start(l, x), Start(l, y)) <==> m.dark[y][x])
  {
    DecodeInvertsEncode(bytes, img);
    forall x, y | 0 <= x < m.size && 0 <= y < m.size
      ensures var l := LayOut(m.size, box);
        Inside(img, Start(l, x), Start(l, y)) && (Ink(img, Start(l, x), Start(l, y)) <==> m.dark[y][x])
    {
      SampleModule(img, m, box, x, y);
    }
  }

  /* ----- how large the symbol is, and where it stands ----- */

  lemma WidestFit(box: nat, count: nat)
    requires count > 0
    ensures box / count * count <= box < (box / count + 1) * count
  {
    assert box == count * (box / count) + box % count;
  }

  lemma AtLeastOne(box: nat, count: nat)
    requires 0 < count <= box
    ensures box / count >= 1
  {
    var d := box / count;
    assert box == count * d + box % count;
    assert d <= 0 ==> count * d <= 0;
  }

  /** In a box of at least the module count, quiet zones included, a module takes the most dots that
      fit, and the drawn area stands in the middle: the space before and behind it differs by at
      most one dot. In a smaller box a module takes one dot and drawing starts at the edge. */
  lemma ScaleAndCentre(size: nat, box: nat)
    ensures var l, count := LayOut(size, box), size + 8;
      && l.size == size && l.box == box
      && (box >= count ==>
            && l.dots >= 1 && l.dots * count <= box < (l.dots + 1) * count
            && l.offset <= box - l.dots * count - l.offset <= l.offset + 1)
      && (box < count ==> l.dots == 1 && l.offset == 0)
  {
    var count := size + 8;
    WidestFit(box, count);
    if box < count {
      TooSmall(size, box);
    } else {
      AtLeastOne(box, count);
    }
  }

  /** There is only one such scale and place. */
  lemma ScaleIsUnique(box: nat, count: nat, a: nat, b: nat)
    requires count > 0 && a * count <= box < (a + 1) * count && b * count <= box < (b + 1) * count
    ensures a == b
  {
    if a < b {
      Spread(a, b, count);
    } else if b < a {
      Spread(b, a, count);
    }
  }

  /** `dots` and `margin` are the scale and the place of a symbol in a box, by arithmetic alone. */
  predicate ScaledTo(size: nat, box: nat, dots: nat, margin: nat) {
    && dots * (size + 8) <= box < (dots + 1) * (size + 8)
    && margin <= box - dots * (size + 8) - margin <= margin + 1
  }

  lemma ScaledIsLaidOut(size: nat, box: nat, dots: nat, margin: nat)
    requires box >= size + 8 && ScaledTo(size, box, dots, margin)
    ensures LayOut(size, box) == Layout(size, box, dots, margin)
  {
    ScaleAndCentre(size, box);
    ScaleIsUnique(box, size + 8, dots, LayOut(size, box).dots);
  }

  /** The picture of a symbol, told from the box alone: every module is a square of the most dots that
      fit, behind four modules of quiet zone and the space that centres the whole. */
  lemma ModuleIsSquare(img: Image, m: Matrix, box: nat, dots: nat, margin: nat, x: nat, y: nat, dx: nat, dy: nat)
    requires Shaped(img) && Square(m) && Shows(img, m, LayOut(m.size, box))
    requires box >= m.size + 8 && ScaledTo(m.size, box, dots, margin)
    requires x < m.size && y < m.size && dx < dots && dy < dots
    ensures SquareAt(img, m, margin + (x + 4) * dots + dx, margin + (y + 4) * dots + dy, x, y)
  {
    ScaledIsLaidOut(m.size, box, dots, margin);
    SquareShows(img, m, box, x, y, dx, dy);
  }

  /** And there is no ink but in the squares of dark modules. */
  lemma InkIsInSquares(img: Image, m: Matrix, box: nat, dots: nat, margin: nat, p: int, q: int)
    returns (x: nat, y: nat)
    requires Shaped(img) && Square(m) && Shows(img, m, LayOut(m.size, box))
    requires box >= m.size + 8 && ScaledTo(m.size, box, dots, margin) && Ink(img, p, q)
    ensures Dark(m, x, y)
    ensures margin + (x + 4) * dots <= p < margin + (x + 4) * dots + dots
    ensures margin + (y + 4) * dots <= q < margin + (y + 4) * dots + dots
  {
    ScaledIsLaidOut(m.size, box, dots, margin);
    var l := LayOut(m.size, box);
    x, y := ModuleAt(l, p), ModuleAt(l, q);
    DotInModule(l, p, x);
    DotInModule(l, q, y);
  }

  /** In a box too small for the quiet zones a module is the one dot four places in. */
  lemma SmallBoxPicture(img: Image, m: Matrix, box: nat, p: nat, q: nat)
    requires Shaped(img) && Square(m) && Shows(img, m, LayOut(m.size, box)) && box < m.size + 8
    requires Inside(img, p, q)
    ensures Ink(img, p, q) <==> Dark(m, p - 4, q - 4)
  {
    ScaleAndCentre(m.size, box);
    OneDot(LayOut(m.size, box), p);
    OneDot(LayOut(m.size, box), q);
  }

  lemma OneDot(l: Layout, p: nat)
    requires l.dots == 1 && l.offset == 0
    ensures ModuleAt(l, p) == p - 4
  {
  }

  /** The dot (p, q) is in the picture and shows module (x, y). */
  predicate SquareAt(img: Image, m: Matrix, p: int, q: int, x: nat, y: nat)
    requires Shaped(img) && Square(m) && x < m.size && y < m.size
  {
    Inside(img, p, q) && (Ink(img, p, q) <==> m.dark[y][x])
  }

  lemma SquareShows(img: Image, m: Matrix, box: nat, x: nat, y: nat, dx: nat, dy: nat)
    requires Shaped(img) && Square(m) && Shows(img, m, LayOut(m.size, box)) && box >= m.size + 8
    requires x < m.size && y < m.size && dx < LayOut(m.size, box).dots && dy < LayOut(m.size, box).dots
    ensures var l := LayOut(m.size, box);
      SquareAt(img, m, Start(l, x) + dx, Start(l, y) + dy, x, y)
  {
    var l := LayOut(m.size, box);
    ClippedIff(m.size, box);
    assert InBox(l, x) && InBox(l, y);
    DotInModule(l, Start(l, x) + dx, x);
    DotInModule(l, Start(l, y) + dy, y);
  }
}
