/** One-bit pictures, ink cropping and the BMP encoding (src/print/godex/bmp.rs). */
module Bitmap {
  /** A picture by rows from the top; true is light, false is ink. */
  datatype Image = Image(width: nat, height: nat, rows: seq<seq<bool>>)

  predicate Shaped(img: Image) {
    |img.rows| == img.height && forall y :: 0 <= y < img.height ==> |img.rows[y]| == img.width
  }

  predicate Inside(img: Image, x: int, y: int) {
    0 <= x < img.width && 0 <= y < img.height
  }

  predicate Ink(img: Image, x: int, y: int)
    requires Shaped(img)
  {
    Inside(img, x, y) && !img.rows[y][x]
  }

  function Plain(width: nat, height: nat, light: bool): Image {
    Image(width, height, seq(height, _ => seq(width, _ => light)))
  }

  function Painted(img: Image, x: int, y: int, light: bool): (r: Image)
    requires Shaped(img)
    ensures Shaped(r) && r.width == img.width && r.height == img.height
    ensures forall p, q :: Inside(img, p, q) ==> r.rows[q][p] == if p == x && q == y then light else img.rows[q][p]
  {
    if Inside(img, x, y) then img.(rows := img.rows[y := img.rows[y][x := light]]) else img
  }

  /* ----- the flat pixel buffer ----- */

  function At(width: nat, x: nat, y: nat): nat {
    y * width + x
  }

  lemma AtInside(width: nat, height: nat, x: nat, y: nat)
    requires x < width && y < height
    ensures At(width, x, y) < width * height
  {
    assert (y + 1) * width <= height * width;
  }

  lemma AtInjective(width: nat, x: nat, y: nat, p: nat, q: nat)
    requires x < width && p < width && At(width, x, y) == At(width, p, q)
    ensures x == p && y == q
  {
    assert (y - q) * width == p - x;
    assert y - q >= 1 ==> (y - q) * width >= width;
    assert y - q <= -1 ==> (y - q) * width <= -1 * width;
  }

  function Row(width: nat, height: nat, pixels: seq<bool>, y: nat): (row: seq<bool>)
    requires |pixels| == width * height && y < height
    ensures |row| == width
    ensures forall x :: 0 <= x < width ==> At(width, x, y) < |pixels| && row[x] == pixels[At(width, x, y)]
  {
    assert (y + 1) * width <= height * width;
    pixels[y * width..y * width + width]
  }

  /** The picture whose rows stand one after another in `pixels`. */
  function ImageOf(width: nat, height: nat, pixels: seq<bool>): (img: Image)
    requires |pixels| == width * height
    ensures Shaped(img) && img.width == width && img.height == height
  {
    Image(width, height, seq(height, y requires 0 <= y < height => Row(width, height, pixels, y)))
  }

  class MonoBitmap {
    const width: nat
    const height: nat
    const pixels: array<bool>

    ghost predicate Valid() {
      pixels.Length == width * height
    }

    /** The picture held by the buffer. */
    ghost function View(): (img: Image)
      requires Valid()
      reads pixels
      ensures Shaped(img) && img.width == width && img.height == height
    {
      ImageOf(width, height, pixels[..])
    }

    constructor Filled(width: nat, height: nat, light: bool)
      ensures Valid() && fresh(pixels) && View() == Plain(width, height, light)
    {
      this.width, this.height := width, height;
      pixels := new bool[width * height](_ => light);
      new;
      SameImage(View(), Plain(width, height, light));
    }

    constructor CopyOf(src: MonoBitmap)
      requires src.Valid()
      ensures Valid() && fresh(pixels) && View() == src.View()
    {
      width, height := src.width, src.height;
      pixels := new bool[src.pixels.Length](i requires 0 <= i < src.pixels.Length reads src.pixels => src.pixels[i]);
      new;
      assert pixels[..] == src.pixels[..];
    }

    method SetLight(x: nat, y: nat, light: bool)
      requires Valid()
      modifies pixels
      ensures View() == Painted(old(View()), x, y, light)
    {
      if x >= width || y >= height {
        return;
      }
      AtInside(width, height, x, y);
      ghost var before := pixels[..];
      pixels[At(width, x, y)] := light;
      PaintedBuffer(width, height, before, x, y, light);
      assert pixels[..] == before[At(width, x, y) := light];
    }

    method IsLight(x: nat, y: nat) returns (light: bool)
      requires Valid() && x < width && y < height
      ensures light == View().rows[y][x]
    {
      AtInside(width, height, x, y);
      light := pixels[At(width, x, y)];
    }

    /** The picture cut down to its ink, one column wider on each side where there is one. */
    method CropInk() returns (out: MonoBitmap)
      requires Valid()
      ensures out.Valid() && fresh(out) && fresh(out.pixels)
      ensures IsCropOf(View(), out.View())
    {
      var box, found := FindInk();
      if !found {
        out := new MonoBitmap.CopyOf(this);
        return;
      }
      out := CopyBox(if box.x0 == 0 then 0 else box.x0 - 1, box.y0, Min(box.x1 + 1, width), box.y1);
      CropIsCut(View(), box);
    }

    method FindInk() returns (box: Box, found: bool)
      requires Valid()
      ensures found <==> HasInk(View())
      ensures found ==> IsInkBox(View(), box) && BoxInside(View(), Widened(View(), box))
    {
      ghost var img := View();
      var minX, minY, maxX, maxY := width, height, 0, 0;
      found := false;
      for y := 0 to height
        invariant Tracks(img, 0, y, Box(minX, minY, maxX, maxY), found)
      {
        for x := 0 to width
          invariant Tracks(img, x, y, Box(minX, minY, maxX, maxY), found)
        {
          var light := IsLight(x, y);
          TrackPixel(img, x, y, Box(minX, minY, maxX, maxY), found);
          if !light {
            minX, minY := Min(minX, x), Min(minY, y);
            maxX, maxY := Max(maxX, x + 1), Max(maxY, y + 1);
            found := true;
          }
        }
        TrackRow(img, y, Box(minX, minY, maxX, maxY), found);
      }
      box := Box(minX, minY, maxX, maxY);
      TrackedAll(img, box, found);
    }

    method CopyBox(x0: nat, y0: nat, x1: nat, y1: nat) returns (out: MonoBitmap)
      requires Valid() && BoxInside(View(), Box(x0, y0, x1, y1))
      ensures out.Valid() && fresh(out) && fresh(out.pixels)
      ensures out.View() == Cut(View(), Box(x0, y0, x1, y1))
    {
      out := new MonoBitmap.Filled(x1 - x0, y1 - y0, true);
      for y := y0 to y1
        invariant out.Valid() && fresh(out.pixels)
        invariant CopiedUpTo(View(), Box(x0, y0, x1, y1), out.View(), x0, y)
      {
        CopyRowTo(out, Box(x0, y0, x1, y1), y);
      }
      CopiedAll(View(), Box(x0, y0, x1, y1), out.View());
    }

    method CopyRowTo(out: MonoBitmap, box: Box, y: nat)
      requires Valid() && out.Valid() && pixels != out.pixels && BoxInside(View(), box) && box.y0 <= y < box.y1
      requires CopiedUpTo(View(), box, out.View(), box.x0, y)
      modifies out.pixels
      ensures CopiedUpTo(View(), box, out.View(), box.x0, y + 1)
    {
      for x := box.x0 to box.x1
        invariant CopiedUpTo(View(), box, out.View(), x, y)
      {
        var light := IsLight(x, y);
        CopyOne(View(), box, out.View(), x, y);
        out.SetLight(x - box.x0, y - box.y0, light);
      }
      CopyRow(View(), box, out.View(), y);
    }
  }

  function Min(a: nat, b: nat): nat {
    if a <= b then a else b
  }

  function Max(a: nat, b: nat): nat {
    if a >= b then a else b
  }

  /* ----- the ink box ----- */

  /** Columns x0 up to x1 and rows y0 up to y1, the upper bounds excluded. */
  datatype Box = Box(x0: nat, y0: nat, x1: nat, y1: nat)

  ghost predicate HasInk(img: Image)
    requires Shaped(img)
  {
    exists x, y :: Ink(img, x, y)
  }

  ghost predicate InkInColumn(img: Image, x: int)
    requires Shaped(img)
  {
    exists y :: Ink(img, x, y)
  }

  ghost predicate InkInRow(img: Image, y: int)
    requires Shaped(img)
  {
    exists x :: Ink(img, x, y)
  }

  /** `box` holds all the ink, and ink touches each of its four sides. */
  ghost predicate IsInkBox(img: Image, box: Box)
    requires Shaped(img)
  {
    && (forall x, y :: Ink(img, x, y) ==> box.x0 <= x < box.x1 && box.y0 <= y < box.y1)
    && InkInColumn(img, box.x0) && InkInColumn(img, box.x1 - 1)
    && InkInRow(img, box.y0) && InkInRow(img, box.y1 - 1)
  }

  lemma InkBoxIsUnique(img: Image, a: Box, b: Box)
    requires Shaped(img) && IsInkBox(img, a) && IsInkBox(img, b)
    ensures a == b
  {
  }

  function Widened(img: Image, box: Box): Box {
    box.(x0 := if box.x0 == 0 then 0 else box.x0 - 1, x1 := Min(box.x1 + 1, img.width))
  }

  predicate BoxInside(img: Image, box: Box) {
    box.x0 <= box.x1 <= img.width && box.y0 <= box.y1 <= img.height
  }

  function Cut(img: Image, box: Box): (r: Image)
    requires Shaped(img) && BoxInside(img, box)
    ensures Shaped(r) && r.width == box.x1 - box.x0 && r.height == box.y1 - box.y0
    ensures forall x, y :: Inside(r, x, y) ==> r.rows[y][x] == img.rows[box.y0 + y][box.x0 + x]
  {
    Image(box.x1 - box.x0, box.y1 - box.y0,
          seq(box.y1 - box.y0, y requires 0 <= y < box.y1 - box.y0 => img.rows[box.y0 + y][box.x0..box.x1]))
  }

  ghost predicate IsCropOf(src: Image, out: Image)
    requires Shaped(src)
  {
    if HasInk(src) then
      exists box :: IsInkBox(src, box) && BoxInside(src, Widened(src, box)) && out == Cut(src, Widened(src, box))
    else out == src
  }

  /* ----- tracking the box through the scan ----- */

  /** The scan has passed (p, q) when it stands before (x, y). */
  predicate Passed(x: int, y: int, p: int, q: int) {
    q < y || (q == y && p < x)
  }

  /** `box` is the ink box of what the scan has passed, once it has passed ink. */
  ghost predicate Tracks(img: Image, x: nat, y: nat, box: Box, found: bool)
    requires Shaped(img)
  {
    && (forall p, q :: Ink(img, p, q) && Passed(x, y, p, q) ==>
          found && box.x0 <= p < box.x1 && box.y0 <= q < box.y1)
    && (found ==>
          && InkInColumn(img, box.x0) && InkInColumn(img, box.x1 - 1)
          && InkInRow(img, box.y0) && InkInRow(img, box.y1 - 1))
    && (!found ==> box == Box(img.width, img.height, 0, 0))
  }

  lemma TrackPixel(img: Image, x: nat, y: nat, box: Box, found: bool)
    requires Shaped(img) && Inside(img, x, y) && Tracks(img, x, y, box, found)
    ensures img.rows[y][x] ==> Tracks(img, x + 1, y, box, found)
    ensures !img.rows[y][x] ==>
      Tracks(img, x + 1, y, Box(Min(box.x0, x), Min(box.y0, y), Max(box.x1, x + 1), Max(box.y1, y + 1)), true)
  {
    if !img.rows[y][x] {
      assert Ink(img, x, y);
      assert InkInColumn(img, x) && InkInRow(img, y);
    }
  }

  lemma TrackRow(img: Image, y: nat, box: Box, found: bool)
    requires Shaped(img) && Tracks(img, img.width, y, box, found)
    ensures Tracks(img, 0, y + 1, box, found)
  {
    forall p, q | Ink(img, p, q) && Passed(0, y + 1, p, q)
      ensures found && box.x0 <= p < box.x1 && box.y0 <= q < box.y1
    {
      assert Passed(img.width, y, p, q);
    }
  }

  lemma TrackedAll(img: Image, box: Box, found: bool)
    requires Shaped(img) && Tracks(img, 0, img.height, box, found)
    ensures found <==> HasInk(img)
    ensures found ==> IsInkBox(img, box) && BoxInside(img, Widened(img, box)) && BoxInside(img, box)
  {
    forall p, q | Ink(img, p, q)
      ensures found && box.x0 <= p < box.x1 && box.y0 <= q < box.y1
    {
      assert Passed(0, img.height, p, q);
    }
  }

  ghost predicate CopiedUpTo(img: Image, box: Box, out: Image, x: nat, y: nat)
    requires Shaped(img) && BoxInside(img, box) && Shaped(out)
  {
    out.width == box.x1 - box.x0 && out.height == box.y1 - box.y0
    && forall p, q :: Inside(out, p, q) && Passed(x - box.x0, y - box.y0, p, q) ==>
         out.rows[q][p] == img.rows[box.y0 + q][box.x0 + p]
  }

  lemma CopyOne(img: Image, box: Box, out: Image, x: nat, y: nat)
    requires Shaped(img) && BoxInside(img, box) && Shaped(out) && CopiedUpTo(img, box, out, x, y)
    requires box.x0 <= x < box.x1 && box.y0 <= y < box.y1
    ensures CopiedUpTo(img, box, Painted(out, x - box.x0, y - box.y0, img.rows[y][x]), x + 1, y)
  {
  }

  lemma CopyRow(img: Image, box: Box, out: Image, y: nat)
    requires Shaped(img) && BoxInside(img, box) && Shaped(out) && CopiedUpTo(img, box, out, box.x1, y)
    ensures CopiedUpTo(img, box, out, box.x0, y + 1)
  {
    forall p, q | Inside(out, p, q) && Passed(0, y + 1 - box.y0, p, q)
      ensures out.rows[q][p] == img.rows[box.y0 + q][box.x0 + p]
    {
      assert Passed(box.x1 - box.x0, y - box.y0, p, q);
    }
  }

  lemma CopiedAll(img: Image, box: Box, out: Image)
    requires Shaped(img) && BoxInside(img, box) && Shaped(out)
    requires CopiedUpTo(img, box, out, box.x0, box.y1)
    ensures out == Cut(img, box)
  {
    SameImage(out, Cut(img, box));
  }

  /* ----- what cropping does ----- */

  lemma CropIsUnique(src: Image, a: Image, b: Image)
    requires Shaped(src) && IsCropOf(src, a) && IsCropOf(src, b)
    ensures a == b
  {
    if HasInk(src) {
      var p :| IsInkBox(src, p) && BoxInside(src, Widened(src, p)) && a == Cut(src, Widened(src, p));
      var q :| IsInkBox(src, q) && BoxInside(src, Widened(src, q)) && b == Cut(src, Widened(src, q));
      InkBoxIsUnique(src, p, q);
    }
  }

  lemma CropIsCut(src: Image, box: Box)
    requires Shaped(src) && IsInkBox(src, box) && BoxInside(src, Widened(src, box))
    ensures IsCropOf(src, Cut(src, Widened(src, box)))
  {
    var y :| Ink(src, box.x0, y);
  }

  lemma CutInk(img: Image, box: Box, x: int, y: int)
    requires Shaped(img) && BoxInside(img, box)
    ensures Ink(Cut(img, box), x, y) <==>
      0 <= x < box.x1 - box.x0 && 0 <= y < box.y1 - box.y0 && Ink(img, x + box.x0, y + box.y0)
  {
  }

  lemma InkInsideWidened(img: Image, box: Box, x: int, y: int)
    requires Shaped(img) && IsInkBox(img, box) && BoxInside(img, Widened(img, box)) && Ink(img, x, y)
    ensures var w := Widened(img, box); w.x0 <= x < w.x1 && w.y0 <= y < w.y1
  {
  }

  /** The ink of `out` is the ink of `src`, (dx, dy) nearer the corner. */
  ghost predicate InkMoved(src: Image, out: Image, dx: int, dy: int)
    requires Shaped(src) && Shaped(out)
  {
    forall x: int, y: int :: Ink(src, x, y) <==> Ink(out, x - dx, y - dy)
  }

  lemma PointMoves(src: Image, box: Box, w: Box, x: int, y: int)
    requires Shaped(src) && IsInkBox(src, box) && w == Widened(src, box) && BoxInside(src, w)
    ensures Ink(src, x, y) <==> Ink(Cut(src, w), x - w.x0, y - w.y0)
  {
    CutInk(src, w, x - w.x0, y - w.y0);
    if Ink(src, x, y) {
      InkInsideWidened(src, box, x, y);
    }
  }

  lemma CutMovesInk(src: Image, box: Box, w: Box)
    requires Shaped(src) && IsInkBox(src, box) && w == Widened(src, box) && BoxInside(src, w)
    ensures InkMoved(src, Cut(src, w), w.x0, w.y0)
  {
    forall x: int, y: int ensures Ink(src, x, y) <==> Ink(Cut(src, w), x - w.x0 as int, y - w.y0 as int) {
      PointMoves(src, box, w, x, y);
    }
  }

  /** The box an inked image was cropped along. */
  lemma CropBoxOf(src: Image, out: Image) returns (box: Box, w: Box)
    requires Shaped(src) && HasInk(src) && IsCropOf(src, out)
    ensures IsInkBox(src, box) && w == Widened(src, box) && BoxInside(src, w) && out == Cut(src, w)
  {
    box :| IsInkBox(src, box) && BoxInside(src, Widened(src, box)) && out == Cut(src, Widened(src, box));
    w := Widened(src, box);
  }

  /** Every drop of ink survives, moved by the corner that was cut away. */
  lemma CropKeepsInk(src: Image, out: Image) returns (dx: nat, dy: nat)
    requires Shaped(src) && IsCropOf(src, out)
    ensures Shaped(out) && InkMoved(src, out, dx, dy)
  {
    if !HasInk(src) {
      return 0, 0;
    }
    var box, w := CropBoxOf(src, out);
    CutMovesInk(src, box, w);
    return w.x0, w.y0;
  }

  lemma CroppedBox(src: Image, out: Image) returns (inner: Box)
    requires Shaped(src) && HasInk(src) && IsCropOf(src, out)
    ensures Shaped(out) && HasInk(out) && IsInkBox(out, inner)
    ensures Widened(out, inner) == Box(0, 0, out.width, out.height)
  {
    var box, w := CropBoxOf(src, out);
    inner := Box(box.x0 - w.x0, 0, box.x1 - w.x0, box.y1 - box.y0);
    CropBox(src, out, box, inner);
  }

  /** Light columns beside the ink: one where the source had a column there. */
  function Margin(hasColumn: bool): nat {
    if hasColumn then 1 else 0
  }

  lemma MarginsOf(src: Image, out: Image, box: Box, w: Box, inner: Box)
    requires w == Widened(src, box) && box.x0 < box.x1 <= src.width && box.y0 < box.y1
    requires out.width == w.x1 - w.x0 && out.height == w.y1 - w.y0
    requires w.x0 <= box.x0 && inner == Box(box.x0 - w.x0, 0, box.x1 - w.x0, box.y1 - box.y0)
    ensures var left, right := Margin(box.x0 > 0), Margin(box.x1 < src.width);
      && out.width == left + (box.x1 - box.x0) + right && out.height == box.y1 - box.y0
      && inner.x0 == left && inner.y0 == 0 && inner.x1 == out.width - right && inner.y1 == out.height
  {
  }

  lemma CroppedSize(src: Image, box: Box, w: Box)
    requires Shaped(src) && w == Widened(src, box) && BoxInside(src, w)
    ensures Cut(src, w).width == w.x1 - w.x0 && Cut(src, w).height == w.y1 - w.y0 && Shaped(Cut(src, w))
  {
  }

  /** The margins: the cropped picture begins and ends with a row of ink, and with one light column
      beside the ink on each side where the source had a column there, else with ink itself. */
  lemma CropMargins(src: Image, out: Image) returns (box: Box, inner: Box)
    requires Shaped(src) && HasInk(src) && IsCropOf(src, out)
    ensures Shaped(out) && IsInkBox(src, box) && IsInkBox(out, inner) && box.x1 <= src.width
    ensures var left, right := Margin(box.x0 > 0), Margin(box.x1 < src.width);
      && out.width == left + (box.x1 - box.x0) + right && out.height == box.y1 - box.y0
      && inner.x0 == left && inner.y0 == 0 && inner.x1 == out.width - right && inner.y1 == out.height
  {
    var w;
    box, w := CropBoxOf(src, out);
    InkBoxInside(src, box);
    CroppedSize(src, box, w);
    inner := Box(box.x0 - w.x0, 0, box.x1 - w.x0, box.y1 - box.y0);
    CropBox(src, out, box, inner);
    MarginsOf(src, out, box, w, inner);
  }

  lemma InkBoxInside(src: Image, box: Box)
    requires Shaped(src) && IsInkBox(src, box)
    ensures box.x0 < box.x1 <= src.width && box.y0 < box.y1 <= src.height
  {
    var y :| Ink(src, box.x1 - 1, y);
    var x :| Ink(src, x, box.y1 - 1);
  }

  /** Cropping a second time changes nothing. */
  lemma CropTwice(src: Image, once: Image, twice: Image)
    requires Shaped(src) && IsCropOf(src, once) && Shaped(once) && IsCropOf(once, twice)
    ensures twice == once
  {
    if HasInk(src) {
      var inner := CroppedBox(src, once);
      CutToItself(once, twice, inner);
    }
  }

  lemma CutToItself(img: Image, out: Image, box: Box)
    requires Shaped(img) && HasInk(img) && IsCropOf(img, out)
    requires IsInkBox(img, box) && Widened(img, box) == Box(0, 0, img.width, img.height)
    ensures out == img
  {
    var other, w := CropBoxOf(img, out);
    InkBoxIsUnique(img, box, other);
    SameImage(out, img);
  }

  /** The ink box of the cropped picture is that of the source, moved with the ink. */
  lemma CropBox(src: Image, out: Image, box: Box, inner: Box)
    requires Shaped(src) && IsInkBox(src, box) && BoxInside(src, Widened(src, box))
    requires out == Cut(src, Widened(src, box))
    requires var dx := Widened(src, box).x0; inner == Box(box.x0 - dx, 0, box.x1 - dx, box.y1 - box.y0)
    ensures HasInk(out) && IsInkBox(out, inner) && Widened(out, inner) == Box(0, 0, out.width, out.height)
  {
    CutMovesInk(src, box, Widened(src, box));
    InkBoxMoved(src, out, box, Widened(src, box).x0, box.y0, inner);
    assert InkInColumn(out, inner.x0);
  }

  lemma InkBoxMoved(src: Image, out: Image, box: Box, dx: nat, dy: nat, inner: Box)
    requires Shaped(src) && Shaped(out) && IsInkBox(src, box) && InkMoved(src, out, dx, dy)
    requires inner.x0 == box.x0 - dx && inner.y0 == box.y0 - dy && inner.x1 == box.x1 - dx && inner.y1 == box.y1 - dy
    ensures IsInkBox(out, inner)
  {
    MovedSides(src, out, box, dx, dy);
    forall x, y | Ink(out, x, y)
      ensures inner.x0 <= x < inner.x1 && inner.y0 <= y < inner.y1
    {
      assert Ink(src, x + dx, y + dy) <==> Ink(out, x + dx - dx, y + dy - dy);
    }
  }

  lemma MovedSides(src: Image, out: Image, box: Box, dx: int, dy: int)
    requires Shaped(src) && Shaped(out) && IsInkBox(src, box)
    requires InkMoved(src, out, dx, dy)
    ensures InkInColumn(out, box.x0 - dx) && InkInColumn(out, box.x1 - 1 - dx)
    ensures InkInRow(out, box.y0 - dy) && InkInRow(out, box.y1 - 1 - dy)
  {
    var ya :| Ink(src, box.x0, ya);
    var yb :| Ink(src, box.x1 - 1, yb);
    var xa :| Ink(src, xa, box.y0);
    var xb :| Ink(src, xb, box.y1 - 1);
    assert Ink(out, box.x0 - dx, ya - dy) && Ink(out, box.x1 - 1 - dx, yb - dy);
    assert Ink(out, xa - dx, box.y0 - dy) && Ink(out, xb - dx, box.y1 - 1 - dy);
  }

  lemma SameImage(a: Image, b: Image)
    requires Shaped(a) && Shaped(b) && a.width == b.width && a.height == b.height
    requires forall x, y :: Inside(a, x, y) ==> a.rows[y][x] == b.rows[y][x]
    ensures a == b
  {
    forall y | 0 <= y < a.height ensures a.rows[y] == b.rows[y] {
      forall x | 0 <= x < a.width ensures a.rows[y][x] == b.rows[y][x] {
        assert Inside(a, x, y);
      }
    }
  }

  lemma PaintedBuffer(width: nat, height: nat, pixels: seq<bool>, x: nat, y: nat, light: bool)
    requires |pixels| == width * height && x < width && y < height && At(width, x, y) < |pixels|
    ensures ImageOf(width, height, pixels[At(width, x, y) := light])
         == Painted(ImageOf(width, height, pixels), x, y, light)
  {
    var before, after := ImageOf(width, height, pixels), ImageOf(width, height, pixels[At(width, x, y) := light]);
    forall p, q | Inside(before, p, q)
      ensures after.rows[q][p] == if p == x && q == y then light else before.rows[q][p]
    {
      assert At(width, p, q) < |pixels|;
      if At(width, p, q) == At(width, x, y) {
        AtInjective(width, p, q, x, y);
      }
    }
    SameImage(after, Painted(before, x, y, light));
  }
}
