/** The preview canvas: how the image is fitted into it, how a click on it
    is mapped back to an image pixel, and the checkerboard drawn behind
    transparent images. */
module Preview {
  import opened Pixels

  function MinReal(a: real, b: real): real {
    if a <= b then a else b
  }

  /** Python's `int()` on a float: truncation toward zero, not floor. */
  function Trunc(r: real): (t: int)
    ensures r >= 0.0 ==> t >= 0 && t as real <= r < t as real + 1.0
    ensures r < 0.0 ==> t <= 0 && t as real - 1.0 < r <= t as real
  {
    if r >= 0.0 then r.Floor else -((-r).Floor)
  }

  /** Where the image is drawn: shrunk by `scale` to `displayWidth` by
      `displayHeight` pixels, with its top-left corner at the offset. */
  datatype Layout = Layout(scale: real, displayWidth: int, displayHeight: int, offsetX: int, offsetY: int)

  /** A side of `n` pixels shrunk by `scale`, truncated, fits both itself
      and the canvas side `c` it was fitted to. */
  lemma ScaledFits(n: int, c: int, scale: real)
    requires n >= 1 && c >= 1 && 0.0 < scale <= 1.0 && scale <= c as real / n as real
    ensures 0 <= Trunc(n as real * scale) <= n && Trunc(n as real * scale) <= c
  {
    assert n as real * scale <= n as real * (c as real / n as real);
    assert 0.0 <= n as real * scale <= n as real;
  }

  /** The smallest of canvas/image on each axis and 1 lies in (0, 1] and is
      one of the three. */
  lemma FitScale(w: int, h: int, cw: int, ch: int)
    requires w >= 1 && h >= 1 && cw >= 1 && ch >= 1
    ensures var scale := MinReal(MinReal(cw as real / w as real, ch as real / h as real), 1.0);
      && 0.0 < scale <= 1.0
      && scale <= cw as real / w as real && scale <= ch as real / h as real
      && (scale == 1.0 || scale == cw as real / w as real || scale == ch as real / h as real)
  {
    assert cw as real / w as real > 0.0 && ch as real / h as real > 0.0;
  }

  /** Floor division by 2 of the spare space centres a side of `d` in `c`,
      with the odd pixel left over on the far side. */
  lemma Centred(c: int, d: int)
    requires 0 <= d <= c
    ensures 0 <= (c - d) / 2 && (2 * ((c - d) / 2) + d == c || 2 * ((c - d) / 2) + d == c - 1)
  {
  }

  /** Fit a `w` by `h` image into a `cw` by `ch` canvas: never enlarged,
      shrunk just enough to fit, display size truncated, centred. */
  function FitLayout(w: int, h: int, cw: int, ch: int): (l: Layout)
    requires w >= 1 && h >= 1 && cw >= 1 && ch >= 1
    ensures 0.0 < l.scale <= 1.0
    ensures l.scale <= cw as real / w as real && l.scale <= ch as real / h as real
    ensures l.scale == 1.0 || l.scale == cw as real / w as real || l.scale == ch as real / h as real
    ensures l.displayWidth == Trunc(w as real * l.scale) && l.displayHeight == Trunc(h as real * l.scale)
    ensures 0 <= l.displayWidth <= w && 0 <= l.displayHeight <= h
    ensures 0 <= l.offsetX && (2 * l.offsetX + l.displayWidth == cw || 2 * l.offsetX + l.displayWidth == cw - 1)
    ensures 0 <= l.offsetY && (2 * l.offsetY + l.displayHeight == ch || 2 * l.offsetY + l.displayHeight == ch - 1)
  {
    var scale := MinReal(MinReal(cw as real / w as real, ch as real / h as real), 1.0);
    FitScale(w, h, cw, ch);
    ScaledFits(w, cw, scale);
    ScaledFits(h, ch, scale);
    var displayWidth := Trunc(w as real * scale);
    var displayHeight := Trunc(h as real * scale);
    Centred(cw, displayWidth);
    Centred(ch, displayHeight);
    Layout(scale, displayWidth, displayHeight, (cw - displayWidth) / 2, (ch - displayHeight) / 2)
  }

  /** The image pixel under canvas point (cx, cy), or None when the point
      falls outside the image. */
  function CanvasToImageCoords(w: int, h: int, cw: int, ch: int, cx: real, cy: real): (r: Option<Pos>)
    requires w >= 1 && h >= 1 && cw >= 1 && ch >= 1
    ensures r.Some? ==> InBounds(w, h, r.value)
  {
    var l := FitLayout(w, h, cw, ch);
    var x := Trunc((cx - l.offsetX as real) / l.scale);
    var y := Trunc((cy - l.offsetY as real) / l.scale);
    if x < 0 || x >= w || y < 0 || y >= h then None else Some((x, y))
  }

  /** The canvas coordinates along one axis that truncation maps to image
      coordinate `i` (i >= 0): the i-th scaled pixel, and for i = 0 also the
      scaled pixel just before the image edge. */
  predicate Covers(offset: int, scale: real, i: int, c: real) {
    && (if i == 0 then offset as real - scale < c else offset as real + i as real * scale <= c)
    && c < offset as real + (i + 1) as real * scale
  }

  lemma DivBounds(a: real, s: real, k: real)
    requires s > 0.0
    ensures k <= a / s <==> k * s <= a
    ensures k < a / s <==> k * s < a
    ensures a / s < k <==> a < k * s
  {
    assert (a / s) * s == a;
    if k <= a / s {
      assert k * s <= (a / s) * s;
    }
    if k < a / s {
      assert k * s < (a / s) * s;
    }
    if k * s <= a {
      assert k <= a / s;
    }
  }

  /** Truncation in terms of bounds on its argument, for i >= 0. */
  lemma TruncIs(r: real, i: int)
    requires i >= 0
    ensures i >= 1 ==> (Trunc(r) == i <==> i as real <= r < (i + 1) as real)
    ensures i == 0 ==> (Trunc(r) == 0 <==> -1.0 < r < 1.0)
  {
  }

  /** Dividing the distance from `offset` by `scale` compares with `k`
      as the canvas position compares with `offset + k * scale`. */
  lemma ScaledBound(offset: int, scale: real, k: real, c: real)
    requires scale > 0.0
    ensures k <= (c - offset as real) / scale <==> offset as real + k * scale <= c
    ensures k < (c - offset as real) / scale <==> offset as real + k * scale < c
    ensures (c - offset as real) / scale < k <==> c < offset as real + k * scale
  {
    DivBounds(c - offset as real, scale, k);
  }

  /** One axis of the inverse mapping: coordinate i >= 0 is what a canvas
      position maps to exactly when the position is covered by i. */
  lemma {:induction false} TruncAxis(offset: int, scale: real, i: int, c: real)
    requires scale > 0.0 && i >= 0
    ensures Trunc((c - offset as real) / scale) == i <==> Covers(offset, scale, i, c)
  {
    TruncIs((c - offset as real) / scale, i);
    ScaledBound(offset, scale, (i + 1) as real, c);
    if i == 0 {
      ScaledBound(offset, scale, -1.0, c);
    } else {
      ScaledBound(offset, scale, i as real, c);
    }
  }

  /** The inverse mapping, both directions: a click yields pixel (x, y)
      exactly when (x, y) is in the image and the click lies in the canvas
      area truncation assigns to it. */
  lemma {:induction false} CanvasToImageCoordsExact(w: int, h: int, cw: int, ch: int, cx: real, cy: real, p: Pos)
    requires w >= 1 && h >= 1 && cw >= 1 && ch >= 1
    ensures var l := FitLayout(w, h, cw, ch);
      CanvasToImageCoords(w, h, cw, ch, cx, cy) == Some(p) <==>
        InBounds(w, h, p) && Covers(l.offsetX, l.scale, p.0, cx) && Covers(l.offsetY, l.scale, p.1, cy)
  {
    var l := FitLayout(w, h, cw, ch);
    if p.0 >= 0 && p.1 >= 0 {
      TruncAxis(l.offsetX, l.scale, p.0, cx);
      TruncAxis(l.offsetY, l.scale, p.1, cy);
    }
  }

  /** The top-left corner `c` of the i-th scaled pixel maps back to i. */
  lemma {:induction false} CornerMapsBack(offset: int, scale: real, i: int, c: real)
    requires scale > 0.0 && i >= 0 && c == offset as real + i as real * scale
    ensures Trunc((c - offset as real) / scale) == i
  {
    assert (i + 1) as real * scale == i as real * scale + scale;
    assert i as real * scale >= 0.0;
    TruncAxis(offset, scale, i, c);
  }

  /** A click maps to the in-bounds pixel whose coordinates its offsets
      truncate to. */
  lemma ClickSelects(w: int, h: int, cw: int, ch: int, cx: real, cy: real, p: Pos)
    requires w >= 1 && h >= 1 && cw >= 1 && ch >= 1 && InBounds(w, h, p)
    requires Trunc((cx - FitLayout(w, h, cw, ch).offsetX as real) / FitLayout(w, h, cw, ch).scale) == p.0
    requires Trunc((cy - FitLayout(w, h, cw, ch).offsetY as real) / FitLayout(w, h, cw, ch).scale) == p.1
    ensures CanvasToImageCoords(w, h, cw, ch, cx, cy) == Some(p)
  {
  }

  /** The canvas point where the top-left corner of pixel `p` is drawn. */
  function CornerOf(l: Layout, p: Pos): (real, real) {
    (l.offsetX as real + p.0 as real * l.scale, l.offsetY as real + p.1 as real * l.scale)
  }

  lemma CornerOfMapsBack(l: Layout, p: Pos)
    requires l.scale > 0.0 && p.0 >= 0 && p.1 >= 0
    ensures Trunc((CornerOf(l, p).0 - l.offsetX as real) / l.scale) == p.0
    ensures Trunc((CornerOf(l, p).1 - l.offsetY as real) / l.scale) == p.1
  {
    CornerMapsBack(l.offsetX, l.scale, p.0, CornerOf(l, p).0);
    CornerMapsBack(l.offsetY, l.scale, p.1, CornerOf(l, p).1);
  }

  /** Round trip: clicking the top-left corner of pixel (x, y) as drawn
      selects (x, y). */
  lemma {:induction false} PixelCornerMapsBack(w: int, h: int, cw: int, ch: int, p: Pos)
    requires w >= 1 && h >= 1 && cw >= 1 && ch >= 1 && InBounds(w, h, p)
    ensures var c := CornerOf(FitLayout(w, h, cw, ch), p);
      CanvasToImageCoords(w, h, cw, ch, c.0, c.1) == Some(p)
  {
    var l := FitLayout(w, h, cw, ch);
    var c := CornerOf(l, p);
    CornerOfMapsBack(l, p);
    ClickSelects(w, h, cw, ch, c.0, c.1, p);
  }

  /** Because of truncation toward zero, a click less than one scaled pixel
      to the left of the image still selects column 0 ... */
  lemma {:induction false} ClickJustLeftOfImage(w: int, h: int, cw: int, ch: int, cx: real, cy: real, y: int)
    requires w >= 1 && h >= 1 && cw >= 1 && ch >= 1 && 0 <= y < h
    requires Covers(FitLayout(w, h, cw, ch).offsetY, FitLayout(w, h, cw, ch).scale, y, cy)
    requires FitLayout(w, h, cw, ch).offsetX as real - FitLayout(w, h, cw, ch).scale < cx < FitLayout(w, h, cw, ch).offsetX as real
    ensures CanvasToImageCoords(w, h, cw, ch, cx, cy) == Some((0, y))
  {
    var l := FitLayout(w, h, cw, ch);
    assert (0 + 1) as real * l.scale == l.scale;
    assert Covers(l.offsetX, l.scale, 0, cx);
    CanvasToImageCoordsExact(w, h, cw, ch, cx, cy, (0, y));
  }

  /** Along one axis, a position a whole scaled pixel or more before the
      image edge truncates to a negative coordinate. */
  lemma TruncBeforeEdge(offset: int, scale: real, c: real)
    requires scale > 0.0 && c <= offset as real - scale
    ensures Trunc((c - offset as real) / scale) < 0
  {
    var r := (c - offset as real) / scale;
    DivBounds(c - offset as real, scale, -1.0);
    assert r <= -1.0;
    assert Trunc(r) as real - 1.0 < r;
  }

  /** ... while a click one scaled pixel or more to the left selects nothing. */
  lemma {:induction false} ClickFarLeftOfImage(w: int, h: int, cw: int, ch: int, cx: real, cy: real)
    requires w >= 1 && h >= 1 && cw >= 1 && ch >= 1
    requires cx <= FitLayout(w, h, cw, ch).offsetX as real - FitLayout(w, h, cw, ch).scale
    ensures CanvasToImageCoords(w, h, cw, ch, cx, cy) == None
  {
    var l := FitLayout(w, h, cw, ch);
    TruncBeforeEdge(l.offsetX, l.scale, cx);
  }

  // ---------------------------------------------------------------------
  // Checkerboard

  const CheckerGray := Pixel(200, 200, 200, 255)
  const CheckerWhite := Pixel(255, 255, 255, 255)
  const Black := Pixel(0, 0, 0, 255)

  /** The colour of pixel (x, y) of a checkerboard with `size`-pixel squares:
      gray where the square's column and row indices sum to an even number. */
  function CheckerColor(x: int, y: int, size: int): (c: Pixel)
    requires size >= 1
    ensures c.a == 255 && (c == CheckerGray || c == CheckerWhite)
  {
    if (x / size + y / size) % 2 == 0 then CheckerGray else CheckerWhite
  }

  /** Neighbouring squares, side by side or one above the other, differ. */
  lemma {:induction false} CheckerAlternates(x: int, y: int, size: int)
    requires size >= 1 && x >= 0 && y >= 0
    ensures CheckerColor(x + size, y, size) != CheckerColor(x, y, size)
    ensures CheckerColor(x, y + size, size) != CheckerColor(x, y, size)
  {
    NextSquare(x, size);
    NextSquare(y, size);
  }

  /** Moving `size` pixels on moves to the next square. */
  lemma {:induction false} NextSquare(x: int, size: int)
    requires size >= 1 && x >= 0
    ensures (x + size) / size == x / size + 1
  {
    var q := x / size;
    assert x + size == (q + 1) * size + x % size;
    InSquare(q + 1, x % size, size);
  }

  /** The pixel `offset` places into a square starting at a multiple of
      `size` lies in that square. */
  lemma {:induction false} InSquare(q: int, offset: int, size: int)
    requires size >= 1 && q >= 0 && 0 <= offset < size
    ensures (q * size + offset) / size == q && (q * size) / size == q
  {
    PosOfIdx(size, q + 1, (offset, q));
    PosOfIdx(size, q + 1, (0, q));
  }

  /** The buffer of a `w`-wide checkerboard on which the pixels listed in
      `written` have been drawn and the rest are still black. */
  ghost function Painted(w: nat, h: nat, written: seq<Pos>, size: int): (s: seq<Pixel>)
    requires size >= 1
    ensures |s| == w * h
  {
    if w == 0 then [] else
      seq(w * h, i requires 0 <= i < w * h =>
        if PosOf(w, i) in written then CheckerColor(PosOf(w, i).0, PosOf(w, i).1, size) else Black)
  }

  lemma {:induction false} PaintedInsert(w: nat, h: nat, written: seq<Pos>, size: int, p: Pos)
    requires size >= 1 && InBounds(w, h, p)
    ensures 0 <= Idx(w, p) < w * h
    ensures Painted(w, h, written + [p], size) == Painted(w, h, written, size)[Idx(w, p) := CheckerColor(p.0, p.1, size)]
  {
    IdxInRange(w, h, p);
    PosOfIdx(w, h, p);
    var a, b := Painted(w, h, written + [p], size), Painted(w, h, written, size)[Idx(w, p) := CheckerColor(p.0, p.1, size)];
    forall i | 0 <= i < w * h ensures a[i] == b[i] {
      IdxPosOf(w, h, i);
    }
  }

  lemma {:induction false} PaintedAt(w: nat, h: nat, written: seq<Pos>, size: int, p: Pos)
    requires size >= 1 && InBounds(w, h, p) && p in written
    ensures At(Painted(w, h, written, size), w, h, p) == CheckerColor(p.0, p.1, size)
  {
    IdxInRange(w, h, p);
    PosOfIdx(w, h, p);
  }

  ghost predicate Distinct(s: seq<Pos>) {
    forall i, j :: 0 <= i < j < |s| ==> s[i] != s[j]
  }

  lemma DistinctAppend(s: seq<Pos>, p: Pos)
    requires Distinct(s) && p !in s
    ensures Distinct(s + [p])
  {
  }

  /** Whether `p` lies in the `cols` by `rows` rectangle whose top-left
      corner is (x, y). */
  predicate InRect(p: Pos, x: int, y: int, cols: int, rows: int) {
    x <= p.0 < x + cols && y <= p.1 < y + rows
  }

  /** The two inner loops: draw one square (clipped to `cols` by `rows`)
      whose top-left corner is (x, y), pixel by pixel, row by row. */
  method DrawSquare(pixels: array<Pixel>, width: nat, height: nat, size: nat, x: int, y: int,
                    cols: int, rows: int, color: Pixel, ghost col: nat, ghost row: nat, ghost writes: seq<Pos>)
    returns (ghost writes': seq<Pos>)
    requires size >= 1 && pixels.Length == width * height
    requires x == col * size && y == row * size && 0 <= cols <= size && 0 <= rows <= size
    requires x + cols <= width && y + rows <= height
    requires color == CheckerColor(x, y, size)
    requires Distinct(writes) && pixels[..] == Painted(width, height, writes, size)
    requires forall p :: p in writes ==> !InRect(p, x, y, cols, rows)
    modifies pixels
    ensures Distinct(writes') && pixels[..] == Painted(width, height, writes', size)
    ensures forall p :: p in writes' <==> p in writes || InRect(p, x, y, cols, rows)
  {
    writes' := writes;
    var dy := 0;
    while dy < rows
      invariant 0 <= dy <= rows
      invariant Distinct(writes') && pixels[..] == Painted(width, height, writes', size)
      invariant forall p :: p in writes' <==> p in writes || InRect(p, x, y, cols, dy)
    {
      var dx := 0;
      while dx < cols
        invariant 0 <= dx <= cols
        invariant Distinct(writes') && pixels[..] == Painted(width, height, writes', size)
        invariant forall p :: p in writes' <==> p in writes || InRect(p, x, y, cols, dy) || InRect(p, x, y + dy, dx, 1)
      {
        var p := (x + dx, y + dy);
        InSquare(col, dx, size);
        InSquare(row, dy, size);
        assert CheckerColor(p.0, p.1, size) == color;
        PaintedInsert(width, height, writes', size, p);
        DistinctAppend(writes', p);
        pixels[Idx(width, p)] := color;
        writes' := writes' + [p];
        dx := dx + 1;
      }
      dy := dy + 1;
    }
  }

  /** The loop over x: draw the squares of one band of `rows` rows starting
      at row y, left to right, the last one clipped at the right edge. */
  method DrawBand(pixels: array<Pixel>, width: nat, height: nat, size: nat, y: int, rows: int,
                  ghost row: nat, ghost writes: seq<Pos>)
    returns (ghost writes': seq<Pos>)
    requires size >= 1 && pixels.Length == width * height
    requires y == row * size && 0 <= rows <= size && y + rows <= height
    requires Distinct(writes) && pixels[..] == Painted(width, height, writes, size)
    requires forall p :: p in writes <==> InBounds(width, y, p)
    modifies pixels
    ensures Distinct(writes') && pixels[..] == Painted(width, height, writes', size)
    ensures forall p :: p in writes' <==> InBounds(width, y, p) || InRect(p, 0, y, width, rows)
  {
    writes' := writes;
    var x := 0;
    ghost var col := 0;
    while x < width
      invariant x == col * size && col >= 0
      invariant Distinct(writes') && pixels[..] == Painted(width, height, writes', size)
      invariant forall p :: p in writes' <==> InBounds(width, y, p) || InRect(p, 0, y, Min(x, width), rows)
    {
      var color := if (x / size + y / size) % 2 == 0 then Pixel(200, 200, 200, 255) else Pixel(255, 255, 255, 255);
      writes' := DrawSquare(pixels, width, height, size, x, y, Min(size, width - x), rows, color, col, row, writes');
      x := x + size;
      col := col + 1;
    }
  }

  /** Draw a `width` by `height` checkerboard of `size`-pixel squares, square
      by square, clipping the squares at the right and bottom edges.
      `writes` records every pixel drawn, in order: each pixel of the image
      exactly once, and nothing outside it. */
  method CreateCheckerboard(width: nat, height: nat, size: nat) returns (checker: Image, ghost writes: seq<Pos>)
    requires size >= 1
    ensures WellFormed(checker) && checker.mode == RGB
    ensures checker.width == width && checker.height == height
    ensures forall p :: InBounds(width, height, p) ==> At(checker.data, width, height, p) == CheckerColor(p.0, p.1, size)
    ensures Distinct(writes)
    ensures forall p :: p in writes <==> InBounds(width, height, p)
  {
    var pixels := new Pixel[width * height](_ => Black);
    writes := [];
    assert pixels[..] == Painted(width, height, writes, size);
    var y := 0;
    ghost var row := 0;
    while y < height
      invariant y == row * size && row >= 0
      invariant Distinct(writes) && pixels[..] == Painted(width, height, writes, size)
      invariant forall p :: p in writes <==> InBounds(width, Min(y, height), p)
    {
      writes := DrawBand(pixels, width, height, size, y, Min(size, height - y), row, writes);
      y := y + size;
      row := row + 1;
    }
    checker := Image(RGB, width, height, pixels[..]);
    forall p | InBounds(width, height, p)
      ensures At(checker.data, width, height, p) == CheckerColor(p.0, p.1, size)
    {
      PaintedAt(width, height, writes, size, p);
    }
  }
}
