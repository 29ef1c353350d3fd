/** The pixel buffer shared by every operation of the image processor: RGBA
    pixels with 8-bit channels, stored row by row in one flat sequence. */
module Pixels {

  /** One 8-bit channel value. */
  type Byte = x: int | 0 <= x <= 255

  /** A pixel. In an RGB image every pixel carries alpha 255, which is the
      value that conversion to RGBA gives it. */
  datatype Pixel = Pixel(r: Byte, g: Byte, b: Byte, a: Byte)

  datatype Mode = RGB | RGBA

  datatype Option<T> = None | Some(value: T)

  function Min(a: int, b: int): int {
    if a <= b then a else b
  }

  /** A pixel coordinate (x, y): column, then row. */
  type Pos = (int, int)

  /** A raster image: pixel (x, y) is `data[Idx(width, x, y)]`. */
  datatype Image = Image(mode: Mode, width: nat, height: nat, data: seq<Pixel>)

  ghost predicate WellFormed(img: Image) {
    && |img.data| == img.width * img.height
    && (img.mode == RGB ==> forall i :: 0 <= i < |img.data| ==> img.data[i].a == 255)
  }

  predicate InBounds(w: int, h: int, p: Pos) {
    0 <= p.0 < w && 0 <= p.1 < h
  }

  /** Offset of pixel (x, y) in the row-major buffer of an image `w` pixels wide. */
  function Idx(w: int, p: Pos): int {
    p.1 * w + p.0
  }

  /** The pixel coordinate stored at offset `i`. */
  function PosOf(w: int, i: int): Pos
    requires w > 0
  {
    (i % w, i / w)
  }

  /** The set of all coordinates of a `w` by `h` image. */
  ghost function Cells(w: int, h: int): set<Pos> {
    set x, y | 0 <= x < w && 0 <= y < h :: (x, y)
  }

  lemma CellsMember(w: int, h: int, p: Pos)
    ensures p in Cells(w, h) <==> InBounds(w, h, p)
  {
    if InBounds(w, h, p) {
      var x, y := p.0, p.1;
      assert (x, y) in Cells(w, h);
    }
  }

  lemma {:induction false} IdxInRange(w: int, h: int, p: Pos)
    requires InBounds(w, h, p)
    ensures 0 <= Idx(w, p) < w * h
  {
    var x, y := p.0, p.1;
    assert y * w <= (h - 1) * w by {
      MulMono(y, h - 1, w);
    }
    assert (h - 1) * w + w == h * w;
  }

  lemma {:induction false} MulMono(a: int, b: int, w: int)
    requires a <= b && w >= 0
    ensures a * w <= b * w
  {
    assert b * w - a * w == (b - a) * w;
  }

  /** Offsets and coordinates are inverse to one another inside the image. */
  lemma {:induction false} PosOfIdx(w: int, h: int, p: Pos)
    requires w > 0 && InBounds(w, h, p)
    ensures PosOf(w, Idx(w, p)) == p
  {
    var x, y := p.0, p.1;
    var i := y * w + x;
    var q, r := i / w, i % w;
    assert i == q * w + r && 0 <= r < w;
    assert (y - q) * w == r - x;
    if y - q >= 1 {
      MulMono(1, y - q, w);
    } else if y - q <= -1 {
      MulMono(y - q, -1, w);
    }
  }

  lemma {:induction false} IdxPosOf(w: int, h: int, i: int)
    requires w > 0 && 0 <= i < w * h
    ensures InBounds(w, h, PosOf(w, i)) && Idx(w, PosOf(w, i)) == i
  {
    var q := i / w;
    if q >= h {
      MulMono(h, q, w);
    }
  }

  /** The pixel at `p` of a `w` by `h` buffer. */
  function At(g: seq<Pixel>, w: nat, h: nat, p: Pos): Pixel
    requires |g| == w * h && InBounds(w, h, p)
  {
    IdxInRange(w, h, p);
    g[Idx(w, p)]
  }

  /** The same image with an alpha channel: RGB pixels already carry alpha
      255, so only the mode changes. */
  function ToRgba(img: Image): (res: Image)
    requires WellFormed(img)
    ensures WellFormed(res) && res.mode == RGBA
    ensures res.width == img.width && res.height == img.height && res.data == img.data
  {
    img.(mode := RGBA)
  }

  /** The pixel made fully transparent, its colour kept. */
  function ClearAlpha(p: Pixel): (q: Pixel)
    ensures q.a == 0 && q.r == p.r && q.g == p.g && q.b == p.b
  {
    p.(a := 0)
  }
}
