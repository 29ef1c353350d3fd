/** White-threshold background removal: every pixel whose red, green and
    blue are all at or above the threshold becomes transparent white. */
module Segmentation {
  import opened Pixels

  /** What a near-white pixel is replaced with. */
  const TransparentWhite := Pixel(255, 255, 255, 0)

  predicate IsNearWhite(p: Pixel, threshold: int) {
    p.r >= threshold && p.g >= threshold && p.b >= threshold
  }

  /** The image the threshold pass produces, pixel by pixel: always RGBA and
      of the same size; near-white pixels become transparent white, every
      other pixel keeps its value (alpha 255 when the input was RGB). */
  function Segmented(img: Image, threshold: int): (res: Image)
    requires WellFormed(img)
    ensures WellFormed(res) && res.mode == RGBA
    ensures res.width == img.width && res.height == img.height && |res.data| == |img.data|
    ensures forall i :: 0 <= i < |img.data| ==>
      res.data[i] == (if IsNearWhite(img.data[i], threshold) then TransparentWhite else img.data[i])
  {
    var data := img.data;
    Image(RGBA, img.width, img.height,
          seq(|data|, i requires 0 <= i < |data| =>
            if IsNearWhite(data[i], threshold) then TransparentWhite else data[i]))
  }

  /** The threshold pass as the program runs it: convert to RGBA, walk the
      pixel data building a new list, and write the list back. */
  method RemoveWhiteBackground(img: Image, threshold: int) returns (res: Image)
    requires WellFormed(img)
    ensures res == Segmented(img, threshold)
  {
    var rgba := img;
    if rgba.mode != RGBA {
      rgba := ToRgba(rgba);
    }
    var data := rgba.data;
    var newData: seq<Pixel> := [];
    for i := 0 to |data|
      invariant |newData| == i
      invariant forall k :: 0 <= k < i ==>
        newData[k] == if IsNearWhite(data[k], threshold) then TransparentWhite else data[k]
    {
      var item := data[i];
      if item.r >= threshold && item.g >= threshold && item.b >= threshold {
        newData := newData + [Pixel(255, 255, 255, 0)];
      } else {
        newData := newData + [item];
      }
    }
    res := rgba.(data := newData);
  }

  /** Which pixels end up transparent: exactly the near-white ones and those
      that were transparent already; an RGB input has none of the latter. */
  lemma SegmentedMask(img: Image, threshold: int, i: int)
    requires WellFormed(img) && 0 <= i < |img.data|
    ensures Segmented(img, threshold).data[i].a == 0 <==> IsNearWhite(img.data[i], threshold) || img.data[i].a == 0
    ensures img.mode == RGB ==> (Segmented(img, threshold).data[i].a == 0 <==> IsNearWhite(img.data[i], threshold))
    ensures !IsNearWhite(img.data[i], threshold) ==> Segmented(img, threshold).data[i] == img.data[i]
  {
  }

  /** Running the threshold pass twice gives the same image as once. */
  lemma {:induction false} SegmentedIdempotent(img: Image, threshold: int)
    requires WellFormed(img)
    ensures Segmented(Segmented(img, threshold), threshold) == Segmented(img, threshold)
  {
    var once := Segmented(img, threshold);
    var twice := Segmented(once, threshold);
    forall i | 0 <= i < |once.data| ensures twice.data[i] == once.data[i] {
      if IsNearWhite(img.data[i], threshold) {
        assert once.data[i] == TransparentWhite;
      }
    }
    assert twice.data == once.data;
  }

  /** A 1000 by 500 RGB image at threshold 240: the pixel (250, 250, 250) at
      (0, 0) is cleared to transparent white, and (10, 20, 30) at (5, 5) is
      kept, opaque. */
  lemma ThresholdExample(img: Image)
    requires WellFormed(img) && img.mode == RGB && img.width == 1000 && img.height == 500
    requires img.data[Idx(1000, (0, 0))] == Pixel(250, 250, 250, 255)
    requires img.data[Idx(1000, (5, 5))] == Pixel(10, 20, 30, 255)
    ensures Segmented(img, 240).data[Idx(1000, (0, 0))] == Pixel(255, 255, 255, 0)
    ensures Segmented(img, 240).data[Idx(1000, (5, 5))] == Pixel(10, 20, 30, 255)
  {
  }
}
