/** The editing state of the image processor window: the loaded image, the
    processed image shown in the preview, the undo history, and the magic
    wand that clears a clicked region. */
module Processor {
  import opened Pixels
  import opened History
  import opened MagicWand
  import opened Preview
  import opened Segmentation

  /** What a magic-wand fill reports. */
  datatype FillOutcome = NoImage | AlreadyTransparent | Removed(count: nat)

  /** What a magic-wand fill at `seed` does to the processed image `img`:
      convert it to RGBA; if the clicked pixel is already transparent report
      that and change nothing else, otherwise clear the region. */
  ghost function FillEffect(img: Image, seed: Pos, tolerance: int): (FillOutcome, Image)
    requires WellFormed(img) && InBounds(img.width, img.height, seed)
  {
    var rgba := ToRgba(img);
    var w, h := img.width, img.height;
    if At(rgba.data, w, h, seed).a == 0 then
      (AlreadyTransparent, rgba)
    else
      (Removed(|Region(rgba.data, w, h, seed, tolerance)|),
       rgba.(data := FillResult(rgba.data, w, h, seed, tolerance)))
  }

  /** The whole effect of a magic-wand fill on the processed image `img`
      and the undo list `history`: the outcome, the new processed image and
      the new undo list. The image is saved before it is converted; when the
      clicked pixel is already transparent the saved copy is taken back off
      the list. */
  ghost function FillStep(img: Image, history: seq<Image>, seed: Pos, tolerance: int): (FillOutcome, Image, seq<Image>)
    requires WellFormed(img) && InBounds(img.width, img.height, seed)
  {
    var (outcome, res) := FillEffect(img, seed, tolerance);
    var saved := Push(history, img);
    (outcome, res, if outcome == AlreadyTransparent then Pop(saved).1 else saved)
  }

  /** A fill keeps the image well formed and its size, reports exactly the
      pixels it made transparent, and reports "already transparent" exactly
      when the clicked pixel had alpha 0. */
  lemma {:induction false} FillStepOutcome(img: Image, history: seq<Image>, seed: Pos, tolerance: int)
    requires WellFormed(img) && InBounds(img.width, img.height, seed)
    ensures var (outcome, res, _) := FillStep(img, history, seed, tolerance);
      && WellFormed(res) && res.mode == RGBA && res.width == img.width && res.height == img.height
      && (outcome == AlreadyTransparent <==> At(img.data, img.width, img.height, seed).a == 0)
      && (outcome == AlreadyTransparent ==> res.data == img.data)
      && (outcome.Removed? ==> outcome.count == |NewlyTransparent(img.data, res.data, img.width, img.height)|)
      && (outcome.Removed? && tolerance >= 0 ==> outcome.count >= 1)
  {
    var (outcome, res, _) := FillStep(img, history, seed, tolerance);
    var w, h := img.width, img.height;
    if At(img.data, w, h, seed).a != 0 {
      FillCount(img.data, w, h, seed, tolerance);
      if tolerance >= 0 {
        FillClearsOpaqueSeed(img.data, w, h, seed, tolerance);
      }
    }
  }

  /** Undo after a fill. When the fill changed something, undo gives back
      the image exactly as it was before the click; when the clicked pixel
      was already transparent the list is as before, except that a full list
      has lost its oldest entry. */
  lemma {:induction false} FillStepThenUndo(img: Image, history: seq<Image>, seed: Pos, tolerance: int)
    requires WellFormed(img) && InBounds(img.width, img.height, seed) && |history| <= MaxHistory
    ensures var (outcome, _, history') := FillStep(img, history, seed, tolerance);
      var kept := if |history| < MaxHistory then history else history[1..];
      && (outcome.Removed? ==> Pop(history') == (Some(img), kept))
      && (outcome == AlreadyTransparent ==> history' == kept)
  {
    PushThenPop(history, img);
  }

  /** Run the fill on a copy of the image's pixels in an array and build the
      filled image from it. */
  method FillImage(img: Image, seed: Pos, tolerance: int) returns (res: Image, changed: nat)
    requires WellFormed(img) && InBounds(img.width, img.height, seed)
    ensures res == img.(data := FillResult(img.data, img.width, img.height, seed, tolerance))
    ensures changed == |Region(img.data, img.width, img.height, seed, tolerance)|
  {
    var data := img.data;
    var pixels := new Pixel[|data|](i requires 0 <= i < |data| => data[i]);
    assert pixels[..] == data;
    changed := FillRegion(pixels, img.width, img.height, seed, tolerance);
    res := img.(data := pixels[..]);
  }

  /** The image side of the magic wand: convert to RGBA, stop at a clicked
      pixel that is already transparent, otherwise fill from it. */
  method ConvertAndFill(img: Image, seed: Pos, tolerance: int) returns (outcome: FillOutcome, res: Image)
    requires WellFormed(img) && InBounds(img.width, img.height, seed)
    ensures (outcome, res) == FillEffect(img, seed, tolerance)
    ensures WellFormed(res) && outcome != NoImage
  {
    res := img;
    if res.mode != RGBA {
      res := ToRgba(res);
    }
    assert res == ToRgba(img);
    var target := At(res.data, res.width, res.height, seed);
    if target.a == 0 {
      return AlreadyTransparent, res;
    }
    var changed;
    res, changed := FillImage(res, seed, tolerance);
    outcome := Removed(changed);
  }

  class ImageProcessor {
    var original: Option<Image>
    var processed: Option<Image>
    /** Saved processed images, oldest first; undo takes the last. */
    var history: seq<Image>
    var magicWandMode: bool
    /** Magic-wand colour tolerance per channel (slider 0 to 128). */
    var tolerance: int
    /** White threshold for background removal (slider 200 to 255). */
    var threshold: int
    /** Whether reprocessing removes the near-white background. */
    var removeBackground: bool

    ghost predicate Valid()
      reads this
    {
      && |history| <= MaxHistory
      && (original.Some? ==> WellFormed(original.value))
      && (processed.Some? ==> WellFormed(processed.value))
      && forall i :: 0 <= i < |history| ==> WellFormed(history[i])
    }

    /** Nothing loaded, an empty history, wand off, tolerance 32, threshold
        240, background removal off. */
    constructor()
      ensures Valid()
      ensures original == None && processed == None && history == []
      ensures !magicWandMode && tolerance == 32 && threshold == 240 && !removeBackground
    {
      original := None;
      processed := None;
      history := [];
      magicWandMode := false;
      tolerance := 32;
      threshold := 240;
      removeBackground := false;
    }

    /** Save the processed image for undo, dropping the oldest entry when
        20 are already kept; nothing happens without a processed image. */
    method SaveEditState()
      requires Valid()
      modifies this`history
      ensures Valid()
      ensures processed.Some? ==> history == Push(old(history), processed.value)
      ensures processed.None? ==> history == old(history)
    {
      if processed.Some? {
        var saved := history;
        if |saved| >= MaxHistory {
          saved := saved[1..];
        }
        history := saved + [processed.value];
      }
    }

    /** Undo: the newest saved image becomes the processed image and leaves
        the list; nothing happens on an empty list. */
    method UndoEdit()
      requires Valid()
      modifies this`history, this`processed
      ensures Valid()
      ensures old(history) == [] ==> history == [] && processed == old(processed)
      ensures old(history) != [] ==> (processed, history) == Pop(old(history))
    {
      if |history| > 0 {
        processed := Some(history[|history| - 1]);
        history := history[..|history| - 1];
      }
    }

    /** Magic wand: make the 4-connected region of pixels matching the
        clicked colour transparent, saving the image for undo first. */
    method FloodFillTransparent(x: int, y: int) returns (outcome: FillOutcome)
      requires Valid()
      requires processed.Some? ==> InBounds(processed.value.width, processed.value.height, (x, y))
      modifies this`history, this`processed
      ensures Valid()
      ensures old(processed).None? ==> outcome == NoImage && processed == None && history == old(history)
      ensures old(processed).Some? ==>
        processed.Some? && (outcome, processed.value, history) == FillStep(old(processed).value, old(history), (x, y), tolerance)
    {
      if processed.None? {
        return NoImage;
      }
      SaveEditState();
      var img;
      outcome, img := ConvertAndFill(processed.value, (x, y), tolerance);
      processed := Some(img);
      if outcome == AlreadyTransparent {
        history := history[..|history| - 1];
      }
    }

    /** A click on the preview canvas (`cw` by `ch` pixels): with the wand on
        and an image shown, a click that lands on the image fills from the
        pixel under it; any other click changes nothing. */
    method OnCanvasClick(cx: real, cy: real, cw: int, ch: int) returns (outcome: Option<FillOutcome>)
      requires Valid() && cw >= 1 && ch >= 1
      requires magicWandMode && processed.Some? ==> processed.value.width >= 1 && processed.value.height >= 1
      modifies this`history, this`processed
      ensures Valid()
      ensures outcome.None? ==> processed == old(processed) && history == old(history)
      ensures outcome.None? <==>
        !magicWandMode || old(processed).None? ||
        CanvasToImageCoords(old(processed).value.width, old(processed).value.height, cw, ch, cx, cy).None?
      ensures outcome.Some? ==>
        var img := old(processed).value;
        var p := CanvasToImageCoords(img.width, img.height, cw, ch, cx, cy).value;
        processed.Some? && (outcome.value, processed.value, history) == FillStep(img, old(history), p, tolerance)
    {
      if !magicWandMode || processed.None? {
        return None;
      }
      var img := processed.value;
      var p := CanvasToImageCoords(img.width, img.height, cw, ch, cx, cy);
      if p.None? {
        return None;
      }
      var filled := FloodFillTransparent(p.value.0, p.value.1);
      outcome := Some(filled);
    }

    /** Load a new original image: the undo history is cleared and the
        preview is reprocessed from the new image. */
    method LoadImage(img: Image)
      requires Valid() && WellFormed(img)
      modifies this`original, this`history, this`processed
      ensures Valid()
      ensures original == Some(img) && history == []
      ensures processed == Some(if removeBackground then Segmented(img, threshold) else img)
    {
      original := Some(img);
      history := [];
      UpdatePreview();
    }

    /** The processed image computed from the original: none without an
        original; with background removal on, the threshold pass at the
        current threshold; otherwise the original as it is. */
    method ProcessImage() returns (res: Option<Image>)
      requires Valid()
      ensures original.None? <==> res.None?
      ensures res.Some? ==> WellFormed(res.value)
      ensures res.Some? && !removeBackground ==> res.value == original.value
      ensures res.Some? && removeBackground ==> res.value == Segmented(original.value, threshold)
    {
      if original.None? {
        return None;
      }
      var img := original.value;
      if removeBackground {
        img := RemoveWhiteBackground(img, threshold);
      }
      res := Some(img);
    }

    /** Reprocess the original into the preview: with no original nothing
        happens; otherwise the history is cleared and the reprocessed image
        becomes the processed image. */
    method UpdatePreview()
      requires Valid()
      modifies this`history, this`processed
      ensures Valid()
      ensures original.None? ==> processed == old(processed) && history == old(history)
      ensures original.Some? ==> history == [] && processed.Some?
      ensures original.Some? && !removeBackground ==> processed == original
      ensures original.Some? && removeBackground ==> processed == Some(Segmented(original.value, threshold))
    {
      if original.None? {
        return;
      }
      history := [];
      processed := ProcessImage();
    }
  }
}
