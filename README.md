# ImageToSticker editing core in Dafny

ImageToSticker is a desktop tool that turns an image into a printable sticker.
The user loads an image. The tool can make the near-white background
transparent. The user can then clear further regions by clicking on the
preview with a magic wand, and undo those edits one step at a time.

This project models the parts of the tool that compute, and proves
properties about them:

- **Pixels** (`pixels.dfy`): images as values. An image has a mode (RGB or
  RGBA), a width, a height and a row-major pixel sequence. Pixel (x, y) sits
  at offset `y * width + x`. An RGB pixel carries alpha 255, which is the
  value conversion to RGBA gives it.
- **MagicWand** (`magic_wand.dfy`): the flood fill behind the magic wand.
  - The colour test checks red, green and blue, each within the tolerance.
    Alpha is not compared.
  - The fill is a breadth-first search over an array of pixels. It keeps a
    visited set and a queue, and enqueues the four neighbours of every pixel
    it clears.
  - It is proved against a reference definition. The pixels cleared are the
    `Region`: every pixel joined to the seed by a 4-connected path of
    non-transparent pixels that match the seed's colour.
- **History** (`history.dfy`): the undo list.
  - It holds at most 20 snapshots.
  - Saving at capacity drops the oldest snapshot.
  - Undo takes the newest.
- **Segmentation** (`segmentation.dfy`): white-threshold background removal.
  A pixel whose red, green and blue are all at or above the threshold becomes
  transparent white.
- **Preview** (`preview.dfy`):
  - How the image is fitted into the canvas: never enlarged, display size
    truncated, centred.
  - How a canvas click maps back to an image pixel. This uses Python's
    truncation toward zero, not floor.
  - The checkerboard drawn behind transparent images.
- **Processor** (`processor.dfy`): the application state as a class. It holds
  the original image, the processed image, the undo list, the wand flag, the
  tolerance and the threshold. Its methods are the editing operations:
  - save and undo;
  - the magic-wand fill and the canvas click that triggers it;
  - loading an image;
  - reprocessing the preview.

The source file is `image_processor.py`. Every operation that loops keeps its
loop in the model:

- the breadth-first fill over an array;
- the threshold pass over the pixel list;
- the four nested loops of the checkerboard.

Each of these methods is proved equal to a function that specifies it. The
properties are then proved about that function.

## Model

| member | source | states |
|---|---|---|
| MagicWand.ColorMatches | image_processor.py:444-451 | Only a tolerance of 0 or more matches anything. Two pixels with the same red, green and blue match at any tolerance of 0 or more, whatever their alpha. |
| MagicWand.NeighborsAdjacent | image_processor.py:478-482 | The four enqueued neighbours are exactly the pixels one step away horizontally or vertically. |
| MagicWand.FillRegion | image_processor.py:438-482 | The breadth-first fill changes the pixel array into exactly `FillResult`: the pixels of `Region` become transparent and keep their colour, and nothing else changes. The returned count equals the size of `Region`. |
| MagicWand.RegionClosed | image_processor.py:453-482 | Every pixel of the region is in bounds, not transparent and matches the seed colour. The seed is in the region exactly when the seed itself qualifies. The region is closed under qualifying 4-neighbours. |
| MagicWand.RegionLeast | image_processor.py:453-482 | The region is the smallest such set: any set that holds a qualifying seed and is closed under qualifying neighbours contains it. The fill therefore spreads no further than it must. |
| MagicWand.RegionNeedsFillableSeed | image_processor.py:464-471 | If the seed is transparent or fails the colour test, the region is empty. |
| MagicWand.ReachableIsFillable | image_processor.py:444-451 | Every pixel the fill can reach is in bounds, not transparent, and within the tolerance of the seed colour on each of red, green and blue. |
| MagicWand.FillPixel | image_processor.py:444-451 | Per pixel: red, green and blue never change. A pixel changes exactly when it is in the region. A changed pixel had non-zero alpha, now has alpha 0, and matches the seed colour within the tolerance. |
| MagicWand.FillCount | image_processor.py:442 | The reported count, the size of the region, equals the number of pixels whose alpha went from non-zero to 0. |
| MagicWand.FillClearsOpaqueSeed | image_processor.py:425-482 | With a tolerance of 0 or more, a fill from a non-transparent seed clears at least the seed, so the count is at least 1. |
| MagicWand.RepeatFillIsNoOp | image_processor.py:428-435 | Filling again from the same seed reaches nothing, and the image stays as the first fill left it. |
| Pixels.ToRgba | image_processor.py:421-422 | Conversion to RGBA keeps the size and every pixel, and the result is a well-formed RGBA image. |
| Pixels.ClearAlpha | image_processor.py:474 | Clearing a pixel sets its alpha to 0 and keeps its red, green and blue. |
| History.Push | image_processor.py:385-392 | After a save, the list ends with the snapshot. It grows by one up to 20 entries. At 20 entries the oldest entry (index 0) is dropped, and the remaining entries keep their order. |
| History.Pop | image_processor.py:404-410 | Undo on an empty list yields nothing. Otherwise it yields the newest entry, and the list loses exactly that entry. |
| History.PushThenPop | image_processor.py:389-392 | An undo right after a save gives back the saved snapshot. The list is as before when it had room. A full list has lost its oldest entry. |
| History.PushAllKeepsNewest | image_processor.py:385-392 | After any sequence of saves, the list holds exactly the newest 20 (or fewer) of all snapshots, oldest first. |
| Segmentation.Segmented | image_processor.py:765-785 | The result is RGBA and the same size. Each pixel at or above the threshold in all of red, green and blue becomes (255, 255, 255, 0). Every other pixel is kept, with alpha 255 if the input was RGB. |
| Segmentation.RemoveWhiteBackground | image_processor.py:765-785 | The loop converts to RGBA and builds the new pixel list. Its result equals `Segmented`. |
| Segmentation.SegmentedMask | image_processor.py:777-782 | A pixel is transparent after the pass exactly when it was near white or already transparent. For an RGB input, exactly when it was near white. A pixel that is not near white is unchanged. |
| Segmentation.SegmentedIdempotent | image_processor.py:765-785 | Running the pass twice with the same threshold gives the same image as running it once. |
| Segmentation.ThresholdExample | image_processor.py:778-782 | At threshold 240, pixel (250, 250, 250) becomes transparent white and pixel (10, 20, 30) stays opaque. |
| Preview.Trunc | image_processor.py:376-377 | Python's `int()` on a float truncates toward zero. The result lies within one unit of the argument, on the side toward zero. |
| Preview.FitLayout | image_processor.py:367-373 | The scale is at most 1, at most canvas/image on each axis, and equal to one of those three values. The display size is the image size times the scale, truncated, and no larger than the image. The offset is the spare space divided by 2 with floor division, so it centres the display size. |
| Preview.CanvasToImageCoords | image_processor.py:354-383 | A point maps to a pixel only when that pixel is inside the image. |
| Preview.CanvasToImageCoordsExact | image_processor.py:376-383 | Both directions: a click maps to (x, y) exactly when (x, y) is in the image and the click lies in the canvas interval truncation assigns to x and to y. |
| Preview.TruncAxis | image_processor.py:376-377 | Along one axis, the truncated coordinate is i exactly when the canvas position lies in i's scaled interval. For i = 0 this interval reaches one scaled pixel before the image edge. |
| Preview.PixelCornerMapsBack | image_processor.py:367-383 | Round trip, in exact arithmetic: the canvas point where the click mapping places the top-left corner of an image pixel (offset plus coordinate times scale) maps back to that pixel. |
| Preview.ClickJustLeftOfImage | image_processor.py:376-383 | Because of truncation toward zero, a click less than one scaled pixel left of the image still selects column 0. |
| Preview.ClickFarLeftOfImage | image_processor.py:376-383 | A click one scaled pixel or more left of the image selects nothing. |
| Preview.CheckerColor | image_processor.py:887 | A checkerboard pixel is opaque and either (200, 200, 200) or white. |
| Preview.CheckerAlternates | image_processor.py:887 | Horizontally or vertically adjacent squares of the checkerboard have different colours. |
| Preview.DrawSquare | image_processor.py:888-890 | The two inner loops paint exactly the clipped square's pixels, with the square's colour, each once. |
| Preview.DrawBand | image_processor.py:886-890 | The loop over x paints exactly one band of rows: every pixel of the band, each once, with its checkerboard colour, leaving earlier rows as they were. |
| Preview.CreateCheckerboard | image_processor.py:880-892 | The result is an RGB image of the requested size. Pixel (x, y) is (200, 200, 200) when `x // size + y // size` is even and white otherwise. The loops draw every pixel exactly once and nothing outside the image. |
| Processor.FillImage | image_processor.py:438-482 | Copying the pixels into an array and running `FillRegion` on it yields the image with exactly `FillResult` as its pixels, and the count of cleared pixels. |
| Processor.ConvertAndFill | image_processor.py:421-482 | The image side of the wand equals `FillEffect`. The image is converted to RGBA. A transparent clicked pixel stops the fill with "already transparent". Otherwise the region is cleared and its size reported. The result is well formed. |
| Processor.FillStepOutcome | image_processor.py:412-486 | A magic-wand step keeps the image well formed and its size, and leaves it RGBA. It reports "already transparent" exactly when the clicked pixel had alpha 0, and then leaves the pixels as they were. Otherwise it reports the number of pixels made transparent, which is at least 1 when the tolerance is 0 or more. |
| Processor.FillStepThenUndo | image_processor.py:418-435 | After a fill that ran, undo gives back the image exactly as it was before the click. After a click on a transparent pixel, the list is as before, except that a full list has lost its oldest entry. |
| Processor.ImageProcessor.constructor | image_processor.py:31-52 | At start there is no image, the history is empty, the wand is off, the tolerance is 32, the threshold is 240 and background removal is off. |
| Processor.ImageProcessor.SaveEditState | image_processor.py:385-392 | With a processed image, the history becomes `Push(history, image)`. Otherwise it is unchanged. Nothing else changes. |
| Processor.ImageProcessor.UndoEdit | image_processor.py:404-410 | With a non-empty history, the processed image and the history become `Pop(history)`. Otherwise nothing changes. |
| Processor.ImageProcessor.FloodFillTransparent | image_processor.py:412-486 | Without an image it does nothing. Otherwise the outcome, the new image and the new history are exactly `FillStep`: save, convert to RGBA, then either take the save back (transparent seed) or run the fill. |
| Processor.ImageProcessor.OnCanvasClick | image_processor.py:336-350 | The click does nothing exactly when the wand is off, there is no image, or the click misses the image. Otherwise it performs the fill step at the pixel `CanvasToImageCoords` gives. |
| Processor.ImageProcessor.LoadImage | image_processor.py:568-606 | The loaded image becomes the original, and the undo history is emptied. The preview is then reprocessed: the processed image becomes the new image, or its threshold pass when background removal is on. |
| Processor.ImageProcessor.ProcessImage | image_processor.py:787-800 | Without an original there is no result. With the background-removal flag off, the result is the original. With it on, the result is the threshold pass at the current threshold. |
| Processor.ImageProcessor.UpdatePreview | image_processor.py:813-828 | Without an original nothing changes. Otherwise the history is emptied and the processed image becomes the reprocessed original. |

## Left out

- The user interface is not modelled, because it computes nothing the model needs. This covers:
  - the tkinter widgets, labels, status messages and undo-button state;
  - the mouse-wheel and scroll handling;
  - the `magic_wand_mode` toggle's cursor and instructions;
  - the slider callbacks.
  The tolerance, the threshold, the wand flag and the background-removal flag are plain fields of the class.
- Canvas sizes and click positions are read from the window system. The model takes them as parameters of `OnCanvasClick`.
- Image files are not modelled: opening a file, the file dialog, error dialogs, JPEG/TIFF/PNG export, and the default export file name. The model works on images already in memory. `LoadImage` takes the decoded image.
- The size controls are not modelled: physical size in inches, DPI, aspect-ratio locking, and the scale-factor controls. They only feed the resize step, which is left out.
- Processor.ImageProcessor.ProcessImage, Processor.ImageProcessor.UpdatePreview and Processor.ImageProcessor.LoadImage: the resize step is not modelled, so these model only the threshold branch. Loading sets the physical width from the pixel width and the DPI, rounded to two decimals (lines 584-585). As a result, almost every image at least 2 pixels wide is resized when it is loaded. For example, a 1000-pixel image at 300 DPI becomes 999 pixels wide (lines 803-809). So `processed == original` holds only with the resize taken away. The resize is Lanczos resampling in floating point. The AI background-removal path calls an external library and keeps a cache.
- The preview rendering is not modelled: thumbnailing, pasting onto the checkerboard through the alpha mask, and the PhotoImage shown on the canvas. They are image-library calls. The rendering also differs from the click mapping in two ways that are not modelled:
  - It uses a 500 by 400 canvas when the canvas is less than 10 pixels wide. The click mapping has no such fallback.
  - It places the thumbnail by its centre at half the canvas size. It does not use `FitLayout`'s offset.

  `FitLayout` models the click mapping's own geometry (lines 367-373), not where the thumbnail is drawn.
- The `processing` re-entrancy flag of `update_preview` is not modelled. It guards against re-entrant UI callbacks, and the model has none.
- Image modes other than RGB and RGBA (palette, greyscale and so on) are not modelled. Conversion to RGBA is modelled for RGB only, where it sets alpha to 255.
- Image objects are modelled as values. In the program the history holds copies, so no aliasing between the history and the processed image is lost. The fill still runs in place on an array.
- Processor.ImageProcessor.FloodFillTransparent: requires the seed inside the processed image. The program has no check of its own here. Its only caller, the canvas click, passes in-bounds coordinates, and `OnCanvasClick` is proved to meet the requirement.
- Processor.ImageProcessor.OnCanvasClick: requires the canvas and the image to be at least one pixel wide and high. The program would divide by zero otherwise.
- Preview.FitLayout, Preview.CanvasToImageCoords and Preview.PixelCornerMapsBack compute in exact rational arithmetic. The program divides in binary floating point. At exact pixel boundaries the two can differ, and the program may land one pixel lower or on the other side of an edge. Two examples:
  - A 1440 by 720 image on an 880 by 700 canvas, clicked at (440, 350), gives (719, 359) in floating point and (720, 360) in the model.
  - A 49 by 49 image on a 2 by 1 canvas truncates `49 * (1/49)` to 0 in floating point. The model gets 1.

  Floating-point rounding is not modelled, so the round trip is proved for exact arithmetic only.
- `OnCanvasClick` takes `cx` and `cy` to be the canvas coordinates that `canvasx`/`canvasy` return (image_processor.py:342-343). Any scroll offset is therefore already included in them.
