/*
 * The frame compositor behind the animated viewer: a canvas of "#RRGGBB"
 * colour strings, initialised to a grey checkerboard, onto which each frame's
 * rectangle is drawn through its colour table, with the GIF disposal methods
 * 2 (restore to background, here the checkerboard) and 3 (restore to the
 * previous canvas, kept on a snapshot stack).  The window, canvas widget and
 * timer are not modelled; the timer's rescheduling is the result of Animate.
 */
module Viewer {
  import opened Bits
  import opened Wrappers
  import opened GifStructs

  /** `base_image`: rows of colour strings, indexed [y][x]. */
  type Canvas = seq<seq<string>>

  const Light: string := "#C8C8C8"
  const Dark: string := "#646464"

  /** The checkerboard colour of cell (x, y): 10-by-10 tiles, light where the tile coordinates sum to an even number. */
  function CheckerColor(x: nat, y: nat): (c: string)
    ensures c == Light <==> (x / 10 + y / 10) % 2 == 0
    ensures c == Light || c == Dark
  {
    if (x / 10 + y / 10) % 2 == 0 then Light else Dark
  }

  /** Cells of one tile share a colour. */
  lemma CheckerTiles(x1: nat, y1: nat, x2: nat, y2: nat)
    requires x1 / 10 == x2 / 10 && y1 / 10 == y2 / 10
    ensures CheckerColor(x1, y1) == CheckerColor(x2, y2)
  {
  }

  /** Side by side tiles, horizontally or vertically, differ. */
  lemma CheckerAlternates(x: nat, y: nat)
    ensures CheckerColor(x + 10, y) != CheckerColor(x, y)
    ensures CheckerColor(x, y + 10) != CheckerColor(x, y)
  {
    assert (x + 10) / 10 == x / 10 + 1;
    assert (y + 10) / 10 == y / 10 + 1;
  }

  /** A canvas of h rows of w cells. */
  predicate IsGrid(img: Canvas, w: nat, h: nat)
  {
    |img| == h && forall y :: 0 <= y < h ==> |img[y]| == w
  }

  /** `_create_checkerboard`. */
  function CreateCheckerboard(width: nat, height: nat): (board: Canvas)
    ensures IsGrid(board, width, height)
    ensures forall y, x :: 0 <= y < height && 0 <= x < width ==> board[y][x] == CheckerColor(x, y)
  {
    seq(height, y requires 0 <= y < height => seq(width, x requires 0 <= x < width => CheckerColor(x, y)))
  }

  /** Two canvases of the same shape with the same cells are equal. */
  lemma SameCells(a: Canvas, b: Canvas)
    requires |a| == |b|
    requires forall y :: 0 <= y < |a| ==> |a[y]| == |b[y]|
    requires forall y, x :: 0 <= y < |a| && 0 <= x < |a[y]| ==> a[y][x] == b[y][x]
    ensures a == b
  {
    assert forall y :: 0 <= y < |a| ==> a[y] == b[y];
  }

  // ---------------------------------------------------------------------------
  // Rectangles

  /** Cell (x, y) lies in the descriptor's rectangle. */
  predicate InRect(d: ImageDescriptor, x: int, y: int)
  {
    d.left <= x < d.left + d.width && d.top <= y < d.top + d.height
  }

  /**
   * The loops over the rectangle stay inside a w-by-h canvas.  An empty
   * rectangle touches no cell and so fits anywhere.
   */
  predicate RectFits(d: ImageDescriptor, w: nat, h: nat)
  {
    d.width == 0 || d.height == 0 || (d.left + d.width <= w && d.top + d.height <= h)
  }

  /** The canvas with the rectangle repainted with the checkerboard. */
  function Cleared(img: Canvas, d: ImageDescriptor): (r: Canvas)
    ensures |r| == |img| && forall y :: 0 <= y < |img| ==> |r[y]| == |img[y]|
  {
    seq(|img|, y requires 0 <= y < |img| =>
      seq(|img[y]|, x requires 0 <= x < |img[y]| =>
        if InRect(d, x, y) then CheckerColor(x, y) else img[y][x]))
  }

  /** Clearing a rectangle twice is clearing it once. */
  lemma ClearIdempotent(img: Canvas, d: ImageDescriptor)
    ensures Cleared(Cleared(img, d), d) == Cleared(img, d)
  {
    SameCells(Cleared(Cleared(img, d), d), Cleared(img, d));
  }

  /** Clearing leaves a checkerboard unchanged. */
  lemma ClearCheckerboard(w: nat, h: nat, d: ImageDescriptor)
    ensures Cleared(CreateCheckerboard(w, h), d) == CreateCheckerboard(w, h)
  {
    SameCells(Cleared(CreateCheckerboard(w, h), d), CreateCheckerboard(w, h));
  }

  /** A rectangle that covers the whole canvas turns any canvas into the checkerboard. */
  lemma ClearWholeCanvas(img: Canvas, w: nat, h: nat, d: ImageDescriptor)
    requires IsGrid(img, w, h)
    requires d.left == 0 && d.top == 0 && w <= d.width && h <= d.height
    ensures Cleared(img, d) == CreateCheckerboard(w, h)
  {
    SameCells(Cleared(img, d), CreateCheckerboard(w, h));
  }

  // ---------------------------------------------------------------------------
  // Colours

  const HexDigits: string := "0123456789ABCDEF"

  /** `f"{v:02X}"`. */
  function Hex2(v: byte): (s: string)
    ensures |s| == 2
  {
    [HexDigits[v / 16], HexDigits[v % 16]]
  }

  /** `f"#{r:02X}{g:02X}{b:02X}"`. */
  function HexColor(c: Rgb): (s: string)
    ensures |s| == 7 && s[0] == '#'
  {
    "#" + Hex2(c.r) + Hex2(c.g) + Hex2(c.b)
  }

  lemma Hex2Injective(a: byte, b: byte)
    requires Hex2(a) == Hex2(b)
    ensures a == b
  {
    assert forall i, j :: 0 <= i < j < 16 ==> HexDigits[i] != HexDigits[j];
    assert Hex2(a)[0] == Hex2(b)[0] && Hex2(a)[1] == Hex2(b)[1];
    assert a == 16 * (a / 16) + a % 16;
  }

  /** Different colours get different strings. */
  lemma HexColorInjective(a: Rgb, b: Rgb)
    requires HexColor(a) == HexColor(b)
    ensures a == b
  {
    var s, t := HexColor(a), HexColor(b);
    assert s[1..3] == Hex2(a.r) && t[1..3] == Hex2(b.r);
    assert s[3..5] == Hex2(a.g) && t[3..5] == Hex2(b.g);
    assert s[5..7] == Hex2(a.b) && t[5..7] == Hex2(b.b);
    Hex2Injective(a.r, b.r);
    Hex2Injective(a.g, b.g);
    Hex2Injective(a.b, b.b);
  }

  /** Upper-case digits, as a colour the test suite draws. */
  lemma HexColorExample()
    ensures HexColor(Rgb(0xB8, 0, 0)) == "#B80000"
  {
  }

  /** The clear colours are colour strings of this form. */
  lemma CheckerColorsAreHex()
    ensures HexColor(Rgb(200, 200, 200)) == Light && HexColor(Rgb(100, 100, 100)) == Dark
  {
  }

  // ---------------------------------------------------------------------------
  // Drawing a frame

  /** The frame's colour table, else the global one; None when neither exists. */
  function Palette(frame: Frame, globalColorTable: Option<ColorTable>): (r: Option<seq<Rgb>>)
    ensures frame.localColorTable.Some? ==> r == Some(frame.localColorTable.value.colors)
    ensures frame.localColorTable.None? ==> (r.Some? <==> globalColorTable.Some?)
    ensures frame.localColorTable.None? && globalColorTable.Some? ==> r == Some(globalColorTable.value.colors)
  {
    if frame.localColorTable.Some? then Some(frame.localColorTable.value.colors)
    else if globalColorTable.Some? then Some(globalColorTable.value.colors)
    else None
  }

  /** The transparent colour index, only when a graphic control extension sets its flag. */
  function TransparentIndex(frame: Frame): (r: Option<nat>)
    ensures r.Some? <==> frame.graphicControlExtension.Some? && frame.graphicControlExtension.value.transparencyFlag != 0
    ensures r.Some? ==> r.value == frame.graphicControlExtension.value.transparentColorIndex
  {
    if frame.graphicControlExtension.Some? && frame.graphicControlExtension.value.transparencyFlag != 0 then
      Some(frame.graphicControlExtension.value.transparentColorIndex)
    else None
  }

  lemma IndexBound(row: nat, col: nat, w: nat, h: nat)
    requires row < h && col < w
    ensures row * w + col < w * h
  {
    assert row * w + col < row * w + w == (row + 1) * w;
    assert (row + 1) * w <= h * w;
  }

  /** The position in the frame's index list of canvas cell (x, y) inside the rectangle. */
  function PixelIndex(d: ImageDescriptor, x: nat, y: nat): (k: nat)
    requires InRect(d, x, y)
    ensures k < d.width * d.height
  {
    IndexBound(y - d.top, x - d.left, d.width, d.height);
    (y - d.top) * d.width + (x - d.left)
  }

  /** Every index the drawing loop looks up exists, and every colour it draws is in the table. */
  predicate PixelsInPalette(frame: Frame, palette: seq<Rgb>, transparent: Option<nat>)
  {
    var d := frame.imageDescriptor;
    |frame.imageData| >= d.width * d.height &&
    forall k :: 0 <= k < d.width * d.height && transparent != Some(frame.imageData[k]) ==> frame.imageData[k] < |palette|
  }

  /** The cell is drawn: inside the rectangle and not of the transparent index. */
  predicate Opaque(frame: Frame, transparent: Option<nat>, x: nat, y: nat)
    requires |frame.imageData| >= frame.imageDescriptor.width * frame.imageDescriptor.height
  {
    InRect(frame.imageDescriptor, x, y) &&
    transparent != Some(frame.imageData[PixelIndex(frame.imageDescriptor, x, y)])
  }

  /**
   * Every pixel the drawing loop writes lands on a w-by-h canvas.  Transparent
   * pixels are skipped before the canvas is indexed, so they may lie outside it.
   */
  predicate OpaqueOnCanvas(frame: Frame, transparent: Option<nat>, w: nat, h: nat)
    requires |frame.imageData| >= frame.imageDescriptor.width * frame.imageDescriptor.height
  {
    var d := frame.imageDescriptor;
    forall x: nat, y: nat :: x < d.left + d.width && y < d.top + d.height && Opaque(frame, transparent, x, y) ==> x < w && y < h
  }

  /** A rectangle inside the canvas has all its opaque pixels on the canvas. */
  lemma RectFitsOpaqueOnCanvas(frame: Frame, transparent: Option<nat>, w: nat, h: nat)
    requires |frame.imageData| >= frame.imageDescriptor.width * frame.imageDescriptor.height
    requires RectFits(frame.imageDescriptor, w, h)
    ensures OpaqueOnCanvas(frame, transparent, w, h)
  {
  }

  /**
   * What `_apply_frame` needs: a colour table, enough in-range indices, and
   * every pixel that is not transparent on the canvas.
   */
  predicate Drawable(frame: Frame, globalColorTable: Option<ColorTable>, w: nat, h: nat)
  {
    var palette := Palette(frame, globalColorTable);
    palette.Some? && PixelsInPalette(frame, palette.value, TransparentIndex(frame)) &&
    OpaqueOnCanvas(frame, TransparentIndex(frame), w, h)
  }

  /** The canvas with the frame drawn over it. */
  function Drawn(img: Canvas, frame: Frame, palette: seq<Rgb>, transparent: Option<nat>): (r: Canvas)
    requires PixelsInPalette(frame, palette, transparent)
    ensures |r| == |img| && forall y :: 0 <= y < |img| ==> |r[y]| == |img[y]|
  {
    var d := frame.imageDescriptor;
    seq(|img|, y requires 0 <= y < |img| =>
      seq(|img[y]|, x requires 0 <= x < |img[y]| =>
        if Opaque(frame, transparent, x, y) then HexColor(palette[frame.imageData[PixelIndex(d, x, y)]])
        else img[y][x]))
  }

  /** `img[y][x] = color`. */
  function Paint(img: Canvas, x: nat, y: nat, color: string): (r: Canvas)
    requires y < |img| && x < |img[y]|
    ensures |r| == |img| && forall i :: 0 <= i < |img| ==> |r[i]| == |img[i]|
    ensures forall i, j :: 0 <= i < |img| && 0 <= j < |img[i]| ==> r[i][j] == if i == y && j == x then color else img[i][j]
  {
    img[y := img[y][x := color]]
  }

  /** Cell (x, y) of the rectangle comes before relative position (row, col) in the drawing loop's order. */
  predicate Before(d: ImageDescriptor, x: nat, y: nat, row: nat, col: nat)
  {
    InRect(d, x, y) && (y - d.top < row || (y - d.top == row && x - d.left < col))
  }

  /** The canvas once the drawing loop has reached relative position (row, col). */
  ghost function DrawnPart(img: Canvas, frame: Frame, palette: seq<Rgb>, transparent: Option<nat>, row: nat, col: nat): (r: Canvas)
    requires PixelsInPalette(frame, palette, transparent)
    ensures |r| == |img| && forall y :: 0 <= y < |img| ==> |r[y]| == |img[y]|
  {
    var d := frame.imageDescriptor;
    seq(|img|, y requires 0 <= y < |img| =>
      seq(|img[y]|, x requires 0 <= x < |img[y]| =>
        if Opaque(frame, transparent, x, y) && Before(d, x, y, row, col)
        then HexColor(palette[frame.imageData[PixelIndex(d, x, y)]])
        else img[y][x]))
  }

  lemma DrawnPartStart(img: Canvas, frame: Frame, palette: seq<Rgb>, transparent: Option<nat>)
    requires PixelsInPalette(frame, palette, transparent)
    ensures DrawnPart(img, frame, palette, transparent, 0, 0) == img
  {
    SameCells(DrawnPart(img, frame, palette, transparent, 0, 0), img);
  }

  lemma DrawnPartNextRow(img: Canvas, frame: Frame, palette: seq<Rgb>, transparent: Option<nat>, row: nat)
    requires PixelsInPalette(frame, palette, transparent)
    ensures DrawnPart(img, frame, palette, transparent, row, frame.imageDescriptor.width)
         == DrawnPart(img, frame, palette, transparent, row + 1, 0)
  {
    SameCells(DrawnPart(img, frame, palette, transparent, row, frame.imageDescriptor.width),
              DrawnPart(img, frame, palette, transparent, row + 1, 0));
  }

  lemma DrawnPartEnd(img: Canvas, frame: Frame, palette: seq<Rgb>, transparent: Option<nat>)
    requires PixelsInPalette(frame, palette, transparent)
    ensures DrawnPart(img, frame, palette, transparent, frame.imageDescriptor.height, 0) == Drawn(img, frame, palette, transparent)
  {
    SameCells(DrawnPart(img, frame, palette, transparent, frame.imageDescriptor.height, 0), Drawn(img, frame, palette, transparent));
  }

  /** One turn of the inner drawing loop: pixel (row, col) is written, unless it is transparent. */
  lemma DrawnPartStep(img: Canvas, frame: Frame, palette: seq<Rgb>, transparent: Option<nat>, row: nat, col: nat, w: nat, h: nat)
    requires PixelsInPalette(frame, palette, transparent) && IsGrid(img, w, h)
    requires OpaqueOnCanvas(frame, transparent, w, h)
    requires row < frame.imageDescriptor.height && col < frame.imageDescriptor.width
    ensures row * frame.imageDescriptor.width + col < |frame.imageData|
    ensures transparent == Some(frame.imageData[row * frame.imageDescriptor.width + col]) ==>
      DrawnPart(img, frame, palette, transparent, row, col + 1) == DrawnPart(img, frame, palette, transparent, row, col)
    ensures transparent != Some(frame.imageData[row * frame.imageDescriptor.width + col]) ==>
      frame.imageDescriptor.top + row < h && frame.imageDescriptor.left + col < w &&
      frame.imageData[row * frame.imageDescriptor.width + col] < |palette| &&
      DrawnPart(img, frame, palette, transparent, row, col + 1) ==
        Paint(DrawnPart(img, frame, palette, transparent, row, col), frame.imageDescriptor.left + col, frame.imageDescriptor.top + row,
              HexColor(palette[frame.imageData[row * frame.imageDescriptor.width + col]]))
  {
    var d := frame.imageDescriptor;
    IndexBound(row, col, d.width, d.height);
    var k := row * d.width + col;
    if transparent == Some(frame.imageData[k]) {
      DrawnPartSkip(img, frame, palette, transparent, row, col);
    } else {
      DrawnPartPaint(img, frame, palette, transparent, row, col, w, h);
    }
  }

  /** A transparent pixel leaves the canvas as it was. */
  lemma DrawnPartSkip(img: Canvas, frame: Frame, palette: seq<Rgb>, transparent: Option<nat>, row: nat, col: nat)
    requires PixelsInPalette(frame, palette, transparent)
    requires row < frame.imageDescriptor.height && col < frame.imageDescriptor.width
    requires row * frame.imageDescriptor.width + col < |frame.imageData|
    requires transparent == Some(frame.imageData[row * frame.imageDescriptor.width + col])
    ensures DrawnPart(img, frame, palette, transparent, row, col + 1) == DrawnPart(img, frame, palette, transparent, row, col)
  {
    SameCells(DrawnPart(img, frame, palette, transparent, row, col + 1), DrawnPart(img, frame, palette, transparent, row, col));
  }

  /** An opaque pixel paints its cell of the canvas and no other. */
  lemma DrawnPartPaint(img: Canvas, frame: Frame, palette: seq<Rgb>, transparent: Option<nat>, row: nat, col: nat, w: nat, h: nat)
    requires PixelsInPalette(frame, palette, transparent) && IsGrid(img, w, h)
    requires OpaqueOnCanvas(frame, transparent, w, h)
    requires row < frame.imageDescriptor.height && col < frame.imageDescriptor.width
    requires row * frame.imageDescriptor.width + col < frame.imageDescriptor.width * frame.imageDescriptor.height
    requires transparent != Some(frame.imageData[row * frame.imageDescriptor.width + col])
    ensures frame.imageDescriptor.top + row < h && frame.imageDescriptor.left + col < w
    ensures frame.imageData[row * frame.imageDescriptor.width + col] < |palette| &&
      DrawnPart(img, frame, palette, transparent, row, col + 1) ==
        Paint(DrawnPart(img, frame, palette, transparent, row, col), frame.imageDescriptor.left + col, frame.imageDescriptor.top + row,
              HexColor(palette[frame.imageData[row * frame.imageDescriptor.width + col]]))
  {
    var d := frame.imageDescriptor;
    var x, y := d.left + col, d.top + row;
    var k := row * d.width + col;
    OpaquePixelOnCanvas(frame, transparent, row, col, w, h);
    var before := DrawnPart(img, frame, palette, transparent, row, col);
    var after := DrawnPart(img, frame, palette, transparent, row, col + 1);
    var painted := Paint(before, x, y, HexColor(palette[frame.imageData[k]]));
    forall i, j | 0 <= i < |img| && 0 <= j < |img[i]|
      ensures after[i][j] == painted[i][j]
    {
      DrawnPartCell(img, frame, palette, transparent, row, col, i, j);
    }
    SameCells(after, painted);
  }

  /** The cell of an opaque pixel at (row, col) of the rectangle is on the canvas. */
  lemma OpaquePixelOnCanvas(frame: Frame, transparent: Option<nat>, row: nat, col: nat, w: nat, h: nat)
    requires |frame.imageData| >= frame.imageDescriptor.width * frame.imageDescriptor.height
    requires OpaqueOnCanvas(frame, transparent, w, h)
    requires row < frame.imageDescriptor.height && col < frame.imageDescriptor.width
    requires row * frame.imageDescriptor.width + col < frame.imageDescriptor.width * frame.imageDescriptor.height
    requires transparent != Some(frame.imageData[row * frame.imageDescriptor.width + col])
    ensures frame.imageDescriptor.top + row < h && frame.imageDescriptor.left + col < w
  {
    var d := frame.imageDescriptor;
    var x, y := d.left + col, d.top + row;
    assert PixelIndex(d, x, y) == row * d.width + col;
    assert Opaque(frame, transparent, x, y);
  }

  /** Moving one position along the row changes at most the cell of that position. */
  lemma DrawnPartCell(img: Canvas, frame: Frame, palette: seq<Rgb>, transparent: Option<nat>, row: nat, col: nat, i: nat, j: nat)
    requires PixelsInPalette(frame, palette, transparent)
    requires row < frame.imageDescriptor.height && col < frame.imageDescriptor.width
    requires row * frame.imageDescriptor.width + col < frame.imageDescriptor.width * frame.imageDescriptor.height
    requires transparent != Some(frame.imageData[row * frame.imageDescriptor.width + col])
    requires i < |img| && j < |img[i]|
    ensures var d := frame.imageDescriptor;
      var after := DrawnPart(img, frame, palette, transparent, row, col + 1)[i][j];
      var before := DrawnPart(img, frame, palette, transparent, row, col)[i][j];
      frame.imageData[row * d.width + col] < |palette| &&
      after == if i == d.top + row && j == d.left + col then HexColor(palette[frame.imageData[row * d.width + col]]) else before
  {
    var d := frame.imageDescriptor;
    if i == d.top + row && j == d.left + col {
      assert PixelIndex(d, j, i) == row * d.width + col;
    } else {
      assert Before(d, j, i, row, col + 1) == Before(d, j, i, row, col);
    }
  }


  /** Without a transparent index the frame hides whatever its rectangle covered. */
  lemma OpaqueFrameCovers(a: Canvas, b: Canvas, frame: Frame, palette: seq<Rgb>)
    requires PixelsInPalette(frame, palette, None)
    requires |a| == |b| && forall y :: 0 <= y < |a| ==> |a[y]| == |b[y]|
    requires forall y, x :: 0 <= y < |a| && 0 <= x < |a[y]| && !InRect(frame.imageDescriptor, x, y) ==> a[y][x] == b[y][x]
    ensures Drawn(a, frame, palette, None) == Drawn(b, frame, palette, None)
  {
    SameCells(Drawn(a, frame, palette, None), Drawn(b, frame, palette, None));
  }

  /** Clearing the rectangle a frame was drawn in erases the frame: disposal method 2 undoes the drawing. */
  lemma ClearAfterDraw(img: Canvas, frame: Frame, palette: seq<Rgb>, transparent: Option<nat>)
    requires PixelsInPalette(frame, palette, transparent)
    ensures Cleared(Drawn(img, frame, palette, transparent), frame.imageDescriptor) == Cleared(img, frame.imageDescriptor)
  {
    SameCells(Cleared(Drawn(img, frame, palette, transparent), frame.imageDescriptor), Cleared(img, frame.imageDescriptor));
  }

  /** A pixel of the transparent index leaves its cell as it was. */
  lemma TransparentPixelKept(img: Canvas, frame: Frame, palette: seq<Rgb>, x: nat, y: nat)
    requires frame.graphicControlExtension.Some? && frame.graphicControlExtension.value.transparencyFlag != 0
    requires PixelsInPalette(frame, palette, TransparentIndex(frame))
    requires y < |img| && x < |img[y]| && InRect(frame.imageDescriptor, x, y)
    requires frame.imageData[PixelIndex(frame.imageDescriptor, x, y)] == frame.graphicControlExtension.value.transparentColorIndex
    ensures Drawn(img, frame, palette, TransparentIndex(frame))[y][x] == img[y][x]
  {
  }

  /** The test suite's one-pixel frame of colour (0xB8, 0, 0) over a one-cell checkerboard. */
  lemma ApplyFrameExample(frame: Frame)
    requires frame.imageDescriptor.left == 0 && frame.imageDescriptor.top == 0
    requires frame.imageDescriptor.width == 1 && frame.imageDescriptor.height == 1 && frame.imageData == [0]
    ensures Drawn(CreateCheckerboard(1, 1), frame, [Rgb(0xB8, 0, 0)], None) == [["#B80000"]]
  {
    HexColorExample();
    var r := Drawn(CreateCheckerboard(1, 1), frame, [Rgb(0xB8, 0, 0)], None);
    assert Opaque(frame, None, 0, 0) && PixelIndex(frame.imageDescriptor, 0, 0) == 0;
    assert r[0][0] == "#B80000";
    assert r[0] == ["#B80000"];
  }

  /**
   * A two-pixel frame overhanging a one-cell canvas is drawable when the pixel
   * outside is transparent: only the opaque pixel is written.
   */
  lemma TransparentOverhangExample(frame: Frame)
    requires frame.imageDescriptor.left == 0 && frame.imageDescriptor.top == 0
    requires frame.imageDescriptor.width == 2 && frame.imageDescriptor.height == 1 && frame.imageData == [1, 0]
    requires frame.localColorTable.None? && TransparentIndex(frame) == Some(0)
    ensures !RectFits(frame.imageDescriptor, 1, 1)
    ensures Drawable(frame, Some(ColorTable([Rgb(0, 0, 0), Rgb(0xB8, 0, 0)])), 1, 1)
    ensures Drawn(CreateCheckerboard(1, 1), frame, [Rgb(0, 0, 0), Rgb(0xB8, 0, 0)], Some(0)) == [["#B80000"]]
  {
    var d := frame.imageDescriptor;
    assert PixelIndex(d, 0, 0) == 0 && PixelIndex(d, 1, 0) == 1;
    assert !Opaque(frame, Some(0), 1, 0);
    HexColorExample();
    var r := Drawn(CreateCheckerboard(1, 1), frame, [Rgb(0, 0, 0), Rgb(0xB8, 0, 0)], Some(0));
    assert r[0][0] == "#B80000";
    assert r[0] == ["#B80000"];
  }

  // ---------------------------------------------------------------------------
  // Disposal and animation steps

  /** The frame's disposal method, 0 without a graphic control extension. */
  function DisposalOf(frame: Frame): (m: nat)
    ensures frame.graphicControlExtension.None? ==> m == 0
    ensures frame.graphicControlExtension.Some? ==> m == frame.graphicControlExtension.value.disposalMethod
  {
    if frame.graphicControlExtension.Some? then frame.graphicControlExtension.value.disposalMethod else 0
  }

  /** The delay before the next frame: the extension's delay time as stored, else 100. */
  function Delay(frame: Frame): (t: nat)
    ensures frame.graphicControlExtension.None? ==> t == 100
    ensures frame.graphicControlExtension.Some? ==> t == frame.graphicControlExtension.value.delayTime
  {
    if frame.graphicControlExtension.Some? then frame.graphicControlExtension.value.delayTime else 100
  }

  /**
   * The canvas and snapshot stack after the disposal step for frame idx: the
   * previous frame's method 2 clears its rectangle, its method 3 pops the
   * latest snapshot if there is one; then a frame of method 3 pushes the
   * canvas it will be drawn over.
   */
  function DisposalStep(frames: seq<Frame>, idx: nat, base: Canvas, stack: seq<Canvas>): (r: (Canvas, seq<Canvas>))
    requires idx < |frames|
    ensures var popped := idx > 0 && DisposalOf(frames[idx - 1]) == 3 && stack != [];
      var pushed := DisposalOf(frames[idx]) == 3;
      |r.1| + (if popped then 1 else 0) == |stack| + (if pushed then 1 else 0)
    ensures DisposalOf(frames[idx]) == 3 ==> r.1 != [] && r.1[|r.1| - 1] == r.0
  {
    var (restored, rest) :=
      if idx > 0 && DisposalOf(frames[idx - 1]) == 2 then (Cleared(base, frames[idx - 1].imageDescriptor), stack)
      else if idx > 0 && DisposalOf(frames[idx - 1]) == 3 && stack != [] then (stack[|stack| - 1], stack[..|stack| - 1])
      else (base, stack);
    if DisposalOf(frames[idx]) == 3 then (restored, rest + [restored]) else (restored, rest)
  }

  /** At the first frame nothing is restored. */
  lemma DisposalFirstFrame(frames: seq<Frame>, base: Canvas, stack: seq<Canvas>)
    requires 0 < |frames|
    ensures DisposalStep(frames, 0, base, stack).0 == base
    ensures DisposalOf(frames[0]) != 3 ==> DisposalStep(frames, 0, base, stack).1 == stack
  {
  }

  /** Two frames of method 3 in a row leave one snapshot, equal to the canvas. */
  lemma TwoRestoreFrames(frames: seq<Frame>, base: Canvas)
    requires 2 <= |frames| && DisposalOf(frames[0]) == 3 && DisposalOf(frames[1]) == 3
    ensures var (b0, s0) := DisposalStep(frames, 0, base, []);
      var (b1, s1) := DisposalStep(frames, 1, b0, s0);
      s1 == [b1] && b1 == base
  {
  }

  // ---------------------------------------------------------------------------
  // The viewer

  /** A canvas and snapshots of the screen's size. */
  ghost predicate CanvasOfSize(base: Canvas, stack: seq<Canvas>, w: nat, h: nat)
  {
    IsGrid(base, w, h) && forall k :: 0 <= k < |stack| ==> IsGrid(stack[k], w, h)
  }

  /** Clearing and drawing keep a canvas's shape. */
  lemma DisposalKeepsSize(frames: seq<Frame>, idx: nat, base: Canvas, stack: seq<Canvas>, w: nat, h: nat)
    requires idx < |frames| && CanvasOfSize(base, stack, w, h)
    ensures var (b, s) := DisposalStep(frames, idx, base, stack); CanvasOfSize(b, s, w, h)
  {
    if idx > 0 && DisposalOf(frames[idx - 1]) == 3 && stack != [] {
      assert IsGrid(stack[|stack| - 1], w, h);
    }
  }

  /** `GifViewer` without its window: the parsed file's data and the compositing state. */
  class GifViewer {
    const width: nat
    const height: nat
    const globalColorTable: Option<ColorTable>
    const frames: seq<Frame>
    var currentFrameIdx: nat
    var baseImage: Canvas
    var previousImagesStack: seq<Canvas>

    /** The canvas and every snapshot have the logical screen's size. */
    ghost predicate Valid()
      reads this
    {
      CanvasOfSize(baseImage, previousImagesStack, width, height)
    }

    /** `__init__`: from the parsed descriptor, global table and frames. */
    constructor (lsd: LogicalScreenDescriptor, globalColorTable: Option<ColorTable>, frames: seq<Frame>)
      ensures Valid()
      ensures width == lsd.width && height == lsd.height
      ensures this.globalColorTable == globalColorTable && this.frames == frames
      ensures currentFrameIdx == 0 && baseImage == CreateCheckerboard(lsd.width, lsd.height) && previousImagesStack == []
    {
      width, height := lsd.width, lsd.height;
      this.globalColorTable, this.frames := globalColorTable, frames;
      currentFrameIdx := 0;
      baseImage := CreateCheckerboard(lsd.width, lsd.height);
      previousImagesStack := [];
    }

    /** `_calculate_window_size`: the image plus 21 pixels of scrollbar, capped by the screen. */
    function CalculateWindowSize(screenWidth: nat, screenHeight: nat): (r: (nat, nat))
      ensures r.0 <= width + 21 && r.0 <= screenWidth && (r.0 == width + 21 || r.0 == screenWidth)
      ensures r.1 <= height + 21 && r.1 <= screenHeight && (r.1 == height + 21 || r.1 == screenHeight)
    {
      var scrollbarWidth, scrollbarHeight := 21, 21;
      (if width + scrollbarWidth < screenWidth then width + scrollbarWidth else screenWidth,
       if height + scrollbarHeight < screenHeight then height + scrollbarHeight else screenHeight)
    }

    /** `_clear_image`: repaints the rectangle with the checkerboard, row by row. */
    method ClearImage(descriptor: ImageDescriptor)
      requires Valid() && RectFits(descriptor, width, height)
      modifies this
      ensures Valid()
      ensures baseImage == Cleared(old(baseImage), descriptor)
      ensures previousImagesStack == old(previousImagesStack) && currentFrameIdx == old(currentFrameIdx)
    {
      var left: nat, top: nat, w: nat, h: nat := descriptor.left, descriptor.top, descriptor.width, descriptor.height;
      var y := top;
      while y < top + h
        invariant top <= y <= top + h
        invariant IsGrid(baseImage, width, height)
        invariant previousImagesStack == old(previousImagesStack) && currentFrameIdx == old(currentFrameIdx)
        invariant forall i, j :: 0 <= i < height && 0 <= j < width ==>
          baseImage[i][j] == (if InRect(descriptor, j, i) && i < y then CheckerColor(j, i) else old(baseImage)[i][j])
      {
        var x := left;
        while x < left + w
          invariant left <= x <= left + w
          invariant IsGrid(baseImage, width, height)
          invariant previousImagesStack == old(previousImagesStack) && currentFrameIdx == old(currentFrameIdx)
          invariant forall i, j :: 0 <= i < height && 0 <= j < width ==>
            baseImage[i][j] == (if InRect(descriptor, j, i) && (i < y || (i == y && j < x)) then CheckerColor(j, i) else old(baseImage)[i][j])
        {
          var tileX, tileY := x / 10, y / 10;
          var color := if (tileX + tileY) % 2 == 0 then Light else Dark;
          baseImage := baseImage[y := baseImage[y][x := color]];
          x := x + 1;
        }
        y := y + 1;
      }
      SameCells(baseImage, Cleared(old(baseImage), descriptor));
    }

    /** `_apply_frame`: draws the frame's pixels into its rectangle, skipping the transparent index. */
    method ApplyFrame(frame: Frame)
      requires Valid() && Drawable(frame, globalColorTable, width, height)
      modifies this
      ensures Valid()
      ensures baseImage == Drawn(old(baseImage), frame, Palette(frame, globalColorTable).value, TransparentIndex(frame))
      ensures previousImagesStack == old(previousImagesStack) && currentFrameIdx == old(currentFrameIdx)
    {
      var descriptor := frame.imageDescriptor;
      var rectHeight: nat := descriptor.height;
      var colorTable := if frame.localColorTable.Some? then frame.localColorTable.value.colors
                        else globalColorTable.value.colors;
      var transparentIdx := if frame.graphicControlExtension.Some? && frame.graphicControlExtension.value.transparencyFlag != 0
                            then Some(frame.graphicControlExtension.value.transparentColorIndex) else None;
      ghost var start := baseImage;
      DrawnPartStart(start, frame, colorTable, transparentIdx);
      var y := 0;
      while y < rectHeight
        invariant y <= rectHeight
        invariant baseImage == DrawnPart(start, frame, colorTable, transparentIdx, y, 0)
        invariant previousImagesStack == old(previousImagesStack) && currentFrameIdx == old(currentFrameIdx)
      {
        DrawRow(frame, colorTable, transparentIdx, y, start);
        y := y + 1;
      }
      DrawnPartEnd(start, frame, colorTable, transparentIdx);
    }

    /** The inner loop of `_apply_frame`: row y of the frame. */
    method DrawRow(frame: Frame, colorTable: seq<Rgb>, transparentIdx: Option<nat>, y: nat, ghost start: Canvas)
      requires PixelsInPalette(frame, colorTable, transparentIdx) && IsGrid(start, width, height)
      requires OpaqueOnCanvas(frame, transparentIdx, width, height) && y < frame.imageDescriptor.height
      requires baseImage == DrawnPart(start, frame, colorTable, transparentIdx, y, 0)
      modifies this
      ensures baseImage == DrawnPart(start, frame, colorTable, transparentIdx, y + 1, 0)
      ensures previousImagesStack == old(previousImagesStack) && currentFrameIdx == old(currentFrameIdx)
    {
      var x := 0;
      while x < frame.imageDescriptor.width
        invariant x <= frame.imageDescriptor.width
        invariant baseImage == DrawnPart(start, frame, colorTable, transparentIdx, y, x)
        invariant previousImagesStack == old(previousImagesStack) && currentFrameIdx == old(currentFrameIdx)
      {
        DrawPixel(frame, colorTable, transparentIdx, y, x, start);
        x := x + 1;
      }
      DrawnPartNextRow(start, frame, colorTable, transparentIdx, y);
    }

    /** One turn of the inner loop: pixel (x, y) of the frame goes to the canvas unless it is transparent. */
    method DrawPixel(frame: Frame, colorTable: seq<Rgb>, transparentIdx: Option<nat>, y: nat, x: nat, ghost start: Canvas)
      requires PixelsInPalette(frame, colorTable, transparentIdx) && IsGrid(start, width, height)
      requires OpaqueOnCanvas(frame, transparentIdx, width, height)
      requires y < frame.imageDescriptor.height && x < frame.imageDescriptor.width
      requires baseImage == DrawnPart(start, frame, colorTable, transparentIdx, y, x)
      modifies this
      ensures baseImage == DrawnPart(start, frame, colorTable, transparentIdx, y, x + 1)
      ensures previousImagesStack == old(previousImagesStack) && currentFrameIdx == old(currentFrameIdx)
    {
      var descriptor := frame.imageDescriptor;
      var left: nat, top: nat := descriptor.left, descriptor.top;
      IndexBound(y, x, descriptor.width, descriptor.height);
      var colorIdx := frame.imageData[y * descriptor.width + x];
      if transparentIdx.Some? && colorIdx == transparentIdx.value {
        DrawnPartSkip(start, frame, colorTable, transparentIdx, y, x);
        return;
      }
      DrawnPartPaint(start, frame, colorTable, transparentIdx, y, x, width, height);
      var rgb := colorTable[colorIdx];
      var color := HexColor(rgb);
      baseImage := Paint(baseImage, left + x, top + y, color);
    }

    /** `_process_disposal`. */
    method ProcessDisposal()
      requires Valid() && currentFrameIdx < |frames|
      requires currentFrameIdx > 0 && DisposalOf(frames[currentFrameIdx - 1]) == 2 ==>
        RectFits(frames[currentFrameIdx - 1].imageDescriptor, width, height)
      modifies this
      ensures Valid()
      ensures currentFrameIdx == old(currentFrameIdx)
      ensures (baseImage, previousImagesStack) == DisposalStep(frames, old(currentFrameIdx), old(baseImage), old(previousImagesStack))
    {
      var frame := frames[currentFrameIdx];
      var disposal := if frame.graphicControlExtension.Some? then frame.graphicControlExtension.value.disposalMethod else 0;
      if currentFrameIdx > 0 {
        var prevFrame := frames[currentFrameIdx - 1];
        var prevDisposal := if prevFrame.graphicControlExtension.Some? then prevFrame.graphicControlExtension.value.disposalMethod else 0;
        if prevDisposal == 2 {
          ClearImage(prevFrame.imageDescriptor);
        } else if prevDisposal == 3 && previousImagesStack != [] {
          baseImage := previousImagesStack[|previousImagesStack| - 1];
          previousImagesStack := previousImagesStack[..|previousImagesStack| - 1];
        }
      }
      if disposal == 3 {
        previousImagesStack := previousImagesStack + [baseImage];
      }
    }

    /**
     * What one animation step needs: the previous frame's rectangle on the
     * canvas when disposal 2 clears it, the current frame drawable, and its
     * rectangle on the canvas when, as the last of several, it is cleared.
     */
    ghost predicate CanAnimate()
      reads this
    {
      Valid() && currentFrameIdx < |frames| &&
      (currentFrameIdx > 0 && DisposalOf(frames[currentFrameIdx - 1]) == 2 ==>
        RectFits(frames[currentFrameIdx - 1].imageDescriptor, width, height)) &&
      Drawable(frames[currentFrameIdx], globalColorTable, width, height) &&
      (|frames| > 1 && currentFrameIdx == |frames| - 1 ==> RectFits(frames[currentFrameIdx].imageDescriptor, width, height))
    }

    /**
     * `animate`: dispose, draw the current frame, and with more than one frame
     * clear the last frame after drawing it and move on cyclically; the result
     * is the delay the next step is scheduled after (None: no next step).
     */
    method Animate() returns (scheduled: Option<nat>)
      requires CanAnimate()
      modifies this
      ensures Valid()
      ensures var idx, n := old(currentFrameIdx), |frames|;
        var frame := frames[idx];
        var (restored, stack) := DisposalStep(frames, idx, old(baseImage), old(previousImagesStack));
        var drawn := Drawn(restored, frame, Palette(frame, globalColorTable).value, TransparentIndex(frame));
        previousImagesStack == stack &&
        (n == 1 ==> scheduled == None && currentFrameIdx == idx && baseImage == drawn) &&
        (n > 1 ==> scheduled == Some(Delay(frame)) && currentFrameIdx == (idx + 1) % n && currentFrameIdx < n) &&
        (n > 1 && idx < n - 1 ==> baseImage == drawn) &&
        (n > 1 && idx == n - 1 ==> currentFrameIdx == 0 && baseImage == Cleared(restored, frame.imageDescriptor))
    {
      var frame := frames[currentFrameIdx];
      var delay := if frame.graphicControlExtension.Some? then frame.graphicControlExtension.value.delayTime else 100;
      ghost var restored := DisposalStep(frames, currentFrameIdx, baseImage, previousImagesStack).0;
      ProcessDisposal();
      ApplyFrame(frame);
      scheduled := None;
      if |frames| > 1 {
        if currentFrameIdx == |frames| - 1 {
          ClearImage(frame.imageDescriptor);
          ClearAfterDraw(restored, frame, Palette(frame, globalColorTable).value, TransparentIndex(frame));
        }
        currentFrameIdx := (currentFrameIdx + 1) % |frames|;
        scheduled := Some(delay);
      }
    }
  }
}
