/*
 * The records a parsed GIF file is made of: header, logical screen descriptor,
 * colour tables, image descriptor, the four extensions and the frame that
 * gathers them.  The descriptors decode their packed flag byte on demand, the
 * way the source's `@property` accessors do.
 */
module GifStructs {
  import opened Bits
  import opened Wrappers

  /** One colour-table entry, an `(r, g, b)` tuple. */
  datatype Rgb = Rgb(r: byte, g: byte, b: byte)

  /** `GifHeader`: the signature and version strings. */
  datatype Header = Header(signature: string, version: string)

  /** `GifLogicalScreenDescriptor`. */
  datatype LogicalScreenDescriptor = LogicalScreenDescriptor(
    width: u16, height: u16, packed: byte, bgColorIndex: byte, pixelAspectRatio: byte)
  {
    /** `(packed & 0x80) >> 7`: whether a global colour table follows. */
    function GlobalColorTableFlag(): (r: nat)
      ensures r == packed / 128
      ensures r == 1 <==> packed >= 128
      ensures r <= 1
    {
      BitField(packed, 7, 1);
      Pow2Table();
      assert Shl(Pow2(1) - 1, 7) == 0x80;
      Shr(BitAnd(packed, 0x80), 7)
    }

    /** `(packed & 0x08) >> 3`: bit 3. */
    function SortFlag(): (r: nat)
      ensures r == (packed / 8) % 2
      ensures r <= 1
    {
      BitField(packed, 3, 1);
      Pow2Table();
      assert Shl(Pow2(1) - 1, 3) == 0x08;
      Shr(BitAnd(packed, 0x08), 3)
    }

    /** `2 ** ((packed & 0x07) + 1)`, whether or not the flag is set. */
    function GlobalColorTableSize(): (r: nat)
      ensures r == Pow2(packed % 8 + 1)
      ensures r in {2, 4, 8, 16, 32, 64, 128, 256}
    {
      BitField(packed, 0, 3);
      Pow2Table();
      assert Shl(Pow2(3) - 1, 0) == 0x07;
      ColorTableSizeRange(packed % 8);
      Pow2(BitAnd(packed, 0x07) + 1)
    }

    /** `__eq__`: all five fields compared. */
    function Equals(other: LogicalScreenDescriptor): (r: bool)
      ensures r <==> this == other
    {
      width == other.width && height == other.height && packed == other.packed &&
      bgColorIndex == other.bgColorIndex && pixelAspectRatio == other.pixelAspectRatio
    }
  }

  /** `GifImageDescriptor`. */
  datatype ImageDescriptor = ImageDescriptor(left: u16, top: u16, width: u16, height: u16, packed: byte)
  {
    /** `(packed & 0x80) >> 7`. */
    function LocalColorTableFlag(): (r: nat)
      ensures r == packed / 128
      ensures r == 1 <==> packed >= 128
      ensures r <= 1
    {
      BitField(packed, 7, 1);
      Pow2Table();
      assert Shl(Pow2(1) - 1, 7) == 0x80;
      Shr(BitAnd(packed, 0x80), 7)
    }

    /** `(packed & 0x40) >> 6`. */
    function InterlaceFlag(): (r: nat)
      ensures r == (packed / 64) % 2
      ensures r <= 1
    {
      BitField(packed, 6, 1);
      Pow2Table();
      assert Shl(Pow2(1) - 1, 6) == 0x40;
      Shr(BitAnd(packed, 0x40), 6)
    }

    /** `(packed & 0x20) >> 5`. */
    function SortFlag(): (r: nat)
      ensures r == (packed / 32) % 2
      ensures r <= 1
    {
      BitField(packed, 5, 1);
      Pow2Table();
      assert Shl(Pow2(1) - 1, 5) == 0x20;
      Shr(BitAnd(packed, 0x20), 5)
    }

    /** `2 ** ((packed & 0x07) + 1)` when the local-table flag is set, else 0. */
    function LocalColorTableSize(): (r: nat)
      ensures packed >= 128 ==> r == Pow2(packed % 8 + 1) && r in {2, 4, 8, 16, 32, 64, 128, 256}
      ensures packed < 128 ==> r == 0
    {
      BitField(packed, 0, 3);
      Pow2Table();
      assert Shl(Pow2(3) - 1, 0) == 0x07;
      ColorTableSizeRange(packed % 8);
      var n := BitAnd(packed, 0x07);
      if LocalColorTableFlag() != 0 then Pow2(n + 1) else 0
    }

    /** `__eq__`: all five fields compared. */
    function Equals(other: ImageDescriptor): (r: bool)
      ensures r <==> this == other
    {
      left == other.left && top == other.top && width == other.width &&
      height == other.height && packed == other.packed
    }
  }

  lemma ColorTableSizeRange(n: nat)
    requires n < 8
    ensures Pow2(n + 1) in {2, 4, 8, 16, 32, 64, 128, 256}
  {
    Pow2Table();
  }

  /**
   * A global or local colour table. Its `__eq__` walks the two colour lists
   * side by side, as `zip` does, and stops at the shorter one.
   */
  datatype ColorTable = ColorTable(colors: seq<Rgb>)
  {
    function Equals(other: ColorTable): (r: bool)
      ensures r <==> forall i :: 0 <= i < |colors| && i < |other.colors| ==> colors[i] == other.colors[i]
    {
      ZipEqual(colors, other.colors)
    }
  }

  /** The `for color1, color2 in zip(...)` loop: False at the first differing pair, else True. */
  function ZipEqual(xs: seq<Rgb>, ys: seq<Rgb>): (r: bool)
    ensures r <==> forall i :: 0 <= i < |xs| && i < |ys| ==> xs[i] == ys[i]
  {
    if xs == [] || ys == [] then true
    else if xs[0] != ys[0] then false
    else
      var rest := ZipEqual(xs[1..], ys[1..]);
      assert forall i :: 1 <= i < |xs| && i < |ys| ==> xs[i] == xs[1..][i - 1] && ys[i] == ys[1..][i - 1];
      rest
  }

  lemma EqualsReflexive(a: ColorTable)
    ensures a.Equals(a)
  {
  }

  lemma EqualsSymmetric(a: ColorTable, b: ColorTable)
    ensures a.Equals(b) == b.Equals(a)
  {
  }

  /** Lengths are never compared: a table equals every extension of itself, both ways round. */
  lemma EqualsExtension(a: ColorTable, more: seq<Rgb>)
    ensures a.Equals(ColorTable(a.colors + more))
    ensures ColorTable(a.colors + more).Equals(a)
  {
    var b := a.colors + more;
    assert forall i :: 0 <= i < |a.colors| ==> b[i] == a.colors[i];
  }

  /** The empty table equals every table. */
  lemma EmptyEqualsAll(a: ColorTable)
    ensures ColorTable([]).Equals(a) && a.Equals(ColorTable([]))
  {
  }

  /** A differing pair inside the common prefix makes the tables unequal. */
  lemma DifferenceInPrefix(a: ColorTable, b: ColorTable, i: nat)
    requires i < |a.colors| && i < |b.colors| && a.colors[i] != b.colors[i]
    ensures !a.Equals(b)
  {
  }

  /** Because of the prefix rule, the equality is not transitive. */
  lemma EqualsNotTransitive()
    ensures var a, e, b := ColorTable([Rgb(0, 0, 0)]), ColorTable([]), ColorTable([Rgb(255, 255, 255)]);
      a.Equals(e) && e.Equals(b) && !a.Equals(b)
  {
    DifferenceInPrefix(ColorTable([Rgb(0, 0, 0)]), ColorTable([Rgb(255, 255, 255)]), 0);
  }

  /** `GifGraphicControlExtension`. */
  datatype GraphicControlExtension = GraphicControlExtension(
    disposalMethod: nat, userInputFlag: nat, transparencyFlag: nat,
    delayTime: u16, transparentColorIndex: byte)

  /**
   * `GifPlainTextExtension`, fields in the constructor's own order
   * (left, top, height, width, ...).
   */
  datatype PlainTextExtension = PlainTextExtension(
    leftPos: u16, topPos: u16, height: u16, width: u16,
    cellWidth: byte, cellHeight: byte,
    foregroundColorIndex: byte, backgroundColorIndex: byte, textData: string)

  /** `GifApplicationExtension`. */
  datatype ApplicationExtension = ApplicationExtension(
    applicationId: string, authenticationCode: string, data: seq<byte>)

  /** `GifCommentExtension`. */
  datatype CommentExtension = CommentExtension(comment: string)

  /** `GifFrame`: one image with the extensions that preceded it. */
  datatype Frame = Frame(
    imageDescriptor: ImageDescriptor,
    localColorTable: Option<ColorTable>,
    graphicControlExtension: Option<GraphicControlExtension>,
    plainTextExt: Option<PlainTextExtension>,
    applicationExt: Option<ApplicationExtension>,
    commentExt: Option<CommentExtension>,
    imageData: seq<nat>)
}
