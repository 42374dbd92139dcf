/*
 * Properties of the parser's field decoders: each decoder inverts the way a
 * GIF encoder lays its record out, and the decoders give the records the
 * test suite expects on its sample bytes.
 */
module ParserProperties {
  import opened Bits
  import opened Wrappers
  import opened GifStructs
  import opened Parser

  /** The two bytes of a 16-bit field, low byte first, read back as the field. */
  lemma U16Bytes(v: u16)
    ensures LeValue([v % 256, v / 256]) == v
  {
    var r := LittleEndian16(v % 256, v / 256);
    assert r == 256 * (r / 256) + r % 256;
  }

  function EncodeLogicalScreenDescriptor(d: LogicalScreenDescriptor): seq<byte>
  {
    [d.width % 256, d.width / 256, d.height % 256, d.height / 256, d.packed, d.bgColorIndex, d.pixelAspectRatio]
  }

  /** The seven descriptor bytes decode back to the descriptor. */
  lemma LogicalScreenDescriptorRoundTrip(d: LogicalScreenDescriptor)
    ensures ParseLogicalScreenDescriptor(EncodeLogicalScreenDescriptor(d)) == Success(d)
  {
    var e := EncodeLogicalScreenDescriptor(d);
    assert e[0..2] == [e[0], e[1]] && e[2..4] == [e[2], e[3]];
    U16Bytes(d.width);
    U16Bytes(d.height);
  }

  function EncodeImageDescriptor(d: ImageDescriptor): seq<byte>
  {
    [d.left % 256, d.left / 256, d.top % 256, d.top / 256,
     d.width % 256, d.width / 256, d.height % 256, d.height / 256, d.packed]
  }

  /** The nine image-descriptor bytes decode back to the descriptor. */
  lemma ImageDescriptorRoundTrip(d: ImageDescriptor)
    ensures DecodeImageDescriptor(EncodeImageDescriptor(d)) == Success(d)
  {
    var e := EncodeImageDescriptor(d);
    assert e[0..2] == [e[0], e[1]] && e[2..4] == [e[2], e[3]];
    assert e[4..6] == [e[4], e[5]] && e[6..8] == [e[6], e[7]];
    U16Bytes(d.left);
    U16Bytes(d.top);
    U16Bytes(d.width);
    U16Bytes(d.height);
  }

  /** The fields a graphic control extension's four bytes can carry. */
  predicate EncodableGce(g: GraphicControlExtension)
  {
    g.disposalMethod < 8 && g.userInputFlag <= 1 && g.transparencyFlag <= 1
  }

  function EncodeGce(g: GraphicControlExtension): seq<byte>
    requires EncodableGce(g)
  {
    [g.disposalMethod * 4 + g.userInputFlag * 2 + g.transparencyFlag,
     g.delayTime % 256, g.delayTime / 256, g.transparentColorIndex]
  }

  /** The packed byte's three fields, the delay and the index decode back unchanged. */
  lemma GceRoundTrip(g: GraphicControlExtension)
    requires EncodableGce(g)
    ensures ParseGraphicControlExtension(EncodeGce(g)) == Success(g)
  {
    var e := EncodeGce(g);
    var p := e[0];
    assert p == g.disposalMethod * 4 + g.userInputFlag * 2 + g.transparencyFlag;
    assert p % 2 == g.transparencyFlag;
    assert p / 2 == g.disposalMethod * 2 + g.userInputFlag;
    assert (p / 2) % 2 == g.userInputFlag;
    assert p / 4 == g.disposalMethod;
  }

  /** The byte triples of a colour list. */
  function FlattenColors(colors: seq<Rgb>): (r: seq<byte>)
    ensures |r| == 3 * |colors|
  {
    if colors == [] then [] else [colors[0].r, colors[0].g, colors[0].b] + FlattenColors(colors[1..])
  }

  /** A colour table's bytes decode back to the same colours. */
  lemma {:induction false} ColorsRoundTrip(colors: seq<Rgb>)
    ensures ColorsFrom(FlattenColors(colors)) == Success(ColorTable(colors))
  {
    if colors != [] {
      var data := FlattenColors(colors);
      assert data[3..] == FlattenColors(colors[1..]);
      ColorsRoundTrip(colors[1..]);
      assert [colors[0]] + colors[1..] == colors;
    }
  }

  /** The plain-text extension's grid width and height, bytes 4-5 and 6-7, land in the record swapped. */
  lemma PlainTextSwap(left: u16, top: u16, gridWidth: u16, gridHeight: u16, cells: seq<byte>, text: seq<byte>)
    requires |cells| == 4
    ensures var r := ParsePlainTextExtension(
        [left % 256, left / 256, top % 256, top / 256,
         gridWidth % 256, gridWidth / 256, gridHeight % 256, gridHeight / 256] + cells, text);
      r.Success? && r.value.leftPos == left && r.value.topPos == top &&
      r.value.height == gridWidth && r.value.width == gridHeight
  {
    var d: seq<byte> := [left % 256, left / 256, top % 256, top / 256,
         gridWidth % 256, gridWidth / 256, gridHeight % 256, gridHeight / 256] + cells;
    assert d[0..2] == [d[0], d[1]] && d[2..4] == [d[2], d[3]];
    assert d[4..6] == [d[4], d[5]] && d[6..8] == [d[6], d[7]];
    U16Bytes(left);
    U16Bytes(top);
    U16Bytes(gridWidth);
    U16Bytes(gridHeight);
  }

  // ---------------------------------------------------------------------------
  // Blocks as an encoder lays them out

  /** Encoded sub-blocks and their zero terminator, wherever they sit, read back as their payload. */
  lemma SubBlocksAfter(prefix: seq<byte>, chunks: seq<seq<byte>>, rest: seq<byte>)
    requires forall i :: 0 <= i < |chunks| ==> 0 < |chunks[i]| < 0x100
    ensures SubBlocksAt(prefix + EncodeSubBlocks(chunks) + [0] + rest, |prefix|)
         == (Concat(chunks), |prefix| + |EncodeSubBlocks(chunks)| + 1)
  {
    var enc := EncodeSubBlocks(chunks);
    var data := prefix + enc + [0] + rest;
    assert data[|prefix|..|prefix| + |enc| + 1] == enc + [0];
    SubBlocksRoundTrip(data, |prefix|, chunks);
  }

  /** A graphic control extension block fills the first slot with its record and ends after its terminator. */
  lemma GceBlockRoundTrip(data: seq<byte>, prefix: seq<byte>, g: GraphicControlExtension, rest: seq<byte>)
    requires EncodableGce(g) && data == prefix + [0xF9, 4] + EncodeGce(g) + [0] + rest
    ensures ExtensionAt(data, |prefix|) == Success((Pending(Some(g), None, None, None), |prefix| + 7))
  {
    assert Take(data, |prefix| + 2, 4) == EncodeGce(g);
    GceRoundTrip(g);
  }

  /** A plain-text extension header followed by any sub-blocks `enc` that read back as `text`. */
  lemma PlainTextLaidOut(data: seq<byte>, prefix: seq<byte>, pte: seq<byte>, enc: seq<byte>, text: seq<byte>, rest: seq<byte>)
    requires |pte| == 12 && data == prefix + [0x01, 12] + pte + enc + [0] + rest
    requires SubBlocksAt(data, |prefix| + 14) == (text, |prefix| + 14 + |enc| + 1)
    ensures var t := ParsePlainTextExtension(pte, text);
      t.Success? &&
      ExtensionAt(data, |prefix|) == Success((Pending(None, Some(t.value), None, None), |prefix| + 14 + |enc| + 1))
  {
    var n := |prefix|;
    assert data[n] == 0x01;
    assert data[n + 2..n + 14] == pte;
    PlainTextAt(data, n, pte, text, n + 14 + |enc| + 1);
  }

  /** A plain-text extension block fills the second slot with its twelve header bytes and its text. */
  lemma PlainTextBlockRoundTrip(data: seq<byte>, prefix: seq<byte>, pte: seq<byte>, chunks: seq<seq<byte>>, rest: seq<byte>)
    requires |pte| == 12 && forall i :: 0 <= i < |chunks| ==> 0 < |chunks[i]| < 0x100
    requires data == prefix + [0x01, 12] + pte + EncodeSubBlocks(chunks) + [0] + rest
    ensures var t := ParsePlainTextExtension(pte, Concat(chunks));
      t.Success? &&
      ExtensionAt(data, |prefix|) == Success((Pending(None, Some(t.value), None, None), |prefix| + 14 + |EncodeSubBlocks(chunks)| + 1))
  {
    SubBlocksAfter(prefix + [0x01, 12] + pte, chunks, rest);
    PlainTextLaidOut(data, prefix, pte, EncodeSubBlocks(chunks), Concat(chunks), rest);
  }

  /** An application extension header followed by any sub-blocks `enc` that read back as `text`. */
  lemma ApplicationLaidOut(data: seq<byte>, prefix: seq<byte>, appData: seq<byte>, enc: seq<byte>, text: seq<byte>, rest: seq<byte>)
    requires |appData| == 11 && data == prefix + [0xFF, 11] + appData + enc + [0] + rest
    requires SubBlocksAt(data, |prefix| + 13) == (text, |prefix| + 13 + |enc| + 1)
    ensures ExtensionAt(data, |prefix|)
         == Success((Pending(None, None, Some(ParseApplicationExtension(appData, text)), None), |prefix| + 13 + |enc| + 1))
  {
    var n := |prefix|;
    assert data[n] == 0xFF;
    assert data[n + 2..n + 13] == appData;
    ApplicationAt(data, n, appData, text, n + 13 + |enc| + 1);
  }

  /** An application extension block fills the third slot with its eleven identifier bytes and its data. */
  lemma ApplicationBlockRoundTrip(data: seq<byte>, prefix: seq<byte>, appData: seq<byte>, chunks: seq<seq<byte>>, rest: seq<byte>)
    requires |appData| == 11 && forall i :: 0 <= i < |chunks| ==> 0 < |chunks[i]| < 0x100
    requires data == prefix + [0xFF, 11] + appData + EncodeSubBlocks(chunks) + [0] + rest
    ensures ExtensionAt(data, |prefix|)
         == Success((Pending(None, None, Some(ParseApplicationExtension(appData, Concat(chunks))), None),
                     |prefix| + 13 + |EncodeSubBlocks(chunks)| + 1))
  {
    SubBlocksAfter(prefix + [0xFF, 11] + appData, chunks, rest);
    ApplicationLaidOut(data, prefix, appData, EncodeSubBlocks(chunks), Concat(chunks), rest);
  }

  /** A comment extension block fills the fourth slot with the decoded text of its sub-blocks. */
  lemma CommentBlockRoundTrip(data: seq<byte>, prefix: seq<byte>, chunks: seq<seq<byte>>, rest: seq<byte>)
    requires forall i :: 0 <= i < |chunks| ==> 0 < |chunks[i]| < 0x100
    requires data == prefix + [0xFE] + EncodeSubBlocks(chunks) + [0] + rest
    ensures ExtensionAt(data, |prefix|)
         == Success((Pending(None, None, None, Some(CommentExtension(AsciiDecode(Concat(chunks))))),
                     |prefix| + 1 + |EncodeSubBlocks(chunks)| + 1))
  {
    SubBlocksAfter(prefix + [0xFE], chunks, rest);
  }

  /** An extension with any other label is skipped whole and leaves all four slots empty. */
  lemma OtherExtensionSkipped(data: seq<byte>, prefix: seq<byte>, extLabel: byte, chunks: seq<seq<byte>>, rest: seq<byte>)
    requires extLabel != 0xF9 && extLabel != 0x01 && extLabel != 0xFF && extLabel != 0xFE
    requires forall i :: 0 <= i < |chunks| ==> 0 < |chunks[i]| < 0x100
    requires data == prefix + [extLabel] + EncodeSubBlocks(chunks) + [0] + rest
    ensures ExtensionAt(data, |prefix|)
         == Success((NoPending, |prefix| + 1 + |EncodeSubBlocks(chunks)| + 1))
  {
    SubBlocksAfter(prefix + [extLabel], chunks, rest);
  }

  /** A local colour table of the descriptor's size reads back as the same colours. */
  lemma LocalColorTableRoundTrip(data: seq<byte>, prefix: seq<byte>, id: ImageDescriptor, colors: seq<Rgb>, rest: seq<byte>)
    requires id.packed >= 128 && |colors| == id.LocalColorTableSize() && data == prefix + FlattenColors(colors) + rest
    ensures LocalColorTableAt(data, |prefix|, id) == Success((Some(ColorTable(colors)), |prefix| + 3 * |colors|))
  {
    assert Take(data, |prefix|, 3 * id.LocalColorTableSize()) == FlattenColors(colors);
    ColorsRoundTrip(colors);
  }

  /** Minimum code size 2 and one sub-block holding clear, 0, end decode to the single index 0. */
  lemma IndicesExample(data: seq<byte>, prefix: seq<byte>, rest: seq<byte>)
    requires data == prefix + [2, 2, 0x44, 0x01, 0] + rest
    ensures var expected: (seq<nat>, nat) := ([0], |prefix| + 5);
      IndicesAt(data, |prefix|) == Success(expected)
  {
    var chunks: seq<seq<byte>> := [[0x44, 0x01]];
    assert EncodeSubBlocks(chunks) == [2, 0x44, 0x01];
    assert data == prefix + [2] + EncodeSubBlocks(chunks) + [0] + rest;
    SubBlocksAfter(prefix + [2], chunks, rest);
    assert Concat(chunks) == [0x44, 0x01] + [];
    Lzw.DecodeStopsAtEndCode([]);
  }

  // ---------------------------------------------------------------------------
  // The test suite's samples

  lemma HeaderExample()
    ensures ParseHeader([0x47, 0x49, 0x46, 0x38, 0x39, 0x61]) == Some(Header("GIF", "89a"))
  {
    var d: seq<byte> := [0x47, 0x49, 0x46, 0x38, 0x39, 0x61];
    assert d[..3] == [0x47, 0x49, 0x46];
    assert d[3..6] == [0x38, 0x39, 0x61];
    assert AsciiDecode(d[..3]) == "GIF";
    assert AsciiDecode(d[3..6]) == "89a";
  }

  lemma LogicalScreenDescriptorExample()
    ensures ParseLogicalScreenDescriptor([0x2C, 0x01, 0x2C, 0x01, 0x80, 0x01, 0x00])
         == Success(LogicalScreenDescriptor(300, 300, 0x80, 1, 0))
  {
    var d: seq<byte> := [0x2C, 0x01, 0x2C, 0x01, 0x80, 0x01, 0x00];
    assert d[0..2] == [0x2C, 0x01] && d[2..4] == [0x2C, 0x01];
  }

  lemma GlobalColorTableExample()
    ensures ParseGlobalColorTable(LogicalScreenDescriptor(300, 300, 0x80, 1, 0), [0x4C, 0x00, 0x00, 0xFF, 0xFF, 0xFF])
         == Success(Some(ColorTable([Rgb(76, 0, 0), Rgb(255, 255, 255)])))
  {
    ColorsRoundTrip([Rgb(76, 0, 0), Rgb(255, 255, 255)]);
  }

  lemma GceExample()
    ensures ParseGraphicControlExtension([0x01, 0x04, 0x00, 0x00]) == Success(GraphicControlExtension(0, 0, 1, 4, 0))
  {
  }

  lemma ApplicationExtensionExample()
    ensures ParseApplicationExtension([0x4E, 0x45, 0x54, 0x53, 0x43, 0x41, 0x50, 0x45, 0x32, 0x2E, 0x30, 0x03], [0x01, 0x00, 0x00])
         == ApplicationExtension("NETSCAPE", "2.0" + [3 as char], [0x01, 0x00, 0x00])
  {
    var d: seq<byte> := [0x4E, 0x45, 0x54, 0x53, 0x43, 0x41, 0x50, 0x45, 0x32, 0x2E, 0x30, 0x03];
    var id := AsciiDecode(d[..8]);
    assert id == "NETSCAPE";
    assert SkipSpaces(id, 0) == 0;
    assert SkipSpacesBack(id, 0, 8) == 8;
    assert AsciiDecode(d[8..]) == "2.0" + [3 as char];
  }

  lemma CommentExtensionExample()
    ensures ParseCommentExtension([0x74, 0x65, 0x73, 0x74, 0x20, 0x63, 0x6F, 0x6D, 0x6D, 0x65, 0x6E, 0x74])
         == CommentExtension("test comment")
  {
  }

  lemma PlainTextExtensionExample()
    ensures ParsePlainTextExtension([0x00, 0x00, 0x00, 0x00, 0x2c, 0x01, 0x2c, 0x01, 0x0a, 0x0a, 0x2a, 0x18], [0x74, 0x65, 0x73, 0x74])
         == Success(PlainTextExtension(0, 0, 300, 300, 10, 10, 42, 24, "test"))
  {
    var d: seq<byte> := [0x00, 0x00, 0x00, 0x00, 0x2c, 0x01, 0x2c, 0x01, 0x0a, 0x0a, 0x2a, 0x18];
    var t: seq<byte> := [0x74, 0x65, 0x73, 0x74];
    var text := AsciiDecode(t);
    assert text[0] == 't' && text[1] == 'e' && text[2] == 's' && text[3] == 't';
    assert text == "test";
  }
}
