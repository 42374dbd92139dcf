/*
 * Exporting frames as PNG files: each frame's colour indices become RGBA
 * scanlines with a leading filter byte, compressed into one IDAT chunk after
 * an IHDR chunk, framed as in sections 3.1, 3.2 and 4.1.1 of RFC 2083.
 * zlib's compress and crc32 are taken as given functions; the output
 * directory and the file writes are not modelled, the bytes of each file are
 * the result instead.
 */
module Exporter {
  import opened Bits
  import opened Wrappers
  import opened GifStructs

  /** `zlib.compress` and `zlib.crc32`, not interpreted. */
  datatype Zlib = Zlib(compress: seq<byte> -> seq<byte>, crc32: seq<byte> -> nat)

  const PngSignature: seq<byte> := [0x89, 0x50, 0x4E, 0x47, 0x0D, 0x0A, 0x1A, 0x0A]
  const IhdrType: seq<byte> := [0x49, 0x48, 0x44, 0x52]
  const IdatType: seq<byte> := [0x49, 0x44, 0x41, 0x54]
  const IendType: seq<byte> := [0x49, 0x45, 0x4E, 0x44]

  const U32Limit := 0x1_0000_0000

  // ---------------------------------------------------------------------------
  // Chunks

  lemma Pow2Of32()
    ensures Pow2(32) == U32Limit
  {
    assert Pow2(8) == 256;
    Pow2Add(8, 8);
    Pow2Add(16, 16);
  }

  /** Masking with 32 one-bits keeps the value modulo 2^32. */
  lemma MaskLow32(x: nat)
    ensures BitAnd(x, 0xFFFF_FFFF) == x % U32Limit
  {
    Pow2Of32();
    AndLowMask(x, 32);
    ShrLowBitsDivMod(x, 32);
  }

  /** `crc32(...) & 0xffffffff`: the low 32 bits. */
  function Crc32Masked(z: Zlib, bytes: seq<byte>): (r: nat)
    ensures r == z.crc32(bytes) % U32Limit
  {
    MaskLow32(z.crc32(bytes));
    BitAnd(z.crc32(bytes), 0xFFFF_FFFF)
  }

  /** `get_png_chunk`: length, type, data and the CRC of type and data. */
  function GetPngChunk(chunkType: seq<byte>, data: seq<byte>, z: Zlib): (r: seq<byte>)
    requires |data| < U32Limit
    ensures |r| == 8 + |chunkType| + |data|
  {
    BigEndian32(|data|) + chunkType + data + BigEndian32(Crc32Masked(z, chunkType + data))
  }

  /** A chunk as a reader sees it: the type, the data and the CRC field, with the bytes after it. */
  datatype Chunk = Chunk(chunkType: seq<byte>, data: seq<byte>, crc: nat)

  /** Reads one chunk with a 4-byte type: None when the bytes run out. */
  function ReadChunk(bytes: seq<byte>): (r: Option<(Chunk, seq<byte>)>)
    ensures r.Some? ==> |r.value.1| < |bytes|
  {
    if |bytes| < 8 then None
    else
      var n := FromBigEndian(bytes[..4]);
      if |bytes| < 12 + n then None
      else Some((Chunk(bytes[4..8], bytes[8..8 + n], FromBigEndian(bytes[8 + n..12 + n])), bytes[12 + n..]))
  }

  /** A written chunk reads back as its type, its data and the masked CRC of both. */
  lemma ChunkRoundTrip(chunkType: seq<byte>, data: seq<byte>, z: Zlib, rest: seq<byte>)
    requires |chunkType| == 4 && |data| < U32Limit
    ensures ReadChunk(GetPngChunk(chunkType, data, z) + rest)
         == Some((Chunk(chunkType, data, z.crc32(chunkType + data) % U32Limit), rest))
  {
    var crc := Crc32Masked(z, chunkType + data);
    var bytes := GetPngChunk(chunkType, data, z) + rest;
    var n := |data|;
    assert bytes == BigEndian32(n) + chunkType + data + BigEndian32(crc) + rest;
    assert bytes[..4] == BigEndian32(n);
    assert bytes[4..8] == chunkType;
    assert bytes[8..8 + n] == data;
    assert bytes[8 + n..12 + n] == BigEndian32(crc);
    assert bytes[12 + n..] == rest;
  }

  /** `get_idhr_chunk`: `struct.pack(">IIBBBBB", ...)`. */
  function GetIhdrChunk(width: nat, height: nat, depth: byte, colorType: byte, compression: byte,
                        filterMethod: byte, interlace: byte): (r: seq<byte>)
    requires width < U32Limit && height < U32Limit
    ensures |r| == 13
    ensures FromBigEndian(r[0..4]) == width && FromBigEndian(r[4..8]) == height
    ensures r[8..] == [depth, colorType, compression, filterMethod, interlace]
  {
    var r := BigEndian32(width) + BigEndian32(height) + [depth, colorType, compression, filterMethod, interlace];
    assert r[0..4] == BigEndian32(width) && r[4..8] == BigEndian32(height);
    r
  }

  /** `b''.join(pixels)`. */
  function Join(rows: seq<seq<byte>>): (r: seq<byte>)
    ensures rows != [] && (forall i :: 0 <= i < |rows| ==> |rows[i]| == |rows[0]|) ==> |r| == |rows| * |rows[0]|
  {
    if rows == [] then [] else rows[0] + Join(rows[1..])
  }

  /** Joining one more row appends its bytes. */
  lemma {:induction false} JoinAppend(rows: seq<seq<byte>>, row: seq<byte>)
    ensures Join(rows + [row]) == Join(rows) + row
  {
    if rows == [] {
      assert [] + [row] == [row];
    } else {
      assert (rows + [row])[1..] == rows[1..] + [row];
      JoinAppend(rows[1..], row);
    }
  }

  /** The IHDR data of the exported images: 8-bit RGBA, default compression, filter and no interlace. */
  function RgbaHeader(width: u16, height: u16): seq<byte>
  {
    GetIhdrChunk(width, height, 8, 6, 0, 0, 0)
  }

  /** `get_png_data`: the signature, then IHDR, IDAT with the compressed scanlines, and an empty IEND. */
  function GetPngData(pixels: seq<seq<byte>>, width: u16, height: u16, z: Zlib): (r: seq<byte>)
    requires |z.compress(Join(pixels))| < U32Limit
    ensures |r| >= 8 && r[..8] == PngSignature
  {
    var compressedData := z.compress(Join(pixels));
    PngSignature + (GetPngChunk(IhdrType, RgbaHeader(width, height), z)
                 + GetPngChunk(IdatType, compressedData, z)
                 + GetPngChunk(IendType, [], z))
  }

  /** Reads chunks up to the end of the bytes: None when the last one is cut short. */
  function ReadChunks(bytes: seq<byte>): (r: Option<seq<Chunk>>)
    decreases |bytes|
  {
    if bytes == [] then Some([])
    else match ReadChunk(bytes)
      case None => None
      case Some((chunk, rest)) =>
        match ReadChunks(rest)
        case None => None
        case Some(chunks) => Some([chunk] + chunks)
  }

  /** A written chunk in front of readable bytes reads back first. */
  lemma ReadChunksCons(chunkType: seq<byte>, data: seq<byte>, z: Zlib, rest: seq<byte>)
    requires |chunkType| == 4 && |data| < U32Limit
    requires ReadChunks(rest).Some?
    ensures ReadChunks(GetPngChunk(chunkType, data, z) + rest)
         == Some([Chunk(chunkType, data, z.crc32(chunkType + data) % U32Limit)] + ReadChunks(rest).value)
  {
    ChunkRoundTrip(chunkType, data, z, rest);
  }

  /** After the signature come the three chunks, back to back. */
  lemma PngDataBody(pixels: seq<seq<byte>>, width: u16, height: u16, z: Zlib)
    requires |z.compress(Join(pixels))| < U32Limit
    ensures var c1 := GetPngChunk(IhdrType, RgbaHeader(width, height), z);
      var c2 := GetPngChunk(IdatType, z.compress(Join(pixels)), z);
      var c3 := GetPngChunk(IendType, [], z);
      var png := GetPngData(pixels, width, height, z);
      png[..8] == PngSignature && png[8..] == c1 + (c2 + c3)
  {
    var c1 := GetPngChunk(IhdrType, RgbaHeader(width, height), z);
    var c2 := GetPngChunk(IdatType, z.compress(Join(pixels)), z);
    var c3 := GetPngChunk(IendType, [], z);
    var png := GetPngData(pixels, width, height, z);
    assert png == PngSignature + (c1 + c2 + c3);
    assert c1 + c2 + c3 == c1 + (c2 + c3);
  }

  /**
   * After the signature a PNG reader finds exactly three chunks: IHDR with
   * the RGBA header of the image size, IDAT with the compressed scanlines,
   * and an empty IEND, each with the masked CRC of its type and data.
   */
  lemma PngDataLayout(pixels: seq<seq<byte>>, width: u16, height: u16, z: Zlib)
    requires |z.compress(Join(pixels))| < U32Limit
    ensures var header := RgbaHeader(width, height);
      var compressedData := z.compress(Join(pixels));
      ReadChunks(GetPngData(pixels, width, height, z)[8..])
      == Some([Chunk(IhdrType, header, z.crc32(IhdrType + header) % U32Limit),
               Chunk(IdatType, compressedData, z.crc32(IdatType + compressedData) % U32Limit),
               Chunk(IendType, [], z.crc32(IendType + []) % U32Limit)])
  {
    var header := RgbaHeader(width, height);
    var compressedData := z.compress(Join(pixels));
    var c1 := GetPngChunk(IhdrType, header, z);
    var c2 := GetPngChunk(IdatType, compressedData, z);
    var c3 := GetPngChunk(IendType, [], z);
    var k1 := Chunk(IhdrType, header, z.crc32(IhdrType + header) % U32Limit);
    var k2 := Chunk(IdatType, compressedData, z.crc32(IdatType + compressedData) % U32Limit);
    var k3 := Chunk(IendType, [], z.crc32(IendType + []) % U32Limit);
    PngDataBody(pixels, width, height, z);
    assert ReadChunks([]) == Some([]);
    ReadChunksCons(IendType, [], z, []);
    assert c3 + [] == c3 && [k3] + [] == [k3];
    assert ReadChunks(c3) == Some([k3]);
    ReadChunksCons(IdatType, compressedData, z, c3);
    assert [k2] + [k3] == [k2, k3];
    assert ReadChunks(c2 + c3) == Some([k2, k3]);
    ReadChunksCons(IhdrType, header, z, c2 + c3);
    assert [k1] + [k2, k3] == [k1, k2, k3];
  }

  /** The IHDR chunk of a one-pixel image, up to its CRC. */
  lemma IhdrChunkExample(z: Zlib)
    ensures |GetPngChunk(IhdrType, RgbaHeader(1, 1), z)| == 25
    ensures GetPngChunk(IhdrType, RgbaHeader(1, 1), z)[..21]
         == [0x00, 0x00, 0x00, 0x0D, 0x49, 0x48, 0x44, 0x52,
             0x00, 0x00, 0x00, 0x01, 0x00, 0x00, 0x00, 0x01, 0x08, 0x06, 0x00, 0x00, 0x00]
  {
    var header := RgbaHeader(1, 1);
    assert header == [0, 0, 0, 1, 0, 0, 0, 1, 8, 6, 0, 0, 0] by {
      assert BigEndian32(1) == [0, 0, 0, 1];
    }
    assert BigEndian32(13) == [0, 0, 0, 0x0D];
    ChunkPrefix(IhdrType, header, z);
  }

  /** A chunk begins with its big-endian length, its type and its data. */
  lemma ChunkPrefix(chunkType: seq<byte>, data: seq<byte>, z: Zlib)
    requires |data| < U32Limit
    ensures GetPngChunk(chunkType, data, z)[..4 + |chunkType| + |data|] == BigEndian32(|data|) + chunkType + data
  {
  }

  /** The test suite's one-pixel image: the signature, then the IHDR chunk up to its CRC. */
  lemma PngDataExample(z: Zlib)
    requires |z.compress(Join([[0x00, 0xB8, 0x00, 0x00, 0xFF]]))| < U32Limit
    ensures var png := GetPngData([[0x00, 0xB8, 0x00, 0x00, 0xFF]], 1, 1, z);
      |png| >= 29 && png[..8] == [0x89, 0x50, 0x4E, 0x47, 0x0D, 0x0A, 0x1A, 0x0A] &&
      png[8..29] == [0x00, 0x00, 0x00, 0x0D, 0x49, 0x48, 0x44, 0x52,
                     0x00, 0x00, 0x00, 0x01, 0x00, 0x00, 0x00, 0x01, 0x08, 0x06, 0x00, 0x00, 0x00]
  {
    var pixels: seq<seq<byte>> := [[0x00, 0xB8, 0x00, 0x00, 0xFF]];
    var c1 := GetPngChunk(IhdrType, RgbaHeader(1, 1), z);
    var png := GetPngData(pixels, 1, 1, z);
    PngDataBody(pixels, 1, 1, z);
    IhdrChunkExample(z);
    assert png[8..29] == png[8..][..21] == c1[..21];
  }

  // ---------------------------------------------------------------------------
  // Scanlines

  /** The four RGBA bytes of pixel k: the table colour, alpha 0 only for the transparent index when transparency is on. */
  function PixelBytes(frame: Frame, indices: seq<nat>, colorTable: ColorTable, transparency: Option<Rgb>, k: nat): (r: seq<byte>)
    requires k < |indices| && indices[k] < |colorTable.colors|
    requires transparency.Some? ==> frame.graphicControlExtension.Some?
    ensures var rgb := colorTable.colors[indices[k]];
      |r| == 4 && r[..3] == [rgb.r, rgb.g, rgb.b] && (r[3] == 0 || r[3] == 255) &&
      (r[3] == 0 <==> transparency.Some? && indices[k] == frame.graphicControlExtension.value.transparentColorIndex)
  {
    var rgb := colorTable.colors[indices[k]];
    var a := if transparency.Some? && indices[k] == frame.graphicControlExtension.value.transparentColorIndex then 0 else 255;
    [rgb.r, rgb.g, rgb.b, a]
  }

  /** What `transform_pixels` needs: every index it reads exists and names a colour of the table. */
  predicate IndicesFit(width: nat, height: nat, indices: seq<nat>, colorTable: ColorTable)
  {
    |indices| >= width * height && forall k :: 0 <= k < width * height ==> indices[k] < |colorTable.colors|
  }

  /** The RGBA bytes of pixels start .. start + count - 1. */
  function RowBytes(frame: Frame, indices: seq<nat>, colorTable: ColorTable, transparency: Option<Rgb>, start: nat, count: nat): (r: seq<byte>)
    requires start + count <= |indices| && forall k :: start <= k < start + count ==> indices[k] < |colorTable.colors|
    requires transparency.Some? ==> frame.graphicControlExtension.Some?
    ensures |r| == 4 * count
  {
    if count == 0 then []
    else RowBytes(frame, indices, colorTable, transparency, start, count - 1) + PixelBytes(frame, indices, colorTable, transparency, start + count - 1)
  }

  lemma RowStart(row: nat, width: nat, height: nat)
    requires row < height
    ensures row * width + width <= width * height
  {
    assert row * width + width == (row + 1) * width;
    assert (row + 1) * width <= height * width;
  }

  /** Row `row`'s pixels all exist and index the colour table. */
  lemma RowFits(width: nat, height: nat, indices: seq<nat>, colorTable: ColorTable, row: nat)
    requires IndicesFit(width, height, indices, colorTable) && row < height
    ensures row * width + width <= |indices|
    ensures forall k :: row * width <= k < row * width + width ==> indices[k] < |colorTable.colors|
  {
    RowStart(row, width, height);
  }

  /** The filter byte 0 and then the row's pixels. */
  function Scanline(frame: Frame, width: nat, height: nat, indices: seq<nat>, colorTable: ColorTable, transparency: Option<Rgb>, row: nat): (r: seq<byte>)
    requires IndicesFit(width, height, indices, colorTable) && row < height
    requires transparency.Some? ==> frame.graphicControlExtension.Some?
    ensures |r| == 1 + 4 * width
  {
    RowStart(row, width, height);
    [0] + RowBytes(frame, indices, colorTable, transparency, row * width, width)
  }

  /** The first count scanlines. */
  function Scanlines(frame: Frame, width: nat, height: nat, indices: seq<nat>, colorTable: ColorTable, transparency: Option<Rgb>, count: nat): (r: seq<seq<byte>>)
    requires IndicesFit(width, height, indices, colorTable) && count <= height
    requires transparency.Some? ==> frame.graphicControlExtension.Some?
    ensures |r| == count
  {
    if count == 0 then []
    else Scanlines(frame, width, height, indices, colorTable, transparency, count - 1) +
         [Scanline(frame, width, height, indices, colorTable, transparency, count - 1)]
  }

  /** Without pixels every scanline is its filter byte alone, so the joined image is count zero bytes. */
  lemma {:induction false} ZeroPixelScanlines(frame: Frame, width: nat, height: nat, indices: seq<nat>, colorTable: ColorTable, count: nat)
    requires width * height == 0 && count <= height
    ensures IndicesFit(width, height, indices, colorTable)
    ensures Join(Scanlines(frame, width, height, indices, colorTable, None, count)) == seq(count, _ => 0)
  {
    if count > 0 {
      ZeroPixelScanlines(frame, width, height, indices, colorTable, count - 1);
      assert width == 0;
      var line := Scanline(frame, width, height, indices, colorTable, None, count - 1);
      assert line == [0];
      JoinAppend(Scanlines(frame, width, height, indices, colorTable, None, count - 1), line);
      assert seq(count - 1, _ => 0) + [0] == seq(count, _ => 0);
    }
  }

  /** Pixel j of a row occupies four consecutive bytes. */
  lemma {:induction false} RowBytesLayout(frame: Frame, indices: seq<nat>, colorTable: ColorTable, transparency: Option<Rgb>, start: nat, count: nat, j: nat)
    requires start + count <= |indices| && forall k :: start <= k < start + count ==> indices[k] < |colorTable.colors|
    requires transparency.Some? ==> frame.graphicControlExtension.Some?
    requires j < count
    ensures RowBytes(frame, indices, colorTable, transparency, start, count)[4 * j..4 * j + 4]
         == PixelBytes(frame, indices, colorTable, transparency, start + j)
  {
    var prefix := RowBytes(frame, indices, colorTable, transparency, start, count - 1);
    var last := PixelBytes(frame, indices, colorTable, transparency, start + count - 1);
    assert RowBytes(frame, indices, colorTable, transparency, start, count) == prefix + last;
    if j < count - 1 {
      RowBytesLayout(frame, indices, colorTable, transparency, start, count - 1, j);
      assert (prefix + last)[4 * j..4 * j + 4] == prefix[4 * j..4 * j + 4];
    } else {
      assert (prefix + last)[4 * j..4 * j + 4] == last;
    }
  }

  /** The scanlines built so far are the first ones of a longer run. */
  lemma {:induction false} ScanlinesPrefix(frame: Frame, width: nat, height: nat, indices: seq<nat>, colorTable: ColorTable, transparency: Option<Rgb>, count: nat, i: nat)
    requires IndicesFit(width, height, indices, colorTable) && count <= height && i < count
    requires transparency.Some? ==> frame.graphicControlExtension.Some?
    ensures Scanlines(frame, width, height, indices, colorTable, transparency, count)[i]
         == Scanline(frame, width, height, indices, colorTable, transparency, i)
  {
    if i < count - 1 {
      ScanlinesPrefix(frame, width, height, indices, colorTable, transparency, count - 1, i);
    }
  }

  /** Scanline i is the filter byte 0, then the four bytes of each pixel of row i in order. */
  lemma ScanlineLayout(frame: Frame, width: nat, height: nat, indices: seq<nat>, colorTable: ColorTable, transparency: Option<Rgb>,
                       i: nat, j: nat)
    requires IndicesFit(width, height, indices, colorTable) && i < height && j < width
    requires transparency.Some? ==> frame.graphicControlExtension.Some?
    ensures i * width + j < width * height
    ensures var line := Scanline(frame, width, height, indices, colorTable, transparency, i);
      line[0] == 0 && line[1 + 4 * j..5 + 4 * j] == PixelBytes(frame, indices, colorTable, transparency, i * width + j)
  {
    RowStart(i, width, height);
    var bytes := RowBytes(frame, indices, colorTable, transparency, i * width, width);
    RowBytesLayout(frame, indices, colorTable, transparency, i * width, width, j);
    var line := Scanline(frame, width, height, indices, colorTable, transparency, i);
    assert line == [0] + bytes;
    assert line[1 + 4 * j..5 + 4 * j] == bytes[4 * j..4 * j + 4];
  }

  /**
   * The image is height scanlines of 1 + 4 * width bytes: a 0 filter byte,
   * then the four bytes of each pixel of the row, in order.
   */
  lemma ScanlinesLayout(frame: Frame, width: nat, height: nat, indices: seq<nat>, colorTable: ColorTable, transparency: Option<Rgb>,
                        i: nat, j: nat)
    requires IndicesFit(width, height, indices, colorTable) && i < height && j < width
    requires transparency.Some? ==> frame.graphicControlExtension.Some?
    ensures i * width + j < width * height
    ensures var rows := Scanlines(frame, width, height, indices, colorTable, transparency, height);
      |rows| == height && |rows[i]| == 1 + 4 * width && rows[i][0] == 0 &&
      rows[i][1 + 4 * j..5 + 4 * j] == PixelBytes(frame, indices, colorTable, transparency, i * width + j)
  {
    ScanlinesPrefix(frame, width, height, indices, colorTable, transparency, height, i);
    ScanlineLayout(frame, width, height, indices, colorTable, transparency, i, j);
  }

  /** The test suite's one-pixel frame with colour (0xB8, 0, 0) and no transparency. */
  lemma ScanlinesExample(frame: Frame, colorTable: ColorTable)
    requires |colorTable.colors| >= 1 && colorTable.colors[0] == Rgb(0xB8, 0, 0)
    ensures Scanlines(frame, 1, 1, [0], colorTable, None, 1) == [[0x00, 0xB8, 0x00, 0x00, 0xFF]]
  {
    var pixel := PixelBytes(frame, [0], colorTable, None, 0);
    assert pixel == [0xB8, 0x00, 0x00, 0xFF];
    assert RowBytes(frame, [0], colorTable, None, 0, 1) == [] + pixel;
    assert Scanline(frame, 1, 1, [0], colorTable, None, 0) == [0] + pixel;
    assert Scanlines(frame, 1, 1, [0], colorTable, None, 1) == [] + [[0] + pixel];
    assert [0] + pixel == [0x00, 0xB8, 0x00, 0x00, 0xFF];
  }

  // ---------------------------------------------------------------------------
  // Choosing what to export

  /** `frame.local_color_table if frame.local_color_table else ...global_color_table`. */
  function ExportTable(frame: Frame, globalColorTable: Option<ColorTable>): (r: Option<ColorTable>)
    ensures frame.localColorTable.Some? ==> r == frame.localColorTable
    ensures frame.localColorTable.None? ==> r == globalColorTable
  {
    if frame.localColorTable.Some? then frame.localColorTable else globalColorTable
  }

  /**
   * The table the pixel loops read.  With neither table `color_table` is None,
   * which is only dereferenced to look up a colour; the empty table stands for
   * it, so every such lookup is out of range.
   */
  function PixelTable(frame: Frame, globalColorTable: Option<ColorTable>): (t: ColorTable)
    ensures ExportTable(frame, globalColorTable).Some? ==> t == ExportTable(frame, globalColorTable).value
    ensures ExportTable(frame, globalColorTable).None? ==> t.colors == []
  {
    match ExportTable(frame, globalColorTable)
    case Some(table) => table
    case None => ColorTable([])
  }

  /**
   * The colour `export_frame` passes as `transparency`: the table entry of the
   * transparent index, when a graphic control extension sets the flag.
   */
  function ExportTransparency(frame: Frame, table: ColorTable): (r: Option<Rgb>)
    requires frame.graphicControlExtension.Some? && frame.graphicControlExtension.value.transparencyFlag != 0 ==>
      frame.graphicControlExtension.value.transparentColorIndex < |table.colors|
    ensures r.Some? <==> frame.graphicControlExtension.Some? && frame.graphicControlExtension.value.transparencyFlag != 0
    ensures r.Some? ==> r.value == table.colors[frame.graphicControlExtension.value.transparentColorIndex]
  {
    if frame.graphicControlExtension.Some? && frame.graphicControlExtension.value.transparencyFlag != 0 then
      Some(table.colors[frame.graphicControlExtension.value.transparentColorIndex])
    else None
  }

  /**
   * What `export_frame` needs to finish: the transparent colour and every
   * pixel's colour in the table it reads (so a table whenever there is a pixel
   * or a transparent colour to look up), and a compressed image that fits a chunk.
   */
  predicate Exportable(frame: Frame, globalColorTable: Option<ColorTable>, z: Zlib)
  {
    var d := frame.imageDescriptor;
    var table := PixelTable(frame, globalColorTable);
    (frame.graphicControlExtension.Some? && frame.graphicControlExtension.value.transparencyFlag != 0 ==>
      frame.graphicControlExtension.value.transparentColorIndex < |table.colors|) &&
    IndicesFit(d.width, d.height, frame.imageData, table) &&
    |z.compress(Join(Scanlines(frame, d.width, d.height, frame.imageData, table,
                               ExportTransparency(frame, table), d.height)))| < U32Limit
  }

  /** A frame with a pixel, or with a transparent colour, needs a colour table to be exported. */
  lemma ExportableNeedsTable(frame: Frame, globalColorTable: Option<ColorTable>, z: Zlib)
    requires Exportable(frame, globalColorTable, z)
    requires frame.imageDescriptor.width * frame.imageDescriptor.height > 0 ||
      (frame.graphicControlExtension.Some? && frame.graphicControlExtension.value.transparencyFlag != 0)
    ensures ExportTable(frame, globalColorTable).Some?
  {
  }

  /**
   * A frame with no pixel and no transparent colour is exported without any
   * colour table: its scanlines are filter bytes alone.
   */
  lemma ZeroPixelFrameExportable(frame: Frame, globalColorTable: Option<ColorTable>, z: Zlib)
    requires frame.imageDescriptor.width * frame.imageDescriptor.height == 0
    requires !(frame.graphicControlExtension.Some? && frame.graphicControlExtension.value.transparencyFlag != 0)
    requires |z.compress(seq(frame.imageDescriptor.height, _ => 0))| < U32Limit
    ensures Exportable(frame, globalColorTable, z)
  {
    var d := frame.imageDescriptor;
    var table := PixelTable(frame, globalColorTable);
    ZeroPixelScanlines(frame, d.width, d.height, frame.imageData, table, d.height);
    assert ExportTransparency(frame, table) == None;
  }

  /** The bytes of the file `export_frame` writes for the frame. */
  function FramePng(frame: Frame, globalColorTable: Option<ColorTable>, z: Zlib): (r: seq<byte>)
    requires Exportable(frame, globalColorTable, z)
    ensures |r| >= 8 && r[..8] == PngSignature
  {
    var d := frame.imageDescriptor;
    var table := PixelTable(frame, globalColorTable);
    var pixels := Scanlines(frame, d.width, d.height, frame.imageData, table, ExportTransparency(frame, table), d.height);
    GetPngData(pixels, d.width, d.height, z)
  }

  /** One step of a batch export: a file written under a frame number, or a warning for a number with no frame. */
  datatype ExportEvent = Exported(frameNumber: int, png: seq<byte>) | Skipped(frameNumber: int)

  /** Every number of the selection that names a frame names one `export_frame` can finish. */
  predicate SelectionExportable(frames: seq<Frame>, globalColorTable: Option<ColorTable>, z: Zlib, frameNumbers: seq<int>)
  {
    forall i :: 0 <= i < |frameNumbers| && 1 <= frameNumbers[i] <= |frames| ==>
      Exportable(frames[frameNumbers[i] - 1], globalColorTable, z)
  }

  /** The outcome for one number: the frame before it exported, or a warning when there is none. */
  function EventFor(frames: seq<Frame>, globalColorTable: Option<ColorTable>, z: Zlib, n: int): (r: ExportEvent)
    requires 1 <= n <= |frames| ==> Exportable(frames[n - 1], globalColorTable, z)
    ensures r.frameNumber == n && (r.Exported? <==> 1 <= n <= |frames|)
    ensures r.Exported? ==> r.png == FramePng(frames[n - 1], globalColorTable, z)
  {
    if 1 <= n <= |frames| then Exported(n, FramePng(frames[n - 1], globalColorTable, z)) else Skipped(n)
  }

  /** Every prefix of an exportable selection is exportable. */
  lemma SelectionPrefix(frames: seq<Frame>, globalColorTable: Option<ColorTable>, z: Zlib, frameNumbers: seq<int>, n: nat)
    requires SelectionExportable(frames, globalColorTable, z, frameNumbers) && n <= |frameNumbers|
    ensures SelectionExportable(frames, globalColorTable, z, frameNumbers[..n])
  {
    forall k | 0 <= k < n ensures frameNumbers[..n][k] == frameNumbers[k] { }
  }

  /** What `export_selected_frames` does for the numbers, in order. */
  function SelectedEvents(frames: seq<Frame>, globalColorTable: Option<ColorTable>, z: Zlib, frameNumbers: seq<int>): (r: seq<ExportEvent>)
    requires SelectionExportable(frames, globalColorTable, z, frameNumbers)
    ensures |r| == |frameNumbers|
  {
    if frameNumbers == [] then []
    else
      var init := frameNumbers[..|frameNumbers| - 1];
      assert SelectionExportable(frames, globalColorTable, z, init) by {
        forall k | 0 <= k < |init| ensures init[k] == frameNumbers[k] { }
      }
      SelectedEvents(frames, globalColorTable, z, init) + [EventFor(frames, globalColorTable, z, frameNumbers[|frameNumbers| - 1])]
  }
  /** One more frame number adds its event at the end. */
  lemma SelectedEventsStep(frames: seq<Frame>, globalColorTable: Option<ColorTable>, z: Zlib, frameNumbers: seq<int>, i: nat)
    requires SelectionExportable(frames, globalColorTable, z, frameNumbers) && i < |frameNumbers|
    ensures SelectionExportable(frames, globalColorTable, z, frameNumbers[..i])
    ensures SelectionExportable(frames, globalColorTable, z, frameNumbers[..i + 1])
    ensures SelectedEvents(frames, globalColorTable, z, frameNumbers[..i + 1])
         == SelectedEvents(frames, globalColorTable, z, frameNumbers[..i]) + [EventFor(frames, globalColorTable, z, frameNumbers[i])]
  {
    SelectionPrefix(frames, globalColorTable, z, frameNumbers, i);
    SelectionPrefix(frames, globalColorTable, z, frameNumbers, i + 1);
    assert frameNumbers[..i + 1][..i] == frameNumbers[..i];
  }


  /** Every number gets its own outcome, in the order given; no number stops the batch. */
  lemma {:induction false} SelectedEventsSpec(frames: seq<Frame>, globalColorTable: Option<ColorTable>, z: Zlib, frameNumbers: seq<int>, i: nat)
    requires SelectionExportable(frames, globalColorTable, z, frameNumbers)
    requires i < |frameNumbers|
    ensures SelectedEvents(frames, globalColorTable, z, frameNumbers)[i] == EventFor(frames, globalColorTable, z, frameNumbers[i])
  {
    var init := frameNumbers[..|frameNumbers| - 1];
    if i < |frameNumbers| - 1 {
      assert SelectionExportable(frames, globalColorTable, z, init) by {
        forall k | 0 <= k < |init| ensures init[k] == frameNumbers[k] { }
      }
      SelectedEventsSpec(frames, globalColorTable, z, init, i);
      assert init[i] == frameNumbers[i];
    }
  }

  /** 1, 2, ..., n. */
  function OneTo(n: nat): (r: seq<int>)
    ensures |r| == n && forall i :: 0 <= i < n ==> r[i] == i + 1
  {
    if n == 0 then [] else OneTo(n - 1) + [n]
  }

  /** Every frame can be exported. */
  predicate AllExportable(frames: seq<Frame>, globalColorTable: Option<ColorTable>, z: Zlib)
  {
    forall i :: 0 <= i < |frames| ==> Exportable(frames[i], globalColorTable, z)
  }

  /** What `export_all_frames` does: every frame, numbered from 1. */
  function AllEvents(frames: seq<Frame>, globalColorTable: Option<ColorTable>, z: Zlib, count: nat): (r: seq<ExportEvent>)
    requires count <= |frames| && AllExportable(frames, globalColorTable, z)
    ensures |r| == count
  {
    if count == 0 then []
    else AllEvents(frames, globalColorTable, z, count - 1) + [Exported(count, FramePng(frames[count - 1], globalColorTable, z))]
  }

  /** Exporting all frames is exporting the selection 1 .. n. */
  lemma {:induction false} AllIsSelectedOneTo(frames: seq<Frame>, globalColorTable: Option<ColorTable>, z: Zlib, count: nat)
    requires count <= |frames| && AllExportable(frames, globalColorTable, z)
    ensures AllEvents(frames, globalColorTable, z, count) == SelectedEvents(frames, globalColorTable, z, OneTo(count))
  {
    if count > 0 {
      AllIsSelectedOneTo(frames, globalColorTable, z, count - 1);
      assert OneTo(count)[..count - 1] == OneTo(count - 1);
    }
  }

  /** The test suite's batch: numbers 1, 2, 3 over two frames give two files and one warning. */
  lemma SelectionExample(frames: seq<Frame>, globalColorTable: Option<ColorTable>, z: Zlib)
    requires |frames| == 2 && forall i :: 0 <= i < 2 ==> Exportable(frames[i], globalColorTable, z)
    ensures var e := SelectedEvents(frames, globalColorTable, z, [1, 2, 3]);
      e[0].Exported? && e[1].Exported? && e[2] == Skipped(3)
  {
    SelectedEventsSpec(frames, globalColorTable, z, [1, 2, 3], 0);
    SelectedEventsSpec(frames, globalColorTable, z, [1, 2, 3], 1);
    SelectedEventsSpec(frames, globalColorTable, z, [1, 2, 3], 2);
  }

  // ---------------------------------------------------------------------------
  // The exporter

  /** `GifFramesExporter` without its output directory: the parsed file's frames and global table. */
  class GifFramesExporter {
    const frames: seq<Frame>
    const globalColorTable: Option<ColorTable>
    const zlib: Zlib

    constructor (frames: seq<Frame>, globalColorTable: Option<ColorTable>, zlib: Zlib)
      ensures this.frames == frames && this.globalColorTable == globalColorTable && this.zlib == zlib
    {
      this.frames, this.globalColorTable, this.zlib := frames, globalColorTable, zlib;
    }

    /** `transform_pixels`. */
    static method TransformPixels(frame: Frame, width: nat, height: nat, indices: seq<nat>, colorTable: ColorTable,
                                  transparency: Option<Rgb>) returns (pixels: seq<seq<byte>>)
      requires IndicesFit(width, height, indices, colorTable)
      requires transparency.Some? ==> frame.graphicControlExtension.Some?
      ensures pixels == Scanlines(frame, width, height, indices, colorTable, transparency, height)
    {
      pixels := [];
      var i := 0;
      while i < height
        invariant i <= height
        invariant pixels == Scanlines(frame, width, height, indices, colorTable, transparency, i)
      {
        var row := TransformRow(frame, width, height, indices, colorTable, transparency, i);
        pixels := pixels + [row];
        i := i + 1;
      }
    }

    /** The body of `transform_pixels`'s outer loop: row i's filter byte and RGBA bytes. */
    static method TransformRow(frame: Frame, width: nat, height: nat, indices: seq<nat>, colorTable: ColorTable,
                               transparency: Option<Rgb>, i: nat) returns (line: seq<byte>)
      requires IndicesFit(width, height, indices, colorTable) && i < height
      requires transparency.Some? ==> frame.graphicControlExtension.Some?
      ensures line == Scanline(frame, width, height, indices, colorTable, transparency, i)
    {
      RowFits(width, height, indices, colorTable, i);
      var start := i * width;
      var row: seq<byte> := [];
      var j := 0;
      while j < width
        invariant j <= width
        invariant row == RowBytes(frame, indices, colorTable, transparency, start, j)
      {
        var idx := start + j;
        var colorIdx := indices[idx];
        var rgb := colorTable.colors[colorIdx];
        var a := 255;
        if transparency.Some? && colorIdx == frame.graphicControlExtension.value.transparentColorIndex {
          a := 0;
        }
        row := row + [rgb.r, rgb.g, rgb.b, a];
        j := j + 1;
      }
      line := [0] + row;
    }

    /** `export_frame`, up to the bytes of the file it writes. */
    method ExportFrame(frame: Frame, frameNumber: nat) returns (pngData: seq<byte>)
      requires Exportable(frame, globalColorTable, zlib)
      ensures pngData == FramePng(frame, globalColorTable, zlib)
    {
      var width, height := frame.imageDescriptor.width, frame.imageDescriptor.height;
      var indices := frame.imageData;
      var colorTable := if frame.localColorTable.Some? then frame.localColorTable.value
                        else if globalColorTable.Some? then globalColorTable.value
                        else ColorTable([]);
      var transparency := None;
      if frame.graphicControlExtension.Some? && frame.graphicControlExtension.value.transparencyFlag != 0 {
        var transparencyIndex := frame.graphicControlExtension.value.transparentColorIndex;
        transparency := Some(colorTable.colors[transparencyIndex]);
      }
      var pixels := TransformPixels(frame, width, height, indices, colorTable, transparency);
      pngData := GetPngData(pixels, width, height, zlib);
    }

    /** `export_all_frames`. */
    method ExportAllFrames() returns (events: seq<ExportEvent>)
      requires AllExportable(frames, globalColorTable, zlib)
      ensures events == AllEvents(frames, globalColorTable, zlib, |frames|)
    {
      events := [];
      for done := 0 to |frames|
        invariant events == AllEvents(frames, globalColorTable, zlib, done)
      {
        var pngData := ExportFrame(frames[done], done + 1);
        events := events + [Exported(done + 1, pngData)];
      }
    }

    /** `export_selected_frames`. */
    method ExportSelectedFrames(frameNumbers: seq<int>) returns (events: seq<ExportEvent>)
      requires SelectionExportable(frames, globalColorTable, zlib, frameNumbers)
      ensures events == SelectedEvents(frames, globalColorTable, zlib, frameNumbers)
    {
      events := [];
      var i := 0;
      SelectionPrefix(frames, globalColorTable, zlib, frameNumbers, 0);
      while i < |frameNumbers|
        invariant i <= |frameNumbers|
        invariant SelectionExportable(frames, globalColorTable, zlib, frameNumbers[..i])
        invariant events == SelectedEvents(frames, globalColorTable, zlib, frameNumbers[..i])
      {
        var frameNumber := frameNumbers[i];
        SelectedEventsStep(frames, globalColorTable, zlib, frameNumbers, i);
        if 1 <= frameNumber <= |frames| {
          var frame := frames[frameNumber - 1];
          var pngData := ExportFrame(frame, frameNumber);
          events := events + [Exported(frameNumber, pngData)];
        } else {
          events := events + [Skipped(frameNumber)];
        }
        i := i + 1;
      }
      assert frameNumbers[..i] == frameNumbers;
    }
  }
}
