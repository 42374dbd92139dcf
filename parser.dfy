/*
 * The GIF block parser.  The file is a byte sequence with a read cursor
 * (`GifFile`); `f.read(n)` hands out up to n bytes and fewer at the end.
 *
 * The field decoders are pure functions over the bytes a read returned.  The
 * methods that walk the file (`ReadSubBlocks`, `ParseExtension`, ...,
 * `GifParser.ParseBlocks`, `GifParser.Parse`) follow the source's loops and
 * are proved against reference functions over (data, position):
 * `SubBlocksAt`, `ExtensionAt`, `ImageAt` and `BlocksFrom`.
 *
 * A Python exception (an `IndexError` on bytes that are not there, or the LZW
 * decoder's `TypeError`/`KeyError`) ends the parse; it is returned as a
 * `ParseError` and whatever was assigned before it stays assigned.
 */
module Parser {
  import opened Bits
  import opened Wrappers
  import opened GifStructs
  import Lzw

  datatype ParseError = IndexError | DecodeError(cause: Lzw.LzwError)

  function Min(a: nat, b: nat): nat
  {
    if a <= b then a else b
  }

  // ---------------------------------------------------------------------------
  // Reading

  /** What `f.read(n)` returns at position pos: up to n bytes, fewer at the end of the data. */
  function Take(data: seq<byte>, pos: nat, n: nat): (r: seq<byte>)
    requires pos <= |data|
    ensures |r| == Min(n, |data| - pos) && r == data[pos..pos + |r|]
  {
    data[pos..Min(pos + n, |data|)]
  }

  /** The position after `f.read(n)` at pos. */
  function Skip(data: seq<byte>, pos: nat, n: nat): (r: nat)
    requires pos <= |data|
    ensures r == pos + |Take(data, pos, n)| && r <= |data|
  {
    Min(pos + n, |data|)
  }

  /** The open file: its bytes and the read cursor. */
  class GifFile {
    const contents: seq<byte>
    var pos: nat

    constructor (contents: seq<byte>)
      ensures this.contents == contents && pos == 0
    {
      this.contents := contents;
      pos := 0;
    }

    /** `f.read(n)`. */
    method Read(n: nat) returns (chunk: seq<byte>)
      requires pos <= |contents|
      modifies this
      ensures pos <= |contents|
      ensures chunk == Take(contents, old(pos), n) && pos == Skip(contents, old(pos), n)
    {
      chunk := contents[pos..Min(pos + n, |contents|)];
      pos := Min(pos + n, |contents|);
    }
  }

  // ---------------------------------------------------------------------------
  // Text

  /** `bytes.decode('ascii', errors='replace')` of one byte. */
  function AsciiChar(b: byte): char
  {
    if b < 0x80 then b as char else 0xFFFD as char
  }

  function AsciiDecode(bs: seq<byte>): (s: string)
    ensures |s| == |bs| && forall i :: 0 <= i < |bs| ==> s[i] == AsciiChar(bs[i])
  {
    seq(|bs|, i requires 0 <= i < |bs| => AsciiChar(bs[i]))
  }

  /** The characters `str.strip()` removes that an ASCII decode can produce. */
  function IsSpace(c: char): (b: bool)
    ensures b <==> c in {' ', '\t', '\n', '\r', '\U{000B}', '\U{000C}', '\U{001C}', '\U{001D}', '\U{001E}', '\U{001F}'}
  {
    var n := c as int;
    n == 32 || 9 <= n <= 13 || 28 <= n <= 31
  }

  /** The index of the first non-space character at or after i (|s| when there is none). */
  function SkipSpaces(s: string, i: nat): (j: nat)
    requires i <= |s|
    ensures i <= j <= |s| && (j < |s| ==> !IsSpace(s[j]))
    ensures forall k :: i <= k < j ==> IsSpace(s[k])
    decreases |s| - i
  {
    if i == |s| || !IsSpace(s[i]) then i else SkipSpaces(s, i + 1)
  }

  /** The end of s[lo..hi] once its trailing spaces are cut off. */
  function SkipSpacesBack(s: string, lo: nat, hi: nat): (e: nat)
    requires lo <= hi <= |s|
    ensures lo <= e <= hi && (lo < e ==> !IsSpace(s[e - 1]))
    ensures forall k :: e <= k < hi ==> IsSpace(s[k])
    decreases hi
  {
    if hi == lo || !IsSpace(s[hi - 1]) then hi else SkipSpacesBack(s, lo, hi - 1)
  }

  /**
   * `str.strip()`: a middle slice of s that neither starts nor ends with
   * whitespace, everything cut off on either side being whitespace.
   */
  function Strip(s: string): (r: string)
    ensures r != [] ==> !IsSpace(r[0]) && !IsSpace(r[|r| - 1])
    ensures var i := SkipSpaces(s, 0);
      i + |r| <= |s| && r == s[i..i + |r|] &&
      (forall k :: 0 <= k < i ==> IsSpace(s[k])) &&
      (forall k :: i + |r| <= k < |s| ==> IsSpace(s[k]))
  {
    var i := SkipSpaces(s, 0);
    s[i..SkipSpacesBack(s, i, |s|)]
  }

  /** Stripping twice is stripping once. */
  lemma StripIdempotent(s: string)
    ensures Strip(Strip(s)) == Strip(s)
  {
    var r := Strip(s);
    if r != [] {
      assert SkipSpaces(r, 0) == 0;
      assert SkipSpacesBack(r, 0, |r|) == |r|;
      assert r[0..|r|] == r;
    }
  }

  // ---------------------------------------------------------------------------
  // Field decoders

  /** `parse_header`: None unless the first three bytes read "GIF". */
  function ParseHeader(headerData: seq<byte>): (r: Option<Header>)
    ensures r.Some? <==> |headerData| >= 3 && headerData[..3] == [0x47, 0x49, 0x46]
    ensures r.Some? ==> r.value == Header("GIF", AsciiDecode(headerData[3..Min(6, |headerData|)]))
  {
    var n := |headerData|;
    var signature := AsciiDecode(headerData[..Min(3, n)]);
    var version := AsciiDecode(headerData[Min(3, n)..Min(6, n)]);
    if signature != "GIF" then
      None
    else
      assert signature[0] == 'G' && signature[1] == 'I' && signature[2] == 'F';
      Some(Header(signature, version))
  }

  /** `parse_logical_screen_descriptor`: seven bytes, or an IndexError. */
  function ParseLogicalScreenDescriptor(d: seq<byte>): (r: Result<LogicalScreenDescriptor, ParseError>)
    ensures r.Failure? <==> |d| < 7
    ensures r.Failure? ==> r.error == IndexError
    ensures r.Success? ==> r.value.width == LeValue(d[0..2]) && r.value.height == LeValue(d[2..4])
    ensures r.Success? ==> r.value.packed == d[4] && r.value.bgColorIndex == d[5] && r.value.pixelAspectRatio == d[6]
  {
    if |d| < 7 then Failure(IndexError)
    else
      assert d[0..2] == [d[0], d[1]] && d[2..4] == [d[2], d[3]];
      Success(LogicalScreenDescriptor(LittleEndian16(d[0], d[1]), LittleEndian16(d[2], d[3]), d[4], d[5], d[6]))
  }

  /**
   * `[(data[i], data[i + 1], data[i + 2]) for i in range(0, len(data), 3)]`:
   * an IndexError when the length is not a multiple of three.
   */
  function ColorsFrom(data: seq<byte>): (r: Result<ColorTable, ParseError>)
    ensures r.Failure? <==> |data| % 3 != 0
    ensures r.Failure? ==> r.error == IndexError
    ensures r.Success? ==> (|r.value.colors| == |data| / 3 &&
      forall i :: 0 <= i < |data| / 3 ==> r.value.colors[i] == Rgb(data[3 * i], data[3 * i + 1], data[3 * i + 2]))
    decreases |data|
  {
    if |data| == 0 then Success(ColorTable([]))
    else if |data| < 3 then Failure(IndexError)
    else
      match ColorsFrom(data[3..])
      case Failure(e) => Failure(e)
      case Success(rest) =>
        var colors := [Rgb(data[0], data[1], data[2])] + rest.colors;
        assert forall i :: 1 <= i < |data| / 3 ==> colors[i] == rest.colors[i - 1];
        assert forall i :: 1 <= i < |data| / 3 ==> data[3 * i] == data[3..][3 * (i - 1)];
        Success(ColorTable(colors))
  }

  /** `parse_global_color_table`: None when the descriptor's flag is clear. */
  function ParseGlobalColorTable(lsd: LogicalScreenDescriptor, data: seq<byte>): (r: Result<Option<ColorTable>, ParseError>)
    ensures lsd.packed < 128 ==> r == Success(None)
    ensures lsd.packed >= 128 ==> r.Success? == (|data| % 3 == 0)
    ensures lsd.packed >= 128 && r.Success? ==> r.value == Some(ColorsFrom(data).value)
  {
    if lsd.GlobalColorTableFlag() != 0 then
      match ColorsFrom(data)
      case Failure(e) => Failure(e)
      case Success(t) => Success(Some(t))
    else Success(None)
  }

  /** The decoding half of `parse_image_descriptor`: nine bytes, or an IndexError. */
  function DecodeImageDescriptor(d: seq<byte>): (r: Result<ImageDescriptor, ParseError>)
    ensures r.Failure? <==> |d| < 9
    ensures r.Failure? ==> r.error == IndexError
    ensures r.Success? ==> (r.value.left == LeValue(d[0..2]) && r.value.top == LeValue(d[2..4]) &&
      r.value.width == LeValue(d[4..6]) && r.value.height == LeValue(d[6..8]) && r.value.packed == d[8])
  {
    if |d| < 9 then Failure(IndexError)
    else
      assert d[0..2] == [d[0], d[1]] && d[2..4] == [d[2], d[3]];
      assert d[4..6] == [d[4], d[5]] && d[6..8] == [d[6], d[7]];
      Success(ImageDescriptor(
        LittleEndian16(d[0], d[1]), LittleEndian16(d[2], d[3]),
        LittleEndian16(d[4], d[5]), LittleEndian16(d[6], d[7]), d[8]))
  }

  /** `parse_graphic_control_extension`: the packed byte's fields, the delay and the transparent index. */
  function ParseGraphicControlExtension(d: seq<byte>): (r: Result<GraphicControlExtension, ParseError>)
    ensures r.Failure? <==> |d| < 4
    ensures r.Failure? ==> r.error == IndexError
    ensures r.Success? ==>
      r.value.disposalMethod == (d[0] / 4) % 8 && r.value.userInputFlag == (d[0] / 2) % 2 &&
      r.value.transparencyFlag == d[0] % 2 &&
      r.value.delayTime == d[1] as int + 256 * d[2] as int && r.value.transparentColorIndex == d[3]
  {
    if |d| < 4 then Failure(IndexError)
    else
      var packed := d[0];
      BitField(packed, 2, 3);
      assert Shl(Pow2(3) - 1, 2) == 0x1C;
      BitField(packed, 1, 1);
      assert Shl(Pow2(1) - 1, 1) == 0x02;
      BitField(packed, 0, 1);
      assert Shl(Pow2(1) - 1, 0) == 0x01;
      var disposalMethod := Shr(BitAnd(packed, 0x1C), 2);
      var userInputFlag := Shr(BitAnd(packed, 0x02), 1);
      var transparencyFlag := BitAnd(packed, 0x01);
      Success(GraphicControlExtension(disposalMethod, userInputFlag, transparencyFlag,
        LittleEndian16(d[1], d[2]), d[3]))
  }

  /** `lo + (hi << 8)`, as the plain-text decoder writes a 16-bit field. */
  function ShiftedLittleEndian16(lo: byte, hi: byte): (r: u16)
    ensures r == LittleEndian16(lo, hi)
  {
    lo + Shl(hi, 8)
  }

  /**
   * `parse_plain_text_extension`.  The source decodes bytes 4-5 as the grid
   * width and bytes 6-7 as the grid height, then hands them to a constructor
   * whose parameters are (left, top, height, width, ...): the record's
   * `height` holds bytes 4-5 and its `width` holds bytes 6-7.
   */
  function ParsePlainTextExtension(pteData: seq<byte>, textData: seq<byte>): (r: Result<PlainTextExtension, ParseError>)
    ensures r.Failure? <==> |pteData| < 12
    ensures r.Failure? ==> r.error == IndexError
    ensures r.Success? ==>
      r.value.leftPos == LeValue(pteData[0..2]) && r.value.topPos == LeValue(pteData[2..4]) &&
      r.value.height == LeValue(pteData[4..6]) && r.value.width == LeValue(pteData[6..8]) &&
      r.value.cellWidth == pteData[8] && r.value.cellHeight == pteData[9] &&
      r.value.foregroundColorIndex == pteData[10] && r.value.backgroundColorIndex == pteData[11] &&
      r.value.textData == AsciiDecode(textData)
  {
    if |pteData| < 12 then Failure(IndexError)
    else
      var d := pteData;
      assert d[0..2] == [d[0], d[1]] && d[2..4] == [d[2], d[3]];
      assert d[4..6] == [d[4], d[5]] && d[6..8] == [d[6], d[7]];
      var left := ShiftedLittleEndian16(d[0], d[1]);
      var top := ShiftedLittleEndian16(d[2], d[3]);
      var width := ShiftedLittleEndian16(d[4], d[5]);
      var height := ShiftedLittleEndian16(d[6], d[7]);
      Success(PlainTextExtension(left, top, width, height, d[8], d[9], d[10], d[11], AsciiDecode(textData)))
  }

  /** `parse_application_extension`: the stripped identifier (bytes 0-7) and the authentication code (the rest). */
  function ParseApplicationExtension(appData: seq<byte>, appSubBlocks: seq<byte>): (r: ApplicationExtension)
    ensures r.applicationId == Strip(AsciiDecode(appData[..Min(8, |appData|)]))
    ensures |r.applicationId| <= 8
    ensures r.authenticationCode == AsciiDecode(appData[Min(8, |appData|)..])
    ensures r.data == appSubBlocks
  {
    var n := |appData|;
    ApplicationExtension(Strip(AsciiDecode(appData[..Min(8, n)])), AsciiDecode(appData[Min(8, n)..]), appSubBlocks)
  }

  /** `parse_comment_extension`. */
  function ParseCommentExtension(commentData: seq<byte>): (r: CommentExtension)
    ensures |r.comment| == |commentData|
    ensures forall i :: 0 <= i < |commentData| && commentData[i] < 0x80 ==> r.comment[i] as int == commentData[i]
    ensures forall i :: 0 <= i < |commentData| && commentData[i] >= 0x80 ==> r.comment[i] == 0xFFFD as char
  {
    CommentExtension(AsciiDecode(commentData))
  }

  // ---------------------------------------------------------------------------
  // Data sub-blocks

  /**
   * The data sub-blocks starting at pos: the concatenated payloads of the
   * length-prefixed chunks, up to the first zero length byte (consumed) or the
   * end of the data; with the position after them.
   */
  function SubBlocksAt(data: seq<byte>, pos: nat): (r: (seq<byte>, nat))
    requires pos <= |data|
    ensures pos <= r.1 <= |data|
    decreases |data| - pos
  {
    if pos == |data| then ([], pos)
    else if data[pos] == 0 then ([], pos + 1)
    else
      var payload := Take(data, pos + 1, data[pos]);
      var (rest, end) := SubBlocksAt(data, Skip(data, pos + 1, data[pos]));
      (payload + rest, end)
  }

  /** One sub-block read at pos: its payload, then what follows it. */
  lemma SubBlocksNext(data: seq<byte>, pos: nat, chunk: seq<byte>, next: nat)
    requires pos < |data| && data[pos] != 0
    requires chunk == Take(data, pos + 1, data[pos]) && next == Skip(data, pos + 1, data[pos])
    ensures SubBlocksAt(data, pos) == (chunk + SubBlocksAt(data, next).0, SubBlocksAt(data, next).1)
  {
  }

  /** `read_sub_blocks`. */
  method ReadSubBlocks(f: GifFile) returns (result: seq<byte>)
    requires f.pos <= |f.contents|
    modifies f
    ensures f.pos <= |f.contents|
    ensures (result, f.pos) == SubBlocksAt(f.contents, old(f.pos))
  {
    result := [];
    while true
      invariant f.pos <= |f.contents|
      invariant SubBlocksAt(f.contents, old(f.pos)).0 == result + SubBlocksAt(f.contents, f.pos).0
      invariant SubBlocksAt(f.contents, old(f.pos)).1 == SubBlocksAt(f.contents, f.pos).1
      decreases |f.contents| - f.pos
    {
      ghost var start := f.pos;
      var blockSizeData := f.Read(1);
      if blockSizeData == [] {
        assert SubBlocksAt(f.contents, start).0 == [];
        break;
      }
      var size := blockSizeData[0];
      if size == 0 {
        assert SubBlocksAt(f.contents, start).0 == [];
        break;
      }
      var chunk := f.Read(size);
      SubBlocksNext(f.contents, start, chunk, f.pos);
      AppendAssoc(result, chunk, SubBlocksAt(f.contents, f.pos).0);
      result := result + chunk;
    }
    assert result + [] == result;
  }

  /** `skip_sub_blocks`: consumes the same bytes as `read_sub_blocks`. */
  method SkipSubBlocks(f: GifFile)
    requires f.pos <= |f.contents|
    modifies f
    ensures f.pos <= |f.contents|
    ensures f.pos == SubBlocksAt(f.contents, old(f.pos)).1
  {
    while true
      invariant old(f.pos) <= f.pos <= |f.contents|
      invariant SubBlocksAt(f.contents, old(f.pos)).1 == SubBlocksAt(f.contents, f.pos).1
      decreases |f.contents| - f.pos
    {
      var blockSizeData := f.Read(1);
      if blockSizeData == [] {
        break;
      }
      var size := blockSizeData[0];
      if size == 0 {
        break;
      }
      var chunk := f.Read(size);
    }
  }

  /** Chunks of 1 to 255 bytes, each preceded by its length (no terminator). */
  function EncodeSubBlocks(chunks: seq<seq<byte>>): seq<byte>
    requires forall i :: 0 <= i < |chunks| ==> 0 < |chunks[i]| < 0x100
  {
    if chunks == [] then [] else [|chunks[0]| as byte] + chunks[0] + EncodeSubBlocks(chunks[1..])
  }

  function Concat(chunks: seq<seq<byte>>): seq<byte>
  {
    if chunks == [] then [] else chunks[0] + Concat(chunks[1..])
  }

  /** One sub-block in front of the rest of the encoding: its length byte, its payload, then the rest. */
  lemma SubBlockStep(data: seq<byte>, pos: nat, c: seq<byte>, rest: seq<byte>)
    requires 0 < |c| < 0x100
    requires pos + 1 + |c| + |rest| <= |data|
    requires data[pos..pos + 1 + |c| + |rest|] == [|c| as byte] + c + rest
    ensures data[pos] == |c| && Take(data, pos + 1, data[pos]) == c && Skip(data, pos + 1, data[pos]) == pos + 1 + |c|
    ensures data[pos + 1 + |c|..pos + 1 + |c| + |rest|] == rest
  {
    var w := data[pos..pos + 1 + |c| + |rest|];
    assert data[pos] == w[0];
    assert data[pos + 1..pos + 1 + |c|] == c by {
      assert forall j :: pos + 1 <= j < pos + 1 + |c| ==> data[j] == w[j - pos] == c[j - pos - 1];
    }
    assert data[pos + 1 + |c|..pos + 1 + |c| + |rest|] == rest by {
      assert forall j :: pos + 1 + |c| <= j < pos + 1 + |c| + |rest| ==> data[j] == w[j - pos] == rest[j - pos - 1 - |c|];
    }
  }

  /** Reading back encoded sub-blocks and their terminator yields the concatenated chunks. */
  lemma {:induction false} SubBlocksRoundTrip(data: seq<byte>, pos: nat, chunks: seq<seq<byte>>)
    requires forall i :: 0 <= i < |chunks| ==> 0 < |chunks[i]| < 0x100
    requires pos + |EncodeSubBlocks(chunks)| < |data|
    requires data[pos..pos + |EncodeSubBlocks(chunks)| + 1] == EncodeSubBlocks(chunks) + [0]
    ensures SubBlocksAt(data, pos) == (Concat(chunks), pos + |EncodeSubBlocks(chunks)| + 1)
    decreases |chunks|
  {
    if chunks == [] {
      assert data[pos] == (EncodeSubBlocks(chunks) + [0])[0];
    } else {
      EncodedHead(data, pos, chunks);
      SubBlocksRoundTrip(data, pos + 1 + |chunks[0]|, chunks[1..]);
      SubBlocksCons(data, pos, chunks[0], pos + 1 + |chunks[0]|, Concat(chunks[1..]),
                    pos + 1 + |chunks[0]| + |EncodeSubBlocks(chunks[1..])| + 1);
    }
  }

  /** The first encoded sub-block: its length byte and payload, then the encoding of the others. */
  lemma EncodedHead(data: seq<byte>, pos: nat, chunks: seq<seq<byte>>)
    requires chunks != [] && forall i :: 0 <= i < |chunks| ==> 0 < |chunks[i]| < 0x100
    requires pos + |EncodeSubBlocks(chunks)| < |data|
    requires data[pos..pos + |EncodeSubBlocks(chunks)| + 1] == EncodeSubBlocks(chunks) + [0]
    ensures var c, tailEnc := chunks[0], EncodeSubBlocks(chunks[1..]);
      |EncodeSubBlocks(chunks)| == 1 + |c| + |tailEnc| && Concat(chunks) == c + Concat(chunks[1..]) &&
      data[pos] == |c| && Take(data, pos + 1, data[pos]) == c && Skip(data, pos + 1, data[pos]) == pos + 1 + |c| &&
      data[pos + 1 + |c|..pos + 1 + |c| + |tailEnc| + 1] == tailEnc + [0]
  {
    var c, tailEnc := chunks[0], EncodeSubBlocks(chunks[1..]);
    EncodeCons(chunks);
    SubBlockStep(data, pos, c, tailEnc + [0]);
  }

  /** One unfolding of `EncodeSubBlocks` and `Concat`, with the terminator attached. */
  lemma EncodeCons(chunks: seq<seq<byte>>)
    requires chunks != [] && forall i :: 0 <= i < |chunks| ==> 0 < |chunks[i]| < 0x100
    ensures var c, tailEnc := chunks[0], EncodeSubBlocks(chunks[1..]);
      EncodeSubBlocks(chunks) + [0] == [|c| as byte] + c + (tailEnc + [0]) &&
      |EncodeSubBlocks(chunks)| == 1 + |c| + |tailEnc| && Concat(chunks) == c + Concat(chunks[1..])
  {
  }

  /** A non-empty sub-block in front of the rest: its payload, then what the rest reads. */
  lemma SubBlocksCons(data: seq<byte>, pos: nat, c: seq<byte>, mid: nat, restText: seq<byte>, restEnd: nat)
    requires pos < |data| && data[pos] != 0
    requires Take(data, pos + 1, data[pos]) == c && Skip(data, pos + 1, data[pos]) == mid
    requires SubBlocksAt(data, mid) == (restText, restEnd)
    ensures SubBlocksAt(data, pos) == (c + restText, restEnd)
  {
  }

  // ---------------------------------------------------------------------------
  // Extensions, images and the block loop

  /** The four "pending extension" slots of `parse_blocks`. */
  datatype Pending = Pending(
    graphicControlExt: Option<GraphicControlExtension>,
    plainTextExt: Option<PlainTextExtension>,
    applicationExt: Option<ApplicationExtension>,
    commentExt: Option<CommentExtension>)

  const NoPending := Pending(None, None, None, None)

  /** At most one of the four slots is filled. */
  predicate AtMostOne(p: Pending)
  {
    (if p.graphicControlExt.Some? then 1 else 0) + (if p.plainTextExt.Some? then 1 else 0) +
    (if p.applicationExt.Some? then 1 else 0) + (if p.commentExt.Some? then 1 else 0) <= 1
  }

  /**
   * The extension whose label is at pos (the 0x21 already read): the four slots
   * it produces and the position after it.
   */
  function ExtensionAt(data: seq<byte>, pos: nat): (r: Result<(Pending, nat), ParseError>)
    requires pos <= |data|
    ensures pos == |data| ==> r == Failure(IndexError)
    ensures r.Success? ==> pos < r.value.1 <= |data| && AtMostOne(r.value.0)
    ensures r.Success? ==> var slots := r.value.0;
      (slots.graphicControlExt.Some? <==> data[pos] == 0xF9) && (slots.plainTextExt.Some? <==> data[pos] == 0x01) &&
      (slots.applicationExt.Some? <==> data[pos] == 0xFF) && (slots.commentExt.Some? <==> data[pos] == 0xFE)
    ensures pos < |data| && data[pos] != 0xF9 && data[pos] != 0x01 && data[pos] != 0xFF && data[pos] != 0xFE ==>
      r == Success((NoPending, SubBlocksAt(data, pos + 1).1))
  {
    if pos == |data| then Failure(IndexError)
    else
      var extLabel := data[pos];
      var p := pos + 1;
      if extLabel == 0xF9 then
        var p1 := Skip(data, p, 1);
        var gceData := Take(data, p1, 4);
        var p2 := Skip(data, p1, 4);
        match ParseGraphicControlExtension(gceData)
        case Failure(e) => Failure(e)
        case Success(g) => Success((Pending(Some(g), None, None, None), Skip(data, p2, 1)))
      else if extLabel == 0x01 then
        var p1 := Skip(data, p, 1);
        var pteData := Take(data, p1, 12);
        var (text, end) := SubBlocksAt(data, Skip(data, p1, 12));
        match ParsePlainTextExtension(pteData, text)
        case Failure(e) => Failure(e)
        case Success(t) => Success((Pending(None, Some(t), None, None), end))
      else if extLabel == 0xFF then
        var p1 := Skip(data, p, 1);
        var appData := Take(data, p1, 11);
        var (subBlocks, end) := SubBlocksAt(data, Skip(data, p1, 11));
        Success((Pending(None, None, Some(ParseApplicationExtension(appData, subBlocks)), None), end))
      else if extLabel == 0xFE then
        var (commentData, end) := SubBlocksAt(data, p);
        Success((Pending(None, None, None, Some(ParseCommentExtension(commentData))), end))
      else
        Success((NoPending, SubBlocksAt(data, p).1))
  }

  /** A plain-text extension with its twelve header bytes present fills the second slot. */
  lemma PlainTextAt(data: seq<byte>, pos: nat, pte: seq<byte>, text: seq<byte>, end: nat)
    requires pos + 14 <= |data| && data[pos] == 0x01 && data[pos + 2..pos + 14] == pte
    requires SubBlocksAt(data, pos + 14) == (text, end)
    ensures ParsePlainTextExtension(pte, text).Success?
    ensures ExtensionAt(data, pos) == Success((Pending(None, Some(ParsePlainTextExtension(pte, text).value), None, None), end))
  {
    assert Skip(data, pos + 1, 1) == pos + 2;
    assert Take(data, pos + 2, 12) == pte && Skip(data, pos + 2, 12) == pos + 14;
  }

  /** An application extension with its eleven identifier bytes present fills the third slot. */
  lemma ApplicationAt(data: seq<byte>, pos: nat, appData: seq<byte>, subBlocks: seq<byte>, end: nat)
    requires pos + 13 <= |data| && data[pos] == 0xFF && data[pos + 2..pos + 13] == appData
    requires SubBlocksAt(data, pos + 13) == (subBlocks, end)
    ensures ExtensionAt(data, pos) == Success((Pending(None, None, Some(ParseApplicationExtension(appData, subBlocks)), None), end))
  {
    assert Take(data, pos + 2, 11) == appData;
  }

  /** `parse_extension`. */
  method ParseExtension(f: GifFile) returns (r: Result<Pending, ParseError>)
    requires f.pos <= |f.contents|
    modifies f
    ensures f.pos <= |f.contents|
    ensures var e := ExtensionAt(f.contents, old(f.pos));
      r.Success? == e.Success? &&
      (r.Success? ==> r.value == e.value.0 && f.pos == e.value.1) &&
      (r.Failure? ==> r.error == e.error)
  {
    var graphicControlExt, plainTextExt, applicationExt, commentExt := None, None, None, None;
    var labelData := f.Read(1);
    if labelData == [] {
      return Failure(IndexError);
    }
    var extLabel := labelData[0];
    if extLabel == 0xF9 {
      var blockSize := f.Read(1);
      var gceData := f.Read(4);
      var terminator := f.Read(1);
      var gce := ParseGraphicControlExtension(gceData);
      if gce.Failure? {
        return Failure(gce.error);
      }
      graphicControlExt := Some(gce.value);
    } else if extLabel == 0x01 {
      var blockSize := f.Read(1);
      var pteData := f.Read(12);
      var textData := ReadSubBlocks(f);
      var pte := ParsePlainTextExtension(pteData, textData);
      if pte.Failure? {
        return Failure(pte.error);
      }
      plainTextExt := Some(pte.value);
    } else if extLabel == 0xFF {
      var blockSize := f.Read(1);
      var appData := f.Read(11);
      var appSubBlocks := ReadSubBlocks(f);
      applicationExt := Some(ParseApplicationExtension(appData, appSubBlocks));
    } else if extLabel == 0xFE {
      var commentData := ReadSubBlocks(f);
      commentExt := Some(ParseCommentExtension(commentData));
    } else {
      SkipSubBlocks(f);
    }
    return Success(Pending(graphicControlExt, plainTextExt, applicationExt, commentExt));
  }

  /** The local colour table after an image descriptor: present only when the descriptor's flag is set. */
  function LocalColorTableAt(data: seq<byte>, pos: nat, id: ImageDescriptor): (r: Result<(Option<ColorTable>, nat), ParseError>)
    requires pos <= |data|
    ensures r.Success? ==> pos <= r.value.1 <= |data| && (r.value.0.Some? <==> id.packed >= 128)
    ensures r.Success? && id.packed >= 128 && |data| - pos >= 3 * id.LocalColorTableSize() ==>
      |r.value.0.value.colors| == id.LocalColorTableSize()
    ensures id.packed < 128 ==> r == Success((None, pos))
    ensures id.packed >= 128 ==> var bytes := Take(data, pos, 3 * id.LocalColorTableSize());
      (r.Success? <==> ColorsFrom(bytes).Success?) &&
      (r.Success? ==> r.value.0 == Some(ColorsFrom(bytes).value) && r.value.1 == pos + |bytes|) &&
      (r.Failure? ==> r.error == IndexError)
  {
    if id.LocalColorTableFlag() != 0 then
      var size := id.LocalColorTableSize();
      match ColorsFrom(Take(data, pos, size * 3))
      case Failure(e) => Failure(e)
      case Success(t) => Success((Some(t), Skip(data, pos, size * 3)))
    else
      Success((None, pos))
  }

  /** `parse_local_color_table`. */
  method ParseLocalColorTable(f: GifFile, imageDescriptor: ImageDescriptor) returns (r: Result<Option<ColorTable>, ParseError>)
    requires f.pos <= |f.contents|
    modifies f
    ensures f.pos <= |f.contents|
    ensures var e := LocalColorTableAt(f.contents, old(f.pos), imageDescriptor);
      r.Success? == e.Success? &&
      (r.Success? ==> r.value == e.value.0 && f.pos == e.value.1) &&
      (r.Failure? ==> r.error == e.error)
  {
    var localCt := None;
    if imageDescriptor.LocalColorTableFlag() != 0 {
      var size := imageDescriptor.LocalColorTableSize();
      var data := f.Read(size * 3);
      var colors := ColorsFrom(data);
      if colors.Failure? {
        return Failure(colors.error);
      }
      localCt := Some(colors.value);
    }
    return Success(localCt);
  }

  /** The LZW minimum code size byte, the image data sub-blocks, and their decoding. */
  function IndicesAt(data: seq<byte>, pos: nat): (r: Result<(seq<nat>, nat), ParseError>)
    requires pos <= |data|
    ensures r.Success? ==> pos < r.value.1 <= |data|
    ensures r.Success? ==> Lzw.AllBelow(r.value.0, Pow2(data[pos]))
    ensures pos == |data| ==> r == Failure(IndexError)
    ensures pos < |data| ==> var (imgData, end) := SubBlocksAt(data, pos + 1);
      var decoded := Lzw.LzwDecode(data[pos], imgData);
      (r.Success? <==> decoded.Success?) &&
      (r.Success? ==> r.value == (decoded.value, end)) &&
      (r.Failure? ==> r.error == DecodeError(decoded.error))
  {
    if pos == |data| then Failure(IndexError)
    else
      var (imgData, end) := SubBlocksAt(data, pos + 1);
      match Lzw.LzwDecode(data[pos], imgData)
      case Failure(e) => Failure(DecodeError(e))
      case Success(indices) => Success((indices, end))
  }

  /** `parse_indices`. */
  method ParseIndices(f: GifFile) returns (r: Result<seq<nat>, ParseError>)
    requires f.pos <= |f.contents|
    modifies f
    ensures f.pos <= |f.contents|
    ensures var e := IndicesAt(f.contents, old(f.pos));
      r.Success? == e.Success? &&
      (r.Success? ==> r.value == e.value.0 && f.pos == e.value.1) &&
      (r.Failure? ==> r.error == e.error)
  {
    var codeSizeData := f.Read(1);
    if codeSizeData == [] {
      return Failure(IndexError);
    }
    var lzwMinCodeSize := codeSizeData[0];
    var imgDataBlocks := ReadSubBlocks(f);
    var decoded := Lzw.Decode(lzwMinCodeSize, imgDataBlocks);
    if decoded.Failure? {
      return Failure(DecodeError(decoded.error));
    }
    return Success(decoded.value);
  }

  /** `parse_image_descriptor`. */
  method ParseImageDescriptor(f: GifFile) returns (r: Result<ImageDescriptor, ParseError>)
    requires f.pos <= |f.contents|
    modifies f
    ensures f.pos <= |f.contents|
    ensures r == DecodeImageDescriptor(Take(f.contents, old(f.pos), 9)) && f.pos == Skip(f.contents, old(f.pos), 9)
  {
    var imgDescData := f.Read(9);
    r := DecodeImageDescriptor(imgDescData);
  }

  /** The image branch of `parse_blocks`: descriptor, local table and indices in turn, with the pending slots. */
  method ParseImage(f: GifFile, pending: Pending) returns (r: Result<Frame, ParseError>)
    requires f.pos <= |f.contents|
    modifies f
    ensures f.pos <= |f.contents|
    ensures var e := ImageAt(f.contents, old(f.pos), pending);
      r.Success? == e.Success? &&
      (r.Success? ==> r.value == e.value.0 && f.pos == e.value.1) &&
      (r.Failure? ==> r.error == e.error)
  {
    var imageDescriptor := ParseImageDescriptor(f);
    if imageDescriptor.Failure? {
      return Failure(imageDescriptor.error);
    }
    var localCt := ParseLocalColorTable(f, imageDescriptor.value);
    if localCt.Failure? {
      return Failure(localCt.error);
    }
    var indices := ParseIndices(f);
    if indices.Failure? {
      return Failure(indices.error);
    }
    r := Success(Frame(imageDescriptor.value, localCt.value, pending.graphicControlExt, pending.plainTextExt,
                       pending.applicationExt, pending.commentExt, indices.value));
  }

  /**
   * The image at pos (the 0x2C already read): descriptor, local table, indices,
   * and the pending extensions; with the position after it.
   */
  function ImageAt(data: seq<byte>, pos: nat, pending: Pending): (r: Result<(Frame, nat), ParseError>)
    requires pos <= |data|
    ensures r.Success? ==> pos < r.value.1 <= |data|
    ensures r.Success? ==> var frame := r.value.0;
      frame.graphicControlExtension == pending.graphicControlExt && frame.plainTextExt == pending.plainTextExt &&
      frame.applicationExt == pending.applicationExt && frame.commentExt == pending.commentExt &&
      (frame.localColorTable.Some? <==> frame.imageDescriptor.packed >= 128)
    ensures var id := DecodeImageDescriptor(Take(data, pos, 9));
      r.Success? ==> (id.Success? && r.value.0.imageDescriptor == id.value &&
        var lct := LocalColorTableAt(data, Skip(data, pos, 9), id.value);
        lct.Success? && r.value.0.localColorTable == lct.value.0 &&
        var indices := IndicesAt(data, lct.value.1);
        indices.Success? && r.value.0.imageData == indices.value.0 && r.value.1 == indices.value.1)
  {
    var p1 := Skip(data, pos, 9);
    match DecodeImageDescriptor(Take(data, pos, 9))
    case Failure(e) => Failure(e)
    case Success(id) =>
      match LocalColorTableAt(data, p1, id)
      case Failure(e) => Failure(e)
      case Success((lct, p2)) =>
        match IndicesAt(data, p2)
        case Failure(e) => Failure(e)
        case Success((indices, end)) =>
          var frame := Frame(id, lct, pending.graphicControlExt, pending.plainTextExt,
                             pending.applicationExt, pending.commentExt, indices);
          Success((frame, end))
  }

  /** An image whose descriptor, local table and indices each parse in turn gives the frame built from them. */
  lemma ImageAtParts(data: seq<byte>, pos: nat, pending: Pending, id: ImageDescriptor, lct: Option<ColorTable>, p2: nat,
                     indices: seq<nat>, end: nat)
    requires pos + 9 <= |data| && DecodeImageDescriptor(data[pos..pos + 9]) == Success(id)
    requires LocalColorTableAt(data, pos + 9, id) == Success((lct, p2)) && p2 <= |data|
    requires IndicesAt(data, p2) == Success((indices, end))
    ensures ImageAt(data, pos, pending)
         == Success((Frame(id, lct, pending.graphicControlExt, pending.plainTextExt, pending.applicationExt, pending.commentExt, indices), end))
  {
    assert Take(data, pos, 9) == data[pos..pos + 9];
  }

  /** What the block loop has produced when it stops: the frames, and the exception if one ended it. */
  datatype BlocksOutcome = BlocksOutcome(frames: seq<Frame>, error: Option<ParseError>)

  /**
   * The block loop from pos with the given pending slots and the frames built
   * so far: stop at the end of the data or at 0x3B; 0x21 replaces all four
   * slots; 0x2C appends one frame and empties them; any other byte skips
   * sub-blocks.
   */
  function BlocksFrom(data: seq<byte>, pos: nat, pending: Pending, frames: seq<Frame>): (r: BlocksOutcome)
    requires pos <= |data|
    ensures frames <= r.frames
    ensures pos == |data| || data[pos] == 0x3B ==> r == BlocksOutcome(frames, None)
    decreases |data| - pos
  {
    if pos == |data| then BlocksOutcome(frames, None)
    else
      var blockId := data[pos];
      if blockId == 0x3B then BlocksOutcome(frames, None)
      else if blockId == 0x21 then
        match ExtensionAt(data, pos + 1)
        case Failure(e) => BlocksOutcome(frames, Some(e))
        case Success((slots, end)) => BlocksFrom(data, end, slots, frames)
      else if blockId == 0x2C then
        match ImageAt(data, pos + 1, pending)
        case Failure(e) => BlocksOutcome(frames, Some(e))
        case Success((frame, end)) => BlocksFrom(data, end, NoPending, frames + [frame])
      else
        BlocksFrom(data, SubBlocksAt(data, pos + 1).1, pending, frames)
  }

  /** A frame as the loop builds it: at most one extension, and a local table exactly when its flag is set. */
  predicate FrameShape(frame: Frame)
  {
    AtMostOne(Pending(frame.graphicControlExtension, frame.plainTextExt, frame.applicationExt, frame.commentExt)) &&
    (frame.localColorTable.Some? <==> frame.imageDescriptor.LocalColorTableFlag() == 1)
  }

  predicate AllShaped(frames: seq<Frame>)
  {
    forall i :: 0 <= i < |frames| ==> FrameShape(frames[i])
  }

  /** Every frame the loop builds carries at most the single most recent extension. */
  lemma {:induction false} BlocksFromShape(data: seq<byte>, pos: nat, pending: Pending, frames: seq<Frame>)
    requires pos <= |data| && AtMostOne(pending) && AllShaped(frames)
    ensures AllShaped(BlocksFrom(data, pos, pending, frames).frames)
    decreases |data| - pos
  {
    if pos < |data| {
      var blockId := data[pos];
      if blockId == 0x21 {
        var ext := ExtensionAt(data, pos + 1);
        if ext.Success? {
          ExtensionForgetsPending(data, pos, pending, pending, frames);
          BlocksFromShape(data, ext.value.1, ext.value.0, frames);
        }
      } else if blockId == 0x2C {
        match ImageAt(data, pos + 1, pending)
        case Failure(_) =>
        case Success((frame, end)) =>
          ImageShaped(data, pos, pending, frames, frame, end);
          BlocksFromShape(data, end, NoPending, frames + [frame]);
      } else if blockId != 0x3B {
        OtherBlockSkipped(data, pos, pending, frames);
        BlocksFromShape(data, SubBlocksAt(data, pos + 1).1, pending, frames);
      }
    }
  }

  /** An image block appends a frame of the loop's shape, then goes on with nothing pending. */
  lemma ImageShaped(data: seq<byte>, pos: nat, pending: Pending, frames: seq<Frame>, frame: Frame, end: nat)
    requires pos < |data| && data[pos] == 0x2C && ImageAt(data, pos + 1, pending) == Success((frame, end))
    requires AtMostOne(pending) && AllShaped(frames)
    ensures AllShaped(frames + [frame])
    ensures BlocksFrom(data, pos, pending, frames) == BlocksFrom(data, end, NoPending, frames + [frame])
  {
    assert FrameShape(frame);
    assert forall i :: 0 <= i < |frames| ==> (frames + [frame])[i] == frames[i];
  }

  lemma AppendAssoc<T>(a: seq<T>, b: seq<T>, c: seq<T>)
    ensures (a + b) + c == a + (b + c)
  {
  }

  /** The frames a run of the loop adds, and where it stops, do not depend on the frames it started with. */
  lemma {:induction false} BlocksFromAppend(data: seq<byte>, pos: nat, pending: Pending, frames: seq<Frame>)
    requires pos <= |data|
    ensures var r := BlocksFrom(data, pos, pending, frames);
      var alone := BlocksFrom(data, pos, pending, []);
      r.frames == frames + alone.frames && r.error == alone.error
    decreases |data| - pos
  {
    if pos < |data| {
      var blockId := data[pos];
      if blockId == 0x21 {
        match ExtensionAt(data, pos + 1)
        case Failure(_) =>
        case Success((slots, end)) =>
          BlocksFromAppend(data, end, slots, frames);
      } else if blockId == 0x2C {
        match ImageAt(data, pos + 1, pending)
        case Failure(_) =>
        case Success((frame, end)) =>
          BlocksFromAppend(data, end, NoPending, frames + [frame]);
          BlocksFromAppend(data, end, NoPending, [frame]);
          assert [] + [frame] == [frame];
          assert BlocksFrom(data, pos, pending, []) == BlocksFrom(data, end, NoPending, [frame]);
          var later := BlocksFrom(data, end, NoPending, []).frames;
          AppendAssoc(frames, [frame], later);
      } else if blockId != 0x3B {
        BlocksFromAppend(data, SubBlocksAt(data, pos + 1).1, pending, frames);
      }
    }
  }

  /**
   * An extension block replaces every extension still pending: what came
   * before it is forgotten, and the loop goes on with exactly the slots the
   * extension yields, or stops with its exception.
   */
  lemma ExtensionForgetsPending(data: seq<byte>, pos: nat, pending1: Pending, pending2: Pending, frames: seq<Frame>)
    requires pos < |data| && data[pos] == 0x21
    ensures BlocksFrom(data, pos, pending1, frames) == BlocksFrom(data, pos, pending2, frames)
    ensures var ext := ExtensionAt(data, pos + 1);
      (ext.Failure? ==> BlocksFrom(data, pos, pending1, frames) == BlocksOutcome(frames, Some(ext.error))) &&
      (ext.Success? ==> BlocksFrom(data, pos, pending1, frames) == BlocksFrom(data, ext.value.1, ext.value.0, frames))
  {
  }

  /**
   * An extension block directly followed by an image block: the frame appended
   * carries exactly the slots of that extension, whatever was pending before.
   */
  lemma ExtensionThenImage(data: seq<byte>, pos: nat, pending: Pending, frames: seq<Frame>,
                           slots: Pending, end: nat, frame: Frame, next: nat)
    requires pos < |data| && data[pos] == 0x21 && ExtensionAt(data, pos + 1) == Success((slots, end))
    requires end < |data| && data[end] == 0x2C && ImageAt(data, end + 1, slots) == Success((frame, next))
    ensures frame.graphicControlExtension == slots.graphicControlExt && frame.plainTextExt == slots.plainTextExt &&
      frame.applicationExt == slots.applicationExt && frame.commentExt == slots.commentExt
    ensures var r := BlocksFrom(data, pos, pending, frames);
      var later := BlocksFrom(data, next, NoPending, []);
      r.frames == frames + [frame] + later.frames && r.error == later.error
  {
    assert BlocksFrom(data, pos, pending, frames) == BlocksFrom(data, end, slots, frames) by {
      ExtensionForgetsPending(data, pos, pending, NoPending, frames);
    }
    ImageAppendsFrame(data, end, slots, frames);
  }

  /**
   * An image block that parses appends exactly its one frame, which carries
   * the pending extensions; the loop then goes on with none pending.
   */
  lemma ImageAppendsFrame(data: seq<byte>, pos: nat, pending: Pending, frames: seq<Frame>)
    requires pos < |data| && data[pos] == 0x2C && ImageAt(data, pos + 1, pending).Success?
    ensures var (frame, end) := ImageAt(data, pos + 1, pending).value;
      var r := BlocksFrom(data, pos, pending, frames);
      var later := BlocksFrom(data, end, NoPending, []);
      frame.graphicControlExtension == pending.graphicControlExt && frame.plainTextExt == pending.plainTextExt &&
      frame.applicationExt == pending.applicationExt && frame.commentExt == pending.commentExt &&
      r.frames == frames + [frame] + later.frames && r.error == later.error
  {
    var image := ImageAt(data, pos + 1, pending).value;
    BlocksFromAppend(data, image.1, NoPending, frames + [image.0]);
  }

  /** Any other block is skipped over by its sub-blocks, and the pending extensions stay. */
  lemma OtherBlockSkipped(data: seq<byte>, pos: nat, pending: Pending, frames: seq<Frame>)
    requires pos < |data| && data[pos] != 0x3B && data[pos] != 0x21 && data[pos] != 0x2C
    ensures BlocksFrom(data, pos, pending, frames) == BlocksFrom(data, SubBlocksAt(data, pos + 1).1, pending, frames)
  {
  }

  /** The parser object: what it has read so far. */
  class GifParser {
    var header: Option<Header>
    var logicalScreenDescriptor: Option<LogicalScreenDescriptor>
    var globalColorTable: Option<ColorTable>
    var frames: seq<Frame>

    constructor ()
      ensures header.None? && logicalScreenDescriptor.None? && globalColorTable.None? && frames == []
    {
      header, logicalScreenDescriptor, globalColorTable, frames := None, None, None, [];
    }

    /** `parse_blocks`: appends the frames of the block loop; an exception stops it where it is. */
    method ParseBlocks(f: GifFile) returns (err: Option<ParseError>)
      requires f.pos <= |f.contents|
      modifies this, f
      ensures header == old(header) && logicalScreenDescriptor == old(logicalScreenDescriptor)
      ensures globalColorTable == old(globalColorTable)
      ensures var outcome := BlocksFrom(f.contents, old(f.pos), NoPending, []);
        frames == old(frames) + outcome.frames && err == outcome.error
    {
      var graphicControlExt, plainTextExt, applicationExt, commentExt := None, None, None, None;
      ghost var added: seq<Frame> := [];
      while true
        invariant f.pos <= |f.contents|
        invariant header == old(header) && logicalScreenDescriptor == old(logicalScreenDescriptor)
        invariant globalColorTable == old(globalColorTable)
        invariant frames == old(frames) + added
        invariant BlocksFrom(f.contents, f.pos, Pending(graphicControlExt, plainTextExt, applicationExt, commentExt), added)
               == BlocksFrom(f.contents, old(f.pos), NoPending, [])
        decreases |f.contents| - f.pos
      {
        var b := f.Read(1);
        if |b| == 0 {
          break;
        }
        var blockId := b[0];
        if blockId == 0x3B {
          break;
        } else if blockId == 0x21 {
          var ext := ParseExtension(f);
          if ext.Failure? {
            return Some(ext.error);
          }
          graphicControlExt, plainTextExt, applicationExt, commentExt :=
            ext.value.graphicControlExt, ext.value.plainTextExt, ext.value.applicationExt, ext.value.commentExt;
        } else if blockId == 0x2C {
          var image := ParseImage(f, Pending(graphicControlExt, plainTextExt, applicationExt, commentExt));
          if image.Failure? {
            return Some(image.error);
          }
          var frame := image.value;
          AppendAssoc(old(frames), added, [frame]);
          frames := frames + [frame];
          added := added + [frame];
          graphicControlExt, plainTextExt, applicationExt, commentExt := None, None, None, None;
        } else {
          SkipSubBlocks(f);
        }
      }
      return None;
    }

    /**
     * `parse`, over the file's bytes (None when the file does not exist: nothing
     * changes).  The header is replaced even when it is invalid, and parsing
     * goes on regardless; the global table's bytes are consumed whatever its
     * flag says.
     */
    method Parse(file: Option<seq<byte>>) returns (err: Option<ParseError>)
      modifies this
      ensures file.None? ==> (err.None? && header == old(header) && frames == old(frames) &&
        logicalScreenDescriptor == old(logicalScreenDescriptor) && globalColorTable == old(globalColorTable))
      ensures file.Some? ==> header == ParseHeader(Take(file.value, 0, 6))
      ensures file.Some? ==>
        var data := file.value;
        var p1 := Skip(data, 0, 6);
        var lsd := ParseLogicalScreenDescriptor(Take(data, p1, 7));
        var p2 := Skip(data, p1, 7);
        (lsd.Failure? ==> err == Some(lsd.error) && logicalScreenDescriptor == old(logicalScreenDescriptor) &&
                           globalColorTable == old(globalColorTable) && frames == old(frames)) &&
        (lsd.Success? ==>
          var n := lsd.value.GlobalColorTableSize() * 3;
          var gct := ParseGlobalColorTable(lsd.value, Take(data, p2, n));
          logicalScreenDescriptor == Some(lsd.value) &&
          (gct.Failure? ==> err == Some(gct.error) && globalColorTable == old(globalColorTable) && frames == old(frames)) &&
          (gct.Success? ==>
            var blocks := BlocksFrom(data, Skip(data, p2, n), NoPending, []);
            globalColorTable == gct.value && frames == old(frames) + blocks.frames && err == blocks.error))
    {
      if file.None? {
        return None;
      }
      var f := new GifFile(file.value);
      var headerData := f.Read(6);
      header := ParseHeader(headerData);
      var logDescData := f.Read(7);
      var lsd := ParseLogicalScreenDescriptor(logDescData);
      if lsd.Failure? {
        return Some(lsd.error);
      }
      logicalScreenDescriptor := Some(lsd.value);
      var data := f.Read(lsd.value.GlobalColorTableSize() * 3);
      var gct := ParseGlobalColorTable(lsd.value, data);
      if gct.Failure? {
        return Some(gct.error);
      }
      globalColorTable := gct.value;
      err := ParseBlocks(f);
    }
  }
}
