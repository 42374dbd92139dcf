# GIF parser, viewer compositor and PNG exporter — a Dafny model

This project models the core of a small GIF89a toolkit:

- **LZW decoder** (`Lzw`). It reads variable-width codes least-significant-bit first out of the image data. It handles the clear and end codes, grows the code table (including the "code not yet in the table" case), and widens codes up to 12 bits.
- **Block parser** (`Parser`, `ParserProperties`). It reads the header, the logical screen descriptor and the global colour table. It then walks the blocks with four "pending extension" slots, and reads images, local colour tables, data sub-blocks and the four extension kinds.
- **Frame compositor** (`Viewer`). It keeps a canvas of colour strings that starts as a checkerboard. It clears and draws frame rectangles, skipping transparent pixels. It applies disposal methods 2 and 3 with a stack of snapshots, and steps the frame index and delay of the animation.
- **PNG export helpers** (`Exporter`). They turn colour indices into RGBA scanlines with a filter byte. They pack IHDR and frame chunks as in sections 3.1, 3.2 and 4.1.1 of RFC 2083, and pick which frame numbers a batch export writes.
- **Descriptor bit-fields and colour-table equality** (`GifStructs`), with low-level bit arithmetic in `Bits`.

Python's unbounded integers are `int`/`nat`. Bytes are the subset type `byte`, and 16-bit fields are `u16`. The bitwise operators are defined bit by bit in `Bits` and related to `%`, `/` and `+` by lemmas.

Python exceptions that end an operation are modelled as follows:

- **Parser:** an `IndexError` from a short read becomes a `Failure`. The fields assigned before the exception keep their values.
- **LZW decoder:** `extend(None)` becomes a `TypeError` failure, and a missing dictionary key becomes a `KeyError` failure.
- **Viewer and exporter:** where a bad index would stop the source, the model instead makes the operation's precondition rule that case out.

The file and the image data are byte sequences in memory. `zlib.compress` and `zlib.crc32` are function-valued fields of a `Zlib` value that every export takes as a parameter.

## Model

| member | source | states |
|---|---|---|
| Bits.LittleEndian16 | GifParser/parser.py:65-66 | `lo + 256*hi` is the little-endian value of the two bytes, and splits back into `lo` and `hi` |
| Bits.BigEndian32 | GifParser/gif_frames_exporter.py:120 | `struct.pack(">I", n)` gives four bytes whose big-endian reading is `n` |
| Bits.AndLowMask | GifParser/lzw_decompressor.py:97 | `x & ((1 << n) - 1)` keeps exactly the low n bits of x |
| Bits.ShrLowBitsDivMod | GifParser/lzw_decompressor.py:97-98 | `x >> n` is `x / 2^n`, and the low n bits are `x % 2^n` |
| Bits.OrDisjoint | GifParser/lzw_decompressor.py:89 | OR-ing a byte in above the bits already buffered is addition |
| GifStructs.LogicalScreenDescriptor.GlobalColorTableFlag | GifStructs/logical_screen_descriptor.py:9-11 | `(packed & 0x80) >> 7` is bit 7, so it is 0 or 1, and it is 1 exactly when packed >= 128 |
| GifStructs.LogicalScreenDescriptor.SortFlag | GifStructs/logical_screen_descriptor.py:13-15 | `(packed & 0x08) >> 3` is bit 3, 0 or 1 |
| GifStructs.LogicalScreenDescriptor.GlobalColorTableSize | GifStructs/logical_screen_descriptor.py:17-20 | `2 ** ((packed & 7) + 1)`, always one of 2, 4, …, 256, whatever the flag |
| GifStructs.LogicalScreenDescriptor.Equals | GifStructs/logical_screen_descriptor.py:32-37 | equality holds exactly when all five fields agree |
| GifStructs.ImageDescriptor.LocalColorTableFlag | GifStructs/image_descriptor.py:9-11 | bit 7 of packed, 0 or 1 |
| GifStructs.ImageDescriptor.InterlaceFlag | GifStructs/image_descriptor.py:13-15 | bit 6 of packed, 0 or 1 |
| GifStructs.ImageDescriptor.SortFlag | GifStructs/image_descriptor.py:17-19 | bit 5 of packed, 0 or 1 |
| GifStructs.ImageDescriptor.LocalColorTableSize | GifStructs/image_descriptor.py:21-24 | `2 ** ((packed & 7) + 1)` when the flag is set, else 0 |
| GifStructs.ImageDescriptor.Equals | GifStructs/image_descriptor.py:36-39 | equality holds exactly when all five fields agree |
| GifStructs.ColorTableSizeRange | GifStructs/logical_screen_descriptor.py:18-20 | `2 ** (n + 1)` for a 3-bit n is one of 2, 4, …, 256 |
| GifStructs.ColorTable.Equals | GifStructs/global_color_table.py:9-13 | true exactly when the colours agree at every index of the common prefix |
| GifStructs.ZipEqual | GifStructs/global_color_table.py:10-13 | the early-exit loop over `zip` is true iff no pair of the common prefix differs |
| GifStructs.EqualsReflexive | GifStructs/global_color_table.py:9-13 | every table equals itself |
| GifStructs.EqualsSymmetric | GifStructs/global_color_table.py:9-13 | `a == b` and `b == a` agree |
| GifStructs.EqualsExtension | GifStructs/global_color_table.py:10 | lengths are not compared, so a table equals every extension of itself, both ways |
| GifStructs.EmptyEqualsAll | GifStructs/global_color_table.py:10 | the empty table equals every table, both ways |
| GifStructs.DifferenceInPrefix | GifStructs/global_color_table.py:11-12 | a differing pair in the common prefix makes the tables unequal |
| GifStructs.EqualsNotTransitive | GifStructs/global_color_table.py:9-13 | two different one-colour tables both equal the empty table, but not each other |
| Lzw.InitializeParameters | GifParser/lzw_decompressor.py:37-54 | clear code `2^min`, end code one more, code size `min + 1`, next code `clear + 2`, maximum 12 |
| Lzw.ResetParameters | GifParser/lzw_decompressor.py:56-73 | returns exactly what `initialize_parameters` returns |
| Lzw.InitialDictionary | GifParser/lzw_decompressor.py:12 | maps each code below clear_code to the one-element list of itself; holds neither clear_code nor end_code |
| Lzw.CodeAt | GifParser/lzw_decompressor.py:75-101 | a code exists exactly when `code_size` more bits remain in the data, and it is below `2^code_size` |
| Lzw.ReadNextCode | GifParser/lzw_decompressor.py:75-101 | pulls bytes in at bit offset `bits_in_buffer`; the code is below `2^code_size` and equals the next `code_size` bits of the data read LSB-first; the buffer keeps the rest; None only when the data has run out with fewer bits buffered |
| Lzw.PullByte | GifParser/lzw_decompressor.py:86-90 | one pulled byte keeps the buffer equal to the next unread bits of the data |
| Lzw.TakeCode | GifParser/lzw_decompressor.py:97-99 | the masked buffer is the bit window at the current offset, and the shifted buffer is the window after it |
| Lzw.ProcessCode | GifParser/lzw_decompressor.py:103-131 | a known code appends its entry; an unknown code with old_code set appends `entry(old) + [entry(old)[0]]`; unknown without old_code is the `extend(None)` error; with old_code, one entry goes in at next_code, next_code grows by 1, and code_size grows only when next_code reaches `2^code_size` below 12 |
| Lzw.DecodeFrom | GifParser/lzw_decompressor.py:18-35 | the decoding from a given bit offset and state only ever extends the output it started with |
| Lzw.Decode | GifParser/lzw_decompressor.py:6-35 | the decoding loop computes exactly the recursive decoder `LzwDecode` |
| Lzw.StartValid | GifParser/lzw_decompressor.py:11-16 | the initial state satisfies the decoder invariant |
| Lzw.RestartValid | GifParser/lzw_decompressor.py:25-29 | a clear code restores the initial table, code size and next code, forgets old_code and keeps the output |
| Lzw.ProcessCodeKeepsValid | GifParser/lzw_decompressor.py:123-130 | processing a code keeps the invariant: table keys are exactly the codes below clear_code and from clear_code + 2 up to next_code, every entry is non-empty colour indices, and code size stays within 12 |
| Lzw.DecodeFromValid | GifParser/lzw_decompressor.py:18-35 | decoding only extends the output, and every output index is below clear_code |
| Lzw.LzwDecode | GifParser/lzw_decompressor.py:6-35 | what `decode` returns or raises, read from the initial state at bit 0; every decoded index is below `2^min_code_size` |
| Lzw.DecodeEmpty | GifParser/lzw_decompressor.py:22-23 | empty data decodes to the empty list |
| Lzw.DecodeStopsAtEndCode | GifParser/lzw_decompressor.py:30-31 | with minimum size 2, the bytes 0x44 0x01 decode to [0] whatever follows them |
| Parser.Take | GifParser/parser.py:34 | `f.read(n)` returns the next `min(n, remaining)` bytes |
| Parser.GifFile.Read | GifParser/parser.py:34 | a read returns those bytes and moves the cursor past them |
| Parser.AsciiDecode | GifParser/parser.py:49-50 | one character per byte, the byte itself below 0x80 and U+FFFD otherwise |
| Parser.IsSpace | GifParser/parser.py:226 | the whitespace `str.strip()` removes among ASCII characters: space, tab, line feed, carriage return, vertical tab, form feed and 0x1C-0x1F |
| Parser.SkipSpaces | GifParser/parser.py:226 | the first non-whitespace index at or after i, with only whitespace skipped |
| Parser.SkipSpacesBack | GifParser/parser.py:226 | the end of the slice once trailing whitespace is cut, with only whitespace cut |
| Parser.Strip | GifParser/parser.py:226 | the result is the input without its leading and trailing whitespace, and neither starts nor ends with whitespace |
| Parser.StripIdempotent | GifParser/parser.py:226 | stripping twice is stripping once |
| Parser.ParseHeader | GifParser/parser.py:42-56 | Some exactly when the first three bytes spell "GIF", with the next up to three bytes as the version |
| Parser.ParseLogicalScreenDescriptor | GifParser/parser.py:58-68 | fails with IndexError exactly on fewer than 7 bytes; width and height are little-endian; packed, background index and aspect ratio are bytes 4, 5 and 6 |
| Parser.ColorsFrom | GifParser/parser.py:79 | the bytes as RGB triples in order; IndexError when the length is not a multiple of 3 |
| Parser.ParseGlobalColorTable | GifParser/parser.py:70-81 | None when the flag is clear; otherwise the triples of the data |
| Parser.DecodeImageDescriptor | GifParser/parser.py:146-152 | fails exactly on fewer than 9 bytes; four little-endian fields and the packed byte |
| Parser.ParseGraphicControlExtension | GifParser/parser.py:182-196 | disposal is bits 2-4, user input bit 1, transparency bit 0, the delay little-endian, the index byte 3; fails exactly on fewer than 4 bytes |
| Parser.ShiftedLittleEndian16 | GifParser/parser.py:206-209 | `lo + (hi << 8)` equals `lo + 256*hi` |
| Parser.ParsePlainTextExtension | GifParser/parser.py:198-216 | fails exactly on fewer than 12 bytes; bytes 4-5 land in the record's height and bytes 6-7 in its width, because of the constructor's parameter order |
| Parser.ParseApplicationExtension | GifParser/parser.py:218-228 | the identifier is the first up to 8 bytes decoded and stripped; the authentication code is the rest decoded; the sub-block data is kept |
| Parser.ParseCommentExtension | GifParser/parser.py:230-238 | one character per byte: ASCII bytes kept as they are, bytes from 0x80 up replaced by U+FFFD |
| Parser.SubBlocksAt | GifParser/parser.py:251-268 | the sub-block reader never moves backwards or past the end |
| Parser.ReadSubBlocks | GifParser/parser.py:251-268 | the loop returns the concatenated payloads and stops at a zero length byte or the end of the data |
| Parser.SkipSubBlocks | GifParser/parser.py:240-249 | consumes exactly the bytes `read_sub_blocks` would |
| Parser.SubBlocksRoundTrip | GifParser/parser.py:258-268 | length-prefixed chunks followed by a zero byte read back as their concatenation, and the cursor lands just past the zero |
| Parser.ExtensionAt | GifParser/parser.py:106-137 | a missing label byte is an IndexError; on success the cursor moves forward, at most one slot is set, and each slot is set exactly when the label is its own (0xF9, 0x01, 0xFF, 0xFE); any other label leaves all four empty and ends where the skipped sub-blocks end |
| Parser.PlainTextAt | GifParser/parser.py:121-125 | a 0x01 label with its 12 header bytes present fills the plain-text slot from those bytes and the sub-blocks after them, ending where the sub-blocks end |
| Parser.ApplicationAt | GifParser/parser.py:126-130 | a 0xFF label with its 11 bytes present fills the application slot from those bytes and the sub-blocks after them, ending where the sub-blocks end |
| Parser.ParseExtension | GifParser/parser.py:106-137 | the label dispatch returns the slots and the cursor that `ExtensionAt` describes |
| Parser.LocalColorTableAt | GifParser/parser.py:154-168 | no table and no bytes consumed when the flag is clear; otherwise the triples of the next `size * 3` bytes (fewer at the end of the file) and the cursor after them, or IndexError when those bytes are not whole triples |
| Parser.ParseLocalColorTable | GifParser/parser.py:154-168 | reads the table that `LocalColorTableAt` describes |
| Parser.IndicesAt | GifParser/parser.py:170-180 | IndexError with no minimum-code-size byte; otherwise exactly the LZW decoding of the sub-blocks after that byte with it as minimum code size, ending where the sub-blocks end, or its error; every index is below `2^lzw_min_code_size` |
| Parser.ParseIndices | GifParser/parser.py:170-180 | reads the indices that `IndicesAt` describes |
| Parser.ParseImageDescriptor | GifParser/parser.py:139-152 | decodes the next 9 bytes and moves past them |
| Parser.ParseImage | GifParser/parser.py:94-101 | the image branch reads the descriptor, local table and indices as `ImageAt` describes, failing with its exception |
| Parser.ImageAt | GifParser/parser.py:94-102 | a frame only when the descriptor, then the local table after it, then the indices after that all parse; the frame holds exactly those three and the pending extensions unchanged, and the cursor ends after the indices |
| Parser.ImageAtParts | GifParser/parser.py:94-101 | when the descriptor, local table and indices parse one after another, the image block is the frame built from them and the pending slots |
| Parser.BlocksFrom | GifParser/parser.py:83-104 | the block loop only ever appends frames, and at the end of the data or at a 0x3B byte it stops with nothing added and no error |
| Parser.BlocksFromAppend | GifParser/parser.py:83-104 | the frames found from a position do not depend on the frames already collected: they are appended after them, with the same error |
| Parser.ExtensionForgetsPending | GifParser/parser.py:92-93 | an extension block overwrites all four slots: the slots pending before it do not matter, and the loop goes on from the extension's end with exactly the slots `ExtensionAt` gives, or stops with its exception and the frames so far |
| Parser.ExtensionThenImage | GifParser/parser.py:92-101 | an extension followed by an image block appends one frame carrying exactly that extension's slots, whatever was pending before |
| Parser.ImageAppendsFrame | GifParser/parser.py:94-102 | an image block appends exactly one frame carrying the pending slots, then the loop goes on with all four slots cleared |
| Parser.OtherBlockSkipped | GifParser/parser.py:103-104 | any other block byte skips its sub-blocks and keeps the pending slots |
| Parser.BlocksFromShape | GifParser/parser.py:93-102 | every frame the loop appends carries at most one extension, and a local table exactly when its descriptor's flag is set |
| Parser.GifParser.constructor | GifParser/parser.py:20-23 | a new parser has no header, descriptor or table, and no frames |
| Parser.GifParser.ParseBlocks | GifParser/parser.py:83-104 | the loop appends exactly the frames `BlocksFrom` gives and reports its exception; the other fields stay |
| Parser.GifParser.Parse | GifParser/parser.py:25-40 | no file changes nothing; otherwise the header comes from the first 6 bytes, even when it is None; the descriptor comes from the next 7; `3 * global_color_table_size` bytes are consumed whatever the flag; then the blocks are parsed |
| ParserProperties.LogicalScreenDescriptorRoundTrip | GifParser/parser.py:58-68 | the seven bytes of any descriptor decode back to it |
| ParserProperties.ImageDescriptorRoundTrip | GifParser/parser.py:146-152 | the nine bytes of any image descriptor decode back to it |
| ParserProperties.GceRoundTrip | GifParser/parser.py:189-196 | any disposal below 8, flags 0 or 1, delay and index decode back from their four bytes |
| ParserProperties.ColorsRoundTrip | GifParser/parser.py:79 | the bytes of any colour list decode back to the same colours |
| ParserProperties.SubBlocksAfter | GifParser/parser.py:251-268 | encoded chunks and a zero byte read back as their concatenation wherever they sit in the data |
| ParserProperties.GceBlockRoundTrip | GifParser/parser.py:116-120 | a graphic control extension block laid out as an encoder writes it fills the first slot with the record and ends after its terminator |
| ParserProperties.PlainTextLaidOut | GifParser/parser.py:121-125 | a plain-text header followed by sub-blocks fills the second slot from the header and the sub-blocks' payload |
| ParserProperties.PlainTextBlockRoundTrip | GifParser/parser.py:121-125 | a plain-text block of 12 header bytes and encoded chunks fills the second slot with the record of those bytes and the chunks' text, ending after the terminator |
| ParserProperties.ApplicationLaidOut | GifParser/parser.py:126-130 | an application header followed by sub-blocks fills the third slot from the header and the sub-blocks' payload |
| ParserProperties.ApplicationBlockRoundTrip | GifParser/parser.py:126-130 | an application block of 11 bytes and encoded chunks fills the third slot with those bytes' record and the chunks' data, ending after the terminator |
| ParserProperties.CommentBlockRoundTrip | GifParser/parser.py:131-133 | a comment block fills the fourth slot with the decoded text of its chunks, ending after the terminator |
| ParserProperties.OtherExtensionSkipped | GifParser/parser.py:134-135 | an extension with any other label is skipped up to its terminator and leaves all four slots empty |
| ParserProperties.LocalColorTableRoundTrip | GifParser/parser.py:162-168 | a flagged descriptor followed by the bytes of `size` colours reads back those colours, and the cursor moves past them |
| ParserProperties.IndicesExample | GifParser/parser.py:177-180 | minimum code size 2 and one sub-block 0x44 0x01 decode to the single index 0, ending after the terminator |
| ParserProperties.PlainTextSwap | GifParser/parser.py:206-216 | grid width bytes land in `height` and grid height bytes in `width` |
| ParserProperties.HeaderExample | Test/test_parser.py:17-20 | "GIF89a" parses to signature "GIF", version "89a" |
| ParserProperties.LogicalScreenDescriptorExample | Test/test_parser.py:22-25 | 0x2C 0x01 decodes to 300 |
| ParserProperties.GlobalColorTableExample | Test/test_parser.py:27-32 | the sample table decodes to its two colours |
| ParserProperties.GceExample | Test/test_parser.py:34-37 | 01 04 00 00 decodes to disposal 0, no user input, transparency on, delay 4, index 0 |
| ParserProperties.ApplicationExtensionExample | Test/test_parser.py:39-43 | the NETSCAPE block decodes to "NETSCAPE", "2.0\x03" and its data |
| ParserProperties.CommentExtensionExample | GifParser/parser.py:237 | ASCII comment bytes decode to the same text |
| ParserProperties.PlainTextExtensionExample | GifParser/parser.py:206-216 | a sample plain-text block decodes field by field |
| Viewer.CheckerColor | GifParser/gif_viewer.py:99-101 | "#C8C8C8" exactly when `x//10 + y//10` is even, else "#646464" |
| Viewer.CheckerTiles | GifParser/gif_viewer.py:101 | cells of the same 10x10 tile share their colour |
| Viewer.CheckerAlternates | GifParser/gif_viewer.py:101 | moving one tile across or down flips the colour |
| Viewer.CreateCheckerboard | GifParser/gif_viewer.py:92-103 | height rows of width cells, each its checker colour |
| Viewer.Cleared | GifParser/gif_viewer.py:132-137 | clearing keeps the canvas shape |
| Viewer.ClearIdempotent | GifParser/gif_viewer.py:132-137 | clearing a rectangle twice is clearing it once |
| Viewer.ClearCheckerboard | GifParser/gif_viewer.py:132-137 | clearing leaves the fresh checkerboard unchanged |
| Viewer.ClearWholeCanvas | Test/test_viewer.py:43-57 | a rectangle covering the canvas turns any canvas back into the checkerboard |
| Viewer.Hex2 | GifParser/gif_viewer.py:165 | two characters per byte |
| Viewer.HexColor | GifParser/gif_viewer.py:165 | seven characters starting with '#' |
| Viewer.Hex2Injective | GifParser/gif_viewer.py:165 | `f"{v:02X}"` gives two digits and different bytes give different digits |
| Viewer.HexColorInjective | GifParser/gif_viewer.py:165 | different colours give different "#RRGGBB" strings |
| Viewer.HexColorExample | Test/test_viewer.py:85-94 | (0xB8, 0, 0) is written "#B80000" |
| Viewer.CheckerColorsAreHex | GifParser/gif_viewer.py:99 | the two checker colours are the hex strings of (200,200,200) and (100,100,100) |
| Viewer.Palette | GifParser/gif_viewer.py:147-150 | the local table when present, else the global one |
| Viewer.TransparentIndex | GifParser/gif_viewer.py:152-156 | the transparent index only when a graphic control extension sets its flag |
| Viewer.PixelIndex | GifParser/gif_viewer.py:160 | `y*width + x` of a rectangle cell is within `width*height` |
| Viewer.RectFitsOpaqueOnCanvas | GifParser/gif_viewer.py:158-166 | a rectangle inside the canvas has every opaque pixel on the canvas |
| Viewer.Drawn | GifParser/gif_viewer.py:158-166 | drawing keeps the canvas shape |
| Viewer.Paint | GifParser/gif_viewer.py:166 | one cell changes to the colour and no other cell changes |
| Viewer.DrawnPartStep | GifParser/gif_viewer.py:158-166 | one loop step paints pixel `y*width + x` at `(top + y, left + x)` unless it is transparent |
| Viewer.DrawnPartSkip | GifParser/gif_viewer.py:162-163 | a transparent pixel's loop step leaves the canvas unchanged |
| Viewer.DrawnPartPaint | GifParser/gif_viewer.py:164-166 | an opaque pixel's loop step paints its own cell with the table colour and no other cell |
| Viewer.DrawnPartEnd | GifParser/gif_viewer.py:158-166 | the finished loop gives the drawn canvas |
| Viewer.OpaqueFrameCovers | GifParser/gif_viewer.py:158-166 | without transparency, the result does not depend on the old rectangle contents |
| Viewer.ClearAfterDraw | GifParser/gif_viewer.py:74-75 | clearing the rectangle just drawn is clearing it on the old canvas |
| Viewer.TransparentPixelKept | GifParser/gif_viewer.py:162-163 | a pixel of the transparent index leaves its cell as it was |
| Viewer.ApplyFrameExample | Test/test_viewer.py:85-94 | the one-pixel sample frame draws "#B80000" |
| Viewer.TransparentOverhangExample | GifParser/gif_viewer.py:158-166 | a frame overhanging the canvas whose outside pixel is transparent is drawable and draws only its opaque pixel |
| Viewer.DisposalOf | GifParser/gif_viewer.py:110 | the extension's disposal method when there is a graphic control extension, else 0 |
| Viewer.Delay | GifParser/gif_viewer.py:67 | the extension's delay time when there is a graphic control extension, else 100 |
| Viewer.DisposalStep | GifParser/gif_viewer.py:105-125 | the stack loses one snapshot on a restore and gains one for a method-3 frame, and that frame pushes a copy of the canvas after the restore step |
| Viewer.DisposalFirstFrame | GifParser/gif_viewer.py:112 | at index 0 no clear or restore happens |
| Viewer.TwoRestoreFrames | Test/test_viewer.py:59-72 | two method-3 frames leave one snapshot, equal to the canvas |
| Viewer.DisposalKeepsSize | GifParser/gif_viewer.py:105-125 | disposal keeps the canvas and every snapshot at the screen size |
| Viewer.GifViewer.constructor | GifParser/gif_viewer.py:6-18 | frame index 0, the checkerboard as canvas, an empty stack |
| Viewer.GifViewer.CalculateWindowSize | GifParser/gif_viewer.py:79-90 | each side is the minimum of the image side plus 21 and the screen side |
| Viewer.GifViewer.ClearImage | GifParser/gif_viewer.py:127-137 | the loops repaint exactly the rectangle with the checkerboard and change nothing else |
| Viewer.GifViewer.ApplyFrame | GifParser/gif_viewer.py:139-166 | given a table, in-range indices and every opaque pixel on the canvas, the loops draw the frame over the canvas as `Drawn` describes |
| Viewer.GifViewer.DrawRow | GifParser/gif_viewer.py:159-166 | the inner loop draws one row of the frame; only opaque pixels need to be on the canvas |
| Viewer.GifViewer.DrawPixel | GifParser/gif_viewer.py:160-166 | one turn of the inner loop advances the canvas by exactly one drawing step; a transparent pixel may lie off the canvas |
| Viewer.GifViewer.ProcessDisposal | GifParser/gif_viewer.py:105-125 | the canvas and stack become the disposal step for the current index |
| Viewer.GifViewer.Animate | GifParser/gif_viewer.py:62-77 | given the rectangles it clears on the canvas and the frame drawable; with one frame, nothing is scheduled and the index stays; with more, the delay is scheduled, the index advances modulo the frame count, and the last frame's rectangle is cleared after drawing |
| Exporter.MaskLow32 | GifParser/gif_frames_exporter.py:123 | `& 0xffffffff` keeps the value modulo 2^32 |
| Exporter.Crc32Masked | GifParser/gif_frames_exporter.py:123 | the chunk CRC is crc32 of type and data, modulo 2^32 |
| Exporter.GetPngChunk | GifParser/gif_frames_exporter.py:112-125 | a chunk is 12 bytes longer than its data |
| Exporter.ChunkRoundTrip | GifParser/gif_frames_exporter.py:120-125 | a chunk reads back as its big-endian length, type, data and masked CRC, and the bytes after it are untouched |
| Exporter.ChunkPrefix | GifParser/gif_frames_exporter.py:120-122 | a chunk begins with its big-endian length, its type and its data |
| Exporter.GetIhdrChunk | GifParser/gif_frames_exporter.py:127-140 | 13 bytes: width and height big-endian, then depth, colour type, compression, filter and interlace |
| Exporter.GetPngData | GifParser/gif_frames_exporter.py:94-110 | the file starts with the 8-byte PNG signature |
| Exporter.Join | GifParser/gif_frames_exporter.py:102 | rows of equal length join to their count times that length |
| Exporter.JoinAppend | GifParser/gif_frames_exporter.py:102 | joining one more row appends its bytes |
| Exporter.PngDataBody | GifParser/gif_frames_exporter.py:102-110 | the signature is followed by the IHDR, IDAT and IEND chunks back to back, and nothing else |
| Exporter.PngDataLayout | GifParser/gif_frames_exporter.py:102-110 | after the signature come exactly IHDR (the RGBA header), IDAT (the compressed scanlines) and an empty IEND |
| Exporter.IhdrChunkExample | Test/test_gif_frames_exporter.py:34-48 | the IHDR chunk of a 1x1 RGBA image begins with length 13, "IHDR", width 1, height 1, depth 8 and colour type 6 |
| Exporter.PngDataExample | Test/test_gif_frames_exporter.py:34-48 | the sample one-pixel file starts with the 8 signature bytes, then the 21 expected IHDR bytes |
| Exporter.PixelBytes | GifParser/gif_frames_exporter.py:83-89 | the table colour of the index, with alpha 0 exactly when transparency is on and the index is the transparent one, else 255 |
| Exporter.RowBytes | GifParser/gif_frames_exporter.py:82-89 | four bytes per pixel |
| Exporter.RowBytesLayout | GifParser/gif_frames_exporter.py:82-89 | pixel j of a row occupies bytes `4j .. 4j+3` |
| Exporter.Scanline | GifParser/gif_frames_exporter.py:79-90 | one filter byte and four bytes per pixel |
| Exporter.Scanlines | GifParser/gif_frames_exporter.py:79-92 | one scanline per row |
| Exporter.ScanlineLayout | GifParser/gif_frames_exporter.py:79-90 | scanline i starts with filter byte 0, and pixel j of that row comes from index `i*width + j` |
| Exporter.ScanlinesLayout | GifParser/gif_frames_exporter.py:79-92 | height rows, each a 0 filter byte then `4*width` bytes, pixel `(i, j)` from index `i*width + j` |
| Exporter.ZeroPixelScanlines | GifParser/gif_frames_exporter.py:79-92 | an image without pixels joins to one zero filter byte per row |
| Exporter.ScanlinesExample | Test/test_gif_frames_exporter.py:19-32 | the one-pixel sample gives the single row 00 B8 00 00 FF |
| Exporter.ExportTable | GifParser/gif_frames_exporter.py:54 | the local table when present, else the global one |
| Exporter.ExportTransparency | GifParser/gif_frames_exporter.py:55-58 | the transparent index's colour only when a graphic control extension sets its flag |
| Exporter.PixelTable | GifParser/gif_frames_exporter.py:54 | the table the pixel loops read: the chosen one, or an empty one standing for None, so any lookup fails |
| Exporter.ExportableNeedsTable | GifParser/gif_frames_exporter.py:54-61 | a frame with a pixel or a transparent colour can be exported only with a colour table |
| Exporter.ZeroPixelFrameExportable | GifParser/gif_frames_exporter.py:45-61 | a frame with no pixel and no transparent colour is exported even without any colour table |
| Exporter.FramePng | GifParser/gif_frames_exporter.py:45-61 | the file bytes of an exported frame start with the PNG signature |
| Exporter.EventFor | GifParser/gif_frames_exporter.py:38-42 | a number from 1 to the frame count exports the frame before it, any other number is skipped with a warning |
| Exporter.SelectedEvents | GifParser/gif_frames_exporter.py:37-42 | one outcome per selected number |
| Exporter.SelectedEventsSpec | GifParser/gif_frames_exporter.py:37-42 | the selection gets one outcome per number, in input order, and no number stops the batch |
| Exporter.SelectedEventsStep | GifParser/gif_frames_exporter.py:37-42 | one more number in the selection appends exactly its own outcome |
| Exporter.AllEvents | GifParser/gif_frames_exporter.py:28-29 | one exported file per frame counted |
| Exporter.AllIsSelectedOneTo | GifParser/gif_frames_exporter.py:28-29 | exporting all frames is exporting the selection 1 … n |
| Exporter.SelectionExample | Test/test_gif_frames_exporter.py:65-74 | numbers 1, 2, 3 over two frames give two files and one warning |
| Exporter.GifFramesExporter.TransformPixels | GifParser/gif_frames_exporter.py:67-92 | the nested loops build exactly the scanlines `Scanlines` describes |
| Exporter.GifFramesExporter.TransformRow | GifParser/gif_frames_exporter.py:81-90 | the inner loop builds one scanline |
| Exporter.GifFramesExporter.ExportFrame | GifParser/gif_frames_exporter.py:45-61 | the file bytes are the PNG of the frame's scanlines with the chosen table and transparency; a table is needed only when there is a pixel or a transparent colour to look up |
| Exporter.GifFramesExporter.ExportAllFrames | GifParser/gif_frames_exporter.py:24-30 | when every frame is exportable, every frame is exported, numbered from 1 |
| Exporter.GifFramesExporter.ExportSelectedFrames | GifParser/gif_frames_exporter.py:32-43 | when every selected frame that exists is exportable, the loop gives exactly the selection's outcomes |

## Left out

- File I/O is not modelled: `os.path.exists`, `open` and `f.read` in `parse`, the output directory and the PNG file writes. The file is an optional byte sequence, and each exported file is returned as its bytes.
- `logging` calls are not modelled, except that the skipped-number warning of `export_selected_frames` is an event.
- The Tk window, photo updates and `root.after` scheduling are not modelled. `Animate` returns the delay it would schedule.
- `gif_parser_interface.py` (command line and main loop) is not part of this model. Neither are the `__str__` methods.
- `zlib.compress` and `zlib.crc32` are uninterpreted functions.
- De-interlacing is absent from the source and from the model.
- `GifStructs/local_color_table.py` is not part of this model. The local table has the same shape as the global one.
- Viewer.GifViewer.ClearImage: requires the rectangle to lie inside the canvas. The source would raise `IndexError` part-way, after repainting some cells.
- Viewer.GifViewer.ApplyFrame: requires a colour table, enough indices, in-range colours and every opaque pixel on the canvas. The source would stop part-way on an `AttributeError` or `IndexError`.
- Viewer.GifViewer.ProcessDisposal: requires the previous frame's rectangle to fit the canvas when its disposal is 2, for the same reason.
- Viewer.GifViewer.Animate: requires the conditions of the three calls above: the rectangle that disposal 2 or the last-frame clear repaints inside the canvas, and the frame drawable.
- Exporter.GifFramesExporter.ExportFrame: requires in-range indices and transparent index (so a colour table whenever there is a pixel or a transparent colour) and a compressed image under 2^32 bytes. The source would raise, and the exception would also end a batch export.
- Exporter.GifFramesExporter.ExportAllFrames: requires every frame to be exportable. An exception part-way through a batch is not modelled.
- Exporter.GifFramesExporter.ExportSelectedFrames: requires every selected frame to be exportable, for the same reason.
- Lzw.Decode: the source's `codes` list is shared with `process_code` and extended in place. The model threads it through a `Decoder` value instead.
