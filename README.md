# Retro game asset codecs, modelled in Dafny

This project models three small tools for a retro game's binary asset
formats. All three share one layout: a fixed header, a table of
little-endian 32-bit offsets, then the payloads one after another. No
payload stores its own length.

- **COB archives** (`cob2withpacker.py`). Class `CobArchive` does three things:
  - Reads an archive header: a signed entry count, 50-byte NUL-padded path records, then one offset per entry. Each size is the gap to the next offset; the last runs to the end of the file.
  - Extracts each entry's bytes.
  - Packs a directory: the count, the records (cut to 49 bytes and NUL-padded), a running-sum offset table from `4 + 54n`, then the contents.
- **Font packer** (`font_packer.py`, `pack_bmp_to_font`). It makes a font file from the directory's `.bmp` glyphs, in name order:
  - a 16-byte header holding two magic numbers, the glyph count and the height;
  - one pointer per glyph;
  - the payloads. A payload is four zero bytes for an `_empty` glyph. Otherwise it is the width followed by one byte per pixel: `0xFF` below gray 128, `0xF3` otherwise.
- **Font unpacker** (`font_unpacker.py`, `unpack_font_to_bmp`). It reads the header and `n + 1` pointers. It slices each glyph, pads it with `0xFF` or cuts it to `width * height` bytes, and draws a 0/1 image: byte `0xFF` is pixel 0, any other byte is pixel 1.

The model follows the programs' own form:

- **Archive object.** `CobPacker.CobArchive` is a class. Its fields are the archive bytes and the entry list that `ReadHeader` fills in.
- **Loops.** The header loops, the packing loop, the font packer's buffers and running offset, the pointer loop, and the nested drawing loop over an `array2` are methods with loop invariants.
- **Specifications.** Each method is proved equal to a function of its inputs: `ParseHeader`, `PackResult`, `FontResult`, `UnpackSpec`, `Raster`.
- **Promised properties.** What the programs promise is proved about those functions as lemmas: layouts, running sums, round trips and error cases.

Files:

| file | module | contents |
|---|---|---|
| `bytes.dfy` | `Bytes` | bytes, 32-bit words, LE32 encoding and its round trips, Python slicing, concatenation |
| `cob_format.dfy` | `CobFormat` | the archive layout: header parsing, extraction, packing and reading back packed archives, as functions and lemmas |
| `cob_archive.dfy` | `CobPacker` | class `CobArchive` with header reading and extraction, and the packing method |
| `font_packer.dfy` | `FontPacker` | glyph selection, height search, payloads, `PackFont` and the font layout |
| `font_unpacker.dfy` | `FontUnpacker` | pointers, normalisation, drawing, `UnpackFont` and output names |
| `font_roundtrip.dfy` | `FontRoundTrip` | what the unpacker makes of the packer's output |

Inputs are modelled as follows:

- **Files.** A file is a byte sequence.
- **Archive directory.** The directory to archive is a list of (path bytes, contents) in walk order.
- **Glyph directory.** The glyph directory is a list of entries. Each entry is a name and an optional image: `None` when the image library cannot open it. An image has a width, a height and an optional grayscale pixel list: `None` when conversion fails.
- **Image-library failures in the unpacker.** These are a set of glyph numbers passed as a parameter.

## Model

| member | source | states |
|---|---|---|
| Bytes.DecodeEncodeLE32 | cob2withpacker.py:43-45 | reading back a word written with `<I` gives the word |
| Bytes.EncodeDecodeLE32 | cob2withpacker.py:43-45 | any four bytes are the encoding of the word they decode to |
| Bytes.EncodeLE32 | cob2withpacker.py:103 | `struct.pack('<I', x)` is four bytes, and `DecodeLE32` gives the word back (`Bytes.DecodeEncodeLE32`) |
| Bytes.DecodeLE32 | cob2withpacker.py:43 | `struct.unpack('<I', ...)` on four bytes; it is the inverse of `EncodeLE32` both ways (`Bytes.DecodeEncodeLE32`, `Bytes.EncodeDecodeLE32`) |
| Bytes.ToSigned32 | cob2withpacker.py:31 | the count read as `<i` is negative exactly when the unsigned word is 2^31 or more, and equal to it otherwise |
| Bytes.Slice | font_unpacker.py:40 | Python slicing: inside the sequence it is the plain slice; it is clamped at the end; it is empty when the bounds cross |
| CobFormat.BeforeNulPrefix | cob2withpacker.py:37 | `partition(b'\0')[0]` is the longest NUL-free prefix: it stops at the first NUL or at the end |
| CobFormat.BeforeNul | cob2withpacker.py:37 | never longer than the record; `CobFormat.BeforeNulPrefix` makes it the longest NUL-free prefix |
| CobFormat.Replace | cob2withpacker.py:39 | keeps the length; `CobFormat.ReplaceAt` gives every position |
| CobFormat.Split | cob2withpacker.py:39 | the name is never longer than the path; `CobFormat.SplitName` and `CobFormat.SplitJoin` say what is split off |
| CobFormat.Join | cob2withpacker.py:67 | `os.path.join` of two parts; by `CobFormat.SplitJoin`, joining the split parts of a walk-produced path gives the path back |
| CobFormat.ReplaceAt | cob2withpacker.py:39 | `replace('\\', '/')` changes every backslash and nothing else |
| CobFormat.AfterLastSlashIsLast | cob2withpacker.py:39 | no `/` follows the split point |
| CobFormat.SplitName | cob2withpacker.py:39 | the file name is the slash-free end of the path; a path without `/` is all name, with an empty directory |
| CobFormat.SplitJoin | cob2withpacker.py:39 | for a relative path as the walk produces it, joining the split directory and name gives the path back |
| CobFormat.ParseHeader | cob2withpacker.py:27-51 | a count below 1 reads nothing and yields no entries; otherwise there are as many entries as the count, and the table lies inside the archive |
| CobFormat.ParsedEntries | cob2withpacker.py:36-50 | sizes are differences of consecutive offsets, and the last is the length minus the last offset; paths are the record before NUL, with `\` made `/`, split at the last `/`; offsets are the table words |
| CobFormat.EntryFields | cob2withpacker.py:36-50 | entry i's directory, name, offset and size, read from record i and offsets i and i + 1 |
| CobFormat.SizeAt | cob2withpacker.py:44-50 | the gap to the next offset, or to the end of the archive for the last entry; `CobFormat.ParsedEntries` and `CobFormat.EntryFields` state it of the parsed entries |
| CobFormat.Entries | cob2withpacker.py:36-50 | one entry per record, `count` in all; `CobFormat.EntryFields` gives each entry's fields |
| CobFormat.ParseErrors | cob2withpacker.py:31-45 | reading fails exactly on a short count, an undecodable record among the first `count`, or a table cut off; the decoding error comes first |
| CobFormat.ReadAt | cob2withpacker.py:70-72 | reading `size` bytes at `offset` gives that range when it lies inside the archive; it is clamped at the end; a negative size reads to the end |
| CobFormat.ExtractedAt | cob2withpacker.py:66-72 | with sizes by difference and well-placed offsets, entry j's bytes run from its offset to the next offset, or to the end of the archive |
| CobFormat.ExtractionTiles | cob2withpacker.py:66-72 | the first k extracted files, put together, are the archive from the first offset to offset k |
| CobFormat.ExtractionCoversData | cob2withpacker.py:66-72 | all extracted files, put together, are exactly the archive from the first offset to the end |
| CobFormat.Record | cob2withpacker.py:106-112 | every path record is 50 bytes and byte 49 is NUL |
| CobFormat.RecordLayout | cob2withpacker.py:106-112 | a record holds the first 49 bytes of the stored path at most, then NULs |
| CobFormat.FittingFrom | cob2withpacker.py:115-118 | the entries before the first offset of 2^32 or more, which `struct.pack` refuses |
| CobFormat.PackOffsetStep | cob2withpacker.py:115-118 | the first offset is `4 + 54n`, and each next one adds the previous file's size |
| CobFormat.PackOffsetMonotone | cob2withpacker.py:115-118 | packed offsets never decrease |
| CobFormat.PackResultWritten | cob2withpacker.py:94-123 | packing writes the archive exactly when there is a file and the count and every offset fit 32 bits |
| CobFormat.PackResult | cob2withpacker.py:94-123 | what packing writes; `CobFormat.PackResultWritten` says when it is the whole archive, and `CobPacker.Pack` is proved to write it |
| CobFormat.Packed | cob2withpacker.py:99-123 | the whole archive; the `CobFormat.Packed*` lemmas give its layout, and `CobFormat.ParsePacked` and `CobFormat.ExtractPacked` read it back |
| CobFormat.PackedParts | cob2withpacker.py:101-123 | the archive is the count, n records of 50 bytes, n offsets of 4 bytes and the contents, in walk order |
| CobFormat.PackedCount | cob2withpacker.py:99-103 | the first word is the count, and the length is `4 + 54n` plus the total size |
| CobFormat.PackedRecord | cob2withpacker.py:105-112 | record i sits at byte `4 + 50i` |
| CobFormat.PackedOffset | cob2withpacker.py:114-118 | offset i sits at byte `4 + 50n + 4i` and holds the running offset |
| CobFormat.PackedContents | cob2withpacker.py:120-123 | file i's contents start exactly at the offset written for it |
| CobFormat.RestoredPathShort | cob2withpacker.py:37-39 | a NUL-free path of at most 49 bytes without backslashes comes back unchanged from its record |
| CobFormat.BeforeNulOfPadded | cob2withpacker.py:111 | cutting a NUL-padded path at its first NUL gives the path |
| CobFormat.RecordDecodable | cob2withpacker.py:107 | a record written from cp1251 output decodes again |
| CobFormat.ParsePacked | cob2withpacker.py:27-51 | reading a packed archive finds the same count, the written offsets, the file sizes and each path as its record kept it |
| CobFormat.PackedHeader | cob2withpacker.py:31-45 | a packed archive reads without error |
| CobFormat.PackedEntries | cob2withpacker.py:36-50 | the entries read from a packed archive are the expected ones |
| CobFormat.PackedOffsetRead | cob2withpacker.py:43-45 | offset i as read is the offset written |
| CobFormat.PackedSizeRead | cob2withpacker.py:46-50 | size i as derived is the size of file i |
| CobFormat.ExtractPacked | cob2withpacker.py:66-72 | extracting a packed archive gives back each file byte for byte, at its own path when the path is short and plain |
| CobFormat.ExtractPackedContents | cob2withpacker.py:70-72 | the bytes extracted for entry i are file i's contents |
| CobFormat.ExtractPackedPath | cob2withpacker.py:67 | the joined directory and name of entry i are file i's path |
| CobFormat.PackedCountPositive | cob2withpacker.py:31-33 | a count written unsigned always reads back positive as signed, since any archive whose offsets fit has fewer than 2^31 entries |
| CobPacker.CobArchive.constructor | cob2withpacker.py:17-25 | an archive object without a file has no entries |
| CobPacker.CobArchive.Load | cob2withpacker.py:21-22 | an archive object over an existing file's bytes, before its header is read |
| CobPacker.CobArchive.ReadHeader | cob2withpacker.py:27-51 | reading the header fills `files` with `ParseHeader`'s entries, or reports its error |
| CobPacker.CobArchive.Extract | cob2withpacker.py:66-72 | one written file per entry, in order, at `output_dir/path/name`, holding the bytes read at its offset for its size |
| CobPacker.DestPath | cob2withpacker.py:67 | `os.path.join(output_dir, path, name)`; `CobArchive.Extract` writes entry i there, and `CobFormat.ExtractPackedPath` shows that path and name join back to the packed path |
| CobPacker.ReadPaths | cob2withpacker.py:36-40 | the path loop builds one entry per record with directory and name split; it fails exactly when a record among the first `count` cannot be decoded |
| CobPacker.ReadOffsets | cob2withpacker.py:43-50 | the offset loop sets every offset and every size, the last from the archive length; it fails exactly when the table is cut off |
| CobPacker.ReadEntries | cob2withpacker.py:36-50 | the two loops together build the entries the header defines |
| CobPacker.ReadEntry | cob2withpacker.py:43-50 | after both loops, entry j carries the offset and size the header defines |
| CobPacker.HeaderComplete | cob2withpacker.py:36-50 | a header whose records all decode and whose table is whole reads as its entries |
| CobPacker.HeaderUndecodable | cob2withpacker.py:38 | an undecodable record fails the read |
| CobPacker.HeaderShort | cob2withpacker.py:43-45 | a cut-off offset table fails the read |
| CobPacker.Open | cob2withpacker.py:17-25 | an absent file gives an empty archive object; an existing file is read, or its error propagates |
| CobPacker.Pack | cob2withpacker.py:94-123 | packing writes `PackResult`: nothing for no files, the whole archive, or the bytes written before an offset overflowed |
| CobPacker.WriteRecords | cob2withpacker.py:106-112 | the record loop writes every path's 50-byte record in walk order |
| CobPacker.WriteContents | cob2withpacker.py:121-123 | the content loop writes every file's bytes in walk order |
| CobPacker.OffsetTableStep | cob2withpacker.py:116-118 | each pass of the offset loop appends the encoded running offset |
| FontPacker.SortByNameCorrect | font_packer.py:9-11 | `sorted` gives ascending name order and a permutation |
| FontPacker.SortByName | font_packer.py:9-11 | `sorted` on names; `FontPacker.SortByNameCorrect` makes it sorted and a permutation |
| FontPacker.Lower | font_packer.py:10 | `str.lower` on ASCII letters; `FontRoundTrip.LowerIdentity` leaves a name without capitals unchanged |
| FontPacker.BmpFilesMembers | font_packer.py:10 | the filter keeps exactly the entries whose lowercased name ends in `.bmp` |
| FontPacker.GlyphFilesCorrect | font_packer.py:9-11 | the glyphs are exactly the directory's `.bmp` entries, in ascending name order |
| FontPacker.GlyphFiles | font_packer.py:9-11 | the sorted `.bmp` names; `FontPacker.GlyphFilesCorrect` states which and in what order |
| FontPacker.NameLeTotal | font_packer.py:9 | Python's string order is total |
| FontPacker.NameLeTransitive | font_packer.py:9 | Python's string order is transitive |
| FontPacker.InsertSorted | font_packer.py:9 | inserting into a sorted list keeps it sorted |
| FontPacker.FirstCandidate | font_packer.py:17-27 | the first file that is not `_empty`-marked, opens and is not 1×1; every file before it fails one of these tests |
| FontPacker.FindHeight | font_packer.py:17-27 | the height loop returns the height of that first file, or 0 |
| FontPacker.FontHeight | font_packer.py:16-27 | the height of the first candidate, or 0; `FontPacker.FindHeight` is proved to return it and names that candidate |
| FontPacker.Threshold | font_packer.py:64 | a pixel is stored as `0xFF` exactly when it is below 128, and as `0xF3` exactly when it is 128 or more |
| FontPacker.PayloadShape | font_packer.py:55-64 | an `_empty` glyph is four zero bytes whatever its image; any other glyph is its width, then one thresholded byte per pixel, 4 + pixel count bytes in all |
| FontPacker.Payload | font_packer.py:55-64 | a glyph's bytes; `FontPacker.PayloadShape` gives their shape |
| FontPacker.FirstBad | font_packer.py:47-76 | the first glyph whose image fails or whose pointer does not fit 32 bits |
| FontPacker.FontHeader | font_packer.py:38-41 | the header is 16 bytes |
| FontPacker.PackFont | font_packer.py:7-82 | packing returns `FontResult`: the header, pointer table and glyph data built with a running offset, or the first error |
| FontPacker.BadAt | font_packer.py:74-76 | the first glyph that fails is the one the error names |
| FontPacker.GlyphDataStep | font_packer.py:70 | each glyph appends its payload to the glyph data |
| FontPacker.PointerTableStep | font_packer.py:67 | each glyph appends its encoded offset to the pointer table |
| FontPacker.GlyphOffsetStep | font_packer.py:44-72 | the first pointer is `16 + 4n`, and each next one adds the previous payload's length |
| FontPacker.FontResultCases | font_packer.py:13-76 | packing succeeds exactly when there is a `.bmp` file, a height, a count that fits 32 bits and every glyph packs; a failure names a glyph that fails |
| FontPacker.FontResult | font_packer.py:7-82 | the font or the first error; `FontPacker.FontResultCases` says when each happens, and `FontPacker.PackFont` is proved to return it |
| FontPacker.FontBytes | font_packer.py:37-82 | the font file; `FontPacker.FontParts` and the `FontPacker.Font*Layout` lemmas give its layout |
| FontPacker.FontResultBytes | font_packer.py:79-82 | a successful pack writes the font bytes for the sorted glyphs and the found height |
| FontPacker.FontParts | font_packer.py:79-82 | the font is the header, 4 bytes of pointer per glyph, then the payloads |
| FontPacker.FontHeaderLayout | font_packer.py:38-41 | bytes 0..16 are magic `0x2E31`, the count, the height and magic `0xFF` |
| FontPacker.FontPointerLayout | font_packer.py:67 | pointer i sits at byte `16 + 4i` and holds glyph i's offset |
| FontPacker.FontPayloadLayout | font_packer.py:70-72 | payload i starts exactly at pointer i |
| FontPacker.FontLength | font_packer.py:72 | the font ends where the last payload ends: the final running offset |
| FontUnpacker.ReadPointers | font_unpacker.py:25-28 | the pointer loop reads `n + 1` pointers, pointer i at bytes `16 + 4i..20 + 4i`; it fails exactly when the table is cut off |
| FontUnpacker.Normalize | font_unpacker.py:43-51 | the pixel data becomes exactly `width * height` bytes: the original bytes, then `0xFF` padding |
| FontUnpacker.PixelOf | font_unpacker.py:69 | the pixel is 0 exactly when the byte is `0xFF` |
| FontUnpacker.Snapshot | font_unpacker.py:74 | the saved image holds the drawn array's pixels, row by row |
| FontUnpacker.RenderGlyph | font_unpacker.py:65-70 | the nested loops draw exactly `Raster`: each pixel decoded from byte `y * width + x`, or left 0 past the data |
| FontUnpacker.Raster | font_unpacker.py:65-70 | the drawn image; `FontUnpacker.RasterPixel` decodes each pixel from its byte, and `FontUnpacker.RenderGlyph` is proved to draw it |
| FontUnpacker.Decimal | font_unpacker.py:73 | `str(n)` is a non-empty string of digits without a leading zero |
| FontUnpacker.DecimalValue | font_unpacker.py:73 | the digits of `str(n)` spell n |
| FontUnpacker.ZeroPad4 | font_unpacker.py:60 | `%04d` puts zeros in front of a shorter number up to exactly four characters and leaves a longer one as it is |
| FontUnpacker.OutputName | font_unpacker.py:60-73 | `glyph_NNNN_empty.bmp` or `glyph_NNNN_WxH.bmp`; `FontRoundTrip.OutputNamesRepack` shows the packer picks these names up again |
| FontUnpacker.FirstShortGlyph | font_unpacker.py:34-39 | the first glyph whose width field is cut off |
| FontUnpacker.GlyphsDecoded | font_unpacker.py:34-78 | the outcomes of the first k glyphs, one per glyph |
| FontUnpacker.GlyphAt | font_unpacker.py:34-78 | what becomes of glyph i; `FontUnpacker.GlyphPixel`, `FontUnpacker.EmptyGlyph` and `FontUnpacker.FailingGlyph` give each case |
| FontUnpacker.UnpackFont | font_unpacker.py:6-78 | unpacking returns `UnpackSpec`: the header, the pointers, then one outcome per glyph in order, until a width field is cut off |
| FontUnpacker.DecodeGlyph | font_unpacker.py:34-78 | one pass of the glyph loop: slice, pad or cut, then skip, save the placeholder or draw |
| FontUnpacker.ShortGlyphAt | font_unpacker.py:39 | the first glyph whose width field is cut off ends the run |
| FontUnpacker.AllWidthsReadable | font_unpacker.py:34-39 | when every width field can be read, no glyph ends the run |
| FontUnpacker.GlyphsDecodedStep | font_unpacker.py:34-78 | each pass of the glyph loop appends glyph i's outcome |
| FontUnpacker.UnpackCases | font_unpacker.py:15-39 | a file under 12 bytes or with a cut-off pointer table decodes nothing; otherwise the run ends without error exactly when every width field can be read; glyphs are numbered in order |
| FontUnpacker.UnpackSpec | font_unpacker.py:6-78 | the outcomes and the error of a run; `FontUnpacker.UnpackCases` says when each error happens, and `FontUnpacker.UnpackFont` is proved to return it |
| FontUnpacker.DecodedGlyph | font_unpacker.py:34-39 | glyph i is decoded as soon as width fields 0 to i can be read |
| FontUnpacker.MulBound | font_unpacker.py:67 | `y * width + x` stays below `width * height` inside the image |
| FontUnpacker.RasterPixel | font_unpacker.py:65-70 | with exactly `width * height` bytes, every pixel is decoded from its own byte |
| FontUnpacker.GlyphPixel | font_unpacker.py:34-70 | pixel (x, y) of glyph i comes from byte `start + 4 + y * width + x`, or is 0 at or past the next pointer or the end of the file |
| FontUnpacker.EmptyGlyph | font_unpacker.py:58-63 | a width of 0 gives the 1×1 image of pixel 1 |
| FontUnpacker.FailingGlyph | font_unpacker.py:77-78 | a glyph at which the image library fails is skipped, and the run goes on |
| FontRoundTrip.ThresholdDecodes | font_unpacker.py:69 | composed with the packer's threshold, gray below 128 decodes to 0 and 128 or more to 1 |
| FontRoundTrip.OutputNamesRepack | font_unpacker.py:73 | every saved glyph's name ends in `.bmp`, and the placeholder's name is `_empty`-marked, so the packer picks both up again |
| FontRoundTrip.BmpSuffix | font_packer.py:10 | a name without capitals ending in `.bmp` passes the packer's filter |
| FontRoundTrip.EmptySuffix | font_packer.py:49 | a name ending in `_empty.bmp` is `_empty`-marked |
| FontRoundTrip.ContainsInfix | font_packer.py:49 | `'_empty' in name` holds when the name has `_empty` anywhere |
| FontRoundTrip.PackedPointer | font_unpacker.py:25-28 | pointer i of a packed font, as the unpacker reads it, is where the packer put payload i |
| FontRoundTrip.PackedPayload | font_packer.py:70-72 | payload i of a packed font, width field included, lies inside the file |
| FontRoundTrip.PackedFontReads | font_unpacker.py:15-28 | the unpacker reads the packed count and height, finds its `n + 1` pointers, and can read every width field |
| FontRoundTrip.UnpackPacked | font_unpacker.py:34-39 | unpacking a packed font ends without error, with one outcome per glyph |
| FontRoundTrip.PackedGlyphAt | font_unpacker.py:34-39 | glyph i of a packed font is decoded |
| FontRoundTrip.PackedWidth | font_unpacker.py:39 | the width read for packed glyph i is 0 for an `_empty` glyph and the image width otherwise |
| FontRoundTrip.ExtraPointerIsFirstWidth | font_unpacker.py:26 | the unpacker's extra pointer `n` is glyph 0's width field, not the end of the file |
| FontRoundTrip.PackedEmptyGlyph | font_unpacker.py:58-63 | an `_empty` glyph comes back as the 1×1 placeholder |
| FontRoundTrip.PackedByte | font_packer.py:70 | byte q of payload i lies at pointer i + q in the font |
| FontRoundTrip.PayloadPixel | font_packer.py:64 | pixel byte k of a payload is the thresholded pixel k |
| FontRoundTrip.PackedNext | font_packer.py:72 | after a glyph that is not `_empty`, the next pointer is one byte per pixel past its width field |
| FontRoundTrip.PackedPixel | font_packer.py:64 | each of those bytes is the thresholded pixel |
| FontRoundTrip.PackedGlyphDecodes | font_unpacker.py:65-70 | every packed glyph but the last, drawn as tall as the font, decodes at its own width and height; each pixel is 0 where the image was darker than 128 and 1 elsewhere |

## Left out

- Command line and console output are not modelled: `main`, the `argparse` dispatch, every `print`, and the `__main__` calls.
- Filesystem work is replaced by values:
  - `os.walk` and `relpath` become the walk list. Its order is the walk's own; packing does not sort it.
  - `open`/`seek`/`read`/`tell` become the archive byte sequence. A read at a position becomes a clamped slice.
  - `getsize` becomes the length of the contents.
  - `os.listdir` becomes the directory list.
  - Directory creation (`makedirs`) and the writing of output files are not modelled. Extraction returns the (destination, bytes) pairs it would write, packing returns the bytes it would write, and unpacking returns the images with their names.
- `CobArchive.close` and the `_handle` field are not modelled: the handle is the archive bytes.
- `CobArchive.filename` is not modelled. It is only stored, never read.
- `os.path` is taken as `posixpath` (`CobFormat.Split`, `CobFormat.Join`, `CobPacker.DestPath`). The font tools' own entry points pass Windows paths (`r'game\fonts\bigfont'`). On Windows two things differ:
  - `ntpath.split` at cob2withpacker.py:39 also splits off a drive or UNC prefix: a record `C:x` gives `('C:', 'x')`, not `('', 'C:x')`.
  - `ntpath.join` at cob2withpacker.py:67 joins with `\`, so the destination paths `CobArchive.Extract` produces would use `\` where the model has `/`.
- The listing mode of `extract` (no output directory) only prints. The "No files to extract!" early return writes nothing; `Extract` on an empty entry list likewise writes nothing.
- `CobArchive.pack` appends the walked files to `self.files`, so packing twice with one object would also pack the first directory again. `CobPacker.Pack` takes the walk list alone and models one pack per object, the way the program uses it.
- `CobFile` objects are values in a sequence field. Their identity is not modelled, and nothing in the program shares them.
- The cp1251 codec is not modelled as a table:
  - Paths are already-encoded byte strings.
  - Decoding fails on byte `0x98`, the one byte cp1251 leaves undefined.
  - Encoding errors on packing happen before anything is written for that path; they are left out.
- `CobPacker.CobArchive.ReadHeader`: on an error it reports the error and leaves `files` as it was, which its contract states. The program would have appended some entries before raising, but the object is never used after a failed read.
- The image library is not modelled:
  - For the packer, a glyph is an optional image with an optional grayscale conversion. A failing `Image.open` is `None`.
  - For the unpacker, the glyph numbers at which `Image.new`/`putpixel`/`save` raise are a parameter.
  - Saved images are 0/1 grids.
  - The `Image.new` call before the width test is folded into that parameter.
- `FontPacker.Lower`: `str.lower` is modelled on ASCII letters only. The names tested (`.bmp`, `_empty`) are ASCII, but a non-ASCII capital that lowercases to one of those letters is not modelled.
- Memory errors, interrupts and operating-system errors are not modelled.
- No whole-font round trip is stated, because it does not hold as written. The packer writes `n` pointers, while the unpacker reads `n + 1` and takes pointer `n` as the end of the last glyph. On packer output that pointer is glyph 0's width field (`FontRoundTrip.ExtraPointerIsFirstWidth`). So the last glyph's pixel bytes depend on glyph 0's width, and only the other glyphs are proved to decode exactly (`FontRoundTrip.PackedGlyphDecodes`).
- `FontRoundTrip.PackedGlyphDecodes` assumes the image is as tall as the font and has exactly `width * height` pixels. For other images the unpacker pads or cuts, as `FontUnpacker.GlyphPixel` states.
- Validation the programs do not do is not added:
  - The unpacker never checks the magic numbers.
  - `_read_header` never checks that offsets increase or stay inside the file, so extraction is stated exact only for well-placed offsets (`CobFormat.ExtractedAt`).
  - A read at a negative size reads to the end of the file (`CobFormat.ReadAt`).
- The unpacker's header read is modelled as failing whenever the file is shorter than 12 bytes. That is where the unpack of bytes 4..8 or 8..12 raises.
