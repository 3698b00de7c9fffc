/** What the font unpacker makes of the font packer's output.

    The packer writes n pointers and the unpacker reads n + 1, so the
    unpacker's extra pointer is the first 4 bytes of glyph 0's payload.
    Every glyph but the last still decodes exactly: a pixel darker than
    128 comes back as 0, any other as 1, and an "_empty" glyph comes back
    as the placeholder. The unpacker's file names are ones the packer
    picks up again. */
module FontRoundTrip {
  import opened Bytes
  import P = FontPacker
  import U = FontUnpacker

  /** The packer's threshold followed by the unpacker's decoding rule. */
  lemma ThresholdDecodes(p: byte)
    ensures U.PixelOf(P.Threshold(p)) == if p < 128 then 0 else 1
  {
  }

  // ---------------------------------------------------------------------
  // File names

  predicate NoUpper(s: string)
  {
    forall i :: 0 <= i < |s| ==> !('A' <= s[i] <= 'Z')
  }

  lemma LowerIdentity(s: string)
    requires NoUpper(s)
    ensures P.Lower(s) == s
  {
  }

  lemma {:induction false} ContainsInfix(a: string, p: string, b: string)
    ensures P.Contains(a + p + b, p)
    decreases |a|
  {
    if a == [] {
      assert (a + p + b)[..|p|] == p;
    } else {
      assert (a + p + b)[1..] == a[1..] + p + b;
      ContainsInfix(a[1..], p, b);
    }
  }

  lemma NoUpperAppend(a: string, b: string)
    requires NoUpper(a) && NoUpper(b)
    ensures NoUpper(a + b)
  {
    forall i | 0 <= i < |a + b|
      ensures !('A' <= (a + b)[i] <= 'Z')
    {
      if i >= |a| {
        assert (a + b)[i] == b[i - |a|];
      }
    }
  }

  /** A decimal number, padded or not, has no upper-case letter. */
  lemma NumberNoUpper(n: nat)
    ensures NoUpper(U.Decimal(n)) && NoUpper(U.ZeroPad4(U.Decimal(n)))
  {
    var s := U.Decimal(n);
    var r := U.ZeroPad4(s);
    forall i | 0 <= i < |r|
      ensures !('A' <= r[i] <= 'Z')
    {
      if i >= |r| - |s| {
        assert r[i] == r[|r| - |s|..][i - (|r| - |s|)];
      }
    }
  }

  lemma EndsWith(a: string, b: string)
    ensures |a + b| >= |b| && (a + b)[|a + b| - |b|..] == b
  {
  }

  /** The fixed pieces of the output names. */
  lemma PiecesNoUpper()
    ensures NoUpper("glyph_") && NoUpper("_empty") && NoUpper("_empty.bmp")
    ensures NoUpper("_") && NoUpper("x") && NoUpper(".bmp")
  {
  }

  /** A name without upper-case letters that ends in ".bmp" is a glyph
      file to the packer. */
  lemma BmpSuffix(stem: string)
    requires NoUpper(stem)
    ensures P.IsBmpName(stem + ".bmp")
  {
    PiecesNoUpper();
    NoUpperAppend(stem, ".bmp");
    LowerIdentity(stem + ".bmp");
    EndsWith(stem, ".bmp");
  }

  /** ... and "_empty" in front of the ".bmp" marks it empty. */
  lemma EmptySuffix(prefix: string)
    requires NoUpper(prefix)
    ensures P.IsEmptyMarked(prefix + "_empty.bmp")
  {
    var name := prefix + "_empty.bmp";
    PiecesNoUpper();
    NoUpperAppend(prefix, "_empty.bmp");
    LowerIdentity(name);
    ContainsInfix(prefix, "_empty", ".bmp");
    assert name == prefix + "_empty" + ".bmp";
  }

  /** Every name the unpacker writes ends in ".bmp", so packing its output
      directory takes every saved glyph, and the placeholder's name is
      "_empty"-marked, so it packs to a zero width again. */
  lemma OutputNamesRepack(o: U.GlyphOutcome)
    requires !o.Skipped?
    ensures P.IsBmpName(U.OutputName(o))
    ensures o.EmptySaved? ==> P.IsEmptyMarked(U.OutputName(o))
  {
    var num := U.ZeroPad4(U.Decimal(o.num));
    var prefix := "glyph_" + num;
    NumberNoUpper(o.num);
    PiecesNoUpper();
    NoUpperAppend("glyph_", num);
    if o.EmptySaved? {
      NoUpperAppend(prefix, "_empty");
      assert prefix + "_empty.bmp" == (prefix + "_empty") + ".bmp";
      BmpSuffix(prefix + "_empty");
      EmptySuffix(prefix);
    } else {
      var w, h := U.Decimal(o.width), U.Decimal(o.height);
      NumberNoUpper(o.width);
      NumberNoUpper(o.height);
      var stem := prefix + "_" + w + "x" + h;
      NoUpperAppend(prefix, "_");
      NoUpperAppend(prefix + "_", w);
      NoUpperAppend(prefix + "_" + w, "x");
      NoUpperAppend(prefix + "_" + w + "x", h);
      BmpSuffix(stem);
    }
  }

  // ---------------------------------------------------------------------
  // Reading back a packed font

  /** A readable glyph's payload holds at least its 4-byte width field. */
  lemma PayloadHasWidth(e: P.DirEntry)
    requires P.Readable(e)
    ensures |P.Payload(e)| >= 4
  {
    P.PayloadShape(e);
  }

  /** Pointer i of a packed font, as the unpacker reads it, is where the
      packer put payload i. */
  lemma PackedPointer(files: seq<P.DirEntry>, height: u32, i: nat)
    requires |files| < Pow32 && P.GlyphsOk(files, |files|) && i < |files|
    ensures var data := P.FontBytes(files, height);
      U.PointerTableStart + 4 * i + 4 <= |data| && U.PointerAt(data, i) == P.GlyphOffset(files, i)
  {
    P.FontPointerLayout(files, height, i);
    DecodeEncodeLE32(P.GlyphOffset(files, i));
  }

  /** Glyph i's payload lies inside the font and holds its width field. */
  lemma PackedPayload(files: seq<P.DirEntry>, height: u32, i: nat)
    requires |files| < Pow32 && P.GlyphsOk(files, |files|) && i < |files|
    ensures var data := P.FontBytes(files, height); var o := P.GlyphOffset(files, i);
      o + 4 <= o + |P.Payload(files[i])| <= |data| &&
      data[o..o + |P.Payload(files[i])|] == P.Payload(files[i])
  {
    assert P.GlyphOk(files, i);
    PayloadHasWidth(files[i]);
    P.FontPayloadLayout(files, height, i);
  }

  /** The unpacker reads the packer's count and height, finds the whole
      pointer table it expects (its extra pointer is the start of glyph
      0's payload), and can read every glyph's width. */
  lemma PackedFontReads(files: seq<P.DirEntry>, height: u32)
    requires |files| < Pow32 && P.GlyphsOk(files, |files|) && files != []
    ensures var data := P.FontBytes(files, height); var n := |files|;
      |data| >= 12 && U.WordAt(data, 4) == n && U.WordAt(data, 8) == height &&
      U.PointerTableEnd(n) <= |data| && U.WidthsReadable(data, n, n)
  {
    var data := P.FontBytes(files, height);
    var n := |files|;
    P.FontHeaderLayout(files, height);
    DecodeEncodeLE32(n);
    DecodeEncodeLE32(height);
    PackedPayload(files, height, 0);
    P.GlyphOffsetStep(files, 0);
    forall j | 0 <= j < n
      ensures U.WidthReadable(data, n, j)
    {
      PackedPointer(files, height, j);
      PackedPayload(files, height, j);
    }
  }

  /** Unpacking a packed font ends without error and has one outcome per
      glyph. */
  lemma UnpackPacked(files: seq<P.DirEntry>, height: u32, failing: set<nat>)
    requires |files| < Pow32 && P.GlyphsOk(files, |files|) && files != []
    ensures var data := P.FontBytes(files, height); var u := U.UnpackSpec(data, failing);
      u.error == None && |u.glyphs| == |files|
  {
    var data := P.FontBytes(files, height);
    PackedFontReads(files, height);
    U.AllWidthsReadable(data, |files|);
  }

  /** Glyph i of a packed font, as the unpacker sees it. */
  lemma PackedGlyphAt(files: seq<P.DirEntry>, height: u32, failing: set<nat>, i: nat)
    requires |files| < Pow32 && P.GlyphsOk(files, |files|) && i < |files|
    ensures var data := P.FontBytes(files, height); var u := U.UnpackSpec(data, failing);
      U.PointerTableEnd(|files|) <= |data| && U.WordAt(data, 8) == height &&
      i < |u.glyphs| && U.WidthReadable(data, |files|, i) &&
      u.glyphs[i] == U.GlyphAt(data, |files|, height, failing, i)
  {
    PackedFontReads(files, height);
    U.DecodedGlyph(P.FontBytes(files, height), failing, i);
  }

  /** The width field of packed glyph i: 0 for an "_empty" glyph, the
      image width otherwise. */
  lemma PackedWidth(files: seq<P.DirEntry>, height: u32, i: nat)
    requires |files| < Pow32 && P.GlyphsOk(files, |files|) && i < |files|
    ensures P.Readable(files[i])
    ensures var data := P.FontBytes(files, height);
      U.PointerTableStart + 4 * i + 4 <= |data| && U.PointerAt(data, i) + 4 <= |data| &&
      U.WordAt(data, U.PointerAt(data, i)) ==
        if P.IsEmptyMarked(files[i].name) then 0 else files[i].image.value.width
  {
    var data := P.FontBytes(files, height);
    var o := P.GlyphOffset(files, i);
    var pl := P.Payload(files[i]);
    PackedPointer(files, height, i);
    PackedPayload(files, height, i);
    P.PayloadShape(files[i]);
    assert data[o..o + 4] == pl[..4];
    DecodeEncodeLE32(0);
    if !P.IsEmptyMarked(files[i].name) {
      DecodeEncodeLE32(files[i].image.value.width);
    }
  }

  /** The extra pointer the unpacker reads after the n it was given is
      glyph 0's width field, not the end of the font. */
  lemma ExtraPointerIsFirstWidth(files: seq<P.DirEntry>, height: u32)
    requires |files| < Pow32 && P.GlyphsOk(files, |files|) && files != []
    ensures P.Readable(files[0])
    ensures var data := P.FontBytes(files, height);
      U.PointerTableEnd(|files|) <= |data| &&
      U.PointerAt(data, |files|) == if P.IsEmptyMarked(files[0].name) then 0 else files[0].image.value.width
  {
    PackedFontReads(files, height);
    PackedWidth(files, height, 0);
    PackedPointer(files, height, 0);
    P.GlyphOffsetStep(files, 0);
  }

  /** An "_empty" glyph comes back as the placeholder image. */
  lemma PackedEmptyGlyph(files: seq<P.DirEntry>, height: u32, failing: set<nat>, i: nat)
    requires |files| < Pow32 && P.GlyphsOk(files, |files|) && i < |files|
    requires i !in failing && P.IsEmptyMarked(files[i].name)
    ensures var u := U.UnpackSpec(P.FontBytes(files, height), failing);
      i < |u.glyphs| && u.glyphs[i] == U.EmptySaved(i, [[1]])
  {
    var data := P.FontBytes(files, height);
    PackedGlyphAt(files, height, failing, i);
    PackedWidth(files, height, i);
    U.EmptyGlyph(data, |files|, height, failing, i);
  }

  /** Byte q of glyph i's payload, found in the font. */
  lemma PackedByte(files: seq<P.DirEntry>, height: u32, i: nat, q: nat)
    requires |files| < Pow32 && P.GlyphsOk(files, |files|) && i < |files|
    requires q < |P.Payload(files[i])|
    ensures var data := P.FontBytes(files, height);
      P.GlyphOffset(files, i) + q < |data| && data[P.GlyphOffset(files, i) + q] == P.Payload(files[i])[q]
  {
    var data := P.FontBytes(files, height);
    var o := P.GlyphOffset(files, i);
    var pl := P.Payload(files[i]);
    PackedPayload(files, height, i);
    assert data[o..o + |pl|][q] == pl[q];
  }

  /** Pixel byte k of a glyph that is not "_empty" is the thresholded
      pixel. */
  lemma PayloadPixel(e: P.DirEntry, k: nat)
    requires P.Readable(e) && !P.IsEmptyMarked(e.name) && k < |e.image.value.gray.value|
    ensures 4 + k < |P.Payload(e)| && P.Payload(e)[4 + k] == P.Threshold(e.image.value.gray.value[k])
  {
    var w := EncodeLE32(e.image.value.width);
    var t := P.Thresholded(e.image.value.gray.value);
    assert P.Payload(e) == w + t;
    assert (w + t)[4 + k] == t[k];
  }

  /** After a packed glyph that is not "_empty", the next pointer lies
      one byte per pixel past its width field. */
  lemma PackedNext(files: seq<P.DirEntry>, height: u32, i: nat)
    requires |files| < Pow32 && P.GlyphsOk(files, |files|) && i + 1 < |files|
    requires !P.IsEmptyMarked(files[i].name) && P.Readable(files[i])
    ensures var data := P.FontBytes(files, height); var px := files[i].image.value.gray.value;
      U.PointerTableStart + 4 * (i + 1) + 4 <= |data| &&
      U.PointerAt(data, i) + 4 + |px| == U.PointerAt(data, i + 1) <= |data|
  {
    PackedPointer(files, height, i);
    PackedPointer(files, height, i + 1);
    PackedPayload(files, height, i);
    P.GlyphOffsetStep(files, i);
    P.PayloadShape(files[i]);
  }

  /** ... and each of those bytes is the thresholded pixel. */
  lemma PackedPixel(files: seq<P.DirEntry>, height: u32, i: nat, k: nat)
    requires |files| < Pow32 && P.GlyphsOk(files, |files|) && i < |files|
    requires !P.IsEmptyMarked(files[i].name) && P.Readable(files[i])
    requires k < |files[i].image.value.gray.value|
    ensures var data := P.FontBytes(files, height);
      U.PointerTableStart + 4 * i + 4 <= |data| && U.PointerAt(data, i) + 4 + k < |data| &&
      data[U.PointerAt(data, i) + 4 + k] == P.Threshold(files[i].image.value.gray.value[k])
  {
    PackedPointer(files, height, i);
    PayloadPixel(files[i], k);
    PackedByte(files, height, i, 4 + k);
  }

  /** A pixel of a drawn glyph whose bytes lie before the next pointer,
      in any font file whose width fields up to that glyph can be read. */
  lemma SavedPixel(data: seq<byte>, failing: set<nat>, i: nat, y: nat, x: nat)
    requires |data| >= 12 && U.PointerTableEnd(U.WordAt(data, 4)) <= |data| && i < U.WordAt(data, 4)
    requires U.WidthsReadable(data, U.WordAt(data, 4), i + 1) && U.WidthReadable(data, U.WordAt(data, 4), i) && i !in failing
    requires var w := U.WordAt(data, U.PointerAt(data, i));
      w != 0 && y < U.WordAt(data, 8) && x < w &&
      U.PointerAt(data, i) + 4 + U.PixelIndex(w, y, x) < U.PointerAt(data, i + 1) <= |data|
    ensures var u := U.UnpackSpec(data, failing); var w := U.WordAt(data, U.PointerAt(data, i));
      i < |u.glyphs| && u.glyphs[i].Saved? && u.glyphs[i].width == w && u.glyphs[i].height == U.WordAt(data, 8) &&
      |u.glyphs[i].rows| == U.WordAt(data, 8) && |u.glyphs[i].rows[y]| == w &&
      u.glyphs[i].rows[y][x] == U.PixelOf(data[U.PointerAt(data, i) + 4 + U.PixelIndex(w, y, x)])
  {
    U.DecodedGlyph(data, failing, i);
    U.GlyphPixel(data, U.WordAt(data, 4), U.WordAt(data, 8), failing, i, y, x);
  }

  /** Every glyph but the last, drawn as tall as the font, decodes to its
      own width and height, each pixel 0 where the packed image was darker
      than 128 and 1 elsewhere. */
  lemma PackedGlyphDecodes(files: seq<P.DirEntry>, height: u32, failing: set<nat>, i: nat, y: nat, x: nat)
    requires |files| < Pow32 && P.GlyphsOk(files, |files|) && i + 1 < |files|
    requires i !in failing && !P.IsEmptyMarked(files[i].name) && P.Readable(files[i])
    requires var img := files[i].image.value;
      img.width != 0 && |img.gray.value| == U.Area(img.width, height) &&
      y < height && x < img.width
    ensures var u := U.UnpackSpec(P.FontBytes(files, height), failing); var img := files[i].image.value;
      i < |u.glyphs| && u.glyphs[i].Saved? && u.glyphs[i].width == img.width && u.glyphs[i].height == height &&
      |u.glyphs[i].rows| == height && |u.glyphs[i].rows[y]| == img.width &&
      var k := U.PixelIndex(img.width, y, x);
      k < |img.gray.value| && u.glyphs[i].rows[y][x] == if img.gray.value[k] < 128 then 0 else 1
  {
    var data := P.FontBytes(files, height);
    var img := files[i].image.value;
    var px := img.gray.value;
    PackedFontReads(files, height);
    PackedWidth(files, height, i);
    U.MulBound(y, x, img.width, height);
    var k := U.PixelIndex(img.width, y, x);
    PackedNext(files, height, i);
    PackedPixel(files, height, i, k);
    SavedPixel(data, failing, i, y, x);
    ThresholdDecodes(px[k]);
  }

}
