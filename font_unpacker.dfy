/** The font unpacker: a font file becomes one monochrome image per glyph.

    The header gives the glyph count n (bytes 4..8) and the height (bytes
    8..12); the magic in bytes 0..4 is not checked. n + 1 pointers follow
    from byte 16; glyph i runs from pointer i to pointer i + 1 and starts
    with its width. The pixel bytes are padded with 0xFF or cut to exactly
    width * height, and a byte decodes to pixel 0 when it is 0xFF and to 1
    otherwise. A glyph of width 0 becomes a 1x1 image of pixel 1. */
module FontUnpacker {
  import opened Bytes

  /** A pixel of a mode '1' image. */
  type Pixel = p: int | p == 0 || p == 1

  datatype GlyphOutcome =
    | EmptySaved(num: nat, rows: seq<seq<Pixel>>) // width 0: the placeholder
    | Saved(num: nat, width: u32, height: u32, rows: seq<seq<Pixel>>)
    | Skipped(num: nat)                    // the image library raised while
                                           // building or saving it: logged

  datatype UnpackError =
    | ShortHeader           // the glyph count or height is cut off
    | ShortPointerTable     // fewer than n + 1 pointers follow the header
    | ShortGlyph(num: nat)  // glyph num's width field is cut off

  /** The images the unpacker saved, in glyph order, and the error that
      stopped it, if any. Glyphs saved before the error stay saved. */
  datatype Unpacked = Unpacked(glyphs: seq<GlyphOutcome>, error: Option<UnpackError>)

  const PointerTableStart: nat := 16

  /** The image saved for a glyph of width 0: 1x1, pixel 1. */
  const Placeholder: seq<seq<Pixel>> := [[1]]

  // ---------------------------------------------------------------------
  // Header and pointers

  /** The unsigned word at byte p. */
  function WordAt(data: seq<byte>, p: nat): u32
    requires p + 4 <= |data|
  {
    DecodeLE32(data[p..p + 4])
  }

  /** The end of a table of count + 1 pointers. */
  function PointerTableEnd(count: nat): nat
  {
    PointerTableStart + 4 * (count + 1)
  }

  /** Pointer i. */
  function PointerAt(data: seq<byte>, i: nat): u32
    requires PointerTableStart + 4 * i + 4 <= |data|
  {
    WordAt(data, PointerTableStart + 4 * i)
  }

  /** The pointer loop: count + 1 pointers in order, or None when the
      table is cut off. */
  method ReadPointers(data: seq<byte>, count: nat) returns (r: Option<seq<u32>>)
    ensures r.None? <==> |data| < PointerTableEnd(count)
    ensures r.Some? ==>
      |r.value| == count + 1 && forall i :: 0 <= i <= count ==> r.value[i] == PointerAt(data, i)
  {
    var offsets: seq<u32> := [];
    var i := 0;
    while i < count + 1
      invariant 0 <= i <= count + 1
      invariant i > 0 ==> PointerTableStart + 4 * i <= |data|
      invariant |offsets| == i
      invariant forall j :: 0 <= j < i ==> offsets[j] == PointerAt(data, j)
    {
      var p := PointerTableStart + i * 4;
      if |data| < p + 4 {
        return None;
      }
      offsets := offsets + [DecodeLE32(data[p..p + 4])];
      i := i + 1;
    }
    return Some(offsets);
  }

  // ---------------------------------------------------------------------
  // One glyph

  /** The number of pixels of a width x height image. */
  function Area(width: nat, height: nat): nat
  {
    width * height
  }

  /** The byte index of pixel (x, y) in a row-major image of the given
      width. */
  function PixelIndex(width: nat, y: nat, x: nat): nat
  {
    y * width + x
  }

  /** The pixel bytes cut or padded with 0xFF to exactly `expected` bytes. */
  function Normalize(g: seq<byte>, expected: nat): (r: seq<byte>)
    ensures |r| == expected
    ensures forall p :: 0 <= p < expected ==> r[p] == if p < |g| then g[p] else 0xFF
  {
    if |g| < expected then g + Repeat(0xFF, expected - |g|)
    else if |g| > expected then g[..expected]
    else g
  }

  /** The decoding rule: 0xFF is pixel 0, every other byte pixel 1. */
  function PixelOf(b: byte): (p: Pixel)
    ensures p == 0 <==> b == 0xFF
  {
    if b == 0xFF then 0 else 1
  }

  /** Pixel (x, y) as the drawing loop leaves it: decoded from byte
      y * width + x when there is one, else the new image's 0. */
  function PixelAt(g: seq<byte>, width: nat, y: nat, x: nat): Pixel
  {
    var pos := PixelIndex(width, y, x);
    if pos < |g| then PixelOf(g[pos]) else 0
  }

  /** The image as height rows of width pixels. */
  function Raster(g: seq<byte>, width: nat, height: nat): seq<seq<Pixel>>
  {
    seq(height, y requires 0 <= y < height => seq(width, x requires 0 <= x < width => PixelAt(g, width, y, x)))
  }

  /** The saved image: the array read row by row. */
  function Snapshot(img: array2<Pixel>): (rows: seq<seq<Pixel>>)
    reads img
    ensures |rows| == img.Length0
    ensures forall y :: 0 <= y < img.Length0 ==> |rows[y]| == img.Length1
    ensures forall y, x :: 0 <= y < img.Length0 && 0 <= x < img.Length1 ==> rows[y][x] == img[y, x]
  {
    seq(img.Length0, y requires 0 <= y < img.Length0 reads img =>
      seq(img.Length1, x requires 0 <= x < img.Length1 reads img => img[y, x]))
  }

  /** Draws a glyph: a new width x height image of 0s, then every pixel
      whose byte exists set by the decoding rule, row by row; the result
      is the image as saved. */
  method RenderGlyph(glyph: seq<byte>, width: u32, height: u32) returns (rows: seq<seq<Pixel>>)
    ensures rows == Raster(glyph, width, height)
  {
    var img := new Pixel[height, width]((y, x) => 0);
    var y := 0;
    while y < height
      invariant 0 <= y <= height
      invariant forall y', x' :: 0 <= y' < y && 0 <= x' < width ==> img[y', x'] == PixelAt(glyph, width, y', x')
      invariant forall y', x' :: y <= y' < height && 0 <= x' < width ==> img[y', x'] == 0
    {
      var x := 0;
      while x < width
        invariant 0 <= x <= width
        invariant forall y', x' :: 0 <= y' < y && 0 <= x' < width ==> img[y', x'] == PixelAt(glyph, width, y', x')
        invariant forall x' :: 0 <= x' < x ==> img[y, x'] == PixelAt(glyph, width, y, x')
        invariant forall y', x' :: y <= y' < height && x <= x' < width ==> img[y', x'] == 0
        invariant forall y', x' :: y < y' < height && 0 <= x' < width ==> img[y', x'] == 0
      {
        var pos := PixelIndex(width, y, x);
        if pos < |glyph| {
          var pixel: Pixel := if glyph[pos] == 0xFF then 0 else 1;
          img[y, x] := pixel;
        }
        x := x + 1;
      }
      y := y + 1;
    }
    rows := Snapshot(img);
    forall y' | 0 <= y' < height
      ensures rows[y'] == Raster(glyph, width, height)[y']
    {
    }
  }

  /** Glyph i's width field lies inside the file. */
  predicate WidthReadable(data: seq<byte>, count: nat, i: nat)
    requires i < count && PointerTableEnd(count) <= |data|
  {
    PointerAt(data, i) + 4 <= |data|
  }

  /** The pixel bytes of glyph i: from after its width to the next pointer,
      normalised to width * height. */
  function GlyphPixels(data: seq<byte>, count: nat, height: u32, i: nat): seq<byte>
    requires i < count && PointerTableEnd(count) <= |data| && WidthReadable(data, count, i)
  {
    var start := PointerAt(data, i);
    Normalize(Slice(data, start + 4, PointerAt(data, i + 1)), Area(WordAt(data, start), height))
  }

  /** What becomes of glyph i. */
  function GlyphAt(data: seq<byte>, count: nat, height: u32, failing: set<nat>, i: nat): GlyphOutcome
    requires i < count && PointerTableEnd(count) <= |data| && WidthReadable(data, count, i)
  {
    var width := WordAt(data, PointerAt(data, i));
    if i in failing then Skipped(i)
    else if width == 0 then EmptySaved(i, Placeholder)
    else Saved(i, width, height, Raster(GlyphPixels(data, count, height, i), width, height))
  }

  // ---------------------------------------------------------------------
  // Output file names

  /** The character of decimal digit d. */
  function DigitChar(d: nat): (c: char)
    requires d < 10
    ensures '0' <= c <= '9' && c as int - '0' as int == d
  {
    ('0' as int + d) as char
  }

  predicate AllDigits(s: string)
  {
    forall i :: 0 <= i < |s| ==> '0' <= s[i] <= '9'
  }

  /** The number a string of decimal digits spells, most significant
      digit first. */
  function DigitsValue(s: string): nat
    requires AllDigits(s)
  {
    if s == [] then 0 else DigitsValue(s[..|s| - 1]) * 10 + (s[|s| - 1] as int - '0' as int)
  }

  /** str(n): n in decimal, without leading zeros. */
  function Decimal(n: nat): (s: string)
    ensures |s| >= 1 && AllDigits(s)
    ensures |s| == 1 || s[0] != '0'
  {
    if n < 10 then [DigitChar(n)] else Decimal(n / 10) + [DigitChar(n % 10)]
  }

  /** The digits of Decimal(n) spell n. */
  lemma {:induction false} DecimalValue(n: nat)
    ensures DigitsValue(Decimal(n)) == n
    decreases n
  {
    if n >= 10 {
      DecimalValue(n / 10);
      var s := Decimal(n);
      assert s[..|s| - 1] == Decimal(n / 10);
    }
  }

  /** Format `04d`: zeros in front up to four characters; a longer string
      is left as it is. */
  function ZeroPad4(s: string): (r: string)
    ensures |r| == if |s| < 4 then 4 else |s|
    ensures r[|r| - |s|..] == s
    ensures forall i :: 0 <= i < |r| - |s| ==> r[i] == '0'
  {
    if |s| < 4 then Repeat('0', 4 - |s|) + s else s
  }

  /** The name of the file a saved glyph is written to, inside the output
      directory. */
  function OutputName(o: GlyphOutcome): string
    requires !o.Skipped?
  {
    var prefix := "glyph_" + ZeroPad4(Decimal(o.num));
    if o.EmptySaved? then prefix + "_empty.bmp"
    else prefix + "_" + Decimal(o.width) + "x" + Decimal(o.height) + ".bmp"
  }

  // ---------------------------------------------------------------------
  // The whole font

  /** The first glyph at or after i whose width field is cut off, or
      count. */
  function FirstShortGlyph(data: seq<byte>, count: nat, i: nat): (k: nat)
    requires i <= count && PointerTableEnd(count) <= |data|
    ensures i <= k <= count
    ensures forall j :: i <= j < k ==> WidthReadable(data, count, j)
    ensures k < count ==> !WidthReadable(data, count, k)
    decreases count - i
  {
    if i == count then i
    else if !WidthReadable(data, count, i) then i
    else FirstShortGlyph(data, count, i + 1)
  }

  predicate WidthsReadable(data: seq<byte>, count: nat, k: nat)
    requires k <= count && PointerTableEnd(count) <= |data|
  {
    forall j :: 0 <= j < k ==> WidthReadable(data, count, j)
  }

  /** The outcomes of the first k glyphs. */
  function GlyphsDecoded(data: seq<byte>, count: nat, height: u32, failing: set<nat>, k: nat): (r: seq<GlyphOutcome>)
    requires k <= count && PointerTableEnd(count) <= |data| && WidthsReadable(data, count, k)
    ensures |r| == k
  {
    seq(k, i requires 0 <= i < k && PointerTableEnd(count) <= |data| && WidthReadable(data, count, i) =>
      GlyphAt(data, count, height, failing, i))
  }

  /** What unpacking a font file does, for a given set of glyphs at which
      the image library fails. */
  function UnpackSpec(data: seq<byte>, failing: set<nat>): Unpacked
  {
    if |data| < 12 then Unpacked([], Some(ShortHeader))
    else
      var count := WordAt(data, 4);
      var height := WordAt(data, 8);
      if |data| < PointerTableEnd(count) then Unpacked([], Some(ShortPointerTable))
      else
        var k := FirstShortGlyph(data, count, 0);
        Unpacked(GlyphsDecoded(data, count, height, failing, k), if k < count then Some(ShortGlyph(k)) else None)
  }

  /** unpack_font_to_bmp: reads the header and the pointer table, then
      decodes the glyphs in order; a glyph whose image fails is skipped,
      and a glyph whose width cannot be read ends the run. */
  method UnpackFont(data: seq<byte>, failing: set<nat>) returns (r: Unpacked)
    ensures r == UnpackSpec(data, failing)
  {
    if |data| < 12 {
      return Unpacked([], Some(ShortHeader));
    }
    var count := DecodeLE32(data[4..8]);
    var height := DecodeLE32(data[8..12]);
    var pointers := ReadPointers(data, count);
    if pointers.None? {
      return Unpacked([], Some(ShortPointerTable));
    }
    var glyphOffsets := pointers.value;
    var outcomes: seq<GlyphOutcome> := [];
    var num := 0;
    while num < count
      invariant 0 <= num <= count
      invariant WidthsReadable(data, count, num)
      invariant outcomes == GlyphsDecoded(data, count, height, failing, num)
    {
      var start: nat := glyphOffsets[num];
      var end: nat := glyphOffsets[num + 1];
      if |data| < start + 4 {
        ShortGlyphAt(data, count, num);
        return Unpacked(outcomes, Some(ShortGlyph(num)));
      }
      var outcome := DecodeGlyph(data, count, height, failing, num, start, end);
      GlyphsDecodedStep(data, count, height, failing, num);
      outcomes := outcomes + [outcome];
      num := num + 1;
    }
    AllWidthsReadable(data, count);
    return Unpacked(outcomes, None);
  }

  /** The body of the glyph loop once the width can be read: slice, pad
      or cut, then draw and save unless the image library fails. */
  method DecodeGlyph(data: seq<byte>, count: nat, height: u32, failing: set<nat>, num: nat, start: nat, end: nat)
    returns (outcome: GlyphOutcome)
    requires num < count && PointerTableEnd(count) <= |data|
    requires start == PointerAt(data, num) && end == PointerAt(data, num + 1) && start + 4 <= |data|
    ensures outcome == GlyphAt(data, count, height, failing, num)
  {
    var width := DecodeLE32(data[start..start + 4]);
    var glyph := Slice(data, start + 4, end);
    var expected := Area(width, height);
    if |glyph| < expected {
      glyph := glyph + Repeat(0xFF, expected - |glyph|);
    } else if |glyph| > expected {
      glyph := glyph[..expected];
    }
    assert glyph == GlyphPixels(data, count, height, num);
    if num in failing {
      outcome := Skipped(num);
    } else if width == 0 {
      outcome := EmptySaved(num, Placeholder);
    } else {
      var rows := RenderGlyph(glyph, width, height);
      outcome := Saved(num, width, height, rows);
    }
  }

  lemma ShortGlyphAt(data: seq<byte>, count: nat, i: nat)
    requires i < count && PointerTableEnd(count) <= |data|
    requires WidthsReadable(data, count, i) && !WidthReadable(data, count, i)
    ensures FirstShortGlyph(data, count, 0) == i
  {
  }

  lemma AllWidthsReadable(data: seq<byte>, count: nat)
    requires PointerTableEnd(count) <= |data| && WidthsReadable(data, count, count)
    ensures FirstShortGlyph(data, count, 0) == count
  {
  }

  lemma GlyphsDecodedStep(data: seq<byte>, count: nat, height: u32, failing: set<nat>, i: nat)
    requires i < count && PointerTableEnd(count) <= |data|
    requires WidthsReadable(data, count, i) && WidthReadable(data, count, i)
    ensures WidthsReadable(data, count, i + 1)
    ensures GlyphsDecoded(data, count, height, failing, i + 1) ==
      GlyphsDecoded(data, count, height, failing, i) + [GlyphAt(data, count, height, failing, i)]
  {
  }

  // ---------------------------------------------------------------------
  // Properties

  /** How a run ends: a short file before the pointers or inside the
      pointer table writes nothing; a glyph whose width is cut off stops
      the run after the glyphs before it; otherwise every glyph has an
      outcome, numbered in order. */
  lemma UnpackCases(data: seq<byte>, failing: set<nat>)
    ensures var u := UnpackSpec(data, failing);
      (u.error == Some(ShortHeader) <==> |data| < 12) &&
      (u.error == Some(ShortPointerTable) <==> 12 <= |data| < PointerTableEnd(WordAt(data, 4))) &&
      (u.error.Some? && !u.error.value.ShortGlyph? ==> u.glyphs == [])
    ensures var u := UnpackSpec(data, failing);
      |data| >= 12 && PointerTableEnd(WordAt(data, 4)) <= |data| ==>
        var count := WordAt(data, 4);
        (u.error == None <==> WidthsReadable(data, count, count)) &&
        (u.error == None ==> |u.glyphs| == count) &&
        (u.error.Some? ==>
           var k := u.error.value.num;
           u.error.value.ShortGlyph? && k < count && |u.glyphs| == k &&
           WidthsReadable(data, count, k) && !WidthReadable(data, count, k))
    ensures var u := UnpackSpec(data, failing);
      forall i :: 0 <= i < |u.glyphs| ==> u.glyphs[i].num == i
  {
    var u := UnpackSpec(data, failing);
    if |data| >= 12 && PointerTableEnd(WordAt(data, 4)) <= |data| {
      var count := WordAt(data, 4);
      var k := FirstShortGlyph(data, count, 0);
      if k < count {
        assert !WidthsReadable(data, count, count);
      }
    }
  }

  /** Glyph i is decoded as soon as the widths of glyphs 0 to i can be
      read, whatever comes after it. */
  lemma DecodedGlyph(data: seq<byte>, failing: set<nat>, i: nat)
    requires |data| >= 12 && PointerTableEnd(WordAt(data, 4)) <= |data| && i < WordAt(data, 4)
    requires WidthsReadable(data, WordAt(data, 4), i + 1)
    ensures var u := UnpackSpec(data, failing); var count := WordAt(data, 4);
      i < |u.glyphs| && WidthReadable(data, count, i) &&
      u.glyphs[i] == GlyphAt(data, count, WordAt(data, 8), failing, i)
  {
    var count := WordAt(data, 4);
    var k := FirstShortGlyph(data, count, 0);
    assert k > i by {
      if k < count {
        assert !WidthReadable(data, count, k);
      }
    }
  }

  lemma MulBound(y: nat, x: nat, w: nat, h: nat)
    requires y < h && x < w
    ensures PixelIndex(w, y, x) < Area(w, h)
  {
    assert y * w + x < y * w + w == (y + 1) * w;
    MulMonotone(w, y + 1, h);
  }

  /** In a buffer of exactly width * height bytes every pixel has its
      byte, so the drawing loop's bounds test always passes. */
  lemma RasterPixel(g: seq<byte>, w: nat, h: nat, y: nat, x: nat)
    requires |g| == Area(w, h) && y < h && x < w
    ensures PixelIndex(w, y, x) < |g|
    ensures |Raster(g, w, h)| == h && |Raster(g, w, h)[y]| == w
    ensures Raster(g, w, h)[y][x] == PixelOf(g[PixelIndex(w, y, x)])
  {
    MulBound(y, x, w, h);
  }

  /** A decoded glyph is width x height, and pixel (x, y) comes from byte
      y * width + x after the width field: 0 when that byte is 0xFF, 1 for
      any other byte, and 0 when the byte lies at or past the next pointer
      or the end of the file (the padding). */
  lemma GlyphPixel(data: seq<byte>, count: nat, height: u32, failing: set<nat>, i: nat, y: nat, x: nat)
    requires i < count && PointerTableEnd(count) <= |data| && WidthReadable(data, count, i)
    requires i !in failing && WordAt(data, PointerAt(data, i)) != 0
    requires y < height && x < WordAt(data, PointerAt(data, i))
    ensures var o := GlyphAt(data, count, height, failing, i); var w := WordAt(data, PointerAt(data, i));
      o.Saved? && o.width == w && o.height == height &&
      |o.rows| == height && |o.rows[y]| == w &&
      var pos := PointerAt(data, i) + 4 + PixelIndex(w, y, x);
      o.rows[y][x] == if pos < PointerAt(data, i + 1) && pos < |data| then PixelOf(data[pos]) else 0
  {
    var start: nat := PointerAt(data, i);
    var w := WordAt(data, start);
    var lo: nat, hi: nat := start + 4, PointerAt(data, i + 1);
    var g := Slice(data, lo, hi);
    var n := GlyphPixels(data, count, height, i);
    var p := PixelIndex(w, y, x);
    RasterPixel(n, w, height, y, x);
    assert n[p] == if p < |g| then g[p] else 0xFF;
    assert p < |g| <==> lo + p < hi && lo + p < |data|;
    if p < |g| {
      assert g[p] == data[lo + p];
    }
  }

  /** A glyph of width 0 is saved as the 1x1 placeholder of pixel 1. */
  lemma EmptyGlyph(data: seq<byte>, count: nat, height: u32, failing: set<nat>, i: nat)
    requires i < count && PointerTableEnd(count) <= |data| && WidthReadable(data, count, i)
    requires i !in failing && WordAt(data, PointerAt(data, i)) == 0
    ensures GlyphAt(data, count, height, failing, i) == EmptySaved(i, [[1]])
  {
  }

  /** A glyph at which the image library fails is skipped and the run goes
      on with the next one. */
  lemma FailingGlyph(data: seq<byte>, failing: set<nat>, i: nat)
    requires i in failing && i < |UnpackSpec(data, failing).glyphs|
    ensures UnpackSpec(data, failing).glyphs[i] == Skipped(i)
  {
  }
}
