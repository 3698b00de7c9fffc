/** The font packer: a directory of per-glyph bitmaps becomes one font file

      [0, 16)            magic 0x2E31, glyph count, height, magic 0xFF
      [16, 16 + 4n)      n pointers, one per glyph, no sentinel
      [16 + 4n, end)     the glyph payloads, one after another

    A payload is four zero bytes for a glyph whose file name is marked
    "_empty", and otherwise the glyph's width followed by one byte per
    grayscale pixel: 0xFF for a dark pixel (below 128), 0xF3 for a light
    one. Glyphs are the ".bmp" files of the directory in name order. */
module FontPacker {
  import opened Bytes

  /** An image as the image library opens it: its size, and its pixels
      converted to 8-bit grayscale in row-major order, or None when the
      conversion fails. */
  datatype Image = Image(width: u32, height: u32, gray: Option<seq<byte>>)

  /** A directory entry: its file name, and the image it opens as, or None
      when the image library cannot open it. */
  datatype DirEntry = DirEntry(name: string, image: Option<Image>)

  datatype FontError =
    | NoBmpFiles             // the directory holds no ".bmp" file
    | NoHeight               // no glyph image gives a font height
    | TooManyGlyphs          // the glyph count does not fit 32 bits
    | BadImage(name: string) // this glyph's image cannot be read, or its
                             // pointer does not fit 32 bits

  const Magic: u32 := 0x2E31
  const SecondMagic: u32 := 0xFF
  const HeaderSize: nat := 16

  // ---------------------------------------------------------------------
  // File names

  /** str.lower on the characters the name tests look at. */
  function LowerChar(c: char): char
  {
    if 'A' <= c <= 'Z' then (c as int + 32) as char else c
  }

  function Lower(s: string): string
  {
    seq(|s|, i requires 0 <= i < |s| => LowerChar(s[i]))
  }

  /** s contains p as a contiguous piece. */
  predicate Contains(s: string, p: string)
    decreases |s|
  {
    |p| <= |s| && (s[..|p|] == p || Contains(s[1..], p))
  }

  /** f.lower().endswith('.bmp') */
  predicate IsBmpName(name: string)
  {
    var l := Lower(name);
    |l| >= 4 && l[|l| - 4..] == ".bmp"
  }

  /** '_empty' in f.lower() */
  predicate IsEmptyMarked(name: string)
  {
    Contains(Lower(name), "_empty")
  }

  // ---------------------------------------------------------------------
  // Selecting and ordering the glyph files

  /** The directory entries whose names end in ".bmp", in listing order. */
  function BmpFiles(dir: seq<DirEntry>): seq<DirEntry>
  {
    if dir == [] then []
    else if IsBmpName(dir[0].name) then [dir[0]] + BmpFiles(dir[1..])
    else BmpFiles(dir[1..])
  }

  /** Python's ordering of strings: by code point, a proper prefix first. */
  predicate NameLe(a: string, b: string)
  {
    a == [] || (b != [] && (a[0] < b[0] || (a[0] == b[0] && NameLe(a[1..], b[1..]))))
  }

  predicate SortedByName(s: seq<DirEntry>)
  {
    forall i, j :: 0 <= i < j < |s| ==> NameLe(s[i].name, s[j].name)
  }

  function Insert(e: DirEntry, s: seq<DirEntry>): seq<DirEntry>
  {
    if s == [] then [e]
    else if NameLe(e.name, s[0].name) then [e] + s
    else [s[0]] + Insert(e, s[1..])
  }

  /** sorted(): the entries in ascending name order. */
  function SortByName(s: seq<DirEntry>): seq<DirEntry>
  {
    if s == [] then [] else Insert(s[0], SortByName(s[1..]))
  }

  /** The glyph files: the ".bmp" entries sorted by name. */
  function GlyphFiles(dir: seq<DirEntry>): seq<DirEntry>
  {
    SortByName(BmpFiles(dir))
  }

  lemma {:induction false} NameLeTotal(a: string, b: string)
    ensures NameLe(a, b) || NameLe(b, a)
    decreases |a|
  {
    if a != [] && b != [] && a[0] == b[0] {
      NameLeTotal(a[1..], b[1..]);
    }
  }

  lemma {:induction false} NameLeTransitive(a: string, b: string, c: string)
    requires NameLe(a, b) && NameLe(b, c)
    ensures NameLe(a, c)
    decreases |a|
  {
    if a != [] && a[0] == b[0] && b[0] == c[0] {
      NameLeTransitive(a[1..], b[1..], c[1..]);
    }
  }

  lemma {:induction false} InsertSorted(e: DirEntry, s: seq<DirEntry>)
    requires SortedByName(s)
    ensures SortedByName(Insert(e, s))
    ensures multiset(Insert(e, s)) == multiset(s) + multiset{e}
    decreases |s|
  {
    if s == [] {
    } else if NameLe(e.name, s[0].name) {
      var r := [e] + s;
      forall i, j | 0 <= i < j < |r|
        ensures NameLe(r[i].name, r[j].name)
      {
        if i == 0 && j > 1 {
          NameLeTransitive(e.name, s[0].name, s[j - 1].name);
        }
      }
    } else {
      InsertSorted(e, s[1..]);
      NameLeTotal(e.name, s[0].name);
      var t := Insert(e, s[1..]);
      var r := [s[0]] + t;
      assert s == [s[0]] + s[1..];
      forall i, j | 0 <= i < j < |r|
        ensures NameLe(r[i].name, r[j].name)
      {
        if i == 0 {
          assert r[j] in multiset(t);
          assert r[j] in multiset(s[1..]) + multiset{e};
          if r[j] != e {
            assert r[j] in s[1..];
            var k :| 0 <= k < |s[1..]| && s[1..][k] == r[j];
            assert NameLe(s[0].name, s[k + 1].name);
          }
        }
      }
    }
  }

  /** Sorting orders the entries by name and keeps every entry, each as
      often as before. */
  lemma {:induction false} SortByNameCorrect(s: seq<DirEntry>)
    ensures SortedByName(SortByName(s))
    ensures multiset(SortByName(s)) == multiset(s)
    decreases |s|
  {
    if s != [] {
      SortByNameCorrect(s[1..]);
      InsertSorted(s[0], SortByName(s[1..]));
      assert s == [s[0]] + s[1..];
    }
  }

  lemma {:induction false} BmpFilesMembers(dir: seq<DirEntry>)
    ensures forall e :: e in BmpFiles(dir) <==> e in dir && IsBmpName(e.name)
    ensures multiset(BmpFiles(dir)) <= multiset(dir)
    decreases |dir|
  {
    if dir != [] {
      BmpFilesMembers(dir[1..]);
      assert dir == [dir[0]] + dir[1..];
    }
  }

  /** The glyph files are exactly the directory's ".bmp" entries, in
      ascending name order, none repeated beyond the listing. */
  lemma GlyphFilesCorrect(dir: seq<DirEntry>)
    ensures SortedByName(GlyphFiles(dir))
    ensures forall e :: e in GlyphFiles(dir) <==> e in dir && IsBmpName(e.name)
    ensures multiset(GlyphFiles(dir)) <= multiset(dir)
  {
    BmpFilesMembers(dir);
    SortByNameCorrect(BmpFiles(dir));
    forall e
      ensures e in GlyphFiles(dir) <==> e in BmpFiles(dir)
    {
      assert e in GlyphFiles(dir) <==> e in multiset(GlyphFiles(dir));
      assert e in BmpFiles(dir) <==> e in multiset(BmpFiles(dir));
    }
  }

  // ---------------------------------------------------------------------
  // The font height

  /** An entry the height search accepts: not "_empty"-marked, opens, and
      is not 1x1. */
  predicate HeightCandidate(e: DirEntry)
  {
    !IsEmptyMarked(e.name) && e.image.Some? && !(e.image.value.width == 1 && e.image.value.height == 1)
  }

  /** The first candidate at or after i, or |files| when there is none. */
  function FirstCandidate(files: seq<DirEntry>, i: nat): (k: nat)
    requires i <= |files|
    ensures i <= k <= |files|
    ensures forall j :: i <= j < k ==> !HeightCandidate(files[j])
    ensures k < |files| ==> HeightCandidate(files[k])
    decreases |files| - i
  {
    if i == |files| then i
    else if HeightCandidate(files[i]) then i
    else FirstCandidate(files, i + 1)
  }

  /** The font height: the height of the first candidate, or 0. */
  function FontHeight(files: seq<DirEntry>): u32
  {
    var k := FirstCandidate(files, 0);
    if k < |files| then files[k].image.value.height else 0
  }

  /** The height search: files are tried in order, "_empty"-marked ones and
      those that fail to open are skipped, and the first that is not 1x1
      gives the height. */
  method FindHeight(files: seq<DirEntry>) returns (height: u32)
    ensures height == FontHeight(files)
    ensures height != 0 ==>
      exists k :: 0 <= k < |files| && HeightCandidate(files[k]) &&
        files[k].image.value.height == height && (forall j :: 0 <= j < k ==> !HeightCandidate(files[j]))
  {
    height := 0;
    var i := 0;
    while i < |files|
      invariant 0 <= i <= |files|
      invariant FirstCandidate(files, i) == FirstCandidate(files, 0)
    {
      var e := files[i];
      if IsEmptyMarked(e.name) {
        i := i + 1;
        continue;
      }
      if e.image.None? {
        i := i + 1;
        continue;
      }
      var img := e.image.value;
      if !(img.width == 1 && img.height == 1) {
        height := img.height;
        break;
      }
      i := i + 1;
    }
  }

  // ---------------------------------------------------------------------
  // Payloads and the font bytes

  /** A grayscale value as stored: 0xFF below 128, 0xF3 otherwise. */
  function Threshold(p: byte): (r: byte)
    ensures r == 0xFF <==> p < 128
    ensures r == 0xF3 <==> p >= 128
  {
    if p < 128 then 0xFF else 0xF3
  }

  function Thresholded(px: seq<byte>): seq<byte>
  {
    seq(|px|, i requires 0 <= i < |px| => Threshold(px[i]))
  }

  /** The glyph's payload can be produced: its image opens and, unless it
      is "_empty"-marked, converts to grayscale. */
  predicate Readable(e: DirEntry)
  {
    e.image.Some? && (IsEmptyMarked(e.name) || e.image.value.gray.Some?)
  }

  /** The bytes written for a readable glyph; nothing for one that is not. */
  function Payload(e: DirEntry): seq<byte>
  {
    if !Readable(e) then []
    else if IsEmptyMarked(e.name) then EncodeLE32(0)
    else EncodeLE32(e.image.value.width) + Thresholded(e.image.value.gray.value)
  }

  /** An "_empty"-marked glyph is four zero bytes whatever its image; any
      other is its width and one thresholded byte per pixel. */
  lemma PayloadShape(e: DirEntry)
    requires Readable(e)
    ensures IsEmptyMarked(e.name) ==> Payload(e) == [0, 0, 0, 0]
    ensures !IsEmptyMarked(e.name) ==>
      var px := e.image.value.gray.value;
      |Payload(e)| == 4 + |px| && Payload(e)[..4] == EncodeLE32(e.image.value.width) &&
      forall p :: 0 <= p < |px| ==>
        (Payload(e)[4 + p] == 0xFF <==> px[p] < 128) && (Payload(e)[4 + p] == 0xF3 <==> px[p] >= 128)
  {
  }

  function Payloads(files: seq<DirEntry>): seq<seq<byte>>
  {
    seq(|files|, j requires 0 <= j < |files| => Payload(files[j]))
  }

  /** The payloads of the first i glyphs, one after another. */
  function GlyphData(files: seq<DirEntry>, i: nat): seq<byte>
    requires i <= |files|
  {
    Concat(Payloads(files[..i]))
  }

  /** The pointer written for glyph i: the data start plus the payloads
      before it. */
  function GlyphOffset(files: seq<DirEntry>, i: nat): nat
    requires i <= |files|
  {
    HeaderSize + 4 * |files| + |GlyphData(files, i)|
  }

  /** Glyph j is written without error. */
  predicate GlyphOk(files: seq<DirEntry>, j: nat)
    requires j < |files|
  {
    Readable(files[j]) && GlyphOffset(files, j) < Pow32
  }

  predicate GlyphsOk(files: seq<DirEntry>, k: nat)
    requires k <= |files|
  {
    forall j :: 0 <= j < k ==> GlyphOk(files, j)
  }

  /** The first glyph at or after i that fails, or |files|. */
  function FirstBad(files: seq<DirEntry>, i: nat): (k: nat)
    requires i <= |files|
    ensures i <= k <= |files|
    ensures forall j :: i <= j < k ==> GlyphOk(files, j)
    ensures k < |files| ==> !GlyphOk(files, k)
    decreases |files| - i
  {
    if i == |files| then i
    else if !GlyphOk(files, i) then i
    else FirstBad(files, i + 1)
  }

  /** The first k pointers. */
  function PointerTable(files: seq<DirEntry>, k: nat): seq<byte>
    requires k <= |files| && GlyphsOk(files, k)
  {
    Concat(seq(k, j requires 0 <= j < k && GlyphOk(files, j) => EncodeLE32(GlyphOffset(files, j))))
  }

  function FontHeader(count: u32, height: u32): (r: seq<byte>)
    ensures |r| == HeaderSize
  {
    EncodeLE32(Magic) + EncodeLE32(count) + EncodeLE32(height) + EncodeLE32(SecondMagic)
  }

  /** The font file for glyph files that all pack: header, pointer table,
      glyph data. */
  function FontBytes(files: seq<DirEntry>, height: u32): seq<byte>
    requires |files| < Pow32 && GlyphsOk(files, |files|)
  {
    FontHeader(|files|, height) + PointerTable(files, |files|) + GlyphData(files, |files|)
  }

  /** What packing a directory produces: the font bytes, or the error
      raised before anything is written. */
  function FontResult(dir: seq<DirEntry>): Result<seq<byte>, FontError>
  {
    var files := GlyphFiles(dir);
    if files == [] then Err(NoBmpFiles)
    else if FontHeight(files) == 0 then Err(NoHeight)
    else if |files| >= Pow32 then Err(TooManyGlyphs)
    else
      var k := FirstBad(files, 0);
      if k < |files| then Err(BadImage(files[k].name))
      else Ok(FontBytes(files, FontHeight(files)))
  }

  // ---------------------------------------------------------------------
  // The packer

  /** pack_bmp_to_font: selects and orders the glyph files, finds the
      height, then fills the header, the pointer table and the glyph data
      in one pass with a running offset; any failure leaves nothing
      written. */
  method PackFont(dir: seq<DirEntry>) returns (r: Result<seq<byte>, FontError>)
    ensures r == FontResult(dir)
  {
    var files := GlyphFiles(dir);
    if |files| == 0 {
      return Err(NoBmpFiles);
    }
    var height := FindHeight(files);
    if height == 0 {
      return Err(NoHeight);
    }
    if |files| >= Pow32 {
      return Err(TooManyGlyphs);
    }
    var header := EncodeLE32(Magic) + EncodeLE32(|files|) + EncodeLE32(height) + EncodeLE32(SecondMagic);
    var pointerTable: seq<byte> := [];
    var glyphData: seq<byte> := [];
    var dataStart := HeaderSize + 4 * |files|;
    var currentOffset := dataStart;
    assert files[..0] == [];
    var i := 0;
    while i < |files|
      invariant 0 <= i <= |files|
      invariant GlyphsOk(files, i)
      invariant currentOffset == GlyphOffset(files, i)
      invariant pointerTable == PointerTable(files, i)
      invariant glyphData == GlyphData(files, i)
    {
      var e := files[i];
      if e.image.None? {
        BadAt(files, i);
        return Err(BadImage(e.name));
      }
      var img := e.image.value;
      var glyph: seq<byte>;
      if IsEmptyMarked(e.name) {
        glyph := EncodeLE32(0);
      } else {
        if img.gray.None? {
          BadAt(files, i);
          return Err(BadImage(e.name));
        }
        glyph := EncodeLE32(img.width) + Thresholded(img.gray.value);
      }
      if currentOffset >= Pow32 {
        BadAt(files, i);
        return Err(BadImage(e.name));
      }
      PointerTableStep(files, i);
      GlyphDataStep(files, i);
      pointerTable := pointerTable + EncodeLE32(currentOffset);
      glyphData := glyphData + glyph;
      currentOffset := currentOffset + |glyph|;
      i := i + 1;
    }
    return Ok(header + pointerTable + glyphData);
  }

  lemma BadAt(files: seq<DirEntry>, i: nat)
    requires i < |files| && GlyphsOk(files, i) && !GlyphOk(files, i)
    ensures FirstBad(files, 0) == i
  {
  }

  lemma GlyphDataStep(files: seq<DirEntry>, i: nat)
    requires i < |files|
    ensures GlyphData(files, i + 1) == GlyphData(files, i) + Payload(files[i])
  {
    assert Payloads(files[..i + 1]) == Payloads(files[..i]) + [Payload(files[i])];
    ConcatAppend(Payloads(files[..i]), Payload(files[i]));
  }

  lemma PointerTableStep(files: seq<DirEntry>, i: nat)
    requires i < |files| && GlyphsOk(files, i) && GlyphOk(files, i)
    ensures GlyphsOk(files, i + 1)
    ensures PointerTable(files, i + 1) == PointerTable(files, i) + EncodeLE32(GlyphOffset(files, i))
  {
    var a := seq(i + 1, j requires 0 <= j < i + 1 && GlyphOk(files, j) => EncodeLE32(GlyphOffset(files, j)));
    var b := seq(i, j requires 0 <= j < i && GlyphOk(files, j) => EncodeLE32(GlyphOffset(files, j)));
    assert a == b + [EncodeLE32(GlyphOffset(files, i))];
    ConcatAppend(b, EncodeLE32(GlyphOffset(files, i)));
  }

  // ---------------------------------------------------------------------
  // Properties of the font bytes

  /** The pointers are a running sum: the first is the data start, 16 + 4n,
      and each next one adds the previous payload's length. */
  lemma GlyphOffsetStep(files: seq<DirEntry>, i: nat)
    requires i < |files|
    ensures GlyphOffset(files, 0) == HeaderSize + 4 * |files|
    ensures GlyphOffset(files, i + 1) == GlyphOffset(files, i) + |Payload(files[i])|
  {
    assert files[..0] == [];
    GlyphDataStep(files, i);
  }

  /** Packing succeeds exactly when there is a ".bmp" file, a height, a
      count that fits 32 bits, and every glyph is readable with a pointer
      that fits; a failing glyph is reported by its own name. */
  lemma FontResultCases(dir: seq<DirEntry>)
    ensures var files := GlyphFiles(dir);
      FontResult(dir).Ok? <==>
        files != [] && FontHeight(files) != 0 && |files| < Pow32 && GlyphsOk(files, |files|)
    ensures FontResult(dir).Err? && FontResult(dir).error.BadImage? ==>
      exists k :: 0 <= k < |GlyphFiles(dir)| && GlyphFiles(dir)[k].name == FontResult(dir).error.name &&
        !GlyphOk(GlyphFiles(dir), k)
  {
    var files := GlyphFiles(dir);
    if files != [] && FontHeight(files) != 0 && |files| < Pow32 {
      var k := FirstBad(files, 0);
      if k < |files| {
        assert !GlyphsOk(files, |files|);
      }
    }
  }

  function PointerList(files: seq<DirEntry>): seq<seq<byte>>
    requires GlyphsOk(files, |files|)
  {
    seq(|files|, j requires 0 <= j < |files| && GlyphOk(files, j) => EncodeLE32(GlyphOffset(files, j)))
  }

  /** A successful packing writes FontBytes for the glyph files and the
      font height. */
  lemma FontResultBytes(dir: seq<DirEntry>)
    requires FontResult(dir).Ok?
    ensures var files := GlyphFiles(dir);
      |files| < Pow32 && GlyphsOk(files, |files|) && FontHeight(files) != 0 &&
      FontResult(dir).value == FontBytes(files, FontHeight(files))
  {
    FontResultCases(dir);
  }

  /** The font is the header, the pointer table of 4 bytes per glyph and
      the payloads, in that order. */
  lemma FontParts(files: seq<DirEntry>, height: u32)
    requires |files| < Pow32 && GlyphsOk(files, |files|)
    ensures FontBytes(files, height) ==
      FontHeader(|files|, height) + Concat(PointerList(files)) + Concat(Payloads(files))
    ensures |Concat(PointerList(files))| == 4 * |files|
  {
    assert files[..|files|] == files;
    assert PointerTable(files, |files|) == Concat(PointerList(files));
    ConcatUniform(PointerList(files), 4);
  }

  /** The header is 16 bytes: magic 0x2E31, the glyph count, the font
      height and magic 0xFF. */
  lemma FontHeaderLayout(files: seq<DirEntry>, height: u32)
    requires |files| < Pow32 && GlyphsOk(files, |files|)
    ensures var out := FontBytes(files, height);
      |out| >= HeaderSize &&
      out[0..4] == EncodeLE32(Magic) && out[4..8] == EncodeLE32(|files|) &&
      out[8..12] == EncodeLE32(height) && out[12..16] == EncodeLE32(SecondMagic)
  {
    var h := FontHeader(|files|, height);
    var rest := PointerTable(files, |files|) + GlyphData(files, |files|);
    assert FontBytes(files, height) == h + rest;
    SliceAppendLeft(h, rest, 0, 16);
  }

  /** Pointer i sits at 16 + 4i and holds the position of payload i. */
  lemma FontPointerLayout(files: seq<DirEntry>, height: u32, i: nat)
    requires |files| < Pow32 && GlyphsOk(files, |files|) && i < |files|
    ensures var out := FontBytes(files, height);
      GlyphOk(files, i) &&
      HeaderSize + 4 * i + 4 <= |out| &&
      out[HeaderSize + 4 * i..HeaderSize + 4 * i + 4] == EncodeLE32(GlyphOffset(files, i))
  {
    FontParts(files, height);
    var h := FontHeader(|files|, height);
    var t := Concat(PointerList(files));
    var b := Concat(Payloads(files));
    ConcatUniformAt(PointerList(files), 4, i);
    SliceAppendLeft(h + t, b, HeaderSize + 4 * i, HeaderSize + 4 * i + 4);
    SliceAppendRight(h, t, 4 * i, 4 * i + 4);
  }

  /** Payload i starts exactly at pointer i. */
  lemma FontPayloadLayout(files: seq<DirEntry>, height: u32, i: nat)
    requires |files| < Pow32 && GlyphsOk(files, |files|) && i < |files|
    ensures var out := FontBytes(files, height); var p := GlyphOffset(files, i);
      p + |Payload(files[i])| <= |out| &&
      out[p..p + |Payload(files[i])|] == Payload(files[i])
  {
    FontParts(files, height);
    var ht := FontHeader(|files|, height) + Concat(PointerList(files));
    var cs := Payloads(files);
    var pre := Concat(cs[..i]);
    assert Payloads(files[..i]) == cs[..i];
    assert GlyphOffset(files, i) == |ht| + |pre|;
    ConcatAt(cs, i);
    SliceAppendRight(ht, Concat(cs), |pre|, |pre| + |cs[i]|);
  }

  /** The font ends with the last payload. */
  lemma FontLength(files: seq<DirEntry>, height: u32)
    requires |files| < Pow32 && GlyphsOk(files, |files|)
    ensures |FontBytes(files, height)| == GlyphOffset(files, |files|)
  {
    FontParts(files, height);
    assert Payloads(files[..|files|]) == Payloads(files);
  }
}
