/** The COB archive layout (little-endian):

      [0, 4)                    entry count, read as a signed 32-bit word
      [4, 4 + 50n)              n path records of 50 bytes, NUL-padded
      [4 + 50n, 4 + 54n)        n unsigned 32-bit offsets
      [4 + 54n, end)            the file contents, one after another

    No entry stores its own size: entry i ends where entry i + 1 starts, and
    the last one ends at the end of the archive. This module defines what
    reading a header yields and what packing writes, as functions on byte
    strings, and proves that reading a packed archive gives back the packed
    entries. The imperative reader and writer are in module CobPacker. */
module CobFormat {
  import opened Bytes

  const Nul: byte := 0
  const Slash: byte := 0x2F
  const Backslash: byte := 0x5C
  /** The one byte value that the cp1251 codepage leaves undefined:
      decoding it raises, and encoding never produces it. */
  const Cp1251Undefined: byte := 0x98

  /** Where the file contents begin in an archive of n entries. */
  function DataStart(n: nat): nat { 4 + 54 * n }

  /** Where the offset table begins in an archive of n entries. */
  function OffsetTableStart(n: nat): nat { 4 + 50 * n }

  /** One entry of an opened archive: directory and file name (as split by
      the reader), size in bytes and offset of its first byte. */
  datatype CobFile = CobFile(path: seq<byte>, name: seq<byte>, size: int, offset: u32)

  datatype HeaderError =
    | ShortRead    // a 4-byte field of the header or offset table is cut off
    | Undecodable  // a path record holds a byte cp1251 cannot decode

  // ---------------------------------------------------------------------
  // Paths

  /** bytes.partition(b'\0')[0]: everything before the first NUL. */
  function BeforeNul(s: seq<byte>): (r: seq<byte>)
    ensures |r| <= |s|
  {
    if s == [] || s[0] == Nul then [] else [s[0]] + BeforeNul(s[1..])
  }

  /** BeforeNul keeps the longest NUL-free prefix: it stops at the first
      NUL, or at the end. */
  lemma {:induction false} BeforeNulPrefix(s: seq<byte>)
    ensures var r := BeforeNul(s);
      r == s[..|r|] && Nul !in r && (|r| < |s| ==> s[|r|] == Nul)
    decreases |s|
  {
    if s != [] && s[0] != Nul {
      BeforeNulPrefix(s[1..]);
    }
  }

  /** str.replace on single characters: every `from` becomes `to`. */
  function Replace(s: seq<byte>, from: byte, to: byte): (r: seq<byte>)
    ensures |r| == |s|
  {
    if s == [] then [] else [if s[0] == from then to else s[0]] + Replace(s[1..], from, to)
  }

  /** Replace changes every `from` and nothing else. */
  lemma {:induction false} ReplaceAt(s: seq<byte>, from: byte, to: byte)
    ensures forall i :: 0 <= i < |s| ==> Replace(s, from, to)[i] == (if s[i] == from then to else s[i])
    decreases |s|
  {
    if s != [] {
      ReplaceAt(s[1..], from, to);
    }
  }

  /** The index just past the last '/' of p, or 0 when p has none. */
  function AfterLastSlash(p: seq<byte>): (k: nat)
    ensures k <= |p|
    ensures k > 0 ==> p[k - 1] == Slash
  {
    if p == [] then 0
    else if p[|p| - 1] == Slash then |p|
    else AfterLastSlash(p[..|p| - 1])
  }

  /** No '/' follows the index AfterLastSlash returns. */
  lemma {:induction false} AfterLastSlashIsLast(p: seq<byte>)
    ensures forall j :: AfterLastSlash(p) <= j < |p| ==> p[j] != Slash
    decreases |p|
  {
    if p != [] && p[|p| - 1] != Slash {
      AfterLastSlashIsLast(p[..|p| - 1]);
    }
  }

  /** str.rstrip('/'). */
  function RStripSlashes(h: seq<byte>): (r: seq<byte>)
    ensures |r| <= |h|
    ensures r != [] ==> r[|r| - 1] != Slash
  {
    if h == [] || h[|h| - 1] != Slash then h else RStripSlashes(h[..|h| - 1])
  }

  predicate AllSlashes(h: seq<byte>)
  {
    forall j :: 0 <= j < |h| ==> h[j] == Slash
  }

  /** os.path.split (POSIX): the head is everything up to the last '/',
      with trailing slashes removed unless it consists of slashes only; the
      tail is what follows the last '/'. */
  function Split(p: seq<byte>): (r: (seq<byte>, seq<byte>))
    ensures |r.1| <= |p|
  {
    var k := AfterLastSlash(p);
    var head := p[..k];
    (if head != [] && !AllSlashes(head) then RStripSlashes(head) else head, p[k..])
  }

  /** The name is the slash-free end of the path; a path without a slash
      is all name. */
  lemma SplitName(p: seq<byte>)
    ensures Slash !in Split(p).1
    ensures Split(p).1 == p[|p| - |Split(p).1|..]
    ensures Slash !in p ==> Split(p) == ([], p)
  {
    AfterLastSlashIsLast(p);
    var k := AfterLastSlash(p);
    if Slash !in p {
      assert k == 0;
    }
  }

  /** os.path.join (POSIX) of two components. */
  function Join(a: seq<byte>, b: seq<byte>): seq<byte>
  {
    if |b| > 0 && b[0] == Slash then b
    else if a == [] || a[|a| - 1] == Slash then a + b
    else a + [Slash] + b
  }

  /** A relative path as a directory walk produces it: every '/' separates
      two non-empty components. */
  predicate PlainRelativePath(p: seq<byte>)
  {
    forall j :: 0 <= j < |p| && p[j] == Slash ==> 0 < j && p[j - 1] != Slash
  }

  /** Splitting a walk-produced path and joining the parts again (as
      extraction does) gives the path back. */
  lemma SplitJoin(p: seq<byte>)
    requires PlainRelativePath(p)
    ensures Join(Split(p).0, Split(p).1) == p
  {
    var k := AfterLastSlash(p);
    if k > 0 {
      var head := p[..k];
      assert p[k - 1] == Slash;
      assert k - 1 > 0 && p[k - 2] != Slash;
      assert !AllSlashes(head);
      assert RStripSlashes(head) == RStripSlashes(head[..k - 1]);
      assert head[..k - 1] == p[..k - 1];
      assert RStripSlashes(p[..k - 1]) == p[..k - 1];
      assert Split(p) == (p[..k - 1], p[k..]);
      assert p == p[..k - 1] + [Slash] + p[k..];
    } else {
      assert p[..0] == [];
      assert Split(p) == ([], p);
      if |p| > 0 {
        assert p[0] != Slash;
      }
    }
  }

  // ---------------------------------------------------------------------
  // Reading the header

  /** The 50-byte path record i; near the end of the archive the read is
      short, and past it empty. */
  function RecordAt(data: seq<byte>, i: nat): seq<byte>
  {
    Slice(data, 4 + 50 * i, 4 + 50 * i + 50)
  }

  /** The encoded path stored in record i. */
  function RawPath(data: seq<byte>, i: nat): seq<byte>
  {
    BeforeNul(RecordAt(data, i))
  }

  predicate Decodable(raw: seq<byte>)
  {
    Cp1251Undefined !in raw
  }

  /** The path of record i with backslashes turned into slashes. */
  function StoredPath(data: seq<byte>, i: nat): seq<byte>
  {
    Replace(RawPath(data, i), Backslash, Slash)
  }

  /** The first four bytes as a signed count. */
  function EntryCount(data: seq<byte>): int
    requires |data| >= 4
  {
    ToSigned32(DecodeLE32(data[..4]))
  }

  /** The unsigned word at byte p. */
  function WordAt(data: seq<byte>, p: nat): u32
    requires p + 4 <= |data|
  {
    DecodeLE32(data[p..p + 4])
  }

  /** The offset of entry i in an archive of count entries. */
  function OffsetAt(data: seq<byte>, count: nat, i: nat): u32
    requires OffsetTableStart(count) + 4 * i + 4 <= |data|
  {
    WordAt(data, OffsetTableStart(count) + 4 * i)
  }

  /** The size of entry i: the distance to the next offset, or to the end
      of the archive for the last entry. Nothing forces it to be positive. */
  function SizeAt(data: seq<byte>, count: nat, i: nat): int
    requires i < count && DataStart(count) <= |data|
  {
    if i + 1 < count then OffsetAt(data, count, i + 1) - OffsetAt(data, count, i)
    else |data| - OffsetAt(data, count, i)
  }

  /** A new entry for an encoded path: backslashes made slashes, split into
      directory and name, with size and offset still 0. */
  function NewEntry(raw: seq<byte>): CobFile
  {
    var parts := Split(Replace(raw, Backslash, Slash));
    CobFile(parts.0, parts.1, 0, 0)
  }

  /** Entry i as its path record alone describes it. */
  function PathEntry(data: seq<byte>, i: nat): CobFile
  {
    NewEntry(RawPath(data, i))
  }

  function EntryAt(data: seq<byte>, count: nat, i: nat): CobFile
    requires i < count && DataStart(count) <= |data|
  {
    PathEntry(data, i).(size := SizeAt(data, count, i), offset := OffsetAt(data, count, i))
  }

  /** No path record among the first count holds an undecodable byte. */
  predicate AllDecodable(data: seq<byte>, count: nat)
  {
    forall i :: 0 <= i < count ==> Decodable(RawPath(data, i))
  }

  /** The entries of an archive of count entries, in table order. */
  function Entries(data: seq<byte>, count: nat): (fs: seq<CobFile>)
    requires DataStart(count) <= |data|
    ensures |fs| == count
  {
    seq(count, i requires 0 <= i < count && DataStart(count) <= |data| => EntryAt(data, count, i))
  }

  /** What reading the header of an archive yields: its entries, or the
      error that reading raises. A count below 1 reads nothing further. */
  function ParseHeader(data: seq<byte>): (r: Result<seq<CobFile>, HeaderError>)
    ensures r.Ok? ==> |data| >= 4
    ensures |data| >= 4 && EntryCount(data) < 1 ==> r == Ok([])
    ensures r.Ok? && r.value != [] ==> |r.value| == EntryCount(data) && DataStart(|r.value|) <= |data|
  {
    if |data| < 4 then Err(ShortRead)
    else
      var count := EntryCount(data);
      if count < 1 then Ok([])
      else if !AllDecodable(data, count) then Err(Undecodable)
      else if |data| < DataStart(count) then Err(ShortRead)
      else Ok(Entries(data, count))
  }

  /** Entry i ends where entry i + 1 begins; the last ends at len. */
  predicate SizesByDifference(fs: seq<CobFile>, len: nat)
  {
    (forall i {:trigger fs[i].size} :: 0 <= i < |fs| - 1 ==> fs[i].size == fs[i + 1].offset - fs[i].offset) &&
    (fs != [] ==> fs[|fs| - 1].size == len - fs[|fs| - 1].offset)
  }

  /** Sizes are derived by subtraction: each entry ends where the next
      begins and the last one ends at the end of the archive. Each path is
      the record's bytes before the first NUL, with backslashes made
      slashes, split at the last slash. */
  lemma ParsedEntries(data: seq<byte>)
    requires ParseHeader(data).Ok?
    ensures var fs := ParseHeader(data).value;
      SizesByDifference(fs, |data|) &&
      (forall i :: 0 <= i < |fs| ==>
        fs[i].path == Split(StoredPath(data, i)).0 && fs[i].name == Split(StoredPath(data, i)).1) &&
      (forall i :: 0 <= i < |fs| ==> fs[i].offset == OffsetAt(data, |fs|, i))
  {
    var fs := ParseHeader(data).value;
    if fs != [] {
      ParsedIsEntries(data);
      EntriesSized(data, |fs|);
      EntriesPaths(data, |fs|);
      EntriesOffsets(data, |fs|);
    }
  }

  lemma ParsedIsEntries(data: seq<byte>)
    requires ParseHeader(data).Ok? && ParseHeader(data).value != []
    ensures DataStart(|ParseHeader(data).value|) <= |data|
    ensures ParseHeader(data).value == Entries(data, |ParseHeader(data).value|)
  {
  }

  lemma EntriesSized(data: seq<byte>, count: nat)
    requires DataStart(count) <= |data|
    ensures SizesByDifference(Entries(data, count), |data|)
  {
    var fs := Entries(data, count);
    forall i | 0 <= i < count - 1
      ensures fs[i].size == fs[i + 1].offset - fs[i].offset
    {
      EntryNumbers(data, count, i);
      EntryNumbers(data, count, i + 1);
    }
    if count > 0 {
      EntryNumbers(data, count, count - 1);
    }
  }

  lemma EntriesPaths(data: seq<byte>, count: nat)
    requires DataStart(count) <= |data|
    ensures var fs := Entries(data, count);
      forall i :: 0 <= i < count ==>
        fs[i].path == Split(StoredPath(data, i)).0 && fs[i].name == Split(StoredPath(data, i)).1
  {
    var fs := Entries(data, count);
    forall i | 0 <= i < count
      ensures fs[i].path == Split(StoredPath(data, i)).0 && fs[i].name == Split(StoredPath(data, i)).1
    {
      EntryFields(data, count, i);
    }
  }

  lemma EntriesOffsets(data: seq<byte>, count: nat)
    requires DataStart(count) <= |data|
    ensures var fs := Entries(data, count);
      forall i :: 0 <= i < count ==> fs[i].offset == OffsetAt(data, count, i)
  {
    var fs := Entries(data, count);
    forall i | 0 <= i < count
      ensures fs[i].offset == OffsetAt(data, count, i)
    {
      EntryNumbers(data, count, i);
    }
  }

  /** The offset and size of entry i, without its path. */
  lemma EntryNumbers(data: seq<byte>, count: nat, i: nat)
    requires i < count && DataStart(count) <= |data|
    ensures Entries(data, count)[i].offset == OffsetAt(data, count, i)
    ensures Entries(data, count)[i].size == SizeAt(data, count, i)
  {
    EntryFields(data, count, i);
  }

  lemma EntryFields(data: seq<byte>, count: nat, i: nat)
    requires i < count && DataStart(count) <= |data|
    ensures Entries(data, count)[i] == EntryAt(data, count, i)
    ensures var e := EntryAt(data, count, i);
      e.path == Split(StoredPath(data, i)).0 && e.name == Split(StoredPath(data, i)).1 &&
      e.offset == OffsetAt(data, count, i) && e.size == SizeAt(data, count, i)
  {
  }

  /** Reading fails on a short header or offset table and on an
      undecodable path; a path error is raised first, since the path
      records are read before the offsets. */
  lemma ParseErrors(data: seq<byte>)
    ensures ParseHeader(data).Err? <==>
      |data| < 4 ||
      (EntryCount(data) >= 1 &&
       ((exists i :: 0 <= i < EntryCount(data) && !Decodable(RawPath(data, i))) || |data| < DataStart(EntryCount(data))))
    ensures ParseHeader(data) == Err(Undecodable) <==>
      |data| >= 4 && exists i :: 0 <= i < EntryCount(data) && !Decodable(RawPath(data, i))
  {
  }

  /** The source's read of `size` bytes at `offset`: clamped at the end of
      the archive, and to the end of the archive when size is negative. */
  function ReadAt(data: seq<byte>, offset: nat, size: int): (r: seq<byte>)
    ensures 0 <= size && offset + size <= |data| ==> r == data[offset..offset + size]
    ensures offset <= |data| && (size < 0 || |data| <= offset + size) ==> r == data[offset..]
    ensures |data| <= offset ==> r == []
  {
    if size < 0 then Slice(data, offset, |data|) else Slice(data, offset, offset + size)
  }

  /** Offsets that never decrease and stay inside the archive. The reader
      does not check this; extraction is exact under it. */
  predicate WellPlaced(fs: seq<CobFile>, len: nat)
  {
    (forall i, j :: 0 <= i <= j < |fs| ==> fs[i].offset <= fs[j].offset) &&
    (fs != [] ==> fs[|fs| - 1].offset <= len)
  }

  function ExtractedContents(data: seq<byte>, fs: seq<CobFile>): seq<seq<byte>>
  {
    seq(|fs|, i requires 0 <= i < |fs| => ReadAt(data, fs[i].offset, fs[i].size))
  }

  /** With well-placed offsets the extracted files tile the archive from
      the first offset to the end: entry i is exactly the bytes between
      its offset and the next, and nothing is skipped or read twice. */
  lemma {:induction false} ExtractionTiles(data: seq<byte>, fs: seq<CobFile>, k: nat)
    requires SizesByDifference(fs, |data|) && WellPlaced(fs, |data|)
    requires 0 < k <= |fs|
    ensures Concat(ExtractedContents(data, fs)[..k]) ==
      if k < |fs| then data[fs[0].offset..fs[k].offset] else data[fs[0].offset..]
  {
    var xs := ExtractedContents(data, fs);
    var j := k - 1;
    var stop := if k < |fs| then fs[k].offset else |data|;
    ExtractedAt(data, fs, j);
    assert xs[..k] == xs[..j] + [xs[j]];
    ConcatAppend(xs[..j], xs[j]);
    if j == 0 {
      assert xs[..j] == [];
    } else {
      ExtractionTiles(data, fs, j);
      assert fs[0].offset <= fs[j].offset;
      SliceJoin(data, fs[0].offset, fs[j].offset, stop);
    }
  }

  /** Entry j is extracted as the bytes from its offset to the next offset,
      or to the end of the archive for the last entry. */
  lemma ExtractedAt(data: seq<byte>, fs: seq<CobFile>, j: nat)
    requires SizesByDifference(fs, |data|) && WellPlaced(fs, |data|) && j < |fs|
    ensures var stop := if j + 1 < |fs| then fs[j + 1].offset else |data|;
      fs[j].offset <= stop <= |data| && ExtractedContents(data, fs)[j] == data[fs[j].offset..stop]
  {
    if j + 1 < |fs| {
      assert fs[j].offset <= fs[j + 1].offset <= fs[|fs| - 1].offset;
    }
  }

  /** Extraction with sizes derived by subtraction and well-placed offsets
      writes the archive's bytes from the first offset to the end, in entry
      order (ParsedEntries shows that an opened archive's sizes are so
      derived). */
  lemma ExtractionCoversData(data: seq<byte>, fs: seq<CobFile>)
    requires SizesByDifference(fs, |data|) && WellPlaced(fs, |data|) && fs != []
    ensures Concat(ExtractedContents(data, fs)) == data[fs[0].offset..]
  {
    ExtractionTiles(data, fs, |fs|);
    assert ExtractedContents(data, fs)[..|fs|] == ExtractedContents(data, fs);
  }

  // ---------------------------------------------------------------------
  // Packing

  /** One file found by the directory walk: its path relative to the packed
      directory, already encoded in cp1251, with '/' separators, and its
      contents. */
  datatype WalkEntry = WalkEntry(path: seq<byte>, contents: seq<byte>)

  datatype PackOutcome =
    | NothingToPack             // no file was found: nothing is written
    | Written(bytes: seq<byte>)  // the whole archive
    | Failed(partial: seq<byte>) // a count or offset does not fit 32 bits:
                                 // the bytes written before the failure

  /** The path as stored: separators turned into backslashes. */
  function ArchivePath(p: seq<byte>): seq<byte>
  {
    Replace(p, Slash, Backslash)
  }

  /** The 50-byte path record written for p: its first 49 bytes at most,
      then NUL bytes, so that byte 49 is always NUL. */
  function Record(p: seq<byte>): (r: seq<byte>)
    ensures |r| == 50 && r[49] == Nul
  {
    var q := ArchivePath(p);
    var cut := if |q| > 49 then q[..49] else q;
    cut + Repeat(Nul, 50 - |cut|)
  }

  /** The record starts with the first 49 bytes of the stored path at most
      and is NUL after them. */
  lemma RecordLayout(p: seq<byte>)
    ensures var r := Record(p); var q := ArchivePath(p); var m := Min(|q|, 49);
      r[..m] == q[..m] && forall j :: m <= j < 50 ==> r[j] == Nul
  {
  }

  function Records(walk: seq<WalkEntry>): seq<byte>
  {
    Concat(seq(|walk|, i requires 0 <= i < |walk| => Record(walk[i].path)))
  }

  function Contents(walk: seq<WalkEntry>): seq<seq<byte>>
  {
    seq(|walk|, i requires 0 <= i < |walk| => walk[i].contents)
  }

  /** The file contents, one after another in walk order. */
  function Blob(walk: seq<WalkEntry>): seq<byte>
  {
    Concat(Contents(walk))
  }

  /** The offset written for entry i: the data start plus the sizes of the
      entries before it. */
  function PackOffset(walk: seq<WalkEntry>, i: nat): nat
    requires i <= |walk|
  {
    DataStart(|walk|) + |Blob(walk[..i])|
  }

  /** Entries [0, k) have offsets that struct.pack('<I') accepts. */
  predicate OffsetsFit(walk: seq<WalkEntry>, k: nat)
    requires k <= |walk|
  {
    forall i :: 0 <= i < k ==> PackOffset(walk, i) < Pow32
  }

  /** The first k entries of the offset table. */
  function OffsetTable(walk: seq<WalkEntry>, k: nat): seq<byte>
    requires k <= |walk| && OffsetsFit(walk, k)
  {
    Concat(seq(k, i requires 0 <= i < k && OffsetsFit(walk, k) => EncodeLE32(PackOffset(walk, i))))
  }

  /** The number of leading entries whose offsets fit 32 bits, from i on. */
  function FittingFrom(walk: seq<WalkEntry>, i: nat): (k: nat)
    requires i <= |walk|
    ensures i <= k <= |walk|
    ensures forall j :: i <= j < k ==> PackOffset(walk, j) < Pow32
    ensures k < |walk| ==> PackOffset(walk, k) >= Pow32
    decreases |walk| - i
  {
    if i == |walk| then i
    else if PackOffset(walk, i) >= Pow32 then i
    else FittingFrom(walk, i + 1)
  }

  /** The count, the path records and the first k offsets. */
  function PackedHead(walk: seq<WalkEntry>, k: nat): seq<byte>
    requires |walk| < Pow32 && k <= |walk| && OffsetsFit(walk, k)
  {
    EncodeLE32(|walk|) + Records(walk) + OffsetTable(walk, k)
  }

  /** What packing the walked files writes. */
  function PackResult(walk: seq<WalkEntry>): PackOutcome
  {
    if walk == [] then NothingToPack
    else if |walk| >= Pow32 then Failed([])
    else
      var k := FittingFrom(walk, 0);
      if k == |walk| then Written(PackedHead(walk, k) + Blob(walk))
      else Failed(PackedHead(walk, k))
  }

  lemma ContentsPrefix(walk: seq<WalkEntry>, i: nat)
    requires i <= |walk|
    ensures Contents(walk[..i]) == Contents(walk)[..i]
  {
  }

  /** Appending entry i to the blob prefix. */
  lemma BlobStep(walk: seq<WalkEntry>, i: nat)
    requires i < |walk|
    ensures Blob(walk[..i + 1]) == Blob(walk[..i]) + walk[i].contents
  {
    assert Contents(walk[..i + 1]) == Contents(walk[..i]) + [walk[i].contents];
    ConcatAppend(Contents(walk[..i]), walk[i].contents);
  }

  /** The offset table is a running sum: it starts at the data start and
      each entry's offset is the previous one plus the previous size. */
  lemma PackOffsetStep(walk: seq<WalkEntry>, i: nat)
    requires i < |walk|
    ensures PackOffset(walk, 0) == DataStart(|walk|)
    ensures PackOffset(walk, i + 1) == PackOffset(walk, i) + |walk[i].contents|
  {
    assert walk[..0] == [];
    BlobStep(walk, i);
  }

  /** Packed offsets never decrease. */
  lemma {:induction false} PackOffsetMonotone(walk: seq<WalkEntry>, i: nat, j: nat)
    requires i <= j <= |walk|
    ensures PackOffset(walk, i) <= PackOffset(walk, j)
    decreases j - i
  {
    if i < j {
      PackOffsetStep(walk, i);
      PackOffsetMonotone(walk, i + 1, j);
    }
  }

  /** The whole archive of walk, when every field fits. */
  function Packed(walk: seq<WalkEntry>): seq<byte>
    requires |walk| < Pow32 && OffsetsFit(walk, |walk|)
  {
    PackedHead(walk, |walk|) + Blob(walk)
  }

  /** Packing succeeds exactly when the count and every offset fit 32 bits,
      and then writes Packed(walk); an empty walk writes nothing. */
  lemma PackResultWritten(walk: seq<WalkEntry>)
    ensures PackResult(walk).Written? <==>
      walk != [] && |walk| < Pow32 && OffsetsFit(walk, |walk|)
    ensures PackResult(walk).Written? ==> PackResult(walk).bytes == Packed(walk)
  {
    if walk != [] && |walk| < Pow32 {
      var k := FittingFrom(walk, 0);
      if k < |walk| {
        assert !OffsetsFit(walk, |walk|);
      }
    }
  }

  function RecordList(walk: seq<WalkEntry>): seq<seq<byte>>
  {
    seq(|walk|, i requires 0 <= i < |walk| => Record(walk[i].path))
  }

  function OffsetList(walk: seq<WalkEntry>): seq<seq<byte>>
    requires OffsetsFit(walk, |walk|)
  {
    seq(|walk|, i requires 0 <= i < |walk| && OffsetsFit(walk, |walk|) => EncodeLE32(PackOffset(walk, i)))
  }

  /** A packed archive is the count, the records, the offsets and the
      contents, with records of 50 and offsets of 4 bytes each. */
  lemma PackedParts(walk: seq<WalkEntry>)
    requires |walk| < Pow32 && OffsetsFit(walk, |walk|)
    ensures Packed(walk) ==
      EncodeLE32(|walk|) + Concat(RecordList(walk)) + Concat(OffsetList(walk)) + Concat(Contents(walk))
    ensures forall j :: 0 <= j < |walk| ==> |RecordList(walk)[j]| == 50
    ensures forall j :: 0 <= j < |walk| ==> |OffsetList(walk)[j]| == 4
    ensures |Concat(RecordList(walk))| == 50 * |walk| && |Concat(OffsetList(walk))| == 4 * |walk|
  {
    assert Records(walk) == Concat(RecordList(walk));
    assert OffsetTable(walk, |walk|) == Concat(OffsetList(walk));
    ConcatUniform(RecordList(walk), 50);
    ConcatUniform(OffsetList(walk), 4);
  }

  /** The first four bytes of a packed archive are its entry count, and
      its length is the data start plus the sizes of all files. */
  lemma PackedCount(walk: seq<WalkEntry>)
    requires |walk| < Pow32 && OffsetsFit(walk, |walk|)
    ensures |Packed(walk)| == DataStart(|walk|) + |Blob(walk)|
    ensures Packed(walk)[..4] == EncodeLE32(|walk|)
  {
    PackedParts(walk);
    var e, r, t, b := EncodeLE32(|walk|), Concat(RecordList(walk)), Concat(OffsetList(walk)), Blob(walk);
    SliceAppendLeft(e + r + t, b, 0, 4);
    SliceAppendLeft(e + r, t, 0, 4);
    SliceAppendLeft(e, r, 0, 4);
  }

  /** Record i of a four-part sequence whose second part is 50-byte
      records. */
  lemma RecordSlot(e: seq<byte>, rs: seq<seq<byte>>, t: seq<byte>, b: seq<byte>, i: nat)
    requires forall j :: 0 <= j < |rs| ==> |rs[j]| == 50
    requires i < |rs|
    ensures |e| + 50 * i + 50 <= |e + Concat(rs) + t + b|
    ensures (e + Concat(rs) + t + b)[|e| + 50 * i..|e| + 50 * i + 50] == rs[i]
  {
    ConcatUniformAt(rs, 50, i);
    SliceOfSecond(e, Concat(rs), t, b, 50 * i, 50 * i + 50);
  }

  /** Word i of a four-part sequence whose third part is 4-byte words. */
  lemma OffsetSlot(e: seq<byte>, r: seq<byte>, ts: seq<seq<byte>>, b: seq<byte>, i: nat)
    requires forall j :: 0 <= j < |ts| ==> |ts[j]| == 4
    requires i < |ts|
    ensures |e| + |r| + 4 * i + 4 <= |e + r + Concat(ts) + b|
    ensures (e + r + Concat(ts) + b)[|e| + |r| + 4 * i..|e| + |r| + 4 * i + 4] == ts[i]
  {
    ConcatUniformAt(ts, 4, i);
    SliceOfThird(e, r, Concat(ts), b, 4 * i, 4 * i + 4);
  }

  /** Record i of a packed archive sits at 4 + 50i. */
  lemma PackedRecord(walk: seq<WalkEntry>, i: nat)
    requires |walk| < Pow32 && OffsetsFit(walk, |walk|) && i < |walk|
    ensures 4 + 50 * i + 50 <= |Packed(walk)|
    ensures Packed(walk)[4 + 50 * i..4 + 50 * i + 50] == Record(walk[i].path)
  {
    PackedParts(walk);
    var e, r, t, b := EncodeLE32(|walk|), Concat(RecordList(walk)), Concat(OffsetList(walk)), Blob(walk);
    RecordSlot(e, RecordList(walk), t, b, i);
  }

  /** Offset i of a packed archive sits at 4 + 50n + 4i. */
  lemma PackedOffset(walk: seq<WalkEntry>, i: nat)
    requires |walk| < Pow32 && OffsetsFit(walk, |walk|) && i < |walk|
    ensures OffsetTableStart(|walk|) + 4 * i + 4 <= |Packed(walk)|
    ensures Packed(walk)[OffsetTableStart(|walk|) + 4 * i..OffsetTableStart(|walk|) + 4 * i + 4] ==
      EncodeLE32(PackOffset(walk, i))
  {
    PackedParts(walk);
    var e, r, t, b := EncodeLE32(|walk|), Concat(RecordList(walk)), Concat(OffsetList(walk)), Blob(walk);
    OffsetSlot(e, r, OffsetList(walk), b, i);
  }

  /** The contents of entry i start exactly at the offset written for it. */
  lemma PackedContents(walk: seq<WalkEntry>, i: nat)
    requires |walk| < Pow32 && OffsetsFit(walk, |walk|) && i < |walk|
    ensures PackOffset(walk, i) + |walk[i].contents| <= |Packed(walk)|
    ensures Packed(walk)[PackOffset(walk, i)..PackOffset(walk, i) + |walk[i].contents|] == walk[i].contents
  {
    PackedParts(walk);
    var e, r, t, b := EncodeLE32(|walk|), Concat(RecordList(walk)), Concat(OffsetList(walk)), Blob(walk);
    var cs := Contents(walk);
    ConcatAt(cs, i);
    ContentsPrefix(walk, i);
    var lo := |Concat(cs[..i])|;
    assert |e + r + t| == DataStart(|walk|);
    SliceAppendRight(e + r + t, b, lo, lo + |walk[i].contents|);
  }

  /** The path a reader recovers from the record written for p, before it
      is split into directory and name. */
  function RestoredPath(p: seq<byte>): seq<byte>
  {
    Replace(BeforeNul(Record(p)), Backslash, Slash)
  }

  /** A NUL-free path of at most 49 bytes without backslashes comes back
      unchanged. */
  lemma RestoredPathShort(p: seq<byte>)
    requires |p| <= 49 && Nul !in p && Backslash !in p
    ensures RestoredPath(p) == p
  {
    var q := ArchivePath(p);
    var r := Record(p);
    ReplaceAt(p, Slash, Backslash);
    ReplaceAt(q, Backslash, Slash);
    assert Nul !in q by {
      forall j | 0 <= j < |q| ensures q[j] != Nul {
        assert p[j] != Nul;
      }
    }
    assert r == q + Repeat(Nul, 50 - |q|);
    BeforeNulOfPadded(q, 50 - |q|);
  }

  lemma {:induction false} BeforeNulOfPadded(q: seq<byte>, k: nat)
    requires Nul !in q
    ensures BeforeNul(q + Repeat(Nul, k)) == q
    decreases |q|
  {
    if q == [] {
      if k > 0 {
        assert (q + Repeat(Nul, k))[0] == Nul;
      }
    } else {
      assert (q + Repeat(Nul, k))[1..] == q[1..] + Repeat(Nul, k);
      BeforeNulOfPadded(q[1..], k);
    }
  }

  /** Paths produced by the cp1251 encoder never hold the undefined byte,
      and packing does not introduce it. */
  lemma RecordDecodable(p: seq<byte>)
    requires Cp1251Undefined !in p
    ensures Decodable(BeforeNul(Record(p)))
  {
    var q := ArchivePath(p);
    var r := Record(p);
    var raw := BeforeNul(r);
    ReplaceAt(p, Slash, Backslash);
    BeforeNulPrefix(r);
    RecordLayout(p);
    forall j | 0 <= j < |raw| ensures raw[j] != Cp1251Undefined {
      assert raw[j] == r[j];
      if j < Min(|q|, 49) {
        assert r[j] == q[j];
        assert p[j] != Cp1251Undefined;
      }
    }
  }

  /** The entries a reader should find in the archive packed from walk. */
  function ExpectedEntries(walk: seq<WalkEntry>): seq<CobFile>
    requires OffsetsFit(walk, |walk|)
  {
    seq(|walk|, i requires 0 <= i < |walk| && OffsetsFit(walk, |walk|) =>
      CobFile(Split(RestoredPath(walk[i].path)).0, Split(RestoredPath(walk[i].path)).1,
              |walk[i].contents|, PackOffset(walk, i)))
  }

  /** Reading back a packed archive: when every path is valid cp1251
      output, the reader finds the same count, the offsets that were
      written, the sizes of the packed files, and each path as its record
      kept it. */
  lemma ParsePacked(walk: seq<WalkEntry>)
    requires walk != [] && |walk| < Pow32 && OffsetsFit(walk, |walk|)
    requires forall i :: 0 <= i < |walk| ==> Cp1251Undefined !in walk[i].path
    ensures ParseHeader(Packed(walk)) == Ok(ExpectedEntries(walk))
  {
    var n := |walk|;
    PackedHeader(walk);
    PackedEntries(walk);
  }

  lemma PackedHeader(walk: seq<WalkEntry>)
    requires walk != [] && |walk| < Pow32 && OffsetsFit(walk, |walk|)
    requires forall i :: 0 <= i < |walk| ==> Cp1251Undefined !in walk[i].path
    ensures DataStart(|walk|) <= |Packed(walk)|
    ensures ParseHeader(Packed(walk)) == Ok(Entries(Packed(walk), |walk|))
  {
    var data := Packed(walk);
    var n := |walk|;
    PackedCount(walk);
    PackedCountPositive(walk);
    DecodeEncodeLE32(n);
    assert EntryCount(data) == n;
    forall i | 0 <= i < n
      ensures Decodable(RawPath(data, i))
    {
      PackedRecord(walk, i);
      RecordDecodable(walk[i].path);
    }
    assert AllDecodable(data, n);
  }

  lemma PackedEntries(walk: seq<WalkEntry>)
    requires |walk| < Pow32 && OffsetsFit(walk, |walk|)
    ensures DataStart(|walk|) <= |Packed(walk)|
    ensures Entries(Packed(walk), |walk|) == ExpectedEntries(walk)
  {
    PackedCount(walk);
    forall i | 0 <= i < |walk|
      ensures Entries(Packed(walk), |walk|)[i] == ExpectedEntries(walk)[i]
    {
      EntryFields(Packed(walk), |walk|, i);
      PackedOffsetRead(walk, i);
      PackedSizeRead(walk, i);
      PackedRecord(walk, i);
    }
  }

  lemma PackedOffsetRead(walk: seq<WalkEntry>, i: nat)
    requires |walk| < Pow32 && OffsetsFit(walk, |walk|) && i < |walk|
    ensures DataStart(|walk|) <= |Packed(walk)|
    ensures OffsetAt(Packed(walk), |walk|, i) == PackOffset(walk, i)
  {
    PackedCount(walk);
    PackedOffset(walk, i);
    DecodeEncodeLE32(PackOffset(walk, i));
  }

  lemma PackedSizeRead(walk: seq<WalkEntry>, i: nat)
    requires |walk| < Pow32 && OffsetsFit(walk, |walk|) && i < |walk|
    ensures DataStart(|walk|) <= |Packed(walk)|
    ensures SizeAt(Packed(walk), |walk|, i) == |walk[i].contents|
  {
    var n := |walk|;
    PackedCount(walk);
    PackedOffsetRead(walk, i);
    PackOffsetStep(walk, i);
    if i + 1 < n {
      PackedOffsetRead(walk, i + 1);
    } else {
      assert walk[..n] == walk;
    }
  }

  /** Unpacking a packed archive gives back every file byte for byte, at
      its own path when the path is a plain relative path of at most 49
      bytes without NUL or backslash. */
  lemma ExtractPacked(walk: seq<WalkEntry>, i: nat)
    requires |walk| < Pow32 && OffsetsFit(walk, |walk|)
    requires i < |walk|
    ensures var e := ExpectedEntries(walk)[i];
      ReadAt(Packed(walk), e.offset, e.size) == walk[i].contents &&
      (var p := walk[i].path;
       |p| <= 49 && Nul !in p && Backslash !in p && PlainRelativePath(p) ==> Join(e.path, e.name) == p)
  {
    ExtractPackedContents(walk, i);
    ExtractPackedPath(walk, i);
  }

  lemma ExtractPackedContents(walk: seq<WalkEntry>, i: nat)
    requires |walk| < Pow32 && OffsetsFit(walk, |walk|)
    requires i < |walk|
    ensures var e := ExpectedEntries(walk)[i];
      ReadAt(Packed(walk), e.offset, e.size) == walk[i].contents
  {
    var e := ExpectedEntries(walk)[i];
    ExpectedPlace(walk, i);
    PackedContents(walk, i);
    ReadInside(Packed(walk), e.offset, e.size);
  }

  lemma ExpectedPlace(walk: seq<WalkEntry>, i: nat)
    requires OffsetsFit(walk, |walk|) && i < |walk|
    ensures ExpectedEntries(walk)[i].offset == PackOffset(walk, i)
    ensures ExpectedEntries(walk)[i].size == |walk[i].contents|
  {
  }

  lemma ReadInside(data: seq<byte>, offset: nat, size: int)
    requires 0 <= size && offset + size <= |data|
    ensures ReadAt(data, offset, size) == data[offset..offset + size]
  {
  }

  lemma ExtractPackedPath(walk: seq<WalkEntry>, i: nat)
    requires |walk| < Pow32 && OffsetsFit(walk, |walk|)
    requires i < |walk|
    ensures var e := ExpectedEntries(walk)[i]; var p := walk[i].path;
      |p| <= 49 && Nul !in p && Backslash !in p && PlainRelativePath(p) ==> Join(e.path, e.name) == p
  {
    var p := walk[i].path;
    if |p| <= 49 && Nul !in p && Backslash !in p && PlainRelativePath(p) {
      RestoredPathShort(p);
      SplitJoin(p);
    }
  }

  /** The count is written unsigned but read signed, yet a packed archive
      never reads back as empty: any walk whose offsets fit 32 bits has
      fewer than 2^31 entries, because the data start alone is 4 + 54n. */
  lemma PackedCountPositive(walk: seq<WalkEntry>)
    requires walk != [] && OffsetsFit(walk, |walk|)
    ensures |walk| < Pow31
  {
    assert PackOffset(walk, 0) < Pow32;
  }
}
