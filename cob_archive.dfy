/** The archive reader and writer as the program runs them: an archive
    object that reads its header entry by entry and then patches offsets
    and sizes in place, extraction of each entry's bytes, and a packer that
    writes the count, the records, a running-offset table and the contents
    in sequence. Each is proved against the functions of module CobFormat. */
module CobPacker {
  import opened Bytes
  import opened CobFormat

  /** A file written by extraction: where it goes and what it holds. */
  datatype ExtractedFile = ExtractedFile(dest: seq<byte>, contents: seq<byte>)

  /** output_dir/path/name, as os.path.join builds it. */
  function DestPath(outputDir: seq<byte>, f: CobFile): seq<byte>
  {
    Join(Join(outputDir, f.path), f.name)
  }

  /** An archive object. `data` stands for the open file: the bytes the
      handle reads. `files` is the entry list the header fills in. */
  class CobArchive {
    var data: seq<byte>
    var files: seq<CobFile>

    /** An archive object without a file: no entries. */
    constructor ()
      ensures data == [] && files == []
    {
      data := [];
      files := [];
    }

    /** An archive object over the bytes of an existing file, before its
        header is read. */
    constructor Load(archive: seq<byte>)
      ensures data == archive && files == []
    {
      data := archive;
      files := [];
    }

    /** Reads the header: one entry per path record, then the offsets,
        each size set once the next offset is known, the last one from the
        archive length. The path records are all read before any offset,
        so an undecodable path is reported before a short table. */
    method ReadHeader() returns (err: Option<HeaderError>)
      requires files == []
      modifies this`files
      ensures ParseHeader(data).Ok? ==> err == None && files == ParseHeader(data).value
      ensures ParseHeader(data).Err? ==> err == Some(ParseHeader(data).error) && files == old(files)
    {
      var archive := data;
      if |archive| < 4 {
        return Some(ShortRead);
      }
      var count := ToSigned32(DecodeLE32(archive[..4]));
      if count < 1 {
        return None;
      }
      var paths := ReadPaths(archive, count);
      if paths.None? {
        HeaderUndecodable(archive, count);
        return Some(Undecodable);
      }
      var entries := ReadOffsets(archive, paths.value);
      if entries.None? {
        HeaderShort(archive, count);
        return Some(ShortRead);
      }
      ReadEntries(archive, paths.value);
      HeaderComplete(archive, count);
      files := entries.value;
      return None;
    }

    /** Writes every entry, in table order, to output_dir/path/name: the
        bytes read at its offset for its size. */
    method Extract(outputDir: seq<byte>) returns (written: seq<ExtractedFile>)
      ensures |written| == |files|
      ensures forall i :: 0 <= i < |files| ==> written[i].dest == DestPath(outputDir, files[i])
      ensures forall i :: 0 <= i < |files| ==> written[i].contents == ExtractedContents(data, files)[i]
    {
      var archive, entries := data, files;
      written := [];
      var i := 0;
      while i < |entries|
        invariant 0 <= i <= |entries|
        invariant |written| == i
        invariant forall j :: 0 <= j < i ==> written[j].dest == DestPath(outputDir, entries[j])
        invariant forall j :: 0 <= j < i ==> written[j].contents == ReadAt(archive, entries[j].offset, entries[j].size)
      {
        var f := entries[i];
        written := written + [ExtractedFile(DestPath(outputDir, f), ReadAt(archive, f.offset, f.size))];
        i := i + 1;
      }
    }
  }

  /** The path loop of reading the header: one entry per path record,
      with directory and name split from the decoded path; None at the
      first record that cp1251 cannot decode. */
  method ReadPaths(data: seq<byte>, count: nat) returns (r: Option<seq<CobFile>>)
    ensures r.None? <==> !AllDecodable(data, count)
    ensures r.Some? ==> |r.value| == count && PathsRead(data, r.value)
  {
    var files: seq<CobFile> := [];
    var i := 0;
    while i < count
      invariant 0 <= i <= count
      invariant AllDecodable(data, i)
      invariant |files| == i && PathsRead(data, files)
    {
      var raw := RawPath(data, i);
      if Cp1251Undefined in raw {
        return None;
      }
      AllDecodableStep(data, i);
      files := files + [NewEntry(raw)];
      i := i + 1;
    }
    return Some(files);
  }

  /** The offset loop of reading the header: the offset of every entry in
      table order, the size of each entry once the next offset is read, and
      the size of the last entry from the archive length; None when the
      table is cut off. */
  method ReadOffsets(data: seq<byte>, paths: seq<CobFile>) returns (r: Option<seq<CobFile>>)
    requires paths != []
    ensures r.None? <==> |data| < DataStart(|paths|)
    ensures r.Some? ==> r.value == LastSized(OffsetsRead(data, paths, |paths|), |data|)
  {
    var files := paths;
    var count := |files|;
    var tableStart := OffsetTableStart(count);
    if |data| < tableStart + 4 {
      return None;
    }
    files := files[0 := files[0].(offset := OffsetAt(data, count, 0))];
    var i := 1;
    while i < count
      invariant 1 <= i <= count
      invariant tableStart + 4 * i <= |data|
      invariant files == OffsetsRead(data, paths, i)
    {
      if |data| < tableStart + 4 * i + 4 {
        return None;
      }
      files := files[i := files[i].(offset := OffsetAt(data, count, i))];
      var withOffset := files;
      files := files[i - 1 := files[i - 1].(size := files[i].offset - files[i - 1].offset)];
      OffsetsReadStep(data, paths, i, withOffset, files);
      i := i + 1;
    }
    files := files[count - 1 := files[count - 1].(size := |data| - files[count - 1].offset)];
    return Some(files);
  }

  /** fs holds the entries the path loop builds from the first |fs|
      path records. */
  predicate PathsRead(data: seq<byte>, fs: seq<CobFile>)
  {
    forall j :: 0 <= j < |fs| ==> fs[j] == PathEntry(data, j)
  }

  lemma AllDecodableStep(data: seq<byte>, i: nat)
    requires AllDecodable(data, i) && Decodable(RawPath(data, i))
    ensures AllDecodable(data, i + 1)
  {
  }

  /** The entry list after the offset loop has read the first i offsets:
      entries before i carry their offset, entries before i - 1 also their
      size. */
  function OffsetsRead(data: seq<byte>, fs: seq<CobFile>, i: nat): (r: seq<CobFile>)
    requires 1 <= i <= |fs| && OffsetTableStart(|fs|) + 4 * i <= |data|
    ensures |r| == |fs|
  {
    var n := |fs|;
    seq(n, j requires 0 <= j < n && 1 <= i <= n && OffsetTableStart(n) + 4 * i <= |data| =>
      if j + 1 < i then fs[j].(offset := OffsetAt(data, n, j), size := OffsetAt(data, n, j + 1) - OffsetAt(data, n, j))
      else if j + 1 == i then fs[j].(offset := OffsetAt(data, n, j))
      else fs[j])
  }

  lemma OffsetsReadStep(data: seq<byte>, fs: seq<CobFile>, i: nat, a: seq<CobFile>, b: seq<CobFile>)
    requires 1 <= i < |fs| && OffsetTableStart(|fs|) + 4 * i + 4 <= |data|
    requires a == OffsetsRead(data, fs, i)[i := OffsetsRead(data, fs, i)[i].(offset := OffsetAt(data, |fs|, i))]
    requires b == a[i - 1 := a[i - 1].(size := a[i].offset - a[i - 1].offset)]
    ensures b == OffsetsRead(data, fs, i + 1)
  {
  }

  /** The last entry sized from the archive length. */
  function LastSized(fs: seq<CobFile>, len: nat): seq<CobFile>
    requires fs != []
  {
    fs[|fs| - 1 := fs[|fs| - 1].(size := len - fs[|fs| - 1].offset)]
  }

  /** Both loops together build the entries the header defines. */
  lemma ReadEntries(data: seq<byte>, fs: seq<CobFile>)
    requires fs != [] && DataStart(|fs|) <= |data| && PathsRead(data, fs)
    ensures LastSized(OffsetsRead(data, fs, |fs|), |data|) == Entries(data, |fs|)
  {
    var b := LastSized(OffsetsRead(data, fs, |fs|), |data|);
    forall j | 0 <= j < |fs|
      ensures b[j] == Entries(data, |fs|)[j]
    {
      ReadEntry(data, fs, j);
      EntryFields(data, |fs|, j);
    }
  }

  /** After both loops entry j carries the size and offset the header
      defines for it. */
  lemma ReadEntry(data: seq<byte>, fs: seq<CobFile>, j: nat)
    requires j < |fs| && DataStart(|fs|) <= |data|
    ensures LastSized(OffsetsRead(data, fs, |fs|), |data|)[j] ==
      fs[j].(size := SizeAt(data, |fs|, j), offset := OffsetAt(data, |fs|, j))
  {
  }

  lemma HeaderComplete(data: seq<byte>, n: nat)
    requires |data| >= 4 && EntryCount(data) == n && n >= 1
    requires AllDecodable(data, n) && DataStart(n) <= |data|
    ensures ParseHeader(data) == Ok(Entries(data, n))
  {
  }

  lemma HeaderUndecodable(data: seq<byte>, n: nat)
    requires |data| >= 4 && EntryCount(data) == n && n >= 1 && !AllDecodable(data, n)
    ensures ParseHeader(data) == Err(Undecodable)
  {
  }

  lemma HeaderShort(data: seq<byte>, n: nat)
    requires |data| >= 4 && EntryCount(data) == n && n >= 1
    requires AllDecodable(data, n) && |data| < DataStart(n)
    ensures ParseHeader(data) == Err(ShortRead)
  {
  }

  /** CobArchive(filename): an absent file gives an archive object with no
      entries; an existing one is opened and its header read, and reading
      errors propagate. */
  method Open(file: Option<seq<byte>>) returns (r: Result<CobArchive, HeaderError>)
    ensures r.Ok? ==> fresh(r.value)
    ensures file.None? ==> r.Ok? && r.value.files == []
    ensures file.Some? && ParseHeader(file.value).Ok? ==>
      r.Ok? && r.value.data == file.value && r.value.files == ParseHeader(file.value).value
    ensures file.Some? && ParseHeader(file.value).Err? ==> r == Err(ParseHeader(file.value).error)
  {
    if file.None? {
      var a := new CobArchive();
      return Ok(a);
    }
    var a := new CobArchive.Load(file.value);
    var err := a.ReadHeader();
    if err.Some? {
      return Err(err.value);
    }
    return Ok(a);
  }

  /** Packs the walked files: nothing at all when there are none;
      otherwise the count, the path records, the offsets as a running sum
      from the data start, and the contents, failing where a count or
      offset does not fit 32 bits. */
  method Pack(walk: seq<WalkEntry>) returns (r: PackOutcome)
    ensures r == PackResult(walk)
  {
    if |walk| == 0 {
      return NothingToPack;
    }
    var n := |walk|;
    var dataStart := 4 + n * (50 + 4);
    if n >= Pow32 {
      return Failed([]);
    }
    var records := WriteRecords(walk);
    var out := EncodeLE32(n) + records;
    var currentOffset := dataStart;
    PackOffsetStep(walk, 0);
    var i := 0;
    while i < n
      invariant 0 <= i <= n
      invariant currentOffset == PackOffset(walk, i)
      invariant OffsetsFit(walk, i)
      invariant out == PackedHead(walk, i)
    {
      if currentOffset >= Pow32 {
        return Failed(out);
      }
      OffsetTableStep(walk, i);
      PackOffsetStep(walk, i);
      out := out + EncodeLE32(currentOffset);
      currentOffset := currentOffset + |walk[i].contents|;
      i := i + 1;
    }
    var blob := WriteContents(walk);
    return Written(out + blob);
  }

  /** The path records, one per walked file: the path with separators made
      backslashes, cut to 49 bytes and NUL-padded to 50. */
  method WriteRecords(walk: seq<WalkEntry>) returns (out: seq<byte>)
    ensures out == Records(walk)
  {
    out := [];
    var i := 0;
    while i < |walk|
      invariant 0 <= i <= |walk|
      invariant out == Concat(RecordList(walk)[..i])
    {
      var pathBytes := ArchivePath(walk[i].path);
      if |pathBytes| > 49 {
        pathBytes := pathBytes[..49];
      }
      pathBytes := pathBytes + Repeat(Nul, 50 - |pathBytes|);
      RecordsStep(walk, i);
      out := out + pathBytes;
      i := i + 1;
    }
    assert RecordList(walk)[..|walk|] == RecordList(walk);
  }

  /** The file contents, one after another in walk order. */
  method WriteContents(walk: seq<WalkEntry>) returns (out: seq<byte>)
    ensures out == Blob(walk)
  {
    out := [];
    var i := 0;
    assert walk[..0] == [];
    while i < |walk|
      invariant 0 <= i <= |walk|
      invariant out == Blob(walk[..i])
    {
      BlobStep(walk, i);
      out := out + walk[i].contents;
      i := i + 1;
    }
    assert walk[..|walk|] == walk;
  }

  lemma RecordsStep(walk: seq<WalkEntry>, i: nat)
    requires i < |walk|
    ensures Concat(RecordList(walk)[..i + 1]) == Concat(RecordList(walk)[..i]) + Record(walk[i].path)
  {
    assert RecordList(walk)[..i + 1] == RecordList(walk)[..i] + [Record(walk[i].path)];
    ConcatAppend(RecordList(walk)[..i], Record(walk[i].path));
  }

  lemma OffsetTableStep(walk: seq<WalkEntry>, i: nat)
    requires i < |walk| && OffsetsFit(walk, i) && PackOffset(walk, i) < Pow32
    ensures OffsetsFit(walk, i + 1)
    ensures OffsetTable(walk, i + 1) == OffsetTable(walk, i) + EncodeLE32(PackOffset(walk, i))
  {
    var a := seq(i + 1, j requires 0 <= j < i + 1 && OffsetsFit(walk, i + 1) => EncodeLE32(PackOffset(walk, j)));
    var b := seq(i, j requires 0 <= j < i && OffsetsFit(walk, i) => EncodeLE32(PackOffset(walk, j)));
    assert a == b + [EncodeLE32(PackOffset(walk, i))];
    ConcatAppend(b, EncodeLE32(PackOffset(walk, i)));
  }
}
