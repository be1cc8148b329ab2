/** import_decoded_opus (codec_feral_music.py:155-198): build the dictionary
    encode consumes from a folder of Opus files, one track per file in
    listing order. Offsets count bytes of the data file: the first payload
    sits right after the 0x18-byte header, each next one right after the
    previous payload. */
module Importing {
  import opened Wrappers
  import opened Hex
  import opened PyBytes
  import opened Format

  /** One file of the folder: its name and its contents, in listing order. */
  datatype DirEntry = DirEntry(name: string, contents: seq<Byte>)

  predicate AsciiNames(folder: seq<DirEntry>) {
    forall i :: 0 <= i < |folder| ==> IsAscii(folder[i].name)
  }

  /** origin and meta (lines 172-177): Feral's own tracks are told apart
      by the word "Feral" in the file name. */
  function Provenance(name: string): (HexText, HexText) {
    if In(name, FeralMarker) then (OriginFeral, MetaFeral) else (OriginRtw, MetaRtw)
  }

  /** A name holding "Feral" anywhere is tagged as Feral's, any other name
      as one of the original RTW tracks. */
  lemma ProvenanceOfName(name: string)
    ensures Contains(name, FeralMarker) ==> Provenance(name) == (OriginFeral, MetaFeral)
    ensures !Contains(name, FeralMarker) ==> Provenance(name) == (OriginRtw, MetaRtw)
  {
    InContains(name, FeralMarker);
  }

  /** The channels field (line 188): byte 37 of the payload, the channel
      count of an Opus identification header, widened to four bytes. */
  function Channels(opus: HexText): Result<HexText, CodecError> {
    match IntFromBytes(Slice(opus, 74, 76))
    case Err(e) => Err(e)
    case Ok(n) => BytesFromInt(n)
  }

  /** The offset of the next payload (line 196). */
  function NextOffset(offset: HexText, length: HexText): Result<HexText, CodecError> {
    match IntFromBytes(offset)
    case Err(e) => Err(e)
    case Ok(a) =>
      match IntFromBytes(length)
      case Err(e) => Err(e)
      case Ok(b) => BytesFromInt(a + b)
  }

  /** One pass of the loop: the track for one file at the given offset, and
      the offset that follows it. */
  function TrackFor(name: string, contents: seq<Byte>, offset: HexText): Result<(Track, HexText), CodecError>
    requires IsAscii(name)
  {
    var opus := Hexlify(contents);
    match BytesFromInt(|opus| / 2)
    case Err(e) => Err(e)
    case Ok(length) =>
      match Channels(opus)
      case Err(e) => Err(e)
      case Ok(channels) =>
        match NextOffset(offset, length)
        case Err(e) => Err(e)
        case Ok(next) => Ok((FileTrack(name, opus, offset, length, channels), next))
  }

  /** The dictionary entry for one file (lines 179-193). */
  function FileTrack(name: string, opus: HexText, offset: HexText, length: HexText, channels: HexText): Track
    requires IsAscii(name)
  {
    var (origin, meta) := Provenance(name);
    var fileName := MusicPath(name);
    Track(offset, length, Slice(opus, 80, 88), meta, channels, origin, StringToByte(fileName), fileName, opus)
  }

  /** The tracks of the first n files and the running offset after them. */
  function ImportedUpTo(folder: seq<DirEntry>, n: nat): (r: Result<(seq<Track>, HexText), CodecError>)
    requires n <= |folder| && AsciiNames(folder)
    ensures r.Ok? ==> |r.value.0| == n
  {
    if n == 0 then
      Ok(([], FirstOffset))
    else
      match ImportedUpTo(folder, n - 1)
      case Err(e) => Err(e)
      case Ok((files, offset)) =>
        match TrackFor(folder[n - 1].name, folder[n - 1].contents, offset)
        case Err(e) => Err(e)
        case Ok((t, next)) => Ok((files + [t], next))
  }

  /** The dictionary import_decoded_opus returns for a folder. */
  function Imported(folder: seq<DirEntry>): (r: Result<Library, CodecError>)
    requires AsciiNames(folder)
  {
    match BytesFromInt(|folder|)
    case Err(e) => Err(e)
    case Ok(count) =>
      match ImportedUpTo(folder, |folder|)
      case Err(e) => Err(e)
      case Ok((files, _)) =>
        AsciiConstants();
        Ok(Library(Header(StringToByte(PackMagic), Unknown, count, Unknown2), files))
  }

  /** Once a file has failed, importing more files fails the same way. */
  lemma {:induction false} ImportedUpToFailure(folder: seq<DirEntry>, k: nat, n: nat)
    requires k <= n <= |folder| && AsciiNames(folder)
    requires ImportedUpTo(folder, k).Err?
    ensures ImportedUpTo(folder, n) == ImportedUpTo(folder, k)
    decreases n
  {
    if n > k {
      ImportedUpToFailure(folder, k, n - 1);
    }
  }

  method ImportDecodedOpus(folder: seq<DirEntry>) returns (r: Result<Library, CodecError>)
    requires AsciiNames(folder)
    ensures r == Imported(folder)
  {
    var count := BytesFromInt(|folder|);
    if count.Err? {
      return Err(count.error);
    }
    AsciiConstants();
    var header := Header(StringToByte(PackMagic), Unknown, count.value, Unknown2);
    var files: seq<Track> := [];
    var offset := FirstOffset;
    for i := 0 to |folder|
      invariant ImportedUpTo(folder, i) == Ok((files, offset))
    {
      var file := folder[i].name;
      var opus := Hexlify(folder[i].contents);
      var origin, meta;
      if In(file, FeralMarker) {
        origin, meta := OriginFeral, MetaFeral;
      } else {
        origin, meta := OriginRtw, MetaRtw;
      }
      var length := BytesFromInt(|opus| / 2);
      var fileName := MusicPath(file);
      if length.Err? {
        assert ImportedUpTo(folder, i + 1) == Err(length.error);
        ImportedUpToFailure(folder, i + 1, |folder|);
        return Err(length.error);
      }
      var channels := Channels(opus);
      if channels.Err? {
        assert ImportedUpTo(folder, i + 1) == Err(channels.error);
        ImportedUpToFailure(folder, i + 1, |folder|);
        return Err(channels.error);
      }
      files := files + [Track(offset, length.value, Slice(opus, 80, 88), meta, channels.value, origin,
                              StringToByte(fileName), fileName, opus)];
      var next := NextOffset(offset, length.value);
      if next.Err? {
        assert ImportedUpTo(folder, i + 1) == Err(next.error);
        ImportedUpToFailure(folder, i + 1, |folder|);
        return Err(next.error);
      }
      offset := next.value;
    }
    r := Ok(Library(header, files));
  }

  // -------------------------------------------------------------------------
  // What the import produces

  /** The size of the header both files start with, in bytes (line 166). */
  const HeaderBytes: nat := 0x18

  /** The number of bytes in the first n files. */
  function TotalBytes(folder: seq<DirEntry>, n: nat): nat
    requires n <= |folder|
  {
    if n == 0 then 0 else TotalBytes(folder, n - 1) + |folder[n - 1].contents|
  }

  /** Byte 37 of the payload, or 0 when the payload is shorter. */
  function ChannelCount(contents: seq<Byte>): Byte {
    if |contents| > 37 then contents[37] else 0
  }

  /** Digits 74 and 75 of the payload's hex read back as byte 37. */
  lemma ChannelDigits(contents: seq<Byte>)
    ensures IntFromBytes(Slice(Hexlify(contents), 74, 76)) == Ok(ChannelCount(contents))
  {
    var opus := Hexlify(contents);
    if |contents| > 37 {
      var b := [contents[37]];
      HexlifySlice(contents, 37, 38);
      assert contents[37..38] == b;
      LittleEndianHexlify(b);
    } else {
      assert Slice(opus, 74, 76) == [];
    }
  }

  /** The channels field is the payload's byte 37 (0 when the payload is
      shorter), widened to four bytes; it never fails. */
  lemma ChannelsOfPayload(contents: seq<Byte>)
    ensures Channels(Hexlify(contents)) == BytesFromInt(ChannelCount(contents))
    ensures IntFromBytes(BytesFromInt(ChannelCount(contents)).value) == Ok(ChannelCount(contents))
  {
    ChannelDigits(contents);
    IntFromBytesOfBytesFromInt(ChannelCount(contents));
  }

  /** The hertz field is bytes 40 to 43 of the payload (clamped to its end). */
  lemma HertzOfPayload(contents: seq<Byte>)
    ensures Slice(Hexlify(contents), 80, 88) == Hexlify(contents[Min(40, |contents|)..Min(44, |contents|)])
  {
    HexlifySlice(contents, Min(40, |contents|), Min(44, |contents|));
  }

  /** The offset after a payload of n bytes at an offset worth a is worth
      a + n, when that fits in four bytes ... */
  lemma NextOffsetFits(offset: HexText, n: nat)
    requires |offset| % 2 == 0 && IntFromBytes(offset).value + n < Limit32
    ensures NextOffset(offset, BytesFromInt(n).value) == Ok(BytesFromInt(IntFromBytes(offset).value + n).value)
  {
    IntFromBytesOfBytesFromInt(n);
  }

  /** ... and OverflowError otherwise. */
  lemma NextOffsetTooWide(offset: HexText, n: nat)
    requires |offset| % 2 == 0 && n < Limit32 <= IntFromBytes(offset).value + n
    ensures NextOffset(offset, BytesFromInt(n).value) == Err(IntegerTooWide)
  {
    IntFromBytesOfBytesFromInt(n);
  }

  /** One pass of the loop from an offset worth a, when a plus the
      payload's size fits in four bytes, succeeds with that sum as the next
      offset. */
  lemma TrackForNext(name: string, contents: seq<Byte>, offset: HexText)
    requires IsAscii(name) && |offset| % 2 == 0
    requires IntFromBytes(offset).value + |contents| < Limit32
    ensures TrackFor(name, contents, offset).Ok?
    ensures TrackFor(name, contents, offset).value.1
         == BytesFromInt(IntFromBytes(offset).value + |contents|).value
  {
    HexlifyHalf(contents);
    ChannelsOfPayload(contents);
    NextOffsetFits(offset, |contents|);
  }

  /** A pass fails on a file of 2^32 bytes or more. */
  lemma TrackForSize(name: string, contents: seq<Byte>, offset: HexText)
    requires IsAscii(name) && TrackFor(name, contents, offset).Ok?
    ensures |contents| < Limit32
  {
    HexlifyHalf(contents);
  }

  /** When a pass succeeds, the track it returns is the entry for the file. */
  lemma TrackForEntry(name: string, contents: seq<Byte>, offset: HexText)
    requires IsAscii(name) && |contents| < Limit32
    ensures TrackFor(name, contents, offset).Ok? ==>
      TrackFor(name, contents, offset).value.0
      == FileTrack(name, Hexlify(contents), offset, BytesFromInt(|contents|).value,
                   BytesFromInt(ChannelCount(contents)).value)
  {
    HexlifyHalf(contents);
    ChannelsOfPayload(contents);
  }

  /** Otherwise the pass raises OverflowError. */
  lemma TrackForTooWide(name: string, contents: seq<Byte>, offset: HexText)
    requires IsAscii(name) && |offset| % 2 == 0
    requires IntFromBytes(offset).value + |contents| >= Limit32
    ensures TrackFor(name, contents, offset) == Err(IntegerTooWide)
  {
    var opus, n := Hexlify(contents), |contents|;
    HexlifyHalf(contents);
    if n < Limit32 {
      ChannelsOfPayload(contents);
      NextOffsetTooWide(offset, n);
      assert BytesFromInt(|opus| / 2) == Ok(BytesFromInt(n).value);
    }
  }

  /** The next offset is four bytes worth a plus the payload's size. */
  lemma TrackForOk(name: string, contents: seq<Byte>, offset: HexText)
    requires IsAscii(name) && |offset| == 8
    ensures
      var a := IntFromBytes(offset).value;
      var r := TrackFor(name, contents, offset);
      && (r.Ok? <==> a + |contents| < Limit32)
      && (r.Err? ==> r.error == IntegerTooWide)
      && (r.Ok? ==> |r.value.1| == 8 && IntFromBytes(r.value.1) == Ok(a + |contents|))
  {
    var a := IntFromBytes(offset).value;
    if a + |contents| < Limit32 {
      TrackForNext(name, contents, offset);
      IntFromBytesOfBytesFromInt(a + |contents|);
    } else {
      TrackForTooWide(name, contents, offset);
    }
  }

  /** The fields of the entry for one file. */
  lemma FileTrackFields(name: string, contents: seq<Byte>, offset: HexText)
    requires IsAscii(name) && |contents| < Limit32
    ensures
      var t := FileTrack(name, Hexlify(contents), offset, BytesFromInt(|contents|).value,
                         BytesFromInt(ChannelCount(contents)).value);
      && t.offset == offset
      && |t.length| == 8 && IntFromBytes(t.length) == Ok(|contents|)
      && t.hertz == Hexlify(contents[Min(40, |contents|)..Min(44, |contents|)])
      && (t.origin, t.meta) == Provenance(name)
      && |t.channels| == 8 && IntFromBytes(t.channels) == Ok(ChannelCount(contents))
      && t.fileNameStr == MusicDir + name
      && IsAscii(t.fileNameStr) && t.fileName == StringToByte(t.fileNameStr)
      && t.file == Hexlify(contents)
  {
    ChannelsOfPayload(contents);
    HertzOfPayload(contents);
    IntFromBytesOfBytesFromInt(|contents|);
  }

  /** The fields of the track one pass of the loop builds. */
  lemma TrackForFields(name: string, contents: seq<Byte>, offset: HexText)
    requires IsAscii(name)
    requires TrackFor(name, contents, offset).Ok?
    ensures
      var t := TrackFor(name, contents, offset).value.0;
      && t.offset == offset
      && |t.length| == 8 && IntFromBytes(t.length) == Ok(|contents|)
      && t.hertz == Hexlify(contents[Min(40, |contents|)..Min(44, |contents|)])
      && (t.origin, t.meta) == Provenance(name)
      && |t.channels| == 8 && IntFromBytes(t.channels) == Ok(ChannelCount(contents))
      && t.fileNameStr == MusicDir + name
      && IsAscii(t.fileNameStr) && t.fileName == StringToByte(t.fileNameStr)
      && t.file == Hexlify(contents)
  {
    TrackForSize(name, contents, offset);
    TrackForEntry(name, contents, offset);
    FileTrackFields(name, contents, offset);
  }

  /** The running offset starts at the header size. */
  lemma FirstOffsetValue()
    ensures IntFromBytes(FirstOffset) == Ok(HeaderBytes)
  {
    assert FirstOffset[2..][2..][2..][2..] == [];
  }

  /** The loop over the first n files succeeds exactly while the running
      offset fits in four bytes, and the running offset is the header size
      plus the bytes imported so far. */
  lemma {:induction false} ImportedUpToOffset(folder: seq<DirEntry>, n: nat)
    requires n <= |folder| && AsciiNames(folder)
    ensures ImportedUpTo(folder, n).Ok? <==> HeaderBytes + TotalBytes(folder, n) < Limit32
    ensures ImportedUpTo(folder, n).Err? ==> ImportedUpTo(folder, n).error == IntegerTooWide
    ensures ImportedUpTo(folder, n).Ok? ==>
      var offset := ImportedUpTo(folder, n).value.1;
      |offset| == 8 && IntFromBytes(offset) == Ok(HeaderBytes + TotalBytes(folder, n))
  {
    if n == 0 {
      FirstOffsetValue();
    } else {
      ImportedUpToOffset(folder, n - 1);
      if ImportedUpTo(folder, n - 1).Err? {
        ImportedUpToStepFailed(folder, n);
      } else {
        ImportedUpToStep(folder, n);
      }
    }
  }

  /** Once the loop has failed, one more file changes nothing. */
  lemma ImportedUpToStepFailed(folder: seq<DirEntry>, n: nat)
    requires 0 < n <= |folder| && AsciiNames(folder)
    requires ImportedUpTo(folder, n - 1).Err?
    ensures ImportedUpTo(folder, n) == ImportedUpTo(folder, n - 1)
  {
  }

  /** One more file, from a running offset worth the header size plus the
      bytes before it. */
  lemma ImportedUpToStep(folder: seq<DirEntry>, n: nat)
    requires 0 < n <= |folder| && AsciiNames(folder)
    requires ImportedUpTo(folder, n - 1).Ok?
    requires
      var offset := ImportedUpTo(folder, n - 1).value.1;
      |offset| == 8 && IntFromBytes(offset) == Ok(HeaderBytes + TotalBytes(folder, n - 1))
    ensures ImportedUpTo(folder, n).Ok? <==> HeaderBytes + TotalBytes(folder, n) < Limit32
    ensures ImportedUpTo(folder, n).Err? ==> ImportedUpTo(folder, n).error == IntegerTooWide
    ensures ImportedUpTo(folder, n).Ok? ==>
      var offset := ImportedUpTo(folder, n).value.1;
      |offset| == 8 && IntFromBytes(offset) == Ok(HeaderBytes + TotalBytes(folder, n))
  {
    var prev, e := ImportedUpTo(folder, n - 1).value, folder[n - 1];
    var step := TrackFor(e.name, e.contents, prev.1);
    TrackForOk(e.name, e.contents, prev.1);
    assert HeaderBytes + TotalBytes(folder, n) == IntFromBytes(prev.1).value + |e.contents|;
    if step.Ok? {
      assert ImportedUpTo(folder, n).Ok? && ImportedUpTo(folder, n).value.1 == step.value.1;
    } else {
      assert ImportedUpTo(folder, n) == Err(step.error);
    }
  }

  /** import_decoded_opus fails exactly when the folder holds 2^32 files or
      more, or when its files, after the header, would run past the four-byte
      offset range (the offset after the last file included); and then with
      OverflowError. */
  lemma ImportedSucceeds(folder: seq<DirEntry>)
    requires AsciiNames(folder)
    ensures Imported(folder).Ok? <==> |folder| < Limit32 && HeaderBytes + TotalBytes(folder, |folder|) < Limit32
    ensures Imported(folder).Err? ==> Imported(folder).error == IntegerTooWide
  {
    ImportedUpToOffset(folder, |folder|);
    assert Imported(folder).Ok? <==> BytesFromInt(|folder|).Ok? && ImportedUpTo(folder, |folder|).Ok?;
  }

  /** The header of an import: the pack name, the fixed fields, and the
      number of files as a four-byte count; one track per file. */
  lemma ImportedHeader(folder: seq<DirEntry>)
    requires AsciiNames(folder) && Imported(folder).Ok?
    ensures
      var lib := Imported(folder).value;
      && ByteToString(lib.header.name) == Ok(PackMagic)
      && lib.header.unknown == Unknown
      && lib.header.unknown2 == Unknown2
      && |lib.header.numberOfFiles| == 8
      && IntFromBytes(lib.header.numberOfFiles) == Ok(|folder|)
      && |HeaderText(lib.header)| == HeaderWidth
      && |lib.files| == |folder|
  {
    AsciiConstants();
    ByteToStringOfStringToByte(PackMagic);
    IntFromBytesOfBytesFromInt(|folder|);
  }

  /** Track i of the loop's result is what one pass makes of file i at the
      running offset the earlier files leave. */
  lemma {:induction false} ImportedUpToAt(folder: seq<DirEntry>, i: nat, n: nat)
    requires i < n <= |folder| && AsciiNames(folder)
    requires ImportedUpTo(folder, n).Ok?
    ensures ImportedUpTo(folder, i).Ok?
    ensures
      var step := TrackFor(folder[i].name, folder[i].contents, ImportedUpTo(folder, i).value.1);
      step.Ok? && ImportedUpTo(folder, n).value.0[i] == step.value.0
    decreases n
  {
    if i < n - 1 {
      ImportedUpToAt(folder, i, n - 1);
    }
  }

  /** Track i of an import: it sits at the header size plus the bytes of the
      files before it, its length is its file's size, and the rest comes from
      its name and its payload. */
  lemma ImportedTrack(folder: seq<DirEntry>, i: nat)
    requires AsciiNames(folder) && Imported(folder).Ok? && i < |folder|
    ensures
      var t, e := Imported(folder).value.files[i], folder[i];
      && |t.offset| == 8 && IntFromBytes(t.offset) == Ok(HeaderBytes + TotalBytes(folder, i))
      && |t.length| == 8 && IntFromBytes(t.length) == Ok(|e.contents|)
      && t.hertz == Hexlify(e.contents[Min(40, |e.contents|)..Min(44, |e.contents|)])
      && (t.origin, t.meta) == Provenance(e.name)
      && |t.channels| == 8 && IntFromBytes(t.channels) == Ok(ChannelCount(e.contents))
      && t.fileNameStr == MusicDir + e.name
      && IsAscii(t.fileNameStr) && t.fileName == StringToByte(t.fileNameStr)
      && t.file == Hexlify(e.contents)
  {
    ImportedUpToAt(folder, i, |folder|);
    ImportedUpToOffset(folder, i);
    TrackForFields(folder[i].name, folder[i].contents, ImportedUpTo(folder, i).value.1);
  }

  /** The payload of every track is the hex of its file. */
  predicate PayloadsOf(folder: seq<DirEntry>, lib: Library) {
    |lib.files| == |folder| && forall i :: 0 <= i < |folder| ==> lib.files[i].file == Hexlify(folder[i].contents)
  }

  /** Every track records, as four-byte integers, the size of its file and
      where its payload starts: after the header and the files before it. */
  predicate OffsetsOf(folder: seq<DirEntry>, lib: Library) {
    && |lib.files| == |folder|
    && forall i :: 0 <= i < |folder| ==>
         && |lib.files[i].offset| == 8 && IntFromBytes(lib.files[i].offset) == Ok(HeaderBytes + TotalBytes(folder, i))
         && |lib.files[i].length| == 8 && IntFromBytes(lib.files[i].length) == Ok(|folder[i].contents|)
  }

  /** The other fields of track i: hertz bytes 40-43 and channels byte 37 of
      the payload, origin and meta by the Feral rule, and the path under the
      music directory. */
  predicate FieldsOf(folder: seq<DirEntry>, lib: Library) {
    && |lib.files| == |folder|
    && forall i :: 0 <= i < |folder| ==>
         var t, e := lib.files[i], folder[i];
         && t.hertz == Hexlify(e.contents[Min(40, |e.contents|)..Min(44, |e.contents|)])
         && (t.origin, t.meta) == Provenance(e.name)
         && |t.channels| == 8 && IntFromBytes(t.channels) == Ok(ChannelCount(e.contents))
         && t.fileNameStr == MusicDir + e.name
         && IsAscii(t.fileNameStr) && t.fileName == StringToByte(t.fileNameStr)
  }

  /** The header: the pack name, the fixed fields and the file count. */
  predicate HeaderOf(folder: seq<DirEntry>, lib: Library) {
    && ByteToString(lib.header.name) == Ok(PackMagic)
    && lib.header.unknown == Unknown
    && lib.header.unknown2 == Unknown2
    && |lib.header.numberOfFiles| == 8
    && IntFromBytes(lib.header.numberOfFiles) == Ok(|folder|)
    && |HeaderText(lib.header)| == HeaderWidth
  }

  /** The dictionary import_decoded_opus returns for folder, as a whole. */
  predicate ImportOf(folder: seq<DirEntry>, lib: Library) {
    HeaderOf(folder, lib) && PayloadsOf(folder, lib) && OffsetsOf(folder, lib) && FieldsOf(folder, lib)
  }

  /** A successful import is described by ImportOf. */
  lemma ImportedDescribed(folder: seq<DirEntry>)
    requires AsciiNames(folder) && Imported(folder).Ok?
    ensures ImportOf(folder, Imported(folder).value)
  {
    ImportedHeader(folder);
    ImportedPayloads(folder);
    ImportedOffsets(folder);
    ImportedFields(folder);
  }

  lemma ImportedPayloads(folder: seq<DirEntry>)
    requires AsciiNames(folder) && Imported(folder).Ok?
    ensures PayloadsOf(folder, Imported(folder).value)
  {
    forall i | 0 <= i < |folder| ensures Imported(folder).value.files[i].file == Hexlify(folder[i].contents) {
      ImportedTrack(folder, i);
    }
  }

  lemma ImportedOffsets(folder: seq<DirEntry>)
    requires AsciiNames(folder) && Imported(folder).Ok?
    ensures OffsetsOf(folder, Imported(folder).value)
  {
    var lib := Imported(folder).value;
    forall i | 0 <= i < |folder|
      ensures |lib.files[i].offset| == 8 && IntFromBytes(lib.files[i].offset) == Ok(HeaderBytes + TotalBytes(folder, i))
      ensures |lib.files[i].length| == 8 && IntFromBytes(lib.files[i].length) == Ok(|folder[i].contents|)
    {
      ImportedTrack(folder, i);
    }
  }

  lemma ImportedFields(folder: seq<DirEntry>)
    requires AsciiNames(folder) && Imported(folder).Ok?
    ensures FieldsOf(folder, Imported(folder).value)
  {
    var lib := Imported(folder).value;
    forall i | 0 <= i < |folder|
      ensures
        var t, e := lib.files[i], folder[i];
        && t.hertz == Hexlify(e.contents[Min(40, |e.contents|)..Min(44, |e.contents|)])
        && (t.origin, t.meta) == Provenance(e.name)
        && |t.channels| == 8 && IntFromBytes(t.channels) == Ok(ChannelCount(e.contents))
        && t.fileNameStr == MusicDir + e.name
        && IsAscii(t.fileNameStr) && t.fileName == StringToByte(t.fileNameStr)
    {
      ImportedTrack(folder, i);
    }
  }

  /** Each offset is the previous offset plus the previous length (line 196). */
  lemma OffsetsChain(folder: seq<DirEntry>, lib: Library, i: nat)
    requires OffsetsOf(folder, lib) && i + 1 < |folder|
    ensures IntFromBytes(lib.files[i + 1].offset).value
         == IntFromBytes(lib.files[i].offset).value + IntFromBytes(lib.files[i].length).value
  {
  }

  /** The payloads before track i fill twice as many hex digits as their files
      hold bytes. */
  lemma {:induction false} PayloadsBefore(folder: seq<DirEntry>, lib: Library, i: nat)
    requires PayloadsOf(folder, lib) && i <= |folder|
    ensures |PayloadsText(lib.files[..i])| == 2 * TotalBytes(folder, i)
  {
    if i > 0 {
      PayloadsBefore(folder, lib, i - 1);
      assert lib.files[..i] == lib.files[..i - 1] + [lib.files[i - 1]];
      PayloadsTextSnoc(lib.files[..i - 1], lib.files[i - 1]);
    }
  }

  /** The offset of track i, in bytes, is where its payload starts in the
      data file encode writes. */
  lemma PayloadAtOffset(folder: seq<DirEntry>, lib: Library, i: nat)
    requires |HeaderText(lib.header)| == HeaderWidth && PayloadsOf(folder, lib) && OffsetsOf(folder, lib)
    requires i < |folder|
    ensures
      var at, file := 2 * IntFromBytes(lib.files[i].offset).value, lib.files[i].file;
      at + |file| <= |DataText(lib)| && DataText(lib)[at..at + |file|] == file
  {
    PayloadsBefore(folder, lib, i);
    PayloadsTextAround(lib.files, i);
    var before, after := HeaderText(lib.header) + PayloadsText(lib.files[..i]), PayloadsText(lib.files[i + 1..]);
    assert DataText(lib) == before + lib.files[i].file + after;
    assert |before| == 2 * IntFromBytes(lib.files[i].offset).value;
    MiddleOfConcat(before, lib.files[i].file, after);
  }
}
