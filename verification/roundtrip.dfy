/** How decode, encode and import_decoded_opus fit together: decode undoes
    encode on archives whose parts cannot be mistaken for the separators,
    encode undoes decode on archives without stray segments, and what the
    import builds decodes back to itself. */
module RoundTrip {
  import opened Wrappers
  import opened Hex
  import opened PyBytes
  import opened Format
  import opened Decoding
  import opened Importing

  /** Neither separator overlaps itself, so occurrences never overlap. */
  lemma DelimitersUnbordered()
    ensures Unbordered(DatDelimiter) && Unbordered(IdxDelimiter)
  {
    var d, x := DatDelimiter, IdxDelimiter;
    forall m | 0 < m < |d| ensures d[m..] != d[..|d| - m] {
      assert d[m..][0] == d[m] != d[0] == d[..|d| - m][0];
    }
    forall m | 0 < m < |x| ensures x[m..] != x[..|x| - m] {
      if m == 1 {
        assert x[m..][1] != x[..|x| - m][1];
      } else {
        assert x[m..][0] != x[..|x| - m][0];
      }
    }
  }

  // -------------------------------------------------------------------------
  // The data text

  /** A payload without its leading signature. */
  function Rest(t: Track): HexText {
    Drop(t.file, |DatDelimiter|)
  }

  /** The data segments of the given payloads. */
  function Rests(files: seq<Track>): (r: seq<HexText>)
    ensures |r| == |files|
  {
    if files == [] then [] else [Rest(files[0])] + Rests(files[1..])
  }

  /** Every payload is the signature followed by a text free of it. */
  predicate PayloadsSeparable(files: seq<Track>) {
    forall i :: 0 <= i < |files| ==> DatDelimiter <= files[i].file && !Contains(Rest(files[i]), DatDelimiter)
  }

  lemma {:induction false} RestsAt(files: seq<Track>, i: nat)
    requires i < |files|
    ensures Rests(files)[i] == Rest(files[i])
  {
    if i > 0 {
      RestsAt(files[1..], i - 1);
      assert files[1..][i - 1] == files[i];
    }
  }

  lemma PayloadsSeparableTail(files: seq<Track>)
    requires files != [] && PayloadsSeparable(files)
    ensures PayloadsSeparable(files[1..])
  {
    forall i | 0 <= i < |files| - 1
      ensures DatDelimiter <= files[1..][i].file && !Contains(Rest(files[1..][i]), DatDelimiter)
    {
      assert files[1..][i] == files[i + 1];
    }
  }

  /** Splitting a signature-free prefix followed by the payloads. */
  lemma {:induction false} SplitPayloads(x: HexText, files: seq<Track>)
    requires !Contains(x, DatDelimiter) && PayloadsSeparable(files)
    ensures Split(x + PayloadsText(files), DatDelimiter) == [x] + Rests(files)
    decreases |files|
  {
    if files == [] {
      assert x + PayloadsText(files) == x;
      SplitWhole(x, DatDelimiter);
    } else {
      var f, rest := files[0], files[1..];
      var r, p := Rest(f), PayloadsText(rest);
      SignedHead(f);
      PayloadsSeparableTail(files);
      assert PayloadsText(files) == f.file + p;
      Regroup(x, DatDelimiter, r, p);
      SplitAfterSignature(x, r + p);
      SplitPayloads(r, rest);
    }
  }

  /** Splitting on the signature cuts a signature-free prefix off first. */
  lemma SplitAfterSignature(x: HexText, y: HexText)
    requires !Contains(x, DatDelimiter)
    ensures Split(x + DatDelimiter + y, DatDelimiter) == [x] + Split(y, DatDelimiter)
  {
    DelimitersUnbordered();
    SplitAfter(x, DatDelimiter, y);
  }

  /** Splitting on the terminator cuts a terminator-free prefix off first. */
  lemma SplitAfterTerminator(x: HexText, y: HexText)
    requires !Contains(x, IdxDelimiter)
    ensures Split(x + IdxDelimiter + y, IdxDelimiter) == [x] + Split(y, IdxDelimiter)
  {
    DelimitersUnbordered();
    SplitAfter(x, IdxDelimiter, y);
  }

  /** What the data text encode writes splits into. */
  lemma DataSegmentsOfDataText(lib: Library)
    requires !Contains(HeaderText(lib.header), DatDelimiter) && PayloadsSeparable(lib.files)
    ensures Split(DataText(lib), DatDelimiter) == [HeaderText(lib.header)] + Rests(lib.files)
    ensures DataSegments(DataText(lib)) == Rests(lib.files)
  {
    SplitPayloads(HeaderText(lib.header), lib.files);
  }

  // -------------------------------------------------------------------------
  // The index text

  /** The records of the given tracks, without terminators. */
  function Records(files: seq<Track>): (r: seq<HexText>)
    ensures |r| == |files|
  {
    if files == [] then [] else [RecordText(files[0])] + Records(files[1..])
  }

  lemma {:induction false} RecordsAt(files: seq<Track>, i: nat)
    requires i < |files|
    ensures Records(files)[i] == RecordText(files[i])
  {
    if i > 0 {
      RecordsAt(files[1..], i - 1);
      assert files[1..][i - 1] == files[i];
    }
  }

  /** No record holds the terminator. */
  predicate RecordsSeparable(files: seq<Track>) {
    forall i :: 0 <= i < |files| ==> !Contains(RecordText(files[i]), IdxDelimiter)
  }

  lemma RecordsSeparableTail(files: seq<Track>)
    requires files != [] && RecordsSeparable(files)
    ensures RecordsSeparable(files[1..])
  {
    forall i | 0 <= i < |files| - 1 ensures !Contains(RecordText(files[1..][i]), IdxDelimiter) {
      assert files[1..][i] == files[i + 1];
    }
  }

  /** The records with their terminators split back into the records, plus
      the empty text after the last terminator. */
  lemma {:induction false} SplitRecords(files: seq<Track>)
    requires RecordsSeparable(files)
    ensures Split(RecordsText(files), IdxDelimiter) == Records(files) + [[]]
  {
    if files == [] {
      assert !Contains(RecordsText(files), IdxDelimiter);
      SplitWhole(RecordsText(files), IdxDelimiter);
    } else {
      RecordsSeparableTail(files);
      SplitAfterTerminator(RecordText(files[0]), RecordsText(files[1..]));
      SplitRecords(files[1..]);
    }
  }

  /** What the index text encode writes splits into: the header glued to
      the first record, the other records, and the empty tail. */
  lemma IndexSegmentsOfIndexText(lib: Library)
    requires |lib.files| > 0
    requires !Contains(HeaderText(lib.header) + RecordText(lib.files[0]), IdxDelimiter)
    requires RecordsSeparable(lib.files[1..])
    ensures Split(IndexText(lib), IdxDelimiter)
         == [HeaderText(lib.header) + RecordText(lib.files[0])] + Records(lib.files[1..]) + [[]]
    ensures IndexSegments(IndexText(lib))
         == [HeaderText(lib.header) + RecordText(lib.files[0])] + Records(lib.files[1..])
  {
    var h, r, rest := HeaderText(lib.header), RecordText(lib.files[0]), RecordsText(lib.files[1..]);
    assert RecordsText(lib.files) == r + IdxDelimiter + rest;
    Regroup(h, r, IdxDelimiter, rest);
    SplitAfterTerminator(h + r, rest);
    SplitRecords(lib.files[1..]);
  }

  // -------------------------------------------------------------------------
  // decode undoes encode

  /** Header fields of the widths decode slices. */
  predicate HeaderShaped(h: Header) {
    |h.name| == 16 && |h.unknown| == 8 && |h.numberOfFiles| == 8 && |h.unknown2| == 16
  }

  /** A track decode can give back: six 8-digit fields, an ASCII path stored
      as its hex, and a payload that starts with the signature. */
  predicate TrackShaped(t: Track) {
    && |t.offset| == 8 && |t.length| == 8 && |t.hertz| == 8
    && |t.meta| == 8 && |t.channels| == 8 && |t.origin| == 8
    && IsAscii(t.fileNameStr) && t.fileName == StringToByte(t.fileNameStr)
    && DatDelimiter <= t.file
  }

  predicate Shaped(lib: Library) {
    HeaderShaped(lib.header) && forall i :: 0 <= i < |lib.files| ==> TrackShaped(lib.files[i])
  }

  /** No part of the archive can be mistaken for a separator: the header
      holds no signature, no payload holds one after its own, and neither the
      header with the first record nor any later record holds a terminator. */
  predicate Separable(lib: Library) {
    && !Contains(HeaderText(lib.header), DatDelimiter)
    && PayloadsSeparable(lib.files)
    && (|lib.files| > 0 ==> !Contains(HeaderText(lib.header) + RecordText(lib.files[0]), IdxDelimiter))
    && (|lib.files| > 0 ==> RecordsSeparable(lib.files[1..]))
  }

  /** decode slices a shaped header back off the first index segment. */
  lemma HeaderSlicedBack(h: Header, rec: HexText)
    requires HeaderShaped(h)
    ensures
      var first := HeaderText(h) + rec;
      && Header(Slice(first, 0, 16), Slice(first, 16, 24), Slice(first, 24, 32), Slice(first, 32, 48)) == h
      && Drop(first, HeaderWidth) == rec
  {
    var first := HeaderText(h) + rec;
    assert first == h.name + h.unknown + h.numberOfFiles + h.unknown2 + rec;
    assert first[0..16] == h.name;
    assert first[16..24] == h.unknown;
    assert first[24..32] == h.numberOfFiles;
    assert first[32..48] == h.unknown2;
    assert first[48..] == rec;
  }

  /** decode slices a shaped track back out of its record and payload. */
  lemma TrackSlicedBack(t: Track)
    requires TrackShaped(t)
    ensures TrackOf(Rest(t), RecordText(t)) == Ok(t)
  {
    var rec := RecordText(t);
    assert rec == t.offset + t.length + t.hertz + t.meta + t.channels + t.origin + t.fileName;
    assert rec[0..8] == t.offset;
    assert rec[8..16] == t.length;
    assert rec[16..24] == t.hertz;
    assert rec[24..32] == t.meta;
    assert rec[32..40] == t.channels;
    assert rec[40..48] == t.origin;
    assert rec[48..] == t.fileName;
    ByteToStringOfStringToByte(t.fileNameStr);
    assert DatDelimiter + Rest(t) == t.file;
  }

  /** The zip loop returns the given tracks when every pair decodes to its
      track. */
  lemma TracksUpToAllOk(dats: seq<HexText>, recs: seq<HexText>, files: seq<Track>)
    requires |files| <= |dats| && |files| <= |recs|
    requires forall i :: 0 <= i < |files| ==> TrackOf(dats[i], recs[i]) == Ok(files[i])
    ensures TracksUpTo(dats, recs, |files|) == Ok(files)
  {
    var n := |files|;
    TracksUpToOk(dats, recs, n);
    var got := TracksUpTo(dats, recs, n).value;
    forall i | 0 <= i < n ensures got[i] == files[i] {
      TracksUpToAt(dats, recs, n, i);
    }
    assert got == files;
  }

  /** Putting record 0 in place of the first index segment gives the records. */
  lemma RecordsReplaced(lib: Library, first: HexText)
    requires |lib.files| > 0
    ensures ([first] + Records(lib.files[1..]))[0 := RecordText(lib.files[0])] == Records(lib.files)
  {
    var files := lib.files;
    var recs := ([first] + Records(files[1..]))[0 := RecordText(files[0])];
    forall i | 0 <= i < |files| ensures recs[i] == Records(files)[i] {
      RecordsAt(files, i);
      if i > 0 {
        RecordsAt(files[1..], i - 1);
        assert files[1..][i - 1] == files[i];
      }
    }
  }

  /** Pair i of a shaped archive decodes to track i. */
  lemma PairDecodes(files: seq<Track>, i: nat)
    requires i < |files| && TrackShaped(files[i])
    ensures TrackOf(Rests(files)[i], Records(files)[i]) == Ok(files[i])
  {
    var t := files[i];
    RestsAt(files, i);
    RecordsAt(files, i);
    TrackSlicedBack(t);
  }

  /** Every pair of a shaped archive decodes to its own track. */
  lemma PairsDecode(files: seq<Track>)
    requires forall i :: 0 <= i < |files| ==> TrackShaped(files[i])
    ensures TracksUpTo(Rests(files), Records(files), |files|) == Ok(files)
  {
    forall i | 0 <= i < |files| ensures TrackOf(Rests(files)[i], Records(files)[i]) == Ok(files[i]) {
      PairDecodes(files, i);
    }
    TracksUpToAllOk(Rests(files), Records(files), files);
  }

  /** decode(encode(lib)) gives back the header and the tracks, with the
      track count read from the header, for every shaped and separable
      archive with at least one track. */
  lemma DecodeEncode(lib: Library)
    requires Shaped(lib) && Separable(lib) && |lib.files| > 0
    ensures Parsed(IndexText(lib), DataText(lib))
         == Ok(Decoded(lib.header, IntFromBytes(lib.header.numberOfFiles).value, lib.files))
  {
    var files := lib.files;
    DataSegmentsOfDataText(lib);
    IndexSegmentsOfIndexText(lib);
    var first := HeaderText(lib.header) + RecordText(files[0]);
    HeaderSlicedBack(lib.header, RecordText(files[0]));
    RecordsReplaced(lib, first);
    PairsDecode(files);
  }

  /** With no track the index holds no terminator, so decode raises
      IndexError (when the header itself holds none). */
  lemma DecodeEncodeEmpty(lib: Library)
    requires |lib.files| == 0 && !Contains(HeaderText(lib.header), IdxDelimiter)
    ensures Parsed(IndexText(lib), DataText(lib)) == Err(NoIndexRecord)
  {
    assert IndexText(lib) == HeaderText(lib.header);
    ParsedFails(IndexText(lib), DataText(lib));
  }

  /** No digit of the hex of SND.PACK is f. */
  lemma PackMagicHexFree()
    ensures IsAscii(PackMagic) && 0xf !in StringToByte(PackMagic)
  {
    AsciiConstants();
    AsciiBytesAt(PackMagic);
    var bs := AsciiBytes(PackMagic);
    forall j | 0 <= j < |bs| ensures bs[j] / 16 != 0xf && bs[j] % 16 != 0xf {
      assert PackMagic[j] in "SND.PACK";
    }
    HexlifyAvoids(bs, 0xf);
  }

  /** A count of 0 is written without an f digit. */
  lemma ZeroCountHexFree()
    ensures BytesFromInt(0).Ok? && 0xf !in BytesFromInt(0).value
  {
    var bs := LeBytes(0, 4);
    assert LeBytes(0, 1) == [0] + LeBytes(0, 0);
    assert bs == [0, 0, 0, 0];
    forall j | 0 <= j < |bs| ensures bs[j] / 16 != 0xf && bs[j] % 16 != 0xf {
      assert bs[j] in [0, 0, 0, 0];
    }
    HexlifyAvoids(bs, 0xf);
  }

  /** A header holds no terminator when neither its name nor its count has
      an f digit: a terminator needs six f digits in a row, and the only f
      digits of the fixed fields are the pair in the second one, followed
      by a 2. */
  lemma HeaderUnterminated(name: HexText, count: HexText)
    requires 0xf !in name && 0xf !in count
    ensures !Contains(name + Unknown + count + Unknown2, IdxDelimiter)
  {
    var a := name + Unknown + count;
    var p: HexText := [0x1, 0x8, 0x0, 0x0, 0x0, 0x0, 0x0, 0x0, 0x7, 0x1];
    var w: HexText := [0xf, 0xf, 0x2, 0x3, 0x0, 0x4];
    assert Unknown2 == p + w;
    assert a + (p + w) == a + p + w;
    NotAcross(a + p, w, IdxDelimiter, 0xf);
  }

  /** The header written for an empty folder holds no terminator. */
  lemma EmptyImportUnterminated(hd: Header)
    requires hd.name == StringToByte(PackMagic) && hd.unknown == Unknown && hd.unknown2 == Unknown2
    requires hd.numberOfFiles == BytesFromInt(0).value
    ensures !Contains(HeaderText(hd), IdxDelimiter)
  {
    PackMagicHexFree();
    ZeroCountHexFree();
    HeaderUnterminated(hd.name, hd.numberOfFiles);
  }

  /** Importing an empty folder succeeds, and decode rejects the archive
      encode writes for it with IndexError. */
  lemma EmptyImportRejected()
    ensures Imported([]).Ok?
    ensures
      var lib := Imported([]).value;
      Parsed(IndexText(lib), DataText(lib)) == Err(NoIndexRecord)
  {
    var lib := Imported([]).value;
    EmptyImportUnterminated(lib.header);
    DecodeEncodeEmpty(lib);
  }

  // -------------------------------------------------------------------------
  // encode undoes decode

  /** The records joined by the terminator, with an empty tail, are the
      records each followed by the terminator. */
  lemma {:induction false} JoinRecords(files: seq<Track>)
    ensures Join(Records(files) + [[]], IdxDelimiter) == RecordsText(files)
  {
    if files != [] {
      JoinRecords(files[1..]);
      assert Records(files) + [[]] == [RecordText(files[0])] + (Records(files[1..]) + [[]]);
      JoinCons(RecordText(files[0]), Records(files[1..]) + [[]], IdxDelimiter);
    }
  }

  /** Every payload starts with the signature. */
  predicate Signed(files: seq<Track>) {
    forall i :: 0 <= i < |files| ==> DatDelimiter <= files[i].file
  }

  lemma SignedTail(files: seq<Track>)
    requires files != [] && Signed(files)
    ensures Signed(files[1..])
  {
    forall i | 0 <= i < |files| - 1 ensures DatDelimiter <= files[1..][i].file {
      assert files[1..][i] == files[i + 1];
    }
  }

  /** A prefix and the data segments joined by the signature are the prefix
      followed by the payloads, when every payload starts with the signature. */
  lemma {:induction false} JoinPayloads(x: HexText, files: seq<Track>)
    requires Signed(files)
    ensures Join([x] + Rests(files), DatDelimiter) == x + PayloadsText(files)
    decreases |files|
  {
    if files == [] {
      assert [x] + Rests(files) == [x];
    } else {
      var f, rest := files[0], files[1..];
      var r := Rest(f);
      SignedHead(f);
      SignedTail(files);
      JoinPayloads(r, rest);
      var tail := [r] + Rests(rest);
      assert [x] + Rests(files) == [x] + tail;
      JoinCons(x, tail, DatDelimiter);
      var p := PayloadsText(rest);
      assert PayloadsText(files) == f.file + p;
      Regroup(x, DatDelimiter, r, p);
    }
  }

  /** A signed payload is the signature followed by its data segment. */
  lemma SignedHead(t: Track)
    requires DatDelimiter <= t.file
    ensures t.file == DatDelimiter + Rest(t)
  {
  }

  /** Index segments laid out as encode lays them out. */
  lemma IndexSegmentsAre(segs: seq<HexText>, h: HexText, files: seq<Track>)
    requires |files| > 0 && |segs| == |files| + 1
    requires segs[0] == h + RecordText(files[0]) && segs[|files|] == []
    requires forall i :: 0 < i < |files| ==> segs[i] == RecordText(files[i])
    ensures segs == [h + RecordText(files[0])] + Records(files[1..]) + [[]]
  {
    var want := [h + RecordText(files[0])] + Records(files[1..]) + [[]];
    forall i | 0 < i < |files| ensures segs[i] == want[i] {
      RecordsAt(files[1..], i - 1);
      assert files[1..][i - 1] == files[i];
    }
  }

  /** Data segments laid out as encode lays them out. */
  lemma DataSegmentsAre(segs: seq<HexText>, h: HexText, files: seq<Track>)
    requires |segs| == |files| + 1 && segs[0] == h
    requires forall i :: 0 <= i < |files| ==> files[i].file == DatDelimiter + segs[i + 1]
    ensures Signed(files) && segs == [h] + Rests(files)
  {
    forall i | 0 <= i < |files| ensures DatDelimiter <= files[i].file && Rests(files)[i] == segs[i + 1] {
      RestsAt(files, i);
      PrefixThen(DatDelimiter, segs[i + 1]);
    }
    HeadThen(segs, h, Rests(files));
  }

  /** The index segments of a decoded archive: the header glued to record 0,
      then the later records, then what follows the last terminator. */
  lemma IndexSplitOfParsed(idx: HexText, dat: HexText)
    requires Parsed(idx, dat).Ok?
    requires |Split(idx, IdxDelimiter)| == |Split(dat, DatDelimiter)|
    requires Split(idx, IdxDelimiter)[|Split(idx, IdxDelimiter)| - 1] == []
    ensures
      var d := Parsed(idx, dat).value;
      && |d.files| > 0
      && Split(idx, IdxDelimiter)
         == [HeaderText(d.header) + RecordText(d.files[0])] + Records(d.files[1..]) + [[]]
  {
    var d := Parsed(idx, dat).value;
    ParsedCount(idx, dat);
    ParsedFirstRecord(idx, dat);
    forall i | 0 < i < |d.files| ensures Split(idx, IdxDelimiter)[i] == RecordText(d.files[i]) {
      ParsedLaterRecord(idx, dat, i);
    }
    IndexSegmentsAre(Split(idx, IdxDelimiter), HeaderText(d.header), d.files);
  }

  /** The data segments of a decoded archive: the header, then each payload
      without its signature. */
  lemma DataSplitOfParsed(idx: HexText, dat: HexText)
    requires Parsed(idx, dat).Ok?
    requires |Split(idx, IdxDelimiter)| == |Split(dat, DatDelimiter)|
    requires Split(dat, DatDelimiter)[0] == HeaderText(Parsed(idx, dat).value.header)
    ensures
      var d := Parsed(idx, dat).value;
      Signed(d.files) && Split(dat, DatDelimiter) == [HeaderText(d.header)] + Rests(d.files)
  {
    var d := Parsed(idx, dat).value;
    var segs := Split(dat, DatDelimiter);
    ParsedCount(idx, dat);
    forall i | 0 <= i < |d.files| ensures d.files[i].file == DatDelimiter + segs[i + 1] {
      ParsedTracks(idx, dat, i);
    }
    DataSegmentsAre(segs, HeaderText(d.header), d.files);
  }

  /** The index text encode writes is its segments joined by the terminator. */
  lemma IndexTextJoined(h: Header, files: seq<Track>)
    requires |files| > 0
    ensures Join([HeaderText(h) + RecordText(files[0])] + Records(files[1..]) + [[]], IdxDelimiter)
         == IndexText(Library(h, files))
  {
    var first := HeaderText(h) + RecordText(files[0]);
    JoinRecords(files[1..]);
    assert [first] + Records(files[1..]) + [[]] == [first] + (Records(files[1..]) + [[]]);
    JoinCons(first, Records(files[1..]) + [[]], IdxDelimiter);
    assert RecordsText(files) == RecordText(files[0]) + IdxDelimiter + RecordsText(files[1..]);
    Regroup(HeaderText(h), RecordText(files[0]), IdxDelimiter, RecordsText(files[1..]));
  }

  /** encode(decode(idx, dat)) == (idx, dat) for an archive without stray
      segments: as many index segments as data segments (so zip drops
      nothing), nothing after the last terminator, and a data file that starts
      with the index file's header. */
  lemma EncodeDecode(idx: HexText, dat: HexText)
    requires Parsed(idx, dat).Ok?
    requires |Split(idx, IdxDelimiter)| == |Split(dat, DatDelimiter)|
    requires Split(idx, IdxDelimiter)[|Split(idx, IdxDelimiter)| - 1] == []
    requires Split(dat, DatDelimiter)[0] == HeaderText(Parsed(idx, dat).value.header)
    ensures
      var d := Parsed(idx, dat).value;
      IndexText(Library(d.header, d.files)) == idx && DataText(Library(d.header, d.files)) == dat
  {
    var d := Parsed(idx, dat).value;
    IndexSplitOfParsed(idx, dat);
    JoinSplit(idx, IdxDelimiter);
    IndexTextJoined(d.header, d.files);
    DataSplitOfParsed(idx, dat);
    JoinSplit(dat, DatDelimiter);
    JoinPayloads(HeaderText(d.header), d.files);
  }

  // -------------------------------------------------------------------------
  // What the import builds decodes back to itself

  /** Files the import turns into tracks decode can slice back: at least the
      44 bytes that reach the sample rate, starting with the signature. */
  predicate OpusFiles(folder: seq<DirEntry>) {
    forall i :: 0 <= i < |folder| ==>
      |folder[i].contents| >= 44 && DatDelimiter <= Hexlify(folder[i].contents)
  }

  /** The header the import writes has the widths decode slices. */
  lemma ImportHeaderShaped(folder: seq<DirEntry>, lib: Library)
    requires HeaderOf(folder, lib)
    ensures HeaderShaped(lib.header)
  {
    AsciiConstants();
    assert |lib.header.name| == |StringToByte(PackMagic)|;
  }

  /** A track the import makes from a file of at least 44 bytes that starts
      with the signature is shaped. */
  lemma ImportTrackShaped(e: DirEntry, t: Track)
    requires |e.contents| >= 44 && DatDelimiter <= Hexlify(e.contents)
    requires t.file == Hexlify(e.contents)
    requires t.hertz == Hexlify(e.contents[Min(40, |e.contents|)..Min(44, |e.contents|)])
    requires |t.offset| == 8 && |t.length| == 8 && |t.channels| == 8
    requires (t.origin, t.meta) == Provenance(e.name)
    requires IsAscii(t.fileNameStr) && t.fileName == StringToByte(t.fileNameStr)
    ensures TrackShaped(t)
  {
  }

  /** The dictionary the import builds from such files is shaped. */
  lemma ImportShaped(folder: seq<DirEntry>, lib: Library)
    requires ImportOf(folder, lib) && OpusFiles(folder)
    ensures Shaped(lib)
  {
    ImportHeaderShaped(folder, lib);
    forall i | 0 <= i < |lib.files| ensures TrackShaped(lib.files[i]) {
      ImportTrackShaped(folder[i], lib.files[i]);
    }
  }

  /** decode gives back what import_decoded_opus built, with the file count
      as number_of_files_int, for a non-empty folder of such files whose
      archive is separable. */
  lemma ImportDecodes(folder: seq<DirEntry>)
    requires AsciiNames(folder) && Imported(folder).Ok?
    requires |folder| > 0 && OpusFiles(folder) && Separable(Imported(folder).value)
    ensures
      var lib := Imported(folder).value;
      Parsed(IndexText(lib), DataText(lib)) == Ok(Decoded(lib.header, |folder|, lib.files))
  {
    var lib := Imported(folder).value;
    ImportedDescribed(folder);
    ImportShaped(folder, lib);
    DecodeEncode(lib);
  }
}
