/** decode (codec_feral_music.py:80-124), from the two hex texts on: split the
    data text on the payload signature and the index text on the
    terminator, slice the header off the first index segment, then pair the
    segments positionally (zip) and slice each record's fields. Nothing is
    validated: zip drops the unmatched segments of the longer list, short
    segments give short fields, and only what Python itself refuses fails. */
module Decoding {
  import opened Wrappers
  import opened Hex
  import opened PyBytes
  import opened Format

  /** One entry of result['files'] (lines 108-123), from the data segment
      that followed a signature and the index segment of its record. */
  function TrackOf(datSegment: HexText, rec: HexText): (r: Result<Track, CodecError>)
    ensures r.Err? ==> r.error == OddLengthHex || r.error == NonAsciiText
  {
    var fileName := Drop(rec, FieldsWidth);
    match ByteToString(fileName)
    case Err(e) => Err(e)
    case Ok(path) =>
      Ok(Track(Slice(rec, 0, 8), Slice(rec, 8, 16), Slice(rec, 16, 24), Slice(rec, 24, 32),
               Slice(rec, 32, 40), Slice(rec, 40, 48), fileName, path, DatDelimiter + datSegment))
  }

  /** Slicing a record loses nothing: the fields and the path put back
      together are the index segment, the payload is the data segment behind
      its signature, and the path text is the decoded path hex. Only a path
      that is not ASCII hex fails. */
  lemma TrackOfLossless(datSegment: HexText, rec: HexText)
    ensures TrackOf(datSegment, rec).Ok? <==> ByteToString(Drop(rec, FieldsWidth)).Ok?
    ensures TrackOf(datSegment, rec).Ok? ==>
      var t := TrackOf(datSegment, rec).value;
      && RecordText(t) == rec
      && t.file == DatDelimiter + datSegment
      && ByteToString(t.fileName) == Ok(t.fileNameStr)
  {
    if TrackOf(datSegment, rec).Ok? {
      var t := TrackOf(datSegment, rec).value;
      assert RecordText(t) == rec;
    }
  }

  /** The zip loop over the first n pairs: the first failing pair ends it. */
  function TracksUpTo(dats: seq<HexText>, recs: seq<HexText>, n: nat): (r: Result<seq<Track>, CodecError>)
    requires n <= |dats| && n <= |recs|
    ensures r.Err? ==> r.error == OddLengthHex || r.error == NonAsciiText
    ensures r.Ok? ==> |r.value| == n
  {
    if n == 0 then
      Ok([])
    else
      match TracksUpTo(dats, recs, n - 1)
      case Err(e) => Err(e)
      case Ok(files) =>
        match TrackOf(dats[n - 1], recs[n - 1])
        case Err(e) => Err(e)
        case Ok(t) => Ok(files + [t])
  }

  /** The loop succeeds exactly when every pair decodes. */
  lemma {:induction false} TracksUpToOk(dats: seq<HexText>, recs: seq<HexText>, n: nat)
    requires n <= |dats| && n <= |recs|
    ensures TracksUpTo(dats, recs, n).Ok? <==> forall i :: 0 <= i < n ==> TrackOf(dats[i], recs[i]).Ok?
  {
    if n > 0 {
      TracksUpToOk(dats, recs, n - 1);
    }
  }

  /** On success, the i-th track is what the i-th pair decodes to. */
  lemma {:induction false} TracksUpToAt(dats: seq<HexText>, recs: seq<HexText>, n: nat, i: nat)
    requires i < n <= |dats| && n <= |recs|
    requires TracksUpTo(dats, recs, n).Ok?
    ensures TrackOf(dats[i], recs[i]) == Ok(TracksUpTo(dats, recs, n).value[i])
  {
    var files := TracksUpTo(dats, recs, n - 1).value;
    assert TracksUpTo(dats, recs, n).value == files + [TrackOf(dats[n - 1], recs[n - 1]).value];
    if i < n - 1 {
      TracksUpToAt(dats, recs, n - 1, i);
    }
  }

  /** Once a pair has failed, every longer run of the loop fails the same way. */
  lemma {:induction false} TracksUpToFailure(dats: seq<HexText>, recs: seq<HexText>, k: nat, n: nat)
    requires k <= n <= |dats| && n <= |recs|
    requires TracksUpTo(dats, recs, k).Err?
    ensures TracksUpTo(dats, recs, n) == TracksUpTo(dats, recs, k)
    decreases n
  {
    if n > k {
      TracksUpToFailure(dats, recs, k, n - 1);
    }
  }

  /** The data segments decode pairs with records: those after the first
      signature. */
  function DataSegments(datHex: HexText): seq<HexText> {
    Split(datHex, DatDelimiter)[1..]
  }

  /** The index segments before the last terminator. */
  function IndexSegments(idxHex: HexText): seq<HexText> {
    var segments := Split(idxHex, IdxDelimiter);
    segments[..|segments| - 1]
  }

  /** The result of decode on the index and data hex texts. */
  function Parsed(idxHex: HexText, datHex: HexText): (r: Result<Decoded, CodecError>) {
    var dats := DataSegments(datHex);
    var names := IndexSegments(idxHex);
    if names == [] then
      Err(NoIndexRecord)
    else
      var first := names[0];
      match IntFromBytes(Slice(first, 24, 32))
      case Err(e) => Err(e)
      case Ok(count) =>
        var header := Header(Slice(first, 0, 16), Slice(first, 16, 24), Slice(first, 24, 32), Slice(first, 32, 48));
        var recs := names[0 := Drop(first, HeaderWidth)];
        match TracksUpTo(dats, recs, Min(|dats|, |recs|))
        case Err(e) => Err(e)
        case Ok(files) => Ok(Decoded(header, count, files))
  }

  /** decode fails with IndexError exactly when the index text holds no
      terminator; every other failure is a malformed hex field or path. */
  lemma ParsedFails(idxHex: HexText, datHex: HexText)
    ensures Parsed(idxHex, datHex) == Err(NoIndexRecord) <==> !Contains(idxHex, IdxDelimiter)
    ensures Parsed(idxHex, datHex).Err? ==>
      var e := Parsed(idxHex, datHex).error;
      e == NoIndexRecord || e == OddLengthHex || e == NonAsciiText
  {
    SplitParts(idxHex, IdxDelimiter);
  }

  /** On success there is one track per pair zip forms (the shorter list
      wins), and number_of_files_int is the little-endian value of the stored
      count. */
  lemma ParsedCount(idxHex: HexText, datHex: HexText)
    requires Parsed(idxHex, datHex).Ok?
    ensures
      var d := Parsed(idxHex, datHex).value;
      && |d.files| == Min(|Split(datHex, DatDelimiter)| - 1, |Split(idxHex, IdxDelimiter)| - 1)
      && IntFromBytes(d.header.numberOfFiles) == Ok(d.numberOfFilesInt)
  {
  }

  /** On success every payload starts with the signature, and the path text
      of each track is the decoded hex of its path. */
  lemma ParsedTracks(idxHex: HexText, datHex: HexText, i: nat)
    requires Parsed(idxHex, datHex).Ok?
    requires i < |Parsed(idxHex, datHex).value.files|
    ensures
      var t := Parsed(idxHex, datHex).value.files[i];
      && t.file == DatDelimiter + DataSegments(datHex)[i]
      && ByteToString(t.fileName) == Ok(t.fileNameStr)
  {
    var dats, names := DataSegments(datHex), IndexSegments(idxHex);
    var recs := names[0 := Drop(names[0], HeaderWidth)];
    var n := Min(|dats|, |recs|);
    TracksUpToAt(dats, recs, n, i);
    TrackOfLossless(dats[i], recs[i]);
  }

  /** The header fields and the rest of the first index segment put back
      together give the segment. */
  lemma HeaderSlicesLossless(first: HexText)
    ensures Slice(first, 0, 16) + Slice(first, 16, 24) + Slice(first, 24, 32) + Slice(first, 32, 48)
            + Drop(first, HeaderWidth) == first
  {
    SliceSplice(first, 32, 48, 48);
    SliceSplice(first, 24, 32, 48);
    SliceSplice(first, 16, 24, 48);
    SliceSplice(first, 0, 16, 48);
  }

  /** Slicing loses nothing: the header followed by record 0 is the first
      index segment. */
  lemma ParsedFirstRecord(idxHex: HexText, datHex: HexText)
    requires Parsed(idxHex, datHex).Ok?
    requires |Parsed(idxHex, datHex).value.files| > 0
    ensures
      var d := Parsed(idxHex, datHex).value;
      HeaderText(d.header) + RecordText(d.files[0]) == Split(idxHex, IdxDelimiter)[0]
  {
    var dats, names := DataSegments(datHex), IndexSegments(idxHex);
    var first := names[0];
    var recs := names[0 := Drop(first, HeaderWidth)];
    TracksUpToAt(dats, recs, Min(|dats|, |recs|), 0);
    TrackOfLossless(dats[0], recs[0]);
    HeaderSlicesLossless(first);
  }

  /** Every later record is its own index segment. */
  lemma ParsedLaterRecord(idxHex: HexText, datHex: HexText, i: nat)
    requires Parsed(idxHex, datHex).Ok?
    requires 0 < i < |Parsed(idxHex, datHex).value.files|
    ensures RecordText(Parsed(idxHex, datHex).value.files[i]) == Split(idxHex, IdxDelimiter)[i]
  {
    var dats, names := DataSegments(datHex), IndexSegments(idxHex);
    var recs := names[0 := Drop(names[0], HeaderWidth)];
    TracksUpToAt(dats, recs, Min(|dats|, |recs|), i);
    TrackOfLossless(dats[i], recs[i]);
  }

  /** decode, on the hex texts binascii.hexlify made of the two files. */
  method Decode(idxHex: HexText, datHex: HexText) returns (r: Result<Decoded, CodecError>)
    ensures r == Parsed(idxHex, datHex)
  {
    var datFiles := DataSegments(datHex);
    var idxFileNames := IndexSegments(idxHex);
    if |idxFileNames| == 0 {
      return Err(NoIndexRecord);
    }
    var first := idxFileNames[0];
    var count := IntFromBytes(Slice(first, 24, 32));
    if count.Err? {
      return Err(count.error);
    }
    var header := Header(Slice(first, 0, 16), Slice(first, 16, 24), Slice(first, 24, 32), Slice(first, 32, 48));
    idxFileNames := idxFileNames[0 := Drop(first, HeaderWidth)];
    var n := Min(|datFiles|, |idxFileNames|);
    var files: seq<Track> := [];
    for i := 0 to n
      invariant TracksUpTo(datFiles, idxFileNames, i) == Ok(files)
    {
      var t := TrackOf(datFiles[i], idxFileNames[i]);
      if t.Err? {
        TracksUpToFailure(datFiles, idxFileNames, i + 1, n);
        assert TracksUpTo(datFiles, idxFileNames, n) == Err(t.error);
        return Err(t.error);
      }
      files := files + [t.value];
    }
    r := Ok(Decoded(header, count.value, files));
  }
}
