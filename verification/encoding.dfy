/** encode (codec_feral_music.py:126-145): both buffers start with the
    header; the loop grows the index by each track's fields, path and
    terminator, and the data by each track's payload. */
module Encoding {
  import opened Hex
  import opened Format

  method Encode(lib: Library) returns (idx: HexText, dat: HexText)
    ensures idx == IndexText(lib)
    ensures dat == DataText(lib)
  {
    var header := lib.header.name + lib.header.unknown + lib.header.numberOfFiles + lib.header.unknown2;
    idx := header;
    dat := header;
    for i := 0 to |lib.files|
      invariant idx == header + RecordsText(lib.files[..i])
      invariant dat == header + PayloadsText(lib.files[..i])
    {
      var f := lib.files[i];
      IndexGrows(header, lib.files, i);
      DataGrows(header, lib.files, i);
      idx := idx + f.offset;
      idx := idx + f.length;
      idx := idx + f.hertz;
      idx := idx + f.meta;
      idx := idx + f.channels;
      idx := idx + f.origin;
      idx := idx + f.fileName;
      idx := idx + IdxDelimiter;
      dat := dat + f.file;
    }
    assert lib.files[..|lib.files|] == lib.files;
  }

  /** One pass of the loop appends track i's record and terminator to the index. */
  lemma IndexGrows(header: HexText, files: seq<Track>, i: nat)
    requires i < |files|
    ensures
      var f, before := files[i], header + RecordsText(files[..i]);
      before + f.offset + f.length + f.hertz + f.meta + f.channels + f.origin + f.fileName + IdxDelimiter
      == header + RecordsText(files[..i + 1])
  {
    var f, before := files[i], header + RecordsText(files[..i]);
    assert files[..i + 1] == files[..i] + [f];
    RecordsTextSnoc(files[..i], f);
    RecordAppended(before, f);
  }

  /** One pass of the loop appends track i's payload to the data. */
  lemma DataGrows(header: HexText, files: seq<Track>, i: nat)
    requires i < |files|
    ensures header + PayloadsText(files[..i]) + files[i].file == header + PayloadsText(files[..i + 1])
  {
    assert files[..i + 1] == files[..i] + [files[i]];
    PayloadsTextSnoc(files[..i], files[i]);
  }

  /** Appending the fields one by one appends the record. */
  lemma RecordAppended(before: HexText, f: Track)
    ensures before + f.offset + f.length + f.hertz + f.meta + f.channels + f.origin + f.fileName
            == before + RecordText(f)
  {
    var rec := f.offset + f.length + f.hertz + f.meta + f.channels + f.origin;
    assert before + f.offset + f.length == before + (f.offset + f.length);
    assert before + f.offset + f.length + f.hertz == before + (f.offset + f.length + f.hertz);
    assert before + f.offset + f.length + f.hertz + f.meta == before + (f.offset + f.length + f.hertz + f.meta);
    assert before + f.offset + f.length + f.hertz + f.meta + f.channels
        == before + (f.offset + f.length + f.hertz + f.meta + f.channels);
    assert before + f.offset + f.length + f.hertz + f.meta + f.channels + f.origin == before + rec;
  }
}
