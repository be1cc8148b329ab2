/** The music container of codec_feral_music.py: an index file and a data
    file, both handled as hex text. Both start with the same 48-digit header
    (name, unknown, number_of_files, unknown2). The index then holds, per
    track, six 8-digit fields, the hex of the track's path and the terminator
    00ffffff; the data file holds the tracks' payloads one after another,
    each starting with the Ogg capture pattern of a beginning-of-stream page
    (section 6 of RFC 3533). */
module Format {
  import opened Hex

  /** dat_delimiter (line 209): "OggS", version 0, header type 0x02
      (beginning of stream), then eight zero bytes of granule position. */
  const DatDelimiter: HexText :=
    [0x4, 0xf, 0x6, 0x7, 0x6, 0x7, 0x5, 0x3,
     0x0, 0x0, 0x0, 0x2,
     0x0, 0x0, 0x0, 0x0, 0x0, 0x0, 0x0, 0x0, 0x0, 0x0, 0x0, 0x0, 0x0, 0x0, 0x0, 0x0]

  /** idx_delimiter (line 210): the bytes 00 ff ff ff that end a path. */
  const IdxDelimiter: HexText := [0x0, 0x0, 0xf, 0xf, 0xf, 0xf, 0xf, 0xf]

  /** Width, in hex digits, of the header shared by both files (24 bytes). */
  const HeaderWidth: nat := 48

  /** Width, in hex digits, of the six fixed fields of a track record. */
  const FieldsWidth: nat := 48

  // Header values written by import_decoded_opus (lines 156-163).
  const PackMagic: string := "SND.PACK"
  const Unknown: HexText := [0x0, 0x4, 0x0, 0x0, 0x0, 0x0, 0x0, 0x0]
  const Unknown2: HexText := [0x1, 0x8, 0x0, 0x0, 0x0, 0x0, 0x0, 0x0, 0x7, 0x1, 0xf, 0xf, 0x2, 0x3, 0x0, 0x4]

  /** The running offset starts at 0x18, the size of the header in bytes (line 166). */
  const FirstOffset: HexText := [0x1, 0x8, 0x0, 0x0, 0x0, 0x0, 0x0, 0x0]

  // Provenance tags (lines 172-177).
  const FeralMarker: string := "Feral"
  const OriginFeral: HexText := [0x0, 0x1, 0x0, 0x0, 0x0, 0x0, 0x0, 0x0]
  const MetaFeral: HexText := [0x0, 0x8, 0x0, 0x0, 0x0, 0x0, 0x0, 0x0]
  const OriginRtw: HexText := [0x0, 0xd, 0x0, 0x0, 0x0, 0x0, 0x0, 0x0]
  const MetaRtw: HexText := [0x0, 0x0, 0x0, 0x0, 0x0, 0x0, 0x0, 0x0]

  /** The virtual directory every imported track is placed in (line 180). */
  const MusicDir: string := "data/sounds/music/"

  /** The text constants are ASCII, so string_to_byte encodes them one
      byte per character. */
  lemma AsciiConstants()
    ensures IsAscii(PackMagic) && IsAscii(FeralMarker) && IsAscii(MusicDir)
  {
  }

  /** The path of an imported file inside the archive (line 180). */
  function MusicPath(name: string): (path: string)
    requires IsAscii(name)
    ensures IsAscii(path) && |path| == |MusicDir| + |name|
  {
    AsciiConstants();
    AsciiAppend(MusicDir, name);
    MusicDir + name
  }

  /** result['header']: every field is kept as hex text. */
  datatype Header = Header(name: HexText, unknown: HexText, numberOfFiles: HexText, unknown2: HexText)

  /** One entry of result['files']. */
  datatype Track = Track(
    offset: HexText,
    length: HexText,
    hertz: HexText,
    meta: HexText,
    channels: HexText,
    origin: HexText,
    fileName: HexText,     // hex of the path
    fileNameStr: string,   // the path as text
    file: HexText)         // the payload, starting with DatDelimiter

  /** The dictionary encode consumes and import_decoded_opus produces. */
  datatype Library = Library(header: Header, files: seq<Track>)

  /** The dictionary decode returns: a Library plus number_of_files_int. */
  datatype Decoded = Decoded(header: Header, numberOfFilesInt: nat, files: seq<Track>)

  /** The header as encode writes it at the start of both files (lines 127-130). */
  function HeaderText(h: Header): HexText {
    h.name + h.unknown + h.numberOfFiles + h.unknown2
  }

  /** One track record without its terminator (lines 135-141). */
  function RecordText(t: Track): HexText {
    t.offset + t.length + t.hertz + t.meta + t.channels + t.origin + t.fileName
  }

  /** The records, each followed by the terminator. */
  function RecordsText(files: seq<Track>): HexText {
    if files == [] then [] else RecordText(files[0]) + IdxDelimiter + RecordsText(files[1..])
  }

  /** The payloads, one after another. */
  function PayloadsText(files: seq<Track>): HexText {
    if files == [] then [] else files[0].file + PayloadsText(files[1..])
  }

  /** The index text encode returns. */
  function IndexText(lib: Library): HexText {
    HeaderText(lib.header) + RecordsText(lib.files)
  }

  /** The data text encode returns. */
  function DataText(lib: Library): HexText {
    HeaderText(lib.header) + PayloadsText(lib.files)
  }

  lemma {:induction false} RecordsTextSnoc(files: seq<Track>, t: Track)
    ensures RecordsText(files + [t]) == RecordsText(files) + RecordText(t) + IdxDelimiter
  {
    if files != [] {
      assert (files + [t])[1..] == files[1..] + [t];
      RecordsTextSnoc(files[1..], t);
    } else {
      assert RecordsText([t]) == RecordText(t) + IdxDelimiter + RecordsText([]);
    }
  }

  lemma {:induction false} PayloadsTextSnoc(files: seq<Track>, t: Track)
    ensures PayloadsText(files + [t]) == PayloadsText(files) + t.file
  {
    if files != [] {
      assert (files + [t])[1..] == files[1..] + [t];
      PayloadsTextSnoc(files[1..], t);
    } else {
      assert PayloadsText([t]) == t.file + PayloadsText([]);
    }
  }

  lemma {:induction false} PayloadsTextAppend(a: seq<Track>, b: seq<Track>)
    ensures PayloadsText(a + b) == PayloadsText(a) + PayloadsText(b)
  {
    if a != [] {
      assert (a + b)[1..] == a[1..] + b;
      PayloadsTextAppend(a[1..], b);
    } else {
      assert a + b == b;
    }
  }

  /** The data text around payload i: the payloads before it, then it. */
  lemma PayloadsTextAround(files: seq<Track>, i: nat)
    requires i < |files|
    ensures PayloadsText(files) == PayloadsText(files[..i]) + files[i].file + PayloadsText(files[i + 1..])
  {
    var rest := files[i..];
    assert files == files[..i] + rest;
    PayloadsTextAppend(files[..i], rest);
    assert rest[0] == files[i] && rest[1..] == files[i + 1..];
  }
}
