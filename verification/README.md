# Feral music codec, modelled in Dafny

`codec_feral_music.py` reads and rebuilds the music container of Rome: Total
War Remastered. The container is two files. `music.idx.feral` is the index:
a 24-byte header, then one record per track. A record holds six 4-byte
little-endian fields (offset, length, hertz, meta, channels, origin), the
track's path and the terminator `00 ff ff ff`. `music.dat.feral` is the data
file: the same header, then the Ogg Opus payloads one after another. Each
payload starts with the Ogg capture pattern of a beginning-of-stream page
(section 6 of RFC 3533). The script works on the text `binascii.hexlify`
makes of the files, so every offset it slices at counts hex digits, two per
byte.

The model follows the script's three parts:

- `Hex` holds the helpers `byte_to_string`, `string_to_byte`,
  `int_from_bytes` and `bytes_from_int`, over hex text. Hex text is a
  sequence of nibbles. Every exception the script can raise becomes a
  `CodecError` in a `Result`: odd-length hex, non-ASCII text, no index
  record, or an integer too wide for four bytes.
- `PyBytes` holds the Python behaviour the script relies on:
  - clamped slices;
  - `in`, both as a scan and as an existential;
  - `bytes.split`, with `IndexOf`, the search for the leftmost separator
    that `split` performs. The script calls neither `find` nor `join`;
    `Join` is the inverse of `split`, used to state `JoinSplit`.
- `Format` holds the container layout: the two separators and the header
  constants, the `Track`, `Header` and `Library` records, and the texts
  `encode` writes (`IndexText`, `DataText`).
- `Encoding.Encode` is the `encode` loop, proved to write `IndexText` and
  `DataText`.
- `Decoding.Decode` is the `decode` loop, proved to compute `Parsed`. It
  splits on the two separators, slices the header and the record fields,
  and pairs segments with `zip`. Lemmas state what `decode` returns and when
  it fails.
- `Importing.ImportDecodedOpus` is the `import_decoded_opus` loop, proved to
  compute `Imported`. Lemmas prove:
  - the fixed header;
  - that each offset is the header size plus the bytes of the files before
    it, so each offset is the previous one plus the previous length;
  - that the payload sits at that offset in the data file;
  - the Feral provenance rule and the music path;
  - that hertz is payload bytes 40-43 and channels is payload byte 37;
  - exactly when the import raises `OverflowError`.
- `RoundTrip` proves three theorems:
  - `decode(encode(lib))` gives `lib` back (`DecodeEncode`). This holds for
    archives with at least one track whose fields have the widths `decode`
    slices and in which neither separator occurs outside its own places.
  - `encode(decode(idx, dat))` gives `(idx, dat)` back (`EncodeDecode`).
    This holds for archives with no stray segments, in which the data's
    text before the first signature is exactly the index's header.
  - What the import builds decodes back to itself (`ImportDecodes`).

  With no tracks the index is the header alone. When the header holds no
  terminator, `decode` raises `IndexError` on what `encode` writes
  (`DecodeEncodeEmpty`). The header the import writes for an empty folder
  holds none, so importing an empty folder succeeds but `decode` rejects
  the archive written for it (`EmptyImportRejected`).

The model keeps what the code does where it is looser than the format
would suggest:

- Channels is read as one byte: `[74:76]` is two hex digits, byte 37 of the
  payload (the channel count of the Opus identification header, section 5.1
  of RFC 7845). It is not a two-byte field.
- A payload shorter than 44 bytes is not an error. Hertz comes out short or
  empty, and channels comes out 0 when byte 37 is missing.
- An empty folder is not an error. It gives a header-only archive, which
  `decode` then rejects with `IndexError` (`EmptyImportRejected`).

## Model

| member | source | states |
|---|---|---|
| Hex.Hexlify | codec_feral_music.py:72 | hexlify writes two hex digits per byte |
| Hex.HexlifyDigits | codec_feral_music.py:72 | byte i becomes digit 2i (high nibble) and digit 2i+1 (low nibble) |
| Hex.Unhexlify | codec_feral_music.py:75 | unhexlify fails only on an odd number of digits, and what it returns hexlifies back to its input |
| Hex.UnhexlifyHexlify | codec_feral_music.py:75 | unhexlify undoes hexlify |
| Hex.HexlifyInjective | codec_feral_music.py:72 | hexlify is injective |
| Hex.HexlifySlice | codec_feral_music.py:186 | a hex slice on byte boundaries is the hex of the byte slice |
| Hex.LittleEndianOfLeBytes | codec_feral_music.py:78 | the little-endian value of the n-byte little-endian form of i < 256^n is i |
| Hex.IntFromBytes | codec_feral_music.py:74-75 | int_from_bytes fails exactly on an odd number of digits, with the unhexlify error |
| Hex.IntFromBytesUnhexlify | codec_feral_music.py:74-75 | int_from_bytes is unhexlify followed by the little-endian reading |
| Hex.IntFromBytesBound | codec_feral_music.py:74-75 | n bytes read as a value below 256^n |
| Hex.BytesFromInt | codec_feral_music.py:77-78 | bytes_from_int succeeds exactly below 2^32 (OverflowError otherwise) and then writes 8 hex digits |
| Hex.PairsAt | codec_feral_music.py:69 | byte i of even-length hex is digit 2i times 16 plus digit 2i+1 |
| Hex.AsciiBytesAt | codec_feral_music.py:72 | byte i of the encoding of ASCII text is the code of character i |
| Hex.HexlifyAvoids | codec_feral_music.py:72 | a digit that is neither nibble of any byte does not occur in the hex |
| Hex.IntFromBytesOfBytesFromInt | codec_feral_music.py:74-78 | int_from_bytes(bytes_from_int(i)) == i for 0 <= i < 2^32 |
| Hex.AsciiDecode | codec_feral_music.py:69 | decode('ASCII') succeeds exactly when every byte is below 0x80, and otherwise refuses with the ASCII error; its result is ASCII text whose bytes are the input |
| Hex.AsciiDecodeBytes | codec_feral_music.py:69 | decoding the bytes of ASCII text gives the text back |
| Hex.StringToByte | codec_feral_music.py:71-72 | string_to_byte writes two digits per character |
| Hex.ByteToString | codec_feral_music.py:68-69 | byte_to_string succeeds exactly when the hex has even length and every byte it spells is below 0x80; it fails only with those two errors, and its result encodes back to its input |
| Hex.ByteToStringOfStringToByte | codec_feral_music.py:68-72 | byte_to_string(string_to_byte(s)) == s for ASCII s |
| PyBytes.Slice | codec_feral_music.py:97-101 | a slice clamps both bounds to the length; within the text it is the plain subsequence |
| PyBytes.Drop | codec_feral_music.py:105 | s[lo:] is the suffix, or empty past the end |
| PyBytes.SliceSplice | codec_feral_music.py:97-105 | adjacent clamped slices join up |
| PyBytes.InContains | codec_feral_music.py:172 | the left-to-right scan of `in` holds exactly when the text occurs somewhere |
| PyBytes.IndexOf | codec_feral_music.py:92-93 | the search bytes.split performs returns the first position the separator occurs at, and nothing exactly when it occurs nowhere |
| PyBytes.Split | codec_feral_music.py:92-93 | split returns at least one part |
| PyBytes.SplitParts | codec_feral_music.py:92-93 | no part of a split holds the separator, and there is one part exactly when the text holds none |
| PyBytes.JoinSplit | codec_feral_music.py:92-93 | joining the parts with the separator gives the text back |
| PyBytes.IndexOfAfter | codec_feral_music.py:92-93 | in x + d + y with x free of an unbordered d, the first d is the one after x |
| PyBytes.SplitAfter | codec_feral_music.py:92-93 | splitting x + d + y cuts x off first when x holds no d |
| PyBytes.SplitWhole | codec_feral_music.py:92-93 | a text without the separator splits into itself |
| Format.DatDelimiter | codec_feral_music.py:209 | dat_delimiter: the 14 bytes 4f 67 67 53 00 02 and eight zero bytes, the start of a beginning-of-stream Ogg page; DelimitersUnbordered proves it does not overlap itself |
| Format.IdxDelimiter | codec_feral_music.py:210 | idx_delimiter: the bytes 00 ff ff ff that end each index record; DelimitersUnbordered proves it does not overlap itself |
| Format.HeaderText | codec_feral_music.py:127-130 | the header encode writes: name, unknown, number_of_files and unknown2 one after another; HeaderSlicedBack shows decode's slices take it apart |
| Format.RecordText | codec_feral_music.py:135-141 | one index record: offset, length, hertz, meta, channels, origin and file_name one after another; TrackSlicedBack shows decode's slices take it apart |
| Format.IndexText | codec_feral_music.py:132-142 | the index encode returns: the header, then every record followed by idx_delimiter; Encoding.Encode is proved to compute it |
| Format.DataText | codec_feral_music.py:132-143 | the data encode returns: the header, then every track's file; Encoding.Encode is proved to compute it |
| Format.MusicPath | codec_feral_music.py:180 | the path of an ASCII name is ASCII and as long as the music directory and the name together |
| Format.RecordsTextSnoc | codec_feral_music.py:134-142 | one more track appends its record and a terminator to the index |
| Format.PayloadsTextSnoc | codec_feral_music.py:143 | one more track appends its payload to the data |
| Format.PayloadsTextAround | codec_feral_music.py:143 | the data holds the payloads before track i, then track i's payload, then the rest |
| Encoding.Encode | codec_feral_music.py:126-145 | encode returns the header followed by each record and terminator, and the header followed by each payload |
| Encoding.IndexGrows | codec_feral_music.py:135-142 | one pass of the loop appends track i's record and terminator to the index |
| Encoding.DataGrows | codec_feral_music.py:143 | one pass of the loop appends track i's payload to the data |
| Encoding.RecordAppended | codec_feral_music.py:135-141 | appending the six fields and the path one by one appends the record |
| Decoding.DataSegments | codec_feral_music.py:92 | the data text split at dat_delimiter, without the part before the first one |
| Decoding.IndexSegments | codec_feral_music.py:93 | the index text split at idx_delimiter, without the part after the last one |
| Decoding.Parsed | codec_feral_music.py:80-124 | the dictionary decode returns, or the exception it raises; what it holds and when it fails are stated by ParsedFails, ParsedCount, ParsedTracks, ParsedFirstRecord and ParsedLaterRecord |
| Decoding.TrackOf | codec_feral_music.py:108-122 | one zip pass can fail only with byte_to_string's errors (odd-length hex, non-ASCII byte) |
| Decoding.TrackOfLossless | codec_feral_music.py:110-121 | a pass fails exactly when byte_to_string fails on the path; otherwise the fields put together give the index segment back, the payload is the data segment behind the signature, and file_name_str decodes file_name |
| Decoding.TracksUpTo | codec_feral_music.py:107-123 | the zip loop over n pairs gives n tracks, or fails only with byte_to_string's errors |
| Decoding.TracksUpToOk | codec_feral_music.py:107-123 | the loop succeeds exactly when every pair decodes |
| Decoding.TracksUpToAt | codec_feral_music.py:107-123 | track i is what pair i decodes to |
| Decoding.TracksUpToFailure | codec_feral_music.py:107-123 | after one pair has failed, the whole loop fails with that error |
| Decoding.ParsedFails | codec_feral_music.py:93-97 | decode raises IndexError exactly when the index text holds no terminator, and otherwise fails only with byte_to_string's errors |
| Decoding.ParsedCount | codec_feral_music.py:92-107 | decode returns min(data segments after the first, index segments before the last) tracks; number_of_files_int is the little-endian value of header slice [24:32] |
| Decoding.ParsedTracks | codec_feral_music.py:119-121 | every track's file is the signature followed by its data segment, and file_name_str is byte_to_string(file_name) |
| Decoding.HeaderSlicesLossless | codec_feral_music.py:97-105 | the header slices and the rest of the first segment put back together give the segment |
| Decoding.ParsedFirstRecord | codec_feral_music.py:97-119 | the header followed by record 0 is the first index segment |
| Decoding.ParsedLaterRecord | codec_feral_music.py:107-119 | every later record is its own index segment |
| Decoding.Decode | codec_feral_music.py:80-124 | the decode loop, proved to return Parsed on the two hex texts |
| Importing.Provenance | codec_feral_music.py:172-177 | origin and meta chosen by whether "Feral" occurs in the file name; ProvenanceOfName states the two cases |
| Importing.Channels | codec_feral_music.py:188 | bytes_from_int(int_from_bytes(opus_binary[74:76])); ChannelsOfPayload states its value and that it never fails |
| Importing.NextOffset | codec_feral_music.py:196 | bytes_from_int(int_from_bytes(offset) + int_from_bytes(length)); NextOffsetFits and NextOffsetTooWide state both outcomes |
| Importing.TrackFor | codec_feral_music.py:179-196 | one pass of the import loop: the entry for one file and the next offset, or the first error among length, channels and the next offset, in that order; TrackForOk and TrackForFields state it |
| Importing.FileTrack | codec_feral_music.py:182-193 | the dictionary entry built from a file's name, payload, offset, length and channels; FileTrackFields states every field |
| Importing.Imported | codec_feral_music.py:155-198 | the dictionary import_decoded_opus returns, or its OverflowError; ImportedHeader, ImportedSucceeds and ImportedDescribed state it |
| Importing.ProvenanceOfName | codec_feral_music.py:172-177 | a name holding "Feral" gets origin 01000000 and meta 08000000; any other name gets origin 0d000000 and meta 00000000 |
| Importing.ImportedUpTo | codec_feral_music.py:166-196 | the loop over n files gives n tracks |
| Importing.ImportedUpToFailure | codec_feral_music.py:167-196 | after one file has failed, the import fails with that error |
| Importing.ImportDecodedOpus | codec_feral_music.py:155-198 | the import loop, proved to return Imported for the folder |
| Importing.ChannelDigits | codec_feral_music.py:188 | hex digits 74-75 of the payload read back as byte 37, or 0 when the payload is shorter |
| Importing.ChannelsOfPayload | codec_feral_music.py:188 | the channels field is byte 37 widened to four bytes, never fails, and reads back as byte 37 |
| Importing.HertzOfPayload | codec_feral_music.py:186 | the hertz field is payload bytes 40-43, clamped to the payload's end |
| Importing.NextOffsetFits | codec_feral_music.py:196 | the next offset is worth the offset plus the length when that fits in four bytes |
| Importing.NextOffsetTooWide | codec_feral_music.py:196 | otherwise bytes_from_int raises OverflowError |
| Importing.TrackForNext | codec_feral_music.py:179-196 | a pass whose offset plus payload size fits in four bytes succeeds, with that sum as the next offset |
| Importing.TrackForSize | codec_feral_music.py:179 | a pass succeeds only for a file below 2^32 bytes |
| Importing.TrackForEntry | codec_feral_music.py:179-193 | a successful pass returns the entry built from the file's name, payload, offset, size and channel byte |
| Importing.TrackForTooWide | codec_feral_music.py:179-196 | a pass whose offset plus payload size reaches 2^32 raises OverflowError |
| Importing.TrackForOk | codec_feral_music.py:179-196 | from an 8-digit offset worth a, a pass succeeds exactly when a plus the file size is below 2^32, and its next offset is 8 digits worth that sum; otherwise it raises OverflowError |
| Importing.FileTrackFields | codec_feral_music.py:179-193 | the entry keeps the offset; length is the file's size; hertz is bytes 40-43; origin and meta follow the Feral rule; channels is byte 37; the path is under data/sounds/music/; file_name is its hex; file is the whole payload |
| Importing.TrackForFields | codec_feral_music.py:179-193 | the track a successful pass builds has those fields |
| Importing.FirstOffsetValue | codec_feral_music.py:166 | the running offset starts at 0x18, the header size |
| Importing.ImportedUpToOffset | codec_feral_music.py:166-196 | the loop over n files succeeds exactly while 0x18 plus their bytes is below 2^32 (OverflowError otherwise), and the running offset is worth that sum |
| Importing.ImportedUpToStepFailed | codec_feral_music.py:167-196 | after a failure, one more file changes nothing |
| Importing.ImportedUpToStep | codec_feral_music.py:167-196 | one more file keeps the running offset equal to 0x18 plus the bytes imported, or raises OverflowError |
| Importing.ImportedSucceeds | codec_feral_music.py:160-196 | the import fails exactly when the file count or the final offset reaches 2^32, and then with OverflowError |
| Importing.ImportedHeader | codec_feral_music.py:156-163 | the header is the hex of SND.PACK, 04000000, the file count in four bytes, and 1800000071ff2304; there is one track per file |
| Importing.ImportedUpToAt | codec_feral_music.py:167-194 | track i is what one pass makes of file i at the offset the earlier files leave |
| Importing.ImportedTrack | codec_feral_music.py:179-193 | track i sits at 0x18 plus the bytes before it, and its length is its file's size; its other fields follow from its name and payload |
| Importing.ImportedDescribed | codec_feral_music.py:155-198 | a successful import satisfies ImportOf: header, payloads, offsets and fields as above |
| Importing.ImportedPayloads | codec_feral_music.py:192 | every track's file is the hex of its file, unchanged |
| Importing.ImportedOffsets | codec_feral_music.py:179-196 | every offset is 0x18 plus the bytes before it, and every length is its file's size |
| Importing.ImportedFields | codec_feral_music.py:172-191 | hertz, provenance, channels and path of every track |
| Importing.OffsetsChain | codec_feral_music.py:196 | offset[i+1] == offset[i] + length[i] |
| Importing.PayloadsBefore | codec_feral_music.py:143 | the payloads before track i take twice as many hex digits as their files hold bytes |
| Importing.PayloadAtOffset | codec_feral_music.py:166-196 | track i's payload sits in the data file encode writes at the byte its offset names |
| RoundTrip.DelimitersUnbordered | codec_feral_music.py:209-210 | neither separator overlaps itself |
| RoundTrip.SplitPayloads | codec_feral_music.py:92 | a signature-free prefix followed by separable payloads splits into the prefix and each payload without its signature |
| RoundTrip.SplitAfterSignature | codec_feral_music.py:209 | splitting on the signature cuts a signature-free prefix off first |
| RoundTrip.SplitAfterTerminator | codec_feral_music.py:210 | splitting on the terminator cuts a terminator-free prefix off first |
| RoundTrip.DataSegmentsOfDataText | codec_feral_music.py:92 | the data text encode writes splits into the header and each payload without its signature |
| RoundTrip.SplitRecords | codec_feral_music.py:93 | the records with their terminators split into the records and an empty tail |
| RoundTrip.IndexSegmentsOfIndexText | codec_feral_music.py:93 | the index text encode writes splits into header+record 0, the later records and an empty tail |
| RoundTrip.HeaderSlicedBack | codec_feral_music.py:97-105 | decode slices a header of the right widths back off the first segment |
| RoundTrip.TrackSlicedBack | codec_feral_music.py:110-121 | decode slices a shaped track back out of its record and payload |
| RoundTrip.TracksUpToAllOk | codec_feral_music.py:107-123 | the zip loop returns the given tracks when every pair decodes to its own track |
| RoundTrip.RecordsReplaced | codec_feral_music.py:105 | replacing the first segment by what follows the header gives the records |
| RoundTrip.PairDecodes | codec_feral_music.py:107-121 | pair i of a shaped archive decodes to track i |
| RoundTrip.PairsDecode | codec_feral_music.py:107-123 | every pair of a shaped archive decodes to its own track |
| RoundTrip.DecodeEncode | codec_feral_music.py:80-145 | decode(encode(lib)) returns lib's header and tracks, with number_of_files_int read from the header, for shaped, separable archives with a track |
| RoundTrip.DecodeEncodeEmpty | codec_feral_music.py:93-97 | with no track and a header that holds no terminator, decode of what encode writes raises IndexError |
| RoundTrip.PackMagicHexFree | codec_feral_music.py:158 | the hex of SND.PACK has no f digit |
| RoundTrip.ZeroCountHexFree | codec_feral_music.py:160 | bytes_from_int(0) succeeds and writes no f digit |
| RoundTrip.HeaderUnterminated | codec_feral_music.py:156-163 | a header whose name and count have no f digit holds no terminator |
| RoundTrip.EmptyImportUnterminated | codec_feral_music.py:156-163 | the header the import writes for an empty folder holds no terminator |
| RoundTrip.EmptyImportRejected | codec_feral_music.py:93-97 | importing an empty folder succeeds, and decode of what encode writes for it raises IndexError |
| RoundTrip.JoinRecords | codec_feral_music.py:134-142 | the records joined by the terminator with an empty tail are the index body |
| RoundTrip.JoinPayloads | codec_feral_music.py:143 | a prefix and the payloads without signatures, joined by the signature, are the prefix and the payloads |
| RoundTrip.IndexSplitOfParsed | codec_feral_music.py:93-119 | the index segments of a decoded archive are header+record 0, the later records and the empty tail |
| RoundTrip.DataSplitOfParsed | codec_feral_music.py:92-121 | the data segments of a decoded archive are the header and each payload without its signature |
| RoundTrip.IndexTextJoined | codec_feral_music.py:127-142 | the index encode writes is those segments joined by the terminator |
| RoundTrip.EncodeDecode | codec_feral_music.py:80-145 | encode(decode(idx, dat)) == (idx, dat) when the segment counts match, nothing follows the last terminator and the data's text before the first signature is exactly the index's header |
| RoundTrip.ImportHeaderShaped | codec_feral_music.py:156-163 | the import's header has the widths decode slices |
| RoundTrip.ImportTrackShaped | codec_feral_music.py:179-193 | an imported track from a file of 44 bytes or more that starts with the signature is shaped |
| RoundTrip.ImportShaped | codec_feral_music.py:155-198 | the import of such files is shaped |
| RoundTrip.ImportDecodes | codec_feral_music.py:155-198 | decode of what encode writes for an import returns the imported header and tracks, with the file count as number_of_files_int |

## Left out

- Command-line parsing and the choice between rebuild and extract (codec_feral_music.py:23-30, 212-224). They are glue with no logic of their own.
- Reading and writing files, `os.mkdir` and `os.path.exists` (codec_feral_music.py:84-90, 147-153, 200-207). These are I/O. The model takes the hex texts `binascii.hexlify` would make of the two files, and it returns the texts `export_encoded_binary` would unhexlify and write.
- `export_decoded_opus` (codec_feral_music.py:147-153) writes files named by `os.path.basename`, a library call. It is not modelled. What it writes is `Hex.Unhexlify` of each track's `file`.
- `os.listdir` (codec_feral_music.py:160, 167) is a filesystem call with no fixed order. The folder is a parameter: a sequence of `DirEntry` (name and bytes), taken in the order given.
- Importing.ImportDecodedOpus: requires ASCII file names. Python's UTF-8 encoding of other names (codec_feral_music.py:72) is not modelled. `byte_to_string` is modelled on ASCII, which covers every path `string_to_byte` writes from an ASCII name.
- Importing.ImportDecodedOpus: `int(len(opus_binary)/2)` (codec_feral_music.py:179) is a float division in Python. It is modelled as exact integer halving. The hex length is even and is far below 2^53.
- Hex text is lower-case hex digits only. That is what `hexlify` produces. Upper-case digits and non-hex characters never reach the codec, so `unhexlify`'s refusal of them is not modelled.
- RoundTrip.DecodeEncode: the round trip is proved only under preconditions:
  - at least one track;
  - fields of the widths decode slices;
  - ASCII paths;
  - payloads that start with the signature;
  - `Separable`: neither separator occurs anywhere else.

  Outside these preconditions `decode` still has its behaviour modelled by `Parsed`, but no round trip is claimed.
- RoundTrip.EncodeDecode: proved only for archives with as many index segments as data segments, nothing after the last terminator, and a data file whose text before the first signature is exactly the index header. Otherwise `zip` or the slicing drops text that `encode` cannot restore.
- RoundTrip.ImportDecodes: proved only for files of at least 44 bytes that start with the signature, and for an imported archive that is `Separable`. Separability is a hypothesis about the payloads; it is not derived from the Ogg format.
