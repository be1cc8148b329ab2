/** The integer and string helpers of codec_feral_music.py (lines 68-78).
    Everything the codec handles is the text binascii.hexlify produces: two
    lower-case hex digits per byte. A digit is modelled by its value (a
    Nibble), so a hex text is a sequence of nibbles and a slice offset counts
    nibbles, exactly as the Python slices count hex characters. */
module Hex {
  import opened Wrappers

  type Nibble = x: int | 0 <= x < 16
  type Byte = x: int | 0 <= x < 256
  type HexText = seq<Nibble>

  /** The exceptions the codec can raise on the inputs it is given. */
  datatype CodecError =
    | OddLengthHex     // binascii.Error / ValueError: an odd number of hex digits
    | NonAsciiText     // UnicodeDecodeError from decode('ASCII')
    | NoIndexRecord    // IndexError: the index text holds no record terminator
    | IntegerTooWide   // OverflowError from int.to_bytes(4)

  // ---------------------------------------------------------------------
  // binascii.hexlify / binascii.unhexlify

  function Hexlify(bs: seq<Byte>): (h: HexText)
    ensures |h| == 2 * |bs|
  {
    if bs == [] then [] else [bs[0] / 16, bs[0] % 16] + Hexlify(bs[1..])
  }

  /** Byte i becomes digits 2i (high) and 2i + 1 (low). */
  lemma {:induction false} HexlifyDigits(bs: seq<Byte>)
    ensures forall i :: 0 <= i < |bs| ==>
      Hexlify(bs)[2 * i] == bs[i] / 16 && Hexlify(bs)[2 * i + 1] == bs[i] % 16
  {
    if bs != [] {
      HexlifyDigits(bs[1..]);
      var h := Hexlify(bs);
      assert h[2..] == Hexlify(bs[1..]);
      forall i | 0 < i < |bs| ensures h[2 * i] == bs[i] / 16 && h[2 * i + 1] == bs[i] % 16 {
        assert h[2 * i] == Hexlify(bs[1..])[2 * (i - 1)];
        assert h[2 * i + 1] == Hexlify(bs[1..])[2 * (i - 1) + 1];
      }
    }
  }

  /** Half the digits of a hex text is its number of bytes. */
  lemma HexlifyHalf(bs: seq<Byte>)
    ensures |Hexlify(bs)| / 2 == |bs|
  {
  }

  /** A digit that is neither nibble of any byte does not occur in the hex. */
  lemma {:induction false} HexlifyAvoids(bs: seq<Byte>, d: Nibble)
    requires forall j | 0 <= j < |bs| :: bs[j] / 16 != d && bs[j] % 16 != d
    ensures d !in Hexlify(bs)
  {
    if bs != [] {
      assert forall j | 0 <= j < |bs[1..]| :: bs[1..][j] / 16 != d && bs[1..][j] % 16 != d by {
        forall j | 0 <= j < |bs[1..]| ensures bs[1..][j] / 16 != d && bs[1..][j] % 16 != d {
          assert bs[1..][j] == bs[j + 1];
        }
      }
      HexlifyAvoids(bs[1..], d);
    }
  }

  /** The bytes of an even-length hex text, two digits each (high digit first). */
  function Pairs(h: HexText): (bs: seq<Byte>)
    requires |h| % 2 == 0
    ensures |bs| == |h| / 2
    ensures Hexlify(bs) == h
  {
    if h == [] then [] else [h[0] as int * 16 + h[1]] + Pairs(h[2..])
  }

  /** Byte i of an even-length hex text is spelled by digits 2i and 2i + 1. */
  lemma {:induction false} PairsAt(h: HexText)
    requires |h| % 2 == 0
    ensures forall i | 0 <= i < |h| / 2 :: Pairs(h)[i] == h[2 * i] as int * 16 + h[2 * i + 1]
  {
    if h != [] {
      PairsAt(h[2..]);
      var bs := Pairs(h);
      assert bs[1..] == Pairs(h[2..]);
      forall i | 0 < i < |h| / 2 ensures bs[i] == h[2 * i] as int * 16 + h[2 * i + 1] {
        assert bs[i] == Pairs(h[2..])[i - 1];
        assert h[2..][2 * (i - 1)] == h[2 * i] && h[2..][2 * (i - 1) + 1] == h[2 * i + 1];
      }
    }
  }

  /** binascii.unhexlify (and bytes.fromhex) on hexlify's alphabet: only an
      odd number of digits is refused. */
  function Unhexlify(h: HexText): (r: Result<seq<Byte>, CodecError>)
    ensures r.Ok? <==> |h| % 2 == 0
    ensures r.Err? ==> r.error == OddLengthHex
    ensures r.Ok? ==> |r.value| == |h| / 2 && Hexlify(r.value) == h
  {
    if |h| % 2 == 1 then Err(OddLengthHex) else Ok(Pairs(h))
  }

  lemma {:induction false} HexlifyInjective(a: seq<Byte>, b: seq<Byte>)
    requires Hexlify(a) == Hexlify(b)
    ensures a == b
  {
    if a != [] {
      assert b != [];
      var ha, hb := Hexlify(a), Hexlify(b);
      assert a[0] == ha[0] as int * 16 + ha[1] == hb[0] as int * 16 + hb[1] == b[0];
      assert Hexlify(a[1..]) == ha[2..] == hb[2..] == Hexlify(b[1..]);
      HexlifyInjective(a[1..], b[1..]);
      assert a == [a[0]] + a[1..];
      assert b == [b[0]] + b[1..];
    }
  }

  /** unhexlify undoes hexlify. */
  lemma UnhexlifyHexlify(bs: seq<Byte>)
    ensures Unhexlify(Hexlify(bs)) == Ok(bs)
  {
    var r := Unhexlify(Hexlify(bs));
    HexlifyInjective(r.value, bs);
  }

  lemma {:induction false} HexlifyAppend(a: seq<Byte>, b: seq<Byte>)
    ensures Hexlify(a + b) == Hexlify(a) + Hexlify(b)
  {
    if a != [] {
      assert (a + b)[0] == a[0];
      assert (a + b)[1..] == a[1..] + b;
      HexlifyAppend(a[1..], b);
    } else {
      assert a + b == b;
    }
  }

  /** Cutting the hex at a byte boundary cuts the bytes there. */
  lemma HexlifySplitAt(bs: seq<Byte>, k: nat)
    requires k <= |bs|
    ensures Hexlify(bs)[..2 * k] == Hexlify(bs[..k])
    ensures Hexlify(bs)[2 * k..] == Hexlify(bs[k..])
  {
    assert bs == bs[..k] + bs[k..];
    HexlifyAppend(bs[..k], bs[k..]);
  }

  /** A hex slice on byte boundaries is the hex of the byte slice. */
  lemma HexlifySlice(bs: seq<Byte>, lo: nat, hi: nat)
    requires lo <= hi <= |bs|
    ensures Hexlify(bs)[2 * lo .. 2 * hi] == Hexlify(bs[lo..hi])
  {
    HexlifySplitAt(bs, hi);
    HexlifySplitAt(bs[..hi], lo);
    assert bs[..hi][lo..] == bs[lo..hi];
    assert Hexlify(bs)[2 * lo .. 2 * hi] == Hexlify(bs)[..2 * hi][2 * lo..];
  }

  // ---------------------------------------------------------------------
  // int.from_bytes(..., 'little') / int.to_bytes(4, 'little')

  function Pow256(n: nat): (p: nat)
    ensures p >= 1
  {
    if n == 0 then 1 else 256 * Pow256(n - 1)
  }

  /** The unsigned little-endian value of a byte string. */
  function LittleEndian(bs: seq<Byte>): (v: nat)
    ensures v < Pow256(|bs|)
  {
    if bs == [] then 0 else bs[0] + 256 * LittleEndian(bs[1..])
  }

  /** The n-byte little-endian form of i, low byte first. */
  function LeBytes(i: nat, n: nat): (bs: seq<Byte>)
    ensures |bs| == n
  {
    if n == 0 then [] else [i % 256] + LeBytes(i / 256, n - 1)
  }

  lemma {:induction false} LittleEndianOfLeBytes(i: nat, n: nat)
    requires i < Pow256(n)
    ensures LittleEndian(LeBytes(i, n)) == i
  {
    if n > 0 {
      assert i / 256 < Pow256(n - 1);
      LittleEndianOfLeBytes(i / 256, n - 1);
      assert LeBytes(i, n)[1..] == LeBytes(i / 256, n - 1);
    }
  }

  /** The little-endian value of the bytes an even-length hex text spells,
      read two digits at a time. */
  function LittleEndianHex(h: HexText): nat
    requires |h| % 2 == 0
  {
    if h == [] then 0 else (h[0] as int * 16 + h[1]) + 256 * LittleEndianHex(h[2..])
  }

  lemma {:induction false} LittleEndianHexlify(bs: seq<Byte>)
    ensures LittleEndianHex(Hexlify(bs)) == LittleEndian(bs)
  {
    if bs != [] {
      var h := Hexlify(bs);
      assert h[2..] == Hexlify(bs[1..]);
      LittleEndianHexlify(bs[1..]);
    }
  }

  /** int_from_bytes (line 74): unhexlify, then read little-endian; only
      an odd number of digits fails. */
  function IntFromBytes(h: HexText): (r: Result<nat, CodecError>)
    ensures r.Ok? <==> |h| % 2 == 0
    ensures r.Err? ==> r.error == OddLengthHex
  {
    if |h| % 2 == 1 then Err(OddLengthHex) else Ok(LittleEndianHex(h))
  }

  /** int_from_bytes is unhexlify followed by the little-endian reading. */
  lemma IntFromBytesUnhexlify(h: HexText)
    requires |h| % 2 == 0
    ensures IntFromBytes(h) == Ok(LittleEndian(Unhexlify(h).value))
  {
    LittleEndianHexlify(Unhexlify(h).value);
  }

  /** n bytes hold a value below 256^n. */
  lemma IntFromBytesBound(h: HexText)
    requires |h| % 2 == 0
    ensures IntFromBytes(h).value < Pow256(|h| / 2)
  {
    IntFromBytesUnhexlify(h);
  }

  const Limit32: nat := 0x1_0000_0000

  /** bytes_from_int (line 77): four bytes, little-endian, as 8 hex digits;
      to_bytes(4) raises OverflowError from 2^32 on. */
  function BytesFromInt(i: nat): (r: Result<HexText, CodecError>)
    ensures r.Ok? <==> i < Limit32
    ensures r.Err? ==> r.error == IntegerTooWide
    ensures r.Ok? ==> |r.value| == 8
  {
    if i < Limit32 then Ok(Hexlify(LeBytes(i, 4))) else Err(IntegerTooWide)
  }

  /** int_from_bytes reads back what bytes_from_int wrote. */
  lemma IntFromBytesOfBytesFromInt(i: nat)
    requires i < Limit32
    ensures IntFromBytes(BytesFromInt(i).value) == Ok(i)
  {
    var bs := LeBytes(i, 4);
    assert Pow256(4) == Limit32;
    LittleEndianOfLeBytes(i, 4);
    LittleEndianHexlify(bs);
  }

  // ---------------------------------------------------------------------
  // string_to_byte / byte_to_string on ASCII text

  predicate IsAscii(s: string) {
    forall i | 0 <= i < |s| :: s[i] as int < 128
  }

  lemma AsciiAppend(a: string, b: string)
    requires IsAscii(a) && IsAscii(b)
    ensures IsAscii(a + b)
  {
  }

  /** The one-byte-per-character encoding of ASCII text. */
  function AsciiBytes(s: string): (bs: seq<Byte>)
    requires IsAscii(s)
    ensures |bs| == |s|
  {
    if s == [] then [] else [s[0] as int] + AsciiBytes(s[1..])
  }

  /** Byte i of ASCII text is the code of character i. */
  lemma {:induction false} AsciiBytesAt(s: string)
    requires IsAscii(s)
    ensures forall i | 0 <= i < |s| :: AsciiBytes(s)[i] == s[i] as int
  {
    if s != [] {
      AsciiBytesAt(s[1..]);
      forall i | 0 < i < |s| ensures AsciiBytes(s)[i] == s[i] as int {
        assert AsciiBytes(s)[i] == AsciiBytes(s[1..])[i - 1];
      }
    }
  }

  /** bytes.decode('ASCII'): one character per byte, refused from 0x80 on. */
  function AsciiDecode(bs: seq<Byte>): (r: Result<string, CodecError>)
    ensures r.Ok? <==> forall i | 0 <= i < |bs| :: bs[i] < 128
    ensures r.Err? ==> r.error == NonAsciiText
    ensures r.Ok? ==> IsAscii(r.value) && AsciiBytes(r.value) == bs
  {
    if bs == [] then
      Ok([])
    else if bs[0] >= 128 then
      Err(NonAsciiText)
    else
      match AsciiDecode(bs[1..])
      case Err(e) =>
        assert exists i | 0 < i < |bs| :: bs[i] >= 128 by {
          var j :| 0 <= j < |bs[1..]| && bs[1..][j] >= 128;
          assert bs[j + 1] == bs[1..][j];
        }
        Err(e)
      case Ok(rest) =>
        assert forall i | 0 < i < |bs| :: bs[i] < 128 by {
          forall i | 0 < i < |bs| ensures bs[i] < 128 {
            assert bs[i] == bs[1..][i - 1];
          }
        }
        var s := [bs[0] as char] + rest;
        assert s[1..] == rest;
        Ok(s)
  }

  /** Decoding the bytes of ASCII text gives the text back. */
  lemma {:induction false} AsciiDecodeBytes(s: string)
    requires IsAscii(s)
    ensures AsciiDecode(AsciiBytes(s)) == Ok(s)
  {
    if s != [] {
      AsciiDecodeBytes(s[1..]);
      assert AsciiBytes(s)[1..] == AsciiBytes(s[1..]);
      assert [s[0]] + s[1..] == s;
    }
  }

  /** string_to_byte (line 71). */
  function StringToByte(s: string): (h: HexText)
    requires IsAscii(s)
    ensures |h| == 2 * |s|
  {
    Hexlify(AsciiBytes(s))
  }

  /** byte_to_string (line 68): fails on an odd number of digits and on a
      byte outside ASCII; what it returns encodes back to its input. */
  function ByteToString(h: HexText): (r: Result<string, CodecError>)
    ensures r.Ok? <==> |h| % 2 == 0 && forall i | 0 <= i < |h| / 2 :: h[2 * i] as int * 16 + h[2 * i + 1] < 128
    ensures r.Err? ==> r.error == OddLengthHex || r.error == NonAsciiText
    ensures r.Ok? ==> IsAscii(r.value) && StringToByte(r.value) == h
  {
    match Unhexlify(h)
    case Err(e) => Err(e)
    case Ok(bs) =>
      PairsAt(h);
      AsciiDecode(bs)
  }

  /** Decoding the hex of ASCII text gives the text back. */
  lemma ByteToStringOfStringToByte(s: string)
    requires IsAscii(s)
    ensures ByteToString(StringToByte(s)) == Ok(s)
  {
    UnhexlifyHexlify(AsciiBytes(s));
    AsciiDecodeBytes(s);
  }
}
