/**
 * File formats: the decoders the extractors hand documents to, and the magic-byte tests
 * on the head of a buffer.
 */
module Formats {
  import opened Common
  import opened Strings

  /** The text decoders, which are foreign libraries: pdfjs, pdf-parse, pdf-lib, mammoth,
      textract, officeparser, and UTF-8 decoding of the raw buffer. */
  datatype Decoder = PdfJs | PdfParse | PdfLib | Mammoth | Textract | OfficeParser | Utf8Text

  /** The header of a PDF file, `%PDF` (section 7.5.2 of ISO 32000-1). */
  const PdfMagic: seq<byte> := [0x25, 0x50, 0x44, 0x46]

  /** The local-file-header signature that opens a ZIP archive, and so a DOCX file, `PK`
      (section 4.3.7 of the PKWARE APPNOTE). */
  const ZipMagic: seq<byte> := [0x50, 0x4B]

  /** `buffer.slice(0, 4).toString() === '%PDF'`. UTF-8 decoding yields an ASCII character
      only from the same ASCII byte, so the decoded head is `%PDF` exactly when the first
      four bytes are those of `%PDF`. */
  predicate IsPdfHeader(b: seq<byte>) {
    |b| >= 4 && b[..4] == PdfMagic
  }

  /** One byte as two lower-case hexadecimal digits, as `toString('hex')` writes it. */
  function HexByte(x: byte): (r: string)
    ensures |r| == 2
  {
    var digits := "0123456789abcdef";
    [digits[x as int / 16], digits[x as int % 16]]
  }

  /** `toString('hex')`. */
  function Hex(b: seq<byte>): (r: string)
    ensures |r| == 2 * |b|
  {
    if b == [] then [] else HexByte(b[0]) + Hex(b[1..])
  }

  /** `buffer.slice(0, 2).toString('hex') === '504b'`. */
  predicate IsZipHeader(b: seq<byte>) {
    Hex(Prefix(b, 2)) == "504b"
  }

  /** Two hexadecimal renderings agree only on equal bytes. */
  lemma HexByteInjective(x: byte, y: byte)
    requires HexByte(x) == HexByte(y)
    ensures x == y
  {
    var digits := "0123456789abcdef";
    assert forall m, n :: 0 <= m < n < 16 ==> digits[m] != digits[n];
    assert HexByte(x)[0] == HexByte(y)[0] && HexByte(x)[1] == HexByte(y)[1];
  }

  /** The hexadecimal test reads the ZIP signature: it holds exactly when the buffer has
      at least two bytes and they are `P` and `K`. */
  lemma ZipHeaderMeans(b: seq<byte>)
    ensures IsZipHeader(b) <==> |b| >= 2 && b[..2] == ZipMagic
  {
    var h := Prefix(b, 2);
    if |b| >= 2 {
      assert h == [b[0], b[1]] && h[1..] == [b[1]] && h[1..][1..] == [];
      assert Hex(h) == HexByte(b[0]) + HexByte(b[1]);
      assert HexByte(0x50) == "50" && HexByte(0x4B) == "4b";
      if Hex(h) == "504b" {
        assert HexByte(b[0]) == Hex(h)[..2] == "50";
        HexByteInjective(b[0], 0x50);
        assert HexByte(b[1]) == Hex(h)[2..] == "4b";
        HexByteInjective(b[1], 0x4B);
      }
    }
  }

  /** The two signatures exclude each other, so testing PDF first decides nothing that the
      ZIP test would have decided otherwise. */
  lemma HeadersExclusive(b: seq<byte>)
    ensures !(IsPdfHeader(b) && IsZipHeader(b))
  {
    ZipHeaderMeans(b);
    if IsPdfHeader(b) {
      assert b[0] == b[..4][0] == 0x25;
    }
  }
}
