/**
 * `services/documentParser.js`: the decoder picked for a document by its mimetype, and
 * the one picked for a bare buffer by its first bytes. The module assigns
 * `module.exports` three times; only the last assignment, `{ parseDocument }`, is what
 * `require` returns.
 */
module DocumentParserJs {
  import opened Common
  import opened Formats

  const PdfMimetype: string := "application/pdf"
  const DocxMimetype: string := "application/vnd.openxmlformats-officedocument.wordprocessingml.document"
  const MswordMimetype: string := "application/msword"

  // ---------------------------------------------------------------------------
  // parseDocument

  /** `parseDocument`, up to the decoder. The third branch also names the DOCX mimetype,
      but the second branch has already taken it. */
  function ParseDocument(mimetype: string): (r: Result<Decoder>)
    ensures r.Failure? ==> r.message == "Type de fichier non pris en charge : " + mimetype
    ensures r.Success? ==> mimetype in {PdfMimetype, DocxMimetype, MswordMimetype}
  {
    if mimetype == PdfMimetype then Success(PdfParse)
    else if mimetype == DocxMimetype then Success(Mammoth)
    else if mimetype == MswordMimetype || mimetype == DocxMimetype then Success(OfficeParser)
    else Failure("Type de fichier non pris en charge : " + mimetype)
  }

  /** pdf-parse for the PDF mimetype, mammoth for the DOCX one, officeparser for
      `application/msword` only, and a refusal for every other mimetype. */
  lemma ParseDocumentCases(mimetype: string)
    ensures ParseDocument(mimetype) == Success(PdfParse) <==> mimetype == PdfMimetype
    ensures ParseDocument(mimetype) == Success(Mammoth) <==> mimetype == DocxMimetype
    ensures ParseDocument(mimetype) == Success(OfficeParser) <==> mimetype == MswordMimetype
    ensures ParseDocument(mimetype).Failure? <==> mimetype !in {PdfMimetype, DocxMimetype, MswordMimetype}
  {
    assert |PdfMimetype| != |DocxMimetype| && |PdfMimetype| != |MswordMimetype|;
  }

  // ---------------------------------------------------------------------------
  // parseBuffer

  /** The error a PDF buffer meets: the file imports pdf-parse as `pdf`, and `pdfParse`
      is bound nowhere in it. */
  const PdfParseUnbound: string := "ReferenceError: pdfParse is not defined"

  const BufferRefused: string := "Format de fichier non supporté (PDF ou DOCX uniquement)"

  /** `parseBuffer` as written, up to the decoder: the `%PDF` test, then the ZIP test,
      then a refusal. Its PDF branch calls the unbound `pdfParse`. */
  function ParseBuffer(buffer: seq<byte>): (r: Result<Decoder>)
    ensures r.Success? ==> r.value == Mammoth
  {
    if IsPdfHeader(buffer) then Failure(PdfParseUnbound)
    else if IsZipHeader(buffer) then Success(Mammoth)
    else Failure(BufferRefused)
  }

  /** No PDF gets through: every buffer opening with `%PDF` fails with the reference
      error, so only ZIP buffers are ever decoded. */
  lemma ParseBufferRejectsEveryPdf(buffer: seq<byte>)
    ensures ParseBuffer(buffer) == Failure(PdfParseUnbound) <==> |buffer| >= 4 && buffer[..4] == PdfMagic
    ensures ParseBuffer(buffer).Success? <==> |buffer| >= 2 && buffer[..2] == ZipMagic
  {
    ZipHeaderMeans(buffer);
    HeadersExclusive(buffer);
  }

  /** A one-page file's first bytes: `%PDF-1.4`. */
  lemma PdfHeaderFails()
    ensures ParseBuffer([0x25, 0x50, 0x44, 0x46, 0x2D, 0x31, 0x2E, 0x34]) == Failure(PdfParseUnbound)
  {
    var b: seq<byte> := [0x25, 0x50, 0x44, 0x46, 0x2D, 0x31, 0x2E, 0x34];
    assert b[..4] == PdfMagic;
  }

  /** `parseBuffer` with the PDF branch calling the imported `pdf`. */
  function ParseBufferIntended(buffer: seq<byte>): (r: Result<Decoder>)
    ensures r.Failure? ==> r.message == BufferRefused
  {
    if IsPdfHeader(buffer) then Success(PdfParse)
    else if IsZipHeader(buffer) then Success(Mammoth)
    else Failure(BufferRefused)
  }

  /** With the binding corrected, a `%PDF` buffer goes to pdf-parse, a `PK` buffer to
      mammoth, and only a buffer with neither signature is refused. */
  lemma ParseBufferIntendedCases(buffer: seq<byte>)
    ensures ParseBufferIntended(buffer) == Success(PdfParse) <==> |buffer| >= 4 && buffer[..4] == PdfMagic
    ensures ParseBufferIntended(buffer) == Success(Mammoth) <==> |buffer| >= 2 && buffer[..2] == ZipMagic
    ensures ParseBufferIntended(buffer).Failure? <==>
      !(|buffer| >= 4 && buffer[..4] == PdfMagic) && !(|buffer| >= 2 && buffer[..2] == ZipMagic)
  {
    ZipHeaderMeans(buffer);
    HeadersExclusive(buffer);
  }

  // ---------------------------------------------------------------------------
  // module.exports

  /** The functions the file defines. */
  datatype Function = ParseDocumentFn | ParseBufferFn | ParseFromUrlFn

  /** The assignments to `module.exports`, in file order, each the names it binds. */
  const ExportAssignments: seq<map<string, Function>> := [
    map["parseFromUrl" := ParseFromUrlFn],
    map["parseBuffer" := ParseBufferFn],
    map["parseDocument" := ParseDocumentFn]
  ]

  /** The object `require` returns: each assignment replaces the whole object, so the
      last one wins; with none, the empty object. */
  function Exports(assignments: seq<map<string, Function>>): (r: map<string, Function>)
    ensures assignments != [] ==> r == assignments[|assignments| - 1]
    ensures forall name :: name in r ==> exists k :: 0 <= k < |assignments| && name in assignments[k]
  {
    if assignments == [] then map[]
    else
      assert assignments[|assignments| - 1] in assignments;
      assignments[|assignments| - 1]
  }

  /** Only `parseDocument` is exported; `parseBuffer` and `parseFromUrl` are not reachable
      from outside the file. */
  lemma OnlyParseDocumentExported()
    ensures Exports(ExportAssignments) == map["parseDocument" := ParseDocumentFn]
    ensures "parseBuffer" !in Exports(ExportAssignments) && "parseFromUrl" !in Exports(ExportAssignments)
  {
  }
}
