/**
  `DocumentProcessor` of src/lib/document-processor.ts: pick the PDF or the
  plain-text reader from the file's MIME type and name, then turn the
  splitter's pieces into numbered chunks.

  PDF parsing, UTF-8 decoding of the upload, the recursive character splitter
  and UUID generation are library code; their results are inputs here.
 */
module DocumentProcessor {
  import opened Wrappers
  import opened Strings

  const PdfMime: string := "application/pdf"
  const TextMime: string := "text/plain"

  const UnsupportedFileType: string := "Unsupported file type. Only PDF and TXT files are supported."
  const PdfFailure: string := "Failed to process PDF file"

  /** Which reader `processFile` hands the buffer to. */
  datatype FileKind = Pdf | Txt

  /** `{ source, chunkIndex }`. */
  datatype ChunkMetadata = ChunkMetadata(source: string, chunkIndex: nat)

  /** `DocumentChunk` of src/types/index.ts. */
  datatype DocumentChunk = DocumentChunk(id: string, text: string, metadata: ChunkMetadata)

  /** The PDF test: a case-insensitive type match, or a case-sensitive `.pdf` suffix. */
  predicate LooksLikePdf(fileName: string, fileType: string) {
    ToLower(fileType) == PdfMime || EndsWith(fileName, ".pdf")
  }

  /** The text test, consulted only when the PDF test fails. */
  predicate LooksLikeText(fileName: string, fileType: string) {
    ToLower(fileType) == TextMime || EndsWith(fileName, ".txt")
  }

  /** The branch `processFile` takes for a file, or its unsupported-type error. */
  function Dispatch(fileName: string, fileType: string): (r: Result<FileKind, string>)
    ensures r == Success(Pdf) <==> LooksLikePdf(fileName, fileType)
    ensures r == Success(Txt) <==> !LooksLikePdf(fileName, fileType) && LooksLikeText(fileName, fileType)
    ensures r.Failure? <==> !LooksLikePdf(fileName, fileType) && !LooksLikeText(fileName, fileType)
    ensures r.Failure? ==> r.error == UnsupportedFileType
  {
    if LooksLikePdf(fileName, fileType) then Success(Pdf)
    else if LooksLikeText(fileName, fileType) then Success(Txt)
    else Failure(UnsupportedFileType)
  }

  /** The upload route's own filter: exact type match, or a `.txt` or `.pdf` name. */
  predicate UploadAccepts(fileName: string, fileType: string) {
    fileType == PdfMime || fileType == TextMime || EndsWith(fileName, ".txt") || EndsWith(fileName, ".pdf")
  }

  /** Lower-casing a string without upper-case ASCII letters changes nothing. */
  lemma ToLowerOfLower(s: string)
    requires forall i :: 0 <= i < |s| ==> !('A' <= s[i] <= 'Z')
    ensures ToLower(s) == s
  {
  }

  /** Every file the upload route lets through is dispatched to a reader. */
  lemma UploadAcceptedIsDispatched(fileName: string, fileType: string)
    requires UploadAccepts(fileName, fileType)
    ensures Dispatch(fileName, fileType).Success?
  {
    if fileType == PdfMime || fileType == TextMime {
      ToLowerOfLower(fileType);
    }
  }

  /** The converse fails: `processFile` also takes types the route's exact match turns away. */
  lemma DispatchAcceptsMoreThanUpload()
    ensures Dispatch("notes", "TEXT/PLAIN") == Success(Txt)
    ensures !UploadAccepts("notes", "TEXT/PLAIN")
  {
    LowerMatches("TEXT/PLAIN", TextMime);
    assert |TextMime| != |PdfMime|;
  }

  /** `ToLower(s)` is `t` when `s` lower-cases to `t` character by character. */
  lemma LowerMatches(s: string, t: string)
    requires |s| == |t| && forall i :: 0 <= i < |s| ==> LowerChar(s[i]) == t[i]
    ensures ToLower(s) == t
  {
  }

  /** The PDF test wins: a `text/plain` file named `x.pdf` goes to the PDF reader. */
  lemma PdfNameBeatsTextType()
    ensures Dispatch("x.pdf", "text/plain") == Success(Pdf)
  {
    assert EndsWith("x.pdf", ".pdf");
  }

  /** A type that lower-cases to neither MIME name and a name with neither suffix is refused. */
  lemma UnknownTypeAndNameRefused(fileName: string, fileType: string)
    requires ToLower(fileType) != PdfMime && ToLower(fileType) != TextMime
    requires !EndsWith(fileName, ".pdf") && !EndsWith(fileName, ".txt")
    ensures Dispatch(fileName, fileType) == Failure(UnsupportedFileType)
  {
  }

  /** A type of neither MIME name's length cannot lower-case to either of them. */
  lemma OtherLengthIsNeitherMime(fileType: string)
    requires |fileType| != |PdfMime| && |fileType| != |TextMime|
    ensures ToLower(fileType) != PdfMime && ToLower(fileType) != TextMime
  {
  }

  /** The extension test is case-sensitive: `A.TXT` of an unknown type is refused. */
  lemma UpperCaseExtensionRefused()
    ensures Dispatch("A.TXT", "application/octet-stream") == Failure(UnsupportedFileType)
  {
    var name := "A.TXT";
    assert name[1..][1] == 'T';
    OtherLengthIsNeitherMime("application/octet-stream");
    UnknownTypeAndNameRefused(name, "application/octet-stream");
  }

  /** `createChunks`: one chunk per split, in order, numbered from 0 and tagged with the file name. */
  function CreateChunks(splits: seq<string>, source: string, ids: nat -> string): (chunks: seq<DocumentChunk>)
    ensures |chunks| == |splits|
  {
    seq(|splits|, i requires 0 <= i < |splits| => DocumentChunk(ids(i), splits[i], ChunkMetadata(source, i)))
  }

  /** The chunk texts are the splits, unchanged and in order. */
  function Texts(chunks: seq<DocumentChunk>): seq<string> {
    seq(|chunks|, i requires 0 <= i < |chunks| => chunks[i].text)
  }

  /** Chunking loses nothing: reading the texts back gives the splits; each chunk knows
      its position and its file. */
  lemma CreateChunksFaithful(splits: seq<string>, source: string, ids: nat -> string)
    ensures Texts(CreateChunks(splits, source, ids)) == splits
    ensures forall i :: 0 <= i < |splits| ==>
              CreateChunks(splits, source, ids)[i].metadata == ChunkMetadata(source, i)
  {
  }

  /** `processFile` with the libraries' answers as inputs: the text `pdf-parse` extracted
      (or its failure), the buffer decoded as UTF-8, and the splitter. A `pdf-parse`
      failure becomes the fixed PDF error; a splitter failure escapes as it is, because
      `createChunks`' promise is returned from the `try` without being awaited. */
  function ProcessFile(fileName: string, fileType: string, pdfText: Result<string, string>, utf8Text: string,
                       split: string -> Result<seq<string>, string>, ids: nat -> string)
    : (r: Result<seq<DocumentChunk>, string>)
    ensures Dispatch(fileName, fileType).Failure? ==> r == Failure(UnsupportedFileType)
    ensures Dispatch(fileName, fileType) == Success(Pdf) && pdfText.Failure? ==> r == Failure(PdfFailure)
    ensures Dispatch(fileName, fileType) == Success(Pdf) && pdfText.Success? ==>
              SplitOutcome(r, split(pdfText.value))
    ensures Dispatch(fileName, fileType) == Success(Txt) ==> SplitOutcome(r, split(utf8Text))
    ensures r.Success? ==> forall i :: 0 <= i < |r.value| ==> r.value[i].metadata == ChunkMetadata(fileName, i)
  {
    match Dispatch(fileName, fileType)
    case Failure(e) => Failure(e)
    case Success(kind) =>
      var text :- (if kind == Pdf then (if pdfText.Success? then pdfText else Failure(PdfFailure))
                   else Success(utf8Text));
      var splits :- split(text);
      CreateChunksFaithful(splits, fileName, ids);
      Success(CreateChunks(splits, fileName, ids))
  }

  /** The file's chunks carry exactly the splitter's pieces, and a splitter error is passed on unchanged. */
  predicate SplitOutcome(r: Result<seq<DocumentChunk>, string>, splits: Result<seq<string>, string>) {
    && (splits.Success? ==> r.Success? && Texts(r.value) == splits.value)
    && (splits.Failure? ==> r == Failure(splits.error))
  }
}
