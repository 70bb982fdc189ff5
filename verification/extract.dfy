/**
 * `extract_text`: which extractor runs is chosen by the file name's suffix.
 * What the PDF and DOCX libraries read out of a file, and the UTF-8 decoding
 * of a text file, arrive as fields of the uploaded file.
 */
module Extract {

  import opened PyStr

  datatype FileKind = Pdf | Docx | Txt | Unsupported

  /**
   * An uploaded file: its name, and what each extractor would read from its
   * bytes (the text of every PDF page, the text of every DOCX paragraph, the
   * bytes decoded as UTF-8).
   */
  datatype UploadedFile = UploadedFile(
    name: string,
    pages: seq<string>,
    paragraphs: seq<string>,
    decoded: string)

  const PdfSuffix: string := ".pdf"
  const DocxSuffix: string := ".docx"
  const TxtSuffix: string := ".txt"

  /** The three suffixes end in different characters, so at most one of them fits a name. */
  lemma SuffixesExclusive(name: string)
    ensures !(EndsWith(name, PdfSuffix) && EndsWith(name, DocxSuffix))
    ensures !(EndsWith(name, PdfSuffix) && EndsWith(name, TxtSuffix))
    ensures !(EndsWith(name, DocxSuffix) && EndsWith(name, TxtSuffix))
  {
    if EndsWith(name, PdfSuffix) {
      assert name[|name| - 1] == 'f';
    } else if EndsWith(name, DocxSuffix) {
      assert name[|name| - 1] == 'x';
    }
  }

  /** The branch `extract_text` takes; the order of its tests does not matter. */
  function KindOf(name: string): (kind: FileKind)
    ensures kind == Pdf <==> EndsWith(name, PdfSuffix)
    ensures kind == Docx <==> EndsWith(name, DocxSuffix)
    ensures kind == Txt <==> EndsWith(name, TxtSuffix)
  {
    SuffixesExclusive(name);
    if EndsWith(name, PdfSuffix) then Pdf
    else if EndsWith(name, DocxSuffix) then Docx
    else if EndsWith(name, TxtSuffix) then Txt
    else Unsupported
  }

  /**
   * `extract_text(uploaded_file)`: the pages run together, the paragraphs one
   * per line, the decoded text as it is, and nothing for any other file.
   */
  function ExtractText(file: UploadedFile): (text: string)
    ensures EndsWith(file.name, PdfSuffix) ==> text == Join(file.pages, "")
    ensures EndsWith(file.name, DocxSuffix) ==> text == Join(file.paragraphs, "\n")
    ensures EndsWith(file.name, TxtSuffix) ==> text == file.decoded
    ensures KindOf(file.name) == Unsupported ==> text == ""
  {
    match KindOf(file.name)
    case Pdf => Join(file.pages, "")
    case Docx => Join(file.paragraphs, "\n")
    case Txt => file.decoded
    case Unsupported => ""
  }

  /** A file of any other type yields the empty text, which the generate buttons refuse. */
  lemma UnsupportedGivesNothing(file: UploadedFile)
    requires !EndsWith(file.name, PdfSuffix) && !EndsWith(file.name, DocxSuffix)
    requires !EndsWith(file.name, TxtSuffix)
    ensures ExtractText(file) == ""
  {
  }
}
