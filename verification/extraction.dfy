/** Text extraction (`extract_text_from_file`, main.py:49-59) and the
    up-front filename check of `score_resumes` (main.py:164-169). The PDF and
    DOCX decoders are not modelled: each upload carries what they would make
    of its bytes. */
module Extraction {
  import opened Wrappers
  import opened Text

  /** An uploaded file: its name, the page texts PyPDF2 would extract from its
      bytes and the paragraph texts python-docx would read from them, each
      replaced by the decoder's error message when decoding would raise. */
  datatype Upload = Upload(
    filename: string,
    pdfPages: Result<seq<string>, string>,
    docxParagraphs: Result<seq<string>, string>)

  const UnsupportedTypeDetail := "Unsupported file type. Only PDF and DOCX are allowed."

  /** Why extraction failed: the HTTP 400 for an unknown suffix, or whatever
      the chosen decoder raised. */
  datatype ExtractError = UnsupportedType | DecodeFailed(cause: string) {
    function Message(): string {
      match this
      case UnsupportedType => UnsupportedTypeDetail
      case DecodeFailed(cause) => cause
    }
  }

  /** Dispatch on the (case-sensitive) suffix: PDF pages are concatenated,
      DOCX paragraphs joined by newlines, anything else is refused. */
  function ExtractText(u: Upload): (r: Result<string, ExtractError>)
    ensures r == Failure(UnsupportedType) <==> !EndsWith(u.filename, ".pdf") && !EndsWith(u.filename, ".docx")
    ensures r.Failure? && r.error.DecodeFailed? ==>
              (EndsWith(u.filename, ".pdf") && u.pdfPages == Failure(r.error.cause)) ||
              (EndsWith(u.filename, ".docx") && u.docxParagraphs == Failure(r.error.cause))
    ensures r.Success? ==>
              (EndsWith(u.filename, ".pdf") && u.pdfPages.Success?) ||
              (EndsWith(u.filename, ".docx") && u.docxParagraphs.Success?)
  {
    if EndsWith(u.filename, ".pdf") then
      match u.pdfPages
      case Success(pages) => Success(Join(pages, ""))
      case Failure(cause) => Failure(DecodeFailed(cause))
    else if EndsWith(u.filename, ".docx") then
      match u.docxParagraphs
      case Success(paragraphs) => Success(Join(paragraphs, "\n"))
      case Failure(cause) => Failure(DecodeFailed(cause))
    else
      Failure(UnsupportedType)
  }

  /** A PDF's text is its pages written one after another, with nothing
      between them (`Text.ConcatSlices` locates each page in it). */
  lemma PdfTextConcatenatesPages(u: Upload)
    requires EndsWith(u.filename, ".pdf") && u.pdfPages.Success?
    ensures ExtractText(u) == Success(Concat(u.pdfPages.value))
    ensures |ExtractText(u).value| == SumLengths(u.pdfPages.value)
  {
    JoinEmptyIsConcat(u.pdfPages.value);
    ConcatLength(u.pdfPages.value);
  }

  /** A DOCX with n >= 1 paragraphs yields their characters plus n - 1 newlines,
      and splitting the text at newlines gives the paragraphs back when none
      of them contains a newline. */
  lemma DocxTextShape(u: Upload)
    requires EndsWith(u.filename, ".docx") && u.docxParagraphs.Success?
    requires |u.docxParagraphs.value| >= 1
    ensures ExtractText(u).Success?
    ensures |ExtractText(u).value| == SumLengths(u.docxParagraphs.value) + |u.docxParagraphs.value| - 1
    ensures (forall i | 0 <= i < |u.docxParagraphs.value| :: '\n' !in u.docxParagraphs.value[i]) ==>
              Split(ExtractText(u).value, '\n') == u.docxParagraphs.value
  {
    var paragraphs := u.docxParagraphs.value;
    assert !EndsWith(u.filename, ".pdf") by {
      assert u.filename[|u.filename| - 1] == 'x';
    }
    JoinCharLength(paragraphs, '\n');
    if forall i | 0 <= i < |paragraphs| :: '\n' !in paragraphs[i] {
      SplitJoin(paragraphs, '\n');
    }
  }

  // ---------------------------------------------------------------------------
  // The up-front check

  /** The filename, lower-cased, ends in ".pdf" or ".docx". */
  predicate Accepted(filename: string) {
    EndsWith(Lower(filename), ".pdf") || EndsWith(Lower(filename), ".docx")
  }

  /** Every name extraction dispatches on passes the up-front check. */
  lemma ExtractableIsAccepted(u: Upload)
    ensures ExtractText(u) != Failure(UnsupportedType) ==> Accepted(u.filename)
  {
    if EndsWith(u.filename, ".pdf") {
      EndsWithLower(u.filename, ".pdf");
    } else if EndsWith(u.filename, ".docx") {
      EndsWithLower(u.filename, ".docx");
    }
  }

  /** The check is case-insensitive but extraction is not: a name ending in
      ".PDF" passes the check and is then refused as an unsupported type. */
  lemma UpperCaseSuffixPassesCheckButNotExtraction(u: Upload)
    requires EndsWith(u.filename, ".PDF")
    ensures Accepted(u.filename)
    ensures ExtractText(u) == Failure(UnsupportedType)
  {
    var n := |u.filename|;
    assert !EndsWith(u.filename, ".pdf") && !EndsWith(u.filename, ".docx") by {
      assert u.filename[n - 4..][3] == 'F';
    }
    PdfSuffixLowered(u.filename);
  }

  lemma PdfSuffixLowered(s: string)
    requires EndsWith(s, ".PDF")
    ensures EndsWith(Lower(s), ".pdf")
  {
    var n := |s|;
    forall i | 0 <= i < 4
      ensures Lower(s)[n - 4 + i] == ".pdf"[i]
    {
      assert s[n - 4 + i] == ".PDF"[i];
    }
    assert Lower(s)[n - 4..] == ".pdf";
  }
}
