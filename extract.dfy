/** Document text extraction: PlagiarismService.validate_pdf, _extract_from_pdf,
    _extract_from_docx and extract_text. Opening a file with PyMuPDF or python-docx is a
    foreign call; its outcome is given as data. */
module Extraction {
  import opened Wrappers
  import opened Text
  import opened Normalize
  import opened PdfPage

  /** How fitz.open can fail: FileDataError, PasswordError, or any other exception. */
  datatype OpenError = FileDataError | PasswordError | OtherOpenError(message: string)

  /** A PDF as PyMuPDF opens it: its pages, or the exception fitz.open raised. */
  type PdfDoc = Result<seq<Page>, OpenError>

  // ----- validate_pdf -----

  const ScanMessage: string :=
    "PDF kemungkinan berupa scan/gambar. Gunakan OCR atau copy-paste teks manual ke form 'Paste Teks'."

  /** PlagiarismService.validate_pdf: None when the PDF is accepted, otherwise the reason. */
  function ValidatePdf(doc: PdfDoc): Option<string> {
    match doc
    case Err(FileDataError) => Some("File PDF corrupt atau tidak valid")
    case Err(PasswordError) => Some("PDF terproteksi password")
    case Err(OtherOpenError(m)) => Some("Error validasi PDF: " + m)
    case Ok(pages) =>
      if |pages| == 0 then Some("PDF kosong (0 halaman)")
      else match pages[0].text
        case Err(m) => Some("Error validasi PDF: " + m)
        case Ok(sample) => if Weak(sample) then Some(ScanMessage) else None
  }

  /** A PDF passes validation exactly when it opens, has a page, and the plain text of its
      first page is not weak. */
  lemma ValidatePdfAccepts(doc: PdfDoc)
    ensures ValidatePdf(doc) == None <==>
      doc.Ok? && |doc.value| > 0 && doc.value[0].text.Ok? && !Weak(doc.value[0].text.value)
  {
  }

  // ----- _extract_from_pdf -----

  /** What a page adds to the document text: its stripped text and a blank line, or
      nothing when the page is blank or raised. */
  function PageChunk(p: Page): string {
    ChunkOf(PageText(p))
  }
  function ChunkOf(pt: Option<string>): string {
    match pt
    case None => ""
    case Some(t) => if Strip(t) != [] then Strip(t) + "\n\n" else ""
  }

  /** The text accumulated over the pages, in page order. */
  function PagesText(pages: seq<Page>): string {
    if pages == [] then "" else PagesText(pages[..|pages| - 1]) + PageChunk(pages[|pages| - 1])
  }

  /** The images counted over the pages. */
  function PagesImages(pages: seq<Page>): nat {
    if pages == [] then 0 else PagesImages(pages[..|pages| - 1]) + PageImages(pages[|pages| - 1])
  }

  // The messages below are written in pieces, the keyword "gambar" standing on its own.

  function ImagesOnlyMessage(images: nat): string {
    "PDF berisi " + NatToString(images) + " " + "gambar" + ImagesOnlyTail
  }

  const ImagesOnlyTail: string :=
    " tetapi tidak ada teks yang dapat diekstrak. Kemungkinan PDF berupa koleksi gambar/scan. " +
    "Gunakan OCR atau copy-paste teks manual."

  const CorruptMessage: string := "File PDF corrupt atau tidak valid. Silakan coba file lain."
  const PasswordMessage: string := "PDF terproteksi password. Silakan hapus password terlebih dahulu."
  const NoTextMessage: string := NoText1 + NoText2 + NoText3
  const NoText1: string := "Tidak ada teks yang dapat"
  const NoText2: string := " diekstrak dari PDF. PDF"
  const NoText3: string := " mungkin kosong."

  function TooShortMessage(length: nat): string {
    "Teks yang diekstrak terlalu sedikit (" + NatToString(length) + " karakter). PDF mungkin mostly berisi " +
    "gambar" + TooShortTail
  }

  const TooShortTail: string := ". Gunakan OCR atau copy-paste teks manual ke form 'Paste Teks'."

  /** The outer handler: a message mentioning insufficient text, no text or images
      ("gambar"), in any case, passes unchanged; any other gets a prefix. */
  function Rewrap(m: string): string {
    var lower := Lower(m);
    if Contains(lower, "insufficient text") || Contains(lower, "no text") || Contains(lower, "gambar")
    then m else "Error saat memproses PDF: " + m
  }

  /** What _extract_from_pdf returns (Ok) or raises (Err). */
  function PdfOutcome(doc: PdfDoc): Result<string, string> {
    match doc
    case Err(FileDataError) => Err(CorruptMessage)
    case Err(PasswordError) => Err(PasswordMessage)
    case Err(OtherOpenError(m)) => Err(Rewrap(m))
    case Ok(pages) => TextOutcome(Strip(PagesText(pages)), PagesImages(pages))
  }

  /** The checks on the stripped text of the pages and their image count. */
  function TextOutcome(text: string, images: nat): Result<string, string> {
    if text == [] then
      Err(Rewrap(if images > 0 then ImagesOnlyMessage(images) else NoTextMessage))
    else if |text| < 50 then Err(Rewrap(TooShortMessage(|text|)))
    else Ok(text)
  }

  lemma PagesSnoc(pages: seq<Page>, i: nat)
    requires i < |pages|
    ensures PagesText(pages[..i + 1]) == PagesText(pages[..i]) + ChunkOf(PageText(pages[i]))
    ensures PagesImages(pages[..i + 1]) == PagesImages(pages[..i]) + PageImages(pages[i])
  {
    assert pages[..i + 1][..i] == pages[..i];
  }

  /** `if page_text.strip(): text += page_text.strip() + "\n\n"`. */
  method AddChunk(text: string, pageText: Option<string>) returns (text': string)
    ensures text' == text + ChunkOf(pageText)
  {
    text' := text;
    if pageText.Some? && Strip(pageText.value) != [] {
      text' := text + Strip(pageText.value) + "\n\n";
    }
  }

  /** The page loop: the text and the image count accumulated over the pages. */
  method ReadPages(pages: seq<Page>) returns (text: string, totalImages: nat)
    ensures text == PagesText(pages)
    ensures totalImages == PagesImages(pages)
  {
    text := "";
    totalImages := 0;
    for i := 0 to |pages|
      invariant text == PagesText(pages[..i])
      invariant totalImages == PagesImages(pages[..i])
    {
      PagesSnoc(pages, i);
      totalImages := totalImages + PageImages(pages[i]);
      var pageText := ReadPage(pages[i]);
      text := AddChunk(text, pageText);
    }
    assert pages[..|pages|] == pages;
  }

  /** PlagiarismService._extract_from_pdf. */
  method ExtractFromPdf(doc: PdfDoc) returns (r: Result<string, string>)
    ensures r == PdfOutcome(doc)
  {
    if doc.Err? {
      match doc.error {
        case FileDataError => return Err(CorruptMessage);
        case PasswordError => return Err(PasswordMessage);
        case OtherOpenError(m) => return Err(Rewrap(m));
      }
    }
    var text, totalImages := ReadPages(doc.value);
    r := CheckText(Strip(text), totalImages);
  }

  /** The empty-text, image-only and too-short checks. */
  method CheckText(text: string, totalImages: nat) returns (r: Result<string, string>)
    ensures r == TextOutcome(text, totalImages)
  {
    if text == [] {
      if totalImages > 0 {
        return Err(Rewrap(ImagesOnlyMessage(totalImages)));
      }
      return Err(Rewrap(NoTextMessage));
    }
    if |text| < 50 {
      return Err(Rewrap(TooShortMessage(|text|)));
    }
    r := Ok(text);
  }

  /** The accepted PDF text is stripped and at least 50 characters long. */
  lemma PdfOutcomeAccepted(doc: PdfDoc)
    requires PdfOutcome(doc).Ok?
    ensures |PdfOutcome(doc).value| >= 50
    ensures Strip(PdfOutcome(doc).value) == PdfOutcome(doc).value
  {
    StripIdempotent(PagesText(doc.value));
  }

  lemma ContainsAt(hay: string, needle: string, i: nat)
    requires i + |needle| <= |hay| && hay[i..i + |needle|] == needle
    ensures Contains(hay, needle)
  {
    assert IsPrefix(needle, hay[i..]);
  }

  /** A needle with a letter the text lacks in both cases does not occur in its lower-case form. */
  lemma NotContainsLetter(m: string, needle: string, j: nat, upper: char)
    requires j < |needle| && 'a' <= needle[j] <= 'z' && upper as int == needle[j] as int - 32
    requires needle[j] !in m && upper !in m
    ensures !Contains(Lower(m), needle)
  {
    forall i | 0 <= i <= |Lower(m)| - |needle|
      ensures !IsPrefix(needle, Lower(m)[i..])
    {
      assert m[i + j] != needle[j] && m[i + j] != upper;
      assert LowerChar(m[i + j]) != needle[j];
      assert Lower(m)[i..][j] != needle[j];
    }
  }

  /** A message made of some text, "gambar" and more text mentions "gambar" in lower case. */
  lemma ContainsGambar(a: string, c: string)
    ensures Contains(Lower(a + "gambar" + c), "gambar")
  {
    LowerAppend(a + "gambar", c);
    LowerAppend(a, "gambar");
    assert Lower("gambar") == "gambar";
    var l := Lower(a + "gambar" + c);
    assert l == Lower(a) + "gambar" + Lower(c);
    assert l[|a|..|a| + 6] == "gambar";
    ContainsAt(l, "gambar", |a|);
  }

  /** The image-only message mentions "gambar", so the outer handler passes it unchanged. */
  lemma RewrapImagesOnly(images: nat)
    ensures Rewrap(ImagesOnlyMessage(images)) == ImagesOnlyMessage(images)
  {
    ContainsGambar("PDF berisi " + NatToString(images) + " ", ImagesOnlyTail);
  }

  /** The too-short message mentions "gambar", so it is passed unchanged as well. */
  lemma RewrapTooShort(length: nat)
    ensures Rewrap(TooShortMessage(length)) == TooShortMessage(length)
  {
    ContainsGambar("Teks yang diekstrak terlalu sedikit (" + NatToString(length) + " karakter). PDF mungkin mostly berisi ",
                   TooShortTail);
  }

  /** No letter x or b, in either case. */
  predicate LacksXB(s: string) {
    forall i :: 0 <= i < |s| ==> s[i] != 'x' && s[i] != 'X' && s[i] != 'b' && s[i] != 'B'
  }

  lemma NoText1Lacks()
    ensures LacksXB(NoText1)
  {
  }

  lemma NoText2Lacks()
    ensures LacksXB(NoText2)
  {
  }

  lemma NoText3Lacks()
    ensures LacksXB(NoText3)
  {
  }

  lemma LacksConcat(a: string, b: string)
    requires LacksXB(a) && LacksXB(b)
    ensures LacksXB(a + b)
  {
    forall i | 0 <= i < |a + b|
      ensures (a + b)[i] != 'x' && (a + b)[i] != 'X' && (a + b)[i] != 'b' && (a + b)[i] != 'B'
    {
      if i >= |a| {
        assert (a + b)[i] == b[i - |a|];
      }
    }
  }

  lemma NoTextLacks()
    ensures 'x' !in NoTextMessage && 'X' !in NoTextMessage
    ensures 'b' !in NoTextMessage && 'B' !in NoTextMessage
  {
    NoText1Lacks();
    NoText2Lacks();
    NoText3Lacks();
    LacksConcat(NoText1, NoText2);
    LacksConcat(NoText1 + NoText2, NoText3);
  }

  /** The empty-PDF message mentions none of the keywords, so unlike the image-only
      message it comes out behind the generic prefix. */
  lemma RewrapNoText()
    ensures Rewrap(NoTextMessage) == "Error saat memproses PDF: " + NoTextMessage
  {
    NoTextLacks();
    NotContainsLetter(NoTextMessage, "insufficient text", 15, 'X');
    NotContainsLetter(NoTextMessage, "no text", 5, 'X');
    NotContainsLetter(NoTextMessage, "gambar", 3, 'B');
  }

  lemma {:induction false} PagesTextPrefix(pages: seq<Page>, i: nat)
    requires i <= |pages|
    ensures |PagesText(pages[..i])| <= |PagesText(pages)|
    ensures PagesText(pages)[..|PagesText(pages[..i])|] == PagesText(pages[..i])
  {
    if i < |pages| {
      var q := pages[..|pages| - 1];
      PagesTextPrefix(q, i);
      assert q[..i] == pages[..i];
      var s := PagesText(pages);
      assert s == PagesText(q) + PageChunk(pages[|pages| - 1]);
      assert s[..|PagesText(q)|] == PagesText(q);
    } else {
      assert pages[..i] == pages;
    }
  }

  /** A text that begins with a non-whitespace character is not blank. */
  lemma NonBlankPrefix(s: string, c: string)
    requires c != [] && !IsSpace(c[0]) && |c| <= |s| && s[..|c|] == c
    ensures Strip(s) != []
  {
    assert s[0] == c[0];
    StripFacts(s);
  }

  lemma FirstPageChunk(p: Page)
    requires p.images.Ok? && p.text.Ok? && !Weak(p.text.value)
    ensures ChunkOf(PageText(p)) == Strip(p.text.value) + "\n\n"
    ensures Strip(p.text.value) != [] && !IsSpace(Strip(p.text.value)[0])
  {
    StripFacts(p.text.value);
  }

  /** A validated PDF whose first page also counts its images never fails for lack of text:
      the first page's plain text is kept, so the document text is not blank. */
  lemma ValidatedPdfHasText(doc: PdfDoc)
    requires ValidatePdf(doc) == None && doc.value[0].images.Ok?
    ensures Strip(PagesText(doc.value)) != []
    ensures PdfOutcome(doc).Ok? || PdfOutcome(doc) == Err(Rewrap(TooShortMessage(|Strip(PagesText(doc.value))|)))
  {
    var pages := doc.value;
    FirstPageChunk(pages[0]);
    PagesTextPrefix(pages, 1);
    PagesSnoc(pages, 0);
    assert pages[..0] == [];
    NonBlankPrefix(PagesText(pages), PagesText(pages[..1]));
  }

  /** The same fails without the image count: when get_images() raises on the only page,
      the page handler skips that page's text, and a validated PDF ends as one with no text. */
  lemma ValidatedPdfImagesRaise(p: Page)
    requires ValidatePdf(Ok([p])) == None && p.images.Err?
    ensures PagesText([p]) == ""
    ensures PdfOutcome(Ok([p])) == Err(Rewrap(NoTextMessage))
  {
    assert [p][..0] == [];
    assert PagesImages([p]) == 0;
    assert Strip(PagesText([p])) == [];
  }

  // ----- _extract_from_docx -----

  /** A table as python-docx reports it: rows of cell texts. */
  type Table = seq<seq<string>>

  /** A .docx document: paragraph texts and tables. */
  datatype Docx = Docx(paragraphs: seq<string>, tables: seq<Table>)

  /** The non-blank paragraphs, not stripped. */
  function KeptParagraphs(ps: seq<string>): (r: seq<string>)
    ensures |r| <= |ps|
    ensures forall i :: 0 <= i < |r| ==> Strip(r[i]) != []
  {
    if ps == [] then [] else (if Strip(ps[0]) != [] then [ps[0]] else []) + KeptParagraphs(ps[1..])
  }

  /** What one cell gives: its stripped text, unless that is empty. */
  function CellText(cell: string): seq<string> {
    if Strip(cell) != [] then [Strip(cell)] else []
  }

  /** The stripped non-blank cells of a row, in order. */
  function RowTexts(cells: seq<string>): seq<string> {
    if cells == [] then [] else RowTexts(cells[..|cells| - 1]) + CellText(cells[|cells| - 1])
  }

  function TableTexts(rows: Table): seq<string> {
    if rows == [] then [] else TableTexts(rows[..|rows| - 1]) + RowTexts(rows[|rows| - 1])
  }

  /** Cell texts of all tables, row by row. */
  function TablesTexts(tables: seq<Table>): seq<string> {
    if tables == [] then [] else TablesTexts(tables[..|tables| - 1]) + TableTexts(tables[|tables| - 1])
  }

  /** Every collected cell text is stripped and non-blank. */
  lemma {:induction false} RowTextsStripped(cells: seq<string>)
    ensures forall i :: 0 <= i < |RowTexts(cells)| ==>
      RowTexts(cells)[i] != [] && Strip(RowTexts(cells)[i]) == RowTexts(cells)[i]
  {
    if cells != [] {
      RowTextsStripped(cells[..|cells| - 1]);
      StripIdempotent(cells[|cells| - 1]);
      assert RowTexts(cells) == RowTexts(cells[..|cells| - 1]) + CellText(cells[|cells| - 1]);
    }
  }

  lemma {:induction false} TableTextsStripped(rows: Table)
    ensures forall i :: 0 <= i < |TableTexts(rows)| ==>
      TableTexts(rows)[i] != [] && Strip(TableTexts(rows)[i]) == TableTexts(rows)[i]
  {
    if rows != [] {
      TableTextsStripped(rows[..|rows| - 1]);
      RowTextsStripped(rows[|rows| - 1]);
    }
  }

  lemma {:induction false} TablesTextsStripped(tables: seq<Table>)
    ensures forall i :: 0 <= i < |TablesTexts(tables)| ==>
      TablesTexts(tables)[i] != [] && Strip(TablesTexts(tables)[i]) == TablesTexts(tables)[i]
  {
    if tables != [] {
      TablesTextsStripped(tables[..|tables| - 1]);
      TableTextsStripped(tables[|tables| - 1]);
    }
  }

  /** The text assembled from a document: paragraphs joined by newlines, then, if any cell
      has text, a blank line and the cell texts joined by newlines. */
  function DocxText(d: Docx): string {
    var cells := TablesTexts(d.tables);
    Join("\n", KeptParagraphs(d.paragraphs)) + (if cells != [] then "\n\n" + Join("\n", cells) else "")
  }

  const DocxPrefix: string := "Gagal mengekstrak teks dari DOCX: "

  /** What _extract_from_docx returns (Ok) or raises (Err). */
  function DocxOutcome(docx: Result<Docx, string>): Result<string, string> {
    match docx
    case Err(m) => Err(DocxPrefix + m)
    case Ok(d) =>
      var text := DocxText(d);
      if text == [] || |Strip(text)| < 100 then Err(DocxPrefix + "DOCX extraction resulted in insufficient text")
      else Ok(text)
  }

  method CollectRow(cells: seq<string>) returns (texts: seq<string>)
    ensures texts == RowTexts(cells)
  {
    texts := [];
    for c := 0 to |cells|
      invariant texts == RowTexts(cells[..c])
    {
      assert cells[..c + 1][..c] == cells[..c];
      if Strip(cells[c]) != [] {
        texts := texts + [Strip(cells[c])];
      }
    }
    assert cells[..|cells|] == cells;
  }

  method CollectTable(rows: Table) returns (texts: seq<string>)
    ensures texts == TableTexts(rows)
  {
    texts := [];
    for r := 0 to |rows|
      invariant texts == TableTexts(rows[..r])
    {
      assert rows[..r + 1][..r] == rows[..r];
      var rowTexts := CollectRow(rows[r]);
      texts := texts + rowTexts;
    }
    assert rows[..|rows|] == rows;
  }

  /** The cell texts of the tables, collected by the nested loops over tables, rows and cells. */
  method CollectCells(tables: seq<Table>) returns (cellTexts: seq<string>)
    ensures cellTexts == TablesTexts(tables)
  {
    cellTexts := [];
    for t := 0 to |tables|
      invariant cellTexts == TablesTexts(tables[..t])
    {
      assert tables[..t + 1][..t] == tables[..t];
      var tableTexts := CollectTable(tables[t]);
      cellTexts := cellTexts + tableTexts;
    }
    assert tables[..|tables|] == tables;
  }

  /** PlagiarismService._extract_from_docx. */
  method ExtractFromDocx(docx: Result<Docx, string>) returns (r: Result<string, string>)
    ensures r == DocxOutcome(docx)
  {
    if docx.Err? {
      return Err(DocxPrefix + docx.error);
    }
    var d := docx.value;
    var paragraphs := KeptParagraphs(d.paragraphs);
    var tableTexts := CollectCells(d.tables);
    var text := Join("\n", paragraphs);
    if |tableTexts| > 0 {
      text := text + ("\n\n" + Join("\n", tableTexts));
    }
    assert text == DocxText(d);
    if |text| == 0 || |Strip(text)| < 100 {
      return Err(DocxPrefix + "DOCX extraction resulted in insufficient text");
    }
    r := Ok(text);
  }

  /** An accepted DOCX text has at least 100 characters once stripped. */
  lemma DocxOutcomeAccepted(docx: Result<Docx, string>)
    requires DocxOutcome(docx).Ok?
    ensures |Strip(DocxOutcome(docx).value)| >= 100
    ensures docx.Ok? && DocxOutcome(docx).value == DocxText(docx.value)
  {
  }

  /** Behind a blank line, newline-free pieces joined by newlines split back into an empty
      piece followed by those pieces. */
  lemma SplitBehindBlankLine(p: string, cells: seq<string>)
    requires cells != [] && forall i :: 0 <= i < |cells| ==> '\n' !in cells[i]
    ensures Split(p + ("\n\n" + Join("\n", cells)), '\n') == Split(p, '\n') + ([""] + cells)
  {
    var c := Join("\n", cells);
    SplitJoin(cells, '\n');
    assert p + ("\n\n" + c) == p + ['\n'] + ("" + ['\n'] + c);
    SplitAppend(p, '\n', "" + ['\n'] + c);
    SplitAppend("", '\n', c);
    assert Split("", '\n') == [""];
  }

  /** Read back line by line, the text is the kept paragraphs, then (if there are cells) one
      empty line and the stripped cell texts, when no paragraph or cell has a newline inside. */
  lemma DocxTextLines(d: Docx)
    requires KeptParagraphs(d.paragraphs) != []
    requires forall i :: 0 <= i < |KeptParagraphs(d.paragraphs)| ==> '\n' !in KeptParagraphs(d.paragraphs)[i]
    requires forall i :: 0 <= i < |TablesTexts(d.tables)| ==> '\n' !in TablesTexts(d.tables)[i]
    ensures TablesTexts(d.tables) == [] ==> Split(DocxText(d), '\n') == KeptParagraphs(d.paragraphs)
    ensures TablesTexts(d.tables) != [] ==>
      Split(DocxText(d), '\n') == KeptParagraphs(d.paragraphs) + ([""] + TablesTexts(d.tables))
  {
    var ps := KeptParagraphs(d.paragraphs);
    var cells := TablesTexts(d.tables);
    SplitJoin(ps, '\n');
    if cells != [] {
      SplitBehindBlankLine(Join("\n", ps), cells);
    } else {
      assert DocxText(d) == Join("\n", ps) + "";
      assert Join("\n", ps) + "" == Join("\n", ps);
    }
  }

  // ----- extract_text -----

  /** PlagiarismService.extract_text: the file extension chooses the reader (a PDF is
      validated first); any other extension gives empty text; the result is cleaned.
      Err carries the message of the ValueError raised. */
  method ExtractText(ext: string, pdf: PdfDoc, docx: Result<Docx, string>) returns (r: Result<string, string>)
    ensures r == ExtractedText(ext, pdf, docx)
  {
    var text := "";
    if ext == ".pdf" {
      var invalid := ValidatePdf(pdf);
      if invalid.Some? {
        return Err(invalid.value);
      }
      var outcome := ExtractFromPdf(pdf);
      if outcome.Err? {
        return Err(outcome.error);
      }
      text := outcome.value;
    } else if ext == ".docx" {
      var outcome := ExtractFromDocx(docx);
      if outcome.Err? {
        return Err(outcome.error);
      }
      text := outcome.value;
    }
    var cleaned := CleanText(text);
    r := Ok(cleaned);
  }

  /** The value extract_text returns or the message it raises. */
  function ExtractedText(ext: string, pdf: PdfDoc, docx: Result<Docx, string>): Result<string, string> {
    if ext == ".pdf" then
      if ValidatePdf(pdf).Some? then Err(ValidatePdf(pdf).value)
      else match PdfOutcome(pdf)
        case Err(m) => Err(m)
        case Ok(t) => Ok(Cleaned(t))
    else if ext == ".docx" then
      match DocxOutcome(docx)
      case Err(m) => Err(m)
      case Ok(t) => Ok(Cleaned(t))
    else Ok(Cleaned(""))
  }

  /** Extracted text is always already clean, and a file that is neither PDF nor DOCX
      yields the empty text. */
  lemma ExtractedTextClean(ext: string, pdf: PdfDoc, docx: Result<Docx, string>)
    requires ExtractedText(ext, pdf, docx).Ok?
    ensures Cleaned(ExtractedText(ext, pdf, docx).value) == ExtractedText(ext, pdf, docx).value
    ensures ext != ".pdf" && ext != ".docx" ==> ExtractedText(ext, pdf, docx).value == ""
  {
    match ExtractedText(ext, pdf, docx) {
      case Ok(v) =>
        if ext == ".pdf" {
          CleanedIdempotent(PdfOutcome(pdf).value);
        } else if ext == ".docx" {
          CleanedIdempotent(DocxOutcome(docx).value);
        }
    }
  }
}
