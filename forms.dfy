/** apps/plagiarism/forms.py: PlagiarismCheckForm's field cleaners for the uploaded documents
    and the pasted text, and its cross-field rule. */
module Forms {
  import opened Wrappers
  import opened Text

  const PdfExt: string := ".pdf"
  const DocxExt: string := ".docx"
  /** MAX_FILE_SIZE: 10 MiB per file. */
  const MaxFileSize: int := 10 * 1024 * 1024
  const PdfMime: string := "application/pdf"
  const DocxMime: string := "application/vnd.openxmlformats-officedocument.wordprocessingml.document"
  const OctetStream: string := "application/octet-stream"

  const MinTextLength: int := 100
  const MaxTextLength: int := 50000
  const TooShortMessage: string := "Teks terlalu pendek. Minimal 100 karakter."
  const TooLongMessage: string := "Teks terlalu panjang. Maksimal 50.000 karakter."
  const MissingFileMessage: string := "Harap upload file dokumen."
  const MissingTextMessage: string := "Harap tempelkan teks yang akan diperiksa."

  /** An uploaded file: its client name, its size in bytes and its content_type, None when
      the object has no such attribute. */
  datatype Upload = Upload(name: string, size: int, contentType: Option<string>)

  /** os.path.splitext(name)[1].lower(). */
  function FileExt(u: Upload): string {
    Lower(Ext(u.name))
  }

  /** Membership in ALLOWED_EXTENSIONS. */
  predicate AllowedExtension(e: string) {
    e == PdfExt || e == DocxExt
  }

  /** allowed_mimes.get(ext). */
  function ExpectedMime(e: string): (m: Option<string>)
    ensures m.Some? <==> AllowedExtension(e)
  {
    if e == PdfExt then Some(PdfMime) else if e == DocxExt then Some(DocxMime) else None
  }

  /** The MIME test: a present content_type must be the one expected for the extension or
      application/octet-stream; an extension with no expected type passes. */
  predicate MimeAccepted(u: Upload) {
    var m := ExpectedMime(FileExt(u));
    u.contentType.None? || m.None? || u.contentType.value == m.value || u.contentType.value == OctetStream
  }

  /** A file that passes all three checks. */
  predicate Acceptable(u: Upload) {
    AllowedExtension(FileExt(u)) && u.size <= MaxFileSize && MimeAccepted(u)
  }

  /** The ValidationError a file raises; each names the file. */
  datatype FileError = UnsupportedFormat(name: string) | TooLarge(name: string) | MimeMismatch(name: string)

  /** The first check a file fails, in the order the cleaner makes them. */
  function FileCheck(u: Upload): (e: Option<FileError>)
    ensures e.None? <==> Acceptable(u)
    ensures e == Some(UnsupportedFormat(u.name)) <==> !AllowedExtension(FileExt(u))
    ensures e == Some(TooLarge(u.name)) <==> AllowedExtension(FileExt(u)) && u.size > MaxFileSize
  {
    if !AllowedExtension(FileExt(u)) then Some(UnsupportedFormat(u.name))
    else if u.size > MaxFileSize then Some(TooLarge(u.name))
    else if !MimeAccepted(u) then Some(MimeMismatch(u.name))
    else None
  }

  /** The truthy entries of the list, in order (None stands for a falsy entry). */
  function Present(files: seq<Option<Upload>>): (r: seq<Upload>)
    ensures |r| <= |files|
  {
    if files == [] then []
    else
      var rest := Present(files[..|files| - 1]);
      match files[|files| - 1]
        case None => rest
        case Some(u) => rest + [u]
  }

  lemma {:induction false} PresentAppend(a: seq<Option<Upload>>, b: seq<Option<Upload>>)
    ensures Present(a + b) == Present(a) + Present(b)
    decreases |b|
  {
    if b == [] {
      assert a + b == a;
    } else {
      var b' := b[..|b| - 1];
      assert (a + b)[..|a + b| - 1] == a + b';
      PresentAppend(a, b');
    }
  }

  /** Nothing is kept exactly when every entry is falsy. */
  lemma {:induction false} PresentEmpty(files: seq<Option<Upload>>)
    ensures Present(files) == [] <==> forall i :: 0 <= i < |files| ==> files[i].None?
  {
    if files != [] {
      var init := files[..|files| - 1];
      PresentEmpty(init);
      assert forall i :: 0 <= i < |init| ==> init[i] == files[i];
    }
  }

  /** Every kept file is one of the entries. */
  lemma {:induction false} PresentMembers(files: seq<Option<Upload>>)
    ensures forall i :: 0 <= i < |Present(files)| ==> Some(Present(files)[i]) in files
  {
    if files != [] {
      var init := files[..|files| - 1];
      PresentMembers(init);
      assert forall u :: u in init ==> u in files;
    }
  }

  /** The error of the first element, in order, that `check` rejects. */
  function FirstFailure<T, E>(us: seq<T>, check: T -> Option<E>): Option<E> {
    if us == [] then None
    else
      var p := FirstFailure(us[..|us| - 1], check);
      if p.Some? then p else check(us[|us| - 1])
  }

  /** No error is raised exactly when every element passes. */
  lemma {:induction false} FirstFailureNone<T, E>(us: seq<T>, check: T -> Option<E>)
    ensures FirstFailure(us, check).None? <==> forall i :: 0 <= i < |us| ==> check(us[i]).None?
  {
    if us != [] {
      var init := us[..|us| - 1];
      FirstFailureNone(init, check);
      assert forall i :: 0 <= i < |init| ==> init[i] == us[i];
    }
  }

  /** Once a failure is found, later elements do not change which error is raised. */
  lemma {:induction false} FailureSticks<T, E>(a: seq<T>, b: seq<T>, check: T -> Option<E>)
    requires FirstFailure(a, check).Some?
    ensures FirstFailure(a + b, check) == FirstFailure(a, check)
    decreases |b|
  {
    if b == [] {
      assert a + b == a;
    } else {
      var b' := b[..|b| - 1];
      assert (a + b)[..|a + b| - 1] == a + b';
      FailureSticks(a, b', check);
    }
  }

  /** The element that FirstFailure reports: it fails, and every element before it passes. */
  predicate FailsFirstAt<T, E(==)>(us: seq<T>, check: T -> Option<E>, e: E, k: int) {
    0 <= k < |us| && check(us[k]) == Some(e) && forall j :: 0 <= j < k ==> check(us[j]).None?
  }

  lemma {:induction false} FirstFailureAt<T, E>(us: seq<T>, check: T -> Option<E>)
    requires FirstFailure(us, check).Some?
    ensures exists k :: FailsFirstAt(us, check, FirstFailure(us, check).value, k)
  {
    var init := us[..|us| - 1];
    assert forall i :: 0 <= i < |init| ==> init[i] == us[i];
    if FirstFailure(init, check).Some? {
      FirstFailureAt(init, check);
      var k :| FailsFirstAt(init, check, FirstFailure(init, check).value, k);
      assert FailsFirstAt(us, check, FirstFailure(us, check).value, k);
    } else {
      FirstFailureNone(init, check);
      assert FailsFirstAt(us, check, FirstFailure(us, check).value, |us| - 1);
    }
  }

  /** What clean_document_file returns or raises: the first failing file's error; otherwise
      the truthy files in order, or None when there are none. */
  function CleanedFiles(files: seq<Option<Upload>>): Result<Option<seq<Upload>>, FileError> {
    var kept := Present(files);
    match FirstFailure(kept, FileCheck)
      case Some(e) => Err(e)
      case None => Ok(if kept == [] then None else Some(kept))
  }

  /** An accepted result holds exactly the truthy entries, every one of which passes all
      three checks; a rejection names a file that fails, with every earlier file passing. */
  lemma CleanedFilesMeaning(files: seq<Option<Upload>>)
    ensures CleanedFiles(files).Ok? <==> forall i :: 0 <= i < |Present(files)| ==> Acceptable(Present(files)[i])
    ensures CleanedFiles(files) == Ok(None) <==>
      (forall i :: 0 <= i < |files| ==> files[i].None?)
    ensures CleanedFiles(files).Ok? && CleanedFiles(files).value.Some? ==>
      CleanedFiles(files).value.value == Present(files) &&
      forall i :: 0 <= i < |Present(files)| ==> Acceptable(Present(files)[i])
    ensures CleanedFiles(files).Err? ==>
      exists k :: FailsFirstAt(Present(files), FileCheck, CleanedFiles(files).error, k)
  {
    PresentEmpty(files);
    FirstFailureNone(Present(files), FileCheck);
    if FirstFailure(Present(files), FileCheck).Some? {
      FirstFailureAt(Present(files), FileCheck);
    }
  }

  /** clean_document_file: validates the files one by one, raising at the first that fails. */
  method CleanDocumentFile(files: seq<Option<Upload>>) returns (r: Result<Option<seq<Upload>>, FileError>)
    ensures r == CleanedFiles(files)
  {
    var validated: seq<Upload> := [];
    var i := 0;
    while i < |files|
      invariant 0 <= i <= |files|
      invariant validated == Present(files[..i])
      invariant FirstFailure(validated, FileCheck).None?
    {
      var err;
      err, validated := ValidateEntry(files, i, validated);
      if err.Some? {
        return Err(err.value);
      }
      i := i + 1;
    }
    assert files[..i] == files;
    CleanedOk(files, validated);
    r := if validated == [] then Ok(None) else Ok(Some(validated));
  }

  /** One pass of the loop: a falsy entry is skipped, a failing file raises, a passing file
      is appended. */
  method ValidateEntry(files: seq<Option<Upload>>, i: int, validated: seq<Upload>)
    returns (err: Option<FileError>, next: seq<Upload>)
    requires 0 <= i < |files|
    requires validated == Present(files[..i]) && FirstFailure(validated, FileCheck).None?
    ensures err.Some? ==> CleanedFiles(files) == Err(err.value)
    ensures err.None? ==> next == Present(files[..i + 1]) && FirstFailure(next, FileCheck).None?
  {
    PresentStep(files, i);
    err, next := None, validated;
    if files[i].Some? {
      var file := files[i].value;
      err := CheckFile(file);
      if err.Some? {
        RaisedAt(files, i, validated, FileCheck, err.value);
        CleanedErr(files, err.value);
      } else {
        FailsLast(validated, file, FileCheck);
        next := validated + [file];
      }
    }
  }

  lemma CleanedErr(files: seq<Option<Upload>>, e: FileError)
    requires FirstFailure(Present(files), FileCheck) == Some(e)
    ensures CleanedFiles(files) == Err(e)
  {
  }

  lemma CleanedOk(files: seq<Option<Upload>>, validated: seq<Upload>)
    requires validated == Present(files) && FirstFailure(validated, FileCheck).None?
    ensures CleanedFiles(files) == Ok(if validated == [] then None else Some(validated))
  {
  }

  /** The three checks of the loop body, in order: extension, size, MIME type. */
  method CheckFile(file: Upload) returns (err: Option<FileError>)
    ensures err == FileCheck(file)
  {
    err := None;
    if !AllowedExtension(FileExt(file)) {
      err := Some(UnsupportedFormat(file.name));
    } else if file.size > MaxFileSize {
      err := Some(TooLarge(file.name));
    } else if !MimeAccepted(file) {
      err := Some(MimeMismatch(file.name));
    }
  }

  lemma PresentStep(files: seq<Option<Upload>>, i: int)
    requires 0 <= i < |files|
    ensures Present(files[..i + 1]) == Present(files[..i]) + (if files[i].Some? then [files[i].value] else [])
  {
    assert files[..i + 1][..i] == files[..i];
  }

  /** The error raised by the i-th entry is the whole field's error. */
  lemma RaisedAt(files: seq<Option<Upload>>, i: int, validated: seq<Upload>, check: Upload -> Option<FileError>, e: FileError)
    requires 0 <= i < |files| && files[i].Some? && check(files[i].value) == Some(e)
    requires validated == Present(files[..i]) && FirstFailure(validated, check).None?
    ensures FirstFailure(Present(files), check) == Some(e)
  {
    var head := files[..i + 1];
    var tail := files[i + 1..];
    PresentSnoc(files, i, head);
    FailsLast(validated, files[i].value, check);
    PresentSplit(files, head, tail);
    FailureSticks(Present(head), Present(tail), check);
  }

  lemma PresentSnoc(files: seq<Option<Upload>>, i: int, head: seq<Option<Upload>>)
    requires 0 <= i < |files| && files[i].Some? && head == files[..i + 1]
    ensures Present(head) == Present(files[..i]) + [files[i].value]
  {
    assert head[..i] == files[..i];
  }

  lemma FailsLast<T, E>(xs: seq<T>, x: T, check: T -> Option<E>)
    requires FirstFailure(xs, check).None?
    ensures FirstFailure(xs + [x], check) == check(x)
  {
    assert (xs + [x])[..|xs|] == xs;
  }

  lemma PresentSplit(files: seq<Option<Upload>>, head: seq<Option<Upload>>, tail: seq<Option<Upload>>)
    requires files == head + tail
    ensures Present(files) == Present(head) + Present(tail)
  {
    PresentAppend(head, tail);
  }

  /** clean_pasted_text: the stripped text, unless it is non-empty and shorter than 100 or
      longer than 50000 characters. */
  function CleanPastedText(raw: string): (r: Result<string, string>)
    ensures r.Ok? <==> |Strip(raw)| == 0 || MinTextLength <= |Strip(raw)| <= MaxTextLength
    ensures r.Ok? ==> r.value == Strip(raw)
    ensures r == Err(TooShortMessage) <==> 0 < |Strip(raw)| < MinTextLength
    ensures r == Err(TooLongMessage) <==> |Strip(raw)| > MaxTextLength
  {
    var text := Strip(raw);
    if text == "" then Ok(text)
    else if |text| < MinTextLength then Err(TooShortMessage)
    else if |text| > MaxTextLength then Err(TooLongMessage)
    else Ok(text)
  }

  /** Cleaning an already cleaned text gives it back. */
  lemma CleanPastedTextIdempotent(raw: string)
    requires CleanPastedText(raw).Ok?
    ensures CleanPastedText(CleanPastedText(raw).value) == CleanPastedText(raw)
  {
    StripIdempotent(raw);
  }

  /** An error the form attaches to one of its fields. */
  datatype FieldError = FieldError(field: string, message: string)

  /** `if not document_file`. */
  predicate HasFiles(d: Option<seq<Upload>>) {
    d.Some? && d.value != []
  }

  /** `if not pasted_text`. */
  predicate HasText(t: Option<string>) {
    t.Some? && t.value != ""
  }

  /** The cleaned_data of a PlagiarismCheckForm and the errors added to it. */
  class CheckForm {
    var inputType: string
    var documentFile: Option<seq<Upload>>
    var pastedText: Option<string>
    var errors: seq<FieldError>

    constructor(inputType: string, documentFile: Option<seq<Upload>>, pastedText: Option<string>)
      ensures this.inputType == inputType && this.documentFile == documentFile
      ensures this.pastedText == pastedText && errors == []
    {
      this.inputType := inputType;
      this.documentFile := documentFile;
      this.pastedText := pastedText;
      errors := [];
    }

    /** The field the chosen input type does not use is cleared. */
    predicate Settled()
      reads this
    {
      (inputType == "file" ==> pastedText.None?) && (inputType == "text" ==> documentFile.None?)
    }

    /** clean: the chosen input needs its field filled, and the other field is cleared. */
    method Clean()
      modifies this
      ensures inputType == old(inputType) && Settled()
      ensures inputType == "file" ==>
        documentFile == old(documentFile) && pastedText == None &&
        errors == old(errors) + (if HasFiles(documentFile) then [] else [FieldError("document_file", MissingFileMessage)])
      ensures inputType == "text" ==>
        pastedText == old(pastedText) && documentFile == None &&
        errors == old(errors) + (if HasText(pastedText) then [] else [FieldError("pasted_text", MissingTextMessage)])
      ensures inputType != "file" && inputType != "text" ==>
        documentFile == old(documentFile) && pastedText == old(pastedText) && errors == old(errors)
      ensures errors == old(errors) <==>
        (inputType == "file" ==> HasFiles(documentFile)) && (inputType == "text" ==> HasText(pastedText))
    {
      if inputType == "file" {
        if !HasFiles(documentFile) {
          errors := errors + [FieldError("document_file", MissingFileMessage)];
        }
        pastedText := None;
      } else if inputType == "text" {
        if !HasText(pastedText) {
          errors := errors + [FieldError("pasted_text", MissingTextMessage)];
        }
        documentFile := None;
      }
    }
  }
}
