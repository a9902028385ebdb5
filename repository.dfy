/** The document repository (apps/repository): RepositoryFile records, the upload path and
    the fields save() derives, and the indexing run of the admin view. */
module Repository {
  import opened Wrappers
  import opened Text

  datatype RepoStatus = Pending | Indexed | Failed

  /** A RepositoryFile row. `file` is the stored file name ("" when there is none); ids are
      UUID strings; dates are instants given as integers. */
  datatype RepoFile = RepoFile(
    id: string,
    filename: string,
    basename: string,
    filetype: string,
    file: string,
    extractedTextPath: Option<string>,
    sizeBytes: int,
    extractedTextLength: int,
    indexDate: Option<int>,
    status: RepoStatus,
    errorMessage: Option<string>,
    title: string,
    author: string,
    year: Option<int>)

  /** get_upload_path: "documents/<id>.<text after the last '.' of the name>". */
  function UploadPath(id: string, filename: string): (p: string)
    ensures IsPrefix("documents/" + id + ".", p)
    ensures '.' !in p[|"documents/" + id + "."|..]
  {
    var parts := Split(filename, '.');
    SplitNoSep(filename, '.');
    "documents/" + id + "." + parts[|parts| - 1]
  }

  /** The piece after the last separator: what split(c)[-1] returns. */
  lemma SplitLast(s: string, c: char)
    ensures Split(s, c)[|Split(s, c)| - 1] == s[LastIndexOf(s, c) + 1..]
  {
    var l := LastIndexOf(s, c);
    var v := s[l + 1..];
    NoneAfterLast(s, c, l, v);
    SplitPiece(v, c);
    if l < 0 {
      assert s == v;
    } else {
      var u := s[..l];
      SplitAround(s, c, l, u, v);
      LastOfAppend(Split(s, c), Split(u, c), v);
    }
  }

  /** The text after the last separator holds none. */
  lemma NoneAfterLast(s: string, c: char, l: int, v: string)
    requires l == LastIndexOf(s, c) && v == s[l + 1..]
    ensures c !in v
  {
    LastIndexOfAfter(s, c);
    forall i | 0 <= i < |v|
      ensures v[i] != c
    {
      assert v[i] == s[l + 1 + i];
    }
  }

  /** Cutting at a separator splits the two sides apart. */
  lemma SplitAround(s: string, c: char, l: nat, u: string, v: string)
    requires l < |s| && s[l] == c && u == s[..l] && v == s[l + 1..]
    ensures Split(s, c) == Split(u, c) + Split(v, c)
  {
    assert s == u + [c] + v;
    SplitAppend(u, c, v);
  }

  lemma LastOfAppend(x: seq<string>, a: seq<string>, v: string)
    requires x == a + [v]
    ensures |x| >= 1 && x[|x| - 1] == v
  {
  }

  /** The extension get_upload_path keeps: the part of the name after its last '.' (the
      whole name when there is none). */
  lemma UploadPathExtension(id: string, filename: string)
    ensures UploadPath(id, filename) == "documents/" + id + "." + filename[LastIndexOf(filename, '.') + 1..]
  {
    SplitLast(filename, '.');
  }

  /** s with every '.' removed (str.replace('.', '')). */
  function DropDots(s: string): (r: string)
    ensures '.' !in r
    ensures |r| <= |s|
  {
    if s == [] then [] else (if s[0] == '.' then [] else [s[0]]) + DropDots(s[1..])
  }

  /** RepositoryFile.save: filename, basename and filetype, each filled in only when empty
      (the file's base name; the name's stem; its extension without the dot, lower-cased). */
  function Saved(f: RepoFile): (g: RepoFile)
    ensures g == f.(filename := g.filename, basename := g.basename, filetype := g.filetype)
    ensures f.filename != "" ==> g.filename == f.filename
    ensures f.basename != "" ==> g.basename == f.basename
    ensures f.filetype != "" ==> g.filetype == f.filetype
  {
    var filename := if f.filename == "" then Basename(f.file) else f.filename;
    var basename := if f.basename == "" then Stem(filename) else f.basename;
    var filetype := if f.filetype == "" then Lower(DropDots(Ext(filename))) else f.filetype;
    f.(filename := filename, basename := basename, filetype := filetype)
  }

  /** What save() derives for empty fields: the file's base name, then that name's stem and
      its lower-case extension, the two together making up the name again. */
  lemma SavedDerivation(f: RepoFile)
    requires f.filename == "" && f.basename == "" && f.filetype == ""
    ensures Saved(f).filename == Basename(f.file) && '/' !in Saved(f).filename
    ensures Saved(f).basename + Ext(Saved(f).filename) == Saved(f).filename
    ensures Ext(Saved(f).filename) == "" ==> Saved(f).filetype == ""
    ensures Ext(Saved(f).filename) != "" ==> Saved(f).filetype == Lower(Ext(Saved(f).filename)[1..])
    ensures forall i :: 0 <= i < |Saved(f).filetype| ==> Saved(f).filetype[i] != '.' && !('A' <= Saved(f).filetype[i] <= 'Z')
  {
    var g := Saved(f);
    var name := Basename(f.file);
    assert g.filename == name && g.basename == Stem(name) && g.filetype == Lower(DropDots(Ext(name)));
    NameParts(name, g.basename, Ext(name), g.filetype);
  }

  /** A name is its stem followed by its extension; the derived file type is the extension
      without its dot, in lower case. */
  lemma NameParts(name: string, stem: string, e: string, ft: string)
    requires stem == Stem(name) && e == Ext(name) && ft == Lower(DropDots(e))
    ensures stem + e == name
    ensures e == "" ==> ft == ""
    ensures e != "" ==> ft == Lower(e[1..])
    ensures forall i :: 0 <= i < |ft| ==> ft[i] != '.' && !('A' <= ft[i] <= 'Z')
  {
    StemExt(name);
    ExtType(e, ft);
  }

  /** The file type derived from an extension: empty for none, else the rest after the dot. */
  lemma ExtType(e: string, ft: string)
    requires e == [] || (e[0] == '.' && '.' !in e[1..])
    requires ft == Lower(DropDots(e))
    ensures e == "" ==> ft == ""
    ensures e != "" ==> ft == Lower(e[1..])
    ensures forall i :: 0 <= i < |ft| ==> ft[i] != '.' && !('A' <= ft[i] <= 'Z')
  {
    if e != "" {
      var t := e[1..];
      DropDotsNone(t);
      DropDotsDot(e, t);
    }
    LowerNoDots(DropDots(e));
  }

  lemma DropDotsDot(e: string, t: string)
    requires e != [] && e[0] == '.' && t == e[1..]
    ensures DropDots(e) == DropDots(t)
  {
  }

  lemma {:induction false} DropDotsNone(s: string)
    requires '.' !in s
    ensures DropDots(s) == s
  {
    if s != [] {
      DropDotsNone(s[1..]);
    }
  }

  lemma LowerNoDots(s: string)
    requires '.' !in s
    ensures forall i :: 0 <= i < |Lower(s)| ==> Lower(s)[i] != '.' && !('A' <= Lower(s)[i] <= 'Z')
  {
    forall i | 0 <= i < |Lower(s)|
      ensures Lower(s)[i] != '.' && !('A' <= Lower(s)[i] <= 'Z')
    {
      assert Lower(s)[i] == LowerChar(s[i]);
    }
  }

  /** Saving twice derives nothing new. */
  lemma SavedIdempotent(f: RepoFile)
    ensures Saved(Saved(f)) == Saved(f)
  {
  }

  predicate UniqueFileIds(files: seq<RepoFile>) {
    forall i, k :: 0 <= i < k < |files| ==> files[i].id != files[k].id
  }

  /** objects.filter(status='pending'), in table order. */
  function PendingFiles(files: seq<RepoFile>): (r: seq<RepoFile>)
    ensures |r| <= |files|
    ensures forall f :: f in r <==> f in files && f.status == Pending
  {
    if files == [] then []
    else (if files[0].status == Pending then [files[0]] else []) + PendingFiles(files[1..])
  }

  /** Distinct rows give distinct pending rows. */
  lemma {:induction false} PendingUnique(files: seq<RepoFile>)
    requires UniqueFileIds(files)
    ensures UniqueFileIds(PendingFiles(files))
  {
    if files != [] {
      PendingUnique(files[1..]);
      var rest := PendingFiles(files[1..]);
      if files[0].status == Pending {
        forall k | 0 <= k < |rest| ensures files[0].id != rest[k].id {
          assert rest[k] in files[1..];
        }
      }
    }
  }

  /** ''.join(c for c in s if ord(c) < 128). */
  function AsciiOnly(s: string): (r: string)
    ensures |r| <= |s|
    ensures forall i :: 0 <= i < |r| ==> r[i] as int < 128
  {
    if s == [] then [] else AsciiOnly(s[..|s| - 1]) + (if s[|s| - 1] as int < 128 then [s[|s| - 1]] else [])
  }

  /** The filter keeps the ASCII characters of each part, in order. */
  lemma {:induction false} AsciiOnlyAppend(a: string, b: string)
    ensures AsciiOnly(a + b) == AsciiOnly(a) + AsciiOnly(b)
    decreases |b|
  {
    if b == [] {
      assert a + b == a;
    } else {
      assert (a + b)[..|a + b| - 1] == a + b[..|b| - 1];
      AsciiOnlyAppend(a, b[..|b| - 1]);
    }
  }

  /** An ASCII text passes unchanged. */
  lemma {:induction false} AsciiOnlyKeeps(s: string)
    requires forall i :: 0 <= i < |s| ==> s[i] as int < 128
    ensures AsciiOnly(s) == s
  {
    if s != [] {
      var init := s[..|s| - 1];
      assert forall i :: 0 <= i < |init| ==> init[i] == s[i];
      AsciiOnlyKeeps(init);
      assert s == init + [s[|s| - 1]];
    }
  }

  /** A text without ASCII characters vanishes. */
  lemma {:induction false} AsciiOnlyDrops(s: string)
    requires forall i :: 0 <= i < |s| ==> s[i] as int >= 128
    ensures AsciiOnly(s) == []
  {
    if s != [] {
      var init := s[..|s| - 1];
      assert forall i :: 0 <= i < |init| ==> init[i] == s[i];
      AsciiOnlyDrops(init);
    }
  }

  lemma AsciiOnlyIdempotent(s: string)
    ensures AsciiOnly(AsciiOnly(s)) == AsciiOnly(s)
  {
    AsciiOnlyKeeps(AsciiOnly(s));
  }

  /** The number of ASCII characters of s. */
  function AsciiCount(s: string): nat {
    if s == [] then 0 else AsciiCount(s[..|s| - 1]) + (if s[|s| - 1] as int < 128 then 1 else 0)
  }

  lemma {:induction false} AsciiOnlyLength(s: string)
    ensures |AsciiOnly(s)| == AsciiCount(s)
  {
    if s != [] {
      AsciiOnlyLength(s[..|s| - 1]);
    }
  }

  /** What the foreign calls of one file's indexing return: the page texts (PDF) or the
      paragraph texts (DOCX), or the exception opening the document raised; the error of
      creating or writing the text file, if any; os.path.getsize of the upload; and the
      time. */
  datatype IndexIo = IndexIo(read: Result<seq<string>, string>, write: Option<string>,
                             size: Result<int, string>, now: int)

  const NoPendingMessage := "Tidak ada file pending untuk diindeks."
  const CancelledMessage := "Proses indexing dihentikan pengguna."
  const FinishedMessage := "Proses indexing selesai."

  /** The concatenation of the page texts. */
  function Concat(pages: seq<string>): string {
    if pages == [] then "" else Concat(pages[..|pages| - 1]) + pages[|pages| - 1]
  }

  /** The raw text of one file: PDF pages concatenated, DOCX paragraphs joined by newlines,
      nothing for any other type. */
  function RawText(f: RepoFile, read: Result<seq<string>, string>): Result<string, string> {
    if f.filetype == "pdf" then (if read.Ok? then Ok(Concat(read.value)) else Err(read.error))
    else if f.filetype == "docx" then (if read.Ok? then Ok(Join("\n", read.value)) else Err(read.error))
    else Ok("")
  }

  /** The text file of one repository file. */
  function TextPath(mediaRoot: string, id: string): string {
    mediaRoot + "/extracted/" + id + ".content.txt"
  }

  /** The row one file's indexing saves: indexed with the text file's path, the filtered
      text's length, the size and the time; or failed with the exception's text, keeping the
      path and length when only getsize raised. */
  function IndexedRow(f: RepoFile, io: IndexIo, mediaRoot: string): RepoFile {
    var raw := RawText(f, io.read);
    if raw.Err? then Saved(f.(status := Failed, errorMessage := Some(raw.error)))
    else if io.write.Some? then Saved(f.(status := Failed, errorMessage := Some(io.write.value)))
    else
      var g := f.(extractedTextPath := Some(TextPath(mediaRoot, f.id)),
                  extractedTextLength := |AsciiOnly(raw.value)|);
      if io.size.Err? then Saved(g.(status := Failed, errorMessage := Some(io.size.error)))
      else Saved(g.(sizeBytes := io.size.value, indexDate := Some(io.now), status := Indexed))
  }

  /** One file's outcome: indexed or failed, same id, and only the indexing fields and the
      derived names may differ; a successful run records the ASCII-only text length. */
  lemma IndexedRowFacts(f: RepoFile, io: IndexIo, mediaRoot: string)
    ensures IndexedRow(f, io, mediaRoot).id == f.id
    ensures IndexedRow(f, io, mediaRoot).status == Indexed || IndexedRow(f, io, mediaRoot).status == Failed
    ensures IndexedRow(f, io, mediaRoot).file == f.file && IndexedRow(f, io, mediaRoot).title == f.title
    ensures IndexedRow(f, io, mediaRoot).author == f.author && IndexedRow(f, io, mediaRoot).year == f.year
    ensures IndexedRow(f, io, mediaRoot).status == Indexed <==>
      RawText(f, io.read).Ok? && io.write.None? && io.size.Ok?
    ensures IndexedRow(f, io, mediaRoot).status == Indexed ==>
      IndexedRow(f, io, mediaRoot).extractedTextPath == Some(TextPath(mediaRoot, f.id)) &&
      IndexedRow(f, io, mediaRoot).extractedTextLength == AsciiCount(RawText(f, io.read).value) &&
      IndexedRow(f, io, mediaRoot).indexDate == Some(io.now) &&
      IndexedRow(f, io, mediaRoot).sizeBytes == io.size.value
    ensures IndexedRow(f, io, mediaRoot).status == Failed ==> IndexedRow(f, io, mediaRoot).errorMessage.Some?
  {
    if RawText(f, io.read).Ok? {
      AsciiOnlyLength(RawText(f, io.read).value);
    }
  }

  /** The rows after indexing the rows of `done`: each of them replaced by its outcome. */
  function AfterIndexing(files: seq<RepoFile>, done: seq<RepoFile>, io: string -> IndexIo, mediaRoot: string): (r: seq<RepoFile>)
    ensures |r| == |files|
  {
    seq(|files|, r requires 0 <= r < |files| =>
      if files[r] in done then IndexedRow(files[r], io(files[r].id), mediaRoot) else files[r])
  }

  /** The number of pending files the loop reaches: it stops before the first file at which
      the cancel flag is found set. */
  function Reached(cancel: nat -> bool, from: nat, n: nat): (k: nat)
    requires from <= n
    ensures from <= k <= n
    ensures forall i :: from <= i < k ==> !cancel(i)
    ensures k < n ==> cancel(k)
    decreases n - from
  {
    if from == n || cancel(from) then from else Reached(cancel, from + 1, n)
  }

  /** The repository_files table. */
  class RepositoryTable {
    var files: seq<RepoFile>

    predicate Valid()
      reads this
    {
      UniqueFileIds(files)
    }

    constructor(initial: seq<RepoFile>)
      requires UniqueFileIds(initial)
      ensures files == initial && Valid()
    {
      files := initial;
    }

    /** start_indexing_view: with no pending file, nothing changes; otherwise each pending
        file, in order, is indexed or failed until the cancel flag is seen. `cancel(i)` is
        the session flag as read before the i-th file; `cancelled` reports that it was seen
        (and reset). */
    method StartIndexing(io: string -> IndexIo, cancel: nat -> bool, mediaRoot: string)
      returns (notices: seq<string>, cancelled: bool)
      requires Valid()
      modifies this
      ensures Valid()
      ensures var pending := PendingFiles(old(files));
        var k := Reached(cancel, 0, |pending|);
        files == AfterIndexing(old(files), pending[..k], io, mediaRoot) &&
        cancelled == (k < |pending|) &&
        notices == if pending == [] then [NoPendingMessage]
                   else (if cancelled then [CancelledMessage] else []) + [FinishedMessage]
    {
      ghost var files0 := files;
      var pending := PendingFiles(files);
      if pending == [] {
        notices := [NoPendingMessage];
        cancelled := false;
        assert files == AfterIndexing(files0, pending[..0], io, mediaRoot);
        return;
      }
      PendingUnique(files);
      notices := [];
      cancelled := false;
      var i := 0;
      while i < |pending|
        invariant 0 <= i <= |pending| && !cancelled && notices == []
        invariant i <= Reached(cancel, 0, |pending|)
        invariant files == AfterIndexing(files0, pending[..i], io, mediaRoot)
        invariant UniqueFileIds(files)
      {
        if cancel(i) {
          notices := [CancelledMessage];
          cancelled := true;
          break;
        }
        ReachedPast(cancel, |pending|, i);
        IndexStep(files0, pending, i, io, mediaRoot);
        files := ReplaceFile(files, IndexedRow(pending[i], io(pending[i].id), mediaRoot));
        i := i + 1;
      }
      notices := notices + [FinishedMessage];
    }
  }

  /** A flag found clear lets the loop reach the next file. */
  lemma ReachedPast(cancel: nat -> bool, n: nat, i: nat)
    requires i < n && i <= Reached(cancel, 0, n) && !cancel(i)
    ensures i + 1 <= Reached(cancel, 0, n)
  {
  }

  /** save() of a row held under its id. */
  function ReplaceFile(files: seq<RepoFile>, f: RepoFile): (r: seq<RepoFile>)
    ensures |r| == |files|
    ensures forall i :: 0 <= i < |files| ==> r[i] == if files[i].id == f.id then f else files[i]
  {
    seq(|files|, i requires 0 <= i < |files| => if files[i].id == f.id then f else files[i])
  }

  /** Indexing one more pending row replaces exactly that row. */
  lemma IndexStep(files0: seq<RepoFile>, pending: seq<RepoFile>, i: nat, io: string -> IndexIo, mediaRoot: string)
    requires UniqueFileIds(files0) && pending == PendingFiles(files0) && UniqueFileIds(pending)
    requires i < |pending|
    ensures ReplaceFile(AfterIndexing(files0, pending[..i], io, mediaRoot), IndexedRow(pending[i], io(pending[i].id), mediaRoot))
      == AfterIndexing(files0, pending[..i + 1], io, mediaRoot)
    ensures UniqueFileIds(AfterIndexing(files0, pending[..i + 1], io, mediaRoot))
  {
    var p := pending[i];
    NextPending(files0, pending, i);
    var before := AfterIndexing(files0, pending[..i], io, mediaRoot);
    var replaced := ReplaceFile(before, IndexedRow(p, io(p.id), mediaRoot));
    var after := AfterIndexing(files0, pending[..i] + [p], io, mediaRoot);
    forall r | 0 <= r < |files0| ensures replaced[r] == after[r] {
      IndexStepAt(files0, pending[..i], p, r, io, mediaRoot);
    }
    assert replaced == after;
    AfterIndexingIds(files0, pending[..i] + [p], io, mediaRoot);
    SameIdsUnique(files0, after);
  }

  /** The next pending row is a row of the table, not yet indexed. */
  lemma NextPending(files0: seq<RepoFile>, pending: seq<RepoFile>, i: nat)
    requires pending == PendingFiles(files0) && UniqueFileIds(pending) && i < |pending|
    ensures pending[i] in files0 && pending[i] !in pending[..i]
    ensures pending[..i + 1] == pending[..i] + [pending[i]]
  {
    PendingMember(files0, pending, pending[i]);
    UniqueTake(pending, i);
  }

  lemma PendingMember(files0: seq<RepoFile>, pending: seq<RepoFile>, p: RepoFile)
    requires pending == PendingFiles(files0) && p in pending
    ensures p in files0
  {
  }

  lemma UniqueTake(rows: seq<RepoFile>, i: nat)
    requires UniqueFileIds(rows) && i < |rows|
    ensures rows[i] !in rows[..i] && rows[..i + 1] == rows[..i] + [rows[i]]
  {
    forall j | 0 <= j < i ensures rows[j] != rows[i] {
      assert rows[j].id != rows[i].id;
    }
  }

  /** Position r after one more row is indexed. */
  lemma IndexStepAt(files0: seq<RepoFile>, done: seq<RepoFile>, p: RepoFile, r: nat, io: string -> IndexIo, mediaRoot: string)
    requires UniqueFileIds(files0) && p in files0 && p !in done && r < |files0|
    ensures ReplaceFile(AfterIndexing(files0, done, io, mediaRoot), IndexedRow(p, io(p.id), mediaRoot))[r]
      == AfterIndexing(files0, done + [p], io, mediaRoot)[r]
  {
    var f := files0[r];
    var before := AfterIndexing(files0, done, io, mediaRoot);
    IndexedRowId(f, io(f.id), mediaRoot);
    assert before[r].id == f.id;
    assert f in done + [p] <==> f in done || f == p;
    if f.id == p.id {
      var q :| 0 <= q < |files0| && files0[q] == p;
      assert q == r;
    }
  }

  lemma IndexedRowId(f: RepoFile, io: IndexIo, mediaRoot: string)
    ensures IndexedRow(f, io, mediaRoot).id == f.id
  {
    IndexedRowFacts(f, io, mediaRoot);
  }

  /** Indexing keeps every row's id. */
  lemma AfterIndexingIds(files0: seq<RepoFile>, done: seq<RepoFile>, io: string -> IndexIo, mediaRoot: string)
    ensures forall r :: 0 <= r < |files0| ==> AfterIndexing(files0, done, io, mediaRoot)[r].id == files0[r].id
  {
    forall r | 0 <= r < |files0| ensures AfterIndexing(files0, done, io, mediaRoot)[r].id == files0[r].id {
      IndexedRowId(files0[r], io(files0[r].id), mediaRoot);
    }
  }

  lemma SameIdsUnique(a: seq<RepoFile>, b: seq<RepoFile>)
    requires UniqueFileIds(a) && |a| == |b| && forall r :: 0 <= r < |a| ==> b[r].id == a[r].id
    ensures UniqueFileIds(b)
  {
    forall i, k | 0 <= i < k < |b| ensures b[i].id != b[k].id {
      assert a[i].id != a[k].id;
    }
  }

  /** The rows the run reaches are indexed or failed; every other row, including each
      pending one after a cancel, is untouched, and no row is added or dropped. */
  lemma AfterIndexingFacts(files: seq<RepoFile>, cancel: nat -> bool, io: string -> IndexIo, mediaRoot: string)
    ensures var pending := PendingFiles(files);
      var after := AfterIndexing(files, pending[..Reached(cancel, 0, |pending|)], io, mediaRoot);
      |after| == |files| &&
      (forall r :: 0 <= r < |files| ==> after[r].id == files[r].id) &&
      (forall r :: 0 <= r < |files| && files[r].status != Pending ==> after[r] == files[r]) &&
      (forall r :: 0 <= r < |files| && after[r] != files[r] ==> after[r].status == Indexed || after[r].status == Failed)
  {
    var pending := PendingFiles(files);
    var after := AfterIndexing(files, pending[..Reached(cancel, 0, |pending|)], io, mediaRoot);
    forall r | 0 <= r < |files|
      ensures after[r].id == files[r].id
      ensures files[r].status != Pending ==> after[r] == files[r]
      ensures after[r] != files[r] ==> after[r].status == Indexed || after[r].status == Failed
    {
      IndexedRowFacts(files[r], io(files[r].id), mediaRoot);
      if files[r] in pending[..Reached(cancel, 0, |pending|)] {
        assert files[r] in pending;
      }
    }
  }
}
