/** apps/plagiarism/admin.py: the check tool's admission of a submission (quota, active job,
    file filter, record creation), the status feed, the report download, the file-status
    column, filename sanitising and the URL cut of the matched-sources column. */
module Admission {
  import opened Wrappers
  import opened Text
  import opened History
  import opened Storage
  import Forms

  // ---------------------------------------------------------------- _sanitize_filename

  /** The characters the pattern [^\w\s\-\.] leaves in place: word characters (ASCII letters,
      digits, '_'), whitespace, '-' and '.'. */
  predicate IsNameChar(c: char) {
    ('a' <= c <= 'z') || ('A' <= c <= 'Z') || ('0' <= c <= '9') || c == '_' || IsSpace(c) || c == '-' || c == '.'
  }

  predicate AllNameChars(s: string) {
    forall i :: 0 <= i < |s| ==> IsNameChar(s[i])
  }

  /** re.sub(r'[^\w\s\-\.]', '', s): every other character is dropped, order kept. */
  function KeepNameChars(s: string): (r: string)
    ensures |r| <= |s| && AllNameChars(r)
  {
    if s == [] then [] else (if IsNameChar(s[0]) then [s[0]] else []) + KeepNameChars(s[1..])
  }

  /** A name made only of kept characters passes through the filter unchanged. */
  lemma {:induction false} KeepNameCharsNoop(s: string)
    requires AllNameChars(s)
    ensures KeepNameChars(s) == s
  {
    if s != [] {
      KeepNameCharsNoop(s[1..]);
    }
  }

  const MaxNameLength: int := 200
  const StemKeep: nat := 190

  /** _sanitize_filename: the basename, filtered; a filtered name over 200 characters keeps
      the first 190 characters of its stem and its extension. */
  function SanitizeFilename(name: string): (r: string)
    ensures |KeepNameChars(Basename(name))| <= MaxNameLength ==> r == KeepNameChars(Basename(name))
    ensures |KeepNameChars(Basename(name))| > MaxNameLength ==>
      |r| <= StemKeep + |Ext(KeepNameChars(Basename(name)))|
  {
    var f := KeepNameChars(Basename(name));
    if |f| > MaxNameLength then Take(Stem(f), StemKeep) + Ext(f) else f
  }

  lemma AllNameCharsSlice(s: string, a: int, b: int)
    requires AllNameChars(s) && 0 <= a <= b <= |s|
    ensures AllNameChars(s[a..b])
  {
    assert forall i :: 0 <= i < b - a ==> s[a..b][i] == s[a + i];
  }

  lemma AllNameCharsConcat(x: string, y: string)
    requires AllNameChars(x) && AllNameChars(y)
    ensures AllNameChars(x + y)
  {
  }

  /** The shortened name is made of pieces of the filtered one. */
  lemma ShortenedChars(f: string)
    requires AllNameChars(f)
    ensures AllNameChars(Take(Stem(f), StemKeep) + Ext(f))
  {
    StemExt(f);
    var stem, ext := Stem(f), Ext(f);
    assert stem == f[..|stem|] && ext == f[|stem|..];
    AllNameCharsSlice(f, 0, |stem|);
    AllNameCharsSlice(f, |stem|, |f|);
    var t := Take(stem, StemKeep);
    assert t == stem[..|t|];
    AllNameCharsSlice(stem, 0, |t|);
    AllNameCharsConcat(t, ext);
  }

  /** The result holds only word characters, whitespace, '-' and '.', and so no '/'. */
  lemma SanitizedChars(name: string)
    ensures AllNameChars(SanitizeFilename(name)) && '/' !in SanitizeFilename(name)
  {
    var f := KeepNameChars(Basename(name));
    if |f| > MaxNameLength {
      ShortenedChars(f);
    }
    NoSlash(SanitizeFilename(name));
  }

  lemma NoSlash(s: string)
    requires AllNameChars(s)
    ensures '/' !in s
  {
    assert forall i :: 0 <= i < |s| ==> s[i] != '/';
  }

  /** os.path.basename of a name without '/' is the name. */
  lemma BasenameOfPlain(s: string)
    requires '/' !in s
    ensures Basename(s) == s
  {
    assert LastIndexOf(s, '/') == -1;
  }

  /** A sanitised name of at most 200 characters is sanitised to itself. */
  lemma SanitizeStable(name: string)
    requires |SanitizeFilename(name)| <= MaxNameLength
    ensures SanitizeFilename(SanitizeFilename(name)) == SanitizeFilename(name)
  {
    var r := SanitizeFilename(name);
    SanitizedChars(name);
    BasenameOfPlain(r);
    KeepNameCharsNoop(r);
  }

  // ---------------------------------------------------------------- file_status_display, can_download

  const DeletedLabel: string := "\U{1F5D1}\U{FE0F} File Dihapus"
  const AvailableLabel: string := "\U{2705} Tersedia"
  const NotYetLabel: string := "\U{23F3} Belum Ada"

  /** file_status_display. */
  function FileStatusDisplay(j: Job): (shown: string)
    ensures shown == DeletedLabel <==> j.fileDeleted
    ensures shown == AvailableLabel <==> !j.fileDeleted && j.status == Completed && j.reportFile != ""
    ensures shown == DeletedLabel || shown == AvailableLabel || shown == NotYetLabel
  {
    if j.fileDeleted then DeletedLabel
    else if j.status == Completed && j.reportFile != "" then AvailableLabel
    else NotYetLabel
  }

  /** check_status's can_download: completed, with a report, not marked deleted, and the
      report is on disk. */
  predicate CanDownload(j: Job, files: set<string>) {
    j.status == Completed && j.reportFile != "" && !j.fileDeleted && j.reportFile in files
  }

  /** Whatever can be downloaded is listed as available (the column does not look at the
      disk, so the converse does not hold). */
  lemma DownloadableIsAvailable(j: Job, files: set<string>)
    requires CanDownload(j, files)
    ensures FileStatusDisplay(j) == AvailableLabel
  {
  }

  // ---------------------------------------------------------------- check_status

  predicate IsActive(j: Job) {
    j.status == Pending || j.status == Processing
  }

  /** filter(user=..., status__in=['pending', 'processing']).first(), in table order. */
  function ActiveProcess(jobs: seq<Job>, user: string): (r: Option<Job>)
    ensures r.None? <==> forall i :: 0 <= i < |jobs| ==> !(jobs[i].user == user && IsActive(jobs[i]))
    ensures r.Some? ==> r.value in jobs && r.value.user == user && IsActive(r.value)
  {
    if jobs == [] then None
    else if jobs[0].user == user && IsActive(jobs[0]) then Some(jobs[0])
    else ActiveProcess(jobs[1..], user)
  }

  /** filter(user=...), in table order. */
  function UserJobs(jobs: seq<Job>, user: string): (r: seq<Job>)
    ensures |r| <= |jobs|
  {
    if jobs == [] then []
    else UserJobs(jobs[..|jobs| - 1], user) + (if jobs[|jobs| - 1].user == user then [jobs[|jobs| - 1]] else [])
  }

  /** The user's rows are exactly the table's rows that belong to the user. */
  lemma {:induction false} UserJobsMembers(jobs: seq<Job>, user: string)
    ensures forall j :: j in UserJobs(jobs, user) <==> j in jobs && j.user == user
  {
    if jobs != [] {
      var init := jobs[..|jobs| - 1];
      UserJobsMembers(init, user);
      assert jobs == init + [jobs[|jobs| - 1]];
    }
  }

  /** The table is ordered by check_date, newest first. */
  predicate NewestFirst(jobs: seq<Job>) {
    forall i, k :: 0 <= i < k < |jobs| ==> jobs[i].checkDate >= jobs[k].checkDate
  }

  /** Filtering keeps the newest-first order. */
  lemma {:induction false} UserJobsNewestFirst(jobs: seq<Job>, user: string)
    requires NewestFirst(jobs)
    ensures NewestFirst(UserJobs(jobs, user))
  {
    if jobs != [] {
      var init := jobs[..|jobs| - 1];
      var last := jobs[|jobs| - 1];
      assert NewestFirst(init);
      UserJobsNewestFirst(init, user);
      UserJobsMembers(init, user);
      var u := UserJobs(init, user);
      if last.user == user {
        forall i | 0 <= i < |u|
          ensures u[i].checkDate >= last.checkDate
        {
          assert u[i] in init;
          var k :| 0 <= k < |init| && init[k] == u[i];
          assert jobs[k] == u[i];
        }
      }
    }
  }

  /** order_by('-check_date')[:5] of the user's rows. */
  function Recent(jobs: seq<Job>, user: string): (r: seq<Job>)
    ensures |r| <= 5
    ensures |r| == if |UserJobs(jobs, user)| <= 5 then |UserJobs(jobs, user)| else 5
    ensures r == UserJobs(jobs, user)[..|r|]
  {
    var u := UserJobs(jobs, user);
    if |u| <= 5 then u else u[..5]
  }

  /** One entry of the status feed. */
  datatype ProcessInfo = ProcessInfo(
    id: string,
    filename: string,
    status: JobStatus,
    progress: int,
    similarityScore: Option<int>,
    errorMessage: Option<string>,
    fileDeleted: bool,
    fileDeletedReason: Option<string>,
    canDownload: bool)

  function Describe(j: Job, files: set<string>): (p: ProcessInfo)
    ensures p.id == j.id && p.canDownload == CanDownload(j, files)
  {
    ProcessInfo(j.id, j.filename, j.status, j.progress, j.similarityScore, j.errorMessage,
                j.fileDeleted, j.fileDeletedReason, CanDownload(j, files))
  }

  datatype StatusData = StatusData(hasActive: bool, remainingQuota: int, processes: seq<ProcessInfo>)

  /** check_status: whether a job is running, today's remaining quota, and the user's five
      most recent jobs, newest first. */
  method CheckStatus(history: HistoryTable, quota: QuotaTable, store: FileStore, user: string, limit: int, today: int)
    returns (st: StatusData)
    modifies quota
    ensures quota.counts == Touch(old(quota.counts), (user, today))
    ensures st.hasActive <==> exists i :: 0 <= i < |history.jobs| && history.jobs[i].user == user && IsActive(history.jobs[i])
    ensures st.remainingQuota == Remaining(limit, CountOf(old(quota.counts), (user, today)))
    ensures |st.processes| == |Recent(history.jobs, user)|
    ensures forall k :: 0 <= k < |st.processes| ==>
      st.processes[k] == Describe(Recent(history.jobs, user)[k], store.files) &&
      Recent(history.jobs, user)[k].user == user
  {
    var active := ActiveProcess(history.jobs, user);
    var remaining := quota.RemainingQuota(user, limit, today);
    var recent := Recent(history.jobs, user);
    UserJobsMembers(history.jobs, user);
    var processes: seq<ProcessInfo> := [];
    for i := 0 to |recent|
      invariant |processes| == i
      invariant forall k :: 0 <= k < i ==> processes[k] == Describe(recent[k], store.files)
    {
      processes := processes + [Describe(recent[i], store.files)];
    }
    forall k | 0 <= k < |recent|
      ensures recent[k].user == user
    {
      assert recent[k] in UserJobs(history.jobs, user);
    }
    st := StatusData(active.Some?, remaining, processes);
  }

  // ---------------------------------------------------------------- download_report

  const MissingReason: string := "File not found"

  /** The outcome of download_report. */
  datatype Download =
    | Served(path: string, attachmentName: string)
    | NotFound
    | AlreadyDeleted(deletedAt: Option<int>, reason: Option<string>)
    | NotReady
    | FileMissing

  /** The attachment name "RESULT_<stem of the checked file>.pdf". */
  function AttachmentName(filename: string): (a: string)
    ensures |a| == 11 + |Stem(filename)| && a[..7] == "RESULT_" && a[|a| - 4..] == ".pdf"
    ensures a[7..|a| - 4] == Stem(filename)
  {
    "RESULT_" + Stem(filename) + ".pdf"
  }

  /** The branches of download_report for the row get(id=..., user=...) finds. */
  function DownloadOutcome(found: Option<Job>, user: string, files: set<string>): (d: Download)
    ensures d.Served? ==> found.Some? && d.path == found.value.reportFile && d.attachmentName == AttachmentName(found.value.filename)
    ensures d == NotFound <==> found.None? || found.value.user != user
    ensures d.AlreadyDeleted? <==> found.Some? && found.value.user == user && found.value.fileDeleted
  {
    match found
      case None => NotFound
      case Some(j) =>
        if j.user != user then NotFound
        else if j.fileDeleted then AlreadyDeleted(j.fileDeletedAt, j.fileDeletedReason)
        else if j.status != Completed || j.reportFile == "" then NotReady
        else if j.reportFile !in files then FileMissing
        else Served(j.reportFile, AttachmentName(j.filename))
  }

  /** A download succeeds exactly when the status feed offers it. */
  lemma DownloadMatchesStatus(j: Job, user: string, files: set<string>)
    requires j.user == user
    ensures DownloadOutcome(Some(j), user, files).Served? <==> CanDownload(j, files)
  {
  }

  /** The row after a download found its report missing. */
  function MarkMissing(j: Job, now: int): (m: Job)
    ensures m.fileDeleted && m.fileDeletedAt == Some(now) && m.fileDeletedReason == Some(MissingReason)
    ensures m == j.(fileDeleted := true, fileDeletedAt := m.fileDeletedAt, fileDeletedReason := m.fileDeletedReason)
  {
    j.(fileDeleted := true, fileDeletedAt := Some(now), fileDeletedReason := Some(MissingReason))
  }

  /** Once a missing report is marked, later downloads of the row report the deletion. */
  lemma MissingSticks(jobs: seq<Job>, id: string, user: string, files: set<string>, now: int)
    requires DownloadOutcome(Lookup(jobs, id), user, files) == FileMissing
    ensures var m := MarkMissing(Lookup(jobs, id).value, now);
      DownloadOutcome(Lookup(Replace(jobs, m), id), user, files) == AlreadyDeleted(Some(now), Some(MissingReason))
  {
    var m := MarkMissing(Lookup(jobs, id).value, now);
    LookupAfterSave(jobs, m);
  }

  /** download_report: looks the row up by id and user; a row marked deleted, not completed
      or without a report is refused; a report missing from disk marks the row deleted. */
  method DownloadReport(history: HistoryTable, store: FileStore, user: string, id: string, now: int)
    returns (d: Download)
    requires history.Valid()
    modifies history
    ensures history.Valid()
    ensures d == DownloadOutcome(Lookup(old(history.jobs), id), user, store.files)
    ensures d == FileMissing ==> history.jobs == Replace(old(history.jobs), MarkMissing(Lookup(old(history.jobs), id).value, now))
    ensures d != FileMissing ==> history.jobs == old(history.jobs)
  {
    var found := history.Get(id);
    if found.None? || found.value.user != user {
      return NotFound;
    }
    var h := found.value;
    if h.fileDeleted {
      return AlreadyDeleted(h.fileDeletedAt, h.fileDeletedReason);
    }
    if h.status != Completed || h.reportFile == "" {
      return NotReady;
    }
    if !store.Exists(h.reportFile) {
      history.Save(MarkMissing(h, now));
      return FileMissing;
    }
    d := Served(h.reportFile, AttachmentName(h.filename));
  }

  // ---------------------------------------------------------------- matched_sources_display

  const MaxShownUrls: nat := 15
  const MaxUrlLength: nat := 80
  const CutUrlLength: nat := 77

  /** sources['internet'][:15]. */
  function ShownUrls(urls: seq<string>): (r: seq<string>)
    ensures |r| == if |urls| <= MaxShownUrls then |urls| else MaxShownUrls
    ensures r == urls[..|r|]
  {
    if |urls| <= MaxShownUrls then urls else urls[..MaxShownUrls]
  }

  /** remaining = len(urls) - 15, shown as "+ N sumber lainnya" when positive. */
  function HiddenUrls(urls: seq<string>): int {
    |urls| - MaxShownUrls
  }

  /** Every URL is either shown or counted in the "+ N" line. */
  lemma UrlsAccounted(urls: seq<string>)
    ensures |ShownUrls(urls)| + (if HiddenUrls(urls) > 0 then HiddenUrls(urls) else 0) == |urls|
    ensures ShownUrls(urls) + urls[|ShownUrls(urls)|..] == urls
    ensures HiddenUrls(urls) > 0 <==> |ShownUrls(urls)| < |urls|
  {
  }

  /** url if len(url) <= 80 else url[:77] + '...'. */
  function DisplayUrl(url: string): (d: string)
    ensures |d| <= MaxUrlLength
    ensures d == url <==> |url| <= MaxUrlLength
    ensures |url| > MaxUrlLength ==> |d| == MaxUrlLength && d[..CutUrlLength] == url[..CutUrlLength] && d[CutUrlLength..] == "..."
  {
    if |url| <= MaxUrlLength then url else url[..CutUrlLength] + "..."
  }

  // ---------------------------------------------------------------- plagiarism_check_view (POST)

  /** An uploaded file and whether writing its temporary copy succeeds. */
  datatype Incoming = Incoming(upload: Forms.Upload, stored: bool)

  /** What the form carries: uploaded files, or the pasted text and whether building its
      .docx succeeds. */
  datatype Submission = FileInput(files: seq<Incoming>) | TextInput(text: Option<string>, stored: bool)

  /** Why a submission is turned away; each is a message and a redirect. */
  datatype Rejection =
    | ActiveJob
    | InvalidForm
    | NoFilesUploaded
    | QuotaExceeded(remaining: int, requested: int)
    | QuotaExhausted
    | TextTooShort
    | TextNotStored
    | NoValidFiles

  const PastedTextName: string := "pasted_text.docx"
  const MinPastedLength: int := 100

  /** The loop's filter: extension .docx or .pdf, at most 10 MiB, and a temporary copy that
      could be written. */
  predicate KeepsUpload(f: Incoming) {
    Forms.AllowedExtension(Forms.FileExt(f.upload)) && f.upload.size <= Forms.MaxFileSize && f.stored
  }

  /** files_to_process for uploaded files: the sanitised names of the kept files, in order. */
  function KeptNames(files: seq<Incoming>): (r: seq<string>)
    ensures |r| <= |files|
  {
    if files == [] then []
    else
      var last := files[|files| - 1];
      KeptNames(files[..|files| - 1]) + (if KeepsUpload(last) then [SanitizeFilename(last.upload.name)] else [])
  }

  /** No file passes the filter. */
  predicate NoneKept(files: seq<Incoming>) {
    forall i :: 0 <= i < |files| ==> !KeepsUpload(files[i])
  }

  lemma NoneKeptSnoc(init: seq<Incoming>, last: Incoming)
    ensures NoneKept(init + [last]) <==> NoneKept(init) && !KeepsUpload(last)
  {
    var files := init + [last];
    assert files[|init|] == last;
    assert forall i :: 0 <= i < |init| ==> files[i] == init[i];
  }

  /** Nothing is kept exactly when every file is rejected by the filter. */
  lemma {:induction false} KeptNamesEmpty(files: seq<Incoming>)
    ensures KeptNames(files) == [] <==> NoneKept(files)
  {
    if files != [] {
      var init, last := files[..|files| - 1], files[|files| - 1];
      assert files == init + [last];
      KeptNamesEmpty(init);
      NoneKeptSnoc(init, last);
    }
  }

  /** Every kept name is made of allowed name characters. */
  lemma {:induction false} KeptNamesClean(files: seq<Incoming>)
    ensures forall k :: 0 <= k < |KeptNames(files)| ==> AllNameChars(KeptNames(files)[k])
  {
    if files != [] {
      var init := files[..|files| - 1];
      KeptNamesClean(init);
      SanitizedChars(files[|files| - 1].upload.name);
    }
  }

  /** The decision of the POST branch: the names of the records to create, or why nothing
      is created. `active` says whether the user has a pending or processing job. */
  function Admit(active: bool, formValid: bool, remaining: int, sub: Submission): Result<seq<string>, Rejection> {
    if active then Err(ActiveJob)
    else if !formValid then Err(InvalidForm)
    else match sub
      case FileInput(files) =>
        if files == [] then Err(NoFilesUploaded)
        else if |files| > remaining then Err(QuotaExceeded(remaining, |files|))
        else if KeptNames(files) == [] then Err(NoValidFiles)
        else Ok(KeptNames(files))
      case TextInput(text, stored) =>
        if remaining < 1 then Err(QuotaExhausted)
        else if text.None? || |Strip(text.value)| < MinPastedLength then Err(TextTooShort)
        else if !stored then Err(TextNotStored)
        else Ok([PastedTextName])
  }

  /** An admitted submission creates at least one and at most `remaining` records, so the
      day's count never goes past the user's limit. */
  lemma AdmitWithinQuota(active: bool, formValid: bool, limit: int, count: int, sub: Submission)
    requires Admit(active, formValid, Remaining(limit, count), sub).Ok?
    ensures var names := Admit(active, formValid, Remaining(limit, count), sub).value;
      1 <= |names| <= Remaining(limit, count) && count + |names| <= limit
  {
  }

  /** Too many files turn the whole submission away, whatever the files are. */
  lemma AdmitAllOrNothing(formValid: bool, remaining: int, files: seq<Incoming>)
    requires formValid && files != [] && |files| > remaining
    ensures Admit(false, formValid, remaining, FileInput(files)) == Err(QuotaExceeded(remaining, |files|))
  {
  }

  /** What an admitted file submission creates: one record per kept file, in order, each
      name sanitised; nothing is admitted when no file passes the filter. */
  lemma AdmitFiles(formValid: bool, remaining: int, files: seq<Incoming>)
    ensures Admit(false, formValid, remaining, FileInput(files)).Ok? ==>
      Admit(false, formValid, remaining, FileInput(files)).value == KeptNames(files) &&
      !NoneKept(files) &&
      forall k :: 0 <= k < |KeptNames(files)| ==> AllNameChars(KeptNames(files)[k])
    ensures formValid && files != [] && |files| <= remaining ==>
      (Admit(false, formValid, remaining, FileInput(files)).Ok? <==> !NoneKept(files))
  {
    KeptNamesEmpty(files);
    KeptNamesClean(files);
  }

  /** Pasted text is admitted exactly when a quota is left, its stripped length is at least
      100 and its document could be written; it makes one "pasted_text.docx" record. */
  lemma AdmitText(formValid: bool, remaining: int, text: Option<string>, stored: bool)
    requires formValid
    ensures Admit(false, formValid, remaining, TextInput(text, stored)).Ok? <==>
      remaining >= 1 && text.Some? && |Strip(text.value)| >= MinPastedLength && stored
    ensures Admit(false, formValid, remaining, TextInput(text, stored)).Ok? ==>
      Admit(false, formValid, remaining, TextInput(text, stored)).value == [PastedTextName]
  {
  }

  /** The records objects.create makes, in creation order. */
  function NewJobs(ids: seq<string>, user: string, names: seq<string>, mode: string, now: int): (js: seq<Job>)
    requires |ids| >= |names|
    ensures |js| == |names|
  {
    seq(|names|, k requires 0 <= k < |names| => NewJob(ids[k], user, names[k], mode, now))
  }

  /** The table gains each new row at its head, so the rows appear newest first. */
  function Reversed(js: seq<Job>): (r: seq<Job>)
    ensures |r| == |js|
  {
    seq(|js|, k requires 0 <= k < |js| => js[|js| - 1 - k])
  }

  lemma ReversedSnoc(js: seq<Job>, k: int, tail: seq<Job>)
    requires 0 <= k < |js|
    ensures Reversed(js[..k + 1]) + tail == [js[k]] + (Reversed(js[..k]) + tail)
  {
    assert Reversed(js[..k + 1]) == [js[k]] + Reversed(js[..k]);
  }

  /** uuid4 values that no row has and that differ from each other. */
  predicate FreshIds(jobs: seq<Job>, ids: seq<string>) {
    (forall k :: 0 <= k < |ids| ==> Lookup(jobs, ids[k]).None?) &&
    (forall a, b :: 0 <= a < b < |ids| ==> ids[a] != ids[b])
  }

  /** Rows whose ids no existing row has and that differ from each other. */
  predicate FreshRows(jobs: seq<Job>, rows: seq<Job>) {
    (forall k :: 0 <= k < |rows| ==> Lookup(jobs, rows[k].id).None?) &&
    (forall a, b :: 0 <= a < b < |rows| ==> rows[a].id != rows[b].id)
  }

  lemma NewJobsFresh(jobs: seq<Job>, ids: seq<string>, user: string, names: seq<string>, mode: string, now: int)
    requires FreshIds(jobs, ids) && |ids| >= |names|
    ensures FreshRows(jobs, NewJobs(ids, user, names, mode, now))
  {
    var rows := NewJobs(ids, user, names, mode, now);
    assert forall k :: 0 <= k < |rows| ==> rows[k].id == ids[k];
  }

  /** The next row's id is taken neither by the rows inserted before it nor by the old ones. */
  lemma FreshNext(jobs: seq<Job>, rows: seq<Job>, k: int)
    requires FreshRows(jobs, rows) && 0 <= k < |rows|
    ensures Lookup(Reversed(rows[..k]) + jobs, rows[k].id).None?
  {
    var all := Reversed(rows[..k]) + jobs;
    forall i | 0 <= i < |all|
      ensures all[i].id != rows[k].id
    {
      if i < k {
        assert all[i] == rows[k - 1 - i];
      } else {
        assert all[i] == jobs[i - k];
      }
    }
  }

  /** objects.create for each row in turn; each lands at the head of the table. */
  method InsertAll(history: HistoryTable, rows: seq<Job>)
    requires history.Valid() && FreshRows(history.jobs, rows)
    modifies history
    ensures history.jobs == Reversed(rows) + old(history.jobs) && history.Valid()
  {
    ghost var jobs0 := history.jobs;
    for k := 0 to |rows|
      invariant history.Valid() && history.jobs == Reversed(rows[..k]) + jobs0
    {
      InsertNext(history, rows, k, jobs0);
    }
    assert rows[..|rows|] == rows;
  }

  method InsertNext(history: HistoryTable, rows: seq<Job>, k: int, ghost jobs0: seq<Job>)
    requires history.Valid() && FreshRows(jobs0, rows) && 0 <= k < |rows|
    requires history.jobs == Reversed(rows[..k]) + jobs0
    modifies history
    ensures history.jobs == Reversed(rows[..k + 1]) + jobs0 && history.Valid()
  {
    FreshNext(jobs0, rows, k);
    history.Create(rows[k]);
    ReversedSnoc(rows, k, jobs0);
  }

  /** The creation loop: one pending, progress-0 record per name. */
  method CreateJobs(history: HistoryTable, ids: seq<string>, user: string, names: seq<string>, mode: string, now: int)
    returns (created: seq<Job>)
    requires history.Valid() && |ids| >= |names| && FreshIds(history.jobs, ids)
    modifies history
    ensures created == NewJobs(ids, user, names, mode, now)
    ensures history.jobs == Reversed(created) + old(history.jobs) && history.Valid()
  {
    created := NewJobs(ids, user, names, mode, now);
    NewJobsFresh(history.jobs, ids, user, names, mode, now);
    InsertAll(history, created);
  }

  /** The per-file loop: keeps the sanitised names of the files that pass the filter. */
  method FilterUploads(files: seq<Incoming>) returns (kept: seq<string>)
    ensures kept == KeptNames(files)
  {
    kept := [];
    for i := 0 to |files|
      invariant kept == KeptNames(files[..i])
    {
      assert files[..i + 1][..i] == files[..i];
      var f := files[i];
      var ext := Forms.FileExt(f.upload);
      if !Forms.AllowedExtension(ext) {
        continue;
      }
      if f.upload.size > Forms.MaxFileSize {
        continue;
      }
      if !f.stored {
        continue;
      }
      kept := kept + [SanitizeFilename(f.upload.name)];
    }
    assert files[..|files|] == files;
  }

  /** How many uuid4 values the submission may need. */
  function IdsNeeded(sub: Submission): nat {
    match sub
      case FileInput(files) => |files|
      case TextInput(_, _) => 1
  }

  /** The files_to_process the form leads to, or why the request is redirected first. */
  method Collect(formValid: bool, remaining: int, sub: Submission) returns (r: Result<seq<string>, Rejection>)
    ensures r == Admit(false, formValid, remaining, sub)
  {
    if !formValid {
      return Err(InvalidForm);
    }
    match sub
    case FileInput(files) =>
      if files == [] {
        return Err(NoFilesUploaded);
      }
      if |files| > remaining {
        return Err(QuotaExceeded(remaining, |files|));
      }
      var kept := FilterUploads(files);
      r := if kept == [] then Err(NoValidFiles) else Ok(kept);
    case TextInput(text, stored) =>
      if remaining < 1 {
        return Err(QuotaExhausted);
      }
      if text.None? || |Strip(text.value)| < MinPastedLength {
        return Err(TextTooShort);
      }
      if !stored {
        return Err(TextNotStored);
      }
      r := Ok([PastedTextName]);
  }

  /** How the tables and the answer relate to the decision: a rejection changes no record
      and leaves the counts as the lazy quota read left them; an admission creates the new
      records at the head of the table and raises the key's count by their number. */
  predicate Submitted(decision: Result<seq<string>, Rejection>, r: Result<seq<Job>, Rejection>,
                      jobs: seq<Job>, jobs0: seq<Job>, counts: map<QuotaKey, int>, counts0: map<QuotaKey, int>,
                      key: QuotaKey, ids: seq<string>, user: string, mode: string, now: int)
  {
    match decision
      case Err(why) =>
        r == Err(why) && jobs == jobs0 && counts == Touch(counts0, key)
      case Ok(names) =>
        |names| <= |ids| && r == Ok(NewJobs(ids, user, names, mode, now)) &&
        jobs == Reversed(NewJobs(ids, user, names, mode, now)) + jobs0 &&
        counts == counts0[key := CountOf(counts0, key) + |names|]
  }

  /** The POST branch of plagiarism_check_view: reads the remaining quota, turns away a user
      with a running job, collects the files to process, raises today's count by their
      number and creates one pending record for each. */
  method SubmitCheck(history: HistoryTable, quota: QuotaTable, user: string, limit: int, today: int, now: int,
                     formValid: bool, mode: string, sub: Submission, ids: seq<string>)
    returns (r: Result<seq<Job>, Rejection>)
    requires history.Valid() && FreshIds(history.jobs, ids) && |ids| >= IdsNeeded(sub)
    modifies history, quota
    ensures history.Valid()
    ensures Submitted(Admit(ActiveProcess(old(history.jobs), user).Some?, formValid,
                            Remaining(limit, CountOf(old(quota.counts), (user, today))), sub),
                      r, history.jobs, old(history.jobs), quota.counts, old(quota.counts),
                      (user, today), ids, user, mode, now)
  {
    ghost var counts0 := quota.counts;
    var remaining := quota.RemainingQuota(user, limit, today);
    var active := ActiveProcess(history.jobs, user);
    if active.Some? {
      return Err(ActiveJob);
    }
    ghost var counts1 := quota.counts;
    ghost var jobs0 := history.jobs;
    r := Proceed(history, quota, user, today, now, formValid, mode, sub, ids, remaining);
    SubmittedTouch(Admit(false, formValid, remaining, sub), r, history.jobs, jobs0, quota.counts,
                   counts0, (user, today), ids, user, mode, now);
  }

  /** A decision recorded against the table the lazy quota read made is recorded against
      the table before that read. */
  lemma SubmittedTouch(decision: Result<seq<string>, Rejection>, r: Result<seq<Job>, Rejection>,
                       jobs: seq<Job>, jobs0: seq<Job>, counts: map<QuotaKey, int>, counts0: map<QuotaKey, int>,
                       key: QuotaKey, ids: seq<string>, user: string, mode: string, now: int)
    requires Submitted(decision, r, jobs, jobs0, counts, Touch(counts0, key), key, ids, user, mode, now)
    ensures Submitted(decision, r, jobs, jobs0, counts, counts0, key, ids, user, mode, now)
  {
    TouchKeepsCounts(counts0, key, key);
  }

  /** From the form on, for a user without a running job: nothing changes unless the
      submission is admitted, and then the count rises by the number of records created. */
  method Proceed(history: HistoryTable, quota: QuotaTable, user: string, today: int, now: int,
                 formValid: bool, mode: string, sub: Submission, ids: seq<string>, remaining: int)
    returns (r: Result<seq<Job>, Rejection>)
    requires history.Valid() && FreshIds(history.jobs, ids) && |ids| >= IdsNeeded(sub)
    requires (user, today) in quota.counts
    modifies history, quota
    ensures history.Valid()
    ensures Submitted(Admit(false, formValid, remaining, sub), r, history.jobs, old(history.jobs),
                      quota.counts, old(quota.counts), (user, today), ids, user, mode, now)
  {
    var collected := Collect(formValid, remaining, sub);
    if collected.Err? {
      return Err(collected.error);
    }
    var names := collected.value;
    AdmitBound(formValid, remaining, sub);
    var total := quota.IncrementQuota(user, |names|, today);
    var created := CreateJobs(history, ids, user, names, mode, now);
    r := Ok(created);
  }

  /** An admitted submission never names more records than it may have ids for. */
  lemma AdmitBound(formValid: bool, remaining: int, sub: Submission)
    requires Admit(false, formValid, remaining, sub).Ok?
    ensures |Admit(false, formValid, remaining, sub).value| <= IdsNeeded(sub)
  {
  }
}
