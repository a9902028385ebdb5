/** PlagiarismTask._process_worker: one check job run sequentially. The row moves from
    pending to processing, through fixed progress checkpoints, to completed or failed; every
    write of the row is a save; the temporary upload is removed on every path. The service
    calls (extraction, tokenizer, check, report) are given as their outcomes. */
module Worker {
  import opened Wrappers
  import opened Text
  import opened History
  import opened SourcesCodec
  import opened Storage
  import Checking

  /** An exception from extract_text: a ValueError, or any other kind. */
  datatype Failure = UserError(message: string) | SystemError(message: string)

  /** Why a run stops: the exception the worker raises, or lets through, at some stage. */
  datatype Stop =
    | Raised(message: string)          // a ValueError from extract_text, passed on
    | ReadFailed(message: string)      // any other exception from extract_text
    | EmptyText                        // the extracted text is blank
    | TokenizeFailed(message: string)  // tokenize raised
    | NoSentences                      // tokenize produced no sentence
    | CheckFailed(message: string)     // process_check raised
    | DirFailed(message: string)       // os.makedirs raised (not a ValueError)
    | ReportFailed(message: string)    // generate_pdf_report raised
    | ReportMissing                    // generate_pdf_report returned nothing
    | EncodeFailed                     // json.dumps of the sources raised (not a ValueError)

  /** What the worker's calls return, in the order it makes them. */
  datatype Stages = Stages(
    extraction: Result<string, Failure>,              // service.extract_text
    sentences: Result<seq<string>, string>,           // service.tokenize, or its exception
    check: Result<Checking.CheckReport, string>,      // service.process_check, or its exception
    reportsDir: Option<string>,                       // the error of os.makedirs, if any
    reportId: string,                                 // uuid.uuid4()
    report: Result<Option<string>, string>,           // generate_pdf_report, or its exception
    startTime: int,                                   // timezone.now() when processing starts
    endTime: int)                                     // timezone.now() when the job ends

  const ReadFailedPrefix := "Gagal membaca file: "
  const EmptyTextMessage := "Tidak dapat mengekstrak teks dari dokumen. File mungkin kosong atau rusak."
  const TokenizeFailedPrefix := "Gagal memproses teks: "
  const NoSentencesMessage := "Tidak ada kalimat valid yang dapat diperiksa. Pastikan dokumen mengandung teks yang cukup (minimal 100 karakter)."
  const CheckFailedPrefix := "Error saat pemeriksaan plagiarisme: "
  const ReportFailedPrefix := "Gagal membuat laporan PDF: "
  const ReportMissingMessage := "Gagal membuat laporan PDF. Silakan coba lagi."
  const SystemErrorPrefix := "Terjadi kesalahan sistem: "

  /** The TypeError json.dumps raises on a local source: its 'id' is the matched
      RepositoryFile's primary key, a uuid.UUID, which the json module cannot serialise. */
  const UuidNotSerializable := "Object of type UUID is not JSON serializable"

  /** The progress written after 0, 1, 2, 3 and 4 stages have succeeded. */
  const Checkpoints: seq<int> := [0, 10, 20, 80, 95]

  /** The exception stage k (1 extraction, 2 tokenizing, 3 checking, 4 the report) raises,
      or None when it succeeds. */
  function StageFailure(st: Stages, k: nat): Option<Stop>
    requires 1 <= k <= 4
  {
    if k == 1 then
      match st.extraction
        case Err(UserError(m)) => Some(Raised(m))
        case Err(SystemError(m)) => Some(ReadFailed(m))
        case Ok(raw) => if Strip(raw) == [] then Some(EmptyText) else None
    else if k == 2 then
      match st.sentences
        case Err(m) => Some(TokenizeFailed(m))
        case Ok(ss) => if |ss| == 0 then Some(NoSentences) else None
    else if k == 3 then
      match st.check
        case Err(m) => Some(CheckFailed(m))
        case Ok(_) => None
    else if st.reportsDir.Some? then Some(DirFailed(st.reportsDir.value))
    else
      match st.report
        case Err(m) => Some(ReportFailed(m))
        case Ok(None) => Some(ReportMissing)
        case Ok(Some(_)) => None
  }

  /** The number of leading stages that succeed. */
  function Passed(st: Stages): (n: nat)
    ensures n <= 4
    ensures forall k :: 1 <= k <= n ==> StageFailure(st, k).None?
    ensures n < 4 ==> StageFailure(st, n + 1).Some?
  {
    if StageFailure(st, 1).Some? then 0
    else if StageFailure(st, 2).Some? then 1
    else if StageFailure(st, 3).Some? then 2
    else if StageFailure(st, 4).Some? then 3
    else 4
  }

  /** The error_message stored when the run stops: a ValueError's own message, or the
      system-error prefix and the text of any other exception. */
  function ErrorText(f: Stop): string {
    match f
      case Raised(m) => m
      case ReadFailed(m) => ReadFailedPrefix + m
      case EmptyText => EmptyTextMessage
      case TokenizeFailed(m) => TokenizeFailedPrefix + m
      case NoSentences => NoSentencesMessage
      case CheckFailed(m) => CheckFailedPrefix + m
      case DirFailed(m) => SystemErrorPrefix + m
      case ReportFailed(m) => ReportFailedPrefix + m
      case ReportMissing => ReportMissingMessage
      case EncodeFailed => SystemErrorPrefix + UuidNotSerializable
  }

  /** Step 5's json.dumps: it raises exactly when some local source (and so some UUID id) is
      among the sources, whatever else they hold. */
  function SaveFailure(rep: Checking.CheckReport): Option<Stop> {
    if rep.localSources != [] then Some(EncodeFailed) else None
  }

  /** The run ends completed: every stage passes and the sources can be encoded. */
  predicate Completes(st: Stages) {
    Passed(st) == 4 && SaveFailure(st.check.value).None?
  }

  /** Why a run of a found row stops, or None when it completes. */
  function FinalStop(st: Stages): Option<Stop> {
    if Passed(st) < 4 then StageFailure(st, Passed(st) + 1) else SaveFailure(st.check.value)
  }

  function ReportFile(st: Stages): string {
    "reports/Report_" + st.reportId + ".pdf"
  }

  function StartedJob(j: Job, st: Stages): Job {
    j.(status := Processing, startedAt := Some(st.startTime), progress := 0)
  }

  function FailedJob(j: Job, f: Stop, st: Stages): Job {
    j.(status := Failed, errorMessage := Some(ErrorText(f)), completedAt := Some(st.endTime))
  }

  /** The three scores step 5 assigns before it encodes the sources. */
  function ScoredJob(j: Job, rep: Checking.CheckReport): Job {
    j.(similarityScore := Some(rep.similarityGlobal), similarityLocal := Some(rep.similarityLocal),
       similarityInternet := Some(rep.similarityInternet))
  }

  function CompletedJob(j: Job, rep: Checking.CheckReport, st: Stages): Job {
    ScoredJob(j, rep).(
       matchedSources := Some(Encode(MatchedSources(rep.localSources, rep.internetSources))),
       reportFile := ReportFile(st), status := Completed, progress := 100,
       completedAt := Some(st.endTime))
  }

  /** Step 5 when json.dumps raises: the handler for other exceptions saves the scored row
      as failed; the sources and the report file are never assigned. */
  function EncodeFailedJob(j: Job, rep: Checking.CheckReport, st: Stages): Job {
    FailedJob(ScoredJob(j, rep), EncodeFailed, st)
  }

  /** The saves after processing started, the first n checkpoints after the start. */
  function CheckpointSaves(j0: Job, n: nat): (r: seq<Job>)
    requires n <= 4
    ensures |r| == n
    ensures forall i :: 0 <= i < n ==> r[i] == j0.(progress := Checkpoints[i + 1])
  {
    if n == 0 then [] else CheckpointSaves(j0, n - 1) + [j0.(progress := Checkpoints[n])]
  }

  /** The last write of the job. */
  function FinalJob(j: Job, st: Stages): Job {
    FinalFrom(StartedJob(j, st), st)
  }

  /** The last write, from the row as processing started. */
  function FinalFrom(j0: Job, st: Stages): Job {
    var n := Passed(st);
    var jn := j0.(progress := Checkpoints[n]);
    if n < 4 then FailedJob(jn, StageFailure(st, n + 1).value, st)
    else if SaveFailure(st.check.value).Some? then EncodeFailedJob(jn, st.check.value, st)
    else CompletedJob(jn, st.check.value, st)
  }

  /** Every write of the row, in order; none when the row does not exist. */
  function WorkerSaves(row: Option<Job>, st: Stages): seq<Job> {
    match row
      case None => []
      case Some(j) => [StartedJob(j, st)] + CheckpointSaves(StartedJob(j, st), Passed(st)) + [FinalJob(j, st)]
  }

  /** The files left after the run: the temporary upload is gone whenever it existed (on a
      failure, only when the path is non-empty). */
  function FilesAfter(files: set<string>, filePath: string, completed: bool): set<string> {
    if completed || filePath != "" then files - {filePath} else files
  }

  /** PlagiarismTask._process_worker. */
  method ProcessWorker(table: HistoryTable, disk: FileStore, historyId: string, filePath: string, st: Stages)
    requires table.Valid()
    modifies table, disk
    ensures table.Valid()
    ensures table.log == old(table.log) + WorkerSaves(Lookup(old(table.jobs), historyId), st)
    ensures Lookup(old(table.jobs), historyId).None? ==> table.jobs == old(table.jobs)
    ensures Lookup(old(table.jobs), historyId).Some? ==>
      table.jobs == Replace(old(table.jobs), FinalJob(Lookup(old(table.jobs), historyId).value, st))
    ensures disk.files == FilesAfter(old(disk.files),  filePath,
      Lookup(old(table.jobs), historyId).Some? && Completes(st))
  {
    var row := table.Get(historyId);
    if row.None? {
      CleanUp(disk, filePath);
      return;
    }
    ghost var log0 := table.log;
    StartRow(table, disk, row.value, filePath, st);
    WorkerSavesStart(row.value, st);
    StartLog(log0, table.log, StartedJob(row.value, st), SavesFrom(StartedJob(row.value, st), st, 1),
             WorkerSaves(row, st));
  }

  lemma WorkerSavesStart(j: Job, st: Stages)
    ensures WorkerSaves(Some(j), st) == [StartedJob(j, st)] + SavesFrom(StartedJob(j, st), st, 1)
  {
    var c := CheckpointSaves(StartedJob(j, st), Passed(st));
    assert c[0..] == c;
  }

  lemma StartLog(log0: seq<Job>, log1: seq<Job>, x: Job, rest: seq<Job>, whole: seq<Job>)
    requires log1 == log0 + [x] + rest && whole == [x] + rest
    ensures log1 == log0 + whole
  {
  }

  /** The found row: marked processing, then run through the stages. */
  method StartRow(table: HistoryTable, disk: FileStore, row: Job, filePath: string, st: Stages)
    requires table.Valid() && Lookup(table.jobs, row.id) == Some(row)
    modifies table, disk
    ensures table.Valid()
    ensures table.log == old(table.log) + [StartedJob(row, st)] + SavesFrom(StartedJob(row, st), st, 1)
    ensures table.jobs == Replace(old(table.jobs), FinalJob(row, st))
    ensures disk.files == FilesAfter(old(disk.files), filePath, Completes(st))
  {
    ghost var jobs0 := table.jobs;
    ReplaceSame(jobs0, row);
    var history := row.(status := Processing, startedAt := Some(st.startTime), progress := 0);
    Write(table, jobs0, row, history);
    RunStages(table, disk, jobs0, history, filePath, st);
  }

  /** The saves from stage k on: the checkpoints still to come and the last write. */
  function SavesFrom(j0: Job, st: Stages, k: nat): seq<Job>
    requires 1 <= k <= Passed(st) + 1
  {
    CheckpointSaves(j0, Passed(st))[k - 1..] + [FinalFrom(j0, st)]
  }

  /** Passing stage k writes checkpoint k and then the saves from stage k + 1. */
  lemma SavesFromStep(j0: Job, st: Stages, k: nat)
    requires 1 <= k <= Passed(st)
    ensures SavesFrom(j0, st, k) == [j0.(progress := Checkpoints[k])] + SavesFrom(j0, st, k + 1)
  {
    var c := CheckpointSaves(j0, Passed(st));
    DropCons(c, k - 1, [FinalFrom(j0, st)]);
  }

  lemma DropCons(c: seq<Job>, i: nat, last: seq<Job>)
    requires i < |c|
    ensures c[i..] + last == [c[i]] + (c[i + 1..] + last)
  {
    assert c[i..] == [c[i]] + c[i + 1..];
  }

  /** A write followed by the writes rest is the write sequence [x] + rest. */
  lemma LogStep(log0: seq<Job>, log1: seq<Job>, log2: seq<Job>, x: Job, rest: seq<Job>, whole: seq<Job>)
    requires log1 == log0 + [x] && log2 == log1 + rest && whole == [x] + rest
    ensures log2 == log0 + whole
  {
  }

  /** What each stage method promises, from stage k on. */
  twostate predicate RanFrom(table: HistoryTable, disk: FileStore, jobs0: seq<Job>, j0: Job, filePath: string,
                             st: Stages, k: nat)
    reads table, disk
    requires 1 <= k <= Passed(st) + 1
  {
    table.Valid() &&
    table.log == old(table.log) + SavesFrom(j0, st, k) &&
    table.jobs == Replace(jobs0, FinalFrom(j0, st)) &&
    disk.files == FilesAfter(old(disk.files), filePath, Completes(st))
  }

  /** A stage failed: the row is marked failed from the last checkpoint. */
  method FailAt(table: HistoryTable, disk: FileStore, ghost jobs0: seq<Job>, j0: Job, history: Job,
                f: Stop, filePath: string, st: Stages, ghost k: nat)
    requires 1 <= k <= 4 && Passed(st) == k - 1 && StageFailure(st, k) == Some(f)
    requires history == j0.(progress := Checkpoints[k - 1])
    requires table.Valid() && Lookup(jobs0, j0.id).Some? && table.jobs == Replace(jobs0, history)
    modifies table, disk
    ensures RanFrom(table, disk, jobs0, j0, filePath, st, k)
  {
    assert FinalFrom(j0, st) == FailedJob(history, f, st);
    Fail(table, disk, jobs0, history, history, f, filePath, st);
    assert SavesFrom(j0, st, k) == [FailedJob(history, f, st)];
  }

  /** The stages after processing started, from the row j0 written then. */
  method RunStages(table: HistoryTable, disk: FileStore, ghost jobs0: seq<Job>, j0: Job, filePath: string, st: Stages)
    requires j0.progress == 0
    requires table.Valid() && Lookup(jobs0, j0.id).Some? && table.jobs == Replace(jobs0, j0)
    modifies table, disk
    ensures RanFrom(table, disk, jobs0, j0, filePath, st, 1)
  {
    var failure := ExtractStage(st);
    if failure.Some? {
      FailAt(table, disk, jobs0, j0, j0, failure.value, filePath, st, 1);
      return;
    }
    var history := j0.(progress := 10);
    ghost var log0 := table.log;
    Write(table, jobs0, j0, history);
    ghost var log1 := table.log;
    AfterExtraction(table, disk, jobs0, j0, history, filePath, st);
    SavesFromStep(j0, st, 1);
    LogStep(log0, log1, table.log, history, SavesFrom(j0, st, 2), SavesFrom(j0, st, 1));
  }

  method AfterExtraction(table: HistoryTable, disk: FileStore, ghost jobs0: seq<Job>, j0: Job, history: Job,
                         filePath: string, st: Stages)
    requires Passed(st) >= 1 && history == j0.(progress := 10)
    requires table.Valid() && Lookup(jobs0, j0.id).Some? && table.jobs == Replace(jobs0, history)
    modifies table, disk
    ensures RanFrom(table, disk, jobs0, j0, filePath, st, 2)
  {
    var failure := TokenizeStage(st);
    if failure.Some? {
      FailAt(table, disk, jobs0, j0, history, failure.value, filePath, st, 2);
      return;
    }
    var history' := history.(progress := 20);
    ghost var log0 := table.log;
    Write(table, jobs0, history, history');
    ghost var log1 := table.log;
    AfterTokenizing(table, disk, jobs0, j0, history', filePath, st);
    SavesFromStep(j0, st, 2);
    LogStep(log0, log1, table.log, history', SavesFrom(j0, st, 3), SavesFrom(j0, st, 2));
  }

  method AfterTokenizing(table: HistoryTable, disk: FileStore, ghost jobs0: seq<Job>, j0: Job, history: Job,
                         filePath: string, st: Stages)
    requires Passed(st) >= 2 && history == j0.(progress := 20)
    requires table.Valid() && Lookup(jobs0, j0.id).Some? && table.jobs == Replace(jobs0, history)
    modifies table, disk
    ensures RanFrom(table, disk, jobs0, j0, filePath, st, 3)
  {
    if st.check.Err? {
      FailAt(table, disk, jobs0, j0, history, CheckFailed(st.check.error), filePath, st, 3);
      return;
    }
    var history' := history.(progress := 80);
    ghost var log0 := table.log;
    Write(table, jobs0, history, history');
    ghost var log1 := table.log;
    AfterChecking(table, disk, jobs0, j0, history', filePath, st, st.check.value);
    SavesFromStep(j0, st, 3);
    LogStep(log0, log1, table.log, history', SavesFrom(j0, st, 4), SavesFrom(j0, st, 3));
  }

  method AfterChecking(table: HistoryTable, disk: FileStore, ghost jobs0: seq<Job>, j0: Job, history: Job,
                       filePath: string, st: Stages, checkResults: Checking.CheckReport)
    requires Passed(st) >= 3 && history == j0.(progress := 80) && st.check == Ok(checkResults)
    requires table.Valid() && Lookup(jobs0, j0.id).Some? && table.jobs == Replace(jobs0, history)
    modifies table, disk
    ensures RanFrom(table, disk, jobs0, j0, filePath, st, 4)
  {
    var failure := ReportStage(st);
    if failure.Some? {
      FailAt(table, disk, jobs0, j0, history, failure.value, filePath, st, 4);
      return;
    }
    var history' := history.(progress := 95);
    ghost var log0 := table.log;
    Write(table, jobs0, history, history');
    ghost var log1 := table.log;
    SaveResults(table, disk, jobs0, j0, history', filePath, st, checkResults);
    SavesFromStep(j0, st, 4);
    LogStep(log0, log1, table.log, history', SavesFrom(j0, st, 5), SavesFrom(j0, st, 4));
  }

  /** Step 5: the scores, then the sources as JSON, the report file and the completed
      status; json.dumps raises on any local source, and the row is then failed. */
  method SaveResults(table: HistoryTable, disk: FileStore, ghost jobs0: seq<Job>, j0: Job, history: Job,
                     filePath: string, st: Stages, checkResults: Checking.CheckReport)
    requires Passed(st) == 4 && history == j0.(progress := 95) && st.check == Ok(checkResults)
    requires table.Valid() && Lookup(jobs0, j0.id).Some? && table.jobs == Replace(jobs0, history)
    modifies table, disk
    ensures RanFrom(table, disk, jobs0, j0, filePath, st, 5)
  {
    var h := history.(similarityScore := Some(checkResults.similarityGlobal),
                      similarityLocal := Some(checkResults.similarityLocal),
                      similarityInternet := Some(checkResults.similarityInternet));
    if checkResults.localSources != [] {
      EncodeFailedLast(j0, st, history, checkResults);
      Fail(table, disk, jobs0, history, h, EncodeFailed, filePath, st);
      return;
    }
    h := h.(matchedSources := Some(Encode(MatchedSources(checkResults.localSources, checkResults.internetSources))));
    h := h.(reportFile := "reports/Report_" + st.reportId + ".pdf");
    h := h.(status := Completed, progress := 100, completedAt := Some(st.endTime));
    assert h == CompletedJob(history, checkResults, st);
    CompletedLast(j0, st, history, checkResults);
    Write(table, jobs0, history, h);
    RemoveUpload(disk, filePath);
  }

  /** `if os.path.exists(file_path): os.remove(file_path)` after a completed run. */
  method RemoveUpload(disk: FileStore, filePath: string)
    modifies disk
    ensures disk.files == FilesAfter(old(disk.files), filePath, true)
  {
    if disk.Exists(filePath) {
      disk.Remove(filePath);
    }
  }

  /** With every stage passed and no local source, the last write is the completed row from
      checkpoint 95. */
  lemma CompletedLast(j0: Job, st: Stages, history: Job, checkResults: Checking.CheckReport)
    requires Passed(st) == 4 && history == j0.(progress := 95) && st.check == Ok(checkResults)
    requires checkResults.localSources == []
    ensures FinalFrom(j0, st) == CompletedJob(history, checkResults, st)
    ensures SavesFrom(j0, st, 5) == [CompletedJob(history, checkResults, st)]
  {
    assert CheckpointSaves(j0, 4)[4..] == [];
  }

  /** With every stage passed and some local source, the last write is the scored row from
      checkpoint 95, failed with the encoding error. */
  lemma EncodeFailedLast(j0: Job, st: Stages, history: Job, checkResults: Checking.CheckReport)
    requires Passed(st) == 4 && history == j0.(progress := 95) && st.check == Ok(checkResults)
    requires checkResults.localSources != []
    ensures FinalFrom(j0, st) == EncodeFailedJob(history, checkResults, st)
    ensures SavesFrom(j0, st, 5) == [EncodeFailedJob(history, checkResults, st)]
  {
    assert CheckpointSaves(j0, 4)[4..] == [];
  }

  /** Step 1: extract_text, with its exceptions turned into ValueErrors, and the empty-text check. */
  method ExtractStage(st: Stages) returns (failure: Option<Stop>)
    ensures failure == StageFailure(st, 1)
  {
    failure := None;
    match st.extraction {
      case Err(UserError(m)) => failure := Some(Raised(m));
      case Err(SystemError(m)) => failure := Some(ReadFailed(m));
      case Ok(raw) =>
        if Strip(raw) == [] {
          failure := Some(EmptyText);
        }
    }
  }

  /** Step 2: tokenize, and the no-sentence check. */
  method TokenizeStage(st: Stages) returns (failure: Option<Stop>)
    ensures failure == StageFailure(st, 2)
  {
    failure := None;
    match st.sentences {
      case Err(m) => failure := Some(TokenizeFailed(m));
      case Ok(sentences) =>
        if |sentences| == 0 {
          failure := Some(NoSentences);
        }
    }
  }

  /** Step 4: the reports directory and generate_pdf_report. */
  method ReportStage(st: Stages) returns (failure: Option<Stop>)
    ensures failure == StageFailure(st, 4)
  {
    failure := None;
    if st.reportsDir.Some? {
      failure := Some(DirFailed(st.reportsDir.value));
    } else {
      match st.report {
        case Err(m) => failure := Some(ReportFailed(m));
        case Ok(None) => failure := Some(ReportMissing);
        case Ok(Some(_)) =>
      }
    }
  }

  /** history.save() of the row first read as jobs0's row with this id: the table holds the
      latest version. */
  method Write(table: HistoryTable, ghost jobs0: seq<Job>, ghost previous: Job, history: Job)
    requires table.Valid() && Lookup(jobs0, history.id).Some?
    requires previous.id == history.id && table.jobs == Replace(jobs0, previous)
    modifies table
    ensures table.Valid()
    ensures table.jobs == Replace(jobs0, history)
    ensures table.log == old(table.log) + [history]
  {
    LookupAfterSave(jobs0, previous);
    ReplaceTwice(jobs0, previous, history);
    table.Save(history);
  }

  /** The exception handlers: the row is marked failed and saved, and the upload removed. */
  method Fail(table: HistoryTable, disk: FileStore, ghost jobs0: seq<Job>, ghost previous: Job, history: Job,
              f: Stop, filePath: string, st: Stages)
    requires table.Valid() && Lookup(jobs0, history.id).Some?
    requires previous.id == history.id && table.jobs == Replace(jobs0, previous)
    modifies table, disk
    ensures table.Valid()
    ensures table.jobs == Replace(jobs0, FailedJob(history, f, st))
    ensures table.log == old(table.log) + [FailedJob(history, f, st)]
    ensures disk.files == FilesAfter(old(disk.files), filePath, false)
  {
    var h := history.(status := Failed, errorMessage := Some(ErrorText(f)), completedAt := Some(st.endTime));
    Write(table, jobs0, previous, h);
    CleanUp(disk, filePath);
  }

  /** `if file_path and os.path.exists(file_path): os.remove(file_path)`. */
  method CleanUp(disk: FileStore, filePath: string)
    modifies disk
    ensures disk.files == FilesAfter(old(disk.files), filePath, false)
  {
    if filePath != "" && disk.Exists(filePath) {
      disk.Remove(filePath);
    }
  }

  /** The fields the worker never writes. */
  predicate SameIdentity(a: Job, b: Job) {
    a.id == b.id && a.user == b.user && a.filename == b.filename && a.checkDate == b.checkDate &&
    a.sourceMode == b.sourceMode && a.fileDeleted == b.fileDeleted
  }

  /** The writes of a found row: first `processing` at progress 0 with the start time, then
      one write per passed stage at that stage's checkpoint, then the final write; the
      progress never goes down and the row's identity never changes. */
  lemma WorkerSavesFacts(j: Job, st: Stages)
    ensures |WorkerSaves(Some(j), st)| == Passed(st) + 2
    ensures WorkerSaves(Some(j), st)[0].status == Processing && WorkerSaves(Some(j), st)[0].progress == 0
    ensures WorkerSaves(Some(j), st)[0].startedAt == Some(st.startTime)
    ensures forall i :: 1 <= i <= Passed(st) ==>
      WorkerSaves(Some(j), st)[i].status == Processing && WorkerSaves(Some(j), st)[i].progress == Checkpoints[i]
    ensures WorkerSaves(Some(j), st)[Passed(st) + 1] == FinalJob(j, st)
    ensures forall i, k :: 0 <= i <= k < |WorkerSaves(Some(j), st)| ==>
      WorkerSaves(Some(j), st)[i].progress <= WorkerSaves(Some(j), st)[k].progress
    ensures forall i :: 0 <= i < |WorkerSaves(Some(j), st)| ==> SameIdentity(WorkerSaves(Some(j), st)[i], j)
  {
    var w := WorkerSaves(Some(j), st);
    var n := Passed(st);
    WorkerSavesLength(j, st);
    FinalJobCore(j, st);
    forall i | 0 <= i < |w|
      ensures w[i].progress == ProgressAt(st, i) && SameIdentity(w[i], j)
      ensures 1 <= i <= n ==> w[i].status == Processing
    {
      WorkerSaveAt(j, st, i);
    }
    forall i, k | 0 <= i <= k < |w| ensures ProgressAt(st, i) <= ProgressAt(st, k) {
      ProgressAtMonotone(st, i, k);
    }
  }

  /** The progress of write i of a found row. */
  function ProgressAt(st: Stages, i: nat): int
    requires i <= Passed(st) + 1
  {
    if i <= Passed(st) then Checkpoints[i] else if Completes(st) then 100 else Checkpoints[Passed(st)]
  }

  lemma ProgressAtMonotone(st: Stages, i: nat, k: nat)
    requires i <= k <= Passed(st) + 1
    ensures ProgressAt(st, i) <= ProgressAt(st, k)
  {
  }

  lemma WorkerSavesLength(j: Job, st: Stages)
    ensures |WorkerSaves(Some(j), st)| == Passed(st) + 2
  {
  }

  /** Write i of a found row. */
  lemma WorkerSaveAt(j: Job, st: Stages, i: nat)
    requires i < Passed(st) + 2
    ensures WorkerSaves(Some(j), st)[i] ==
      if i == 0 then StartedJob(j, st)
      else if i <= Passed(st) then StartedJob(j, st).(progress := Checkpoints[i])
      else FinalJob(j, st)
  {
    var j0 := StartedJob(j, st);
    ThreeParts(WorkerSaves(Some(j), st), j0, CheckpointSaves(j0, Passed(st)), FinalJob(j, st), i);
  }

  lemma ThreeParts(w: seq<Job>, x: Job, c: seq<Job>, y: Job, i: nat)
    requires w == [x] + c + [y] && i < |c| + 2
    ensures w[i] == if i == 0 then x else if i <= |c| then c[i - 1] else y
  {
  }

  /** The final write keeps the identity and ends at 100 or at the last checkpoint reached. */
  lemma FinalJobCore(j: Job, st: Stages)
    ensures SameIdentity(FinalJob(j, st), j)
    ensures FinalJob(j, st).progress == ProgressAt(st, Passed(st) + 1)
  {
  }

  /** The final write: completed, with the scores, the encoded sources, the report name and
      progress 100, exactly when the run completes; otherwise failed at the progress of the
      last checkpoint reached, with the stopping cause's message and without new sources or
      report. A run that fails only in step 5 keeps the scores it assigned. Either way it
      records the end time and keeps the start. */
  lemma FinalJobFacts(j: Job, st: Stages)
    ensures SameIdentity(FinalJob(j, st), j)
    ensures FinalJob(j, st).status == Completed <==> Completes(st)
    ensures FinalJob(j, st).status == Completed || FinalJob(j, st).status == Failed
    ensures FinalJob(j, st).completedAt == Some(st.endTime)
    ensures FinalJob(j, st).startedAt == Some(st.startTime)
    ensures Completes(st) ==>
      var rep := st.check.value;
      FinalJob(j, st).progress == 100 &&
      FinalJob(j, st).similarityScore == Some(rep.similarityGlobal) &&
      FinalJob(j, st).similarityLocal == Some(rep.similarityLocal) &&
      FinalJob(j, st).similarityInternet == Some(rep.similarityInternet) &&
      FinalJob(j, st).reportFile == ReportFile(st) &&
      GetMatchedSources(FinalJob(j, st)) == MatchedSources(rep.localSources, rep.internetSources)
    ensures !Completes(st) ==>
      FinalStop(st).Some? &&
      FinalJob(j, st).progress == Checkpoints[Passed(st)] &&
      FinalJob(j, st).errorMessage == Some(ErrorText(FinalStop(st).value)) &&
      FinalJob(j, st).matchedSources == j.matchedSources &&
      FinalJob(j, st).reportFile == j.reportFile
    ensures Passed(st) < 4 ==> FinalJob(j, st).similarityScore == j.similarityScore
    ensures Passed(st) == 4 && !Completes(st) ==>
      FinalJob(j, st).similarityScore == Some(st.check.value.similarityGlobal) &&
      FinalJob(j, st).errorMessage == Some(SystemErrorPrefix + UuidNotSerializable)
  {
    if Completes(st) {
      var rep := st.check.value;
      var started := StartedJob(j, st).(progress := Checkpoints[4]);
      assert FinalJob(j, st) == CompletedJob(started, rep, st);
      GetSetMatchedSources(started, MatchedSources(rep.localSources, rep.internetSources));
      assert CompletedJob(started, rep, st).matchedSources
          == SetMatchedSources(started, MatchedSources(rep.localSources, rep.internetSources)).matchedSources;
    }
  }

  /** The exceptions that are not ValueErrors, and so get the system-error prefix: the
      reports directory in step 4 and the encoding of the sources in step 5. */
  lemma SystemErrorStops(st: Stages)
    requires FinalStop(st).Some?
    ensures FinalStop(st).value.DirFailed? || FinalStop(st).value.EncodeFailed? <==>
      (Passed(st) == 3 && st.reportsDir.Some?) || (Passed(st) == 4 && st.check.value.localSources != [])
    ensures FinalStop(st).value.DirFailed? ==>
      ErrorText(FinalStop(st).value) == SystemErrorPrefix + st.reportsDir.value
    ensures FinalStop(st).value.EncodeFailed? ==>
      ErrorText(FinalStop(st).value) == SystemErrorPrefix + UuidNotSerializable
  {
  }

  // ----- The sources' UUID ids -----

  /** As written, a run whose check found any local source fails in step 5: the row stays
      at progress 95, failed with the TypeError of json.dumps, and never gets its sources or
      its report file, although the report was generated. */
  lemma LocalSourcesFailRun(j: Job, st: Stages)
    requires Passed(st) == 4 && st.check.value.localSources != []
    ensures FinalJob(j, st).status == Failed && FinalJob(j, st).progress == 95
    ensures FinalJob(j, st).errorMessage == Some(SystemErrorPrefix + UuidNotSerializable)
    ensures FinalJob(j, st).matchedSources == j.matchedSources && FinalJob(j, st).reportFile == j.reportFile
  {
  }

  /** The last write with the ids converted by str before json.dumps (`'id':
      str(matched_repo.id)`): step 5 then never raises. */
  function IntendedFinalJob(j: Job, st: Stages): Job {
    if Passed(st) == 4 then CompletedJob(StartedJob(j, st).(progress := Checkpoints[4]), st.check.value, st)
    else FinalJob(j, st)
  }

  /** With string ids, a run completes exactly when every stage passes, and its row carries
      the scores, the sources and the report; the failures are those of the four stages. */
  lemma IntendedFinalJobFacts(j: Job, st: Stages)
    ensures SameIdentity(IntendedFinalJob(j, st), j)
    ensures IntendedFinalJob(j, st).status == Completed <==> Passed(st) == 4
    ensures IntendedFinalJob(j, st).completedAt == Some(st.endTime)
    ensures Passed(st) == 4 ==>
      var rep := st.check.value;
      IntendedFinalJob(j, st).progress == 100 &&
      IntendedFinalJob(j, st).similarityScore == Some(rep.similarityGlobal) &&
      IntendedFinalJob(j, st).similarityLocal == Some(rep.similarityLocal) &&
      IntendedFinalJob(j, st).similarityInternet == Some(rep.similarityInternet) &&
      IntendedFinalJob(j, st).reportFile == ReportFile(st) &&
      GetMatchedSources(IntendedFinalJob(j, st)) == MatchedSources(rep.localSources, rep.internetSources)
    ensures Passed(st) < 4 ==>
      IntendedFinalJob(j, st).progress == Checkpoints[Passed(st)] &&
      IntendedFinalJob(j, st).errorMessage == Some(ErrorText(StageFailure(st, Passed(st) + 1).value))
  {
    if Passed(st) == 4 {
      var rep := st.check.value;
      var started := StartedJob(j, st).(progress := Checkpoints[4]);
      GetSetMatchedSources(started, MatchedSources(rep.localSources, rep.internetSources));
      assert CompletedJob(started, rep, st).matchedSources
          == SetMatchedSources(started, MatchedSources(rep.localSources, rep.internetSources)).matchedSources;
    }
  }

  /** Where no local source is found, the code as written and the intended one agree. */
  lemma IntendedAgrees(j: Job, st: Stages)
    requires Passed(st) < 4 || st.check.value.localSources == []
    ensures IntendedFinalJob(j, st) == FinalJob(j, st)
  {
  }
}
