/** apps/plagiarism/management/commands/cleanup_old_reports.py: removes the report files of
    old completed checks and marks their records, which are kept. */
module Cleanup {
  import opened Wrappers
  import opened Text
  import opened History
  import opened Storage
  import opened Settings

  /** Instants are counted in seconds; timedelta(days=n) is n of these. */
  const SecondsPerDay: int := 86400

  /** The file_deleted_reason written by the command. */
  function Reason(days: int): string {
    "Auto-cleanup after " + IntToString(days) + " days"
  }

  /** The filter: completed_at__lt=cutoff, status='completed', file_deleted=False. A row with
      no completed_at never satisfies the comparison. */
  predicate IsCandidate(j: Job, cutoff: int) {
    j.status == Completed && !j.fileDeleted && j.completedAt.Some? && j.completedAt.value < cutoff
  }

  /** `report.report_file and os.path.exists(...)`, followed by an os.remove that does not
      raise; `failing` holds the paths whose removal raises. */
  predicate Removable(j: Job, files: set<string>, failing: set<string>) {
    j.reportFile != "" && j.reportFile in files && j.reportFile !in failing
  }

  /** The record after the command marks it. */
  function MarkDeleted(j: Job, now: int, days: int): (m: Job)
    ensures m.fileDeleted && m.fileDeletedAt == Some(now) && m.fileDeletedReason == Some(Reason(days))
    ensures SameExceptDeletion(m, j)
  {
    j.(fileDeleted := true, fileDeletedAt := Some(now), fileDeletedReason := Some(Reason(days)))
  }

  /** The two records agree on every field but the three deletion fields. */
  predicate SameExceptDeletion(a: Job, b: Job) {
    a == b.(fileDeleted := a.fileDeleted, fileDeletedAt := a.fileDeletedAt, fileDeletedReason := a.fileDeletedReason)
  }

  /** The rows, the files on disk and the count after visiting some rows. */
  datatype Sweep = Sweep(rows: seq<Job>, files: set<string>, count: nat)

  /** The effect of the loop over the rows in table order: each candidate whose report file
      exists and can be removed loses the file and is marked. */
  function SweepRows(rows: seq<Job>, files: set<string>, failing: set<string>, cutoff: int, now: int, days: int): (s: Sweep)
    ensures |s.rows| == |rows|
    decreases |rows|
  {
    if rows == [] then Sweep([], files, 0)
    else
      var p := SweepRows(rows[..|rows| - 1], files, failing, cutoff, now, days);
      var j := rows[|rows| - 1];
      if IsCandidate(j, cutoff) && Removable(j, p.files, failing)
      then Sweep(p.rows + [MarkDeleted(j, now, days)], p.files - {j.reportFile}, p.count + 1)
      else Sweep(p.rows + [j], p.files, p.count)
  }

  /** The number of positions at which two tables of the same length differ. */
  function Changed(a: seq<Job>, b: seq<Job>): (n: nat)
    requires |a| == |b|
    ensures n <= |a|
  {
    if a == [] then 0
    else Changed(a[..|a| - 1], b[..|b| - 1]) + (if a[|a| - 1] != b[|b| - 1] then 1 else 0)
  }

  /** Records are never removed: every row either is as it was or is a candidate that was
      marked, differing only in the deletion fields; files only go away. */
  lemma {:induction false} SweepShape(rows: seq<Job>, files: set<string>, failing: set<string>, cutoff: int, now: int, days: int)
    ensures var s := SweepRows(rows, files, failing, cutoff, now, days);
      s.files <= files &&
      forall k :: 0 <= k < |rows| ==>
        s.rows[k] == rows[k] || (IsCandidate(rows[k], cutoff) && s.rows[k] == MarkDeleted(rows[k], now, days))
    decreases |rows|
  {
    if rows != [] {
      var init := rows[..|rows| - 1];
      SweepShape(init, files, failing, cutoff, now, days);
      var p := SweepRows(init, files, failing, cutoff, now, days);
      var s := SweepRows(rows, files, failing, cutoff, now, days);
      assert s.rows[..|init|] == p.rows;
      assert forall k :: 0 <= k < |init| ==> rows[k] == init[k];
    }
  }

  /** Only the three deletion fields ever change. */
  lemma OnlyDeletionFields(rows: seq<Job>, files: set<string>, failing: set<string>, cutoff: int, now: int, days: int)
    ensures var s := SweepRows(rows, files, failing, cutoff, now, days);
      forall k :: 0 <= k < |rows| ==> SameExceptDeletion(s.rows[k], rows[k]) && s.rows[k].id == rows[k].id
  {
    SweepShape(rows, files, failing, cutoff, now, days);
  }

  /** The reported count is the number of records marked. */
  lemma {:induction false} SweepCount(rows: seq<Job>, files: set<string>, failing: set<string>, cutoff: int, now: int, days: int)
    ensures var s := SweepRows(rows, files, failing, cutoff, now, days);
      s.count == Changed(rows, s.rows)
    decreases |rows|
  {
    if rows != [] {
      var init := rows[..|rows| - 1];
      SweepCount(init, files, failing, cutoff, now, days);
      var p := SweepRows(init, files, failing, cutoff, now, days);
      var s := SweepRows(rows, files, failing, cutoff, now, days);
      assert s.rows[..|init|] == p.rows;
    }
  }

  /** A record is marked only when its report file existed and was removed; a candidate
      without a report file, or whose file is missing or cannot be removed, stays as it was. */
  lemma {:induction false} MarkedHadFile(rows: seq<Job>, files: set<string>, failing: set<string>, cutoff: int, now: int, days: int)
    ensures var s := SweepRows(rows, files, failing, cutoff, now, days);
      forall k :: 0 <= k < |rows| && s.rows[k] != rows[k] ==>
        IsCandidate(rows[k], cutoff) && Removable(rows[k], files, failing) && rows[k].reportFile !in s.files
    decreases |rows|
  {
    if rows != [] {
      var init := rows[..|rows| - 1];
      MarkedHadFile(init, files, failing, cutoff, now, days);
      SweepShape(init, files, failing, cutoff, now, days);
      var p := SweepRows(init, files, failing, cutoff, now, days);
      var s := SweepRows(rows, files, failing, cutoff, now, days);
      assert s.rows[..|init|] == p.rows;
      assert s.files <= p.files;
      assert forall k :: 0 <= k < |init| ==> rows[k] == init[k];
    }
  }

  /** After the loop no candidate is left that could still be removed. */
  lemma {:induction false} SweepSettles(rows: seq<Job>, files: set<string>, failing: set<string>, cutoff: int, now: int, days: int)
    ensures var s := SweepRows(rows, files, failing, cutoff, now, days);
      forall k :: 0 <= k < |rows| && IsCandidate(s.rows[k], cutoff) ==> !Removable(s.rows[k], s.files, failing)
    decreases |rows|
  {
    if rows != [] {
      var init := rows[..|rows| - 1];
      SweepSettles(init, files, failing, cutoff, now, days);
      var p := SweepRows(init, files, failing, cutoff, now, days);
      var s := SweepRows(rows, files, failing, cutoff, now, days);
      SweepShape(init, files, failing, cutoff, now, days);
      forall k | 0 <= k < |rows| && IsCandidate(s.rows[k], cutoff)
        ensures !Removable(s.rows[k], s.files, failing)
      {
        if k < |init| {
          assert s.rows[k] == p.rows[k];
          assert s.files <= p.files;
        }
      }
    }
  }

  /** With no removable candidate, the loop changes nothing. */
  lemma {:induction false} SweepNoop(rows: seq<Job>, files: set<string>, failing: set<string>, cutoff: int, now: int, days: int)
    requires forall k :: 0 <= k < |rows| && IsCandidate(rows[k], cutoff) ==> !Removable(rows[k], files, failing)
    ensures SweepRows(rows, files, failing, cutoff, now, days) == Sweep(rows, files, 0)
    decreases |rows|
  {
    if rows != [] {
      var init := rows[..|rows| - 1];
      SweepNoop(init, files, failing, cutoff, now, days);
      assert init + [rows[|rows| - 1]] == rows;
    }
  }

  /** A second run at the same instant marks nothing and removes nothing. */
  lemma SweepIdempotent(rows: seq<Job>, files: set<string>, failing: set<string>, cutoff: int, now: int, days: int)
    ensures var s := SweepRows(rows, files, failing, cutoff, now, days);
      SweepRows(s.rows, s.files, failing, cutoff, now, days) == Sweep(s.rows, s.files, 0)
  {
    var s := SweepRows(rows, files, failing, cutoff, now, days);
    SweepSettles(rows, files, failing, cutoff, now, days);
    SweepNoop(s.rows, s.files, failing, cutoff, now, days);
  }

  /** Saving a record whose id sits at position i changes position i only. */
  lemma ReplaceUnique(jobs: seq<Job>, i: int, x: Job)
    requires UniqueJobIds(jobs) && 0 <= i < |jobs| && jobs[i].id == x.id
    ensures Replace(jobs, x) == jobs[i := x]
  {
    ReplaceAt(jobs, x);
  }

  /** The state of the loop before position i, given the rows visited so far. */
  lemma SweepStep(rows: seq<Job>, i: int, files: set<string>, failing: set<string>, cutoff: int, now: int, days: int)
    requires 0 <= i < |rows|
    ensures var p := SweepRows(rows[..i], files, failing, cutoff, now, days);
      var j := rows[i];
      SweepRows(rows[..i + 1], files, failing, cutoff, now, days) ==
        if IsCandidate(j, cutoff) && Removable(j, p.files, failing)
        then Sweep(p.rows + [MarkDeleted(j, now, days)], p.files - {j.reportFile}, p.count + 1)
        else Sweep(p.rows + [j], p.files, p.count)
  {
    assert rows[..i + 1][..i] == rows[..i];
  }

  /** The loop has visited the first i rows: the table, the files and the count are those
      of the sweep over them, and the remaining rows are untouched. */
  ghost predicate SweptTo(jobs: seq<Job>, files: set<string>, count: nat, reports: seq<Job>, i: int,
                          files0: set<string>, failing: set<string>, cutoff: int, now: int, days: int)
    requires 0 <= i <= |reports|
  {
    var s := SweepRows(reports[..i], files0, failing, cutoff, now, days);
    jobs == s.rows + reports[i..] && files == s.files && count == s.count
  }

  /** handle: reads auto_delete_days; when it is positive, visits the records in table order
      and, for each candidate whose report file exists, removes the file and marks the
      record. `failing` holds the paths whose removal raises; `now` is timezone.now(). */
  method Handle(settings: SettingsTable, history: HistoryTable, store: FileStore, failing: set<string>, now: int)
    returns (count: nat)
    requires settings.Valid() && history.Valid()
    modifies settings, history, store
    ensures settings.rows == old(settings.rows)[1 := Current(old(settings.rows))] && settings.Valid()
    ensures history.Valid()
    ensures var days := Current(old(settings.rows)).autoDeleteDays;
      if days <= 0 then
        history.jobs == old(history.jobs) && store.files == old(store.files) && count == 0
      else
        var s := SweepRows(old(history.jobs), old(store.files), failing, now - days * SecondsPerDay, now, days);
        history.jobs == s.rows && store.files == s.files && count == s.count
  {
    var days := settings.GetAutoDeleteDays();
    if days <= 0 {
      return 0;
    }
    var cutoff := now - days * SecondsPerDay;
    var reports := history.jobs;
    ghost var rows1 := settings.rows;
    ghost var files0 := store.files;
    count := 0;
    var i := 0;
    SweptStart(reports, files0, failing, cutoff, now, days);
    while i < |reports|
      invariant 0 <= i <= |reports| && history.Valid()
      invariant SweptTo(history.jobs, store.files, count, reports, i, files0, failing, cutoff, now, days)
      invariant settings.rows == rows1
    {
      count := VisitReport(history, store, failing, reports, i, files0, cutoff, now, days, count);
      i := i + 1;
    }
    SweptEnd(history.jobs, store.files, count, reports, files0, failing, cutoff, now, days);
  }

  lemma SweptStart(reports: seq<Job>, files0: set<string>, failing: set<string>, cutoff: int, now: int, days: int)
    ensures SweptTo(reports, files0, 0, reports, 0, files0, failing, cutoff, now, days)
  {
    assert reports[..0] == [] && reports[0..] == reports;
  }

  lemma SweptEnd(jobs: seq<Job>, files: set<string>, count: nat, reports: seq<Job>,
                 files0: set<string>, failing: set<string>, cutoff: int, now: int, days: int)
    requires SweptTo(jobs, files, count, reports, |reports|, files0, failing, cutoff, now, days)
    ensures var s := SweepRows(reports, files0, failing, cutoff, now, days);
      jobs == s.rows && files == s.files && count == s.count
  {
    assert reports[..|reports|] == reports;
    assert reports[|reports|..] == [];
  }

  /** One pass of the loop over the i-th record. */
  method VisitReport(history: HistoryTable, store: FileStore, failing: set<string>, reports: seq<Job>, i: int,
                     ghost files0: set<string>, cutoff: int, now: int, days: int, count: nat)
    returns (count': nat)
    requires 0 <= i < |reports| && history.Valid()
    requires SweptTo(history.jobs, store.files, count, reports, i, files0, failing, cutoff, now, days)
    modifies history, store
    ensures history.Valid()
    ensures SweptTo(history.jobs, store.files, count', reports, i + 1, files0, failing, cutoff, now, days)
  {
    var report := reports[i];
    count' := count;
    if IsCandidate(report, cutoff) && report.reportFile != "" && store.Exists(report.reportFile)
      && report.reportFile !in failing
    {
      ghost var jobs, files := history.jobs, store.files;
      var marked := MarkDeleted(report, now, days);
      MarkReady(jobs, files, count, reports, i, files0, failing, cutoff, now, days);
      store.Remove(report.reportFile);
      history.Save(marked);
      AdvanceMarked(jobs, files, count, reports, i, files0, failing, cutoff, now, days);
      count' := count + 1;
    } else {
      AdvanceSkipped(history.jobs, store.files, count, reports, i, files0, failing, cutoff, now, days);
    }
  }

  /** The row about to be marked is in the table. */
  lemma MarkReady(jobs: seq<Job>, files: set<string>, count: nat, reports: seq<Job>, i: int,
                  files0: set<string>, failing: set<string>, cutoff: int, now: int, days: int)
    requires 0 <= i < |reports| && UniqueJobIds(jobs)
    requires SweptTo(jobs, files, count, reports, i, files0, failing, cutoff, now, days)
    ensures Lookup(jobs, reports[i].id).Some?
  {
    var p := SweepRows(reports[..i], files0, failing, cutoff, now, days);
    RestShifts(reports, i);
    assert jobs[|p.rows|] == reports[i];
  }

  /** Marking the i-th row is the sweep's step over it. */
  lemma AdvanceMarked(jobs: seq<Job>, files: set<string>, count: nat, reports: seq<Job>, i: int,
                      files0: set<string>, failing: set<string>, cutoff: int, now: int, days: int)
    requires 0 <= i < |reports| && UniqueJobIds(jobs)
    requires SweptTo(jobs, files, count, reports, i, files0, failing, cutoff, now, days)
    requires IsCandidate(reports[i], cutoff) && Removable(reports[i], files, failing)
    ensures SweptTo(Replace(jobs, MarkDeleted(reports[i], now, days)), files - {reports[i].reportFile}, count + 1,
                    reports, i + 1, files0, failing, cutoff, now, days)
  {
    var p := SweepRows(reports[..i], files0, failing, cutoff, now, days);
    SweepStep(reports, i, files0, failing, cutoff, now, days);
    RestShifts(reports, i);
    MarkAt(jobs, p.rows, reports, i, MarkDeleted(reports[i], now, days));
  }

  /** Passing over the i-th row is the sweep's step over it. */
  lemma AdvanceSkipped(jobs: seq<Job>, files: set<string>, count: nat, reports: seq<Job>, i: int,
                       files0: set<string>, failing: set<string>, cutoff: int, now: int, days: int)
    requires 0 <= i < |reports|
    requires SweptTo(jobs, files, count, reports, i, files0, failing, cutoff, now, days)
    requires !(IsCandidate(reports[i], cutoff) && Removable(reports[i], files, failing))
    ensures SweptTo(jobs, files, count, reports, i + 1, files0, failing, cutoff, now, days)
  {
    var p := SweepRows(reports[..i], files0, failing, cutoff, now, days);
    SweepStep(reports, i, files0, failing, cutoff, now, days);
    RestShifts(reports, i);
    ShiftOne(p.rows, reports[i], reports[i..], reports[i + 1..]);
  }

  lemma ShiftOne<T>(a: seq<T>, x: T, b: seq<T>, c: seq<T>)
    requires b == [x] + c
    ensures a + b == (a + [x]) + c
  {
  }

  lemma RestShifts(reports: seq<Job>, i: int)
    requires 0 <= i < |reports|
    ensures reports[i..] == [reports[i]] + reports[i + 1..]
  {
  }

  /** Saving the marked record at position i keeps the table in step with the sweep. */
  lemma MarkAt(jobs: seq<Job>, done: seq<Job>, reports: seq<Job>, i: int, m: Job)
    requires 0 <= i < |reports| && |done| == i && jobs == done + reports[i..] && UniqueJobIds(jobs)
    requires m.id == reports[i].id
    ensures Replace(jobs, m) == done + [m] + reports[i + 1..]
  {
    assert jobs[i] == reports[i];
    ReplaceUnique(jobs, i, m);
    assert jobs[i := m] == done + [m] + reports[i + 1..];
  }
}
