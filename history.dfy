/** apps/history: the PlagiarismHistory table (one row per check job, newest first), the
    matched-sources accessors, and the per-user, per-day UserUploadQuota counters. */
module History {
  import opened Wrappers
  import opened SourcesCodec

  datatype JobStatus = Pending | Processing | Completed | Failed

  /** A PlagiarismHistory row. Instants are integers; `reportFile` is the stored report name,
      "" when there is none. */
  datatype Job = Job(
    id: string,
    user: string,
    filename: string,
    similarityScore: Option<int>,
    similarityLocal: Option<int>,
    similarityInternet: Option<int>,
    matchedSources: Option<string>,
    reportFile: string,
    checkDate: int,
    sourceMode: string,
    status: JobStatus,
    progress: int,
    errorMessage: Option<string>,
    startedAt: Option<int>,
    completedAt: Option<int>,
    fileDeleted: bool,
    fileDeletedAt: Option<int>,
    fileDeletedReason: Option<string>)

  /** A row as objects.create(user, filename, source_mode, status='pending', progress=0)
      makes it, with the model's defaults for the other fields. */
  function NewJob(id: string, user: string, filename: string, mode: string, now: int): (j: Job)
    ensures j.status == Pending && j.progress == 0 && !j.fileDeleted
    ensures j.fileDeletedReason == Some("Auto-cleanup policy")
  {
    Job(id, user, filename, None, None, None, None, "", now, mode, Pending, 0, None, None, None,
        false, None, Some("Auto-cleanup policy"))
  }

  /** PlagiarismHistory.get_matched_sources: the decoded field, or empty lists when the field
      is empty or does not decode. */
  function GetMatchedSources(j: Job): (m: MatchedSources)
    ensures j.matchedSources.None? || j.matchedSources == Some("") ==> m == NoSources
  {
    if j.matchedSources.Some? && j.matchedSources.value != "" then
      match Decode(j.matchedSources.value)
        case Some(m) => m
        case None => NoSources
    else NoSources
  }

  /** PlagiarismHistory.set_matched_sources: the row with the encoded sources stored. */
  function SetMatchedSources(j: Job, m: MatchedSources): (j': Job)
    ensures j'.matchedSources.Some?
    ensures j' == j.(matchedSources := j'.matchedSources)
  {
    j.(matchedSources := Some(Encode(m)))
  }

  /** Reading back what was stored gives it back. */
  lemma GetSetMatchedSources(j: Job, m: MatchedSources)
    ensures GetMatchedSources(SetMatchedSources(j, m)) == m
  {
    DecodeEncode(m);
  }

  /** The first row with this id. */
  function Lookup(jobs: seq<Job>, id: string): (r: Option<Job>)
    ensures r.Some? ==> r.value in jobs && r.value.id == id
    ensures r.None? <==> forall i :: 0 <= i < |jobs| ==> jobs[i].id != id
  {
    if jobs == [] then None else if jobs[0].id == id then Some(jobs[0]) else Lookup(jobs[1..], id)
  }

  /** The rows after save() of j. */
  function Replace(jobs: seq<Job>, j: Job): (r: seq<Job>)
    ensures |r| == |jobs|
  {
    if jobs == [] then [] else [if jobs[0].id == j.id then j else jobs[0]] + Replace(jobs[1..], j)
  }

  /** After save() of j, the row with j's id holds j and every other row is as it was. */
  lemma {:induction false} ReplaceAt(jobs: seq<Job>, j: Job)
    ensures forall i :: 0 <= i < |jobs| ==> Replace(jobs, j)[i] == if jobs[i].id == j.id then j else jobs[i]
  {
    if jobs != [] {
      ReplaceAt(jobs[1..], j);
    }
  }

  /** After a save, looking up j's id gives j and every other id gives what it gave before. */
  lemma {:induction false} LookupReplace(jobs: seq<Job>, j: Job, id: string)
    ensures Lookup(Replace(jobs, j), id) == if id == j.id && Lookup(jobs, id).Some? then Some(j) else Lookup(jobs, id)
  {
    if jobs != [] {
      LookupReplace(jobs[1..], j, id);
      assert Replace(jobs, j)[1..] == Replace(jobs[1..], j);
    }
  }

  /** A second save of the same row overrides the first. */
  lemma ReplaceTwice(jobs: seq<Job>, a: Job, b: Job)
    requires a.id == b.id
    ensures Replace(Replace(jobs, a), b) == Replace(jobs, b)
  {
    ReplaceAt(jobs, a);
    ReplaceAt(Replace(jobs, a), b);
    ReplaceAt(jobs, b);
  }

  /** A saved row stays found. */
  lemma LookupAfterSave(jobs: seq<Job>, j: Job)
    requires Lookup(jobs, j.id).Some?
    ensures Lookup(Replace(jobs, j), j.id) == Some(j)
  {
    LookupReplace(jobs, j, j.id);
  }

  /** Saving a row unchanged leaves the table as it was. */
  lemma ReplaceSame(jobs: seq<Job>, j: Job)
    requires UniqueJobIds(jobs) && Lookup(jobs, j.id) == Some(j)
    ensures Replace(jobs, j) == jobs
  {
    ReplaceAt(jobs, j);
    var i :| 0 <= i < |jobs| && jobs[i] == j;
    forall k | 0 <= k < |jobs| && jobs[k].id == j.id
      ensures jobs[k] == j
    {
      assert k == i;
    }
  }

  predicate UniqueJobIds(jobs: seq<Job>) {
    forall i, k :: 0 <= i < k < |jobs| ==> jobs[i].id != jobs[k].id
  }

  /** The PlagiarismHistory table, newest check first (Meta.ordering = ['-check_date']).
      `log` records every row written, in order. */
  class HistoryTable {
    var jobs: seq<Job>
    ghost var log: seq<Job>

    predicate Valid()
      reads this
    {
      UniqueJobIds(jobs)
    }

    constructor()
      ensures jobs == [] && log == [] && Valid()
    {
      jobs := [];
      log := [];
    }

    /** objects.create: the new row has a fresh id and becomes the newest. */
    method Create(j: Job)
      requires Valid() && Lookup(jobs, j.id).None?
      modifies this
      ensures jobs == [j] + old(jobs) && log == old(log) + [j] && Valid()
    {
      jobs := [j] + jobs;
      log := log + [j];
    }

    /** objects.get(id=...): the row, or None (DoesNotExist). */
    method Get(id: string) returns (r: Option<Job>)
      ensures r == Lookup(jobs, id)
    {
      r := Lookup(jobs, id);
    }

    /** save() of a row that was read from the table. */
    method Save(j: Job)
      requires Valid() && Lookup(jobs, j.id).Some?
      modifies this
      ensures jobs == Replace(old(jobs), j) && log == old(log) + [j] && Valid()
    {
      ReplaceKeepsIds(jobs, j);
      jobs := Replace(jobs, j);
      log := log + [j];
    }
  }

  lemma ReplaceKeepsIds(jobs: seq<Job>, j: Job)
    requires UniqueJobIds(jobs)
    ensures UniqueJobIds(Replace(jobs, j))
  {
    var r := Replace(jobs, j);
    ReplaceAt(jobs, j);
    forall i, k | 0 <= i < k < |r|
      ensures r[i].id != r[k].id
    {
      assert r[i].id == jobs[i].id && r[k].id == jobs[k].id;
    }
  }

  /** The key of a quota row: (user, date). */
  type QuotaKey = (string, int)

  /** The upload count of a row, 0 for a row not yet created. */
  function CountOf(counts: map<QuotaKey, int>, k: QuotaKey): int {
    if k in counts then counts[k] else 0
  }

  /** get_or_create(..., defaults={'upload_count': 0}). */
  function Touch(counts: map<QuotaKey, int>, k: QuotaKey): (r: map<QuotaKey, int>)
    ensures k in r && r.Keys == counts.Keys + {k}
  {
    if k in counts then counts else counts[k := 0]
  }

  /** Creating a row lazily never changes any count. */
  lemma TouchKeepsCounts(counts: map<QuotaKey, int>, k: QuotaKey, x: QuotaKey)
    ensures CountOf(Touch(counts, k), x) == CountOf(counts, x)
  {
  }

  /** max(0, limit - count). */
  function Remaining(limit: int, count: int): (r: int)
    ensures r >= 0
    ensures r == 0 || r == limit - count
    ensures r >= limit - count
  {
    if limit - count > 0 then limit - count else 0
  }

  /** check_quota holds exactly when get_remaining_quota reports at least one upload left. */
  lemma QuotaAgreement(limit: int, count: int)
    ensures count < limit <==> Remaining(limit, count) >= 1
  {
  }

  /** The UserUploadQuota table: one counter per (user, date), created on first use. */
  class QuotaTable {
    var counts: map<QuotaKey, int>

    constructor()
      ensures counts == map[]
    {
      counts := map[];
    }

    /** check_quota: today's count is below the user's limit. */
    method CheckQuota(user: string, limit: int, today: int) returns (ok: bool)
      modifies this
      ensures counts == Touch(old(counts), (user, today))
      ensures ok <==> CountOf(old(counts), (user, today)) < limit
    {
      counts := Touch(counts, (user, today));
      ok := counts[(user, today)] < limit;
    }

    /** increment_quota: adds n to today's count and returns the new count. */
    method IncrementQuota(user: string, n: int, today: int) returns (total: int)
      modifies this
      ensures total == CountOf(old(counts), (user, today)) + n
      ensures counts == old(counts)[(user, today) := total]
    {
      counts := Touch(counts, (user, today));
      total := counts[(user, today)] + n;
      counts := counts[(user, today) := total];
    }

    /** get_remaining_quota: max(0, limit - today's count). */
    method RemainingQuota(user: string, limit: int, today: int) returns (r: int)
      modifies this
      ensures counts == Touch(old(counts), (user, today))
      ensures r == Remaining(limit, CountOf(old(counts), (user, today)))
    {
      counts := Touch(counts, (user, today));
      r := Remaining(limit, counts[(user, today)]);
    }
  }
}
