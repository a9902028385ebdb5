/** PlagiarismService.process_check: every sentence is checked against the repository and,
    depending on the mode, the web; the sentences at or above the threshold become results,
    matched repository files and URLs are collected, and the percentages are computed. */
module Checking {
  import opened Wrappers
  import opened Text
  import opened Repository
  import opened Matcher
  import opened Segmenter

  /** The service: its repository, the web search (foreign; a raised exception is an Err)
      and the threshold read from the settings. */
  datatype Checker = Checker(corpus: Corpus, search: string -> Result<seq<string>, string>, threshold: int)

  /** A year, or 'N/A' for a missing or zero year (`year or 'N/A'`). */
  datatype YearValue = Year(n: int) | NotAvailable

  function YearOf(y: Option<int>): (v: YearValue)
    ensures v.Year? <==> y.Some? && y.value != 0
    ensures v.Year? ==> v.n == y.value
  {
    if y.Some? && y.value != 0 then Year(y.value) else NotAvailable
  }

  /** `s or 'Unknown'`. */
  function OrUnknown(s: string): (r: string)
    ensures r != []
    ensures s != [] ==> r == s
  {
    if s == [] then "Unknown" else s
  }

  /** An entry of local_matches. */
  datatype LocalSource = LocalSource(id: string, title: string, author: string, year: YearValue,
                                     filePath: Option<string>, count: nat)

  datatype SourceKind = LocalRepository | Internet

  datatype Metadata =
    | NoMetadata
    | RepoMeta(title: string, author: string, year: YearValue, repoId: string)
    | UrlMeta(url: string)

  /** One flagged sentence. */
  datatype SentenceResult = SentenceResult(sentence: string, score: real, scoreLocal: real,
                                           scoreInternet: real, source: SourceKind, metadata: Metadata)

  /** The dictionary process_check returns. */
  datatype CheckReport = CheckReport(
    results: seq<SentenceResult>,
    similarityLocal: int,
    similarityInternet: int,
    similarityGlobal: int,
    localSources: seq<LocalSource>,
    internetSources: seq<string>)

  /** The running state of the sentence loop. */
  datatype Tally = Tally(results: seq<SentenceResult>, localMatches: seq<LocalSource>,
                         urls: seq<string>, localCount: nat, internetCount: nat)

  const EmptyTally := Tally([], [], [], 0, 0)

  const NoSentencesMessage := "Tidak ada kalimat valid yang dapat diperiksa. Pastikan dokumen mengandung teks yang cukup."

  predicate ChecksLocal(mode: string) { mode == "local" || mode == "both" }

  predicate ChecksInternet(mode: string) { mode == "internet" || mode == "both" }

  /** The local score and match of a sentence: check_local when the mode includes it. */
  function LocalScore(ck: Checker, mode: string, s: string): (real, Option<RepoFile>) {
    if ChecksLocal(mode) then LocalCheck(ck.corpus, s, ck.threshold) else (0.0, None)
  }

  /** The internet score and URL: check_google when the mode includes it and the local score
      is below 100. */
  function InternetScore(ck: Checker, mode: string, s: string, local: real): (real, Option<string>) {
    if ChecksInternet(mode) && local < 100.0 then CheckGoogle(ck.search(s)) else (0.0, None)
  }

  function Max(a: real, b: real): real {
    if a >= b then a else b
  }

  /** The local_matches entry created for a repository file (with count 0). */
  function NewSource(f: RepoFile): (e: LocalSource)
    ensures e.id == f.id && e.count == 0
  {
    LocalSource(f.id, OrUnknown(f.title), OrUnknown(f.author), YearOf(f.year),
                if f.file != [] then Some(f.file) else None, 0)
  }

  function Ids(ms: seq<LocalSource>): (r: seq<string>)
    ensures |r| == |ms|
    ensures forall i :: 0 <= i < |ms| ==> r[i] == ms[i].id
  {
    if ms == [] then [] else [ms[0].id] + Ids(ms[1..])
  }

  predicate UniqueIds(ms: seq<LocalSource>) {
    forall i, j :: 0 <= i < j < |ms| ==> ms[i].id != ms[j].id
  }

  function TotalCount(ms: seq<LocalSource>): nat {
    if ms == [] then 0 else ms[0].count + TotalCount(ms[1..])
  }

  /** Counts one more sentence for file f: the entry with f's id is incremented, or a new
      entry with count 1 is added at the end. */
  function Bump(ms: seq<LocalSource>, f: RepoFile): (r: seq<LocalSource>)
    ensures |r| == |ms| || |r| == |ms| + 1
  {
    if ms == [] then [NewSource(f).(count := 1)]
    else if ms[0].id == f.id then [ms[0].(count := ms[0].count + 1)] + ms[1..]
    else [ms[0]] + Bump(ms[1..], f)
  }

  /** Bump adds exactly f's id to the ids. */
  lemma {:induction false} BumpIds(ms: seq<LocalSource>, f: RepoFile)
    ensures forall x :: x in Ids(Bump(ms, f)) <==> x in Ids(ms) || x == f.id
  {
    if ms == [] {
      assert Ids(Bump(ms, f)) == [f.id];
    } else if ms[0].id == f.id {
      assert Ids(Bump(ms, f)) == Ids(ms);
      assert Ids(ms)[0] == f.id;
    } else {
      BumpIds(ms[1..], f);
      assert Ids(Bump(ms, f)) == [ms[0].id] + Ids(Bump(ms[1..], f));
      assert Ids(ms) == [ms[0].id] + Ids(ms[1..]);
    }
  }

  /** Bump keeps the ids duplicate-free. */
  lemma {:induction false} BumpUnique(ms: seq<LocalSource>, f: RepoFile)
    requires UniqueIds(ms)
    ensures UniqueIds(Bump(ms, f))
  {
    if ms != [] && ms[0].id != f.id {
      var rest := Bump(ms[1..], f);
      BumpUnique(ms[1..], f);
      BumpIds(ms[1..], f);
      assert Bump(ms, f) == [ms[0]] + rest;
      forall j | 0 <= j < |rest|
        ensures rest[j].id != ms[0].id
      {
        assert rest[j].id == Ids(rest)[j];
        assert Ids(rest)[j] in Ids(rest);
        if rest[j].id != f.id {
          var k :| 0 <= k < |ms[1..]| && Ids(ms[1..])[k] == rest[j].id;
          assert ms[k + 1].id == ms[1..][k].id;
        }
      }
    } else if ms != [] {
      assert Bump(ms, f)[1..] == ms[1..];
    }
  }

  /** Bump raises the total count by one. */
  lemma {:induction false} BumpTotal(ms: seq<LocalSource>, f: RepoFile)
    ensures TotalCount(Bump(ms, f)) == TotalCount(ms) + 1
  {
    if ms != [] && ms[0].id != f.id {
      BumpTotal(ms[1..], f);
      assert Bump(ms, f)[1..] == Bump(ms[1..], f);
    } else if ms != [] {
      assert Bump(ms, f)[1..] == ms[1..];
    }
  }

  /** Bump keeps every count positive. */
  lemma {:induction false} BumpPositive(ms: seq<LocalSource>, f: RepoFile)
    requires forall i :: 0 <= i < |ms| ==> ms[i].count > 0
    ensures forall i :: 0 <= i < |Bump(ms, f)| ==> Bump(ms, f)[i].count > 0
  {
    if ms != [] && ms[0].id != f.id {
      BumpPositive(ms[1..], f);
      assert Bump(ms, f)[1..] == Bump(ms[1..], f);
    }
  }

  /** The sentence counts towards local_plagiarized. */
  predicate LocalHit(ck: Checker, mode: string, s: string) {
    ChecksLocal(mode) && LocalScore(ck, mode, s).0 >= ck.threshold as real
  }

  /** The total count recorded for id x. */
  function CountFor(ms: seq<LocalSource>, x: string): nat {
    if ms == [] then 0 else (if ms[0].id == x then ms[0].count else 0) + CountFor(ms[1..], x)
  }

  lemma {:induction false} BumpCountFor(ms: seq<LocalSource>, f: RepoFile, x: string)
    ensures CountFor(Bump(ms, f), x) == CountFor(ms, x) + (if f.id == x then 1 else 0)
  {
    if ms != [] && ms[0].id != f.id {
      BumpCountFor(ms[1..], f, x);
      assert Bump(ms, f)[1..] == Bump(ms[1..], f);
    } else if ms != [] {
      assert Bump(ms, f)[1..] == ms[1..];
    }
  }

  /** With distinct ids, the count recorded for an entry's id is that entry's count, and an
      absent id has none. */
  lemma {:induction false} CountForEntry(ms: seq<LocalSource>, x: string)
    requires UniqueIds(ms)
    ensures x !in Ids(ms) ==> CountFor(ms, x) == 0
    ensures forall i :: 0 <= i < |ms| && ms[i].id == x ==> CountFor(ms, x) == ms[i].count
  {
    if ms != [] {
      CountForEntry(ms[1..], x);
      assert Ids(ms) == [ms[0].id] + Ids(ms[1..]);
      if ms[0].id == x {
        assert x !in Ids(ms[1..]) by {
          forall k | 0 <= k < |ms[1..]|
            ensures Ids(ms[1..])[k] != x
          {
            assert ms[1..][k] == ms[k + 1];
          }
        }
      }
      forall i | 1 <= i < |ms| && ms[i].id == x
        ensures CountFor(ms, x) == ms[i].count
      {
        assert ms[1..][i - 1] == ms[i];
      }
    }
  }

  /** One iteration of the sentence loop. */
  function Step(ck: Checker, mode: string, t: Tally, s: string): Tally {
    var (scoreLocal, repo) := LocalScore(ck, mode, s);
    var (scoreInternet, url) := InternetScore(ck, mode, s, scoreLocal);
    var localHit := LocalHit(ck, mode, s);
    var internetHit := ChecksInternet(mode) && scoreLocal < 100.0 && scoreInternet >= ck.threshold as real;
    var matches := if localHit && repo.Some? then Bump(t.localMatches, repo.value) else t.localMatches;
    var urls := if internetHit && url.Some? && url.value != [] && url.value !in t.urls
                then t.urls + [url.value] else t.urls;
    var final := Max(scoreLocal, scoreInternet);
    var results := if final >= ck.threshold as real
                   then t.results + [SentenceResult(s, final, scoreLocal, scoreInternet,
                                                    if scoreLocal >= scoreInternet then LocalRepository else Internet,
                                                    MetadataOf(repo, url))]
                   else t.results;
    Tally(results, matches, urls, t.localCount + (if localHit then 1 else 0),
          t.internetCount + (if internetHit then 1 else 0))
  }

  /** The metadata of a result: the matched repository file, else a non-empty URL. */
  function MetadataOf(repo: Option<RepoFile>, url: Option<string>): (m: Metadata)
    ensures m.RepoMeta? <==> repo.Some?
    ensures m.UrlMeta? <==> repo.None? && url.Some? && url.value != []
  {
    if repo.Some? then
      RepoMeta(OrUnknown(repo.value.title), OrUnknown(repo.value.author), YearOf(repo.value.year), repo.value.id)
    else if url.Some? && url.value != [] then UrlMeta(url.value)
    else NoMetadata
  }

  /** The state after the loop has checked the sentences ss, in order. */
  function Fold(ck: Checker, mode: string, ss: seq<string>): Tally {
    if ss == [] then EmptyTally else Step(ck, mode, Fold(ck, mode, ss[..|ss| - 1]), ss[|ss| - 1])
  }

  /** int(c / n * 100), computed exactly. */
  function Percent(c: nat, n: nat): (p: int)
    requires n > 0
    ensures c <= n ==> 0 <= p <= 100
  {
    PercentBound(c, n);
    (c * 100) / n
  }

  lemma PercentBound(c: nat, n: nat)
    requires n > 0
    ensures c <= n ==> 0 <= (c * 100) / n <= 100
  {
    if c <= n {
      DivMonotone(c * 100, n * 100, n);
      DivExact(100, n);
    }
  }

  lemma DivExact(k: nat, n: nat)
    requires n > 0
    ensures (n * k) / n == k
  {
    var q, r := (n * k) / n, (n * k) % n;
    assert q * n + r == n * k;
    if q < k {
      MulMonotone(k, q + 1, n);
    } else if q > k {
      MulMonotone(q, k + 1, n);
    }
  }

  /** What process_check returns for the text, or the error it raises. */
  function CheckOutcome(ck: Checker, mode: string, text: string, tokenized: Option<seq<string>>): Result<CheckReport, string> {
    var sentences := Sentences(text, tokenized);
    if |sentences| == 0 then Err(NoSentencesMessage)
    else
      var t := Fold(ck, mode, sentences);
      var n := |sentences|;
      Ok(CheckReport(t.results, Percent(t.localCount, n), Percent(t.internetCount, n),
                     Percent(|t.results|, n), t.localMatches, t.urls))
  }

  /** PlagiarismService.process_check. */
  method ProcessCheck(ck: Checker, mode: string, text: string, tokenized: Option<seq<string>>)
    returns (r: Result<CheckReport, string>)
    ensures r == CheckOutcome(ck, mode, text, tokenized)
  {
    var sentences := Tokenize(text, tokenized);
    if |sentences| == 0 {
      return Err(NoSentencesMessage);
    }
    var results, localMatches, internetMatches, localPlagiarized, internetPlagiarized :=
      CheckSentences(ck, mode, sentences);
    var n := |sentences|;
    return Ok(CheckReport(results, Percent(localPlagiarized, n), Percent(internetPlagiarized, n),
                          Percent(|results|, n), localMatches, internetMatches));
  }

  /** The sentence loop of process_check. */
  method CheckSentences(ck: Checker, mode: string, sentences: seq<string>)
    returns (results: seq<SentenceResult>, localMatches: seq<LocalSource>, internetMatches: seq<string>,
             localPlagiarized: nat, internetPlagiarized: nat)
    ensures Tally(results, localMatches, internetMatches, localPlagiarized, internetPlagiarized)
            == Fold(ck, mode, sentences)
  {
    results, localMatches, internetMatches := [], [], [];
    localPlagiarized, internetPlagiarized := 0, 0;
    var i := 0;
    while i < |sentences|
      invariant 0 <= i <= |sentences|
      invariant Tally(results, localMatches, internetMatches, localPlagiarized, internetPlagiarized)
                == Fold(ck, mode, sentences[..i])
    {
      results, localMatches, internetMatches, localPlagiarized, internetPlagiarized :=
        CheckSentence(ck, mode, sentences[i], results, localMatches, internetMatches,
                      localPlagiarized, internetPlagiarized);
      FoldSnoc(ck, mode, sentences, i);
      i := i + 1;
    }
    assert sentences[..i] == sentences;
  }

  lemma FoldSnoc(ck: Checker, mode: string, ss: seq<string>, i: nat)
    requires i < |ss|
    ensures Fold(ck, mode, ss[..i + 1]) == Step(ck, mode, Fold(ck, mode, ss[..i]), ss[i])
  {
    assert ss[..i + 1][..i] == ss[..i];
  }

  /** The body of the sentence loop of process_check. */
  method CheckSentence(ck: Checker, mode: string, sent: string, results0: seq<SentenceResult>,
                       localMatches0: seq<LocalSource>, internetMatches0: seq<string>,
                       localPlagiarized0: nat, internetPlagiarized0: nat)
    returns (results: seq<SentenceResult>, localMatches: seq<LocalSource>, internetMatches: seq<string>,
             localPlagiarized: nat, internetPlagiarized: nat)
    ensures Tally(results, localMatches, internetMatches, localPlagiarized, internetPlagiarized)
            == Step(ck, mode, Tally(results0, localMatches0, internetMatches0, localPlagiarized0, internetPlagiarized0), sent)
  {
    var scoreLocal, matchedRepo;
    scoreLocal, matchedRepo, localMatches, localPlagiarized :=
      CheckSentenceLocal(ck, mode, sent, localMatches0, localPlagiarized0);
    var scoreInternet, matchedUrl;
    scoreInternet, matchedUrl, internetMatches, internetPlagiarized :=
      CheckSentenceInternet(ck, mode, sent, scoreLocal, internetMatches0, internetPlagiarized0);
    results := results0;
    var finalScore := Max(scoreLocal, scoreInternet);
    if finalScore >= ck.threshold as real {
      var source := if scoreLocal >= scoreInternet then LocalRepository else Internet;
      results := results + [SentenceResult(sent, finalScore, scoreLocal, scoreInternet, source,
                                           MetadataOf(matchedRepo, matchedUrl))];
    }
    StepParts(ck, mode, Tally(results0, localMatches0, internetMatches0, localPlagiarized0, internetPlagiarized0),
              sent, scoreLocal, matchedRepo, scoreInternet, matchedUrl,
              Tally(results, localMatches, internetMatches, localPlagiarized, internetPlagiarized));
  }

  /** The local half of the sentence loop: check_local, and the count and matches it adds. */
  method CheckSentenceLocal(ck: Checker, mode: string, sent: string, localMatches0: seq<LocalSource>,
                            localPlagiarized0: nat)
    returns (scoreLocal: real, matchedRepo: Option<RepoFile>, localMatches: seq<LocalSource>, localPlagiarized: nat)
    ensures (scoreLocal, matchedRepo) == LocalScore(ck, mode, sent)
    ensures localPlagiarized == localPlagiarized0 + (if LocalHit(ck, mode, sent) then 1 else 0)
    ensures localMatches == if LocalHit(ck, mode, sent) && matchedRepo.Some?
                            then Bump(localMatches0, matchedRepo.value) else localMatches0
  {
    scoreLocal, matchedRepo := 0.0, None;
    localMatches, localPlagiarized := localMatches0, localPlagiarized0;
    if ChecksLocal(mode) {
      scoreLocal, matchedRepo := CheckLocal(ck.corpus, sent, ck.threshold);
      if scoreLocal >= ck.threshold as real {
        localPlagiarized := localPlagiarized + 1;
        if matchedRepo.Some? {
          localMatches := Bump(localMatches, matchedRepo.value);
        }
      }
    }
  }

  /** The internet half: check_google unless the local score is 100, and the count and URL it
      adds. */
  method CheckSentenceInternet(ck: Checker, mode: string, sent: string, scoreLocal: real,
                               internetMatches0: seq<string>, internetPlagiarized0: nat)
    returns (scoreInternet: real, matchedUrl: Option<string>, internetMatches: seq<string>, internetPlagiarized: nat)
    ensures (scoreInternet, matchedUrl) == InternetScore(ck, mode, sent, scoreLocal)
    ensures var hit := ChecksInternet(mode) && scoreLocal < 100.0 && scoreInternet >= ck.threshold as real;
      && internetPlagiarized == internetPlagiarized0 + (if hit then 1 else 0)
      && internetMatches == if hit && matchedUrl.Some? && matchedUrl.value != [] && matchedUrl.value !in internetMatches0
                            then internetMatches0 + [matchedUrl.value] else internetMatches0
  {
    scoreInternet, matchedUrl := 0.0, None;
    internetMatches, internetPlagiarized := internetMatches0, internetPlagiarized0;
    if ChecksInternet(mode) && scoreLocal < 100.0 {
      var google := CheckGoogle(ck.search(sent));
      scoreInternet, matchedUrl := google.0, google.1;
      if scoreInternet >= ck.threshold as real {
        internetPlagiarized := internetPlagiarized + 1;
        if matchedUrl.Some? && matchedUrl.value != [] && matchedUrl.value !in internetMatches {
          internetMatches := internetMatches + [matchedUrl.value];
        }
      }
    }
  }

  /** Step, assembled from its parts. */
  lemma StepParts(ck: Checker, mode: string, t: Tally, s: string, scoreLocal: real, repo: Option<RepoFile>,
                  scoreInternet: real, url: Option<string>, r: Tally)
    requires (scoreLocal, repo) == LocalScore(ck, mode, s)
    requires (scoreInternet, url) == InternetScore(ck, mode, s, scoreLocal)
    requires r.localCount == t.localCount + (if LocalHit(ck, mode, s) then 1 else 0)
    requires r.localMatches == if LocalHit(ck, mode, s) && repo.Some? then Bump(t.localMatches, repo.value) else t.localMatches
    requires var hit := ChecksInternet(mode) && scoreLocal < 100.0 && scoreInternet >= ck.threshold as real;
      && r.internetCount == t.internetCount + (if hit then 1 else 0)
      && r.urls == if hit && url.Some? && url.value != [] && url.value !in t.urls then t.urls + [url.value] else t.urls
    requires r.results == if Max(scoreLocal, scoreInternet) >= ck.threshold as real
                          then t.results + [SentenceResult(s, Max(scoreLocal, scoreInternet), scoreLocal, scoreInternet,
                                                           if scoreLocal >= scoreInternet then LocalRepository else Internet,
                                                           MetadataOf(repo, url))]
                          else t.results
    ensures r == Step(ck, mode, t, s)
  {
  }

  /** The combined score of a sentence. */
  function FinalScore(ck: Checker, mode: string, s: string): real {
    var local := LocalScore(ck, mode, s).0;
    Max(local, InternetScore(ck, mode, s, local).0)
  }

  /** The sentences that reach the threshold, in order: the reference for the results. */
  function Flagged(ck: Checker, mode: string, ss: seq<string>): seq<string> {
    if ss == [] then []
    else Flagged(ck, mode, ss[..|ss| - 1]) +
         (if FinalScore(ck, mode, ss[|ss| - 1]) >= ck.threshold as real then [ss[|ss| - 1]] else [])
  }

  function ResultSentences(rs: seq<SentenceResult>): (r: seq<string>)
    ensures |r| == |rs|
    ensures forall i :: 0 <= i < |rs| ==> r[i] == rs[i].sentence
  {
    if rs == [] then [] else ResultSentences(rs[..|rs| - 1]) + [rs[|rs| - 1].sentence]
  }

  /** A well-formed result: its score is the larger of its two scores and reaches the
      threshold, both scores are percentages, and it is attributed to the repository exactly
      when the local score is at least the internet score. */
  predicate WellFormed(ck: Checker, r: SentenceResult) {
    r.score == Max(r.scoreLocal, r.scoreInternet) && r.score >= ck.threshold as real &&
    0.0 <= r.scoreLocal <= 100.0 && 0.0 <= r.scoreInternet <= 100.0 &&
    (r.source == LocalRepository <==> r.scoreLocal >= r.scoreInternet)
  }

  /** The results are exactly the sentences whose combined score reaches the threshold, in
      order, and each is well formed. */
  lemma {:induction false} FoldResults(ck: Checker, mode: string, ss: seq<string>)
    ensures ResultSentences(Fold(ck, mode, ss).results) == Flagged(ck, mode, ss)
    ensures forall i :: 0 <= i < |Fold(ck, mode, ss).results| ==> WellFormed(ck, Fold(ck, mode, ss).results[i])
  {
    if ss != [] {
      var s := ss[|ss| - 1];
      var t := Fold(ck, mode, ss[..|ss| - 1]);
      FoldResults(ck, mode, ss[..|ss| - 1]);
      StepResult(ck, mode, t, s);
      var rs := Step(ck, mode, t, s).results;
      if FinalScore(ck, mode, s) >= ck.threshold as real {
        ResultsSnoc(ck, rs, t.results, rs[|rs| - 1]);
      }
    }
  }

  /** One sentence adds one well-formed result for itself when its score reaches the
      threshold, and none otherwise. */
  lemma StepResult(ck: Checker, mode: string, t: Tally, s: string)
    ensures FinalScore(ck, mode, s) >= ck.threshold as real ==>
      Step(ck, mode, t, s).results == t.results + [Step(ck, mode, t, s).results[|t.results|]] &&
      Step(ck, mode, t, s).results[|t.results|].sentence == s &&
      WellFormed(ck, Step(ck, mode, t, s).results[|t.results|])
    ensures FinalScore(ck, mode, s) < ck.threshold as real ==> Step(ck, mode, t, s).results == t.results
  {
    LocalCheckFacts(ck.corpus, s, ck.threshold);
  }

  lemma ResultsSnoc(ck: Checker, rs: seq<SentenceResult>, prev: seq<SentenceResult>, r: SentenceResult)
    requires rs == prev + [r] && WellFormed(ck, r)
    requires forall i :: 0 <= i < |prev| ==> WellFormed(ck, prev[i])
    ensures ResultSentences(rs) == ResultSentences(prev) + [r.sentence]
    ensures forall i :: 0 <= i < |rs| ==> WellFormed(ck, rs[i])
  {
    assert rs[..|rs| - 1] == prev;
  }

  /** The counters: no more hits than sentences, and every local or internet hit is also a
      result (a sentence is counted once in the global score). */
  lemma {:induction false} FoldCounts(ck: Checker, mode: string, ss: seq<string>)
    ensures Fold(ck, mode, ss).localCount <= |Fold(ck, mode, ss).results| <= |ss|
    ensures Fold(ck, mode, ss).internetCount <= |Fold(ck, mode, ss).results|
  {
    if ss != [] {
      FoldCounts(ck, mode, ss[..|ss| - 1]);
    }
  }

  /** The local sources: distinct ids, each counted at least once, and no more counted
      sentences than local hits. */
  lemma {:induction false} FoldSources(ck: Checker, mode: string, ss: seq<string>)
    ensures UniqueIds(Fold(ck, mode, ss).localMatches)
    ensures forall i :: 0 <= i < |Fold(ck, mode, ss).localMatches| ==> Fold(ck, mode, ss).localMatches[i].count > 0
    ensures TotalCount(Fold(ck, mode, ss).localMatches) <= Fold(ck, mode, ss).localCount
  {
    if ss != [] {
      var s := ss[|ss| - 1];
      var t := Fold(ck, mode, ss[..|ss| - 1]);
      FoldSources(ck, mode, ss[..|ss| - 1]);
      var repo := LocalScore(ck, mode, s).1;
      if repo.Some? {
        BumpUnique(t.localMatches, repo.value);
        BumpTotal(t.localMatches, repo.value);
        BumpPositive(t.localMatches, repo.value);
      }
    }
  }

  /** The internet sources: duplicate-free, non-empty, and each the first result of the web
      search for one of the sentences. */
  lemma {:induction false} FoldUrls(ck: Checker, mode: string, ss: seq<string>)
    ensures forall i, j :: 0 <= i < j < |Fold(ck, mode, ss).urls| ==> Fold(ck, mode, ss).urls[i] != Fold(ck, mode, ss).urls[j]
    ensures forall u :: u in Fold(ck, mode, ss).urls ==>
      u != [] && exists s :: s in ss && CheckGoogle(ck.search(s)).1 == Some(u)
  {
    if ss != [] {
      var s := ss[|ss| - 1];
      FoldUrls(ck, mode, ss[..|ss| - 1]);
      assert s in ss;
      forall u | u in Fold(ck, mode, ss[..|ss| - 1]).urls
        ensures exists s :: s in ss && CheckGoogle(ck.search(s)).1 == Some(u)
      {
        var s' :| s' in ss[..|ss| - 1] && CheckGoogle(ck.search(s')).1 == Some(u);
        assert s' in ss;
      }
    }
  }

  /** A step whose local score is 100, or whose mode is "local", does not consult the web
      search. */
  lemma StepIgnoresSearch(ck: Checker, mode: string, t: Tally, s: string, search: string -> Result<seq<string>, string>)
    requires mode == "local" || LocalScore(ck, mode, s).0 == 100.0
    ensures Step(ck, mode, t, s) == Step(ck.(search := search), mode, t, s)
  {
  }

  /** In "local" mode the whole check is independent of the web search. */
  lemma {:induction false} LocalModeIgnoresSearch(ck: Checker, ss: seq<string>, search: string -> Result<seq<string>, string>)
    ensures Fold(ck, "local", ss) == Fold(ck.(search := search), "local", ss)
  {
    if ss != [] {
      LocalModeIgnoresSearch(ck, ss[..|ss| - 1], search);
      StepIgnoresSearch(ck, "local", Fold(ck, "local", ss[..|ss| - 1]), ss[|ss| - 1], search);
    }
  }

  /** The report: an error exactly when there is no sentence; otherwise three percentages, the
      global one at least the local and the internet ones. */
  lemma CheckOutcomeFacts(ck: Checker, mode: string, text: string, tokenized: Option<seq<string>>)
    ensures CheckOutcome(ck, mode, text, tokenized).Err? <==> Sentences(text, tokenized) == []
    ensures CheckOutcome(ck, mode, text, tokenized).Ok? ==>
      var rep := CheckOutcome(ck, mode, text, tokenized).value;
      0 <= rep.similarityLocal <= rep.similarityGlobal <= 100 &&
      0 <= rep.similarityInternet <= rep.similarityGlobal
  {
    var ss := Sentences(text, tokenized);
    if ss != [] {
      FoldCounts(ck, mode, ss);
      var t := Fold(ck, mode, ss);
      PercentMonotone(t.localCount, |t.results|, |ss|);
      PercentMonotone(t.internetCount, |t.results|, |ss|);
    }
  }

  lemma PercentMonotone(a: nat, b: nat, n: nat)
    requires n > 0 && a <= b
    ensures Percent(a, n) <= Percent(b, n)
  {
    DivMonotone(a * 100, b * 100, n);
  }

  lemma DivMonotone(x: nat, y: nat, n: nat)
    requires n > 0 && x <= y
    ensures x / n <= y / n
  {
    var qx, qy := x / n, y / n;
    assert qx * n + x % n == x;
    assert qy * n + y % n == y;
    MulMonotone(qx, qy + 1, n);
  }

  lemma MulMonotone(a: int, b: int, n: nat)
    ensures a >= b ==> a * n >= b * n
  {
    if a >= b {
      assert a * n == b * n + (a - b) * n;
    }
  }

  /** The number of sentences of ss that count towards local_plagiarized and matched a file
      with id x. */
  function MatchedCount(ck: Checker, mode: string, ss: seq<string>, x: string): nat {
    if ss == [] then 0
    else
      var s := ss[|ss| - 1];
      var repo := LocalScore(ck, mode, s).1;
      MatchedCount(ck, mode, ss[..|ss| - 1], x) +
        (if LocalHit(ck, mode, s) && repo.Some? && repo.value.id == x then 1 else 0)
  }

  /** Each local source counts exactly the accepted sentences that matched its file, and a
      file has an entry exactly when some accepted sentence matched it. */
  lemma {:induction false} FoldSourceCounts(ck: Checker, mode: string, ss: seq<string>, x: string)
    ensures CountFor(Fold(ck, mode, ss).localMatches, x) == MatchedCount(ck, mode, ss, x)
    ensures x in Ids(Fold(ck, mode, ss).localMatches) <==> MatchedCount(ck, mode, ss, x) > 0
  {
    FoldSources(ck, mode, ss);
    if ss != [] {
      var s := ss[|ss| - 1];
      var t := Fold(ck, mode, ss[..|ss| - 1]);
      FoldSourceCounts(ck, mode, ss[..|ss| - 1], x);
      var repo := LocalScore(ck, mode, s).1;
      if LocalHit(ck, mode, s) && repo.Some? {
        BumpCountFor(t.localMatches, repo.value, x);
        BumpIds(t.localMatches, repo.value);
      }
    }
    var ms := Fold(ck, mode, ss).localMatches;
    CountForEntry(ms, x);
    if x in Ids(ms) {
      var i :| 0 <= i < |Ids(ms)| && Ids(ms)[i] == x;
      assert ms[i].count > 0;
    }
  }
}
