/** Sentence matching: PlagiarismService.check_local against the indexed repository files and
    check_google against a web search. The search engine and NLTK's word_tokenize are foreign
    code and come in as data; the extracted-text files are a map from path to contents. */
module Matcher {
  import opened Wrappers
  import opened Text
  import opened Repository

  /** The readable extracted-text files: os.path.exists(path) holds exactly for the keys. */
  type FileSystem = map<string, string>

  /** The repository as check_local sees it: its files, their stored texts and the word
      tokenizer (as the set of tokens it yields). */
  datatype Corpus = Corpus(files: seq<RepoFile>, fs: FileSystem, tokenize: string -> set<string>)

  /** The files of status 'indexed', in query order. */
  function IndexedFiles(files: seq<RepoFile>): (r: seq<RepoFile>)
    ensures |r| <= |files|
    ensures forall f :: f in r <==> f in files && f.status == Indexed
  {
    if files == [] then []
    else (if files[0].status == Indexed then [files[0]] else []) + IndexedFiles(files[1..])
  }

  /** A file check_local can read: it has a non-empty text path that exists. */
  predicate Readable(c: Corpus, f: RepoFile) {
    f.extractedTextPath.Some? && f.extractedTextPath.value != "" && f.extractedTextPath.value in c.fs
  }

  /** The lower-cased stored text of a readable file. */
  function ContentOf(c: Corpus, f: RepoFile): string
    requires Readable(c, f)
  {
    Lower(c.fs[f.extractedTextPath.value])
  }

  /** The lower-cased sentence occurs verbatim in the file's lower-cased text. */
  predicate Hit(c: Corpus, f: RepoFile, sentence: string) {
    Readable(c, f) && Contains(ContentOf(c, f), sentence)
  }

  /** Token overlap in percent: 100 * |S ∩ C| / |S|, computed exactly. */
  function Overlap(s: set<string>, t: set<string>): (o: real)
    requires |s| > 0
  {
    (|s * t| as real) / (|s| as real) * 100.0
  }

  /** The overlap is a percentage, and it is 100 exactly when every sentence token occurs
      in the file. */
  lemma OverlapBounds(s: set<string>, t: set<string>)
    requires |s| > 0
    ensures 0.0 <= Overlap(s, t) <= 100.0
    ensures Overlap(s, t) == 100.0 <==> s <= t
  {
    var k := |s * t|;
    var n := |s|;
    assert s * t <= s;
    assert k <= n by {
      SubsetCard(s * t, s);
    }
    if s <= t {
      assert s * t == s;
    } else {
      var x :| x in s && x !in t;
      assert x !in s * t;
      ProperSubsetCard(s * t, s, x);
    }
  }

  lemma SubsetCard<T>(a: set<T>, b: set<T>)
    requires a <= b
    ensures |a| <= |b|
  {
    assert b == a + (b - a);
  }

  lemma ProperSubsetCard<T>(a: set<T>, b: set<T>, x: T)
    requires a <= b && x in b && x !in a
    ensures |a| < |b|
  {
    assert b == a + (b - a);
    assert x in b - a;
  }

  /** The score of a readable file against the sentence tokens. */
  function Score(c: Corpus, f: RepoFile, tokens: set<string>): real
    requires Readable(c, f) && |tokens| > 0
  {
    Overlap(tokens, c.tokenize(ContentOf(c, f)))
  }

  /** How the scan over the files ends: at a verbatim hit, or with the best score seen
      and the file that first reached it. */
  datatype Scan = Exact(file: RepoFile) | Best(score: real, found: Option<RepoFile>)

  /** The loop of check_local over the given files, from the running best score and match:
      unreadable files are skipped, a verbatim hit ends the scan, a strictly better score
      replaces the best, and a best of 100 ends the scan. */
  function ScanFrom(c: Corpus, sentence: string, tokens: set<string>, files: seq<RepoFile>,
                    best: real, found: Option<RepoFile>): Scan
    requires |tokens| > 0
    decreases |files|
  {
    if files == [] then Best(best, found)
    else if !Readable(c, files[0]) then ScanFrom(c, sentence, tokens, files[1..], best, found)
    else if Contains(ContentOf(c, files[0]), sentence) then Exact(files[0])
    else
      var o := Score(c, files[0], tokens);
      var best' := if o > best then o else best;
      var found' := if o > best then Some(files[0]) else found;
      if best' == 100.0 then Best(best', found')
      else ScanFrom(c, sentence, tokens, files[1..], best', found')
  }

  /** What check_local returns: a score and the matching repository file. */
  function LocalCheck(c: Corpus, sentence: string, threshold: int): (real, Option<RepoFile>) {
    var files := IndexedFiles(c.files);
    var lower := Lower(sentence);
    var tokens := c.tokenize(lower);
    if files == [] || |tokens| == 0 then (0.0, None)
    else match ScanFrom(c, lower, tokens, files, 0.0, None)
      case Exact(f) => (100.0, Some(f))
      case Best(b, m) => if b >= threshold as real then (b, m) else (0.0, None)
  }

  /** What the scan establishes. A verbatim hit is the first readable file containing the
      sentence, and every readable file before it scored below 100. A scan that ends with a
      best score only raised it; every readable file scored at most that score; below 100 no
      file was a hit; and a changed match is the first file that reached the final score. */
  lemma {:induction false} ScanFromFacts(c: Corpus, sentence: string, tokens: set<string>,
                                         files: seq<RepoFile>, best: real, found: Option<RepoFile>)
    requires |tokens| > 0
    requires 0.0 <= best < 100.0 && (found.Some? <==> best > 0.0)
    ensures ScanSpec(c, sentence, tokens, files, best, found, ScanFrom(c, sentence, tokens, files, best, found))
    decreases |files|
  {
    var r := ScanFrom(c, sentence, tokens, files, best, found);
    if files == [] {
    } else if !Readable(c, files[0]) {
      ScanFromFacts(c, sentence, tokens, files[1..], best, found);
      ScanSkip(c, sentence, tokens, files, best, found, r);
    } else if Contains(ContentOf(c, files[0]), sentence) {
      ScanHit(c, sentence, tokens, files, best, found, r);
    } else {
      var o := Score(c, files[0], tokens);
      OverlapBounds(tokens, c.tokenize(ContentOf(c, files[0])));
      var best' := if o > best then o else best;
      var found' := if o > best then Some(files[0]) else found;
      if best' == 100.0 {
        ScanFull(c, sentence, tokens, files, best, found, r);
      } else {
        ScanFromFacts(c, sentence, tokens, files[1..], best', found');
        ScanScore(c, sentence, tokens, files, best, found, best', found', r);
      }
    }
  }

  /** The facts ScanFromFacts states, about a given outcome r of the scan. */
  predicate ScanSpec(c: Corpus, sentence: string, tokens: set<string>, files: seq<RepoFile>,
                     best: real, found: Option<RepoFile>, r: Scan)
    requires |tokens| > 0
  {
    && (r.Exact? ==> ExactSpec(c, sentence, tokens, files, r.file))
    && (r.Best? ==> BestSpec(c, sentence, tokens, files, best, found, r.score, r.found))
  }

  /** f is a file of the scan that contains the sentence, and every readable file before it
      neither contained it nor scored 100. */
  predicate ExactSpec(c: Corpus, sentence: string, tokens: set<string>, files: seq<RepoFile>, f: RepoFile)
    requires |tokens| > 0
  {
    exists k :: 0 <= k < |files| && ExactAt(c, sentence, tokens, files, f, k)
  }

  predicate ExactAt(c: Corpus, sentence: string, tokens: set<string>, files: seq<RepoFile>, f: RepoFile, k: int)
    requires |tokens| > 0 && 0 <= k < |files|
  {
    files[k] == f && Hit(c, f, sentence) &&
      forall j :: 0 <= j < k && Readable(c, files[j]) ==>
        !Hit(c, files[j], sentence) && Score(c, files[j], tokens) < 100.0
  }

  /** The scan ended with score b and match m: no readable file scored more, none contained
      the sentence unless b is 100, and either nothing beat the starting best or m is the
      first file to reach b. */
  predicate BestSpec(c: Corpus, sentence: string, tokens: set<string>, files: seq<RepoFile>,
                     best: real, found: Option<RepoFile>, b: real, m: Option<RepoFile>)
    requires |tokens| > 0
  {
    && best <= b <= 100.0 && (m.Some? <==> b > 0.0)
    && ScoresAtMost(c, tokens, files, b)
    && (b < 100.0 ==> NoHit(c, sentence, files))
    && ((b == best && m == found) || (b > best && FirstToReach(c, tokens, files, m, b)))
  }

  predicate ScoresAtMost(c: Corpus, tokens: set<string>, files: seq<RepoFile>, b: real)
    requires |tokens| > 0
  {
    forall j :: 0 <= j < |files| && Readable(c, files[j]) ==> Score(c, files[j], tokens) <= b
  }

  predicate NoHit(c: Corpus, sentence: string, files: seq<RepoFile>) {
    forall j :: 0 <= j < |files| ==> !Hit(c, files[j], sentence)
  }

  /** A first file that neither hit nor scored 100 keeps a later hit the first. */
  lemma ExactShift(c: Corpus, sentence: string, tokens: set<string>, files: seq<RepoFile>, f: RepoFile)
    requires |tokens| > 0 && files != []
    requires Readable(c, files[0]) ==> !Hit(c, files[0], sentence) && Score(c, files[0], tokens) < 100.0
    requires ExactSpec(c, sentence, tokens, files[1..], f)
    ensures ExactSpec(c, sentence, tokens, files, f)
  {
    var k :| 0 <= k < |files[1..]| && ExactAt(c, sentence, tokens, files[1..], f, k);
    ShiftFacts(c, files);
    assert ExactAt(c, sentence, tokens, files, f, k + 1);
  }

  lemma ScoresShift(c: Corpus, tokens: set<string>, files: seq<RepoFile>, b: real)
    requires |tokens| > 0 && files != []
    requires Readable(c, files[0]) ==> Score(c, files[0], tokens) <= b
    requires ScoresAtMost(c, tokens, files[1..], b)
    ensures ScoresAtMost(c, tokens, files, b)
  {
    ShiftFacts(c, files);
  }

  lemma NoHitShift(c: Corpus, sentence: string, files: seq<RepoFile>)
    requires files != [] && !Hit(c, files[0], sentence)
    requires NoHit(c, sentence, files[1..])
    ensures NoHit(c, sentence, files)
  {
    ShiftFacts(c, files);
  }

  /** An unreadable first file is skipped. */
  lemma ScanSkip(c: Corpus, sentence: string, tokens: set<string>, files: seq<RepoFile>,
                 best: real, found: Option<RepoFile>, r: Scan)
    requires |tokens| > 0 && files != [] && !Readable(c, files[0])
    requires ScanSpec(c, sentence, tokens, files[1..], best, found, r)
    ensures ScanSpec(c, sentence, tokens, files, best, found, r)
  {
    if r.Exact? {
      ExactShift(c, sentence, tokens, files, r.file);
    } else {
      BestSkip(c, sentence, tokens, files, best, found, r.score, r.found);
    }
  }

  lemma BestSkip(c: Corpus, sentence: string, tokens: set<string>, files: seq<RepoFile>,
                 best: real, found: Option<RepoFile>, b: real, m: Option<RepoFile>)
    requires |tokens| > 0 && files != [] && !Readable(c, files[0])
    requires BestSpec(c, sentence, tokens, files[1..], best, found, b, m)
    ensures BestSpec(c, sentence, tokens, files, best, found, b, m)
  {
    ScoresShift(c, tokens, files, b);
    if b < 100.0 {
      NoHitShift(c, sentence, files);
    }
    if b > best && FirstToReach(c, tokens, files[1..], m, b) {
      FirstToReachShift(c, tokens, files, m, b);
    }
  }

  /** A verbatim hit in the first file ends the scan there. */
  lemma ScanHit(c: Corpus, sentence: string, tokens: set<string>, files: seq<RepoFile>,
                best: real, found: Option<RepoFile>, r: Scan)
    requires |tokens| > 0 && files != [] && Hit(c, files[0], sentence) && r == Exact(files[0])
    ensures ScanSpec(c, sentence, tokens, files, best, found, r)
  {
    assert ExactAt(c, sentence, tokens, files, r.file, 0);
  }

  /** A first file scoring 100 ends the scan with it. */
  lemma ScanFull(c: Corpus, sentence: string, tokens: set<string>, files: seq<RepoFile>,
                 best: real, found: Option<RepoFile>, r: Scan)
    requires |tokens| > 0 && files != [] && Readable(c, files[0])
    requires 0.0 <= best < 100.0 && Score(c, files[0], tokens) == 100.0
    requires r == Best(100.0, Some(files[0]))
    ensures ScanSpec(c, sentence, tokens, files, best, found, r)
  {
    forall j | 0 <= j < |files| && Readable(c, files[j])
      ensures Score(c, files[j], tokens) <= 100.0
    {
      OverlapBounds(tokens, c.tokenize(ContentOf(c, files[j])));
    }
    assert FirstAt(c, tokens, files, r.found, r.score, 0);
  }

  /** A first file scoring below 100 updates the best score, and the scan goes on. */
  lemma ScanScore(c: Corpus, sentence: string, tokens: set<string>, files: seq<RepoFile>,
                  best: real, found: Option<RepoFile>, best': real, found': Option<RepoFile>, r: Scan)
    requires |tokens| > 0 && files != [] && Readable(c, files[0])
    requires !Contains(ContentOf(c, files[0]), sentence)
    requires 0.0 <= best && (found.Some? <==> best > 0.0) && 0.0 <= Score(c, files[0], tokens)
    requires best' == (if Score(c, files[0], tokens) > best then Score(c, files[0], tokens) else best)
    requires found' == (if Score(c, files[0], tokens) > best then Some(files[0]) else found)
    requires best' < 100.0
    requires ScanSpec(c, sentence, tokens, files[1..], best', found', r)
    ensures ScanSpec(c, sentence, tokens, files, best, found, r)
  {
    if r.Exact? {
      ExactShift(c, sentence, tokens, files, r.file);
    } else {
      BestScore(c, sentence, tokens, files, best, found, best', found', r.score, r.found);
    }
  }

  lemma BestScore(c: Corpus, sentence: string, tokens: set<string>, files: seq<RepoFile>,
                  best: real, found: Option<RepoFile>, best': real, found': Option<RepoFile>,
                  b: real, m: Option<RepoFile>)
    requires |tokens| > 0 && files != [] && Readable(c, files[0])
    requires !Hit(c, files[0], sentence)
    requires 0.0 <= best && (found.Some? <==> best > 0.0) && 0.0 <= Score(c, files[0], tokens)
    requires best' == (if Score(c, files[0], tokens) > best then Score(c, files[0], tokens) else best)
    requires found' == (if Score(c, files[0], tokens) > best then Some(files[0]) else found)
    requires best' < 100.0
    requires BestSpec(c, sentence, tokens, files[1..], best', found', b, m)
    ensures BestSpec(c, sentence, tokens, files, best, found, b, m)
  {
    var o := Score(c, files[0], tokens);
    ScoresShift(c, tokens, files, b);
    if b < 100.0 {
      NoHitShift(c, sentence, files);
    }
    if b == best' && m == found' {
      if o > best {
        assert FirstAt(c, tokens, files, m, b, 0);
      }
    } else {
      FirstToReachShift(c, tokens, files, m, b);
    }
  }

  /** A first file that did not reach b leaves the first to reach it unchanged. */
  lemma FirstToReachShift(c: Corpus, tokens: set<string>, files: seq<RepoFile>, m: Option<RepoFile>, b: real)
    requires |tokens| > 0 && files != []
    requires Readable(c, files[0]) ==> Score(c, files[0], tokens) < b
    requires FirstToReach(c, tokens, files[1..], m, b)
    ensures FirstToReach(c, tokens, files, m, b)
  {
    var k :| 0 <= k < |files[1..]| && FirstAt(c, tokens, files[1..], m, b, k);
    ShiftFacts(c, files);
    assert FirstAt(c, tokens, files, m, b, k + 1);
  }

  /** m is the first readable file among files whose score is b, and every readable file
      before it scored less. */
  predicate FirstToReach(c: Corpus, tokens: set<string>, files: seq<RepoFile>, m: Option<RepoFile>, b: real)
    requires |tokens| > 0
  {
    exists k :: 0 <= k < |files| && FirstAt(c, tokens, files, m, b, k)
  }

  predicate FirstAt(c: Corpus, tokens: set<string>, files: seq<RepoFile>, m: Option<RepoFile>, b: real, k: int)
    requires |tokens| > 0 && 0 <= k < |files|
  {
    m == Some(files[k]) && Readable(c, files[k]) && Score(c, files[k], tokens) == b &&
      forall j :: 0 <= j < k && Readable(c, files[j]) ==> Score(c, files[j], tokens) < b
  }

  /** Index shifting between files and files[1..]. */
  lemma ShiftFacts(c: Corpus, files: seq<RepoFile>)
    requires |files| >= 1
    ensures forall j :: 1 <= j < |files| ==> files[j] == files[1..][j - 1]
  {
  }

  /** What check_local reports. The score is a percentage and a match is reported exactly
      when it is positive, always an indexed readable file of the repository. A positive
      score below the threshold never survives unless the sentence occurs verbatim (100).
      When some indexed file contains the sentence verbatim and the threshold is at most
      100, the score is 100. A score strictly between 0 and 100 is the highest overlap of
      any indexed readable file, and the reported file attains it. */
  lemma LocalCheckFacts(c: Corpus, sentence: string, threshold: int)
    ensures var r := LocalCheck(c, sentence, threshold);
      0.0 <= r.0 <= 100.0 && (r.1.Some? <==> r.0 > 0.0)
    ensures var r := LocalCheck(c, sentence, threshold);
      r.1.Some? ==> r.1.value in c.files && r.1.value.status == Indexed && Readable(c, r.1.value)
    ensures var r := LocalCheck(c, sentence, threshold);
      r.0 > 0.0 ==> r.0 == 100.0 || r.0 >= threshold as real
    ensures var r := LocalCheck(c, sentence, threshold);
      ((exists f :: f in c.files && f.status == Indexed && Hit(c, f, Lower(sentence))) &&
       |c.tokenize(Lower(sentence))| > 0 && threshold <= 100) ==> r.0 == 100.0
    ensures var r := LocalCheck(c, sentence, threshold);
      var tokens := c.tokenize(Lower(sentence));
      |tokens| > 0 && 0.0 < r.0 < 100.0 ==>
        r.1.Some? && Readable(c, r.1.value) && Score(c, r.1.value, tokens) == r.0 &&
        forall f :: f in c.files && f.status == Indexed && Readable(c, f) ==> Score(c, f, tokens) <= r.0
  {
    var files := IndexedFiles(c.files);
    var lower := Lower(sentence);
    var tokens := c.tokenize(lower);
    if files != [] && |tokens| > 0 {
      var scan := ScanFrom(c, lower, tokens, files, 0.0, None);
      ScanFromFacts(c, lower, tokens, files, 0.0, None);
      if scan.Exact? {
        LocalExact(c, sentence, threshold, files, lower, tokens, scan);
      } else {
        LocalBest(c, sentence, threshold, files, lower, tokens, scan);
      }
    }
  }

  /** The facts LocalCheckFacts states, about a given result r. */
  predicate LocalSpec(c: Corpus, sentence: string, threshold: int, r: (real, Option<RepoFile>)) {
    var tokens := c.tokenize(Lower(sentence));
    && 0.0 <= r.0 <= 100.0 && (r.1.Some? <==> r.0 > 0.0)
    && (r.1.Some? ==> r.1.value in c.files && r.1.value.status == Indexed && Readable(c, r.1.value))
    && (r.0 > 0.0 ==> r.0 == 100.0 || r.0 >= threshold as real)
    && (((exists f :: f in c.files && f.status == Indexed && Hit(c, f, Lower(sentence))) &&
         |tokens| > 0 && threshold <= 100) ==> r.0 == 100.0)
    && (|tokens| > 0 && 0.0 < r.0 < 100.0 ==>
         r.1.Some? && Readable(c, r.1.value) && Score(c, r.1.value, tokens) == r.0 &&
         forall f :: f in c.files && f.status == Indexed && Readable(c, f) ==> Score(c, f, tokens) <= r.0)
  }

  /** A verbatim hit: check_local reports 100 and the file hit. */
  lemma LocalExact(c: Corpus, sentence: string, threshold: int, files: seq<RepoFile>, lower: string,
                   tokens: set<string>, scan: Scan)
    requires files == IndexedFiles(c.files) && lower == Lower(sentence) && tokens == c.tokenize(lower)
    requires files != [] && |tokens| > 0 && scan == ScanFrom(c, lower, tokens, files, 0.0, None)
    requires scan.Exact? && ScanSpec(c, lower, tokens, files, 0.0, None, scan)
    ensures LocalSpec(c, sentence, threshold, LocalCheck(c, sentence, threshold))
  {
    var k :| 0 <= k < |files| && ExactAt(c, lower, tokens, files, scan.file, k);
    assert files[k] in files;
  }

  /** A scan that ends with a best score: the score when it reaches the threshold, else 0. */
  lemma LocalBest(c: Corpus, sentence: string, threshold: int, files: seq<RepoFile>, lower: string,
                  tokens: set<string>, scan: Scan)
    requires files == IndexedFiles(c.files) && lower == Lower(sentence) && tokens == c.tokenize(lower)
    requires files != [] && |tokens| > 0 && scan == ScanFrom(c, lower, tokens, files, 0.0, None)
    requires scan.Best? && ScanSpec(c, lower, tokens, files, 0.0, None, scan)
    ensures LocalSpec(c, sentence, threshold, LocalCheck(c, sentence, threshold))
  {
    if scan.found.Some? {
      var k :| 0 <= k < |files| && FirstAt(c, tokens, files, scan.found, scan.score, k);
      assert files[k] in files;
      IndexedScores(c, tokens, files, scan.score);
    }
    NoHitBelowFull(c, lower, files, scan.score);
  }

  lemma IndexedScores(c: Corpus, tokens: set<string>, files: seq<RepoFile>, b: real)
    requires |tokens| > 0 && files == IndexedFiles(c.files) && ScoresAtMost(c, tokens, files, b)
    ensures forall f :: f in c.files && f.status == Indexed && Readable(c, f) ==> Score(c, f, tokens) <= b
  {
    forall f | f in c.files && f.status == Indexed && Readable(c, f)
      ensures Score(c, f, tokens) <= b
    {
      var j :| 0 <= j < |files| && files[j] == f;
    }
  }

  lemma NoHitBelowFull(c: Corpus, lower: string, files: seq<RepoFile>, b: real)
    requires files == IndexedFiles(c.files)
    requires b < 100.0 ==> NoHit(c, lower, files)
    ensures b < 100.0 ==> forall f :: f in c.files && f.status == Indexed ==> !Hit(c, f, lower)
  {
    forall f | f in c.files && f.status == Indexed
      ensures b < 100.0 ==> !Hit(c, f, lower)
    {
      var j :| 0 <= j < |files| && files[j] == f;
    }
  }

  /** One step of the scan at position i. */
  lemma ScanStep(c: Corpus, sentence: string, tokens: set<string>, files: seq<RepoFile>, i: nat,
                 best: real, found: Option<RepoFile>)
    requires |tokens| > 0 && i < |files|
    ensures ScanFrom(c, sentence, tokens, files[i..], best, found) ==
      if !Readable(c, files[i]) then ScanFrom(c, sentence, tokens, files[i + 1..], best, found)
      else if Contains(ContentOf(c, files[i]), sentence) then Exact(files[i])
      else
        var o := Score(c, files[i], tokens);
        var best' := if o > best then o else best;
        var found' := if o > best then Some(files[i]) else found;
        if best' == 100.0 then Best(best', found')
        else ScanFrom(c, sentence, tokens, files[i + 1..], best', found')
  {
    assert files[i..][1..] == files[i + 1..];
  }

  /** PlagiarismService.check_local. */
  method CheckLocal(c: Corpus, sentence: string, threshold: int) returns (score: real, found: Option<RepoFile>)
    ensures (score, found) == LocalCheck(c, sentence, threshold)
  {
    var files := IndexedFiles(c.files);
    if |files| == 0 {
      return 0.0, None;
    }
    var lower := Lower(sentence);
    var tokens := c.tokenize(lower);
    if |tokens| == 0 {
      return 0.0, None;
    }
    var scan := ScanFiles(c, lower, tokens, files);
    match scan
    case Exact(f) =>
      return 100.0, Some(f);
    case Best(b, m) =>
      if b >= threshold as real {
        return b, m;
      }
      return 0.0, None;
  }

  /** The loop of check_local over the indexed files. */
  method ScanFiles(c: Corpus, lower: string, tokens: set<string>, files: seq<RepoFile>) returns (scan: Scan)
    requires |tokens| > 0
    ensures scan == ScanFrom(c, lower, tokens, files, 0.0, None)
  {
    var best := 0.0;
    var found := None;
    var i := 0;
    while i < |files|
      invariant 0 <= i <= |files|
      invariant ScanFrom(c, lower, tokens, files, 0.0, None) == ScanFrom(c, lower, tokens, files[i..], best, found)
      decreases |files| - i
    {
      var f := files[i];
      ScanStep(c, lower, tokens, files, i, best, found);
      if Readable(c, f) {
        var content := ContentOf(c, f);
        if Contains(content, lower) {
          return Exact(f);
        }
        var overlap := Overlap(tokens, c.tokenize(content));
        if overlap > best {
          best := overlap;
          found := Some(f);
        }
        if best == 100.0 {
          return Best(best, found);
        }
      }
      i := i + 1;
    }
    assert files[i..] == [];
    return Best(best, found);
  }

  /** PlagiarismService.check_google: the search either fails (an exception, scored 0) or
      returns result URLs; any result scores 100 with the first URL as the source. */
  function CheckGoogle(search: Result<seq<string>, string>): (r: (real, Option<string>))
    ensures r.0 == 0.0 || r.0 == 100.0
    ensures r.1.Some? <==> r.0 == 100.0
    ensures r.1.Some? <==> search.Ok? && search.value != []
    ensures r.1.Some? ==> r.1.value == search.value[0]
  {
    match search
      case Ok(urls) => if |urls| > 0 then (100.0, Some(urls[0])) else (0.0, None)
      case Err(_) => (0.0, None)
  }
}
