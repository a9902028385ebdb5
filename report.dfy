/** The content of the PDF report of generate_pdf_report: which sections the story holds, in
    which order, and the text of their rows. Fonts, colours, table widths and spacers are
    layout and are not modelled; reportlab's doc.build is an oracle that may fail. */
module Report {
  import opened Wrappers
  import opened Text
  import opened Checking

  /** A row of the local-sources table: No, Judul, Penulis, Tahun, Kecocokan. */
  datatype SourceRow = SourceRow(no: string, title: string, author: string, year: string, matches: string)

  /** A row of the detail table: Kalimat, Sumber, Skor, Metadata. */
  datatype DetailRow = DetailRow(sentence: string, source: string, score: string, metadata: string)

  /** The story handed to reportlab, as sections. */
  datatype Section =
    | Title
    | DocumentInfo(filename: string, date: string, threshold: string)
    | SimilarityIndex(global: string, local: string, internet: string)
    | LocalSources(sourceRows: seq<SourceRow>)
    | InternetSources(lines: seq<string>)
    | PageBreak
    | DetailHeading
    | DetailTable(detailRows: seq<DetailRow>)
    | NoPlagiarismNotice
    | Legend

  /** The sentence as the detail table shows it: its first 80 characters and "..." when it is
      longer than 80. */
  function CutSentence(s: string): (r: string)
    ensures |r| <= 83
    ensures |s| <= 80 ==> r == s
    ensures |s| > 80 ==> |r| == 83 && r[..80] == s[..80] && r[80..] == "..."
  {
    if |s| > 80 then s[..80] + "..." else s
  }

  /** Python's f"{x:.0f}": x rounded to the nearest integer, halves to even. */
  function RoundHalfEven(x: real): (n: int)
    ensures -0.5 <= (n as real) - x <= 0.5
    ensures (n as real) - x == 0.5 || x - (n as real) == 0.5 ==> n % 2 == 0
  {
    var f := x.Floor;
    var frac := x - f as real;
    if frac < 0.5 then f
    else if frac > 0.5 then f + 1
    else if f % 2 == 0 then f else f + 1
  }

  function YearText(y: YearValue): string {
    match y
      case Year(n) => IntToString(n)
      case NotAvailable => "N/A"
  }

  function PercentText(p: int): string {
    IntToString(p) + "%"
  }

  function SourceLabel(k: SourceKind): string {
    match k
      case LocalRepository => "Local Repository"
      case Internet => "Internet"
  }

  /** The metadata cell: title, then author and year, for a repository match; the first 50
      characters of the URL and "..." for a web match; empty otherwise. */
  function MetadataText(m: Metadata): (t: string)
    ensures m.UrlMeta? ==> t == Take(m.url, 50) + "..."
    ensures m.NoMetadata? ==> t == ""
  {
    match m
      case RepoMeta(title, author, year, _) => title + "\n" + author + " (" + YearText(year) + ")"
      case UrlMeta(url) => Take(url, 50) + "..."
      case NoMetadata => ""
  }

  function SourceRowOf(idx: nat, e: LocalSource): SourceRow {
    SourceRow(NatToString(idx), e.title, e.author, YearText(e.year), NatToString(e.count) + " kalimat")
  }

  function DetailRowOf(r: SentenceResult): DetailRow {
    DetailRow(CutSentence(r.sentence), SourceLabel(r.source), PercentText(RoundHalfEven(r.score)),
              MetadataText(r.metadata))
  }

  /** The rows of the local-sources table, numbered from 1. */
  function SourceRows(ms: seq<LocalSource>): (rows: seq<SourceRow>)
    ensures |rows| == |ms|
  {
    if ms == [] then [] else SourceRows(ms[..|ms| - 1]) + [SourceRowOf(|ms|, ms[|ms| - 1])]
  }

  /** The numbered lines "<i>. <url>" of the internet list. */
  function UrlLines(us: seq<string>): (lines: seq<string>)
    ensures |lines| == |us|
  {
    if us == [] then [] else UrlLines(us[..|us| - 1]) + [NatToString(|us|) + ". " + us[|us| - 1]]
  }

  function DetailRows(rs: seq<SentenceResult>): (rows: seq<DetailRow>)
    ensures |rows| == |rs|
  {
    if rs == [] then [] else DetailRows(rs[..|rs| - 1]) + [DetailRowOf(rs[|rs| - 1])]
  }

  function Header(filename: string, date: string, threshold: int, rep: CheckReport): seq<Section> {
    [Title, DocumentInfo(filename, date, PercentText(threshold)),
     SimilarityIndex(PercentText(rep.similarityGlobal), PercentText(rep.similarityLocal),
                     PercentText(rep.similarityInternet))]
  }

  /** The local-sources table, present only when there are local sources. */
  function LocalSection(ms: seq<LocalSource>): seq<Section> {
    if ms != [] then [LocalSources(SourceRows(ms))] else []
  }

  /** The internet list, present only when there are URLs. */
  function InternetSection(us: seq<string>): seq<Section> {
    if us != [] then [InternetSources(UrlLines(us))] else []
  }

  /** The detail table, or the notice that nothing was detected. */
  function DetailSection(rs: seq<SentenceResult>): seq<Section> {
    if rs != [] then [DetailTable(DetailRows(rs))] else [NoPlagiarismNotice]
  }

  /** The story generate_pdf_report builds for a check report. */
  function Story(filename: string, date: string, threshold: int, rep: CheckReport): seq<Section> {
    Header(filename, date, threshold, rep) + LocalSection(rep.localSources) +
    InternetSection(rep.internetSources) + [PageBreak, DetailHeading] +
    DetailSection(rep.results) + [Legend]
  }

  /** What generate_pdf_report returns: the output path when the document is built, None when
      building it raises. */
  function ReportOutcome(outputPath: string, filename: string, date: string, threshold: int,
                         rep: CheckReport, build: seq<Section> -> bool): Option<string> {
    if build(Story(filename, date, threshold, rep)) then Some(outputPath) else None
  }

  /** PlagiarismService.generate_pdf_report: appends the sections to the story, then builds it. */
  method GenerateReport(outputPath: string, filename: string, date: string, threshold: int,
                        rep: CheckReport, build: seq<Section> -> bool)
    returns (path: Option<string>, story: seq<Section>)
    ensures story == Story(filename, date, threshold, rep)
    ensures path == ReportOutcome(outputPath, filename, date, threshold, rep, build)
  {
    story := [Title];
    story := story + [DocumentInfo(filename, date, PercentText(threshold))];
    story := story + [SimilarityIndex(PercentText(rep.similarityGlobal), PercentText(rep.similarityLocal),
                                      PercentText(rep.similarityInternet))];
    assert story == Header(filename, date, threshold, rep);
    if rep.localSources != [] {
      var rows := CollectSourceRows(rep.localSources);
      story := story + [LocalSources(rows)];
    }
    assert story == Header(filename, date, threshold, rep) + LocalSection(rep.localSources);
    ghost var upToLocal := story;
    if rep.internetSources != [] {
      var lines := CollectUrlLines(rep.internetSources);
      story := story + [InternetSources(lines)];
    }
    assert story == upToLocal + InternetSection(rep.internetSources);
    story := story + [PageBreak];
    story := story + [DetailHeading];
    ghost var upToHeading := story;
    assert upToHeading == upToLocal + InternetSection(rep.internetSources) + [PageBreak, DetailHeading];
    if rep.results != [] {
      var rows := CollectDetailRows(rep.results);
      story := story + [DetailTable(rows)];
    } else {
      story := story + [NoPlagiarismNotice];
    }
    assert story == upToHeading + DetailSection(rep.results);
    story := story + [Legend];
    if build(story) {
      path := Some(outputPath);
    } else {
      path := None;
    }
  }

  method CollectSourceRows(ms: seq<LocalSource>) returns (rows: seq<SourceRow>)
    ensures rows == SourceRows(ms)
  {
    rows := [];
    var i := 0;
    while i < |ms|
      invariant 0 <= i <= |ms|
      invariant rows == SourceRows(ms[..i])
    {
      rows := rows + [SourceRowOf(i + 1, ms[i])];
      assert ms[..i + 1][..i] == ms[..i];
      i := i + 1;
    }
    assert ms[..i] == ms;
  }

  method CollectUrlLines(us: seq<string>) returns (lines: seq<string>)
    ensures lines == UrlLines(us)
  {
    lines := [];
    var i := 0;
    while i < |us|
      invariant 0 <= i <= |us|
      invariant lines == UrlLines(us[..i])
    {
      lines := lines + [NatToString(i + 1) + ". " + us[i]];
      assert us[..i + 1][..i] == us[..i];
      i := i + 1;
    }
    assert us[..i] == us;
  }

  method CollectDetailRows(rs: seq<SentenceResult>) returns (rows: seq<DetailRow>)
    ensures rows == DetailRows(rs)
  {
    rows := [];
    var i := 0;
    while i < |rs|
      invariant 0 <= i <= |rs|
      invariant rows == DetailRows(rs[..i])
    {
      rows := rows + [DetailRowOf(rs[i])];
      assert rs[..i + 1][..i] == rs[..i];
      i := i + 1;
    }
    assert rs[..i] == rs;
  }

  predicate IsLocalSources(s: Section) { s.LocalSources? }
  predicate IsInternetSources(s: Section) { s.InternetSources? }
  predicate IsDetailTable(s: Section) { s.DetailTable? }
  predicate IsNoPlagiarismNotice(s: Section) { s.NoPlagiarismNotice? }

  /** Some section of st satisfies p. */
  predicate Any(st: seq<Section>, p: Section -> bool) {
    exists i :: 0 <= i < |st| && p(st[i])
  }

  lemma AnyConcat(a: seq<Section>, b: seq<Section>, p: Section -> bool)
    ensures Any(a + b, p) <==> Any(a, p) || Any(b, p)
  {
    if Any(a + b, p) {
      var i :| 0 <= i < |a + b| && p((a + b)[i]);
      if i >= |a| {
        assert b[i - |a|] == (a + b)[i];
      }
    }
    if Any(a, p) {
      var i :| 0 <= i < |a| && p(a[i]);
      assert (a + b)[i] == a[i];
    }
    if Any(b, p) {
      var i :| 0 <= i < |b| && p(b[i]);
      assert (a + b)[|a| + i] == b[i];
    }
  }

  /** Any over the six parts of the story. */
  lemma AnyStory(filename: string, date: string, threshold: int, rep: CheckReport, p: Section -> bool)
    ensures Any(Story(filename, date, threshold, rep), p) <==>
      Any(Header(filename, date, threshold, rep), p) || Any(LocalSection(rep.localSources), p) ||
      Any(InternetSection(rep.internetSources), p) || Any([PageBreak, DetailHeading], p) ||
      Any(DetailSection(rep.results), p) || Any([Legend], p)
  {
    var h := Header(filename, date, threshold, rep);
    var l := LocalSection(rep.localSources);
    var n := InternetSection(rep.internetSources);
    var d := DetailSection(rep.results);
    AnyConcat(h, l, p);
    AnyConcat(h + l, n, p);
    AnyConcat(h + l + n, [PageBreak, DetailHeading], p);
    AnyConcat(h + l + n + [PageBreak, DetailHeading], d, p);
    AnyConcat(h + l + n + [PageBreak, DetailHeading] + d, [Legend], p);
  }

  /** The story opens with the title and closes with the legend. */
  lemma StoryEnds(filename: string, date: string, threshold: int, rep: CheckReport)
    ensures var st := Story(filename, date, threshold, rep);
      st[0] == Title && st[|st| - 1] == Legend
  {
    var h := Header(filename, date, threshold, rep);
    assert Story(filename, date, threshold, rep)[0] == h[0];
  }

  /** No section of these kinds is in the header, between the lists or in the legend. */
  lemma FixedParts(filename: string, date: string, threshold: int, rep: CheckReport, p: Section -> bool)
    requires p == IsLocalSources || p == IsInternetSources || p == IsDetailTable || p == IsNoPlagiarismNotice
    ensures !Any(Header(filename, date, threshold, rep), p)
    ensures !Any([PageBreak, DetailHeading], p) && !Any([Legend], p)
  {
  }

  /** The local-sources table appears exactly when there are local sources. */
  lemma LocalTablePresence(filename: string, date: string, threshold: int, rep: CheckReport)
    ensures Any(Story(filename, date, threshold, rep), IsLocalSources) <==> rep.localSources != []
  {
    AnyStory(filename, date, threshold, rep, IsLocalSources);
    FixedParts(filename, date, threshold, rep, IsLocalSources);
    if rep.localSources != [] {
      assert IsLocalSources(LocalSection(rep.localSources)[0]);
    }
  }

  /** The internet list appears exactly when there are URLs. */
  lemma InternetListPresence(filename: string, date: string, threshold: int, rep: CheckReport)
    ensures Any(Story(filename, date, threshold, rep), IsInternetSources) <==> rep.internetSources != []
  {
    AnyStory(filename, date, threshold, rep, IsInternetSources);
    FixedParts(filename, date, threshold, rep, IsInternetSources);
    if rep.internetSources != [] {
      assert IsInternetSources(InternetSection(rep.internetSources)[0]);
    }
  }

  /** The detail table appears exactly when there are results, and the notice "Tidak ada
      plagiarisme terdeteksi" exactly when there are none. */
  lemma DetailPresence(filename: string, date: string, threshold: int, rep: CheckReport)
    ensures Any(Story(filename, date, threshold, rep), IsDetailTable) <==> rep.results != []
    ensures Any(Story(filename, date, threshold, rep), IsNoPlagiarismNotice) <==> rep.results == []
  {
    OnlyInDetail(filename, date, threshold, rep, IsDetailTable);
    OnlyInDetail(filename, date, threshold, rep, IsNoPlagiarismNotice);
    DetailSectionShows(rep.results);
  }

  /** The detail table and the notice can only come from the detail section. */
  lemma OnlyInDetail(filename: string, date: string, threshold: int, rep: CheckReport, p: Section -> bool)
    requires p == IsDetailTable || p == IsNoPlagiarismNotice
    ensures Any(Story(filename, date, threshold, rep), p) <==> Any(DetailSection(rep.results), p)
  {
    AnyStory(filename, date, threshold, rep, p);
    FixedParts(filename, date, threshold, rep, p);
    assert !Any(LocalSection(rep.localSources), p);
    assert !Any(InternetSection(rep.internetSources), p);
  }

  lemma DetailSectionShows(rs: seq<SentenceResult>)
    ensures Any(DetailSection(rs), IsDetailTable) <==> rs != []
    ensures Any(DetailSection(rs), IsNoPlagiarismNotice) <==> rs == []
  {
    assert IsDetailTable(DetailSection(rs)[0]) || IsNoPlagiarismNotice(DetailSection(rs)[0]);
  }

  /** The i-th row of the local-sources table describes the i-th source and is numbered i+1. */
  lemma {:induction false} SourceRowsAt(ms: seq<LocalSource>)
    ensures forall i :: 0 <= i < |ms| ==> SourceRows(ms)[i] == SourceRowOf(i + 1, ms[i])
  {
    if ms != [] {
      SourceRowsAt(ms[..|ms| - 1]);
    }
  }

  /** The i-th line of the internet list is "<i+1>. " followed by the i-th URL, in full. */
  lemma {:induction false} UrlLinesAt(us: seq<string>)
    ensures forall i :: 0 <= i < |us| ==> UrlLines(us)[i] == NatToString(i + 1) + ". " + us[i]
  {
    if us != [] {
      UrlLinesAt(us[..|us| - 1]);
    }
  }

  /** The i-th row of the detail table shows the i-th result, its sentence cut to 80
      characters. */
  lemma {:induction false} DetailRowsAt(rs: seq<SentenceResult>)
    ensures forall i :: 0 <= i < |rs| ==> DetailRows(rs)[i] == DetailRowOf(rs[i])
    ensures forall i :: 0 <= i < |rs| ==> DetailRows(rs)[i].sentence == CutSentence(rs[i].sentence)
  {
    if rs != [] {
      DetailRowsAt(rs[..|rs| - 1]);
    }
  }
}
