# A verified model of the plagiarism checker's core

This project models the core of a Django plagiarism-detection application in Dafny. Students and staff upload a
PDF or DOCX document, or paste text. A background worker then performs these steps:

- extracts and normalises the text;
- splits it into sentences;
- compares every sentence against an indexed local repository and, optionally, a web search;
- adds up the per-sentence results into three similarity percentages;
- writes a PDF report.

Around that pipeline the model covers:

- the admission rules of the check tool (one running job per user, a daily upload quota, file filtering);
- the form validators;
- the status feed and the report download;
- a singleton settings row;
- the management command that deletes old reports;
- the repository's field derivation and its indexing loop.

The third-party libraries are replaced by inputs of the model:

- PyMuPDF page results;
- python-docx paragraphs and tables;
- NLTK sentence and token lists (`Option`/function inputs);
- Google search results (`Result` inputs);
- reportlab's build step;
- filesystem queries.

Each module follows one source area.

| module | file | source area |
|---|---|---|
| `Text` | text.dfy | Python `str`/`os.path` helpers used throughout (strip, split, join, lower, basename, splitext, str(int)) |
| `Normalize` | clean_text.dfy | `PlagiarismService._clean_text` |
| `Segmenter` | segment.dfy | `PlagiarismService.tokenize` |
| `PdfPage` | pdf_pages.dfy | the per-page fallback chain of `_extract_from_pdf`, `_extract_from_dict` |
| `Extraction` | extract.dfy | `validate_pdf`, `extract_text`, `_extract_from_pdf`, `_extract_from_docx` |
| `Matcher` | matcher.dfy | `check_local`, `check_google` |
| `Checking` | aggregate.dfy | `process_check` |
| `Report` | report.dfy | `generate_pdf_report` (sections and cut rules, not layout) |
| `SourcesCodec` | codec.dfy | the text stored in `matched_sources` |
| `History` | history.dfy | `PlagiarismHistory`, `UserUploadQuota` |
| `Storage` | storage.dfy | the files on disk (`os.path.exists`, `os.remove`) |
| `Worker` | worker.dfy | `PlagiarismTask._process_worker` |
| `Forms` | forms.dfy | `PlagiarismCheckForm` |
| `Settings` | settings.dfy | `PlagiarismSettings` |
| `Cleanup` | cleanup.dfy | the `cleanup_old_reports` command |
| `Admission` | admission.dfy | `plagiarism_check_view`, `check_status`, `download_report`, `_sanitize_filename`, `file_status_display`, the URL cut of `matched_sources_display` |
| `Repository` | repository.dfy | `get_upload_path`, `RepositoryFile.save`, `start_indexing_view` |

Loops in the source are Dafny methods with loops. Each such method is proved equal to a specification function,
and the properties are proved about that function. Objects whose fields change become classes:

- the history table and the quota table;
- the file store;
- the settings table;
- the repository table;
- the form.

## Model

| member | source | states |
|---|---|---|
| Normalize.CleanText | apps/plagiarism/services.py:262-295 | the method's result is the specification `Cleaned(text)`: empty for empty input, otherwise the four passes in order |
| Normalize.ReplaceCharacters | apps/plagiarism/services.py:270-280 | the character loop gives `ReplaceDisallowed(text)`, of the same length |
| Normalize.ReplaceDisallowed | apps/plagiarism/services.py:273-280 | keeps the length of the text |
| Normalize.CollapseHSpace | apps/plagiarism/services.py:283 | empty exactly for empty input; the first character is a space or tab exactly when the input's was |
| Normalize.CollapseHSpaceTidies | apps/plagiarism/services.py:275-283 | after the character filter, collapsing leaves no tab and no two adjacent spaces or tabs |
| Normalize.CollapseBlankKeepsLines | apps/plagiarism/services.py:284-291 | collapsing blank-line runs (at least two newlines) never changes the stripped non-blank lines |
| Normalize.NonBlankLines | apps/plagiarism/services.py:287-291 | the line loop gives the stripped non-blank lines |
| Normalize.KeptLine | apps/plagiarism/services.py:289-291 | a line contributes nothing or its strip |
| Normalize.CleanedLines | apps/plagiarism/services.py:283-295 | the cleaned text is the stripped non-blank lines of the filtered, collapsed text joined by newlines |
| Normalize.CleanedShape | apps/plagiarism/services.py:266-295 | the result is empty exactly when there are no lines; every character is allowed or non-ASCII, with no tab and no double space; splitting at newlines gives back the lines, each non-empty and stripped, so no "\n\n" |
| Normalize.CleanedIdempotent | apps/plagiarism/services.py:262-295 | cleaning a cleaned text changes nothing |
| Normalize.Cleaned | apps/plagiarism/services.py:262-295 | specification: what _clean_text returns; proved in `CleanedLines`, `CleanedShape`, `CleanedIdempotent` |
| Segmenter.Tokenize | apps/plagiarism/services.py:297-323 | the method gives `Sentences(text, tokenized)`: [] for blank text, the filtered tokenizer sentences, or the period fallback when the tokenizer raises |
| Segmenter.FilterSentences | apps/plagiarism/services.py:309-314 | the loop gives the filtered sentences in tokenizer order |
| Segmenter.KeptSentence | apps/plagiarism/services.py:311-314 | a sentence contributes nothing or its strip |
| Segmenter.KeptPiece | apps/plagiarism/services.py:323 | a fallback piece contributes nothing or its strip followed by "." |
| Segmenter.ValidSentencesMembers | apps/plagiarism/services.py:310-314 | a string is returned exactly when it is the strip of a tokenizer sentence of length > 10 with at least 3 words |
| Segmenter.ValidSentencesStripped | apps/plagiarism/services.py:311-313 | every returned sentence is stripped and passes the length and word-count filter |
| Segmenter.FallbackShape | apps/plagiarism/services.py:322-323 | every fallback sentence is a stripped period-free piece of more than 10 characters followed by one "." |
| Segmenter.PieceShape | apps/plagiarism/services.py:323 | a kept piece has that fallback shape |
| Segmenter.BlankTextNoSentences | apps/plagiarism/services.py:301-302 | empty or whitespace-only text gives [] whatever the tokenizer does |
| Segmenter.FallbackOfText | apps/plagiarism/services.py:319-323 | with a failing tokenizer, the sentences are the fallback of `text.split('.')`, each longer than 11 and ending in its only "." |
| Segmenter.Sentences | apps/plagiarism/services.py:297-323 | specification: what tokenize returns; proved in `ValidSentencesMembers`, `FallbackShape`, `BlankTextNoSentences`, `FallbackOfText` |
| PdfPage.TextBlocks | apps/plagiarism/services.py:113-118 | there are no more texts than blocks |
| PdfPage.TextBlocksMembers | apps/plagiarism/services.py:115-118 | a string is kept exactly when some text block (type 0, long enough, not blank) carries it |
| PdfPage.NonBlankSpans | apps/plagiarism/services.py:213-217 | there are no more texts than spans |
| PdfPage.NonBlankSpansNonBlank | apps/plagiarism/services.py:216 | only non-blank span texts are joined |
| PdfPage.JoinSpans | apps/plagiarism/services.py:213-217 | the join of the non-blank spans with single spaces |
| PdfPage.ReadLine | apps/plagiarism/services.py:212-219 | a line adds its stripped text and "\n", or nothing |
| PdfPage.ReadLines | apps/plagiarism/services.py:210-219 | a block adds each non-blank line, stripped and newline-terminated |
| PdfPage.ExtractFromDict | apps/plagiarism/services.py:198-227 | the method gives `DictText(d)` |
| PdfPage.LinesOfTerminated | apps/plagiarism/services.py:218-222 | newline-terminated stripped lines read back as exactly those lines |
| PdfPage.DictTextLines | apps/plagiarism/services.py:198-227 | the dict method yields exactly the stripped non-blank lines of its text blocks, in order |
| PdfPage.ImgTagEnd | apps/plagiarism/services.py:132 | a match of `<img[^>]*>` ends at a '>' at index 4 or later |
| PdfPage.RemoveImgTags | apps/plagiarism/services.py:132 | removing image tags never lengthens the text |
| PdfPage.TagEnd | apps/plagiarism/services.py:134 | a match of `<[^<]+?>` is "<", then a run without '<' (which may begin with '>'), ending at the first '>' at index 2 or later |
| PdfPage.RemoveTags | apps/plagiarism/services.py:134 | removing tags never lengthens the text |
| PdfPage.TagFreePrefix | apps/plagiarism/services.py:134 | text with no '<' passes through tag removal unchanged |
| PdfPage.PlainHead | apps/plagiarism/services.py:132 | a first character other than '<' is kept |
| PdfPage.TagRemoved | apps/plagiarism/services.py:134 | a whole tag vanishes |
| PdfPage.PageTextChoice | apps/plagiarism/services.py:107-134 | the page text comes from the first method that is not weak (stripped length < 20), in the order text, blocks, dict, html; a weak result means every method consulted was weak |
| PdfPage.ReadPage | apps/plagiarism/services.py:99-135 | the loop body gives `PageText(p)` |
| Extraction.ValidatePdfAccepts | apps/plagiarism/services.py:22-54 | validation passes exactly when the PDF opens, has a page, and the first page's plain text is not weak |
| Extraction.AddChunk | apps/plagiarism/services.py:137-140 | a non-blank page text adds its strip and "\n\n" |
| Extraction.ReadPages | apps/plagiarism/services.py:97-156 | the page loop gives the accumulated text and the image count |
| Extraction.ExtractFromPdf | apps/plagiarism/services.py:82-196 | the method gives `PdfOutcome(doc)`, including the rewrapping of exception messages |
| Extraction.CheckText | apps/plagiarism/services.py:159-185 | the empty-text, image-only and too-short checks in the source's order |
| Extraction.PdfOutcomeAccepted | apps/plagiarism/services.py:159-185 | an accepted PDF text is stripped and at least 50 characters long |
| Extraction.RewrapImagesOnly | apps/plagiarism/services.py:168-194 | the image-only message mentions "gambar", so the outer handler passes it unchanged |
| Extraction.RewrapTooShort | apps/plagiarism/services.py:177-194 | the too-short message is passed unchanged as well |
| Extraction.RewrapNoText | apps/plagiarism/services.py:175-196 | the empty-PDF message matches none of the keywords, so it comes out behind "Error saat memproses PDF: " |
| Extraction.ValidatedPdfHasText | apps/plagiarism/services.py:22-182 | a validated PDF whose first page's images can be counted never fails for lack of text: it either succeeds or fails as too short |
| Extraction.ValidatedPdfImagesRaise | apps/plagiarism/services.py:97-176 | when get_images() raises on the only page of a validated PDF, that page's text is dropped and extraction fails with the rewrapped no-text message |
| Extraction.KeptParagraphs | apps/plagiarism/services.py:237 | the kept paragraphs are no more than the paragraphs, and none is blank |
| Extraction.RowTextsStripped | apps/plagiarism/services.py:243-245 | every collected cell text of a row is stripped and non-empty |
| Extraction.TablesTextsStripped | apps/plagiarism/services.py:240-245 | every collected cell text of the tables is stripped and non-empty |
| Extraction.CollectCells | apps/plagiarism/services.py:240-245 | the nested loops give `TablesTexts(tables)` |
| Extraction.ExtractFromDocx | apps/plagiarism/services.py:229-260 | the method gives `DocxOutcome(docx)` |
| Extraction.DocxOutcomeAccepted | apps/plagiarism/services.py:248-256 | an accepted DOCX text is the combined text and has at least 100 characters once stripped |
| Extraction.DocxTextLines | apps/plagiarism/services.py:247-250 | read back line by line: the kept paragraphs, then one empty line and the cell texts when there are cells |
| Extraction.ExtractText | apps/plagiarism/services.py:56-80 | the method gives `ExtractedText(ext, pdf, docx)`: validation first for .pdf, the DOCX path for .docx, then `_clean_text` |
| Extraction.ExtractedTextClean | apps/plagiarism/services.py:60-74 | extracted text is already clean, and any other extension yields "" |
| Extraction.ValidatePdf | apps/plagiarism/services.py:22-54 | specification: validate_pdf's reason to refuse, or None; its meaning is `ValidatePdfAccepts` |
| Extraction.PdfOutcome | apps/plagiarism/services.py:82-196 | specification: what _extract_from_pdf returns or raises; proved in `PdfOutcomeAccepted`, `ValidatedPdfHasText` and the `Rewrap` lemmas |
| Extraction.DocxOutcome | apps/plagiarism/services.py:229-260 | specification: what _extract_from_docx returns or raises; proved in `DocxOutcomeAccepted`, `DocxTextLines` |
| Extraction.ExtractedText | apps/plagiarism/services.py:56-80 | specification: what extract_text returns or raises; proved in `ExtractedTextClean` |
| Matcher.IndexedFiles | apps/plagiarism/services.py:337 | exactly the files of status indexed |
| Matcher.OverlapBounds | apps/plagiarism/services.py:360-364 | the overlap is in [0, 100], and it is 100 exactly when every sentence token occurs in the file |
| Matcher.ScanFromFacts | apps/plagiarism/services.py:348-377 | a verbatim hit is the first readable file containing the sentence; otherwise the best score only rises, no readable file scores more, and the match is the first file to reach it |
| Matcher.LocalCheckFacts | apps/plagiarism/services.py:334-381 | the score is in [0, 100]; a match exists exactly when the score is positive and is an indexed readable file; a positive score is 100 or at least the threshold; a verbatim hit gives 100; a best score below 100 is attained by the match and bounds every file |
| Matcher.LocalExact | apps/plagiarism/services.py:357-358 | a scan ending in a verbatim hit meets the check_local specification |
| Matcher.LocalBest | apps/plagiarism/services.py:368-381 | a scan ending with a best score meets it too, and a best below the threshold collapses to (0, None) |
| Matcher.CheckLocal | apps/plagiarism/services.py:334-381 | the method gives `LocalCheck(c, sentence, threshold)` |
| Matcher.ScanFiles | apps/plagiarism/services.py:348-377 | the loop gives `ScanFrom` over the indexed files from (0, None) |
| Matcher.CheckGoogle | apps/plagiarism/services.py:325-332 | the score is 0 or 100; 100 exactly when the search succeeds with a result, the first of which is returned |
| Matcher.ScanFrom | apps/plagiarism/services.py:348-377 | specification: the file loop of check_local; its meaning is `ScanFromFacts` |
| Matcher.LocalCheck | apps/plagiarism/services.py:334-381 | specification: what check_local returns; its meaning is `LocalCheckFacts` |
| Checking.OrUnknown | apps/plagiarism/services.py:411-412 | `s or 'Unknown'` is never empty and keeps a non-empty s |
| Checking.Bump | apps/plagiarism/services.py:408-418 | counting a matched file adds at most one entry |
| Checking.BumpIds | apps/plagiarism/services.py:408-418 | the ids after counting are the old ids plus the file's id |
| Checking.BumpUnique | apps/plagiarism/services.py:408-416 | counting keeps one entry per repository id |
| Checking.BumpTotal | apps/plagiarism/services.py:418 | counting raises the total count by one |
| Checking.BumpPositive | apps/plagiarism/services.py:415-418 | every entry's count stays positive |
| Checking.CountForEntry | apps/plagiarism/services.py:408-418 | with distinct ids, the count recorded for an id is its entry's count, and 0 for an absent id |
| Checking.MetadataOf | apps/plagiarism/services.py:438-448 | repository metadata exactly when a file matched, URL metadata exactly when no file matched and a non-empty URL did |
| Checking.Percent | apps/plagiarism/services.py:456-460 | a percentage of at most n out of n lies in [0, 100] |
| Checking.PercentBound | apps/plagiarism/services.py:456-460 | ⌊100c/n⌋ lies in [0, 100] when c ≤ n |
| Checking.PercentMonotone | apps/plagiarism/services.py:456-460 | the percentage grows with the count |
| Checking.ProcessCheck | apps/plagiarism/services.py:383-472 | the method gives `CheckOutcome(ck, mode, text, tokenized)` |
| Checking.CheckSentences | apps/plagiarism/services.py:398-454 | the sentence loop gives the fold of `Step` over the sentences |
| Checking.CheckSentence | apps/plagiarism/services.py:399-450 | one pass of the loop is one `Step` |
| Checking.CheckSentenceLocal | apps/plagiarism/services.py:404-418 | the local half: check_local when the mode asks for it; the count rises on a hit, and the match is counted in the sources |
| Checking.CheckSentenceInternet | apps/plagiarism/services.py:420-425 | the internet half: skipped when the local score is 100; a hit raises the count and adds a new non-empty URL once |
| Checking.FoldResults | apps/plagiarism/services.py:427-450 | the results are exactly the sentences whose max(local, internet) reaches the threshold, in order, each well formed (source "Local Repository" iff local ≥ internet, metadata from the repo first) |
| Checking.StepResult | apps/plagiarism/services.py:427-450 | one sentence adds one well-formed result for itself when its score reaches the threshold, and none otherwise |
| Checking.FoldCounts | apps/plagiarism/services.py:406-429 | no more local or internet hits than results, and no more results than sentences |
| Checking.FoldSources | apps/plagiarism/services.py:408-418 | the local sources have distinct ids and positive counts, which add up to at most the local hits |
| Checking.FoldSourceCounts | apps/plagiarism/services.py:406-418 | each local source counts exactly the accepted sentences that matched its file, and a file has an entry exactly when one did |
| Checking.FoldUrls | apps/plagiarism/services.py:420-425 | the internet sources are duplicate-free and non-empty, each the first result of the search for one of the sentences |
| Checking.StepIgnoresSearch | apps/plagiarism/services.py:420 | a sentence with local score 100, or in "local" mode, never consults the search |
| Checking.LocalModeIgnoresSearch | apps/plagiarism/services.py:404-420 | in "local" mode the whole check is independent of the web search |
| Checking.CheckOutcomeFacts | apps/plagiarism/services.py:393-472 | an error exactly when there are no sentences; otherwise three percentages in [0, 100], the global one (from len(results)) at least the local and internet ones |
| Checking.Step | apps/plagiarism/services.py:399-450 | specification: one iteration of the sentence loop; proved in `StepResult`, `StepIgnoresSearch` |
| Checking.Fold | apps/plagiarism/services.py:398-454 | specification: the tally after the loop; its meaning is `FoldResults`, `FoldCounts`, `FoldSources`, `FoldSourceCounts`, `FoldUrls` |
| Checking.CheckOutcome | apps/plagiarism/services.py:383-472 | specification: what process_check returns or raises; its meaning is `CheckOutcomeFacts` |
| Report.CutSentence | apps/plagiarism/services.py:618 | a sentence of at most 80 characters is shown whole, a longer one as its first 80 characters and "..." |
| Report.RoundHalfEven | apps/plagiarism/services.py:620 | `f"{x:.0f}"` is within 0.5 of x, and halves round to even |
| Report.MetadataText | apps/plagiarism/services.py:609-615 | a URL match shows its first 50 characters and "...", no metadata shows "" |
| Report.SourceRows | apps/plagiarism/services.py:563-571 | one row per local source |
| Report.UrlLines | apps/plagiarism/services.py:593-595 | one line per URL |
| Report.DetailRows | apps/plagiarism/services.py:607-622 | one row per result |
| Report.GenerateReport | apps/plagiarism/services.py:474-656 | the story is `Story(...)`; the path is the output path when the build succeeds, else None |
| Report.CollectSourceRows | apps/plagiarism/services.py:563-571 | the loop gives `SourceRows` |
| Report.CollectUrlLines | apps/plagiarism/services.py:593-595 | the loop gives `UrlLines` |
| Report.CollectDetailRows | apps/plagiarism/services.py:607-622 | the loop gives `DetailRows` |
| Report.AnyStory | apps/plagiarism/services.py:523-646 | a kind of section is in the story exactly when it is in one of its six parts |
| Report.StoryEnds | apps/plagiarism/services.py:524-646 | the story opens with the title and ends with the legend |
| Report.FixedParts | apps/plagiarism/services.py:523-646 | the header, the page break and the legend hold no sources table, URL list, detail table or notice |
| Report.LocalTablePresence | apps/plagiarism/services.py:559-586 | the local-sources table appears exactly when there are local sources |
| Report.InternetListPresence | apps/plagiarism/services.py:589-597 | the internet list appears exactly when there are URLs |
| Report.DetailPresence | apps/plagiarism/services.py:606-639 | the detail table appears exactly when there are results, the "Tidak ada plagiarisme terdeteksi" notice exactly when there are none |
| Report.OnlyInDetail | apps/plagiarism/services.py:602-639 | the detail table and the notice come only from the detail section |
| Report.DetailSectionShows | apps/plagiarism/services.py:606-639 | the detail section shows the table for results and the notice otherwise |
| Report.SourceRowsAt | apps/plagiarism/services.py:564-571 | row i describes source i and is numbered i+1 |
| Report.UrlLinesAt | apps/plagiarism/services.py:593-594 | line i is "<i+1>. " and URL i in full |
| Report.DetailRowsAt | apps/plagiarism/services.py:608-622 | row i shows result i with its sentence cut to 80 characters |
| Report.Story | apps/plagiarism/services.py:523-646 | specification: the story's sections in order; proved in `AnyStory`, `StoryEnds` and the presence lemmas |
| Report.ReportOutcome | apps/plagiarism/services.py:648-656 | specification: the output path when the build succeeds, None when it raises |
| SourcesCodec.Encode | apps/history/models.py:66-73 | the stored text is never empty, so it is truthy |
| SourcesCodec.DecodeInternet | apps/history/models.py:53-73 | the internet half of the encoding decodes to its URLs |
| SourcesCodec.DecodeEncode | apps/history/models.py:53-73 | decoding the stored text gives the sources back |
| History.NewJob | apps/history/models.py:14-42 | a new record is pending, at progress 0, not deleted, with reason default "Auto-cleanup policy" |
| History.GetMatchedSources | apps/history/models.py:53-64 | an empty or absent field gives empty lists |
| History.SetMatchedSources | apps/history/models.py:66-73 | only the matched_sources field changes, and it is set |
| History.GetSetMatchedSources | apps/history/models.py:53-73 | reading back what was stored gives it back |
| History.Lookup | apps/history/models.py:14 | a found row is in the table with that id; none exactly when no row has the id |
| History.Replace | apps/history/models.py:14 | save() keeps the table's length |
| History.LookupReplace | apps/history/models.py:14 | after a save, j's id finds j and every other id finds what it found before |
| History.ReplaceTwice | apps/history/models.py:14 | a second save of the same row overrides the first |
| History.LookupAfterSave | apps/history/models.py:14 | a saved row stays found |
| History.ReplaceSame | apps/history/models.py:14 | saving an unchanged row leaves the table as it was |
| History.ReplaceKeepsIds | apps/history/models.py:14 | saving keeps ids unique |
| History.HistoryTable.Create | apps/history/models.py:14-48 | a row with a fresh id becomes the newest, and ids stay unique |
| History.HistoryTable.Get | apps/history/models.py:14 | objects.get gives `Lookup(jobs, id)` |
| History.HistoryTable.Save | apps/history/models.py:14 | the row with the saved id is replaced, and the write is logged |
| History.TouchKeepsCounts | apps/history/models.py:90-104 | get_or_create with default 0 never changes a count |
| History.Remaining | apps/history/models.py:101-105 | max(0, limit − count) is ≥ 0, is 0 or limit − count, and is ≥ limit − count |
| History.QuotaAgreement | apps/history/models.py:87-105 | check_quota holds exactly when at least one upload remains |
| History.QuotaTable.CheckQuota | apps/history/models.py:87-91 | only creates the row lazily; true exactly when today's count is below the limit |
| History.QuotaTable.IncrementQuota | apps/history/models.py:93-99 | today's count rises by exactly n, the new count is returned, other rows are unchanged |
| History.QuotaTable.RemainingQuota | apps/history/models.py:101-105 | only creates the row lazily; returns max(0, limit − count) |
| Storage.FileStore.Remove | apps/plagiarism/tasks.py:145-146 | os.remove deletes exactly that path |
| Worker.Passed | apps/plagiarism/tasks.py:39-122 | the number of leading stages that succeed: every one up to it passes, and the next fails |
| Worker.CheckpointSaves | apps/plagiarism/tasks.py:56-122 | the i-th checkpoint write is the row with only its progress set, to 10, 20, 80, 95 in turn |
| Worker.ProcessWorker | apps/plagiarism/tasks.py:22-184 | the writes are `WorkerSaves`; a missing record leaves the table alone; a found one ends as `FinalJob`, which is completed only when every stage passes and no local source was found; the upload is removed on every path that reaches it |
| Worker.StartRow | apps/plagiarism/tasks.py:25-184 | the found row is marked processing, then run through the stages, ending as `FinalJob`; the upload goes exactly as `Completes` or the failure handlers say |
| Worker.FailAt | apps/plagiarism/tasks.py:155-167 | a failing stage marks the row failed from the last checkpoint |
| Worker.RunStages | apps/plagiarism/tasks.py:39-184 | the stages after the start write the checkpoints and the final row, which is completed only under `Completes` |
| Worker.SaveResults | apps/plagiarism/tasks.py:124-181 | step 5 assigns the scores; with a local source json.dumps raises and the scored row is saved failed at 95 with the system-error message; otherwise it writes the sources, the report file and the completed status |
| Worker.RemoveUpload | apps/plagiarism/tasks.py:145-146 | the upload is removed after a completed run |
| Worker.CompletedLast | apps/plagiarism/tasks.py:121-142 | with every stage passed and no local source, the last write is the completed row from checkpoint 95 |
| Worker.EncodeFailedLast | apps/plagiarism/tasks.py:124-181 | with every stage passed and some local source, the last write is the scored row from checkpoint 95, failed with the encoding error |
| Worker.ExtractStage | apps/plagiarism/tasks.py:39-52 | extract_text with its exceptions turned into ValueErrors, and the empty-text check |
| Worker.TokenizeStage | apps/plagiarism/tasks.py:59-72 | tokenize and the no-sentence check |
| Worker.ReportStage | apps/plagiarism/tasks.py:98-117 | the reports directory and generate_pdf_report, a None report failing |
| Worker.Write | apps/plagiarism/tasks.py:29 | history.save() puts the latest version of the row in the table |
| Worker.Fail | apps/plagiarism/tasks.py:155-184 | the handlers mark the row failed, save it, and remove the upload |
| Worker.CleanUp | apps/plagiarism/tasks.py:166-184 | the upload is removed when it exists |
| Worker.WorkerSavesFacts | apps/plagiarism/tasks.py:26-142 | the first write is processing at progress 0 with started_at set; then one write per passed checkpoint with progress 10, 20, 80, 95; then the final row; progress never goes down, and the identity never changes |
| Worker.WorkerSavesLength | apps/plagiarism/tasks.py:26-181 | a found row is written Passed + 2 times |
| Worker.WorkerSaveAt | apps/plagiarism/tasks.py:26-181 | write i is the start, a checkpoint, or the final row |
| Worker.FinalJobCore | apps/plagiarism/tasks.py:126-181 | the final row keeps the identity and ends at 100 when the run completes, else at the last checkpoint reached (95 when only step 5 fails) |
| Worker.FinalJobFacts | apps/plagiarism/tasks.py:126-181 | completed exactly when `Completes` holds, and then with progress 100, the three scores, the stored sources and "reports/Report_<uuid>.pdf"; otherwise failed at the last checkpoint with the stopping cause's message and with sources and report file unchanged; a step-5 failure keeps the scores and carries the UUID TypeError; completed_at is always set |
| Worker.SystemErrorStops | apps/plagiarism/tasks.py:100-184 | the stops that get the "Terjadi kesalahan sistem: " prefix are exactly the reports directory in step 4 and the json.dumps TypeError in step 5 |
| Worker.LocalSourcesFailRun | apps/plagiarism/tasks.py:129-181 | as written, a run that passes every stage with a local source ends failed at 95 with "Object of type UUID is not JSON serializable" and without its sources or report file |
| Worker.IntendedFinalJobFacts | apps/plagiarism/tasks.py:124-142 | with string ids, a run completes exactly when every stage passes, with progress 100, the scores, the sources and the report file |
| Worker.IntendedAgrees | apps/plagiarism/tasks.py:124-142 | with no local source, the code as written and the intended one give the same row |
| Worker.StageFailure | apps/plagiarism/tasks.py:39-122 | specification: the exception stage 1 to 4 raises or lets through; `Passed` and `FinalStop` are built on it |
| Worker.SaveFailure | apps/plagiarism/tasks.py:129-136 | specification: json.dumps raises exactly when some local source, with its UUID id, is present |
| Worker.ErrorText | apps/plagiarism/tasks.py:41-184 | specification: the error_message of each stop, a ValueError's own text or the system-error prefix; its prefixes are proved in `SystemErrorStops` |
| Worker.CompletedJob | apps/plagiarism/tasks.py:124-142 | specification: the completed row of step 5; its fields are proved in `FinalJobFacts` |
| Worker.EncodeFailedJob | apps/plagiarism/tasks.py:125-181 | specification: the scored row failed by the TypeError handler; its fields are proved in `LocalSourcesFailRun` |
| Worker.FinalJob | apps/plagiarism/tasks.py:26-181 | specification: the last write of a found row; its meaning is `FinalJobFacts` |
| Worker.IntendedFinalJob | apps/plagiarism/tasks.py:124-142 | specification: the last write with `str` ids; its meaning is `IntendedFinalJobFacts` |
| Forms.ExpectedMime | apps/plagiarism/forms.py:105-110 | a MIME type is expected exactly for .pdf and .docx |
| Forms.FileCheck | apps/plagiarism/forms.py:93-116 | no error exactly for an acceptable file; an unsupported-format error exactly for a bad extension; a too-large error exactly for an allowed extension over 10 MiB |
| Forms.Present | apps/plagiarism/forms.py:86-91 | no more entries are kept than given |
| Forms.PresentEmpty | apps/plagiarism/forms.py:86-120 | nothing is kept exactly when every entry is falsy |
| Forms.PresentMembers | apps/plagiarism/forms.py:86-91 | every kept file is one of the entries |
| Forms.FirstFailureNone | apps/plagiarism/forms.py:86-116 | no error is raised exactly when every file passes |
| Forms.FailureSticks | apps/plagiarism/forms.py:86-116 | once a file fails, later files do not change the error |
| Forms.FirstFailureAt | apps/plagiarism/forms.py:86-116 | a raised error is the error of some file, and every file before it passed |
| Forms.CleanedFilesMeaning | apps/plagiarism/forms.py:75-120 | accepted exactly when every truthy entry passes; None exactly when every entry is falsy; otherwise the truthy entries in order; an error is the first failing file's |
| Forms.CleanDocumentFile | apps/plagiarism/forms.py:75-120 | the loop gives `CleanedFiles(files)` |
| Forms.ValidateEntry | apps/plagiarism/forms.py:88-118 | one pass: a falsy entry is skipped, a failing file raises, a passing one is appended |
| Forms.CheckFile | apps/plagiarism/forms.py:93-116 | the three checks in order give `FileCheck(file)` |
| Forms.RaisedAt | apps/plagiarism/forms.py:88-116 | the error raised by one entry is the whole field's error |
| Forms.CleanPastedText | apps/plagiarism/forms.py:122-137 | accepted exactly when empty or between 100 and 50000 characters once stripped, and then the stripped text; too short exactly for 0 < length < 100; too long exactly for > 50000 |
| Forms.CleanPastedTextIdempotent | apps/plagiarism/forms.py:122-137 | cleaning a cleaned text gives it back |
| Forms.CheckForm.Clean | apps/plagiarism/forms.py:139-156 | "file" needs files and clears the text; "text" needs text and clears the files; errors are added exactly when the chosen field is missing |
| Settings.Current | apps/plagiarism/models.py:22-36 | the existing row id 1, or the defaults threshold 75 and days 30 |
| Settings.SettingsTable.GetOrCreate | apps/plagiarism/models.py:24-32 | returns the current row and makes it exist |
| Settings.SettingsTable.GetThreshold | apps/plagiarism/models.py:22-28 | returns the current threshold and creates row 1 lazily |
| Settings.SettingsTable.GetAutoDeleteDays | apps/plagiarism/models.py:30-36 | returns the current retention and creates row 1 lazily |
| Settings.SettingsTable.Save | apps/plagiarism/models.py:38-40 | id is forced to 1, only one row remains, and both getters then give the saved values |
| Settings.SettingsTable.Delete | apps/plagiarism/models.py:42-43 | nothing changes |
| Settings.SaveThenRead | apps/plagiarism/models.py:24-40 | after a save, at most row 1 exists and reads give what was saved |
| Settings.ReadTwice | apps/plagiarism/models.py:22-36 | a second read gives what the first read made |
| Cleanup.MarkDeleted | apps/plagiarism/management/commands/cleanup_old_reports.py:37-40 | sets file_deleted, file_deleted_at and "Auto-cleanup after N days", and nothing else |
| Cleanup.SweepRows | apps/plagiarism/management/commands/cleanup_old_reports.py:27-46 | the loop keeps the number of records |
| Cleanup.SweepShape | apps/plagiarism/management/commands/cleanup_old_reports.py:21-46 | no file appears; every record is as it was or is a candidate that was marked |
| Cleanup.OnlyDeletionFields | apps/plagiarism/management/commands/cleanup_old_reports.py:37-40 | only the three deletion fields change, and the id never does |
| Cleanup.SweepCount | apps/plagiarism/management/commands/cleanup_old_reports.py:41-51 | the count equals the number of records marked |
| Cleanup.MarkedHadFile | apps/plagiarism/management/commands/cleanup_old_reports.py:18-43 | a record is marked only when it was a candidate (completed, not deleted, completed before the cutoff) whose report existed and was removed |
| Cleanup.SweepSettles | apps/plagiarism/management/commands/cleanup_old_reports.py:21-43 | afterwards no candidate with a removable report is left |
| Cleanup.SweepNoop | apps/plagiarism/management/commands/cleanup_old_reports.py:21-43 | with no removable candidate nothing changes and the count is 0 |
| Cleanup.SweepIdempotent | apps/plagiarism/management/commands/cleanup_old_reports.py:21-46 | a second run at the same instant marks nothing and removes nothing |
| Cleanup.Handle | apps/plagiarism/management/commands/cleanup_old_reports.py:11-51 | days ≤ 0 touches nothing and counts 0; otherwise the tables become `SweepRows` with cutoff now − days·86400 |
| Cleanup.VisitReport | apps/plagiarism/management/commands/cleanup_old_reports.py:28-46 | one pass over the i-th record keeps the loop in step with the sweep |
| Admission.KeepNameChars | apps/plagiarism/admin.py:352 | the filter never lengthens and keeps only word characters, whitespace, '-' and '.' |
| Admission.KeepNameCharsNoop | apps/plagiarism/admin.py:352 | a name of kept characters passes unchanged |
| Admission.SanitizeFilename | apps/plagiarism/admin.py:349-356 | a filtered basename of at most 200 characters is returned as is; a longer one is cut to at most 190 plus its extension |
| Admission.SanitizedChars | apps/plagiarism/admin.py:349-356 | the result holds only word characters, whitespace, '-' and '.', so it is a basename |
| Admission.SanitizeStable | apps/plagiarism/admin.py:349-356 | a sanitised name of at most 200 characters sanitises to itself |
| Admission.FileStatusDisplay | apps/plagiarism/admin.py:190-196 | "🗑️ File Dihapus" exactly when deleted; "✅ Tersedia" exactly when not deleted, completed and with a report; "⏳ Belum Ada" otherwise |
| Admission.DownloadableIsAvailable | apps/plagiarism/admin.py:384-389 | whatever the status feed offers for download is shown as available |
| Admission.CanDownload | apps/plagiarism/admin.py:384-389 | specification: check_status's can_download; proved in `DownloadableIsAvailable`, `DownloadMatchesStatus` |
| Admission.ActiveProcess | apps/plagiarism/admin.py:207-210 | none exactly when the user has no pending or processing job; a found job is the user's and is active |
| Admission.UserJobs | apps/plagiarism/admin.py:364-366 | no more rows than the table |
| Admission.UserJobsMembers | apps/plagiarism/admin.py:364-366 | exactly the table's rows that belong to the user |
| Admission.UserJobsNewestFirst | apps/plagiarism/admin.py:364-366 | a newest-first table gives a newest-first selection |
| Admission.Recent | apps/plagiarism/admin.py:364-366 | at most 5, the first min(5, n) of the user's rows |
| Admission.Describe | apps/plagiarism/admin.py:375-389 | the entry's id is the row's, and can_download is `CanDownload` |
| Admission.CheckStatus | apps/plagiarism/admin.py:358-392 | has_active exactly when the user has an active job; the remaining quota; one entry per recent job, in order, each the user's |
| Admission.AttachmentName | apps/plagiarism/admin.py:422 | "RESULT_", the stem of the checked file's name, ".pdf" |
| Admission.DownloadOutcome | apps/plagiarism/admin.py:394-434 | served only for a found row, with its path and attachment name; not found exactly for a missing or foreign row; already deleted exactly for a deleted own row |
| Admission.DownloadMatchesStatus | apps/plagiarism/admin.py:384-422 | a download succeeds exactly when the status feed offers it |
| Admission.MarkMissing | apps/plagiarism/admin.py:412-418 | set file_deleted, the time and 'File not found', and nothing else |
| Admission.MissingSticks | apps/plagiarism/admin.py:398-418 | after a missing report is marked, the next download reports the deletion with that time and reason |
| Admission.DownloadReport | apps/plagiarism/admin.py:394-434 | the answer is `DownloadOutcome`; only a missing report changes the table, by marking the row |
| Admission.ShownUrls | apps/plagiarism/admin.py:133 | the first min(15, n) URLs |
| Admission.UrlsAccounted | apps/plagiarism/admin.py:133-147 | every URL is shown or counted in "+ N", and the count is positive exactly when some are hidden |
| Admission.DisplayUrl | apps/plagiarism/admin.py:138 | at most 80; unchanged exactly when at most 80; otherwise the first 77 characters and "..." |
| Admission.KeptNames | apps/plagiarism/admin.py:246-279 | no more names than files |
| Admission.KeptNamesEmpty | apps/plagiarism/admin.py:246-311 | nothing is kept exactly when every file fails the extension, size or write step |
| Admission.KeptNamesClean | apps/plagiarism/admin.py:264 | every kept name is sanitised |
| Admission.AdmitWithinQuota | apps/plagiarism/admin.py:203-313 | an admitted submission makes between 1 and `remaining` records, so the count stays within the limit |
| Admission.AdmitAllOrNothing | apps/plagiarism/admin.py:238-244 | more files than remaining rejects the whole submission, before any filtering |
| Admission.AdmitFiles | apps/plagiarism/admin.py:231-311 | an admitted file submission creates the kept names, in order, all sanitised; within quota, it is admitted exactly when some file passes |
| Admission.AdmitText | apps/plagiarism/admin.py:281-307 | text is admitted exactly when a quota is left, its stripped length is at least 100 and its document is written, and it makes one "pasted_text.docx" record |
| Admission.NewJobs | apps/plagiarism/admin.py:315-322 | one record per name |
| Admission.Reversed | apps/plagiarism/admin.py:315-322 | keeps the number of records |
| Admission.InsertAll | apps/plagiarism/admin.py:315-322 | each record lands at the head of the table, and ids stay unique |
| Admission.CreateJobs | apps/plagiarism/admin.py:315-322 | creates `NewJobs`, pending at progress 0, ahead of the old rows |
| Admission.FilterUploads | apps/plagiarism/admin.py:246-279 | the loop gives `KeptNames(files)` |
| Admission.Collect | apps/plagiarism/admin.py:221-311 | the checks after the active-job test, in the source's order, give `Admit(false, ...)` |
| Admission.SubmitCheck | apps/plagiarism/admin.py:199-328 | an active job, an invalid form or any rejection changes no record and no count; an admission raises today's count by exactly the number of records and creates one pending record per kept name |
| Admission.Proceed | apps/plagiarism/admin.py:221-328 | from the form on, the tables follow the decision |
| Admission.AdmitBound | apps/plagiarism/admin.py:231-307 | an admission never names more records than the ids it may need |
| Admission.Admit | apps/plagiarism/admin.py:207-311 | specification: the view's decision, names to create or the rejection; proved in `AdmitWithinQuota`, `AdmitAllOrNothing`, `AdmitFiles`, `AdmitText`, `AdmitBound` |
| Repository.UploadPath | apps/repository/models.py:5-7 | "documents/<id>." and then a piece without '.' |
| Repository.UploadPathExtension | apps/repository/models.py:5-7 | that piece is the text after the name's last '.', or the whole name |
| Repository.SplitLast | apps/repository/models.py:6 | `split(c)[-1]` is the text after the last c |
| Repository.DropDots | apps/repository/models.py:45 | `replace('.', '')` leaves no '.' and never lengthens |
| Repository.Saved | apps/repository/models.py:39-46 | only the three derived fields can change, and a non-empty one never does |
| Repository.SavedDerivation | apps/repository/models.py:39-46 | empty fields become the file's basename, then its stem and its lower-case extension without the dot |
| Repository.NameParts | apps/repository/models.py:43-45 | stem + extension is the name, and the file type is the extension without its dot, lower-cased |
| Repository.ExtType | apps/repository/models.py:45 | the file type is empty for no extension, else the lower-cased rest after the dot |
| Repository.SavedIdempotent | apps/repository/models.py:39-46 | saving twice derives nothing new |
| Repository.PendingFiles | apps/repository/admin.py:74 | exactly the pending rows |
| Repository.PendingUnique | apps/repository/admin.py:74 | distinct rows give distinct pending rows |
| Repository.AsciiOnly | apps/repository/admin.py:98 | the filter never lengthens and keeps only characters below 128 |
| Repository.AsciiOnlyAppend | apps/repository/admin.py:98 | the filter works part by part, in order |
| Repository.AsciiOnlyKeeps | apps/repository/admin.py:98 | ASCII text passes unchanged |
| Repository.AsciiOnlyDrops | apps/repository/admin.py:98 | text without ASCII characters vanishes |
| Repository.AsciiOnlyIdempotent | apps/repository/admin.py:98 | filtering twice changes nothing more |
| Repository.AsciiOnlyLength | apps/repository/admin.py:98-108 | the length is the number of ASCII characters |
| Repository.IndexedRowFacts | apps/repository/admin.py:86-117 | one file ends indexed or failed with its id and metadata kept; indexed exactly when reading, writing and sizing succeed, and then with the text path, the ASCII length, the date and the size; failed with a message |
| Repository.IndexedRow | apps/repository/admin.py:86-117 | specification: the row one file's indexing saves; its meaning is `IndexedRowFacts` |
| Repository.AfterIndexing | apps/repository/admin.py:80-117 | keeps the number of rows |
| Repository.Reached | apps/repository/admin.py:80-84 | the loop reaches the files before the first set cancel flag |
| Repository.RepositoryTable.StartIndexing | apps/repository/admin.py:72-120 | no pending files gives only the notice; otherwise the reached pending rows are indexed, and a cancel is reported and reset |
| Repository.IndexStep | apps/repository/admin.py:86-117 | indexing one more pending row replaces exactly that row |
| Repository.AfterIndexingIds | apps/repository/admin.py:80-117 | indexing keeps every row's id |
| Repository.AfterIndexingFacts | apps/repository/admin.py:74-117 | rows that are not pending are untouched, a changed row is indexed or failed, and no row is added or removed |
| Text.Strip | apps/plagiarism/services.py:289 | `str.strip()` never lengthens |
| Text.StripFacts | apps/plagiarism/services.py:289 | the strip is the slice between the leading and trailing whitespace, empty exactly for all-whitespace text, and neither starts nor ends with whitespace |
| Text.StripIdempotent | apps/plagiarism/services.py:289 | stripping twice changes nothing more |
| Text.Split | apps/plagiarism/services.py:288 | `str.split(sep)` always gives at least one piece |
| Text.SplitJoin | apps/plagiarism/services.py:288-295 | splitting a join of separator-free pieces gives the pieces back |
| Text.IndexOf | apps/plagiarism/services.py:322 | the first occurrence of a character, or the length when there is none |
| Text.LastIndexOf | apps/repository/models.py:6 | the last occurrence of a character, or -1 |
| Text.Basename | apps/repository/models.py:41 | `os.path.basename` holds no '/' |
| Text.Ext | apps/repository/models.py:43-45 | `os.path.splitext(p)[1]` is empty, or a '.' followed by text without '.' and '/' |
| Text.StemExt | apps/repository/models.py:43-45 | `splitext`'s two halves put back together give the path |
| Text.Take | apps/plagiarism/admin.py:366 | `s[:n]` has length min(n, len(s)) and is a prefix of s |
| Text.NatToString | apps/plagiarism/services.py:566 | `str(n)` for a natural is a non-empty run of decimal digits |
| Text.NatToStringRoundTrip | apps/history/models.py:53-73 | reading the digits back gives n, which the stored sources' length prefixes rely on |
| Text.IntToString | apps/plagiarism/management/commands/cleanup_old_reports.py:40 | `str(i)` is the digits of |i|, after a '-' for a negative i |
| History.HistoryTable.constructor | apps/history/models.py:14 | an empty table is well formed |
| History.QuotaTable.constructor | apps/history/models.py:76-79 | an empty quota table |
| Settings.SettingsTable.constructor | apps/plagiarism/models.py:4-11 | no settings row yet |
| Storage.FileStore.constructor | apps/plagiarism/tasks.py:145 | the store starts with the given files |
| Forms.CheckForm.constructor | apps/plagiarism/forms.py:139-156 | a form with its inputs and no errors |
| Repository.RepositoryTable.constructor | apps/repository/models.py:10-46 | a table over the given rows |

## Left out

- Third-party libraries are inputs, not code. This covers PyMuPDF, python-docx, NLTK's `sent_tokenize`/`word_tokenize`, googlesearch and reportlab. Page texts, block and dict structures, paragraph and table texts, token sets, search results and the report build's success all come in as values or functions.
- The thread started by `PlagiarismTask.process_document` is not modelled. The worker is one sequential run, and `process_document` is not called from `SubmitCheck`.
- Floating point is not modelled. Overlap scores are exact `real`s, and percentages are ⌊100·c/n⌋. Python's `int((c/n)*100)` can fall one below that, as in `int(0.29*100) == 28`.
- Database atomicity and races between `get_or_create` and the increment are not modelled. The code holds no lock.
- JSON is not modelled. `matched_sources` is stored with a length-prefixed encoding that has a proved round trip, and JSON's own syntax is out of scope. An unparsable field is modelled only as a failed decode. The one json.dumps failure the code meets, on the UUID ids of local sources, is modelled (see Findings).
- Extraction.ValidatedPdfHasText: holds only when the first page's `get_images()` succeeds. When it raises, the page handler drops that page's text, and a validated PDF can fail as textless (`ValidatedPdfImagesRaise`).
- Storage: the generated PDF report is not a file of the store. So the model does not show that a run failing in step 5 leaves its report on disk.
- `matched_sources_display`, `generate_pdf_report` and the templates build HTML and layout, which is not modelled. The exceptions are the cut rules: 15 URLs, 80/77 characters for URLs, 80 characters for sentences. reportlab exceptions raised while the story is appended are folded into the build's failure.
- Timestamps and dates are inputs (`now`, `today`, `startTime`, `endTime`). `strftime` formatting is not modelled.
- The filesystem is a set of paths. `os.path.exists` is membership and `os.remove` is removal. A removal that raises is a set of failing paths in the cleanup command. Directory creation is an outcome input, and MEDIA_ROOT path joining is not modelled beyond the report path string.
- Logging, `print`, `messages.*`, redirects and rendering are not modelled. Rejections are values of the `Rejection` datatype instead.
- `.lower()` folds ASCII letters only. Python's `\w` in `_sanitize_filename` is taken as ASCII letters, digits and '_'; non-ASCII word characters are dropped in the model.
- The internet source set is an insertion-ordered, duplicate-free sequence. Python's set order is unspecified.
- Query results come in table order. The order `order_by('-check_date')` needs is stated as a precondition (`NewestFirst`) where it matters. The order of `filter(status='indexed')` and `filter(status='pending')` is the table order.
- The cancel flag of the indexing loop is an input function of the loop position. The session itself is not modelled.
- The `is_valid()` result of the check form is an input of `SubmitCheck`. Its parts are modelled separately in `Forms`.
- The temporary copies of uploads are inputs. Their uuid-based paths are not modelled: each upload's write succeeds or fails (`Incoming.stored`, `TextInput.stored`), and the document built from pasted text is not modelled.
- The uuid4 values for new records are inputs (`ids`). They are required to be fresh and distinct.
- Forms.CleanDocumentFile: an empty list and `None` are both falsy in the source, and the model returns `Ok(None)` for both.
- Forms.CheckForm.Clean: the form machinery that calls `clean_*` and collects field errors is not modelled. The field errors are a sequence on the form.
- History.Replace: `save()` of a row whose id is absent leaves the table unchanged. Django would insert it instead, but no caller saves an unknown row.
- CharField `max_length` limits, `updated_at` of the settings row and the `user.upload_limit` lookup are not modelled; the limit is a parameter.
- Several parts of `_process_worker` are not modelled. `datetime` arithmetic for the duration print is one. Another is `traceback`. The uuid in the report file name is an input.
- The outer `try/except Exception` of `plagiarism_check_view` is not modelled. It catches errors from `os.makedirs` and from record creation; the model has no failure there.

## Findings

| source | as written | input that shows it | evidently intended | confidence | as-written member | corrected member |
|---|---|---|---|---|---|---|
| apps/plagiarism/tasks.py:130-136 | each local source carries `'id': matched_repo.id` (apps/plagiarism/services.py:409-410), a `uuid.UUID` (the primary key of `RepositoryFile`, apps/repository/models.py:16), and `json.dumps` raises TypeError on it; the run ends failed at progress 95 | any document with one sentence whose local match reaches the threshold, all stages succeeding | the ids stored as strings, so the run completes with its sources and report | high, not executed | Worker.LocalSourcesFailRun | Worker.IntendedFinalJobFacts |

`ProcessWorker` and its stages follow the code as written. `IntendedFinalJob` is the last write with `str` ids, and `IntendedAgrees` shows that the two coincide whenever no local source is found.
