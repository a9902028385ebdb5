/** What PyMuPDF hands back for one PDF page, and the fallback chain of
    PlagiarismService._extract_from_pdf that turns it into the page's text: plain text,
    then text blocks, then the text dictionary (_extract_from_dict), then HTML with its
    tags removed. Every PyMuPDF call is an outcome given as data; Err carries the message
    of the exception the call raised. */
module PdfPage {
  import opened Wrappers
  import opened Text
  import opened Normalize

  /** A page text too weak to use: empty, or under 20 characters once stripped. */
  predicate Weak(t: string) {
    |Strip(t)| < 20
  }

  /** A tuple of page.get_text("blocks"): its length, its text (index 4) and its kind (index 6). */
  datatype Block = Block(arity: nat, text: string, kind: int)

  /** Kept by the blocks method: a text block (kind 0, tuple long enough) with non-blank text. */
  predicate IsTextBlock(b: Block) {
    b.arity > 6 && b.kind == 0 && Strip(b.text) != []
  }

  /** The texts of the kept blocks, in order. */
  function TextBlocks(bs: seq<Block>): (r: seq<string>)
    ensures |r| <= |bs|
  {
    if bs == [] then []
    else (if IsTextBlock(bs[0]) then [bs[0].text] else []) + TextBlocks(bs[1..])
  }

  /** A string is among the kept block texts exactly when some text block carries it. */
  lemma {:induction false} TextBlocksMembers(bs: seq<Block>, x: string)
    ensures x in TextBlocks(bs) <==> exists i :: 0 <= i < |bs| && IsTextBlock(bs[i]) && bs[i].text == x
  {
    if bs != [] {
      var rest := bs[1..];
      TextBlocksMembers(rest, x);
      assert TextBlocks(bs) == (if IsTextBlock(bs[0]) then [bs[0].text] else []) + TextBlocks(rest);
      CarrierShift(bs, rest, x);
    }
  }

  /** Some block of bs carries x exactly when the first does or some block of the rest does. */
  lemma CarrierShift(bs: seq<Block>, rest: seq<Block>, x: string)
    requires bs != [] && rest == bs[1..]
    ensures (exists i :: 0 <= i < |bs| && IsTextBlock(bs[i]) && bs[i].text == x) <==>
      (IsTextBlock(bs[0]) && bs[0].text == x) ||
      (exists i :: 0 <= i < |rest| && IsTextBlock(rest[i]) && rest[i].text == x)
  {
    if exists i :: 0 <= i < |rest| && IsTextBlock(rest[i]) && rest[i].text == x {
      var i :| 0 <= i < |rest| && IsTextBlock(rest[i]) && rest[i].text == x;
      assert bs[i + 1] == rest[i];
    }
    forall i | 1 <= i < |bs| && IsTextBlock(bs[i]) && bs[i].text == x
      ensures exists j :: 0 <= j < |rest| && IsTextBlock(rest[j]) && rest[j].text == x
    {
      assert rest[i - 1] == bs[i];
    }
  }

  // ----- page.get_text("dict"): optional keys become Option fields -----

  datatype Span = Span(text: Option<string>)
  datatype Line = Line(spans: Option<seq<Span>>)
  datatype DictBlock = DictBlock(kind: Option<int>, lines: Option<seq<Line>>)
  datatype TextDict = TextDict(blocks: Option<seq<DictBlock>>)

  /** span.get("text", ""). */
  function SpanText(sp: Span): string {
    match sp.text
    case None => ""
    case Some(t) => t
  }

  /** The non-blank span texts of a line, in order. */
  function NonBlankSpans(spans: seq<Span>): (r: seq<string>)
    ensures |r| <= |spans|
  {
    if spans == [] then [] else Kept(spans[0]) + NonBlankSpans(spans[1..])
  }

  /** A span's text when it is not blank. */
  function Kept(span: Span): (r: seq<string>)
    ensures r == [] || r == [SpanText(span)]
  {
    if Strip(SpanText(span)) != [] then [SpanText(span)] else []
  }

  /** Only non-blank texts are kept. */
  lemma {:induction false} NonBlankSpansNonBlank(spans: seq<Span>)
    ensures forall i :: 0 <= i < |NonBlankSpans(spans)| ==> Strip(NonBlankSpans(spans)[i]) != []
  {
    if spans != [] {
      NonBlankSpansNonBlank(spans[1..]);
    }
  }

  /** The text of a line: its non-blank spans joined by single spaces. */
  function LineText(spans: seq<Span>): string {
    Join(" ", NonBlankSpans(spans))
  }

  /** What one line gives: its stripped text, unless that is blank or the line has no spans. */
  function LineContribution(line: Line): seq<string> {
    match line.spans
    case None => []
    case Some(spans) => if Strip(LineText(spans)) != [] then [Strip(LineText(spans))] else []
  }

  /** The stripped non-blank line texts of a list of lines. */
  function LineTexts(lines: seq<Line>): seq<string> {
    if lines == [] then [] else LineContribution(lines[0]) + LineTexts(lines[1..])
  }

  /** What one block gives: the line texts of a text block (type 0), nothing otherwise. */
  function BlockContribution(block: DictBlock): seq<string> {
    if block.kind != Some(0) then []
    else match block.lines
      case None => []
      case Some(lines) => LineTexts(lines)
  }

  /** The stripped non-blank line texts of the text blocks, in order. */
  function DictLines(blocks: seq<DictBlock>): seq<string> {
    if blocks == [] then [] else BlockContribution(blocks[0]) + DictLines(blocks[1..])
  }

  /** Each string followed by "\n". */
  function Terminated(ls: seq<string>): string {
    if ls == [] then "" else ls[0] + "\n" + Terminated(ls[1..])
  }

  /** What _extract_from_dict returns: the lines, each ended by a newline, after
      re.sub(r'\n\s*\n', '\n\n', ...). */
  function DictText(d: TextDict): string {
    match d.blocks
    case None => ""
    case Some(blocks) => CollapseBlank(Terminated(DictLines(blocks)), 2)
  }

  lemma {:induction false} TerminatedAppend(a: seq<string>, b: seq<string>)
    ensures Terminated(a + b) == Terminated(a) + Terminated(b)
  {
    if a == [] {
      assert a + b == b;
    } else {
      assert (a + b)[1..] == a[1..] + b;
      TerminatedAppend(a[1..], b);
    }
  }

  lemma {:induction false} LineTextsAppend(a: seq<Line>, b: seq<Line>)
    ensures LineTexts(a + b) == LineTexts(a) + LineTexts(b)
  {
    if a == [] {
      assert a + b == b;
    } else {
      assert (a + b)[1..] == a[1..] + b;
      LineTextsAppend(a[1..], b);
    }
  }

  lemma {:induction false} DictLinesAppend(a: seq<DictBlock>, b: seq<DictBlock>)
    ensures DictLines(a + b) == DictLines(a) + DictLines(b)
  {
    if a == [] {
      assert a + b == b;
    } else {
      assert (a + b)[1..] == a[1..] + b;
      DictLinesAppend(a[1..], b);
    }
  }

  lemma {:induction false} NonBlankSpansAppend(a: seq<Span>, b: seq<Span>)
    ensures NonBlankSpans(a + b) == NonBlankSpans(a) + NonBlankSpans(b)
  {
    if a == [] {
      assert a + b == b;
    } else {
      NonBlankSpansAppend(a[1..], b);
      ConsSlices(a, b);
      NonBlankSpansCons(a + b, a[0], a[1..] + b);
      NonBlankSpansCons(a, a[0], a[1..]);
      ConcatAssoc(NonBlankSpans(a + b), NonBlankSpans(a), Kept(a[0]), NonBlankSpans(a[1..]), NonBlankSpans(b),
                  NonBlankSpans(a[1..] + b));
    }
  }

  lemma ConsSlices(a: seq<Span>, b: seq<Span>)
    requires a != []
    ensures (a + b)[0] == a[0] && (a + b)[1..] == a[1..] + b
  {
  }

  lemma NonBlankSpansCons(s: seq<Span>, x: Span, rest: seq<Span>)
    requires |s| > 0 && s[0] == x && s[1..] == rest
    ensures NonBlankSpans(s) == Kept(x) + NonBlankSpans(rest)
  {
  }

  lemma NonBlankSpansSnoc(spans: seq<Span>, i: nat)
    requires i < |spans|
    ensures NonBlankSpans(spans[..i + 1]) == NonBlankSpans(spans[..i]) + Kept(spans[i])
  {
    assert spans[..i + 1] == spans[..i] + [spans[i]];
    NonBlankSpansAppend(spans[..i], [spans[i]]);
    NonBlankSpansCons([spans[i]], spans[i], []);
  }

  /** The line text of a line's spans, computed as the list comprehension does. */
  method JoinSpans(spans: seq<Span>) returns (lineText: string)
    ensures lineText == LineText(spans)
  {
    var kept: seq<string> := [];
    for i := 0 to |spans|
      invariant kept == NonBlankSpans(spans[..i])
    {
      NonBlankSpansSnoc(spans, i);
      var t := SpanText(spans[i]);
      if Strip(t) != [] {
        kept := kept + [t];
      }
    }
    assert spans[..|spans|] == spans;
    lineText := Join(" ", kept);
  }

  lemma LineTextsSnoc(lines: seq<Line>, l: nat)
    requires l < |lines|
    ensures LineTexts(lines[..l + 1]) == LineTexts(lines[..l]) + LineContribution(lines[l])
  {
    assert lines[..l + 1] == lines[..l] + [lines[l]];
    LineTextsAppend(lines[..l], [lines[l]]);
    assert LineTexts([lines[l]]) == LineContribution(lines[l]) + LineTexts([]);
  }

  lemma DictLinesSnoc(blocks: seq<DictBlock>, b: nat)
    requires b < |blocks|
    ensures DictLines(blocks[..b + 1]) == DictLines(blocks[..b]) + BlockContribution(blocks[b])
  {
    assert blocks[..b + 1] == blocks[..b] + [blocks[b]];
    DictLinesAppend(blocks[..b], [blocks[b]]);
    assert DictLines([blocks[b]]) == BlockContribution(blocks[b]) + DictLines([]);
  }

  /** The text one line adds: its stripped text and a newline, or nothing. */
  method ReadLine(line: Line) returns (piece: string)
    ensures piece == Terminated(LineContribution(line))
  {
    piece := "";
    if line.spans.Some? {
      var lineText := JoinSpans(line.spans.value);
      if Strip(lineText) != [] {
        piece := Strip(lineText) + "\n";
      }
    }
  }

  /** The text one block contributes: each non-blank line, stripped and ended by "\n". */
  method ReadLines(lines: seq<Line>) returns (chunk: string)
    ensures chunk == Terminated(LineTexts(lines))
  {
    chunk := "";
    for l := 0 to |lines|
      invariant chunk == Terminated(LineTexts(lines[..l]))
    {
      LineTextsSnoc(lines, l);
      TerminatedAppend(LineTexts(lines[..l]), LineContribution(lines[l]));
      var piece := ReadLine(lines[l]);
      chunk := chunk + piece;
    }
    assert lines[..|lines|] == lines;
  }

  /** PlagiarismService._extract_from_dict. */
  method ExtractFromDict(d: TextDict) returns (text: string)
    ensures text == DictText(d)
  {
    text := "";
    if d.blocks.Some? {
      var blocks := d.blocks.value;
      for b := 0 to |blocks|
        invariant text == Terminated(DictLines(blocks[..b]))
      {
        DictLinesSnoc(blocks, b);
        TerminatedAppend(DictLines(blocks[..b]), BlockContribution(blocks[b]));
        if blocks[b].kind == Some(0) && blocks[b].lines.Some? {
          var chunk := ReadLines(blocks[b].lines.value);
          text := text + chunk;
        }
      }
      assert blocks[..|blocks|] == blocks;
      text := CollapseBlank(text, 2);
    }
  }

  /** Separate stripped lines, each ended by a newline, read back as exactly those lines. */
  lemma {:induction false} LinesOfTerminated(ls: seq<string>)
    requires forall i :: 0 <= i < |ls| ==> ls[i] != [] && Strip(ls[i]) == ls[i] && '\n' !in ls[i]
    ensures LinesOf(Terminated(ls)) == ls
  {
    if ls == [] {
      assert Split("", '\n') == [""];
      StripFacts("");
    } else {
      var h, t := ls[0], ls[1..];
      LinesOfTerminated(t);
      LinesOfAppend(h, Terminated(t));
      LinesOfLine(h);
      LinesConcat(LinesOf(Terminated(ls)), LinesOf(h), LinesOf(Terminated(t)), h, t, ls);
    }
  }

  /** One stripped line without a newline reads back as itself. */
  lemma LinesOfLine(h: string)
    requires h != [] && Strip(h) == h && '\n' !in h
    ensures LinesOf(h) == [h]
  {
    SplitPiece(h, '\n');
    KeptLinesCons([h], h, []);
  }

  lemma LinesConcat(x: seq<string>, a: seq<string>, b: seq<string>, h: string, t: seq<string>, ls: seq<string>)
    requires x == a + b && a == [h] && b == t && |ls| > 0 && h == ls[0] && t == ls[1..]
    ensures x == ls
  {
  }

  lemma {:induction false} LineTextsStripped(lines: seq<Line>)
    ensures forall i :: 0 <= i < |LineTexts(lines)| ==>
      LineTexts(lines)[i] != [] && Strip(LineTexts(lines)[i]) == LineTexts(lines)[i]
  {
    if lines != [] {
      LineTextsStripped(lines[1..]);
      match lines[0].spans {
        case None =>
        case Some(spans) => StripIdempotent(LineText(spans));
      }
      assert LineTexts(lines) == LineContribution(lines[0]) + LineTexts(lines[1..]);
    }
  }

  lemma {:induction false} DictLinesStripped(blocks: seq<DictBlock>)
    ensures forall i :: 0 <= i < |DictLines(blocks)| ==>
      DictLines(blocks)[i] != [] && Strip(DictLines(blocks)[i]) == DictLines(blocks)[i]
  {
    if blocks != [] {
      DictLinesStripped(blocks[1..]);
      if blocks[0].kind == Some(0) && blocks[0].lines.Some? {
        LineTextsStripped(blocks[0].lines.value);
      }
    }
  }

  /** The text-dictionary method yields the stripped non-blank lines of the text blocks and
      nothing else: when no line has a newline inside, they are exactly its lines. */
  lemma DictTextLines(d: TextDict)
    requires d.blocks.Some?
    requires forall i :: 0 <= i < |DictLines(d.blocks.value)| ==> '\n' !in DictLines(d.blocks.value)[i]
    ensures LinesOf(DictText(d)) == DictLines(d.blocks.value)
  {
    var ls := DictLines(d.blocks.value);
    DictLinesStripped(d.blocks.value);
    CollapseBlankKeepsLines(Terminated(ls), 2);
    LinesOfTerminated(ls);
  }

  // ----- page.get_text("html") with its tags removed -----

  /** s starts with "<img", letters in either case. */
  predicate OpensImg(s: string) {
    |s| >= 4 && s[0] == '<' && LowerChar(s[1]) == 'i' && LowerChar(s[2]) == 'm' && LowerChar(s[3]) == 'g'
  }

  /** Where a match of <img[^>]*> (ASCII case-insensitive) at the start of s ends: the
      index of its closing '>', or |s| when there is no match there. */
  function ImgTagEnd(s: string): (k: nat)
    ensures k <= |s|
    ensures k < |s| ==> 4 <= k && s[k] == '>'
  {
    if OpensImg(s) && 4 + IndexOf(s[4..], '>') < |s|
    then 4 + IndexOf(s[4..], '>') else |s|
  }

  /** re.sub(r'<img[^>]*>', '', s, flags=re.IGNORECASE). */
  function RemoveImgTags(s: string): (r: string)
    ensures |r| <= |s|
    decreases |s|
  {
    if s == [] then []
    else if ImgTagEnd(s) < |s| then RemoveImgTags(s[ImgTagEnd(s) + 1..])
    else [s[0]] + RemoveImgTags(s[1..])
  }

  /** Where a match of <[^<]+?> at the start of s ends: the first '>' at index 2 or later
      with no '<' between it and the opening '<'; |s| when there is none. */
  function TagEnd(s: string): (k: nat)
    ensures k <= |s|
    ensures k < |s| ==> 2 <= k && s[0] == '<' && s[k] == '>' && '<' !in s[1..k] && '>' !in s[2..k]
  {
    if |s| >= 3 && s[0] == '<' && 2 + IndexOf(s[2..], '>') < |s| && '<' !in s[1..2 + IndexOf(s[2..], '>')]
    then 2 + IndexOf(s[2..], '>') else |s|
  }

  /** re.sub('<[^<]+?>', '', s). */
  function RemoveTags(s: string): (r: string)
    ensures |r| <= |s|
    decreases |s|
  {
    if s == [] then []
    else if TagEnd(s) < |s| then RemoveTags(s[TagEnd(s) + 1..])
    else [s[0]] + RemoveTags(s[1..])
  }

  /** Text without '<' holds no tag: in front of any other text it passes through both
      substitutions unchanged. */
  lemma {:induction false} TagFreePrefix(a: string, b: string)
    requires '<' !in a
    ensures RemoveTags(a + b) == a + RemoveTags(b)
  {
    if a != [] {
      assert (a + b)[1..] == a[1..] + b;
      TagFreePrefix(a[1..], b);
      assert (a + b)[0] == a[0];
    } else {
      assert a + b == b;
    }
  }

  lemma {:induction false} ImgTagFreePrefix(a: string, b: string)
    requires '<' !in a
    ensures RemoveImgTags(a + b) == a + RemoveImgTags(b)
  {
    if a != [] {
      ImgTagFreePrefix(a[1..], b);
      ConsSplit(a, b);
      PlainHead(a + b, a[0], a[1..] + b);
      ConsJoin(a, RemoveImgTags(b), RemoveImgTags(a[1..] + b), RemoveImgTags(a + b));
    } else {
      assert a + b == b;
    }
  }

  /** A first character other than '<' is kept. */
  lemma PlainHead(s: string, x: char, rest: string)
    requires s != [] && s[0] == x && x != '<' && s[1..] == rest
    ensures RemoveImgTags(s) == [x] + RemoveImgTags(rest)
  {
  }

  /** A whole tag is removed: "<" + m + ">" vanishes when m is non-empty, has no '<' and no
      '>' after its first character. */
  lemma TagRemoved(m: string, rest: string)
    requires m != [] && '<' !in m && '>' !in m[1..]
    ensures RemoveTags("<" + m + ">" + rest) == RemoveTags(rest)
  {
    var s := "<" + m + ">" + rest;
    assert s[1..|m| + 1] == m;
    assert s[2..] == m[1..] + ">" + rest;
    IndexOfAppend(m[1..], ">" + rest, '>');
    assert m[1..] + ">" + rest == m[1..] + (">" + rest);
    assert IndexOf(m[1..], '>') == |m[1..]|;
    assert TagEnd(s) == |m| + 1;
    assert s[|m| + 2..] == rest;
  }

  // ----- one page -----

  /** One PDF page as PyMuPDF reports it: the outcome of get_images() (the image count)
      and of get_text for "text", "blocks", "dict" and "html". */
  datatype Page = Page(
    images: Result<nat, string>,
    text: Result<string, string>,
    blocks: Result<seq<Block>, string>,
    dict: Result<TextDict, string>,
    html: Result<string, string>)

  /** The images the page adds to the running total (none if get_images() raised). */
  function PageImages(p: Page): nat {
    match p.images
    case Ok(n) => n
    case Err(_) => 0
  }

  /** The text the fallback chain settles on for a page, or None when a call it needs raised
      (the page is then skipped). Later methods are only consulted while the text is weak. */
  function PageText(p: Page): Option<string> {
    if p.images.Err? || p.text.Err? then None
    else if !Weak(p.text.value) then Some(p.text.value)
    else if p.blocks.Err? then None
    else
      var fromBlocks := Join("\n", TextBlocks(p.blocks.value));
      if !Weak(fromBlocks) then Some(fromBlocks)
      else if p.dict.Err? then None
      else
        var fromDict := DictText(p.dict.value);
        if !Weak(fromDict) then Some(fromDict)
        else if p.html.Err? then None
        else Some(RemoveTags(RemoveImgTags(p.html.value)))
  }

  /** The chain keeps the first method that is not weak; the page text is weak only when
      every method consulted was. */
  lemma PageTextChoice(p: Page)
    requires PageText(p).Some?
    ensures var t := PageText(p).value;
      && (t == p.text.value ||
          (Weak(p.text.value) && p.blocks.Ok? && t == Join("\n", TextBlocks(p.blocks.value))) ||
          (Weak(p.text.value) && p.blocks.Ok? && Weak(Join("\n", TextBlocks(p.blocks.value))) &&
           p.dict.Ok? && t == DictText(p.dict.value)) ||
          (Weak(p.text.value) && p.blocks.Ok? && Weak(Join("\n", TextBlocks(p.blocks.value))) &&
           p.dict.Ok? && Weak(DictText(p.dict.value)) && p.html.Ok? &&
           t == RemoveTags(RemoveImgTags(p.html.value))))
      && (!Weak(p.text.value) ==> t == p.text.value)
      && (!Weak(t) || p.html.Ok?)
  {
  }

  /** The page's text method computed as the loop body does, for one page. */
  method ReadPage(p: Page) returns (pageText: Option<string>)
    ensures pageText == PageText(p)
  {
    if p.images.Err? || p.text.Err? {
      return None;
    }
    var t := p.text.value;
    if |t| == 0 || |Strip(t)| < 20 {
      if p.blocks.Err? {
        return None;
      }
      t := Join("\n", TextBlocks(p.blocks.value));
    }
    if |t| == 0 || |Strip(t)| < 20 {
      if p.dict.Err? {
        return None;
      }
      t := ExtractFromDict(p.dict.value);
    }
    if |t| == 0 || |Strip(t)| < 20 {
      if p.html.Err? {
        return None;
      }
      t := RemoveTags(RemoveImgTags(p.html.value));
    }
    pageText := Some(t);
  }
}
