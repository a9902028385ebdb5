/** Text normalisation (PlagiarismService._clean_text) and the blank-line collapsing
    regular expressions shared with the PDF dict extraction. */
module Normalize {
  import opened Text

  /** The allow-list: ASCII letters, digits and the characters  .,!?;:\n\r\t()-"'/ */
  predicate Allowed(c: char) {
    ('a' <= c <= 'z') || ('A' <= c <= 'Z') || ('0' <= c <= '9') ||
    c in " .,!?;:\n\r\t()-\"'/"
  }

  /** A character survives the first pass when it is allowed or lies outside ASCII. */
  predicate Kept(c: char) {
    Allowed(c) || c as int > 127
  }

  function ReplaceChar(c: char): char {
    if Kept(c) then c else ' '
  }

  predicate IsHSpace(c: char) {
    c == ' ' || c == '\t'
  }

  /** The properties a finished line enjoys that survive taking slices. */
  predicate Tidy(s: string) {
    && (forall i :: 0 <= i < |s| ==> Kept(s[i]) && s[i] != '\t')
    && (forall i :: 0 <= i < |s| - 1 ==> !(IsHSpace(s[i]) && IsHSpace(s[i + 1])))
  }

  /** Length of the run of spaces and tabs that starts t. */
  function HSpaceRun(t: string): (n: nat)
    ensures n <= |t|
    ensures t != [] && IsHSpace(t[0]) ==> n >= 1
    ensures n < |t| ==> !IsHSpace(t[n])
  {
    if |t| == 0 || !IsHSpace(t[0]) then 0 else 1 + HSpaceRun(t[1..])
  }

  /** re.sub(r'[ \t]+', ' ', t): every run of spaces and tabs becomes one space. */
  function CollapseHSpace(t: string): (r: string)
    ensures |r| == 0 <==> |t| == 0
    ensures t != [] ==> (IsHSpace(r[0]) <==> IsHSpace(t[0]))
    decreases |t|
  {
    if t == [] then []
    else if IsHSpace(t[0]) then [' '] + CollapseHSpace(t[HSpaceRun(t)..])
    else [t[0]] + CollapseHSpace(t[1..])
  }

  /** After the character filter, collapsing leaves no tab and no two adjacent spaces. */
  lemma {:induction false} CollapseHSpaceTidies(t: string)
    requires forall i :: 0 <= i < |t| ==> Kept(t[i])
    ensures Tidy(CollapseHSpace(t))
    decreases |t|
  {
    if t != [] {
      var k := if IsHSpace(t[0]) then HSpaceRun(t) else 1;
      var rest := t[k..];
      assert forall i :: 0 <= i < |rest| ==> rest[i] == t[k + i];
      CollapseHSpaceTidies(rest);
      var head := if IsHSpace(t[0]) then " " else [t[0]];
      TidyConcat(head, CollapseHSpace(rest));
      assert CollapseHSpace(t) == head + CollapseHSpace(rest);
    }
  }

  function CountOf(s: string, c: char): nat {
    if s == [] then 0 else (if s[0] == c then 1 else 0) + CountOf(s[1..], c)
  }

  lemma CountOfLast(s: string, c: char)
    requires CountOf(s, c) > 0
    ensures LastIndexOf(s, c) >= 0
  {
    LastIndexOfAfter(s, c);
    if LastIndexOf(s, c) < 0 {
      CountOfNone(s, c);
    }
  }

  lemma {:induction false} CountOfNone(s: string, c: char)
    requires forall i :: 0 <= i < |s| ==> s[i] != c
    ensures CountOf(s, c) == 0
  {
    if s != [] {
      CountOfNone(s[1..], c);
    }
  }

  /** Whether a Python regex for blank-line runs matches at the start of t:
      `\n\s*\n` when k == 2, `\n\s*\n\s*\n+` when k == 3. Such a match begins at a
      newline and exists iff the whitespace run there holds at least k newlines; being
      greedy, it ends just after the last newline of that run. */
  predicate RunMatches(t: string, k: nat) {
    t != [] && t[0] == '\n' && CountOf(t[..LeadingSpaces(t)], '\n') >= k
  }

  /** re.sub of that regex by "\n\n", scanning left to right. */
  function CollapseBlank(t: string, k: nat): string
    decreases |t|
  {
    if t == [] then []
    else if RunMatches(t, k) then
      var w := t[..LeadingSpaces(t)];
      CountOfLast(w, '\n');
      "\n\n" + CollapseBlank(t[LastIndexOf(w, '\n') + 1..], k)
    else [t[0]] + CollapseBlank(t[1..], k)
  }

  /** Stripped, non-blank pieces, in order: the lines Python's per-line loop keeps. */
  function KeptLines(parts: seq<string>): seq<string> {
    if parts == [] then [] else KeptLine(parts[0]) + KeptLines(parts[1..])
  }

  /** A piece, stripped, unless it is blank. */
  function KeptLine(p: string): (r: seq<string>)
    ensures r == [] || r == [Strip(p)]
  {
    if Strip(p) == [] then [] else [Strip(p)]
  }

  /** The non-blank lines of t, each stripped. */
  function LinesOf(t: string): seq<string> {
    KeptLines(Split(t, '\n'))
  }

  lemma {:induction false} KeptLinesAppend(a: seq<string>, b: seq<string>)
    ensures KeptLines(a + b) == KeptLines(a) + KeptLines(b)
  {
    if a != [] {
      KeptLinesAppend(a[1..], b);
      PartsHeadTail(a, b);
      KeptLinesCons(a + b, a[0], a[1..] + b);
      KeptLinesCons(a, a[0], a[1..]);
      ConcatAssoc(KeptLines(a + b), KeptLines(a), KeptLine(a[0]), KeptLines(a[1..]), KeptLines(b),
                  KeptLines(a[1..] + b));
    } else {
      assert a + b == b;
    }
  }

  lemma KeptLinesCons(ps: seq<string>, x: string, rest: seq<string>)
    requires |ps| > 0 && ps[0] == x && ps[1..] == rest
    ensures KeptLines(ps) == KeptLine(x) + KeptLines(rest)
  {
  }

  lemma PartsHeadTail(a: seq<string>, b: seq<string>)
    requires a != []
    ensures (a + b)[0] == a[0] && (a + b)[1..] == a[1..] + b
  {
  }

  lemma KeptLinesSnoc(parts: seq<string>, i: nat)
    requires i < |parts|
    ensures KeptLines(parts[..i + 1]) == KeptLines(parts[..i]) + KeptLine(parts[i])
  {
    assert parts[..i + 1] == parts[..i] + [parts[i]];
    KeptLinesAppend(parts[..i], [parts[i]]);
    KeptLinesCons([parts[i]], parts[i], []);
  }

  lemma LinesOfAppend(u: string, v: string)
    ensures LinesOf(u + "\n" + v) == LinesOf(u) + LinesOf(v)
  {
    SplitAppend(u, '\n', v);
    KeptLinesAppend(Split(u, '\n'), Split(v, '\n'));
  }

  lemma {:induction false} LinesOfSpace(w: string)
    requires AllSpace(w)
    ensures LinesOf(w) == []
    decreases |w|
  {
    var k := IndexOf(w, '\n');
    if k < |w| {
      LinesOfSpace(w[k + 1..]);
      LinesOfSpace(w[..k]);
      LinesOfSpaceAt(w, k);
    } else {
      LinesOfSpaceLine(w);
    }
  }

  /** Blank halves around a newline give no lines. */
  lemma LinesOfSpaceAt(w: string, k: nat)
    requires k < |w| && w[k] == '\n'
    requires LinesOf(w[..k]) == [] && LinesOf(w[k + 1..]) == []
    ensures LinesOf(w) == []
  {
    NewlineAt(w, k);
    LinesOfAppend(w[..k], w[k + 1..]);
  }

  lemma NewlineAt(w: string, k: nat)
    requires k < |w| && w[k] == '\n'
    ensures w == w[..k] + "\n" + w[k + 1..]
  {
  }

  /** A blank piece without a newline gives no lines. */
  lemma LinesOfSpaceLine(w: string)
    requires AllSpace(w) && IndexOf(w, '\n') == |w|
    ensures LinesOf(w) == []
  {
    StripFacts(w);
    assert Split(w, '\n') == [w];
    KeptLinesCons([w], w, []);
  }

  lemma LinesOfLeadingNewline(v: string)
    ensures LinesOf("\n" + v) == LinesOf(v)
  {
    EmptyNewline(v);
    LinesOfAppend("", v);
    LinesOfSpace("");
    PrependEmpty(LinesOf("\n" + v), LinesOf(""), LinesOf(v));
  }

  lemma EmptyNewline(v: string)
    ensures "" + "\n" + v == "\n" + v
  {
  }

  lemma PrependEmpty(x: seq<string>, e: seq<string>, y: seq<string>)
    requires x == e + y && e == []
    ensures x == y
  {
  }

  lemma LinesOfDoubleNewline(p: string, v: string)
    ensures LinesOf(p + ("\n\n" + v)) == LinesOf(p) + LinesOf(v)
  {
    DoubleNewlineAssoc(p, v);
    LinesOfAppend(p, "\n" + v);
    LinesOfLeadingNewline(v);
  }

  lemma DoubleNewlineAssoc(p: string, v: string)
    ensures p + ("\n\n" + v) == p + "\n" + ("\n" + v)
  {
  }

  lemma LinesOfBlankBetween(p: string, m: string, v: string)
    requires AllSpace(m)
    ensures LinesOf(p + ("\n" + m + "\n" + v)) == LinesOf(p) + LinesOf(v)
  {
    var a := m + "\n" + v;
    var x := p + ("\n" + m + "\n" + v);
    BlankBetweenAssoc(p, m, v);
    assert x == p + "\n" + a;
    LinesOfAppend(p, a);
    LinesOfAppend(m, v);
    LinesOfSpace(m);
    DropEmptyMiddle(LinesOf(x), LinesOf(p), LinesOf(a), LinesOf(m), LinesOf(v));
  }

  lemma DropEmptyMiddle(x: seq<string>, lp: seq<string>, la: seq<string>, lm: seq<string>, lv: seq<string>)
    requires x == lp + la && la == lm + lv && lm == []
    ensures x == lp + lv
  {
  }

  lemma BlankBetweenAssoc(p: string, m: string, v: string)
    ensures p + ("\n" + m + "\n" + v) == p + "\n" + (m + "\n" + v)
  {
  }

  /** One collapsed run: "\n" + blank + "\n" in front of y becomes "\n\n". */
  lemma CollapsedRunLines(p: string, m: string, y: string, cy: string)
    requires AllSpace(m)
    requires LinesOf(cy) == LinesOf(y)
    ensures LinesOf(p + ("\n\n" + cy)) == LinesOf(p + ("\n" + m + "\n" + y))
  {
    LinesOfDoubleNewline(p, cy);
    LinesOfBlankBetween(p, m, y);
  }

  /** A greedy match ends at a newline other than the first. */
  lemma NewlineCountBound(w: string)
    ensures w != [] && LastIndexOf(w, '\n') <= 0 ==> CountOf(w, '\n') <= 1
  {
    if w != [] && LastIndexOf(w, '\n') <= 0 {
      LastIndexOfAfter(w, '\n');
      CountOfNone(w[1..], '\n');
    }
  }

  lemma RunHasTwoNewlines(t: string, k: nat)
    requires k >= 2 && RunMatches(t, k)
    ensures LastIndexOf(t[..LeadingSpaces(t)], '\n') > 0
  {
    NewlineCountBound(t[..LeadingSpaces(t)]);
  }

  /** Where a match of the blank-run regex at the start of t ends, and what replacing it gives. */
  lemma MatchedRun(t: string, k: nat) returns (j: nat)
    requires k >= 2 && RunMatches(t, k)
    ensures 1 <= j < |t|
    ensures t == "\n" + t[1..j] + "\n" + t[j + 1..]
    ensures AllSpace(t[1..j])
    ensures CollapseBlank(t, k) == "\n\n" + CollapseBlank(t[j + 1..], k)
  {
    var w := t[..LeadingSpaces(t)];
    RunHasTwoNewlines(t, k);
    j := LastIndexOf(w, '\n');
    assert AllSpace(t[1..j]) by {
      forall i | 0 <= i < j - 1 ensures IsSpace(t[1..j][i]) {
        assert t[1..j][i] == w[i + 1];
      }
    }
    assert t == [t[0]] + t[1..j] + [t[j]] + t[j + 1..];
  }

  lemma CollapseBlankCons(t: string, k: nat)
    requires t != [] && !RunMatches(t, k)
    ensures CollapseBlank(t, k) == [t[0]] + CollapseBlank(t[1..], k)
  {
  }

  /** Moving the first character of t onto the prefix. */
  lemma ShiftHead(p: string, t: string, c: string)
    requires t != []
    requires LinesOf((p + [t[0]]) + c) == LinesOf((p + [t[0]]) + t[1..])
    ensures LinesOf(p + ([t[0]] + c)) == LinesOf(p + t)
  {
    CharAssoc(p, t[0], c);
    CharAssoc(p, t[0], t[1..]);
    assert t == [t[0]] + t[1..];
  }

  lemma CharAssoc(p: string, x: char, rest: string)
    ensures p + ([x] + rest) == (p + [x]) + rest
  {
  }

  lemma EmptyPrefix(t: string, c: string)
    requires LinesOf("" + c) == LinesOf("" + t)
    ensures LinesOf(c) == LinesOf(t)
  {
    assert "" + c == c;
    assert "" + t == t;
  }

  lemma {:induction false} CollapseBlankLinesFrom(p: string, t: string, k: nat)
    requires k >= 2
    ensures LinesOf(p + CollapseBlank(t, k)) == LinesOf(p + t)
    decreases |t|
  {
    if t == [] {
    } else if RunMatches(t, k) {
      var j := MatchedRun(t, k);
      var y := t[j + 1..];
      CollapseBlankLinesFrom("", y, k);
      EmptyPrefix(y, CollapseBlank(y, k));
      CollapsedRunLines(p, t[1..j], y, CollapseBlank(y, k));
    } else {
      CollapseBlankLinesFrom(p + [t[0]], t[1..], k);
      CollapseBlankCons(t, k);
      ShiftHead(p, t, CollapseBlank(t[1..], k));
    }
  }

  /** Collapsing blank-line runs never changes which non-blank lines a text has. */
  lemma CollapseBlankKeepsLines(t: string, k: nat)
    requires k >= 2
    ensures LinesOf(CollapseBlank(t, k)) == LinesOf(t)
  {
    CollapseBlankLinesFrom("", t, k);
    EmptyPrefix(t, CollapseBlank(t, k));
  }

  /** A line of the output: non-empty, no newline, no whitespace at either end, tidy. */
  predicate GoodLine(l: string) {
    l != [] && '\n' !in l && !IsSpace(l[0]) && !IsSpace(l[|l| - 1]) && Tidy(l)
  }

  lemma TidySlice(s: string, i: nat, j: nat)
    requires Tidy(s) && i <= j <= |s|
    ensures Tidy(s[i..j])
  {
    var t := s[i..j];
    forall n | 0 <= n < |t| - 1 ensures !(IsHSpace(t[n]) && IsHSpace(t[n + 1])) {
      assert t[n] == s[i + n] && t[n + 1] == s[i + n + 1];
    }
  }

  /** Two tidy strings stay tidy side by side unless they meet in two spaces. */
  lemma TidyConcat(a: string, b: string)
    requires Tidy(a) && Tidy(b)
    requires a != [] && b != [] ==> !(IsHSpace(a[|a| - 1]) && IsHSpace(b[0]))
    ensures Tidy(a + b)
  {
    var r := a + b;
    forall n | 0 <= n < |r| - 1 ensures !(IsHSpace(r[n]) && IsHSpace(r[n + 1])) {
      if n < |a| - 1 {
        assert r[n] == a[n] && r[n + 1] == a[n + 1];
      } else if n >= |a| {
        assert r[n] == b[n - |a|] && r[n + 1] == b[n - |a| + 1];
      }
    }
  }

  /** Stripping a tidy piece without a newline gives a good line, unless it is blank. */
  lemma StripGood(s: string)
    requires '\n' !in s && Tidy(s) && Strip(s) != []
    ensures GoodLine(Strip(s))
  {
    var a := LeadingSpaces(s);
    var t := Strip(s);
    StripSlice(s);
    StripEnds(s);
    TidySlice(s, a, a + |t|);
    GoodSlice(s, t, a);
  }

  lemma GoodSlice(s: string, t: string, a: nat)
    requires a + |t| <= |s| && t == s[a..a + |t|] && '\n' !in s && Tidy(t)
    requires t != [] && !IsSpace(t[0]) && !IsSpace(t[|t| - 1])
    ensures GoodLine(t)
  {
    forall i | 0 <= i < |t| ensures t[i] != '\n' {
      assert t[i] == s[a + i];
    }
  }

  lemma {:induction false} KeptLinesGood(parts: seq<string>)
    requires forall i :: 0 <= i < |parts| ==> '\n' !in parts[i] && Tidy(parts[i])
    ensures forall i :: 0 <= i < |KeptLines(parts)| ==> GoodLine(KeptLines(parts)[i])
  {
    if parts != [] {
      KeptLinesGood(parts[1..]);
      if Strip(parts[0]) != [] {
        StripGood(parts[0]);
      }
    }
  }

  lemma {:induction false} SplitTidy(s: string)
    requires Tidy(s)
    ensures forall i :: 0 <= i < |Split(s, '\n')| ==> Tidy(Split(s, '\n')[i])
    decreases |s|
  {
    var k := IndexOf(s, '\n');
    if k < |s| {
      TidySlice(s, k + 1, |s|);
      SplitTidy(s[k + 1..]);
      TidySlice(s, 0, k);
    } else {
      assert Split(s, '\n') == [s];
    }
  }

  /** The non-blank lines of a tidy text are good lines. */
  lemma LinesOfGood(s: string)
    requires Tidy(s)
    ensures forall i :: 0 <= i < |LinesOf(s)| ==> GoodLine(LinesOf(s)[i])
  {
    SplitTidy(s);
    SplitNoSep(s, '\n');
    KeptLinesGood(Split(s, '\n'));
  }

  /** Joining good lines with newlines gives a tidy text with no whitespace at either end. */
  lemma {:induction false} JoinGood(lines: seq<string>)
    requires forall i :: 0 <= i < |lines| ==> GoodLine(lines[i])
    ensures Tidy(Join("\n", lines))
    ensures lines != [] ==>
      Join("\n", lines) != [] && !IsSpace(Join("\n", lines)[0]) &&
      !IsSpace(Join("\n", lines)[|Join("\n", lines)| - 1])
  {
    if |lines| > 1 {
      JoinGood(lines[1..]);
      var a := lines[0];
      var b := Join("\n", lines[1..]);
      assert Join("\n", lines) == (a + "\n") + b;
      TidyConcat(a, "\n");
      TidyConcat(a + "\n", b);
    }
  }

  /** A good line is its own only kept line. */
  lemma {:induction false} KeptGoodLines(lines: seq<string>)
    requires forall i :: 0 <= i < |lines| ==> GoodLine(lines[i])
    ensures KeptLines(lines) == lines
  {
    if lines != [] {
      StripNoop(lines[0]);
      KeptGoodLines(lines[1..]);
    }
  }

  /** Pieces of the first pass: each disallowed ASCII character becomes a space. */
  function ReplaceDisallowed(s: string): (r: string)
    ensures |r| == |s|
  {
    seq(|s|, i requires 0 <= i < |s| => ReplaceChar(s[i]))
  }

  /** What PlagiarismService._clean_text computes, stage by stage. */
  function Cleaned(text: string): string {
    if text == [] then []
    else
      var collapsed := CollapseBlank(CollapseHSpace(ReplaceDisallowed(text)), 3);
      Strip(Join("\n", KeptLines(Split(collapsed, '\n'))))
  }

  /** PlagiarismService._clean_text. */
  method CleanText(text: string) returns (r: string)
    ensures r == Cleaned(text)
  {
    if |text| == 0 {
      return "";
    }
    var cleaned := ReplaceCharacters(text);
    var collapsed := CollapseHSpace(cleaned);
    var t := CollapseBlank(collapsed, 3);
    var lines := NonBlankLines(Split(t, '\n'));
    r := Strip(Join("\n", lines));
  }

  /** The first pass of _clean_text, one character at a time. */
  method ReplaceCharacters(text: string) returns (cleaned: string)
    ensures cleaned == ReplaceDisallowed(text)
  {
    cleaned := [];
    for i := 0 to |text|
      invariant |cleaned| == i
      invariant forall j :: 0 <= j < i ==> cleaned[j] == ReplaceChar(text[j])
    {
      if Kept(text[i]) {
        cleaned := cleaned + [text[i]];
      } else {
        cleaned := cleaned + [' '];
      }
    }
  }

  /** The per-line loop of _clean_text: the stripped non-blank lines. */
  method NonBlankLines(parts: seq<string>) returns (lines: seq<string>)
    ensures lines == KeptLines(parts)
  {
    lines := [];
    for i := 0 to |parts|
      invariant lines == KeptLines(parts[..i])
    {
      var line := Strip(parts[i]);
      KeptLinesSnoc(parts, i);
      if line != [] {
        lines := lines + [line];
      }
    }
    assert parts[..|parts|] == parts;
  }

  /** The output is exactly the stripped non-blank lines left after the character filter
      and the collapsing of space/tab runs, joined by single newlines: collapsing runs of
      blank lines and the final strip() change nothing. */
  lemma CleanedLines(text: string)
    ensures Cleaned(text) == Join("\n", LinesOf(CollapseHSpace(ReplaceDisallowed(text))))
  {
    var c := CollapseHSpace(ReplaceDisallowed(text));
    if text != [] {
      CollapseBlankKeepsLines(c, 3);
      assert forall i :: 0 <= i < |ReplaceDisallowed(text)| ==> Kept(ReplaceDisallowed(text)[i]);
      CollapseHSpaceTidies(ReplaceDisallowed(text));
      LinesOfGood(c);
      JoinGood(LinesOf(c));
      StripNoop(Join("\n", LinesOf(c)));
    } else {
      assert Split(c, '\n') == [""];
      StripFacts("");
    }
  }

  /** The shape of the output: empty exactly when no line survives; otherwise its
      newline-separated pieces are those lines, each non-empty, free of whitespace at
      either end, without tabs or doubled spaces, and made of allowed or non-ASCII
      characters (so there is never a blank line). */
  lemma CleanedShape(text: string)
    ensures var lines := LinesOf(CollapseHSpace(ReplaceDisallowed(text)));
      && (Cleaned(text) == [] <==> lines == [])
      && Tidy(Cleaned(text))
      && (Cleaned(text) != [] ==> Split(Cleaned(text), '\n') == lines)
      && forall i :: 0 <= i < |lines| ==> GoodLine(lines[i])
  {
    var c := CollapseHSpace(ReplaceDisallowed(text));
    var lines := LinesOf(c);
    CleanedLines(text);
    assert forall i :: 0 <= i < |ReplaceDisallowed(text)| ==> Kept(ReplaceDisallowed(text)[i]);
    CollapseHSpaceTidies(ReplaceDisallowed(text));
    LinesOfGood(c);
    JoinGood(lines);
    if lines != [] {
      SplitJoin(lines, '\n');
    }
  }

  /** A tidy text has no run of spaces or tabs left to collapse. */
  lemma {:induction false} CollapseHSpaceTidy(s: string)
    requires Tidy(s)
    ensures CollapseHSpace(s) == s
    decreases |s|
  {
    if s != [] {
      TidySlice(s, 1, |s|);
      CollapseHSpaceTidy(s[1..]);
      if IsHSpace(s[0]) {
        assert |s| > 1 ==> !IsHSpace(s[1]);
        assert HSpaceRun(s) == 1;
      }
    }
  }

  lemma ReplaceDisallowedTidy(s: string)
    requires Tidy(s)
    ensures ReplaceDisallowed(s) == s
  {
  }

  /** Cleaning a cleaned text changes nothing. */
  lemma CleanedIdempotent(text: string)
    ensures Cleaned(Cleaned(text)) == Cleaned(text)
  {
    var c := Cleaned(text);
    var lines := LinesOf(CollapseHSpace(ReplaceDisallowed(text)));
    CleanedShape(text);
    if c != [] {
      ReplaceDisallowedTidy(c);
      CollapseHSpaceTidy(c);
      CleanedLines(c);
      KeptGoodLines(lines);
      CleanedLines(text);
    }
  }
}
