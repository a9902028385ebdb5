/** Sentence segmentation (PlagiarismService.tokenize). The NLTK sentence tokenizer is
    foreign code: its answer comes in as a parameter, None standing for the exception
    that sends tokenize to its split-on-period fallback. */
module Segmenter {
  import opened Wrappers
  import opened Text

  /** The filter applied to tokenizer output: more than 10 characters and at least 3 words. */
  predicate IsValidSentence(s: string) {
    |s| > 10 && WordCount(s) >= 3
  }

  /** The stripped tokenizer sentences that pass the filter, in order. */
  function ValidSentences(ss: seq<string>): seq<string> {
    if ss == [] then [] else KeptSentence(ss[0]) + ValidSentences(ss[1..])
  }

  /** A tokenizer sentence, stripped, when it passes the filter. */
  function KeptSentence(s: string): (r: seq<string>)
    ensures r == [] || r == [Strip(s)]
  {
    if IsValidSentence(Strip(s)) then [Strip(s)] else []
  }

  /** The fallback: split on '.', keep the pieces longer than 10 once stripped, and give
      each back stripped with a '.' appended. */
  function FallbackSentences(pieces: seq<string>): seq<string> {
    if pieces == [] then [] else KeptPiece(pieces[0]) + FallbackSentences(pieces[1..])
  }

  /** A piece, stripped and with '.' appended, when it is long enough. */
  function KeptPiece(p: string): (r: seq<string>)
    ensures r == [] || r == [Strip(p) + "."]
  {
    if |Strip(p)| > 10 then [Strip(p) + "."] else []
  }

  /** What tokenize returns for a text, given what the tokenizer produced (None: it raised). */
  function Sentences(text: string, tokenized: Option<seq<string>>): seq<string> {
    if Strip(text) == [] then []
    else match tokenized
      case Some(ss) => ValidSentences(ss)
      case None => FallbackSentences(Split(text, '.'))
  }

  /** PlagiarismService.tokenize. */
  method Tokenize(text: string, tokenized: Option<seq<string>>) returns (sentences: seq<string>)
    ensures sentences == Sentences(text, tokenized)
  {
    if |text| == 0 || Strip(text) == [] {
      return [];
    }
    match tokenized {
      case None =>
        sentences := FallbackSentences(Split(text, '.'));
      case Some(ss) =>
        sentences := FilterSentences(ss);
    }
  }

  /** The loop of tokenize over the tokenizer's sentences. */
  method FilterSentences(ss: seq<string>) returns (sentences: seq<string>)
    ensures sentences == ValidSentences(ss)
  {
    sentences := [];
    for i := 0 to |ss|
      invariant sentences == ValidSentences(ss[..i])
    {
      var s := Strip(ss[i]);
      ValidSentencesSnoc(ss, i);
      if |s| > 10 && WordCount(s) >= 3 {
        sentences := sentences + [s];
      }
    }
    assert ss[..|ss|] == ss;
  }

  lemma ValidSentencesSnoc(ss: seq<string>, i: nat)
    requires i < |ss|
    ensures ValidSentences(ss[..i + 1]) == ValidSentences(ss[..i]) + KeptSentence(ss[i])
  {
    assert ss[..i + 1] == ss[..i] + [ss[i]];
    ValidSentencesAppend(ss[..i], [ss[i]]);
    ValidSentencesCons([ss[i]], ss[i], []);
  }

  lemma {:induction false} ValidSentencesAppend(a: seq<string>, b: seq<string>)
    ensures ValidSentences(a + b) == ValidSentences(a) + ValidSentences(b)
  {
    if a == [] {
      assert a + b == b;
    } else {
      ValidSentencesAppend(a[1..], b);
      HeadTailConcat(a, b);
      ValidSentencesCons(a + b, a[0], a[1..] + b);
      ValidSentencesCons(a, a[0], a[1..]);
      ConcatAssoc(ValidSentences(a + b), ValidSentences(a), KeptSentence(a[0]), ValidSentences(a[1..]),
                  ValidSentences(b), ValidSentences(a[1..] + b));
    }
  }

  lemma ValidSentencesCons(ss: seq<string>, x: string, rest: seq<string>)
    requires |ss| > 0 && ss[0] == x && ss[1..] == rest
    ensures ValidSentences(ss) == KeptSentence(x) + ValidSentences(rest)
  {
  }

  lemma HeadTailConcat(a: seq<string>, b: seq<string>)
    requires a != []
    ensures (a + b)[0] == a[0] && (a + b)[1..] == a[1..] + b
  {
  }

  lemma {:induction false} FallbackSentencesAppend(a: seq<string>, b: seq<string>)
    ensures FallbackSentences(a + b) == FallbackSentences(a) + FallbackSentences(b)
  {
    if a == [] {
      assert a + b == b;
    } else {
      FallbackSentencesAppend(a[1..], b);
      HeadTailConcat(a, b);
      FallbackSentencesCons(a + b, a[0], a[1..] + b);
      FallbackSentencesCons(a, a[0], a[1..]);
      ConcatAssoc(FallbackSentences(a + b), FallbackSentences(a), KeptPiece(a[0]), FallbackSentences(a[1..]),
                  FallbackSentences(b), FallbackSentences(a[1..] + b));
    }
  }

  lemma FallbackSentencesCons(ps: seq<string>, x: string, rest: seq<string>)
    requires |ps| > 0 && ps[0] == x && ps[1..] == rest
    ensures FallbackSentences(ps) == KeptPiece(x) + FallbackSentences(rest)
  {
  }

  /** Some tokenizer sentence strips to x and x passes the filter. */
  predicate StripsTo(ss: seq<string>, x: string) {
    exists i :: 0 <= i < |ss| && Strip(ss[i]) == x && IsValidSentence(x)
  }

  /** A string is a kept tokenizer sentence exactly when it is the stripped form of one
      of the tokenizer's sentences and passes the filter. */
  lemma {:induction false} ValidSentencesMembers(ss: seq<string>, x: string)
    ensures x in ValidSentences(ss) <==>
      exists i :: 0 <= i < |ss| && Strip(ss[i]) == x && IsValidSentence(x)
  {
    if ss != [] {
      ValidSentencesMembers(ss[1..], x);
      ValidSentencesCons(ss, ss[0], ss[1..]);
      StripsToCons(ss, x);
    }
  }

  lemma StripsToCons(ss: seq<string>, x: string)
    requires ss != []
    ensures StripsTo(ss, x) <==> (Strip(ss[0]) == x && IsValidSentence(x)) || StripsTo(ss[1..], x)
  {
    if StripsTo(ss[1..], x) {
      var i :| 0 <= i < |ss[1..]| && Strip(ss[1..][i]) == x && IsValidSentence(x);
      assert ss[i + 1] == ss[1..][i];
    }
    if StripsTo(ss, x) && !(Strip(ss[0]) == x && IsValidSentence(x)) {
      var i :| 0 <= i < |ss| && Strip(ss[i]) == x && IsValidSentence(x);
      assert ss[1..][i - 1] == ss[i];
    }
  }

  /** A kept sentence is its own strip(): no whitespace at either end. */
  lemma {:induction false} ValidSentencesStripped(ss: seq<string>)
    ensures forall i :: 0 <= i < |ValidSentences(ss)| ==>
      Strip(ValidSentences(ss)[i]) == ValidSentences(ss)[i] && IsValidSentence(ValidSentences(ss)[i])
  {
    if ss != [] {
      ValidSentencesStripped(ss[1..]);
      StripIdempotent(ss[0]);
    }
  }

  /** A fallback sentence: a stripped piece of more than 10 characters with no '.' of its
      own, followed by a single '.'. */
  predicate FallbackShaped(s: string) {
    |s| > 11 && s[|s| - 1] == '.' && '.' !in s[..|s| - 1] && Strip(s[..|s| - 1]) == s[..|s| - 1]
  }

  /** Every fallback sentence is a stripped piece of more than 10 characters with no '.'
      of its own, followed by a single '.'. */
  lemma {:induction false} FallbackShape(pieces: seq<string>)
    requires forall i :: 0 <= i < |pieces| ==> '.' !in pieces[i]
    ensures |FallbackSentences(pieces)| <= |pieces|
    ensures forall i :: 0 <= i < |FallbackSentences(pieces)| ==>
      var s := FallbackSentences(pieces)[i];
      |s| > 11 && s[|s| - 1] == '.' && '.' !in s[..|s| - 1] && Strip(s[..|s| - 1]) == s[..|s| - 1]
  {
    if pieces != [] {
      FallbackShape(pieces[1..]);
      FallbackSentencesCons(pieces, pieces[0], pieces[1..]);
      PieceShape(pieces[0]);
      AllShapedConcat(KeptPiece(pieces[0]), FallbackSentences(pieces[1..]), FallbackSentences(pieces));
    }
  }

  /** A kept piece has the fallback shape. */
  lemma PieceShape(p: string)
    requires '.' !in p
    ensures forall i :: 0 <= i < |KeptPiece(p)| ==> FallbackShaped(KeptPiece(p)[i])
  {
    if |Strip(p)| > 10 {
      var t := Strip(p);
      StripFacts(p);
      StripIdempotent(p);
      assert (t + ".")[..|t|] == t;
      assert '.' !in t by {
        assert t == p[LeadingSpaces(p)..LeadingSpaces(p) + |t|];
      }
    }
  }

  lemma AllShapedConcat(a: seq<string>, b: seq<string>, c: seq<string>)
    requires c == a + b
    requires forall i :: 0 <= i < |a| ==> FallbackShaped(a[i])
    requires forall i :: 0 <= i < |b| ==> FallbackShaped(b[i])
    ensures forall i :: 0 <= i < |c| ==> FallbackShaped(c[i])
  {
    forall i | 0 <= i < |c| ensures FallbackShaped(c[i]) {
      if i >= |a| {
        assert c[i] == b[i - |a|];
      }
    }
  }

  /** Empty and whitespace-only text gives no sentences, whatever the tokenizer says. */
  lemma BlankTextNoSentences(text: string, tokenized: Option<seq<string>>)
    requires AllSpace(text)
    ensures Sentences(text, tokenized) == []
  {
    StripFacts(text);
  }

  /** The fallback sentences of a text: the pieces between periods, as described. */
  lemma FallbackOfText(text: string)
    requires Strip(text) != []
    ensures Sentences(text, None) == FallbackSentences(Split(text, '.'))
    ensures forall i :: 0 <= i < |Sentences(text, None)| ==>
      var s := Sentences(text, None)[i];
      |s| > 11 && s[|s| - 1] == '.' && '.' !in s[..|s| - 1]
  {
    SplitNoSep(text, '.');
    FallbackShape(Split(text, '.'));
  }
}
