/** The Python string primitives the detector is built from: whitespace, strip, split,
    join, word counting, ASCII lower-casing, substring search, decimal numerals and
    the POSIX path helpers os.path.basename / os.path.splitext. */
module Text {

  /** Python's str.isspace(): the set that strip(), split() and the regex class \s use. */
  predicate IsSpace(c: char) {
    var n := c as int;
    (9 <= n <= 13) || (28 <= n <= 32) || n == 0x85 || n == 0xA0 || n == 0x1680 ||
    (0x2000 <= n <= 0x200A) || n == 0x2028 || n == 0x2029 || n == 0x202F ||
    n == 0x205F || n == 0x3000
  }

  predicate AllSpace(s: string) {
    forall i :: 0 <= i < |s| ==> IsSpace(s[i])
  }

  /** Length of the run of whitespace that starts s. */
  function LeadingSpaces(s: string): (n: nat)
    ensures n <= |s|
    ensures forall i :: 0 <= i < n ==> IsSpace(s[i])
    ensures n < |s| ==> !IsSpace(s[n])
  {
    if |s| == 0 || !IsSpace(s[0]) then 0 else 1 + LeadingSpaces(s[1..])
  }

  /** Length of the run of whitespace that ends s. */
  function TrailingSpaces(s: string): (n: nat)
    ensures n <= |s|
    ensures forall i :: |s| - n <= i < |s| ==> IsSpace(s[i])
    ensures n < |s| ==> !IsSpace(s[|s| - 1 - n])
  {
    if |s| == 0 || !IsSpace(s[|s| - 1]) then 0 else 1 + TrailingSpaces(s[..|s| - 1])
  }

  /** Python's str.strip(): the slice of s between its leading and trailing whitespace. */
  function Strip(s: string): (r: string)
    ensures |r| <= |s|
  {
    var t := s[LeadingSpaces(s)..];
    t[..|t| - TrailingSpaces(t)]
  }

  /** What strip() gives: a slice of s, empty exactly when s is all whitespace, and
      otherwise starting and ending with non-whitespace. */
  lemma StripFacts(s: string)
    ensures LeadingSpaces(s) + |Strip(s)| <= |s|
    ensures Strip(s) == s[LeadingSpaces(s)..LeadingSpaces(s) + |Strip(s)|]
    ensures Strip(s) == [] <==> AllSpace(s)
    ensures Strip(s) != [] ==> !IsSpace(Strip(s)[0]) && !IsSpace(Strip(s)[|Strip(s)| - 1])
  {
  }

  /** strip() is the slice of s after its leading whitespace. */
  lemma StripSlice(s: string)
    ensures LeadingSpaces(s) + |Strip(s)| <= |s|
    ensures Strip(s) == s[LeadingSpaces(s)..LeadingSpaces(s) + |Strip(s)|]
  {
    StripFacts(s);
  }

  /** A non-empty strip() starts and ends with non-whitespace. */
  lemma StripEnds(s: string)
    ensures Strip(s) != [] ==> !IsSpace(Strip(s)[0]) && !IsSpace(Strip(s)[|Strip(s)| - 1])
  {
    StripFacts(s);
  }

  /** A string with no whitespace at either end is its own strip(). */
  lemma StripNoop(s: string)
    requires s != [] ==> !IsSpace(s[0]) && !IsSpace(s[|s| - 1])
    ensures Strip(s) == s
  {
    if s != [] {
      assert LeadingSpaces(s) == 0;
      assert TrailingSpaces(s) == 0;
    }
  }

  lemma StripIdempotent(s: string)
    ensures Strip(Strip(s)) == Strip(s)
  {
    StripFacts(s);
    StripNoop(Strip(s));
  }

  /** Length of the run of non-whitespace that starts s. */
  function LeadingWord(s: string): (n: nat)
    ensures n <= |s|
    ensures s != [] && !IsSpace(s[0]) ==> n >= 1
  {
    if |s| == 0 || IsSpace(s[0]) then 0 else 1 + LeadingWord(s[1..])
  }

  /** len(s.split()): the number of maximal runs of non-whitespace characters. */
  function WordCount(s: string): nat
    decreases |s|
  {
    var t := s[LeadingSpaces(s)..];
    if t == [] then 0 else 1 + WordCount(t[LeadingWord(t)..])
  }

  /** Index of the first c in s, or |s| when there is none. */
  function IndexOf(s: string, c: char): (k: nat)
    ensures k <= |s|
    ensures k < |s| ==> s[k] == c
    ensures forall i :: 0 <= i < k ==> s[i] != c
  {
    if |s| == 0 then 0 else if s[0] == c then 0 else 1 + IndexOf(s[1..], c)
  }

  /** Index of the last c in s (Python's rfind), or -1 when there is none. */
  function LastIndexOf(s: string, c: char): (k: int)
    ensures -1 <= k < |s|
    ensures k >= 0 ==> s[k] == c
  {
    if |s| == 0 then -1
    else if s[|s| - 1] == c then |s| - 1
    else LastIndexOf(s[..|s| - 1], c)
  }

  /** No c follows the last one. */
  lemma {:induction false} LastIndexOfAfter(s: string, c: char)
    ensures forall i :: LastIndexOf(s, c) < i < |s| ==> s[i] != c
  {
    if |s| > 0 && s[|s| - 1] != c {
      LastIndexOfAfter(s[..|s| - 1], c);
    }
  }

  lemma IndexOfAppend(u: string, w: string, c: char)
    ensures IndexOf(u + w, c) == if IndexOf(u, c) < |u| then IndexOf(u, c) else |u| + IndexOf(w, c)
  {
    if |u| > 0 && u[0] != c {
      assert (u + w)[1..] == u[1..] + w;
      IndexOfAppend(u[1..], w, c);
    } else if |u| == 0 {
      assert u + w == w;
    }
  }

  /** Python's s.split(sep) for a one-character separator (never an empty list). */
  function Split(s: string, sep: char): (parts: seq<string>)
    ensures |parts| >= 1
    decreases |s|
  {
    var k := IndexOf(s, sep);
    if k == |s| then [s] else [s[..k]] + Split(s[k + 1..], sep)
  }

  /** Every piece of Split is separator-free. */
  lemma {:induction false} SplitNoSep(s: string, sep: char)
    ensures forall i :: 0 <= i < |Split(s, sep)| ==> sep !in Split(s, sep)[i]
    decreases |s|
  {
    var k := IndexOf(s, sep);
    if k < |s| {
      SplitNoSep(s[k + 1..], sep);
    }
  }

  /** Splitting at an occurrence of the separator splits each side independently. */
  lemma {:induction false} SplitAppend(u: string, sep: char, v: string)
    ensures Split(u + [sep] + v, sep) == Split(u, sep) + Split(v, sep)
    decreases |u|
  {
    var k := IndexOf(u, sep);
    if k == |u| {
      SplitAppendFirst(u, sep, v);
    } else {
      SplitAppend(u[k + 1..], sep, v);
      SplitAppendLater(u, sep, v);
    }
  }

  /** The first separator of u + [sep] + v: u's first one, or the one after u. */
  lemma IndexOfSeparated(u: string, sep: char, v: string)
    ensures IndexOf(u + [sep] + v, sep) == IndexOf(u, sep)
  {
    IndexOfAppend(u, [sep] + v, sep);
    assert u + [sep] + v == u + ([sep] + v);
  }

  /** The separator after u is the first one: u is the first piece. */
  lemma {:induction false} SplitAppendFirst(u: string, sep: char, v: string)
    requires IndexOf(u, sep) == |u|
    ensures Split(u + [sep] + v, sep) == Split(u, sep) + Split(v, sep)
  {
    var s := u + [sep] + v;
    IndexOfSeparated(u, sep, v);
    assert s[..|u|] == u;
    assert s[|u| + 1..] == v;
  }

  /** A separator inside u: the first piece is u's first piece. */
  lemma {:induction false} SplitAppendLater(u: string, sep: char, v: string)
    requires IndexOf(u, sep) < |u|
    requires Split(u[IndexOf(u, sep) + 1..] + [sep] + v, sep) == Split(u[IndexOf(u, sep) + 1..], sep) + Split(v, sep)
    ensures Split(u + [sep] + v, sep) == Split(u, sep) + Split(v, sep)
  {
    var k := IndexOf(u, sep);
    IndexOfSeparated(u, sep, v);
    SeparatedSlices(u, sep, v, k);
    SplitAtParts(u + [sep] + v, sep, k, u[..k], u[k + 1..] + [sep] + v);
    SplitAtParts(u, sep, k, u[..k], u[k + 1..]);
    ConsAssoc(u[..k], Split(u[k + 1..], sep), Split(v, sep), Split(u[k + 1..] + [sep] + v, sep),
              Split(u + [sep] + v, sep), Split(u, sep));
  }

  /** The head and tail of a + b for a non-empty a. */
  lemma ConsSplit(a: string, b: string)
    requires a != []
    ensures (a + b)[0] == a[0] && (a + b)[1..] == a[1..] + b
  {
  }

  /** [a[0]] + (a[1..] + r) is a + r. */
  lemma ConsJoin(a: string, r: string, y: string, x: string)
    requires a != [] && y == a[1..] + r && x == [a[0]] + y
    ensures x == a + r
  {
    assert a == [a[0]] + a[1..];
  }

  /** The head and tail of a tagged string. */
  lemma TagSplit(tag: char, t: string, s: string)
    requires s == [tag] + t
    ensures s != [] && s[0] == tag && s[1..] == t
  {
  }

  /** x == k + c, c == p + q and y == k + p give x == y + q. */
  lemma ConcatAssoc(x: seq<string>, y: seq<string>, k: seq<string>, p: seq<string>, q: seq<string>, c: seq<string>)
    requires x == k + c && c == p + q && y == k + p
    ensures x == y + q
  {
  }

  /** x == [h] + (a + b) and y == [h] + a give x == y + b. */
  lemma ConsAssoc(h: string, a: seq<string>, b: seq<string>, c: seq<string>, x: seq<string>, y: seq<string>)
    requires x == [h] + c && c == a + b && y == [h] + a
    ensures x == y + b
  {
  }

  /** Split at a first separator found at k. */
  lemma SplitAtParts(s: string, sep: char, k: nat, head: string, rest: string)
    requires IndexOf(s, sep) == k < |s| && s[..k] == head && s[k + 1..] == rest
    ensures Split(s, sep) == [head] + Split(rest, sep)
  {
  }

  lemma SeparatedSlices(u: string, sep: char, v: string, k: nat)
    requires k < |u|
    ensures (u + [sep] + v)[..k] == u[..k]
    ensures (u + [sep] + v)[k + 1..] == u[k + 1..] + [sep] + v
  {
  }

  /** Python's sep.join(parts). */
  function Join(sep: string, parts: seq<string>): string {
    if |parts| == 0 then ""
    else if |parts| == 1 then parts[0]
    else parts[0] + sep + Join(sep, parts[1..])
  }

  /** Splitting a join of separator-free pieces gives the pieces back. */
  lemma {:induction false} SplitJoin(parts: seq<string>, sep: char)
    requires |parts| >= 1
    requires forall i :: 0 <= i < |parts| ==> sep !in parts[i]
    ensures Split(Join([sep], parts), sep) == parts
  {
    var head := parts[0];
    SplitPiece(head, sep);
    if |parts| > 1 {
      var tail := parts[1..];
      SplitJoin(tail, sep);
      SplitAppend(head, sep, Join([sep], tail));
      JoinCons(parts, sep, head, tail);
      ConsEq(Split(Join([sep], parts), sep), Split(head, sep), Split(Join([sep], tail), sep), head, tail, parts);
    }
  }

  /** A separator-free string is one piece. */
  lemma SplitPiece(s: string, sep: char)
    requires sep !in s
    ensures Split(s, sep) == [s]
  {
    assert IndexOf(s, sep) == |s|;
  }

  lemma JoinCons(parts: seq<string>, sep: char, head: string, tail: seq<string>)
    requires |parts| > 1 && head == parts[0] && tail == parts[1..]
    ensures Join([sep], parts) == head + [sep] + Join([sep], tail)
  {
  }

  lemma ConsEq(x: seq<string>, y: seq<string>, z: seq<string>, head: string, tail: seq<string>, parts: seq<string>)
    requires x == y + z && y == [head] && z == tail
    requires |parts| >= 1 && head == parts[0] && tail == parts[1..]
    ensures x == parts
  {
  }

  /** ASCII case folding of one character. */
  function LowerChar(c: char): char {
    if 'A' <= c <= 'Z' then (c as int + 32) as char else c
  }

  /** str.lower(), restricted to ASCII letters. */
  function Lower(s: string): string {
    seq(|s|, i requires 0 <= i < |s| => LowerChar(s[i]))
  }

  lemma LowerAppend(a: string, b: string)
    ensures Lower(a + b) == Lower(a) + Lower(b)
  {
  }

  /** Python's `needle in hay` on strings. */
  predicate Contains(hay: string, needle: string) {
    exists i :: 0 <= i <= |hay| - |needle| && IsPrefix(needle, hay[i..])
  }

  predicate IsPrefix(p: string, s: string) {
    |p| <= |s| && s[..|p|] == p
  }

  /** Decimal numeral of a natural number, as str() prints it. */
  function NatToString(n: nat): (s: string)
    ensures |s| >= 1
    ensures forall i :: 0 <= i < |s| ==> '0' <= s[i] <= '9'
  {
    if n < 10 then [DigitChar(n)] else NatToString(n / 10) + [DigitChar(n % 10)]
  }

  /** str() of an integer, with a leading '-' when negative. */
  function IntToString(i: int): (s: string)
    ensures |s| >= 1
    ensures i >= 0 ==> s == NatToString(i)
    ensures i < 0 ==> s[0] == '-' && s[1..] == NatToString(-i)
  {
    if i < 0 then "-" + NatToString(-i) else NatToString(i)
  }

  /** The first n characters of s (Python's s[:n] for n >= 0). */
  function Take(s: string, n: nat): (r: string)
    ensures |r| == if |s| <= n then |s| else n
    ensures IsPrefix(r, s)
  {
    if |s| <= n then s else s[..n]
  }

  function DigitChar(d: nat): char
    requires d < 10
  {
    ('0' as int + d) as char
  }

  predicate AllDigits(s: string) {
    forall i :: 0 <= i < |s| ==> '0' <= s[i] <= '9'
  }

  /** The value of a decimal numeral (what int() parses). */
  function DigitsValue(s: string): nat
    requires AllDigits(s)
  {
    if |s| == 0 then 0 else DigitsValue(s[..|s| - 1]) * 10 + (s[|s| - 1] as int - '0' as int)
  }

  lemma {:induction false} NatToStringRoundTrip(n: nat)
    ensures DigitsValue(NatToString(n)) == n
  {
    var s := NatToString(n);
    if n >= 10 {
      NatToStringRoundTrip(n / 10);
      assert s[..|s| - 1] == NatToString(n / 10);
    }
  }

  /** os.path.basename: the text after the last '/'. */
  function Basename(p: string): (r: string)
    ensures '/' !in r
  {
    LastIndexOfAfter(p, '/');
    p[LastIndexOf(p, '/') + 1..]
  }

  /** Index of the dot that os.path.splitext splits at, or -1 when the path has no extension:
      the last '.' after the last '/', provided some character other than '.' precedes it
      within the final component (so ".bashrc" and "a/..x" have none). */
  function ExtIndex(p: string): (k: int)
    ensures -1 <= k < |p|
    ensures k >= 0 ==> p[k] == '.' && '/' !in p[k..] && '.' !in p[k + 1..]
  {
    LastIndexOfAfter(p, '/');
    LastIndexOfAfter(p, '.');
    var sepIndex := LastIndexOf(p, '/');
    var dotIndex := LastIndexOf(p, '.');
    if dotIndex > sepIndex && exists i :: sepIndex + 1 <= i < dotIndex && p[i] != '.'
    then dotIndex else -1
  }

  /** os.path.splitext(p)[0]. */
  function Stem(p: string): string {
    if ExtIndex(p) >= 0 then p[..ExtIndex(p)] else p
  }

  /** os.path.splitext(p)[1]: empty, or a '.' followed by no further '.' or '/'. */
  function Ext(p: string): (e: string)
    ensures e == [] || (e[0] == '.' && '.' !in e[1..] && '/' !in e)
  {
    if ExtIndex(p) >= 0 then p[ExtIndex(p)..] else ""
  }

  lemma StemExt(p: string)
    ensures Stem(p) + Ext(p) == p
  {
  }
}
