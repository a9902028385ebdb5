/** The text stored in PlagiarismHistory.matched_sources: the local and internet sources of a
    check, serialised by set_matched_sources (and by the worker) and read back by
    get_matched_sources. The stored text is a length-prefixed encoding rather than JSON; what
    the model keeps is the round trip. */
module SourcesCodec {
  import opened Wrappers
  import opened Text
  import opened Checking

  /** {'local': [...], 'internet': [...]}. */
  datatype MatchedSources = MatchedSources(local: seq<LocalSource>, internet: seq<string>)

  const NoSources := MatchedSources([], [])

  predicate IsDigit(c: char) { '0' <= c <= '9' }

  /** Length of the run of decimal digits that starts s. */
  function DigitRun(s: string): (k: nat)
    ensures k <= |s|
    ensures AllDigits(s[..k])
    ensures k < |s| ==> !IsDigit(s[k])
  {
    if s == [] || !IsDigit(s[0]) then 0
    else
      var k := 1 + DigitRun(s[1..]);
      assert s[..k] == [s[0]] + s[1..][..k - 1];
      k
  }

  lemma {:induction false} DigitRunPrefix(d: string, rest: string)
    requires AllDigits(d)
    requires rest == [] || !IsDigit(rest[0])
    ensures DigitRun(d + rest) == |d|
  {
    if d != [] {
      assert (d + rest)[1..] == d[1..] + rest;
      DigitRunPrefix(d[1..], rest);
    }
  }

  /** A natural number: its decimal digits and ':'. */
  function EncNat(n: nat): string {
    NatToString(n) + ":"
  }

  function DecNat(s: string): Option<(nat, string)> {
    var k := DigitRun(s);
    if k == 0 || k >= |s| || s[k] != ':' then None else Some((DigitsValue(s[..k]), s[k + 1..]))
  }

  lemma DecNatEnc(n: nat, rest: string)
    ensures DecNat(EncNat(n) + rest) == Some((n, rest))
  {
    var d := NatToString(n);
    var s := EncNat(n) + rest;
    assert s == d + (":" + rest);
    DigitRunPrefix(d, ":" + rest);
    assert s[..|d|] == d;
    assert s[|d| + 1..] == rest;
    NatToStringRoundTrip(n);
  }

  /** A string: its length, then its characters. */
  function EncStr(x: string): string {
    EncNat(|x|) + x
  }

  function DecStr(s: string): Option<(string, string)> {
    match DecNat(s)
      case None => None
      case Some((n, r)) => if n <= |r| then Some((r[..n], r[n..])) else None
  }

  lemma DecStrEnc(x: string, rest: string)
    ensures DecStr(EncStr(x) + rest) == Some((x, rest))
  {
    assert EncStr(x) + rest == EncNat(|x|) + (x + rest);
    DecNatEnc(|x|, x + rest);
    assert (x + rest)[..|x|] == x;
    assert (x + rest)[|x|..] == rest;
  }

  /** An integer: its sign, then its magnitude. */
  function EncInt(i: int): string {
    if i < 0 then "-" + EncNat(-i) else "+" + EncNat(i)
  }

  function DecInt(s: string): Option<(int, string)> {
    if s == [] || (s[0] != '-' && s[0] != '+') then None
    else match DecNat(s[1..])
      case None => None
      case Some((n, r)) =>
        var v: int := if s[0] == '-' then -(n as int) else n as int;
        Some((v, r))
  }

  lemma DecIntEnc(i: int, rest: string)
    ensures DecInt(EncInt(i) + rest) == Some((i, rest))
  {
    var m: nat := if i < 0 then -i else i;
    var sign := if i < 0 then '-' else '+';
    var t := EncNat(m) + rest;
    assert EncInt(i) + rest == [sign] + t;
    DecNatEnc(m, rest);
    DecIntTagged([sign] + t, t, sign, m, rest);
  }

  lemma DecIntTagged(s: string, t: string, sign: char, n: nat, rest: string)
    requires s == [sign] + t && (sign == '-' || sign == '+') && DecNat(t) == Some((n, rest))
    ensures DecInt(s) == Some((if sign == '-' then -(n as int) else n as int, rest))
  {
    TagSplit(sign, t, s);
  }

  function EncYear(y: YearValue): string {
    match y
      case Year(n) => "Y" + EncInt(n)
      case NotAvailable => "N"
  }

  function DecYear(s: string): Option<(YearValue, string)> {
    if s == [] then None
    else if s[0] == 'N' then Some((NotAvailable, s[1..]))
    else if s[0] != 'Y' then None
    else match DecInt(s[1..])
      case None => None
      case Some((n, r)) => Some((Year(n), r))
  }

  lemma DecYearEnc(y: YearValue, rest: string)
    ensures DecYear(EncYear(y) + rest) == Some((y, rest))
  {
    if y.Year? {
      DecYearEncYear(y.n, rest);
    } else {
      assert EncYear(y) + rest == ['N'] + rest;
    }
  }

  lemma DecYearEncYear(n: int, rest: string)
    ensures DecYear(EncYear(Year(n)) + rest) == Some((Year(n), rest))
  {
    var t := EncInt(n) + rest;
    assert EncYear(Year(n)) + rest == ['Y'] + t;
    DecIntEnc(n, rest);
    DecYearTagged(['Y'] + t, t, n, rest);
  }

  lemma DecYearTagged(s: string, t: string, n: int, rest: string)
    requires s == ['Y'] + t && DecInt(t) == Some((n, rest))
    ensures DecYear(s) == Some((Year(n), rest))
  {
    assert s[1..] == t;
  }

  function EncOptStr(o: Option<string>): string {
    match o
      case None => "N"
      case Some(x) => "S" + EncStr(x)
  }

  function DecOptStr(s: string): Option<(Option<string>, string)> {
    if s == [] then None
    else if s[0] == 'N' then Some((None, s[1..]))
    else if s[0] != 'S' then None
    else match DecStr(s[1..])
      case None => None
      case Some((x, r)) => Some((Some(x), r))
  }

  lemma DecOptStrEnc(o: Option<string>, rest: string)
    ensures DecOptStr(EncOptStr(o) + rest) == Some((o, rest))
  {
    if o.Some? {
      DecOptStrEncSome(o.value, rest);
    } else {
      assert EncOptStr(o) + rest == ['N'] + rest;
      TagSplit('N', rest, EncOptStr(o) + rest);
    }
  }

  lemma DecOptStrEncSome(x: string, rest: string)
    ensures DecOptStr(EncOptStr(Some(x)) + rest) == Some((Some(x), rest))
  {
    var t := EncStr(x) + rest;
    assert EncOptStr(Some(x)) + rest == ['S'] + t;
    DecStrEnc(x, rest);
    TagSplit('S', t, ['S'] + t);
  }

  /** One local source: id, title, author, year, file path and count, in that order. */
  function EncSource(e: LocalSource): string {
    EncStr(e.id) + (EncStr(e.title) + (EncStr(e.author) + (EncYear(e.year) + (EncOptStr(e.filePath) + EncNat(e.count)))))
  }

  function DecSource(s: string): Option<(LocalSource, string)> {
    match DecStr(s)
      case None => None
      case Some((id, s1)) =>
        match DecStr(s1)
          case None => None
          case Some((title, s2)) =>
            match DecStr(s2)
              case None => None
              case Some((author, s3)) =>
                match DecYear(s3)
                  case None => None
                  case Some((year, s4)) =>
                    match DecOptStr(s4)
                      case None => None
                      case Some((path, s5)) =>
                        match DecNat(s5)
                          case None => None
                          case Some((count, s6)) => Some((LocalSource(id, title, author, year, path, count), s6))
  }

  lemma DecSourceEnc(e: LocalSource, rest: string)
    ensures DecSource(EncSource(e) + rest) == Some((e, rest))
  {
    var p5 := EncNat(e.count);
    var p4 := EncOptStr(e.filePath);
    var p3 := EncYear(e.year);
    var p2 := EncStr(e.author);
    var p1 := EncStr(e.title);
    var p0 := EncStr(e.id);
    var s5 := p5 + rest;
    var s4 := p4 + s5;
    var s3 := p3 + s4;
    var s2 := p2 + s3;
    var s1 := p1 + s2;
    assert EncSource(e) + rest == p0 + s1;
    DecStrEnc(e.id, s1);
    DecStrEnc(e.title, s2);
    DecStrEnc(e.author, s3);
    DecYearEnc(e.year, s4);
    DecOptStrEnc(e.filePath, s5);
    DecNatEnc(e.count, rest);
  }

  function EncSourceList(ms: seq<LocalSource>): string {
    if ms == [] then "" else EncSource(ms[0]) + EncSourceList(ms[1..])
  }

  function DecSourceList(n: nat, s: string): Option<(seq<LocalSource>, string)>
    decreases n
  {
    if n == 0 then Some(([], s))
    else match DecSource(s)
      case None => None
      case Some((e, r)) =>
        match DecSourceList(n - 1, r)
          case None => None
          case Some((es, r')) => Some(([e] + es, r'))
  }

  lemma {:induction false} DecSourceListEnc(ms: seq<LocalSource>, rest: string)
    ensures DecSourceList(|ms|, EncSourceList(ms) + rest) == Some((ms, rest))
  {
    if ms != [] {
      DecSourceListEnc(ms[1..], rest);
      DecSourceListStep(ms, rest);
    } else {
      assert EncSourceList(ms) + rest == rest;
    }
  }

  lemma DecSourceListStep(ms: seq<LocalSource>, rest: string)
    requires ms != []
    requires DecSourceList(|ms| - 1, EncSourceList(ms[1..]) + rest) == Some((ms[1..], rest))
    ensures DecSourceList(|ms|, EncSourceList(ms) + rest) == Some((ms, rest))
  {
    var tail := EncSourceList(ms[1..]) + rest;
    EncSourceListCons(ms, rest);
    DecSourceEnc(ms[0], tail);
    DecSourceListCons(|ms|, EncSource(ms[0]) + tail, ms[0], tail, ms[1..], rest);
    SourcesHeadTail(ms);
  }

  lemma SourcesHeadTail(ms: seq<LocalSource>)
    requires ms != []
    ensures [ms[0]] + ms[1..] == ms
  {
  }

  lemma EncSourceListCons(ms: seq<LocalSource>, rest: string)
    requires ms != []
    ensures EncSourceList(ms) + rest == EncSource(ms[0]) + (EncSourceList(ms[1..]) + rest)
  {
  }

  lemma DecSourceListCons(n: nat, s: string, e: LocalSource, tail: string, es: seq<LocalSource>, rest: string)
    requires n >= 1 && DecSource(s) == Some((e, tail)) && DecSourceList(n - 1, tail) == Some((es, rest))
    ensures DecSourceList(n, s) == Some(([e] + es, rest))
  {
  }

  function EncStrList(us: seq<string>): string {
    if us == [] then "" else EncStr(us[0]) + EncStrList(us[1..])
  }

  function DecStrList(n: nat, s: string): Option<(seq<string>, string)>
    decreases n
  {
    if n == 0 then Some(([], s))
    else match DecStr(s)
      case None => None
      case Some((u, r)) =>
        match DecStrList(n - 1, r)
          case None => None
          case Some((us, r')) => Some(([u] + us, r'))
  }

  lemma {:induction false} DecStrListEnc(us: seq<string>, rest: string)
    ensures DecStrList(|us|, EncStrList(us) + rest) == Some((us, rest))
  {
    if us != [] {
      DecStrListEnc(us[1..], rest);
      DecStrListStep(us, rest);
    } else {
      assert EncStrList(us) + rest == rest;
    }
  }

  lemma DecStrListStep(us: seq<string>, rest: string)
    requires us != []
    requires DecStrList(|us| - 1, EncStrList(us[1..]) + rest) == Some((us[1..], rest))
    ensures DecStrList(|us|, EncStrList(us) + rest) == Some((us, rest))
  {
    var tail := EncStrList(us[1..]) + rest;
    EncStrListCons(us, rest);
    DecStrEnc(us[0], tail);
    DecStrListCons(|us|, EncStr(us[0]) + tail, us[0], tail, us[1..], rest);
    StringsHeadTail(us);
  }

  lemma StringsHeadTail(us: seq<string>)
    requires us != []
    ensures [us[0]] + us[1..] == us
  {
  }

  lemma EncStrListCons(us: seq<string>, rest: string)
    requires us != []
    ensures EncStrList(us) + rest == EncStr(us[0]) + (EncStrList(us[1..]) + rest)
  {
  }

  lemma DecStrListCons(n: nat, s: string, u: string, tail: string, us: seq<string>, rest: string)
    requires n >= 1 && DecStr(s) == Some((u, tail)) && DecStrList(n - 1, tail) == Some((us, rest))
    ensures DecStrList(n, s) == Some(([u] + us, rest))
  {
  }

  /** json.dumps of the matched sources. */
  function Encode(m: MatchedSources): (t: string)
    ensures t != []
  {
    EncNat(|m.local|) + (EncSourceList(m.local) + (EncNat(|m.internet|) + EncStrList(m.internet)))
  }

  /** json.loads: the sources, or None when the text is not a complete encoding. */
  function Decode(t: string): Option<MatchedSources> {
    match DecNat(t)
      case None => None
      case Some((n, r1)) =>
        match DecSourceList(n, r1)
          case None => None
          case Some((local, r2)) =>
            match DecNat(r2)
              case None => None
              case Some((k, r3)) =>
                match DecStrList(k, r3)
                  case None => None
                  case Some((internet, r4)) => if r4 == [] then Some(MatchedSources(local, internet)) else None
  }

  /** The internet half: decoding its encoding leaves nothing over. */
  lemma DecodeInternet(us: seq<string>)
    ensures var t := EncNat(|us|) + EncStrList(us);
      DecNat(t) == Some((|us|, EncStrList(us))) && DecStrList(|us|, EncStrList(us)) == Some((us, []))
  {
    DecNatEnc(|us|, EncStrList(us));
    DecStrListEnc(us, []);
    assert EncStrList(us) + [] == EncStrList(us);
  }

  /** Decoding the encoding gives the sources back. */
  lemma DecodeEncode(m: MatchedSources)
    ensures Decode(Encode(m)) == Some(m)
  {
    var r2 := EncNat(|m.internet|) + EncStrList(m.internet);
    var r1 := EncSourceList(m.local) + r2;
    assert Encode(m) == EncNat(|m.local|) + r1;
    DecNatEnc(|m.local|, r1);
    DecSourceListEnc(m.local, r2);
    DecodeInternet(m.internet);
  }
}
