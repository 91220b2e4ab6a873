/** Derivation paths as text: the parser, the printer, and the language between them. */
module DerivationPaths {
  import opened Domain

  const TWO_TO_THE_31 := 0x8000_0000
  const TWO_TO_THE_32 := 0x1_0000_0000

  /** First index of the hardened half. */
  const HARDENED_KEY_START := TWO_TO_THE_31

  type Index = n: nat | n < TWO_TO_THE_32

  // ----- Decimal numbers ---------------------------------------------------------------------

  predicate IsDigit(c: char) {
    '0' <= c <= '9'
  }

  predicate AllDigits(s: string) {
    forall c | c in s :: IsDigit(c)
  }

  function DigitChar(d: nat): (c: char)
    requires d < 10
    ensures IsDigit(c) && DigitValue(c) == d
  {
    "0123456789"[d]
  }

  function DigitValue(c: char): nat
    requires IsDigit(c)
  {
    (c as int) - ('0' as int)
  }

  function Value(s: string): nat
    requires AllDigits(s)
  {
    if s == "" then 0 else 10 * Value(s[..|s| - 1]) + DigitValue(s[|s| - 1])
  }

  function Decimal(n: nat): (s: string)
    ensures s != "" && AllDigits(s)
  {
    if n < 10 then [DigitChar(n)] else Decimal(n / 10) + [DigitChar(n % 10)]
  }

  lemma {:induction false} ValueOfDecimal(n: nat)
    ensures Value(Decimal(n)) == n
  {
    if n < 10 {
      assert Decimal(n)[..0] == "";
    } else {
      ValueOfDecimal(n / 10);
      assert Decimal(n)[..|Decimal(n)| - 1] == Decimal(n / 10);
    }
  }

  /** The usual way to write a number: no leading zero unless it is the only digit. */
  predicate Shortest(s: string) {
    s != "" && AllDigits(s) && (s[0] == '0' ==> |s| == 1)
  }

  lemma {:induction false} DecimalIsShortest(n: nat)
    ensures Shortest(Decimal(n)) && (n > 0 ==> Decimal(n)[0] != '0')
  {
    if n >= 10 {
      DecimalIsShortest(n / 10);
    }
  }

  lemma DigitRoundTrip(c: char)
    requires IsDigit(c)
    ensures DigitChar(DigitValue(c)) == c
  {
  }

  lemma {:induction false} DecimalOfValue(s: string)
    requires Shortest(s)
    ensures Decimal(Value(s)) == s
    ensures s[0] != '0' ==> Value(s) > 0
    decreases |s|
  {
    var n := |s| - 1;
    var init, d := s[..n], DigitValue(s[n]);
    DigitRoundTrip(s[n]);
    if n == 0 {
      assert init == "" && s == [s[0]];
    } else {
      DecimalOfValue(init);
      var v := Value(init);
      assert Value(s) == 10 * v + d && v > 0;
      assert Value(s) / 10 == v && Value(s) % 10 == d;
      assert s == init + [s[n]];
    }
  }

  /** The library's ParseUint with base 10 and 32 bits: digits only, at least one, in range. */
  function ParseUint32(s: string): Option<Index> {
    if s != "" && AllDigits(s) && Value(s) < TWO_TO_THE_32 then Some(Value(s)) else None
  }

  // ----- Splitting and joining ---------------------------------------------------------------

  /** strings.Split: the text between separators, always at least one piece. */
  function Split(s: string, sep: char): (parts: seq<string>)
    ensures parts != []
  {
    if s == "" then [""]
    else
      var rest := Split(s[1..], sep);
      if s[0] == sep then [""] + rest else [[s[0]] + rest[0]] + rest[1..]
  }

  function Join(parts: seq<string>, sep: char): string
    requires parts != []
  {
    if |parts| == 1 then parts[0] else parts[0] + [sep] + Join(parts[1..], sep)
  }

  lemma {:induction false} JoinOfSplit(s: string, sep: char)
    ensures Join(Split(s, sep), sep) == s
    ensures forall p | p in Split(s, sep) :: sep !in p
  {
    if s != "" {
      JoinOfSplit(s[1..], sep);
      var rest := Split(s[1..], sep);
      if s[0] == sep {
        assert ([""] + rest)[1..] == rest;
      } else {
        var parts := [[s[0]] + rest[0]] + rest[1..];
        assert parts[1..] == rest[1..];
        forall p | p in parts
          ensures sep !in p
        {
          assert p == parts[0] || p in rest[1..];
          assert rest[0] in rest;
        }
      }
    }
  }

  lemma {:induction false} SplitOfJoin(parts: seq<string>, sep: char)
    requires parts != [] && forall p | p in parts :: sep !in p
    ensures Split(Join(parts, sep), sep) == parts
  {
    if |parts| == 1 {
      SplitWithoutSeparator(parts[0], sep);
    } else {
      SplitOfJoin(parts[1..], sep);
      SplitPrefix(parts[0], Join(parts[1..], sep), sep);
      assert parts[0] + [sep] + Join(parts[1..], sep) == parts[0] + ([sep] + Join(parts[1..], sep));
      assert parts == [parts[0]] + parts[1..];
    }
  }

  lemma {:induction false} SplitWithoutSeparator(p: string, sep: char)
    requires sep !in p
    ensures Split(p, sep) == [p]
  {
    if p != "" {
      SplitWithoutSeparator(p[1..], sep);
      assert p == [p[0]] + p[1..];
    }
  }

  lemma {:induction false} SplitPrefix(p: string, s: string, sep: char)
    requires sep !in p
    ensures Split(p + ([sep] + s), sep) == [p] + Split(s, sep)
  {
    if p == "" {
      assert p + ([sep] + s) == [sep] + s;
      assert ([sep] + s)[1..] == s;
    } else {
      SplitPrefix(p[1..], s, sep);
      assert (p + ([sep] + s))[1..] == p[1..] + ([sep] + s);
      assert p == [p[0]] + p[1..];
    }
  }

  // ----- Parsing -----------------------------------------------------------------------------

  predicate HasQuote(p: string) {
    p != "" && p[|p| - 1] == '\''
  }

  function WithoutQuote(p: string): string {
    if HasQuote(p) then p[..|p| - 1] else p
  }

  /** One component; adding the hardened offset wraps around as 32-bit addition does. */
  function ParseComponent(p: string): Option<Index> {
    match ParseUint32(WithoutQuote(p))
    case None => None
    case Some(n) => Some(if HasQuote(p) then (n + HARDENED_KEY_START) % TWO_TO_THE_32 else n)
  }

  function ParseComponents(parts: seq<string>): Option<seq<Index>> {
    if parts == [] then Some([])
    else
      match (ParseComponents(parts[..|parts| - 1]), ParseComponent(parts[|parts| - 1]))
      case (Some(init), Some(idx)) => Some(init + [idx])
      case _ => None
  }

  const PATH_PREFIX := "m/"

  function ParsedPath(path: DerivationPath): Option<seq<Index>> {
    if PATH_PREFIX <= path then ParseComponents(Split(path[2..], '/')) else None
  }

  method ParsePath(path: DerivationPath) returns (indices: Option<seq<Index>>)
    ensures indices == ParsedPath(path)
  {
    if !(PATH_PREFIX <= path) {
      return None;
    }
    var parts := Split(path[2..], '/');
    var out := [];
    for i := 0 to |parts|
      invariant ParseComponents(parts[..i]) == Some(out)
    {
      ParsedOneMore(parts, i, out);
      var p := parts[i];
      var hardened := HasQuote(p);
      if hardened {
        p := p[..|p| - 1];
      }
      var n := ParseUint32(p);
      if n.None? {
        FailureSpreads(parts, i + 1);
        return None;
      }
      var idx: Index := n.value;
      if hardened {
        idx := (idx + HARDENED_KEY_START) % TWO_TO_THE_32;
      }
      out := out + [idx];
    }
    assert parts[..|parts|] == parts;
    return Some(out);
  }

  lemma ParsedOneMore(parts: seq<string>, i: nat, out: seq<Index>)
    requires i < |parts| && ParseComponents(parts[..i]) == Some(out)
    ensures ParseComponents(parts[..i + 1])
         == match ParseComponent(parts[i]) case None => None case Some(idx) => Some(out + [idx])
  {
    assert parts[..i + 1][..i] == parts[..i];
  }

  lemma {:induction false} FailureSpreads(parts: seq<string>, i: nat)
    requires i <= |parts| && ParseComponents(parts[..i]).None?
    ensures ParseComponents(parts).None?
    decreases |parts| - i
  {
    if i < |parts| {
      assert parts[..i + 1][..i] == parts[..i];
      FailureSpreads(parts, i + 1);
    } else {
      assert parts[..i] == parts;
    }
  }

  /** Components parse independently of each other. */
  lemma {:induction false} ComponentsParsePointwise(parts: seq<string>)
    ensures ParseComponents(parts).Some? <==> forall p | p in parts :: ParseComponent(p).Some?
    ensures ParseComponents(parts).Some? ==>
              && |ParseComponents(parts).value| == |parts|
              && forall i | 0 <= i < |parts| :: Some(ParseComponents(parts).value[i]) == ParseComponent(parts[i])
  {
    if parts != [] {
      ComponentsParsePointwise(parts[..|parts| - 1]);
      assert parts == parts[..|parts| - 1] + [parts[|parts| - 1]];
    }
  }

  // ----- The language ------------------------------------------------------------------------

  predicate IsNumber(s: string) {
    s != "" && AllDigits(s) && Value(s) < TWO_TO_THE_32
  }

  /** One or more digits below 2^32, optionally followed by one quote. */
  predicate IsComponent(p: string) {
    IsNumber(p) || (p != "" && p[|p| - 1] == '\'' && IsNumber(p[..|p| - 1]))
  }

  /** "m/" followed by slash-separated components. */
  ghost predicate IsPath(path: DerivationPath, parts: seq<string>) {
    parts != [] && (forall p | p in parts :: IsComponent(p)) && path == "m/" + Join(parts, '/')
  }

  lemma ComponentsAreWhatParses(p: string)
    ensures ParseComponent(p).Some? <==> IsComponent(p)
    ensures IsComponent(p) ==> '/' !in p
  {
    if HasQuote(p) {
      assert !AllDigits(p) by {
        assert !IsDigit(p[|p| - 1]);
      }
      assert p == p[..|p| - 1] + ['\''];
    }
    assert !IsDigit('/');
    if '/' in p {
      assert '/' in WithoutQuote(p);
    }
  }

  /** The parser accepts exactly that language. */
  lemma ParserAcceptsExactlyTheLanguage(path: DerivationPath)
    ensures ParsedPath(path).Some? <==> exists parts :: IsPath(path, parts)
  {
    if PATH_PREFIX <= path {
      var split := Split(path[2..], '/');
      ComponentsParsePointwise(split);
      JoinOfSplit(path[2..], '/');
      assert path == PATH_PREFIX + path[2..];
      forall p: string
        ensures ParseComponent(p).Some? <==> IsComponent(p)
      {
        ComponentsAreWhatParses(p);
      }
      if ParsedPath(path).Some? {
        assert IsPath(path, split);
      }
    }
    forall parts | IsPath(path, parts)
      ensures ParsedPath(path).Some?
    {
      PathsParse(path, parts);
    }
  }

  /** The indices of a path are those of its components, in order. */
  lemma PathsParse(path: DerivationPath, parts: seq<string>)
    requires IsPath(path, parts)
    ensures ParsedPath(path) == ParseComponents(parts) && ParsedPath(path).Some?
  {
    forall p | p in parts
      ensures ParseComponent(p).Some? && '/' !in p
    {
      ComponentsAreWhatParses(p);
    }
    assert path[2..] == Join(parts, '/');
    SplitOfJoin(parts, '/');
    ComponentsParsePointwise(parts);
  }

  /** Digit by digit the value is what decimal notation says. */
  lemma ValueByDigits(s: string, c: char)
    requires AllDigits(s) && IsDigit(c)
    ensures AllDigits(s + [c]) && Value(s + [c]) == 10 * Value(s) + (c as int - '0' as int) && Value("") == 0
  {
    assert (s + [c])[..|s|] == s;
  }

  /** The index of a component: its number, or 2^31 more when quoted, which for large numbers wraps to 2^31 less. */
  lemma ComponentValue(p: string)
    requires IsNumber(p)
    ensures ParseComponent(p) == Some(Value(p))
    ensures Value(p) < 0x8000_0000 ==> ParseComponent(p + "'") == Some(Value(p) + 0x8000_0000)
    ensures Value(p) >= 0x8000_0000 ==> ParseComponent(p + "'") == Some(Value(p) - 0x8000_0000)
  {
    ComponentsAreWhatParses(p);
    assert p[|p| - 1] in p && (p + "'")[..|p|] == p;
  }

  /** A quoted number names a hardened index exactly when it is below 2^31; above, the offset wraps it round. */
  lemma QuoteHardensExactlyBelowHalf(p: string)
    requires HasQuote(p) && IsComponent(p)
    ensures ParseComponent(p).Some?
    ensures ParseComponent(p).value >= HARDENED_KEY_START <==> Value(WithoutQuote(p)) < TWO_TO_THE_31
  {
    ComponentsAreWhatParses(p);
  }

  // ----- Printing ----------------------------------------------------------------------------

  function PrintIndex(i: Index): string {
    if i >= HARDENED_KEY_START then Decimal(i - HARDENED_KEY_START) + "'" else Decimal(i)
  }

  function PrintAll(indices: seq<Index>): (parts: seq<string>)
    ensures |parts| == |indices|
    ensures forall i | 0 <= i < |indices| :: parts[i] == PrintIndex(indices[i])
  {
    if indices == [] then [] else PrintAll(indices[..|indices| - 1]) + [PrintIndex(indices[|indices| - 1])]
  }

  function PrintPath(indices: seq<Index>): DerivationPath
    requires indices != []
  {
    PATH_PREFIX + Join(PrintAll(indices), '/')
  }

  lemma ParseOfPrintIndex(i: Index)
    ensures IsComponent(PrintIndex(i)) && ParseComponent(PrintIndex(i)) == Some(i)
  {
    var n := if i >= HARDENED_KEY_START then i - HARDENED_KEY_START else i;
    ValueOfDecimal(n);
    DecimalHasNoQuote(n);
    assert (Decimal(n) + "'")[..|Decimal(n)|] == Decimal(n);
  }

  /** Printing any non-empty sequence of indices and parsing the text gives the sequence back. */
  lemma ParseOfPrint(indices: seq<Index>)
    requires indices != []
    ensures ParsedPath(PrintPath(indices)) == Some(indices)
  {
    var parts := PrintAll(indices);
    forall p | p in parts
      ensures IsComponent(p)
    {
      var i :| 0 <= i < |indices| && parts[i] == p;
      ParseOfPrintIndex(indices[i]);
    }
    assert IsPath(PrintPath(indices), parts);
    PathsParse(PrintPath(indices), parts);
    ComponentsParsePointwise(parts);
    var parsed := ParseComponents(parts).value;
    forall i | 0 <= i < |indices|
      ensures parsed[i] == indices[i]
    {
      ParseOfPrintIndex(indices[i]);
    }
    assert parsed == indices;
  }

  /** Whatever text a path was written as, printing what it parses to and parsing again changes no index. */
  lemma PrintingNormalises(path: DerivationPath)
    requires ParsedPath(path).Some?
    ensures ParsedPath(path).value != []
    ensures ParsedPath(PrintPath(ParsedPath(path).value)) == ParsedPath(path)
  {
    ComponentsParsePointwise(Split(path[2..], '/'));
    ParseOfPrint(ParsedPath(path).value);
  }

  /** Written as the printer would: no leading zeros, the number below 2^31 whether quoted or not. */
  predicate CanonicalComponent(p: string) {
    var body := WithoutQuote(p);
    Shortest(body) && Value(body) < TWO_TO_THE_31
  }

  lemma PrintOfParseComponent(p: string)
    requires IsComponent(p)
    ensures ParseComponent(p).Some?
    ensures PrintIndex(ParseComponent(p).value) == p <==> CanonicalComponent(p)
  {
    ComponentsAreWhatParses(p);
    if HasQuote(p) {
      assert p == p[..|p| - 1] + "'";
      PrintOfQuoted(p, p[..|p| - 1], ParseComponent(p).value);
    } else {
      PrintOfUnquoted(p);
    }
  }

  lemma PrintOfUnquoted(p: string)
    requires !HasQuote(p) && IsNumber(p)
    ensures PrintIndex(Value(p)) == p <==> Shortest(p) && Value(p) < TWO_TO_THE_31
  {
    var n := Value(p);
    if n < TWO_TO_THE_31 {
      DecimalIsValue(p);
    } else {
      DecimalHasNoQuote(n - HARDENED_KEY_START);
    }
  }

  lemma PrintOfQuoted(p: string, body: string, i: Index)
    requires p == body + "'" && IsNumber(body)
    requires i == if Value(body) < TWO_TO_THE_31 then Value(body) + TWO_TO_THE_31 else Value(body) - TWO_TO_THE_31
    ensures PrintIndex(i) == p <==> Shortest(body) && Value(body) < TWO_TO_THE_31
  {
    if Value(body) < TWO_TO_THE_31 {
      assert PrintIndex(i) == Decimal(Value(body)) + "'";
      DecimalIsValue(body);
    } else {
      assert PrintIndex(i) == Decimal(i);
      DecimalHasNoQuote(i);
      assert HasQuote(p);
    }
  }

  /** A number is printed as it was written exactly when it was written shortest. */
  lemma DecimalIsValue(s: string)
    requires s != "" && AllDigits(s)
    ensures Decimal(Value(s)) == s <==> Shortest(s)
    ensures Decimal(Value(s)) + "'" == s + "'" <==> Shortest(s)
  {
    DecimalIsShortest(Value(s));
    if Shortest(s) {
      DecimalOfValue(s);
    }
    assert (s + "'")[..|s|] == s;
    assert (Decimal(Value(s)) + "'")[..|Decimal(Value(s))|] == Decimal(Value(s));
  }

  lemma DecimalHasNoQuote(n: nat)
    ensures !HasQuote(Decimal(n)) && HasQuote(Decimal(n) + "'")
  {
    var d := Decimal(n);
    assert d[|d| - 1] in d && IsDigit(d[|d| - 1]);
  }

  /** The text itself survives parsing and printing exactly when every component is canonical. */
  lemma PrintOfParse(path: DerivationPath, parts: seq<string>)
    requires IsPath(path, parts)
    ensures ParsedPath(path).Some? && ParsedPath(path).value != []
    ensures PrintPath(ParsedPath(path).value) == path <==> forall p | p in parts :: CanonicalComponent(p)
  {
    PathsParse(path, parts);
    ComponentsParsePointwise(parts);
    var indices := ParsedPath(path).value;
    var printed := PrintAll(indices);
    forall i | 0 <= i < |parts|
      ensures printed[i] == parts[i] <==> CanonicalComponent(parts[i])
    {
      assert parts[i] in parts;
      PrintOfParseComponent(parts[i]);
    }
    PrintedIsTheText(path, parts, indices);
    assert printed == parts <==> forall i | 0 <= i < |parts| :: printed[i] == parts[i];
  }

  /** Two paths are the same text exactly when they have the same components. */
  lemma PrintedIsTheText(path: DerivationPath, parts: seq<string>, indices: seq<Index>)
    requires IsPath(path, parts) && indices != []
    ensures PrintPath(indices) == path <==> PrintAll(indices) == parts
  {
    var printed := PrintAll(indices);
    forall p | p in printed || p in parts
      ensures '/' !in p
    {
      if p in printed {
        var i :| 0 <= i < |indices| && printed[i] == p;
        ParseOfPrintIndex(indices[i]);
      }
      ComponentsAreWhatParses(p);
    }
    if PrintPath(indices) == path {
      assert Join(printed, '/') == path[2..] == Join(parts, '/');
      SplitOfJoin(printed, '/');
      SplitOfJoin(parts, '/');
    }
  }
}
