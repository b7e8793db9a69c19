/** Key/value pairs of ENV, LABEL and ARG lines (src/builder/parser.rs). */
module KeyValue {
  import opened Text

  type Pair = (string, string)

  predicate EndsKey(c: char) { c == '=' || IsWhitespace(c) }

  predicate IsInk(c: char) { !IsWhitespace(c) }

  predicate IsQuote(c: char) { c == '"' || c == '\'' }

  /** How far a scan goes that stops at the first character of a kind, or at the end. */
  function ScanLength(s: string, stop: char -> bool): (n: nat)
    ensures n <= |s|
    ensures n < |s| ==> stop(s[n])
    ensures forall j :: 0 <= j < n ==> !stop(s[j])
  {
    if s == "" || stop(s[0]) then 0
    else
      var r := ScanLength(s[1..], stop);
      assert forall j :: 1 <= j < r + 1 ==> s[j] == s[1..][j - 1];
      r + 1
  }

  lemma ScanLengthIs(s: string, stop: char -> bool, n: nat)
    requires n <= |s| && (n < |s| ==> stop(s[n])) && forall j :: 0 <= j < n ==> !stop(s[j])
    ensures ScanLength(s, stop) == n
  {
  }

  function SkipSpaces(s: string): string { s[ScanLength(s, IsInk)..] }

  function KeyOf(s: string): string { s[..ScanLength(s, EndsKey)] }

  function AfterKey(s: string): string { s[ScanLength(s, EndsKey)..] }

  function DropEquals(s: string): string {
    if s != "" && s[0] == '=' then s[1..] else s
  }

  /** What follows a key: spaces, an equals sign if there is one, and spaces again. */
  function BeforeValue(s: string): string { SkipSpaces(DropEquals(SkipSpaces(s))) }

  /** A value after its opening quote; a backslash stands for the character after it. */
  function QuotedValue(s: string, quote: char): string {
    if s == "" || s[0] == quote then ""
    else if s[0] == '\\' && |s| > 1 then [s[1]] + QuotedValue(s[2..], quote)
    else [s[0]] + QuotedValue(s[1..], quote)
  }

  /** What follows the closing quote. */
  function AfterQuoted(s: string, quote: char): (rest: string)
    ensures |rest| <= |s|
  {
    if s == "" then ""
    else if s[0] == quote then s[1..]
    else if s[0] == '\\' && |s| > 1 then AfterQuoted(s[2..], quote)
    else AfterQuoted(s[1..], quote)
  }

  function ValueOf(s: string): string {
    if s != "" && IsQuote(s[0]) then QuotedValue(s[1..], s[0]) else s[..ScanLength(s, IsWhitespace)]
  }

  function AfterValue(s: string): string {
    if s != "" && IsQuote(s[0]) then AfterQuoted(s[1..], s[0]) else s[ScanLength(s, IsWhitespace)..]
  }

  /** What is left after one key and its value. */
  function AfterPair(s: string): string { AfterValue(BeforeValue(AfterKey(s))) }

  function PairOf(s: string): seq<Pair> {
    if KeyOf(s) == "" then [] else [(KeyOf(s), ValueOf(BeforeValue(AfterKey(s))))]
  }

  /** Each round of the outer loop consumes something. */
  lemma PairShrinks(s: string)
    requires s != "" && !IsWhitespace(s[0])
    ensures |AfterPair(s)| < |s|
  {
    if s[0] == '=' {
      assert ScanLength(s, EndsKey) == 0;
      assert AfterKey(s) == s;
      assert ScanLength(s, IsInk) == 0;
    }
  }

  function ParsePairs(s: string): seq<Pair>
    decreases |s|
  {
    var t := SkipSpaces(s);
    if t == "" then []
    else
      PairShrinks(t);
      PairOf(t) + ParsePairs(AfterPair(t))
  }

  /** `trim_matches(c)`. */
  function TrimMatches(s: string, c: char): string {
    TrimEndBy(TrimStartBy(s, x => x == c), x => x == c)
  }

  /** The old form without an equals sign: one key, and the rest of the line as its value. */
  function ParseOldForm(line: string): seq<Pair> {
    var i := ScanLength(line, IsWhitespace);
    if i == |line| then []
    else [(Trim(line[..i]), OldValue(line[i + 1..]))]
  }

  function OldValue(rest: string): string {
    TrimMatches(TrimMatches(Trim(rest), '"'), '\'')
  }

  function Parsed(line: string): seq<Pair> {
    if '=' !in line then ParseOldForm(line) else ParsePairs(line)
  }

  // ---------------------------------------------------------------------------------------
  // The scanner

  /** One of the inner loops: the characters up to the first of a kind. */
  method ScanUntil(chars: string, start: nat, stop: char -> bool) returns (text: string, i: nat)
    requires start <= |chars|
    ensures i == start + ScanLength(chars[start..], stop)
    ensures start <= i <= |chars| && text == chars[start..i]
  {
    text, i := "", start;
    while i < |chars| && !stop(chars[i])
      invariant start <= i <= |chars| && text == chars[start..i]
      invariant forall j :: start <= j < i ==> !stop(chars[j])
    {
      text := text + [chars[i]];
      i := i + 1;
    }
    ScanLengthIs(chars[start..], stop, i - start);
  }

  lemma SliceOfSlice(s: string, a: nat, n: nat)
    requires a + n <= |s|
    ensures s[a..][n..] == s[a + n..] && s[a..][..n] == s[a..a + n]
  {
  }

  /** One round of the loop over a quoted value. */
  lemma QuotedStep(chars: string, i: nat, quote: char)
    requires i < |chars| && chars[i] != quote
    ensures var k := if chars[i] == '\\' && i + 1 < |chars| then i + 1 else i;
            && QuotedValue(chars[i..], quote) == [chars[k]] + QuotedValue(chars[k + 1..], quote)
            && AfterQuoted(chars[i..], quote) == AfterQuoted(chars[k + 1..], quote)
  {
    SliceOfSlice(chars, i, 1);
    if i + 1 < |chars| {
      SliceOfSlice(chars, i, 2);
    }
  }

  lemma QuotedEnd(chars: string, i: nat, quote: char)
    requires i <= |chars| && (i < |chars| ==> chars[i] == quote)
    ensures QuotedValue(chars[i..], quote) == ""
    ensures AfterQuoted(chars[i..], quote) == if i < |chars| then chars[i + 1..] else chars[i..]
  {
    if i < |chars| {
      SliceOfSlice(chars, i, 1);
    }
  }

  /** The same, with what has been read before. */
  lemma QuotedRound(val: string, chars: string, i: nat, quote: char)
    requires i < |chars| && chars[i] != quote
    ensures var k := if chars[i] == '\\' && i + 1 < |chars| then i + 1 else i;
            && val + QuotedValue(chars[i..], quote) == val + [chars[k]] + QuotedValue(chars[k + 1..], quote)
            && AfterQuoted(chars[i..], quote) == AfterQuoted(chars[k + 1..], quote)
  {
    QuotedStep(chars, i, quote);
    var k := if chars[i] == '\\' && i + 1 < |chars| then i + 1 else i;
    Regroup(val, [chars[k]], QuotedValue(chars[k + 1..], quote));
  }

  /** The loop over a quoted value. */
  method ScanQuoted(chars: string, start: nat, quote: char) returns (val: string, i: nat)
    requires start <= |chars|
    ensures start <= i <= |chars|
    ensures val == QuotedValue(chars[start..], quote) && chars[i..] == AfterQuoted(chars[start..], quote)
  {
    val, i := "", start;
    while i < |chars| && chars[i] != quote
      invariant start <= i <= |chars|
      invariant val + QuotedValue(chars[i..], quote) == QuotedValue(chars[start..], quote)
      invariant AfterQuoted(chars[i..], quote) == AfterQuoted(chars[start..], quote)
    {
      QuotedRound(val, chars, i, quote);
      if chars[i] == '\\' && i + 1 < |chars| {
        i := i + 1;
      }
      val := val + [chars[i]];
      i := i + 1;
    }
    QuotedEnd(chars, i, quote);
    if i < |chars| && chars[i] == quote {
      i := i + 1;
    }
  }

  /** The part of the outer loop from a key to the end of its value. */
  method ScanPair(chars: string, start: nat) returns (key: string, val: string, i: nat)
    requires start < |chars|
    ensures start <= i <= |chars| && chars[i..] == AfterPair(chars[start..])
    ensures key == KeyOf(chars[start..]) && val == ValueOf(BeforeValue(AfterKey(chars[start..])))
  {
    key, i := ScanKey(chars, start);
    i := ScanBeforeValue(chars, i);
    val, i := ScanValue(chars, i);
  }

  method ScanKey(chars: string, start: nat) returns (key: string, i: nat)
    requires start <= |chars|
    ensures start <= i <= |chars|
    ensures key == KeyOf(chars[start..]) && chars[i..] == AfterKey(chars[start..])
  {
    key, i := ScanUntil(chars, start, EndsKey);
    SliceOfSlice(chars, start, i - start);
  }

  /** A value, quoted or bare. */
  method ScanValue(chars: string, start: nat) returns (val: string, i: nat)
    requires start <= |chars|
    ensures start <= i <= |chars|
    ensures val == ValueOf(chars[start..]) && chars[i..] == AfterValue(chars[start..])
  {
    if start < |chars| && IsQuote(chars[start]) {
      SliceOfSlice(chars, start, 1);
      val, i := ScanQuoted(chars, start + 1, chars[start]);
    } else {
      val, i := ScanUntil(chars, start, IsWhitespace);
      SliceOfSlice(chars, start, i - start);
      BareValue(chars[start..]);
    }
  }

  lemma BareValue(s: string)
    requires s == "" || !IsQuote(s[0])
    ensures ValueOf(s) == s[..ScanLength(s, IsWhitespace)] && AfterValue(s) == s[ScanLength(s, IsWhitespace)..]
  {
  }

  method ScanSpaces(chars: string, start: nat) returns (i: nat)
    requires start <= |chars|
    ensures start <= i <= |chars| && chars[i..] == SkipSpaces(chars[start..])
  {
    var skipped;
    skipped, i := ScanUntil(chars, start, IsInk);
    SliceOfSlice(chars, start, i - start);
  }

  /** Spaces, an equals sign, spaces. */
  method ScanBeforeValue(chars: string, start: nat) returns (i: nat)
    requires start <= |chars|
    ensures start <= i <= |chars| && chars[i..] == BeforeValue(chars[start..])
  {
    i := ScanSpaces(chars, start);
    ghost var s := chars[i..];
    if i < |chars| && chars[i] == '=' {
      SliceOfSlice(chars, i, 1);
      i := i + 1;
    }
    assert chars[i..] == DropEquals(s);
    i := ScanSpaces(chars, i);
  }

  /** One round of the outer loop: nothing but spaces, or a key and its value. */
  method ScanEntry(line: string, start: nat) returns (found: seq<Pair>, i: nat)
    requires start < |line|
    ensures start < i <= |line|
    ensures ParsePairs(line[start..]) == found + ParsePairs(line[i..])
  {
    i := ScanSpaces(line, start);
    ParseStep(line[start..]);
    if i >= |line| {
      NothingParsed();
      return [], i;
    }
    ghost var t := line[i..];
    PairShrinks(t);
    var key, val;
    key, val, i := ScanPair(line, i);
    found := if key != "" then [(key, val)] else [];
  }

  /** `parse_key_value_pairs`. */
  method ParseKeyValuePairs(line: string) returns (pairs: seq<Pair>)
    ensures pairs == Parsed(line)
  {
    if '=' !in line {
      return ParseOldForm(line);
    }
    pairs := [];
    var i := 0;
    ghost var rest := ParsePairs(line);
    assert line[0..] == line;
    while i < |line|
      invariant 0 <= i <= |line|
      invariant rest == ParsePairs(line[i..])
      invariant pairs + rest == ParsePairs(line)
    {
      var found;
      found, i := ScanEntry(line, i);
      rest := ParsePairs(line[i..]);
      Regroup(pairs, found, rest);
      pairs := pairs + found;
    }
    NothingParsed();
  }

  lemma NothingParsed()
    ensures ParsePairs("") == []
  {
    assert SkipSpaces("") == "";
  }

  /** One round of the outer loop. */
  lemma ParseStep(s: string)
    ensures var t := SkipSpaces(s);
            ParsePairs(s) == if t == "" then [] else PairOf(t) + ParsePairs(AfterPair(t))
  {
    var t := SkipSpaces(s);
    if t != "" { PairShrinks(t); }
  }

  // ---------------------------------------------------------------------------------------
  // A printer that the scanner inverts

  function Escape(s: string, quote: char): string {
    if s == "" then ""
    else (if s[0] == quote || s[0] == '\\' then ['\\', s[0]] else [s[0]]) + Escape(s[1..], quote)
  }

  function PrintPair(p: Pair, quote: char): string {
    p.0 + "=" + [quote] + Escape(p.1, quote) + [quote]
  }

  function Print(pairs: seq<Pair>, quote: char): string
    decreases |pairs|, 1
  {
    if pairs == [] then "" else PrintPair(pairs[0], quote) + PrintRest(pairs, quote)
  }

  function PrintRest(pairs: seq<Pair>, quote: char): string
    requires pairs != []
    decreases |pairs|, 0
  {
    if |pairs| == 1 then "" else " " + Print(pairs[1..], quote)
  }

  predicate GoodKey(key: string) {
    key != "" && forall i :: 0 <= i < |key| ==> key[i] != '=' && !IsWhitespace(key[i])
  }

  predicate GoodKeys(pairs: seq<Pair>) {
    forall i :: 0 <= i < |pairs| ==> GoodKey(pairs[i].0)
  }

  lemma {:induction false} QuotedTaken(val: string, quote: char, rest: string)
    requires IsQuote(quote)
    ensures var s := Escape(val, quote) + [quote] + rest;
            QuotedValue(s, quote) == val && AfterQuoted(s, quote) == rest
  {
    var s := Escape(val, quote) + [quote] + rest;
    if val == "" {
      assert s[1..] == rest;
    } else {
      QuotedTaken(val[1..], quote, rest);
      var t := Escape(val[1..], quote) + [quote] + rest;
      if val[0] == quote || val[0] == '\\' {
        assert s[0] == '\\' && s[1] == val[0] && s[2..] == t;
      } else {
        assert s[0] == val[0] && s[1..] == t;
      }
    }
  }

  /** The scan over a printed pair finds its key and the opening quote of its value. */
  lemma KeyTaken(key: string, quote: char, quoted: string)
    requires GoodKey(key) && IsQuote(quote)
    ensures var s := key + "=" + [quote] + quoted;
            SkipSpaces(s) == s && KeyOf(s) == key && BeforeValue(AfterKey(s)) == [quote] + quoted
  {
    var s := key + "=" + [quote] + quoted;
    ScanLengthIs(s, IsInk, 0);
    ScanLengthIs(s, EndsKey, |key|);
    assert s[..|key|] == key;
    var after := AfterKey(s);
    assert after == "=" + ([quote] + quoted);
    ScanLengthIs(after, IsInk, 0);
    assert after[0..] == after && after[1..] == [quote] + quoted;
    ScanLengthIs([quote] + quoted, IsInk, 0);
  }

  lemma PairParsed(p: Pair, quote: char, rest: string)
    requires GoodKey(p.0) && IsQuote(quote)
    ensures ParsePairs(PrintPair(p, quote) + rest) == [p] + ParsePairs(rest)
  {
    var quoted := Escape(p.1, quote) + [quote] + rest;
    var s := p.0 + "=" + [quote] + quoted;
    assert PrintPair(p, quote) + rest == s;
    KeyTaken(p.0, quote, quoted);
    var v := [quote] + quoted;
    assert v[0] == quote && v[1..] == quoted;
    QuotedTaken(p.1, quote, rest);
    assert PairOf(s) == [p];
  }

  lemma {:induction false} PairsParsed(pairs: seq<Pair>, quote: char)
    requires IsQuote(quote) && GoodKeys(pairs)
    ensures ParsePairs(Print(pairs, quote)) == pairs
  {
    if pairs == [] {
      NothingParsed();
    } else {
      FirstPairParsed(pairs, quote);
      PairsParsed(pairs[1..], quote);
      assert pairs == [pairs[0]] + pairs[1..];
    }
  }

  lemma FirstPairParsed(pairs: seq<Pair>, quote: char)
    requires pairs != [] && IsQuote(quote) && GoodKey(pairs[0].0)
    ensures ParsePairs(Print(pairs, quote)) == [pairs[0]] + ParsePairs(Print(pairs[1..], quote))
  {
    PairParsed(pairs[0], quote, PrintRest(pairs, quote));
    RestParsed(pairs, quote);
  }

  lemma RestParsed(pairs: seq<Pair>, quote: char)
    requires pairs != []
    ensures ParsePairs(PrintRest(pairs, quote)) == ParsePairs(Print(pairs[1..], quote))
  {
    if |pairs| > 1 {
      SpaceSkipped(Print(pairs[1..], quote));
    }
  }

  lemma SpaceSkipped(s: string)
    ensures ParsePairs(" " + s) == ParsePairs(s)
  {
    var n := ScanLength(s, IsInk);
    ScanLengthIs(" " + s, IsInk, n + 1);
    assert (" " + s)[n + 1..] == s[n..];
  }

  /** Any list of pairs with proper keys and arbitrary values, printed with either kind of quote and
      with quotes and backslashes escaped, parses back to the same list. */
  lemma PrintedPairsParseBack(pairs: seq<Pair>, quote: char)
    requires quote in {'"', '\''} && GoodKeys(pairs)
    ensures Parsed(Print(pairs, quote)) == pairs
  {
    if pairs != [] {
      assert Print(pairs, quote)[|pairs[0].0|] == '=';
      PairsParsed(pairs, quote);
    }
  }

  /** Every key that comes out of a line with an equals sign is a proper key. */
  lemma {:induction false} ParsedKeysAreGood(s: string)
    ensures GoodKeys(ParsePairs(s))
    decreases |s|
  {
    var t := SkipSpaces(s);
    if t == "" {
    } else {
      PairShrinks(t);
      ParsedKeysAreGood(AfterPair(t));
      PairKeyIsGood(t);
      GoodKeysConcat(PairOf(t), ParsePairs(AfterPair(t)));
    }
    ParseStep(s);
  }

  lemma PairKeyIsGood(t: string)
    ensures GoodKeys(PairOf(t))
  {
  }

  lemma GoodKeysConcat(a: seq<Pair>, b: seq<Pair>)
    requires GoodKeys(a) && GoodKeys(b)
    ensures GoodKeys(a + b)
  {
  }

  lemma OldFormKey(line: string)
    ensures var i := ScanLength(line, IsWhitespace);
            Trim(line[..i]) == line[..i] && (i > 0 && '=' !in line ==> GoodKey(line[..i]))
  {
    var i := ScanLength(line, IsWhitespace);
    InkIsTrimmed(line[..i]);
    if '=' !in line {
      assert forall j :: 0 <= j < i ==> line[..i][j] == line[j] && line[j] in line;
    }
  }

  lemma InkIsTrimmed(s: string)
    requires forall j :: 0 <= j < |s| ==> IsInk(s[j])
    ensures Trim(s) == s
  {
    if s != "" {
      assert IsInk(s[0]) && IsInk(s[|s| - 1]);
    }
    TrimKeepsTrimmed(s);
  }

  lemma OldFormPairs(line: string)
    requires '=' !in line
    ensures var i := ScanLength(line, IsWhitespace);
            if i == |line| then Parsed(line) == []
            else exists val :: Parsed(line) == [(line[..i], val)]
  {
    var i := ScanLength(line, IsWhitespace);
    OldFormKey(line);
    if i < |line| {
      var val := OldValue(line[i + 1..]);
      assert Parsed(line) == [(line[..i], val)];
    }
  }

  /** A pair with an empty key is printed as a value without a key, which parses to nothing. */
  lemma EmptyKeyIsLost(val: string, quote: char)
    requires quote in {'"', '\''}
    ensures Parsed(Print([("", val)], quote)) == []
  {
    var rest := Escape(val, quote) + [quote];
    var line := "=" + ([quote] + rest);
    assert Print([("", val)], quote) == line;
    assert line[0] == '=';
    ScanLengthIs(line, IsInk, 0);
    ScanLengthIs(line, EndsKey, 0);
    assert line[0..] == line && line[1..] == [quote] + rest;
    ScanLengthIs([quote] + rest, IsInk, 0);
    assert ([quote] + rest)[0..] == [quote] + rest && ([quote] + rest)[1..] == rest;
    QuotedTaken(val, quote, "");
    assert rest + "" == rest;
    ParseStep(line);
    NothingParsed();
  }

  lemma ReprintedOldForm(line: string, quote: char)
    requires IsQuote(quote) && '=' !in line
    ensures Parsed(Print(Parsed(line), quote)) == Parsed(line) <==> line == "" || !IsWhitespace(line[0])
  {
    var i := ScanLength(line, IsWhitespace);
    OldFormPairs(line);
    OldFormKey(line);
    if i == |line| {
      PrintedPairsParseBack([], quote);
    } else {
      var val :| Parsed(line) == [(line[..i], val)];
      ReprintedPair(line[..i], val, quote);
    }
  }

  lemma ReprintedPair(key: string, val: string, quote: char)
    requires IsQuote(quote) && (key == "" || GoodKey(key))
    ensures Parsed(Print([(key, val)], quote)) == [(key, val)] <==> key != ""
  {
    if key == "" {
      EmptyKeyIsLost(val, quote);
    } else {
      PrintedPairsParseBack([(key, val)], quote);
    }
  }

  /** So what a line means survives printing and parsing it again, unless it is of the old form and
      starts with white space, for then its key is empty. */
  lemma ReprintedLineMeansTheSame(line: string, quote: char)
    requires quote in {'"', '\''}
    ensures Parsed(Print(Parsed(line), quote)) == Parsed(line) <==>
            '=' in line || line == "" || !IsWhitespace(line[0])
  {
    if '=' in line {
      ParsedKeysAreGood(line);
      PrintedPairsParseBack(ParsePairs(line), quote);
    } else {
      ReprintedOldForm(line, quote);
    }
  }

  /** Such a line: its one pair has an empty key, and printed it means nothing. */
  lemma LeadingSpaceIsLost(val: string, quote: char)
    requires quote in {'"', '\''} && '=' !in val
    requires Trimmed(val) && (val != "" ==> !IsQuote(val[0]) && !IsQuote(val[|val| - 1]))
    ensures Parsed(" " + val) == [("", val)] && Parsed(Print(Parsed(" " + val), quote)) == []
  {
    assert "" + " " + val == " " + val;
    OldFormParsed("", val);
    EmptyKeyIsLost(val, quote);
  }

  /** The old form: a key, white space, and a value that may contain more of it. */
  lemma OldFormParsed(key: string, val: string)
    requires '=' !in key + " " + val
    requires forall i :: 0 <= i < |key| ==> !IsWhitespace(key[i])
    requires Trimmed(val) && (val != "" ==> !IsQuote(val[0]) && !IsQuote(val[|val| - 1]))
    ensures Parsed(key + " " + val) == [(key, val)]
  {
    OldFormSplit(key, val);
    assert Trimmed(key);
    TrimKeepsTrimmed(key);
    TrimKeepsTrimmed(val);
    UnquotedStays(val, '"');
    UnquotedStays(val, '\'');
  }

  /** In the old form quotes around the value are no part of it. */
  lemma OldFormUnquotes(key: string, val: string, quote: char)
    requires quote in {'"', '\''} && '=' !in key + " " + val
    requires forall i :: 0 <= i < |key| ==> !IsWhitespace(key[i])
    requires val != "" ==> !IsQuote(val[0]) && !IsQuote(val[|val| - 1])
    ensures Parsed(key + " " + ([quote] + val + [quote])) == [(key, val)]
  {
    var quoted := [quote] + val + [quote];
    OldFormSplit(key, quoted);
    assert Trimmed(key) && Trimmed(quoted);
    TrimKeepsTrimmed(key);
    TrimKeepsTrimmed(quoted);
    OneQuoteGoes(val, quote);
    UnquotedStays(val, '\'');
    if quote != '"' { UnquotedStays(quoted, '"'); }
    OldFormHasNoEquals(key, val, quote);
  }

  lemma OldFormHasNoEquals(key: string, val: string, quote: char)
    requires IsQuote(quote) && '=' !in key + " " + val
    ensures '=' !in key + " " + ([quote] + val + [quote])
  {
    assert forall c :: c in key || c in val ==> c in key + " " + val;
  }

  lemma OneQuoteGoes(val: string, c: char)
    requires val != "" ==> val[0] != c && val[|val| - 1] != c
    ensures TrimMatches([c] + val + [c], c) == val
  {
    var isQuote: char -> bool := x => x == c;
    if val == "" {
      assert [c] + val + [c] == [c, c] + "";
      TrimStartSkips([c, c], "", isQuote);
    } else {
      Regroup([c], val, [c]);
      TrimStartSkips([c], val + [c], isQuote);
      TrimEndSkips(val, [c], isQuote);
    }
  }

  /** A bare value: everything up to the next white space, with spaces around the equals sign or not. */
  lemma BarePairParsed(key: string, before: string, after: string, val: string, rest: string)
    requires GoodKey(key) && val != "" && !IsQuote(val[0])
    requires forall i :: 0 <= i < |before| ==> IsWhitespace(before[i])
    requires forall i :: 0 <= i < |after| ==> IsWhitespace(after[i])
    requires forall i :: 0 <= i < |val| ==> IsInk(val[i])
    requires rest == "" || IsWhitespace(rest[0])
    ensures ParsePairs(key + (before + ("=" + (after + (val + rest))))) == [(key, val)] + ParsePairs(rest)
  {
    BareValueTaken(val, rest);
    assert (val + rest)[0] == val[0];
    BlankedPairRead(key, before, after, val + rest);
  }

  lemma BlankedPairRead(key: string, before: string, after: string, tail: string)
    requires GoodKey(key) && tail != "" && IsInk(tail[0])
    requires forall i :: 0 <= i < |before| ==> IsWhitespace(before[i])
    requires forall i :: 0 <= i < |after| ==> IsWhitespace(after[i])
    ensures ParsePairs(key + (before + ("=" + (after + tail)))) == [(key, ValueOf(tail))] + ParsePairs(AfterValue(tail))
  {
    KeyBeforeBlanks(key, before, after, tail);
    PairRead(key + (before + ("=" + (after + tail))), key, tail);
  }

  lemma PairRead(s: string, key: string, tail: string)
    requires s != "" && SkipSpaces(s) == s && key != ""
    requires KeyOf(s) == key && BeforeValue(AfterKey(s)) == tail
    ensures ParsePairs(s) == [(key, ValueOf(tail))] + ParsePairs(AfterValue(tail))
  {
    ParseStep(s);
  }

  lemma KeyBeforeBlanks(key: string, before: string, after: string, tail: string)
    requires GoodKey(key) && tail != "" && IsInk(tail[0])
    requires forall i :: 0 <= i < |before| ==> IsWhitespace(before[i])
    requires forall i :: 0 <= i < |after| ==> IsWhitespace(after[i])
    ensures var s := key + (before + ("=" + (after + tail)));
            s != "" && SkipSpaces(s) == s && KeyOf(s) == key && BeforeValue(AfterKey(s)) == tail
  {
    var blanked := before + ("=" + (after + tail));
    var s := key + blanked;
    ScanLengthIs(s, IsInk, 0);
    ScanLengthIs(s, EndsKey, |key|);
    assert s[0..] == s && s[..|key|] == key && AfterKey(s) == blanked;
    BlanksSkipped(before, "=" + (after + tail));
    assert ("=" + (after + tail))[1..] == after + tail;
    BlanksSkipped(after, tail);
  }

  lemma BareValueTaken(val: string, rest: string)
    requires val != "" && !IsQuote(val[0]) && (rest == "" || IsWhitespace(rest[0]))
    requires forall i :: 0 <= i < |val| ==> IsInk(val[i])
    ensures ValueOf(val + rest) == val && AfterValue(val + rest) == rest
  {
    var tail := val + rest;
    ScanLengthIs(tail, IsWhitespace, |val|);
    assert tail[..|val|] == val && tail[|val|..] == rest;
    BareValue(tail);
  }

  lemma BlanksSkipped(blanks: string, s: string)
    requires forall i :: 0 <= i < |blanks| ==> IsWhitespace(blanks[i])
    requires s != "" && IsInk(s[0])
    ensures SkipSpaces(blanks + s) == s
  {
    ScanLengthIs(blanks + s, IsInk, |blanks|);
  }

  lemma OldFormSplit(key: string, val: string)
    requires forall i :: 0 <= i < |key| ==> !IsWhitespace(key[i])
    ensures var line := key + " " + val;
            var i := ScanLength(line, IsWhitespace);
            i == |key| < |line| && line[..i] == key && line[i + 1..] == val
  {
    var line := key + " " + val;
    ScanLengthIs(line, IsWhitespace, |key|);
  }

  lemma UnquotedStays(s: string, c: char)
    requires s != "" ==> s[0] != c && s[|s| - 1] != c
    ensures TrimMatches(s, c) == s
  {
  }
}
