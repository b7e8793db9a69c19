/** Glob matching and `.dockerignore` rules (src/builder/dockerignore.rs). */
module Glob {
  import opened Wrappers
  import opened Text

  /** What a glob means: `*` stands for any sequence of characters, `?` for exactly one,
      and every other character for itself. */
  ghost predicate Matches(p: string, t: string)
    decreases |p|
  {
    if p == "" then t == ""
    else if p[0] == '*' then exists k :: 0 <= k <= |t| && Matches(p[1..], t[k..])
    else t != "" && (p[0] == '?' || p[0] == t[0]) && Matches(p[1..], t[1..])
  }

  predicate OnlyStars(p: string) {
    forall i :: 0 <= i < |p| ==> p[i] == '*'
  }

  /** The state of the scanner: positions in pattern and text, and the one remembered star
      with the text position it was last tried at. */
  datatype Scanner = Scanner(p: nat, t: nat, star: Option<nat>, tried: nat) {
    predicate InRange(pattern: string, text: string) {
      && p <= |pattern| && tried <= t <= |text|
      && (star.Some? ==> star.value < p && pattern[star.value] == '*')
    }
  }

  const START := Scanner(0, 0, None, 0)

  /** The scanner, run from any of its states to the verdict. */
  predicate Scan(pattern: string, text: string, s: Scanner)
    requires s.InRange(pattern, text)
    decreases if s.star.None? then |pattern| + 1 else |pattern| - s.star.value, |text| - s.tried, |text| - s.t
  {
    if s.t == |text| then OnlyStars(pattern[s.p..])
    else if s.p < |pattern| && (pattern[s.p] == '?' || pattern[s.p] == text[s.t]) then
      Scan(pattern, text, s.(p := s.p + 1, t := s.t + 1))
    else if s.p < |pattern| && pattern[s.p] == '*' then
      Scan(pattern, text, Scanner(s.p + 1, s.t, Some(s.p), s.t))
    else if s.star.Some? then
      Scan(pattern, text, Scanner(s.star.value + 1, s.tried + 1, s.star, s.tried + 1))
    else false
  }

  /** `matches_wildcard`. */
  method MatchesWildcard(pattern: string, text: string) returns (matched: bool)
    ensures matched == Scan(pattern, text, START)
    ensures '*' !in text || '*' !in pattern ==> matched == Matches(pattern, text)
  {
    if '*' !in text || '*' !in pattern {
      ScanMeansMatches(pattern, text);
    }
    var p: nat, t: nat, star: Option<nat>, matchIdx: nat := 0, 0, None, 0;
    while t < |text|
      invariant Scanner(p, t, star, matchIdx).InRange(pattern, text)
      invariant Scan(pattern, text, Scanner(p, t, star, matchIdx)) == Scan(pattern, text, START)
      decreases if star.None? then |pattern| + 1 else |pattern| - star.value, |text| - matchIdx, |text| - t
    {
      if p < |pattern| && (pattern[p] == '?' || pattern[p] == text[t]) {
        p := p + 1;
        t := t + 1;
      } else if p < |pattern| && pattern[p] == '*' {
        star := Some(p);
        matchIdx := t;
        p := p + 1;
      } else if star.Some? {
        p := star.value + 1;
        matchIdx := matchIdx + 1;
        t := matchIdx;
      } else {
        return false;
      }
    }
    ghost var rest := p;
    while p < |pattern| && pattern[p] == '*'
      invariant rest <= p <= |pattern|
      invariant forall i :: rest <= i < p ==> pattern[i] == '*'
    {
      p := p + 1;
    }
    matched := p == |pattern|;
    if !matched {
      assert pattern[rest..][p - rest] != '*';
    }
  }

  // ---------------------------------------------------------------------------------------
  // Keeping only the latest star is enough

  /** A star reaches every later position of the text. */
  lemma StarUnfold(p: string, t: string, i: nat, j: nat)
    requires i < |p| && p[i] == '*' && j <= |t|
    ensures Matches(p[i..], t[j..]) <==> exists k :: j <= k <= |t| && Matches(p[i + 1..], t[k..])
  {
    assert p[i..][1..] == p[i + 1..];
    if Matches(p[i..], t[j..]) {
      var k :| 0 <= k <= |t[j..]| && Matches(p[i..][1..], t[j..][k..]);
      assert t[j..][k..] == t[j + k..];
      assert j <= j + k <= |t| && Matches(p[i + 1..], t[j + k..]);
    }
    if k :| j <= k <= |t| && Matches(p[i + 1..], t[k..]) {
      assert t[j..][k - j..] == t[k..];
      assert 0 <= k - j <= |t[j..]| && Matches(p[i..][1..], t[j..][k - j..]);
    }
  }

  /** Any other pattern character consumes exactly one character of the text. */
  lemma CharUnfold(p: string, t: string, i: nat, j: nat)
    requires i < |p| && p[i] != '*' && j <= |t|
    ensures Matches(p[i..], t[j..]) <==>
            (j < |t| && (p[i] == '?' || p[i] == t[j]) && Matches(p[i + 1..], t[j + 1..]))
  {
    assert p[i..][1..] == p[i + 1..];
    if j < |t| {
      assert t[j..][1..] == t[j + 1..];
    }
  }

  /** A star-free stretch of the pattern consumes as many characters as it has. */
  lemma {:induction false} StretchConsumes(p: string, t: string, i: nat, e: nat, k: nat)
    requires i <= e <= |p| && k <= |t|
    requires forall x :: i <= x < e ==> p[x] != '*'
    requires Matches(p[i..], t[k..])
    ensures k + (e - i) <= |t| && Matches(p[e..], t[k + (e - i)..])
    decreases e - i
  {
    if i == e {
    } else {
      CharUnfold(p, t, i, k);
      StretchConsumes(p, t, i + 1, e, k + 1);
    }
  }

  lemma OnlyStarsMatchEmpty(p: string)
    ensures Matches(p, "") <==> OnlyStars(p)
  {
    if p == "" {
    } else {
      OnlyStarsMatchEmpty(p[1..]);
      assert p == [p[0]] + p[1..];
      assert ""[0..] == "";
      if p[0] == '*' {
        assert Matches(p, "") <==> Matches(p[1..], "") by {
          StarUnfold(p, "", 0, 0);
          assert p[0..] == p;
        }
      }
    }
  }

  /** What the scanner has established about its position: the pattern since the remembered
      star is free of stars and as long as the text since the position the star was tried at. */
  ghost predicate Coherent(pattern: string, text: string, s: Scanner) {
    && s.InRange(pattern, text)
    && (s.star.Some? ==>
          && s.p - s.star.value - 1 == s.t - s.tried
          && forall x :: s.star.value < x < s.p ==> pattern[x] != '*')
  }

  /** A later attempt of the remembered star succeeds. */
  ghost predicate RetrySucceeds(pattern: string, text: string, s: Scanner)
    requires s.InRange(pattern, text)
  {
    s.star.Some? && exists k :: s.tried < k <= |text| && Matches(pattern[s.star.value + 1..], text[k..])
  }

  /** The verdict a state deserves: the rest matches here, or after a later attempt. */
  ghost predicate Deserved(pattern: string, text: string, s: Scanner)
    requires s.InRange(pattern, text)
  {
    Matches(pattern[s.p..], text[s.t..]) || RetrySucceeds(pattern, text, s)
  }

  lemma AtEnd(pattern: string, text: string, s: Scanner)
    requires Coherent(pattern, text, s) && s.t == |text|
    ensures Deserved(pattern, text, s) <==> OnlyStars(pattern[s.p..])
  {
    OnlyStarsMatchEmpty(pattern[s.p..]);
    assert text[s.t..] == "";
    RetryNeedsRoom(pattern, text, s);
  }

  lemma AtCharacter(pattern: string, text: string, s: Scanner)
    requires s.InRange(pattern, text) && s.p < |pattern| && s.t < |text|
    requires pattern[s.p] != '*' && (pattern[s.p] == '?' || pattern[s.p] == text[s.t])
    ensures Deserved(pattern, text, s) <==> Deserved(pattern, text, s.(p := s.p + 1, t := s.t + 1))
  {
    CharUnfold(pattern, text, s.p, s.t);
  }

  /** At a star of the pattern the rest matches exactly when the star does at once or later. */
  lemma AtStar(pattern: string, text: string, s: Scanner)
    requires Coherent(pattern, text, s) && s.p < |pattern| && pattern[s.p] == '*'
    ensures Deserved(pattern, text, s) <==> Deserved(pattern, text, Scanner(s.p + 1, s.t, Some(s.p), s.t))
  {
    StarUnfold(pattern, text, s.p, s.t);
    if RetrySucceeds(pattern, text, s) {
      NewStarSubsumesOld(pattern, text, s);
    }
  }

  /** On a mismatch only a later attempt can help; a retry starts one character further. */
  lemma AtMismatch(pattern: string, text: string, s: Scanner)
    requires s.InRange(pattern, text) && s.t < |text|
    requires s.p < |pattern| ==> pattern[s.p] != '*' && pattern[s.p] != '?' && pattern[s.p] != text[s.t]
    ensures s.star.None? ==> !Deserved(pattern, text, s)
    ensures s.star.Some? ==>
              (Deserved(pattern, text, s) <==>
               Deserved(pattern, text, Scanner(s.star.value + 1, s.tried + 1, s.star, s.tried + 1)))
  {
    if s.p < |pattern| {
      CharUnfold(pattern, text, s.p, s.t);
    }
    assert !Matches(pattern[s.p..], text[s.t..]);
  }

  /** The heart of the algorithm: in every state the verdict is that either the rest matches
      here or a later attempt of the latest star does. Earlier stars are not needed. */
  lemma {:induction false} LatestStarIsEnough(pattern: string, text: string, s: Scanner)
    requires '*' !in text || '*' !in pattern
    requires Coherent(pattern, text, s)
    ensures Scan(pattern, text, s) <==> Deserved(pattern, text, s)
    decreases if s.star.None? then |pattern| + 1 else |pattern| - s.star.value, |text| - s.tried, |text| - s.t
  {
    if s.t == |text| {
      AtEnd(pattern, text, s);
    } else if s.p < |pattern| && (pattern[s.p] == '?' || pattern[s.p] == text[s.t]) {
      assert pattern[s.p] in pattern && text[s.t] in text;
      assert pattern[s.p] != '*';
      AtCharacter(pattern, text, s);
      LatestStarIsEnough(pattern, text, s.(p := s.p + 1, t := s.t + 1));
    } else if s.p < |pattern| && pattern[s.p] == '*' {
      AtStar(pattern, text, s);
      LatestStarIsEnough(pattern, text, Scanner(s.p + 1, s.t, Some(s.p), s.t));
    } else {
      AtMismatch(pattern, text, s);
      if s.star.Some? {
        LatestStarIsEnough(pattern, text, Scanner(s.star.value + 1, s.tried + 1, s.star, s.tried + 1));
      }
    }
  }

  /** At the end of the text no later attempt can succeed: it would need characters that are gone. */
  lemma RetryNeedsRoom(pattern: string, text: string, s: Scanner)
    requires Coherent(pattern, text, s) && s.t == |text|
    ensures !RetrySucceeds(pattern, text, s)
  {
    if RetrySucceeds(pattern, text, s) {
      var k :| s.tried < k <= |text| && Matches(pattern[s.star.value + 1..], text[k..]);
      StretchConsumes(pattern, text, s.star.value + 1, s.p, k);
      assert false;
    }
  }

  /** Reaching a second star makes the first one superfluous. */
  lemma NewStarSubsumesOld(pattern: string, text: string, s: Scanner)
    requires Coherent(pattern, text, s)
    requires s.p < |pattern| && pattern[s.p] == '*'
    requires RetrySucceeds(pattern, text, s)
    ensures Matches(pattern[s.p..], text[s.t..])
  {
    var k :| s.tried < k <= |text| && Matches(pattern[s.star.value + 1..], text[k..]);
    StretchConsumes(pattern, text, s.star.value + 1, s.p, k);
    var reached := k + (s.p - s.star.value - 1);
    assert s.t <= reached;
    EarlierStarMatches(pattern, text, s.p, s.t, reached);
  }

  /** A star that matches from a position of the text does so from every earlier one. */
  lemma EarlierStarMatches(p: string, t: string, i: nat, j: nat, later: nat)
    requires i < |p| && p[i] == '*' && j <= later <= |t|
    requires Matches(p[i..], t[later..])
    ensures Matches(p[i..], t[j..])
  {
    StarUnfold(p, t, i, later);
    var k :| later <= k <= |t| && Matches(p[i + 1..], t[k..]);
    assert j <= k <= |t| && Matches(p[i + 1..], t[k..]);
    StarUnfold(p, t, i, j);
  }

  /** The scanner decides the glob relation whenever text or pattern is free of `*`. */
  lemma ScanMeansMatches(pattern: string, text: string)
    requires '*' !in text || '*' !in pattern
    ensures Scan(pattern, text, START) <==> Matches(pattern, text)
  {
    LatestStarIsEnough(pattern, text, START);
    assert pattern[0..] == pattern && text[0..] == text;
  }

  // ---------------------------------------------------------------------------------------
  // Exactly which texts are safe

  function Repeat(c: char, n: nat): (s: string)
    ensures |s| == n && forall i :: 0 <= i < n ==> s[i] == c
  {
    seq(n, _ => c)
  }

  /** The glob that a text with a star at position k defeats: everything before the star as it
      is, a star, and one `?` for each character from position k on. */
  function Defeating(text: string, k: nat): (p: string)
    requires k < |text|
    ensures |p| == |text| + 1
  {
    text[..k] + "*" + Repeat('?', |text| - k)
  }

  lemma {:induction false} QuestionMarksMatch(t: string)
    ensures Matches(Repeat('?', |t|), t)
  {
    var q := Repeat('?', |t|);
    if t == "" {
    } else {
      assert q[1..] == Repeat('?', |t[1..]|);
      QuestionMarksMatch(t[1..]);
    }
  }

  lemma {:induction false} DefeatingGlobMatches(text: string, k: nat, i: nat)
    requires k < |text| && text[k] == '*' && '*' !in text[..k]
    requires i <= k
    ensures Matches(Defeating(text, k)[i..], text[i..])
    decreases k - i
  {
    var p := Defeating(text, k);
    if i < k {
      assert p[i] == text[i] && text[..k][i] != '*';
      DefeatingGlobMatches(text, k, i + 1);
      CharUnfold(p, text, i, i);
    } else {
      assert p[k + 1..] == Repeat('?', |text[k..]|);
      QuestionMarksMatch(text[k..]);
      StarUnfold(p, text, k, k);
    }
  }

  lemma {:induction false} ScanMissesDefeatingGlob(text: string, k: nat, i: nat)
    requires k < |text| && text[k] == '*' && '*' !in text[..k]
    requires i <= |text|
    ensures !Scan(Defeating(text, k), text, Scanner(i, i, None, 0))
    decreases |text| - i
  {
    var p := Defeating(text, k);
    if i < |text| {
      assert p[i] == '?' || p[i] == text[i];
      ScanMissesDefeatingGlob(text, k, i + 1);
    } else {
      assert p[i..][0] == '?';
    }
  }

  /** A text is matched correctly by every pattern exactly when it contains no `*`: the scanner
      takes a `*` of the pattern that faces a `*` of the text for that character alone. */
  lemma SafeTextsHaveNoStar(text: string)
    ensures (forall pattern :: Scan(pattern, text, START) <==> Matches(pattern, text)) <==> '*' !in text
  {
    if '*' !in text {
      forall pattern ensures Scan(pattern, text, START) <==> Matches(pattern, text) {
        ScanMeansMatches(pattern, text);
      }
    } else {
      var k := IndexOf(text, '*');
      var p := Defeating(text, k);
      DefeatingGlobMatches(text, k, 0);
      ScanMissesDefeatingGlob(text, k, 0);
      assert p[0..] == p && text[0..] == text;
      assert !(Scan(p, text, START) <==> Matches(p, text));
    }
  }

  /** The pattern as a text with one more character after its last star. */
  function Stretched(pattern: string, k: nat): string
    requires k < |pattern|
  {
    pattern[..k + 1] + "x" + pattern[k + 1..]
  }

  lemma {:induction false} GlobMatchesItself(p: string)
    ensures Matches(p, p)
  {
    if p == "" {
    } else {
      GlobMatchesItself(p[1..]);
      if p[0] == '*' {
        assert 0 <= 1 <= |p| && Matches(p[1..], p[1..]);
      }
    }
  }

  lemma {:induction false} GlobMatchesStretched(p: string, k: nat, i: nat)
    requires k < |p| && p[k] == '*' && i <= k
    ensures Matches(p[i..], Stretched(p, k)[i..])
    decreases k - i
  {
    var t := Stretched(p, k);
    assert t[i] == p[i];
    if i == k {
      assert t[k + 2..] == p[k + 1..];
      GlobMatchesItself(p[k + 1..]);
      StarUnfold(p, t, k, k);
    } else {
      GlobMatchesStretched(p, k, i + 1);
      if p[i] == '*' {
        StarUnfold(p, t, i, i);
      } else {
        CharUnfold(p, t, i, i);
      }
    }
  }

  /** Without a remembered star, and with none left, the scanner needs as many characters as the
      pattern has. */
  lemma {:induction false} PlainScanNeedsLength(p: string, t: string, s: Scanner)
    requires s.InRange(p, t) && s.star.None? && Scan(p, t, s)
    requires forall x :: s.p <= x < |p| ==> p[x] != '*'
    ensures |p| - s.p == |t| - s.t
    decreases |t| - s.t
  {
    if s.t == |t| {
    } else {
      PlainScanNeedsLength(p, t, s.(p := s.p + 1, t := s.t + 1));
    }
  }

  lemma {:induction false} ScanMissesStretched(p: string, k: nat, i: nat)
    requires k < |p| && p[k] == '*' && '*' !in p[k + 1..]
    requires i <= k + 1
    ensures !Scan(p, Stretched(p, k), Scanner(i, i, None, 0))
    decreases k + 1 - i
  {
    var t := Stretched(p, k);
    if i == k + 1 {
      assert forall x :: i <= x < |p| ==> p[x] == p[k + 1..][x - i];
      if Scan(p, t, Scanner(i, i, None, 0)) {
        PlainScanNeedsLength(p, t, Scanner(i, i, None, 0));
      }
    } else {
      assert t[i] == p[i];
      ScanMissesStretched(p, k, i + 1);
    }
  }

  /** The same for patterns: one matches every text correctly exactly when it contains no `*`. */
  lemma SafePatternsHaveNoStar(pattern: string)
    ensures (forall text :: Scan(pattern, text, START) <==> Matches(pattern, text)) <==> '*' !in pattern
  {
    if '*' !in pattern {
      forall text ensures Scan(pattern, text, START) <==> Matches(pattern, text) {
        ScanMeansMatches(pattern, text);
      }
    } else {
      var k := LastIndexOf(pattern, '*');
      var t := Stretched(pattern, k);
      GlobMatchesStretched(pattern, k, 0);
      ScanMissesStretched(pattern, k, 0);
      assert pattern[0..] == pattern && t[0..] == t;
      assert !(Scan(pattern, t, START) <==> Matches(pattern, t));
    }
  }

  // ---------------------------------------------------------------------------------------
  // .dockerignore

  /** `pattern_matches`: trailing slashes are dropped; one star means a prefix and a suffix; any
      other pattern names the path itself, a directory above it or its last components. */
  predicate PatternMatches(pattern: string, path: string) {
    var p := TrimEndBy(pattern, c => c == '/');
    var parts := Split(p, '*');
    if '*' in p && |parts| == 2 then
      parts[0] <= path && EndsWith(path, parts[1]) && |path| >= |parts[0]| + |parts[1]|
    else
      path == p || p + "/" <= path || EndsWith(path, "/" + p)
  }

  ghost predicate OneStarGlob(p: string) {
    && '*' in p && '*' !in p[IndexOf(p, '*') + 1..]
    && '?' !in p
    && p[|p| - 1] != '/'
  }

  lemma {:induction false} LiteralPrefix(p: string, t: string, i: nat)
    requires i <= IndexOf(p, '*') && '?' !in p && i <= |t|
    ensures Matches(p[i..], t[i..]) <==>
            && IndexOf(p, '*') <= |t|
            && p[i..IndexOf(p, '*')] == t[i..IndexOf(p, '*')]
            && Matches(p[IndexOf(p, '*')..], t[IndexOf(p, '*')..])
    decreases |p| - i
  {
    var s := IndexOf(p, '*');
    if i >= s {
    } else {
      assert p[..s][i] == p[i];
      CharUnfold(p, t, i, i);
      if i < |t| {
        LiteralPrefix(p, t, i + 1);
        if s <= |t| {
          assert p[i..s] == [p[i]] + p[i + 1..s];
          assert t[i..s] == [t[i]] + t[i + 1..s];
        }
      }
    }
  }

  lemma {:induction false} LiteralMatchesItself(p: string, t: string)
    requires '*' !in p && '?' !in p
    ensures Matches(p, t) <==> p == t
  {
    if p == "" || t == "" {
    } else {
      LiteralMatchesItself(p[1..], t[1..]);
      assert p == [p[0]] + p[1..] && t == [t[0]] + t[1..];
    }
  }

  /** A pattern with a single star is a glob, on every path. */
  lemma OneStarPatternIsGlob(p: string, path: string)
    requires OneStarGlob(p)
    ensures PatternMatches(p, path) <==> Matches(p, path)
  {
    var s := IndexOf(p, '*');
    var suffix := p[s + 1..];
    assert TrimEndBy(p, c => c == '/') == p;
    SplitInTwo(p, '*');
    LiteralPrefix(p, path, 0);
    assert p[0..] == p && path[0..] == path && p[0..s] == p[..s];
    if s <= |path| {
      assert path[0..s] == path[..s];
      StarUnfold(p, path, s, s);
      forall k | s <= k <= |path|
        ensures Matches(suffix, path[k..]) <==> suffix == path[k..]
      {
        LiteralMatchesItself(suffix, path[k..]);
      }
      if PatternMatches(p, path) {
        assert Matches(suffix, path[|path| - |suffix|..]);
      }
    }
  }

  /** Any other pattern names the path itself, a directory above it or its last components. */
  lemma PlainPatternMeaning(p: string, path: string)
    requires p == "" || p[|p| - 1] != '/'
    requires '*' !in p || '*' in p[IndexOf(p, '*') + 1..]
    ensures PatternMatches(p, path) <==>
            || path == p
            || (exists below :: path == p + "/" + below)
            || (exists above :: path == above + "/" + p)
  {
    NoSingleStar(p, path);
    PrefixMeans(p + "/", path);
    SuffixMeans("/" + p, path);
    forall above ensures above + "/" + p == above + ("/" + p) {
      Regroup(above, "/", p);
    }
  }

  lemma NoSingleStar(p: string, path: string)
    requires p == "" || p[|p| - 1] != '/'
    requires '*' !in p || '*' in p[IndexOf(p, '*') + 1..]
    ensures PatternMatches(p, path) <==> path == p || p + "/" <= path || EndsWith(path, "/" + p)
  {
    assert TrimEndBy(p, c => c == '/') == p;
    SplitInTwo(p, '*');
  }

  lemma PrefixMeans(front: string, s: string)
    ensures front <= s <==> exists rest :: s == front + rest
  {
    if front <= s {
      assert s == front + s[|front|..];
    }
  }

  lemma SuffixMeans(back: string, s: string)
    ensures EndsWith(s, back) <==> exists rest :: s == rest + back
  {
    if EndsWith(s, back) {
      assert s == s[..|s| - |back|] + back;
    }
    if rest :| s == rest + back {
      assert s[|rest|..] == back;
    }
  }

  /** Slashes behind a pattern, as one writes for a directory, make no difference. */
  lemma TrailingSlashIgnored(p: string, path: string)
    ensures PatternMatches(p + "/", path) <==> PatternMatches(p, path)
  {
    assert (p + "/")[..|p|] == p;
  }

  /** So a line that names a directory covers what is in it, and a name covers what has it last. */
  lemma DirectoryCoversContents(name: string, rest: string)
    requires name != "" && '*' !in name && name[|name| - 1] != '/'
    ensures PatternMatches(name + "/", name + "/" + rest) && PatternMatches(name, name + "/" + rest)
    ensures PatternMatches(name, rest + "/" + name) && PatternMatches(name, name)
  {
    TrailingSlashIgnored(name, name + "/" + rest);
    PlainPatternMeaning(name, name + "/" + rest);
    PlainPatternMeaning(name, rest + "/" + name);
    PlainPatternMeaning(name, name);
  }

  /** An exclamation mark in front makes an exception of the same pattern. */
  lemma ExceptionLine(pattern: string, path: string)
    ensures IsException("!" + pattern)
    ensures LineMatches("!" + pattern, path) <==> PatternMatches(pattern, path)
    ensures pattern == "" || pattern[0] != '!' ==>
              !IsException(pattern) && (LineMatches(pattern, path) <==> PatternMatches(pattern, path))
  {
    assert ("!" + pattern)[1..] == pattern;
  }

  /** Hence it agrees with the scanner on every path the scanner is right about. */
  lemma OneStarPatternAgreesWithScanner(p: string, path: string)
    requires OneStarGlob(p) && '*' !in path
    ensures PatternMatches(p, path) <==> Scan(p, path, START)
  {
    OneStarPatternIsGlob(p, path);
    ScanMeansMatches(p, path);
  }

  /** What a line of the file asks for: the pattern without the mark of an exception. */
  predicate IsException(line: string) { "!" <= line }

  predicate LineMatches(line: string, path: string) {
    PatternMatches(if IsException(line) then line[1..] else line, path)
  }

  class DockerIgnore {
    const patterns: seq<string>

    constructor (patterns: seq<string>)
      ensures this.patterns == patterns
    {
      this.patterns := patterns;
    }

    /** `is_ignored`: the last matching line decides. */
    method IsIgnored(path: string) returns (ignored: bool)
      ensures ignored <==>
              exists i :: && 0 <= i < |patterns|
                          && LineMatches(patterns[i], path) && !IsException(patterns[i])
                          && forall j :: i < j < |patterns| ==> !LineMatches(patterns[j], path)
    {
      var matches: string -> bool := line => LineMatches(line, path);
      ignored := LastVerdict(matches);
    }

    /** The loop, for any test of a line against the path. */
    method LastVerdict(matches: string -> bool) returns (ignored: bool)
      ensures ignored <==>
              exists i :: && 0 <= i < |patterns|
                          && matches(patterns[i]) && !IsException(patterns[i])
                          && forall j :: i < j < |patterns| ==> !matches(patterns[j])
    {
      ignored := false;
      var n := 0;
      ghost var last := -1;
      while n < |patterns|
        invariant 0 <= n <= |patterns|
        invariant -1 <= last < n
        invariant forall j :: last < j < n ==> !matches(patterns[j])
        invariant last == -1 ==> !ignored
        invariant 0 <= last ==> matches(patterns[last]) && ignored == !IsException(patterns[last])
      {
        if IsException(patterns[n]) {
          if matches(patterns[n]) {
            ignored := false;
            last := n;
          }
        } else if matches(patterns[n]) {
          ignored := true;
          last := n;
        }
        n := n + 1;
      }
    }
  }
}
