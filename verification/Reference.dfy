/** Image references (src/oci/reference.rs). */
module Reference {
  import opened Wrappers
  import opened Text

  datatype ImageReference = ImageReference(registry: string, repository: string, tag: string, digest: Option<string>)

  datatype ReferenceError = EmptyReference

  const DEFAULT_REGISTRY := "registry-1.docker.io"
  const DEFAULT_TAG := "latest"
  const LIBRARY := "library/"

  predicate IsHubAlias(s: string) {
    s == "docker.io" || s == "index.docker.io" || s == "registry-1.docker.io"
  }

  predicate LooksLikeRegistry(s: string) {
    '.' in s || ':' in s || s == "localhost"
  }

  /** The text before a digest, and the digest. */
  function SplitDigest(input: string): (string, Option<string>) {
    var at := IndexOf(input, '@');
    if at < |input| then (input[..at], Some(input[at + 1..])) else (input, None)
  }

  /** The name and the tag: the last colon starts a tag unless a slash follows it, for then it
      belongs to the registry's port. */
  function SplitTag(remainder: string): (string, string) {
    var colon := LastIndexOf(remainder, ':');
    if colon < 0 then (remainder, DEFAULT_TAG)
    else
      var slash := IndexOf(remainder, '/');
      if slash < |remainder| && colon < slash then (remainder, DEFAULT_TAG)
      else (remainder[..colon], remainder[colon + 1..])
  }

  /** Registry and repository, before the completion with `library/`. */
  function SplitRegistry(name: string): (string, string) {
    var slash := IndexOf(name, '/');
    if slash < |name| then
      var first := name[..slash];
      if IsHubAlias(first) then (DEFAULT_REGISTRY, name[slash + 1..])
      else if LooksLikeRegistry(first) then (first, name[slash + 1..])
      else (DEFAULT_REGISTRY, name)
    else (DEFAULT_REGISTRY, LIBRARY + name)
  }

  function CompleteRepository(registry: string, repository: string): string {
    if registry == DEFAULT_REGISTRY && '/' !in repository then LIBRARY + repository else repository
  }

  /** `parse`. */
  function Parse(input: string): Result<ImageReference, ReferenceError> {
    var trimmed := Trim(input);
    if trimmed == "" then Err(EmptyReference)
    else
      var (remainder, digest) := SplitDigest(trimmed);
      var (name, tag) := SplitTag(remainder);
      var (registry, repository) := SplitRegistry(name);
      Ok(ImageReference(registry, CompleteRepository(registry, repository), tag, digest))
  }

  /** `canonical`. */
  function Canonical(r: ImageReference): string {
    r.registry + "/" + r.repository + ":" + r.tag
  }

  /** `display_name`. */
  function DisplayName(r: ImageReference): string {
    if r.registry == DEFAULT_REGISTRY then
      if LIBRARY <= r.repository then r.repository[|LIBRARY|..] + ":" + r.tag
      else r.repository + ":" + r.tag
    else r.registry + "/" + r.repository + ":" + r.tag
  }

  // ---------------------------------------------------------------------------------------
  // What a parsed reference looks like

  function WithoutDigest(r: ImageReference): ImageReference { r.(digest := None) }

  /** Exactly the shapes that `parse` produces. */
  ghost predicate Normal(r: ImageReference) {
    && ':' !in r.tag && '@' !in r.registry && '@' !in r.repository && '@' !in r.tag
    && (r.registry == DEFAULT_REGISTRY ==> '/' in r.repository)
    && (r.registry != DEFAULT_REGISTRY ==>
          '/' !in r.registry && LooksLikeRegistry(r.registry) && !IsHubAlias(r.registry)
          && !IsWhitespace(r.registry[0]))
  }

  lemma NotInPrefix(s: string, n: nat, c: char)
    requires c !in s && n <= |s|
    ensures c !in s[..n]
  {
  }

  lemma NotInSuffix(s: string, n: nat, c: char)
    requires c !in s && n <= |s|
    ensures c !in s[n..]
  {
  }

  lemma ConstantsArePlain()
    ensures ':' !in DEFAULT_TAG && '@' !in DEFAULT_TAG
    ensures '@' !in DEFAULT_REGISTRY && '@' !in LIBRARY && '/' in LIBRARY
  {
    assert LIBRARY[7] == '/';
  }

  lemma SplitTagShape(remainder: string)
    requires '@' !in remainder
    ensures ':' !in SplitTag(remainder).1 && '@' !in SplitTag(remainder).1 && '@' !in SplitTag(remainder).0
    ensures SplitTag(remainder).0 <= remainder
  {
    ConstantsArePlain();
    var colon := LastIndexOf(remainder, ':');
    if colon >= 0 {
      NotInPrefix(remainder, colon, '@');
      NotInSuffix(remainder, colon + 1, '@');
    }
  }

  lemma SplitRegistryShape(name: string)
    requires '@' !in name
    ensures var (registry, repository) := SplitRegistry(name);
            && '@' !in registry && '@' !in repository
            && (registry != DEFAULT_REGISTRY ==>
                  '/' !in registry && LooksLikeRegistry(registry) && !IsHubAlias(registry) && registry <= name)
  {
    ConstantsArePlain();
    var slash := IndexOf(name, '/');
    if slash < |name| {
      NotInPrefix(name, slash, '@');
      NotInSuffix(name, slash + 1, '@');
    }
  }

  lemma CompleteShape(registry: string, repository: string)
    requires '@' !in repository
    ensures '@' !in CompleteRepository(registry, repository)
    ensures registry == DEFAULT_REGISTRY ==> '/' in CompleteRepository(registry, repository)
  {
    ConstantsArePlain();
  }

  lemma LooksLikeRegistryNonEmpty(s: string)
    requires LooksLikeRegistry(s)
    ensures s != ""
  {
  }

  lemma ParsedIsNormal(input: string)
    ensures Parse(input).Ok? ==> Normal(Parse(input).value)
  {
    var trimmed := Trim(input);
    TrimKeepsTrimmed(input);
    var remainder := SplitDigest(trimmed).0;
    SplitTagShape(remainder);
    var name := SplitTag(remainder).0;
    SplitRegistryShape(name);
    var (registry, repository) := SplitRegistry(name);
    CompleteShape(registry, repository);
    if registry != DEFAULT_REGISTRY {
      LooksLikeRegistryNonEmpty(registry);
      assert registry[0] == name[0] == remainder[0] == trimmed[0];
    }
  }

  // ---------------------------------------------------------------------------------------
  // Parsing a text put together from a name and a tag

  function Start(s: string): string { TrimStartBy(s, IsWhitespace) }

  function End(s: string): string { TrimEndBy(s, IsWhitespace) }

  function Joined(name: string, tag: string): string { name + ":" + tag }

  lemma {:induction false} StartOfJoined(name: string, tag: string)
    ensures Start(Joined(name, tag)) == Joined(Start(name), tag)
  {
    var s := Joined(name, tag);
    if name != "" && IsWhitespace(name[0]) {
      assert s[1..] == Joined(name[1..], tag);
      StartOfJoined(name[1..], tag);
    } else {
      assert s[0] == if name == "" then ':' else name[0];
    }
  }

  lemma {:induction false} EndOfJoined(name: string, tag: string)
    ensures End(Joined(name, tag)) == Joined(name, End(tag))
  {
    var s := Joined(name, tag);
    if tag != "" && IsWhitespace(tag[|tag| - 1]) {
      assert s[..|s| - 1] == Joined(name, tag[..|tag| - 1]);
      EndOfJoined(name, tag[..|tag| - 1]);
    } else {
      assert s[|s| - 1] == if tag == "" then ':' else tag[|tag| - 1];
    }
  }

  /** Trimming reaches only the front of the name and the back of the tag. */
  lemma TrimOfJoined(name: string, tag: string)
    ensures Trim(Joined(name, tag)) == Joined(Start(name), End(tag))
  {
    StartOfJoined(name, tag);
    EndOfJoined(Start(name), tag);
  }

  /** The reference with this name, completed by the registry rules. */
  function Named(name: string, tag: string): ImageReference {
    var (registry, repository) := SplitRegistry(name);
    ImageReference(registry, CompleteRepository(registry, repository), tag, None)
  }

  lemma ColonOfJoined(name: string, tag: string)
    requires ':' !in tag
    ensures LastIndexOf(Joined(name, tag), ':') == |name|
    ensures Joined(name, tag)[..|name|] == name && Joined(name, tag)[|name| + 1..] == tag
  {
    var s := Joined(name, tag);
    assert s[|name| + 1..] == tag;
    LastIndexOfIs(s, ':', |name|);
  }

  lemma SlashOfJoined(name: string, tag: string)
    ensures var i := IndexOf(Joined(name, tag), '/');
            if '/' in name then i == IndexOf(name, '/') < |name|
            else if '/' in tag then |name| < i < |Joined(name, tag)|
            else i == |Joined(name, tag)|
  {
    var s := Joined(name, tag);
    if '/' in name {
      var i := IndexOf(name, '/');
      assert s[..i] == name[..i];
      IndexOfIs(s, '/', i);
    } else if '/' in tag {
      var i := IndexOf(tag, '/');
      assert s[..|name| + 1 + i] == name + ":" + tag[..i];
      IndexOfIs(s, '/', |name| + 1 + i);
    } else {
      assert '/' !in s;
    }
  }

  lemma SplitJoined(name: string, tag: string)
    requires ':' !in tag
    ensures SplitTag(Joined(name, tag)) ==
            if '/' in name || '/' !in tag then (name, tag) else (Joined(name, tag), DEFAULT_TAG)
  {
    ColonOfJoined(name, tag);
    SlashOfJoined(name, tag);
  }

  /** A name and a tag parse as such unless the tag has a slash and the name has none. */
  lemma ParseJoined(name: string, tag: string)
    requires ':' !in tag && '@' !in name && '@' !in tag
    ensures var (n, t) := (Start(name), End(tag));
            Parse(Joined(name, tag)) ==
            Ok(if '/' in n || '/' !in t then Named(n, t) else Named(Joined(n, t), DEFAULT_TAG))
  {
    var n, t := Start(name), End(tag);
    TrimOfJoined(name, tag);
    EndsStayPlain(name, tag);
    TrimmedStays(Joined(name, tag));
    EqualTrimsParseAlike(Joined(name, tag), Joined(n, t));
    ParseTrimmedJoined(n, t);
  }

  lemma EndsStayPlain(name: string, tag: string)
    requires ':' !in tag && '@' !in name && '@' !in tag
    ensures ':' !in End(tag) && '@' !in Start(name) && '@' !in End(tag)
  {
    NotInPrefix(tag, |End(tag)|, ':');
    NotInPrefix(tag, |End(tag)|, '@');
    NotInSuffix(name, |name| - |Start(name)|, '@');
  }

  lemma TrimmedStays(s: string)
    ensures Trimmed(Trim(s)) && Trim(Trim(s)) == Trim(s)
  {
    TrimKeepsTrimmed(s);
    TrimKeepsTrimmed(Trim(s));
  }

  lemma EqualTrimsParseAlike(a: string, b: string)
    requires Trim(a) == Trim(b)
    ensures Parse(a) == Parse(b)
  {
  }

  lemma ParseTrimmedJoined(n: string, t: string)
    requires ':' !in t && '@' !in n && '@' !in t && Trimmed(Joined(n, t))
    ensures Parse(Joined(n, t)) ==
            Ok(if '/' in n || '/' !in t then Named(n, t) else Named(Joined(n, t), DEFAULT_TAG))
  {
    var s := Joined(n, t);
    SplitJoined(n, t);
    var (name, tag) := SplitTag(s);
    var (registry, repository) := SplitRegistry(name);
    assert s != "" && '@' !in s;
    ParseByParts(s, name, tag, registry, repository);
  }

  /** Putting the steps of `parse` together for a text without a digest. */
  lemma ParseByParts(s: string, name: string, tag: string, registry: string, repository: string)
    requires s != "" && Trimmed(s) && '@' !in s
    requires SplitTag(s) == (name, tag) && SplitRegistry(name) == (registry, repository)
    ensures Parse(s) == Ok(ImageReference(registry, CompleteRepository(registry, repository), tag, None))
  {
    TrimKeepsTrimmed(s);
    assert IndexOf(s, '@') == |s|;
  }

  predicate EndsInSpace(s: string) { s != "" && IsWhitespace(s[|s| - 1]) }

  predicate StartsWithSpace(s: string) { s != "" && IsWhitespace(s[0]) }

  lemma StartAndEnd(s: string)
    ensures Start(s) == s <==> !StartsWithSpace(s)
    ensures End(s) == s <==> !EndsInSpace(s)
    ensures |Start(s)| <= |s| && |End(s)| <= |s|
  {
  }

  // ---------------------------------------------------------------------------------------
  // The canonical name

  lemma NameOfNormal(r: ImageReference)
    requires Normal(r)
    ensures var name := r.registry + "/" + r.repository;
            && Named(name, r.tag) == WithoutDigest(r)
            && '/' in name && '@' !in name && !StartsWithSpace(name)
            && Canonical(r) == Joined(name, r.tag)
  {
    ConstantsArePlain();
    var name := r.registry + "/" + r.repository;
    DefaultRegistryHasNoSlash();
    assert name[..|r.registry|] == r.registry && name[|r.registry| + 1..] == r.repository;
    IndexOfIs(name, '/', |r.registry|);
    assert name[0] == r.registry[0] by {
      if r.registry != DEFAULT_REGISTRY { LooksLikeRegistryNonEmpty(r.registry); }
    }
  }

  lemma DefaultRegistryHasNoSlash()
    ensures '/' !in DEFAULT_REGISTRY && DEFAULT_REGISTRY != "" && DEFAULT_REGISTRY[0] == 'r'
    ensures IsHubAlias(DEFAULT_REGISTRY)
  {
  }

  /** The canonical name of a parsed reference parses back to it, less the digest, exactly when the
      tag does not end in white space; only a space before the '@' of a digest can leave one. */
  lemma CanonicalRoundTrip(input: string)
    ensures Parse(input).Ok? ==>
              var r := Parse(input).value;
              Parse(Canonical(r)) == Ok(WithoutDigest(r)) <==> !EndsInSpace(r.tag)
  {
    if Parse(input).Ok? {
      CanonicalOf(input, Parse(input).value);
    }
  }

  lemma CanonicalOf(input: string, r: ImageReference)
    requires Parse(input) == Ok(r)
    ensures Parse(Canonical(r)) == Ok(WithoutDigest(r)) <==> !EndsInSpace(r.tag)
  {
    var name := r.registry + "/" + r.repository;
    ParsedIsNormal(input);
    NameOfNormal(r);
    StartAndEnd(name);
    StartAndEnd(r.tag);
    ParseJoined(name, r.tag);
  }

  /** A space before the digest stays in the tag, and the canonical name then gives another one. */
  lemma SpaceBeforeDigestIsLost(x: string, t: string, digest: string)
    requires Plain(x) && Plain(t) && !EndsInSpace(digest)
    ensures var r := ImageReference(DEFAULT_REGISTRY, LIBRARY + x, t + " ", Some(digest));
            && Parse(Joined(x, t + " ") + "@" + digest) == Ok(r)
            && Parse(Canonical(r)) != Ok(WithoutDigest(r))
  {
    var tag := t + " ";
    assert tag[|tag| - 1] == ' ' && EndsInSpace(tag);
    ParsedWithDigest(x, tag, digest);
    CanonicalOf(Joined(x, tag) + "@" + digest, ImageReference(DEFAULT_REGISTRY, LIBRARY + x, tag, Some(digest)));
  }

  lemma ParsedWithDigest(x: string, tag: string, digest: string)
    requires Plain(x) && !EndsInSpace(digest)
    requires '/' !in tag && ':' !in tag && '@' !in tag
    ensures Parse(Joined(x, tag) + "@" + digest) ==
            Ok(ImageReference(DEFAULT_REGISTRY, LIBRARY + x, tag, Some(digest)))
  {
    var remainder := Joined(x, tag);
    assert x != "" ==> remainder[0] == x[0] && x[0] in x;
    assert '@' !in remainder;
    DigestSplits(remainder, digest);
    SplitJoined(x, tag);
    NamedPlain(x, tag);
  }

  /** For one: `a:b @c`. */
  lemma SpaceBeforeDigestExample()
    ensures Parse("a:b @c").Ok? && Parse(Canonical(Parse("a:b @c").value)) != Ok(WithoutDigest(Parse("a:b @c").value))
  {
    assert Joined("a", "b" + " ") + "@" + "c" == "a:b @c";
    SpaceBeforeDigestIsLost("a", "b", "c");
  }

  /** No tag of a reference has a character that is neither in the input nor in `latest`. */
  lemma TagFromInput(input: string, c: char)
    requires Parse(input).Ok? && c !in input && c !in DEFAULT_TAG
    ensures c !in Parse(input).value.tag
  {
    TrimAddsNothing(input, c);
    var trimmed := Trim(input);
    RemainderAddsNothing(trimmed, c);
    TagAddsNothing(SplitDigest(trimmed).0, c);
    ParsedTag(input);
  }

  lemma TrimAddsNothing(s: string, c: char)
    requires c !in s
    ensures c !in Trim(s)
  {
    var t := Start(s);
    NotInSuffix(s, |s| - |t|, c);
    NotInPrefix(t, |Trim(s)|, c);
  }

  lemma RemainderAddsNothing(s: string, c: char)
    requires c !in s
    ensures c !in SplitDigest(s).0
  {
    NotInPrefix(s, IndexOf(s, '@'), c);
  }

  lemma TagAddsNothing(remainder: string, c: char)
    requires c !in remainder && c !in DEFAULT_TAG
    ensures c !in SplitTag(remainder).1
  {
    NotInSuffix(remainder, LastIndexOf(remainder, ':') + 1, c);
  }

  lemma ParsedTag(input: string)
    requires Parse(input).Ok?
    ensures Parse(input).value.tag == SplitTag(SplitDigest(Trim(input)).0).1
  {
  }

  /** In particular for every input without white space. */
  lemma SpaceFreeCanonicalRoundTrip(input: string)
    requires forall c :: c in input ==> !IsWhitespace(c)
    ensures Parse(input).Ok? ==> Parse(Canonical(Parse(input).value)) == Ok(WithoutDigest(Parse(input).value))
  {
    if Parse(input).Ok? {
      CanonicalOf(input, Parse(input).value);
      SpaceFreeTag(input);
    }
  }

  lemma SpaceFreeTag(input: string)
    requires Parse(input).Ok? && forall c :: c in input ==> !IsWhitespace(c)
    ensures !EndsInSpace(Parse(input).value.tag)
  {
    var tag := Parse(input).value.tag;
    if EndsInSpace(tag) {
      var c := tag[|tag| - 1];
      assert c !in input;
      LatestHasNoSpace(c);
      TagFromInput(input, c);
    }
  }

  lemma LatestHasNoSpace(c: char)
    requires IsWhitespace(c)
    ensures c !in DEFAULT_TAG
  {
  }

  // ---------------------------------------------------------------------------------------
  // The display name

  /** When the short name is enough to find the reference again. */
  predicate DisplayIsFaithful(r: ImageReference)
    requires r.registry == DEFAULT_REGISTRY ==> '/' in r.repository
  {
    && !EndsInSpace(r.tag)
    && (r.registry == DEFAULT_REGISTRY ==>
          if LIBRARY <= r.repository then
            var x := r.repository[|LIBRARY|..];
            '/' !in x && '/' !in r.tag && !StartsWithSpace(x)
          else
            var first := r.repository[..IndexOf(r.repository, '/')];
            !IsHubAlias(first) && !LooksLikeRegistry(first) && !StartsWithSpace(r.repository))
  }

  lemma LibraryDisplay(r: ImageReference, x: string)
    requires Normal(r) && r.registry == DEFAULT_REGISTRY && r.repository == LIBRARY + x && '@' !in x
    ensures Parse(Joined(x, r.tag)) == Ok(WithoutDigest(r)) <==>
            !EndsInSpace(r.tag) && '/' !in x && '/' !in r.tag && !StartsWithSpace(x)
  {
    var n, t := Start(x), End(r.tag);
    ParseJoined(x, r.tag);
    StartAndEnd(x);
    StartAndEnd(r.tag);
    ConstantsArePlain();
    if EndsInSpace(r.tag) {
      LatestEndsInLetter();
    } else if '/' in x {
      SlashSurvivesStart(x);
      NamedIsShort(n, t);
    } else if '/' in r.tag {
      LatestEndsInLetter();
      NotInSuffix(x, |x| - |n|, '/');
    } else {
      NotInSuffix(x, |x| - |n|, '/');
      NamedPlain(n, t);
      if n != x {
        assert |LIBRARY + n| < |LIBRARY + x|;
      }
    }
  }

  lemma ShortDisplay(r: ImageReference)
    requires Normal(r) && r.registry == DEFAULT_REGISTRY && LIBRARY <= r.repository
    ensures Parse(DisplayName(r)) == Ok(WithoutDigest(r)) <==> DisplayIsFaithful(r)
  {
    var x := r.repository[|LIBRARY|..];
    assert r.repository == LIBRARY + x;
    NotInSuffix(r.repository, |LIBRARY|, '@');
    assert DisplayName(r) == Joined(x, r.tag);
    LibraryDisplay(r, x);
  }

  lemma LatestEndsInLetter()
    ensures !EndsInSpace(DEFAULT_TAG) && '/' !in DEFAULT_TAG
  {
  }

  lemma {:induction false} SlashSurvivesStart(x: string)
    requires '/' in x
    ensures '/' in Start(x)
  {
    if !IsWhitespace(x[0]) {
    } else {
      assert x == [x[0]] + x[1..];
      SlashSurvivesStart(x[1..]);
    }
  }

  /** A name with a slash never gives a repository that is `library/` and all of the name. */
  lemma NamedIsShort(name: string, tag: string)
    requires '/' in name
    ensures |Named(name, tag).repository| < |LIBRARY| + |name|
  {
  }

  lemma NamedPlain(name: string, tag: string)
    requires '/' !in name
    ensures Named(name, tag) == ImageReference(DEFAULT_REGISTRY, LIBRARY + name, tag, None)
  {
    ConstantsArePlain();
    assert (LIBRARY + name)[7] == '/';
  }

  lemma UserDisplay(r: ImageReference)
    requires Normal(r) && r.registry == DEFAULT_REGISTRY && !(LIBRARY <= r.repository)
    ensures Parse(DisplayName(r)) == Ok(WithoutDigest(r)) <==> DisplayIsFaithful(r)
  {
    assert DisplayName(r) == Joined(r.repository, r.tag);
    var n, t := Start(r.repository), End(r.tag);
    ParseJoined(r.repository, r.tag);
    StartAndEnd(r.repository);
    StartAndEnd(r.tag);
    SlashSurvivesStart(r.repository);
    NamedWithSlash(n, t);
    if Named(n, t).repository == r.repository {
      assert !(LIBRARY <= Named(n, t).repository);
    }
  }

  /** A name with a slash keeps all of its text only when its first component is no registry. */
  lemma NamedWithSlash(name: string, tag: string)
    requires '/' in name
    ensures var first := name[..IndexOf(name, '/')];
            var r := Named(name, tag);
            if !IsHubAlias(first) && !LooksLikeRegistry(first) then
              r == ImageReference(DEFAULT_REGISTRY, name, tag, None)
            else
              r.registry != DEFAULT_REGISTRY || LIBRARY <= r.repository || |r.repository| < |name|
  {
    DefaultRegistryHasNoSlash();
  }

  /** The display name of a parsed reference parses back to it, less the digest, exactly when it is
      faithful: for a library image when neither the rest of the repository nor the tag has a
      slash, for another image of the hub when its first component is not taken for a registry,
      and always elsewhere, white space at the ends apart. */
  lemma DisplayRoundTrip(input: string)
    ensures Parse(input).Ok? ==>
              var r := Parse(input).value;
              && (r.registry == DEFAULT_REGISTRY ==> '/' in r.repository)
              && (Parse(DisplayName(r)) == Ok(WithoutDigest(r)) <==> DisplayIsFaithful(r))
  {
    if Parse(input).Ok? {
      DisplayOf(input, Parse(input).value);
    }
  }

  lemma DisplayOf(input: string, r: ImageReference)
    requires Parse(input) == Ok(r)
    ensures r.registry == DEFAULT_REGISTRY ==> '/' in r.repository
    ensures Parse(DisplayName(r)) == Ok(WithoutDigest(r)) <==> DisplayIsFaithful(r)
  {
    ParsedIsNormal(input);
    if r.registry != DEFAULT_REGISTRY {
      CanonicalOf(input, r);
    } else if LIBRARY <= r.repository {
      ShortDisplay(r);
    } else {
      UserDisplay(r);
    }
  }

  /** A library image with a path below `library/`: the display name finds another repository. */
  lemma NestedLibraryImageIsLost(x: string, y: string, t: string)
    requires Plain(x) && Plain(y) && Plain(t)
    ensures var r := ImageReference(DEFAULT_REGISTRY, LIBRARY + (x + "/" + y), t, None);
            && Parse("docker.io/" + r.repository + ":" + t) == Ok(r)
            && Parse(DisplayName(r)) != Ok(WithoutDigest(r))
  {
    var below := x + "/" + y;
    assert below[|x|] == '/';
    NestedSpelling(below, t);
    NestedDisplay("docker.io/" + (LIBRARY + below) + ":" + t, below, t);
  }

  lemma NestedSpelling(below: string, t: string)
    requires '@' !in below && Plain(t)
    ensures Parse("docker.io/" + (LIBRARY + below) + ":" + t) ==
            Ok(ImageReference(DEFAULT_REGISTRY, LIBRARY + below, t, None))
  {
    ConstantsArePlain();
    DockerIoIsPlain();
    PrefixedName("docker.io", LIBRARY + below, t);
    assert "docker.io" + "/" == "docker.io/";
    CompletedAlready(below);
  }

  lemma NestedDisplay(input: string, below: string, t: string)
    requires '/' in below && Parse(input) == Ok(ImageReference(DEFAULT_REGISTRY, LIBRARY + below, t, None))
    ensures var r := ImageReference(DEFAULT_REGISTRY, LIBRARY + below, t, None);
            Parse(DisplayName(r)) != Ok(WithoutDigest(r))
  {
    var r := ImageReference(DEFAULT_REGISTRY, LIBRARY + below, t, None);
    DisplayOf(input, r);
    assert r.repository[|LIBRARY|..] == below;
  }

  /** For one: `docker.io/library/a/b:t`. */
  lemma NestedLibraryImageExample()
    ensures var input := "docker.io/library/a/b:t";
            Parse(input).Ok? && Parse(DisplayName(Parse(input).value)) != Ok(WithoutDigest(Parse(input).value))
  {
    assert "docker.io/" + (LIBRARY + ("a" + "/" + "b")) + ":" + "t" == "docker.io/library/a/b:t";
    NestedLibraryImageIsLost("a", "b", "t");
  }

  // ---------------------------------------------------------------------------------------
  // The spellings of one image

  predicate Plain(s: string) {
    && '/' !in s && ':' !in s && '@' !in s
    && forall c :: c in s ==> !IsWhitespace(c)
  }

  lemma PlainIsTrimmed(s: string)
    requires Plain(s)
    ensures Start(s) == s && End(s) == s
  {
    StartAndEnd(s);
    if s != "" { assert s[0] in s && s[|s| - 1] in s; }
  }

  /** A prefix of one plain component before a name. */
  lemma PrefixedName(first: string, rest: string, tag: string)
    requires '/' !in first && '@' !in first && !StartsWithSpace(first)
    requires '@' !in rest && Plain(tag)
    ensures Parse(Joined(first + "/" + rest, tag)) == Ok(Named(first + "/" + rest, tag))
    ensures SplitRegistry(first + "/" + rest) ==
            if IsHubAlias(first) then (DEFAULT_REGISTRY, rest)
            else if LooksLikeRegistry(first) then (first, rest)
            else (DEFAULT_REGISTRY, first + "/" + rest)
  {
    SlashAfter(first, rest);
    SlashedName(first, rest);
    PlainIsTrimmed(tag);
    ParseJoined(first + "/" + rest, tag);
  }

  lemma SlashedName(first: string, rest: string)
    requires '@' !in first && !StartsWithSpace(first) && '@' !in rest
    ensures var name := first + "/" + rest; '/' in name && '@' !in name && Start(name) == name
  {
    var name := first + "/" + rest;
    assert name[|first|] == '/' && name[0] == if first == "" then '/' else first[0];
    StartAndEnd(name);
  }

  /** The first component decides, by its characters, where an image is found: the names of Docker Hub
      mean its registry, a text with a dot or a colon and `localhost` are registries of their own, and
      anything else is the beginning of a repository on Docker Hub. */
  lemma FirstComponentDecides(first: string, rest: string, tag: string)
    requires '/' !in first && '@' !in first && !StartsWithSpace(first)
    requires '@' !in rest && Plain(tag)
    ensures Parse(first + "/" + rest + ":" + tag) == Ok(
              if first in {"docker.io", "index.docker.io", "registry-1.docker.io"} then
                ImageReference("registry-1.docker.io", if '/' in rest then rest else "library/" + rest, tag, None)
              else if '.' in first || ':' in first || first == "localhost" then
                ImageReference(first, rest, tag, None)
              else
                ImageReference("registry-1.docker.io", first + "/" + rest, tag, None))
  {
    PrefixedName(first, rest, tag);
    HubAliases(first);
    assert (first + "/" + rest)[|first|] == '/';
  }

  lemma HubAliases(s: string)
    ensures IsHubAlias(s) <==> s in {"docker.io", "index.docker.io", "registry-1.docker.io"}
    ensures s == "registry-1.docker.io" ==> IsHubAlias(s)
  {
  }

  /** A single name is the latest of an official image. */
  lemma NameAlone(x: string)
    requires Plain(x) && x != ""
    ensures Parse(x) == Ok(ImageReference("registry-1.docker.io", "library/" + x, "latest", None))
  {
    NameAloneParts(x);
    CompletedAlready(x);
    ParseByParts(x, x, DEFAULT_TAG, DEFAULT_REGISTRY, LIBRARY + x);
  }

  lemma NameAloneParts(x: string)
    requires Plain(x) && x != ""
    ensures Trimmed(x) && SplitTag(x) == (x, DEFAULT_TAG) && SplitRegistry(x) == (DEFAULT_REGISTRY, LIBRARY + x)
  {
    PlainIsTrimmed(x);
    StartAndEnd(x);
    NoColonNoSlash(x);
  }

  lemma NoColonNoSlash(x: string)
    requires ':' !in x && '/' !in x
    ensures SplitTag(x) == (x, DEFAULT_TAG) && SplitRegistry(x) == (DEFAULT_REGISTRY, LIBRARY + x)
  {
    NoColonNoTag(x);
    NoSlashNoRegistry(x);
  }

  lemma NoColonNoTag(x: string)
    requires ':' !in x
    ensures SplitTag(x) == (x, DEFAULT_TAG)
  {
    assert LastIndexOf(x, ':') == -1;
  }

  lemma NoSlashNoRegistry(x: string)
    requires '/' !in x
    ensures SplitRegistry(x) == (DEFAULT_REGISTRY, LIBRARY + x)
  {
    assert IndexOf(x, '/') == |x|;
  }

  /** The four spellings of an official image are one reference, and its display name is the
      shortest of them. */
  lemma SpellingsAgree(x: string, t: string)
    requires Plain(x) && Plain(t)
    ensures var r := ImageReference(DEFAULT_REGISTRY, LIBRARY + x, t, None);
            && Parse(x + ":" + t) == Ok(r)
            && Parse("library/" + x + ":" + t) == Ok(r)
            && Parse("docker.io/" + x + ":" + t) == Ok(r)
            && Parse("index.docker.io/library/" + x + ":" + t) == Ok(r)
            && DisplayName(r) == x + ":" + t
  {
    var r := ImageReference(DEFAULT_REGISTRY, LIBRARY + x, t, None);
    PlainIsTrimmed(x);
    PlainIsTrimmed(t);
    ParseJoined(x, t);
    NamedPlain(x, t);
    LibrarySpelling(x, t);
    HubSpelling(x, t);
    IndexSpelling(x, t);
    assert r.repository[|LIBRARY|..] == x;
  }

  lemma LibrarySpelling(x: string, t: string)
    requires Plain(x) && Plain(t)
    ensures Parse("library/" + x + ":" + t) == Ok(ImageReference(DEFAULT_REGISTRY, LIBRARY + x, t, None))
  {
    LibraryIsNoRegistry();
    PrefixedName("library", x, t);
    assert "library" + "/" == LIBRARY;
    CompletedAlready(x);
  }

  lemma LibraryIsNoRegistry()
    ensures !IsHubAlias("library") && !LooksLikeRegistry("library")
    ensures '/' !in "library" && '@' !in "library" && !IsWhitespace("library"[0])
  {
    assert |"library"| == 7;
  }

  lemma CompletedAlready(x: string)
    ensures CompleteRepository(DEFAULT_REGISTRY, LIBRARY + x) == LIBRARY + x
  {
    assert (LIBRARY + x)[7] == '/';
  }

  lemma HubSpelling(x: string, t: string)
    requires Plain(x) && Plain(t)
    ensures Parse("docker.io/" + x + ":" + t) == Ok(ImageReference(DEFAULT_REGISTRY, LIBRARY + x, t, None))
  {
    DockerIoIsPlain();
    PrefixedName("docker.io", x, t);
    assert "docker.io" + "/" == "docker.io/";
  }

  lemma DockerIoIsPlain()
    ensures '/' !in "docker.io" && '@' !in "docker.io" && !IsWhitespace("docker.io"[0]) && IsHubAlias("docker.io")
  {
    assert "docker.io"[0] == 'd';
  }

  lemma IndexSpelling(x: string, t: string)
    requires Plain(x) && Plain(t)
    ensures Parse("index.docker.io/library/" + x + ":" + t) ==
            Ok(ImageReference(DEFAULT_REGISTRY, LIBRARY + x, t, None))
  {
    ConstantsArePlain();
    PrefixedName("index.docker.io", LIBRARY + x, t);
    CompletedAlready(x);
    IndexPrefix(x);
  }

  lemma IndexPrefix(x: string)
    ensures "index.docker.io" + "/" + (LIBRARY + x) == "index.docker.io/library/" + x
  {
    assert "index.docker.io" + "/" + LIBRARY == "index.docker.io/library/";
    Regroup("index.docker.io" + "/", LIBRARY, x);
  }

  // ---------------------------------------------------------------------------------------
  // Digests and ports

  /** A digest after a name changes nothing but the digest. */
  lemma DigestIsKept(name: string, digest: string)
    requires name != "" && Trimmed(name) && '@' !in name && !EndsInSpace(digest)
    ensures Parse(name).Ok?
    ensures Parse(name + "@" + digest) == Ok(Parse(name).value.(digest := Some(digest)))
  {
    var s := name + "@" + digest;
    TrimKeepsTrimmed(name);
    assert IndexOf(name, '@') == |name|;
    DigestSplits(name, digest);
    assert SplitDigest(name) == (name, None);
    assert SplitDigest(s) == (name, Some(digest));
  }

  lemma DigestSplits(name: string, digest: string)
    requires name != "" && !IsWhitespace(name[0]) && '@' !in name && !EndsInSpace(digest)
    ensures var s := name + "@" + digest;
            && Trim(s) == s && s != ""
            && IndexOf(s, '@') == |name| && s[..|name|] == name && s[|name| + 1..] == digest
  {
    var s := name + "@" + digest;
    assert s[0] == name[0];
    assert s[|s| - 1] == if digest == "" then '@' else digest[|digest| - 1];
    TrimKeepsTrimmed(s);
    assert s[..|name|] == name && s[|name| + 1..] == digest;
    IndexOfIs(s, '@', |name|);
  }

  /** A colon in the registry is a port, not a tag: without a tag of its own the reference gets
      the default one, with it the tag after the last colon. */
  lemma PortIsNoTag(registry: string, repository: string)
    requires ':' in registry && '/' !in registry && '@' !in registry && !StartsWithSpace(registry)
    requires ':' !in repository && '@' !in repository && !EndsInSpace(repository)
    ensures Parse(registry + "/" + repository) ==
            Ok(ImageReference(registry, repository, DEFAULT_TAG, None))
  {
    var s := registry + "/" + repository;
    PortTrimmed(registry, repository);
    PortSplits(registry, repository);
    ParseByParts(s, s, DEFAULT_TAG, registry, repository);
    AliasesHaveNoColon(registry);
  }

  lemma PortTrimmed(registry: string, repository: string)
    requires registry != "" && '@' !in registry && !StartsWithSpace(registry)
    requires '@' !in repository && !EndsInSpace(repository)
    ensures var s := registry + "/" + repository; s != "" && Trimmed(s) && '@' !in s
  {
    var s := registry + "/" + repository;
    assert s[0] == registry[0];
    assert s[|s| - 1] == if repository == "" then '/' else repository[|repository| - 1];
  }

  lemma PortSplits(registry: string, repository: string)
    requires ':' in registry && '/' !in registry && ':' !in repository
    ensures var s := registry + "/" + repository;
            SplitTag(s) == (s, DEFAULT_TAG) && SplitRegistry(s) == (registry, repository)
  {
    SlashAfter(registry, repository);
    ColonBefore(registry, repository);
    AliasesHaveNoColon(registry);
  }

  lemma SlashAfter(first: string, rest: string)
    requires '/' !in first
    ensures var s := first + "/" + rest;
            IndexOf(s, '/') == |first| && s[..|first|] == first && s[|first| + 1..] == rest
  {
    var s := first + "/" + rest;
    assert s[..|first|] == first && s[|first| + 1..] == rest;
    IndexOfIs(s, '/', |first|);
  }

  lemma ColonBefore(first: string, rest: string)
    requires ':' in first && ':' !in rest
    ensures LastIndexOf(first + "/" + rest, ':') == LastIndexOf(first, ':')
  {
    var s := first + "/" + rest;
    var colon := LastIndexOf(first, ':');
    assert s[colon + 1..] == first[colon + 1..] + "/" + rest;
    NoColonAround(first[colon + 1..], rest);
    LastIndexOfIs(s, ':', colon);
  }

  lemma NoColonAround(a: string, b: string)
    requires ':' !in a && ':' !in b
    ensures ':' !in a + "/" + b
  {
  }

  lemma AliasesHaveNoColon(s: string)
    requires ':' in s
    ensures !IsHubAlias(s) && s != DEFAULT_REGISTRY
  {
    assert ':' !in "docker.io" && ':' !in "index.docker.io" && ':' !in DEFAULT_REGISTRY;
  }
}
