/** The registry credential store (src/auth/mod.rs). */
module Credentials {
  import opened Wrappers
  import opened Text
  import opened Base64
  import opened Utf8

  const DOCKER_HUB_KEY := "https://index.docker.io/v1/"

  /** `trim_start_matches` with a text: it is removed as often as it comes. */
  function TrimStartText(s: string, prefix: string): string
    requires prefix != ""
  {
    if prefix <= s then TrimStartText(s[|prefix|..], prefix) else s
  }

  function WithoutScheme(s: string): string {
    TrimStartText(TrimStartText(s, "https://"), "http://")
  }

  function CleanServer(server: string): string {
    TrimEndBy(WithoutScheme(Trim(server)), c => c == '/')
  }

  /** `normalize_server`. */
  function NormalizeServer(server: string): string { ServerKey(CleanServer(server)) }

  function ServerKey(clean: string): string {
    if || clean == "docker.io" || clean == "registry-1.docker.io" || clean == "index.docker.io"
       || clean == "index.docker.io/v1" || clean == "https://index.docker.io/v1"
    then DOCKER_HUB_KEY
    else clean
  }

  /** The text stored for a login: `user:secret` in base64. */
  function AuthText(username: string, secret: string): Bytes {
    Encoded(AsBytes(username + ":" + secret))
  }

  /** `split_once(':')`. */
  function SplitOnce(s: string): Option<(string, string)> {
    var i := IndexOf(s, ':');
    if i < |s| then Some((s[..i], s[i + 1..])) else None
  }

  /** What an entry says: base64, then UTF-8, then the first colon; any failure means nothing. */
  function ReadEntry(auth: Bytes): Option<(string, string)> {
    var bytes := Decoded(auth);
    if bytes.None? then None
    else
      var text := FromBytes(bytes.value);
      if text.None? then None else SplitOnce(text.value)
  }

  type Auths = map<string, Bytes>

  function ReadFrom(auths: Auths, key: string): Option<(string, string)> {
    if key in auths then ReadEntry(auths[key]) else None
  }

  /** The store's own entry, or else the one of the Docker client's configuration. */
  function Find(auths: Auths, docker: Auths, server: string): Option<(string, string)> {
    FindKey(auths, docker, NormalizeServer(server))
  }

  function FindKey(auths: Auths, docker: Auths, key: string): Option<(string, string)> {
    var own := ReadFrom(auths, key);
    if own.Some? then own else ReadFrom(docker, key)
  }

  function AfterLogin(auths: Auths, server: string, username: string, secret: string): Auths {
    auths[NormalizeServer(server) := AuthText(username, secret)]
  }

  function AfterLogout(auths: Auths, server: string): Auths {
    Forgotten(auths, NormalizeServer(server))
  }

  /** `remove`. */
  function Forgotten(auths: Auths, key: string): Auths { auths - {key} }

  class CredentialStore {
    var auths: Auths
    /** The entries of `~/.docker/config.json`, none when there is no readable file. */
    const docker: Auths

    constructor (docker: Auths)
      ensures this.docker == docker && auths == map[]
    {
      this.docker := docker;
      auths := map[];
    }

    /** `login`. */
    method Login(server: string, username: string, secret: string)
      modifies this
      ensures auths == AfterLogin(old(auths), server, username, secret)
    {
      var encoded := Encode(AsBytes(username + ":" + secret));
      auths := auths[NormalizeServer(server) := encoded];
    }

    /** `logout`. */
    method Logout(server: string)
      modifies this
      ensures auths == AfterLogout(old(auths), server)
    {
      auths := Forgotten(auths, NormalizeServer(server));
    }

    /** `get_credentials`. */
    method GetCredentials(server: string) returns (found: Option<(string, string)>)
      ensures found == Find(auths, docker, server)
    {
      var key := NormalizeServer(server);
      if key in auths {
        found := Read(auths[key]);
        if found.Some? {
          return;
        }
      }
      if key in docker {
        found := Read(docker[key]);
        return;
      }
      found := None;
    }

    static method Read(auth: Bytes) returns (found: Option<(string, string)>)
      ensures found == ReadEntry(auth)
    {
      var bytes := Decode(auth);
      if bytes.Some? {
        var text := FromBytes(bytes.value);
        if text.Some? {
          return SplitOnce(text.value);
        }
      }
      found := None;
    }
  }

  lemma StoredTextReadsBack(username: string, secret: string)
    ensures ReadEntry(AuthText(username, secret)) == SplitOnce(username + ":" + secret)
    ensures SplitOnce(username + ":" + secret).Some?
  {
    var text := username + ":" + secret;
    RoundTrip(AsBytes(text));
    Utf8RoundTrip(text);
    assert text[|username|] == ':';
  }

  lemma SplitGivesUser(username: string, secret: string)
    ensures SplitOnce(username + ":" + secret) == Some((username, secret)) <==> ':' !in username
  {
    var text := username + ":" + secret;
    assert text[..|username|] == username && text[|username| + 1..] == secret;
    if ':' !in username {
      IndexOfIs(text, ':', |username|);
    } else {
      var i := IndexOf(username, ':');
      assert text[..i] == username[..i];
      IndexOfIs(text, ':', i);
    }
  }

  /** After a login, a lookup under any spelling of the same server reads the stored text. */
  lemma FoundAfterLogin(auths: Auths, docker: Auths, server: string, alias: string, username: string, secret: string)
    requires NormalizeServer(alias) == NormalizeServer(server)
    ensures Find(AfterLogin(auths, server, username, secret), docker, alias) == SplitOnce(username + ":" + secret)
    ensures SplitOnce(username + ":" + secret).Some?
  {
    StoredTextReadsBack(username, secret);
  }

  /** After a login, a lookup under any spelling of the same server finds an entry whatever was
      there before, and it is the pair given exactly when the user name has no colon. */
  lemma LoginThenGet(auths: Auths, docker: Auths, server: string, alias: string, username: string, secret: string)
    requires NormalizeServer(alias) == NormalizeServer(server)
    ensures var found := Find(AfterLogin(auths, server, username, secret), docker, alias);
            found.Some? && (found == Some((username, secret)) <==> ':' !in username)
  {
    FoundAfterLogin(auths, docker, server, alias, username, secret);
    SplitGivesUser(username, secret);
  }

  /** A user name with a colon: what is behind the first one comes back as part of the secret. */
  lemma ColonInUserName(auths: Auths, docker: Auths, server: string, first: string, rest: string, secret: string)
    requires ':' !in first
    ensures Find(AfterLogin(auths, server, first + ":" + rest, secret), docker, server) ==
            Some((first, rest + ":" + secret))
  {
    FoundAfterLogin(auths, docker, server, server, first + ":" + rest, secret);
    ColonsRegroup(first, rest, secret);
    SplitGivesUser(first, rest + ":" + secret);
  }

  lemma ColonsRegroup(a: string, b: string, c: string)
    ensures a + ":" + b + ":" + c == a + ":" + (b + ":" + c)
  {
  }

  /** For one: `a:b`. */
  lemma ColonInUserNameExample(auths: Auths, docker: Auths, server: string, secret: string)
    ensures Find(AfterLogin(auths, server, "a:b", secret), docker, server) == Some(("a", "b:" + secret))
  {
    assert "a" + ":" + "b" == "a:b" && "b" + ":" + secret == "b:" + secret;
    ColonInUserName(auths, docker, server, "a", "b", secret);
  }

  /** An own entry that cannot be read, here one without a colon or with a single character of base64, is
      passed over for that of the Docker client. */
  lemma UnreadableEntryFallsBack(auths: Auths, docker: Auths, server: string, text: string, c: Byte,
                                 username: string, secret: string)
    requires ':' !in text && ':' !in username && !Dropped(c)
    ensures var key := NormalizeServer(server);
            key in auths && auths[key] in {Encoded(AsBytes(text)), [c]} ==>
              Find(auths, docker[key := AuthText(username, secret)], server) == Some((username, secret))
  {
    NothingToRead(text, c);
    StoredTextReadsBack(username, secret);
    SplitGivesUser(username, secret);
  }

  lemma NothingToRead(text: string, c: Byte)
    requires ':' !in text && !Dropped(c)
    ensures ReadEntry(Encoded(AsBytes(text))).None? && ReadEntry([c]).None?
  {
    RoundTrip(AsBytes(text));
    Utf8RoundTrip(text);
    assert IndexOf(text, ':') == |text|;
    CleanKeeps([c]);
    DecodesIffAcceptable([c]);
  }

  /** Logging in or out of one server changes the answer for no other. */
  lemma OtherServersUntouched(auths: Auths, docker: Auths, server: string, other: string,
                              username: string, secret: string)
    ensures NormalizeServer(other) != NormalizeServer(server) ==>
              && Find(AfterLogin(auths, server, username, secret), docker, other) == Find(auths, docker, other)
              && Find(AfterLogout(auths, server), docker, other) == Find(auths, docker, other)
  {
    var key, otherKey, auth := NormalizeServer(server), NormalizeServer(other), AuthText(username, secret);
    if otherKey != key {
      OtherKeysUntouched(auths, docker, key, otherKey, auth);
    }
  }

  /** After a logout only the Docker client's entry is left, whatever was stored before. */
  lemma LogoutForgets(auths: Auths, docker: Auths, server: string, username: string, secret: string)
    ensures AfterLogout(AfterLogin(auths, server, username, secret), server) == AfterLogout(auths, server)
    ensures Find(AfterLogout(auths, server), docker, server) == ReadFrom(docker, NormalizeServer(server))
  {
    ForgetKey(auths, docker, NormalizeServer(server), AuthText(username, secret));
  }

  lemma ForgetKey(auths: Auths, docker: Auths, key: string, auth: Bytes)
    ensures auths[key := auth] - {key} == auths - {key}
    ensures FindKey(auths - {key}, docker, key) == ReadFrom(docker, key)
  {
  }

  lemma OtherKeysUntouched(auths: Auths, docker: Auths, key: string, other: string, auth: Bytes)
    requires other != key
    ensures FindKey(auths[key := auth], docker, other) == FindKey(auths, docker, other)
    ensures FindKey(auths - {key}, docker, other) == FindKey(auths, docker, other)
  {
  }

  /** A server name as a user would write it: no scheme, no slash or white space at its ends. */
  predicate PlainServer(s: string) {
    && s != "" && Trimmed(s) && s[|s| - 1] != '/'
    && !("https://" <= s) && !("http://" <= s)
  }

  lemma PlainServerIsClean(s: string)
    requires PlainServer(s)
    ensures CleanServer(s) == s
  {
    TrimKeepsTrimmed(s);
    assert WithoutScheme(s) == s;
  }

  lemma OneSchemeGoes(s: string, scheme: string)
    requires scheme != "" && !(scheme <= s)
    ensures TrimStartText(scheme + s, scheme) == s && TrimStartText(s, scheme) == s
  {
    assert (scheme + s)[|scheme|..] == s;
  }

  lemma SchemedIsTrimmed(s: string, scheme: string)
    requires s != "" && Trimmed(s) && scheme != "" && !IsWhitespace(scheme[0])
    ensures Trim(scheme + s) == scheme + s
  {
    var all := scheme + s;
    assert all[0] == scheme[0] && all[|all| - 1] == s[|s| - 1];
    TrimKeepsTrimmed(all);
  }

  lemma SecureSchemeGoes(s: string)
    requires PlainServer(s)
    ensures CleanServer("https://" + s) == s
  {
    SchemedIsTrimmed(s, "https://");
    OneSchemeGoes(s, "https://");
    OneSchemeGoes(s, "http://");
  }

  lemma PlainSchemeGoes(s: string)
    requires PlainServer(s)
    ensures CleanServer("http://" + s) == s
  {
    var all := "http://" + s;
    SchemedIsTrimmed(s, "http://");
    OneSchemeGoes(s, "http://");
    assert all[4] == ':' && "https://"[4] == 's';
    assert TrimStartText(all, "https://") == all;
  }

  lemma SlashGoes(s: string)
    requires PlainServer(s)
    ensures CleanServer(s + "/") == s
  {
    var all := s + "/";
    assert all[0] == s[0];
    TrimKeepsTrimmed(all);
    NoSchemeBySlash(s, "https://");
    NoSchemeBySlash(s, "http://");
    assert WithoutScheme(all) == all;
    assert all[..|all| - 1] == s;
  }

  /** A slash behind a text that does not end in one cannot complete a scheme. */
  lemma NoSchemeBySlash(s: string, scheme: string)
    requires s != "" && s[|s| - 1] != '/' && !(scheme <= s)
    requires |scheme| >= 2 && scheme[|scheme| - 2] == '/'
    ensures !(scheme <= s + "/")
  {
  }

  /** The names of Docker Hub are one server, which no other plain name is taken for. */
  lemma HubIsOneServer(s: string)
    requires PlainServer(s)
    ensures NormalizeServer(s) ==
            if s in {"docker.io", "registry-1.docker.io", "index.docker.io", "index.docker.io/v1"}
            then "https://index.docker.io/v1/" else s
  {
    PlainServerIsClean(s);
    assert "https://index.docker.io/v1"[..8] == "https://";
  }

  /** So a login under one of these names is found under each of the others. */
  lemma HubLoginIsShared(auths: Auths, docker: Auths, server: string, alias: string, username: string, secret: string)
    requires server in {"docker.io", "registry-1.docker.io", "index.docker.io", "index.docker.io/v1"}
    requires alias in {"docker.io", "registry-1.docker.io", "index.docker.io", "index.docker.io/v1"}
    requires ':' !in username
    ensures Find(AfterLogin(auths, server, username, secret), docker, alias) == Some((username, secret))
  {
    HubNamesArePlain(server);
    HubNamesArePlain(alias);
    HubIsOneServer(server);
    HubIsOneServer(alias);
    LoginThenGet(auths, docker, server, alias, username, secret);
  }

  lemma HubNamesArePlain(s: string)
    requires s in {"docker.io", "registry-1.docker.io", "index.docker.io", "index.docker.io/v1"}
    ensures PlainServer(s)
  {
    assert s[0] in {'d', 'r', 'i'} && s[|s| - 1] in {'o', '1'};
  }

  /** Schemes are taken off in a fixed order, each as often as it comes, so one of them may stay. */
  lemma SchemeBehindScheme(s: string)
    requires PlainServer(s)
    ensures CleanServer("https://" + ("https://" + s)) == s
    ensures CleanServer("http://" + ("https://" + s)) == "https://" + s
  {
    SecureTwice(s, "https://" + s);
    SecureBehindPlain(s, "https://" + s);
  }

  lemma SecureTwice(s: string, inner: string)
    requires PlainServer(s) && inner == "https://" + s
    ensures CleanServer("https://" + inner) == s
  {
    SchemeStays(inner, s, "https://");
    assert ("https://" + inner)[8..] == inner;
    OneSchemeGoes(s, "https://");
    OneSchemeGoes(s, "http://");
  }

  lemma SecureBehindPlain(s: string, inner: string)
    requires PlainServer(s) && inner == "https://" + s
    ensures CleanServer("http://" + inner) == inner
  {
    var odd := "http://" + inner;
    SchemeStays(inner, s, "http://");
    assert odd[4] == ':' && "https://"[4] == 's';
    assert TrimStartText(odd, "https://") == odd;
    assert inner[4] == 's' && "http://"[4] == ':';
    OneSchemeGoes(inner, "http://");
  }

  lemma SchemeStays(inner: string, s: string, scheme: string)
    requires PlainServer(s) && inner == "https://" + s && scheme != "" && !IsWhitespace(scheme[0])
    ensures Trim(scheme + inner) == scheme + inner
    ensures TrimEndBy(inner, c => c == '/') == inner
  {
    assert inner[0] == 'h' && inner[|inner| - 1] == s[|s| - 1];
    SchemedIsTrimmed(inner, scheme);
  }

  /** White space around a server makes no difference either. */
  lemma BlanksAroundServer(before: string, s: string, after: string)
    requires PlainServer(s)
    requires forall i :: 0 <= i < |before| ==> IsWhitespace(before[i])
    requires forall i :: 0 <= i < |after| ==> IsWhitespace(after[i])
    ensures NormalizeServer(before + s + after) == NormalizeServer(s)
  {
    TrimBlanks(before, s, after);
    TrimKeepsTrimmed(s);
  }

  /** A scheme in front or a slash behind makes no difference to a server. */
  lemma ServerSpellings(s: string)
    requires PlainServer(s)
    ensures NormalizeServer("https://" + s) == NormalizeServer(s)
    ensures NormalizeServer("http://" + s) == NormalizeServer(s)
    ensures NormalizeServer(s + "/") == NormalizeServer(s)
  {
    PlainServerIsClean(s);
    SecureSchemeGoes(s);
    PlainSchemeGoes(s);
    SlashGoes(s);
  }
}
