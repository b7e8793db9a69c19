/** The layered environment of a container (src/oci/runtime.rs). */
module Environment {
  import opened Wrappers
  import opened Text

  /** The part before the first equals sign, `split('=').next()`. */
  function Key(e: string): string { e[..IndexOf(e, '=')] }

  const DEFAULTS := ["PATH=" + "/usr/local/sbin:/usr/local/bin:/usr/sbin:/usr/bin:/sbin:/bin", "TERM=xterm"]

  /** `retain` on the entries of other keys. */
  function Without(env: seq<string>, key: string): (kept: seq<string>)
    ensures forall e :: e in kept <==> e in env && Key(e) != key
  {
    if env == [] then []
    else (if Key(env[0]) == key then [] else [env[0]]) + Without(env[1..], key)
  }

  /** Entry i is the last one with its key. */
  predicate IsLast(all: seq<string>, i: nat)
    requires i < |all|
  {
    forall j :: i < j < |all| ==> Key(all[j]) != Key(all[i])
  }

  /** The entries that no later one overrides, in their order. */
  function KeepLast(all: seq<string>): seq<string> {
    if all == [] then []
    else FirstKept(all) + KeepLast(all[1..])
  }

  /** The entry stands at a place after which its key does not come again. */
  ghost predicate LastOfKey(entries: seq<string>, e: string) {
    exists i :: 0 <= i < |entries| && entries[i] == e && IsLast(entries, i)
  }

  /** The key of an entry is what stands before its first equals sign. */
  lemma KeyMeaning(key: string, val: string)
    requires '=' !in key
    ensures Key(key + "=" + val) == key && Key(key) == key
  {
    var e := key + "=" + val;
    assert e[..|key|] == key;
    IndexOfIs(e, '=', |key|);
  }

  /** An override wins over the image, and the image over the defaults. */
  lemma LaterLayersWin(defaults: seq<string>, image: seq<string>, overrides: seq<string>)
    ensures var env := KeepLast(defaults + image + overrides);
            && (forall e :: LastOfKey(overrides, e) ==> e in env)
            && (forall e :: LastOfKey(image, e) && (forall o :: o in overrides ==> Key(o) != Key(e)) ==> e in env)
  {
    var all := defaults + image + overrides;
    MergedEnvironment(all);
    forall e | LastOfKey(overrides, e) ensures e in KeepLast(all) {
      LastInWhole(defaults + image, overrides, [], e);
      assert all + [] == all;
    }
    forall e | LastOfKey(image, e) && (forall o :: o in overrides ==> Key(o) != Key(e)) ensures e in KeepLast(all) {
      LastInWhole(defaults, image, overrides, e);
    }
  }

  lemma LastInWhole(before: seq<string>, entries: seq<string>, after: seq<string>, e: string)
    requires LastOfKey(entries, e) && forall o :: o in after ==> Key(o) != Key(e)
    ensures LastOfKey(before + entries + after, e)
  {
    var all := before + entries + after;
    var i :| 0 <= i < |entries| && entries[i] == e && IsLast(entries, i);
    var n := |before| + i;
    forall j | n < j < |all| ensures Key(all[j]) != Key(all[n]) {
      if j < |before| + |entries| {
        assert all[j] == entries[j - |before|];
      } else {
        assert all[j] == after[j - |before| - |entries|];
      }
    }
    assert all[n] == e && IsLast(all, n);
  }

  /** The loops of `new_default`: each entry of the image, then each override, replaces whatever
      has its key. */
  method NewDefaultEnv(imageEnv: Option<seq<string>>, envOverride: Option<seq<string>>) returns (env: seq<string>)
    ensures env == KeepLast(DEFAULTS + OrEmpty(imageEnv) + OrEmpty(envOverride))
  {
    env := DEFAULTS;
    DefaultsAreDistinct();
    if imageEnv.Some? {
      env := Override(env, DEFAULTS, imageEnv.value);
    }
    assert DEFAULTS + [] == DEFAULTS;
    ghost var before := DEFAULTS + OrEmpty(imageEnv);
    if envOverride.Some? {
      env := Override(env, before, envOverride.value);
    }
    assert before + [] == before;
  }

  function OrEmpty(s: Option<seq<string>>): seq<string> {
    if s.Some? then s.value else []
  }

  /** One of the two loops; `seen` is everything merged before it. */
  method Override(start: seq<string>, ghost seen: seq<string>, entries: seq<string>) returns (env: seq<string>)
    requires start == KeepLast(seen)
    ensures env == KeepLast(seen + entries)
  {
    env := start;
    assert seen + entries[..0] == seen;
    for i := 0 to |entries|
      invariant env == KeepLast(seen + entries[..i])
    {
      MergeStep(seen, entries, i);
      env := Without(env, Key(entries[i]));
      env := env + [entries[i]];
    }
    assert entries[..|entries|] == entries;
  }

  lemma MergeStep(seen: seq<string>, entries: seq<string>, i: nat)
    requires i < |entries|
    ensures KeepLast(seen + entries[..i + 1]) == Without(KeepLast(seen + entries[..i]), Key(entries[i])) + [entries[i]]
  {
    var merged := seen + entries[..i];
    assert seen + entries[..i + 1] == merged + [entries[i]];
    KeepLastSnoc(merged, entries[i]);
  }

  lemma DefaultKeys()
    ensures Key(DEFAULTS[0]) == "PATH" && Key(DEFAULTS[1]) == "TERM"
  {
    assert DEFAULTS[0][4] == "PATH="[4] == '=';
    assert DEFAULTS[0][..4] == "PATH" && DEFAULTS[1][..4] == "TERM";
    IndexOfIs(DEFAULTS[0], '=', 4);
    IndexOfIs(DEFAULTS[1], '=', 4);
  }

  lemma DefaultsAreDistinct()
    ensures KeepLast(DEFAULTS) == DEFAULTS
  {
    DefaultKeys();
    KeepLastOfTwo(DEFAULTS[0], DEFAULTS[1]);
    assert DEFAULTS == [DEFAULTS[0], DEFAULTS[1]];
  }

  lemma KeepLastOfTwo(a: string, b: string)
    requires Key(a) != Key(b)
    ensures KeepLast([a, b]) == [a, b]
  {
    assert [a, b][1..] == [b] && [b][1..] == [];
    assert FirstKept([a, b]) == [a] && FirstKept([b]) == [b];
    assert KeepLast([b]) == [b] + KeepLast([]) == [b];
    assert KeepLast([a, b]) == [a] + [b];
  }

  lemma WithoutConcat(a: seq<string>, b: seq<string>, key: string)
    ensures Without(a + b, key) == Without(a, key) + Without(b, key)
  {
    if a == [] {
      assert a + b == b;
    } else {
      assert (a + b)[1..] == a[1..] + b;
      WithoutConcat(a[1..], b, key);
    }
  }

  lemma FirstStaysLast(all: seq<string>, e: string)
    requires all != []
    ensures IsLast(all + [e], 0) <==> IsLast(all, 0) && Key(e) != Key(all[0])
  {
    var longer := all + [e];
    assert longer[|all|] == e && longer[0] == all[0];
    assert forall j :: 0 <= j < |all| ==> longer[j] == all[j];
    if IsLast(all, 0) && Key(e) != Key(all[0]) {
      forall j | 0 < j < |longer| ensures Key(longer[j]) != Key(longer[0]) {
        if j < |all| { assert longer[j] == all[j]; }
      }
    }
  }

  function FirstKept(all: seq<string>): seq<string>
    requires all != []
  {
    if IsLast(all, 0) then [all[0]] else []
  }

  /** Appending an entry drops what it overrides and puts it last. */
  lemma {:induction false} KeepLastSnoc(all: seq<string>, e: string)
    ensures KeepLast(all + [e]) == Without(KeepLast(all), Key(e)) + [e]
  {
    var longer := all + [e];
    if all == [] {
      assert longer == [e] && longer[1..] == [];
      assert IsLast(longer, 0);
    } else {
      var rest := KeepLast(all[1..]);
      assert longer[1..] == all[1..] + [e];
      KeepLastSnoc(all[1..], e);
      FirstStaysLast(all, e);
      WithoutConcat(FirstKept(all), rest, Key(e));
      assert FirstKept(longer) == Without(FirstKept(all), Key(e));
      Regroup(FirstKept(longer), Without(rest, Key(e)), [e]);
    }
  }

  // ---------------------------------------------------------------------------------------
  // What the merged environment contains

  /** The positions of the entries that are kept, in ascending order. */
  function LastPositions(all: seq<string>, from: nat): seq<nat>
    requires from <= |all|
    decreases |all| - from
  {
    if from == |all| then []
    else (if IsLast(all, from) then [from] else []) + LastPositions(all, from + 1)
  }

  lemma IsLastOfSuffix(all: seq<string>, from: nat, i: nat)
    requires from + i < |all|
    ensures IsLast(all[from..], i) <==> IsLast(all, from + i)
  {
    var suffix := all[from..];
    assert forall j :: 0 <= j < |suffix| ==> suffix[j] == all[from + j];
    if IsLast(suffix, i) {
      forall j | from + i < j < |all| ensures Key(all[j]) != Key(all[from + i]) {
        assert all[j] == suffix[j - from];
      }
    }
  }

  /** They are exactly the positions of entries last of their key. */
  lemma {:induction false} PositionsAreLast(all: seq<string>, from: nat)
    requires from <= |all|
    ensures forall i :: i in LastPositions(all, from) <==> from <= i < |all| && IsLast(all, i)
    decreases |all| - from
  {
    if from >= |all| {
    } else {
      PositionsAreLast(all, from + 1);
    }
  }

  predicate Ascending(s: seq<nat>) {
    forall j, k :: 0 <= j < k < |s| ==> s[j] < s[k]
  }

  lemma ConsAscends(x: nat, s: seq<nat>)
    requires Ascending(s) && forall k :: 0 <= k < |s| ==> x < s[k]
    ensures Ascending([x] + s)
  {
  }

  lemma {:induction false} PositionsAscend(all: seq<string>, from: nat)
    requires from <= |all|
    ensures Ascending(LastPositions(all, from))
    decreases |all| - from
  {
    if from >= |all| {
    } else {
      var rest := LastPositions(all, from + 1);
      PositionsAscend(all, from + 1);
      PositionsAreLast(all, from + 1);
      forall k | 0 <= k < |rest| ensures from < rest[k] {
        assert rest[k] in rest;
      }
      ConsAscends(from, rest);
      assert [] + rest == rest;
    }
  }

  /** The kept entries are those at these positions. */
  lemma {:induction false} KeepLastPositions(all: seq<string>, from: nat)
    requires from <= |all|
    ensures var at := LastPositions(all, from);
            && |KeepLast(all[from..])| == |at|
            && forall k :: 0 <= k < |at| ==> at[k] < |all| && KeepLast(all[from..])[k] == all[at[k]]
    decreases |all| - from
  {
    if from >= |all| {
    } else {
      KeepLastPositions(all, from + 1);
      IsLastOfSuffix(all, from, 0);
      assert all[from..][1..] == all[from + 1..];
    }
  }

  lemma {:induction false} LastOccurrence(all: seq<string>, key: string) returns (i: nat)
    requires exists e :: e in all && Key(e) == key
    ensures i < |all| && Key(all[i]) == key && IsLast(all, i)
  {
    var n := |all| - 1;
    if Key(all[n]) == key {
      i := n;
    } else {
      assert all == all[..n] + [all[n]];
      i := LastOccurrence(all[..n], key);
      forall j | i < j < |all| ensures Key(all[j]) != Key(all[i]) {
        if j < n { assert all[j] == all[..n][j]; }
      }
    }
  }

  /** Every key of the three layers appears exactly once in the result, with its last value, and
      the results are in the order of these last occurrences. */
  lemma MergedEnvironment(all: seq<string>)
    ensures var env := KeepLast(all);
            && (forall i, j :: 0 <= i < j < |env| ==> Key(env[i]) != Key(env[j]))
            && (forall e :: e in all ==> exists k :: 0 <= k < |env| && Key(env[k]) == Key(e))
            && (forall e :: e in env <==> exists i :: 0 <= i < |all| && IsLast(all, i) && all[i] == e)
  {
    var env, at := KeepLast(all), LastPositions(all, 0);
    assert all[0..] == all;
    KeepLastPositions(all, 0);
    PositionsAreLast(all, 0);
    PositionsAscend(all, 0);
    forall i, j | 0 <= i < j < |env| ensures Key(env[i]) != Key(env[j]) {
      assert at[i] in at && at[i] < at[j];
    }
    forall i | 0 <= i < |all| && IsLast(all, i) ensures all[i] in env {
      var k :| 0 <= k < |at| && at[k] == i;
      assert env[k] == all[i];
    }
    forall e | e in all ensures exists k :: 0 <= k < |env| && Key(env[k]) == Key(e) {
      var i := LastOccurrence(all, Key(e));
      assert all[i] in env;
    }
    forall e | e in env ensures exists i :: 0 <= i < |all| && IsLast(all, i) && all[i] == e {
      var k :| 0 <= k < |env| && env[k] == e;
      assert at[k] in at;
    }
  }
}
