/** The operations of Rust's `str` that the modelled code is built from. */
module Text {

  /** `char::is_whitespace`: the code points with the Unicode property White_Space. */
  predicate IsWhitespace(c: char) {
    var n := c as int;
    || 0x9 <= n <= 0xD || n == 0x20 || n == 0x85 || n == 0xA0 || n == 0x1680
    || 0x2000 <= n <= 0x200A || n == 0x2028 || n == 0x2029 || n == 0x202F || n == 0x205F || n == 0x3000
  }

  /** The 25 characters with that property, one by one. */
  lemma WhitespaceMeaning(c: char)
    ensures IsWhitespace(c) <==>
            c in {'\U{9}', '\U{A}', '\U{B}', '\U{C}', '\U{D}', ' ', '\U{85}', '\U{A0}', '\U{1680}', '\U{2000}',
                  '\U{2001}', '\U{2002}', '\U{2003}', '\U{2004}', '\U{2005}', '\U{2006}', '\U{2007}', '\U{2008}',
                  '\U{2009}', '\U{200A}', '\U{2028}', '\U{2029}', '\U{202F}', '\U{205F}', '\U{3000}'}
  {
  }

  /** `find`: the first index of `c`, or |s| when there is none. */
  function IndexOf(s: string, c: char): (i: nat)
    ensures i <= |s|
    ensures c !in s[..i]
    ensures i < |s| ==> s[i] == c
    ensures i == |s| <==> c !in s
  {
    if s == "" then 0
    else if s[0] == c then 0
    else
      var r := IndexOf(s[1..], c) + 1;
      assert s == [s[0]] + s[1..];
      assert s[..r] == [s[0]] + s[1..][..r - 1];
      r
  }

  /** `rfind`: the last index of `c`, or -1 when there is none. */
  function LastIndexOf(s: string, c: char): (i: int)
    ensures -1 <= i < |s|
    ensures c !in s[i + 1..]
    ensures 0 <= i ==> s[i] == c
    ensures i == -1 <==> c !in s
  {
    if s == "" then -1
    else if s[|s| - 1] == c then |s| - 1
    else
      var r := LastIndexOf(s[..|s| - 1], c);
      assert s == s[..|s| - 1] + [s[|s| - 1]];
      assert s[r + 1..] == s[..|s| - 1][r + 1..] + [s[|s| - 1]];
      r
  }

  lemma IndexOfIs(s: string, c: char, i: nat)
    requires i < |s| && s[i] == c && c !in s[..i]
    ensures IndexOf(s, c) == i
  {
    var j := IndexOf(s, c);
    assert forall k :: 0 <= k < i ==> s[..i][k] == s[k];
    assert forall k :: 0 <= k < j ==> s[..j][k] == s[k];
  }

  lemma LastIndexOfIs(s: string, c: char, i: nat)
    requires i < |s| && s[i] == c && c !in s[i + 1..]
    ensures LastIndexOf(s, c) == i
  {
    var j := LastIndexOf(s, c);
    assert forall k :: i < k < |s| ==> s[i + 1..][k - i - 1] == s[k];
    assert forall k :: j < k < |s| ==> s[j + 1..][k - j - 1] == s[k];
  }

  predicate EndsWith<T(==)>(s: seq<T>, suffix: seq<T>) {
    |suffix| <= |s| && s[|s| - |suffix|..] == suffix
  }

  /** `trim_start_matches` with a predicate on characters. */
  function TrimStartBy(s: string, drop: char -> bool): (r: string)
    ensures EndsWith(s, r)
    ensures r != "" ==> !drop(r[0])
    ensures forall i :: 0 <= i < |s| - |r| ==> drop(s[i])
  {
    if s != "" && drop(s[0]) then
      var r := TrimStartBy(s[1..], drop);
      assert forall i :: 1 <= i < |s| - |r| ==> s[i] == s[1..][i - 1];
      assert s[1..][|s| - 1 - |r|..] == s[|s| - |r|..];
      r
    else s
  }

  /** `trim_end_matches` with a predicate on characters. */
  function TrimEndBy(s: string, drop: char -> bool): (r: string)
    ensures r <= s
    ensures r != "" ==> !drop(r[|r| - 1])
    ensures forall i :: |r| <= i < |s| ==> drop(s[i])
  {
    if s != "" && drop(s[|s| - 1]) then TrimEndBy(s[..|s| - 1], drop) else s
  }

  /** `trim`. */
  function Trim(s: string): string {
    TrimEndBy(TrimStartBy(s, IsWhitespace), IsWhitespace)
  }

  /** The text has no white space at either end, so `trim` returns it as it is. */
  predicate Trimmed(s: string) {
    s != "" ==> !IsWhitespace(s[0]) && !IsWhitespace(s[|s| - 1])
  }

  lemma TrimKeepsTrimmed(s: string)
    ensures Trimmed(Trim(s))
    ensures Trim(s) == s <==> Trimmed(s)
  {
    var t := TrimStartBy(s, IsWhitespace);
    var u := Trim(s);
    if u != "" {
      assert u[0] == t[0];
    }
    if Trimmed(s) {
      assert t == s;
      assert u == s;
    }
  }

  /** White space around a text that has none at its ends is all that `trim` takes away. */
  lemma TrimBlanks(before: string, s: string, after: string)
    requires Trimmed(s)
    requires forall i :: 0 <= i < |before| ==> IsWhitespace(before[i])
    requires forall i :: 0 <= i < |after| ==> IsWhitespace(after[i])
    ensures Trim(before + s + after) == s
  {
    if s == "" {
      assert before + s + after == before + after + "";
      TrimStartSkips(before + after, "", IsWhitespace);
    } else {
      Regroup(before, s, after);
      TrimStartSkips(before, s + after, IsWhitespace);
      TrimEndSkips(s, after, IsWhitespace);
    }
  }

  lemma {:induction false} TrimStartSkips(before: string, s: string, drop: char -> bool)
    requires forall i :: 0 <= i < |before| ==> drop(before[i])
    requires s == "" || !drop(s[0])
    ensures TrimStartBy(before + s, drop) == s
  {
    if before == "" {
      assert before + s == s;
    } else {
      assert (before + s)[1..] == before[1..] + s;
      TrimStartSkips(before[1..], s, drop);
    }
  }

  lemma {:induction false} TrimEndSkips(s: string, after: string, drop: char -> bool)
    requires forall i :: 0 <= i < |after| ==> drop(after[i])
    requires s == "" || !drop(s[|s| - 1])
    ensures TrimEndBy(s + after, drop) == s
  {
    if after == "" {
      assert s + after == s;
    } else {
      var all := s + after;
      assert all[..|all| - 1] == s + after[..|after| - 1];
      TrimEndSkips(s, after[..|after| - 1], drop);
    }
  }

  /** `split(c)`: the pieces between the occurrences of `c`; always at least one. */
  function Split(s: string, c: char): (parts: seq<string>)
    ensures |parts| >= 1
    ensures |parts| == 1 <==> c !in s
  {
    var i := IndexOf(s, c);
    if i == |s| then [s] else [s[..i]] + Split(s[i + 1..], c)
  }

  /** One separator gives exactly the two pieces around it, and only one separator does. */
  lemma SplitInTwo(s: string, c: char)
    ensures |Split(s, c)| == 2 <==>
            (c in s && c !in s[IndexOf(s, c) + 1..])
    ensures |Split(s, c)| == 2 ==>
              Split(s, c) == [s[..IndexOf(s, c)], s[IndexOf(s, c) + 1..]]
  {
  }

  /** The order of Rust's `str`: by code point, shorter first. */
  predicate TextLeq(a: string, b: string) {
    if a == "" then true
    else if b == "" then false
    else a[0] < b[0] || (a[0] == b[0] && TextLeq(a[1..], b[1..]))
  }

  lemma SameFront(a: string, b: string, k: nat)
    requires k <= |a| && k <= |b|
    ensures a[..k] == b[..k] ==> k == 0 || a[0] == b[0]
  {
    if k > 0 {
      assert a[..k][0] == a[0] && b[..k][0] == b[0];
    }
  }

  /** At the first place where two texts differ the smaller code point, or the end, decides. */
  lemma {:induction false} TextLeqMeaning(a: string, b: string)
    ensures TextLeq(a, b) <==>
            a <= b || exists k :: 0 <= k < |a| && k < |b| && a[..k] == b[..k] && (a[k] as int) < (b[k] as int)
  {
    if a == "" || b == "" {
    } else {
      var s, t := a[1..], b[1..];
      TextLeqMeaning(s, t);
      if a[0] == b[0] {
        if k :| 0 <= k < |s| && k < |t| && s[..k] == t[..k] && (s[k] as int) < (t[k] as int) {
          assert a[..k + 1] == [a[0]] + s[..k] && b[..k + 1] == [b[0]] + t[..k];
          assert (a[k + 1] as int) < (b[k + 1] as int);
        }
        if k :| 0 <= k < |a| && k < |b| && a[..k] == b[..k] && (a[k] as int) < (b[k] as int) {
          assert s[..k - 1] == a[..k][1..] && t[..k - 1] == b[..k][1..];
          assert (s[k - 1] as int) < (t[k - 1] as int);
        }
        assert a <= b <==> s <= t by {
          assert a == [a[0]] + s && b == [b[0]] + t;
        }
      } else {
        assert a[..0] == b[..0];
        forall k | 0 <= k < |a| && k < |b| ensures a[..k] == b[..k] ==> k == 0 {
          SameFront(a, b, k);
        }
      }
    }
  }

  lemma {:induction false} TextLeqTotal(a: string, b: string)
    ensures TextLeq(a, b) || TextLeq(b, a)
  {
    if a == "" || b == "" {
    } else {
      TextLeqTotal(a[1..], b[1..]);
    }
  }

  lemma {:induction false} TextLeqTrans(a: string, b: string, c: string)
    requires TextLeq(a, b) && TextLeq(b, c)
    ensures TextLeq(a, c)
  {
    if a == "" || b == "" || c == "" || a[0] != b[0] || b[0] != c[0] {
    } else {
      TextLeqTrans(a[1..], b[1..], c[1..]);
    }
  }

  /** Pieces put together in their order. */
  function Concat<T>(parts: seq<seq<T>>): seq<T> {
    if parts == [] then [] else Concat(parts[..|parts| - 1]) + parts[|parts| - 1]
  }

  lemma Regroup<T>(a: seq<T>, b: seq<T>, c: seq<T>)
    ensures a + (b + c) == a + b + c
  {
  }
}
