/** UTF-8 as Rust's strings use it: what `as_bytes` gives and `from_utf8` accepts. */
module Utf8 {
  import opened Wrappers
  import opened Bits
  import opened Base64

  predicate IsScalar(n: int) {
    0 <= n < 0xD800 || 0xE000 <= n < 0x11_0000
  }

  function EncodeChar(c: char): (bytes: Bytes)
    ensures 1 <= |bytes| <= 4
  {
    var n := c as int;
    if n < 0x80 then [n]
    else if n < 0x800 then [0xC0 + n / 0x40, 0x80 + n % 0x40]
    else if n < 0x1_0000 then [0xE0 + n / 0x1000, 0x80 + n / 0x40 % 0x40, 0x80 + n % 0x40]
    else [0xF0 + n / 0x4_0000, 0x80 + n / 0x1000 % 0x40, 0x80 + n / 0x40 % 0x40, 0x80 + n % 0x40]
  }

  /** `as_bytes`. */
  function AsBytes(s: string): Bytes {
    if s == "" then [] else EncodeChar(s[0]) + AsBytes(s[1..])
  }

  predicate IsContinuation(b: Byte) { 0x80 <= b < 0xC0 }

  /** The first scalar value and the bytes it takes; overlong forms and surrogates are refused. */
  function DecodeChar(b: Bytes): (r: Option<(char, nat)>)
    requires b != []
    ensures r.Some? ==> 1 <= r.value.1 <= |b|
  {
    if b[0] < 0x80 then Some((b[0] as char, 1))
    else if 0xC0 <= b[0] < 0xE0 && |b| >= 2 && IsContinuation(b[1]) then
      Scalar((b[0] as int - 0xC0) * 0x40 + (b[1] as int - 0x80), 0x80, 2)
    else if 0xE0 <= b[0] < 0xF0 && |b| >= 3 && IsContinuation(b[1]) && IsContinuation(b[2]) then
      Scalar((b[0] as int - 0xE0) * 0x1000 + (b[1] as int - 0x80) * 0x40 + (b[2] as int - 0x80), 0x800, 3)
    else if 0xF0 <= b[0] < 0xF8 && |b| >= 4 && IsContinuation(b[1]) && IsContinuation(b[2]) && IsContinuation(b[3]) then
      Scalar((b[0] as int - 0xF0) * 0x4_0000 + (b[1] as int - 0x80) * 0x1000
             + (b[2] as int - 0x80) * 0x40 + (b[3] as int - 0x80), 0x1_0000, 4)
    else None
  }

  function Scalar(n: nat, least: nat, length: nat): Option<(char, nat)> {
    if least <= n && IsScalar(n) then Some((n as char, length)) else None
  }

  /** `from_utf8`. */
  function FromBytes(b: Bytes): Option<string> {
    if b == [] then Some("")
    else
      var first := DecodeChar(b);
      if first.None? then None
      else
        var rest := FromBytes(b[first.value.1..]);
        if rest.None? then None else Some([first.value.0] + rest.value)
  }

  lemma Digits2(n: nat)
    ensures n == n / 0x40 * 0x40 + n % 0x40
    ensures n < 0x800 ==> n / 0x40 < 0x20
  {
  }

  lemma Digits3(n: nat)
    ensures n == n / 0x1000 * 0x1000 + n / 0x40 % 0x40 * 0x40 + n % 0x40
    ensures n < 0x1_0000 ==> n / 0x1000 < 0x10
  {
  }

  lemma Digits4(n: nat)
    ensures n == n / 0x4_0000 * 0x4_0000 + n / 0x1000 % 0x40 * 0x1000 + n / 0x40 % 0x40 * 0x40 + n % 0x40
    ensures n < 0x11_0000 ==> n / 0x4_0000 < 5
  {
    var q := n / 0x40;
    Digits3(q);
    assert n / 0x1000 == q / 0x40 && n / 0x4_0000 == q / 0x1000;
    assert n == q * 0x40 + n % 0x40;
  }

  lemma DecodeCharInverts(c: char, rest: Bytes)
    ensures DecodeChar(EncodeChar(c) + rest) == Some((c, |EncodeChar(c)|))
  {
    var n := c as int;
    if n < 0x80 {
      assert (EncodeChar(c) + rest)[0] == n;
    } else if n < 0x800 {
      Decode2(c, rest);
    } else if n < 0x1_0000 {
      Decode3(c, rest);
    } else {
      Decode4(c, rest);
    }
  }

  lemma Decode2(c: char, rest: Bytes)
    requires 0x80 <= c as int < 0x800
    ensures DecodeChar(EncodeChar(c) + rest) == Some((c, 2))
  {
    var n := c as int;
    Digits2(n);
    var b: Bytes := [0xC0 + n / 0x40, 0x80 + n % 0x40] + rest;
    assert b[0] == 0xC0 + n / 0x40 && b[1] == 0x80 + n % 0x40;
  }

  lemma Decode3(c: char, rest: Bytes)
    requires 0x800 <= c as int < 0x1_0000
    ensures DecodeChar(EncodeChar(c) + rest) == Some((c, 3))
  {
    var n := c as int;
    Digits3(n);
    var b: Bytes := [0xE0 + n / 0x1000, 0x80 + n / 0x40 % 0x40, 0x80 + n % 0x40] + rest;
    assert b[0] == 0xE0 + n / 0x1000 && b[1] == 0x80 + n / 0x40 % 0x40 && b[2] == 0x80 + n % 0x40;
  }

  lemma Decode4(c: char, rest: Bytes)
    requires 0x1_0000 <= c as int
    ensures DecodeChar(EncodeChar(c) + rest) == Some((c, 4))
  {
    var n := c as int;
    Digits4(n);
    var b: Bytes := [0xF0 + n / 0x4_0000, 0x80 + n / 0x1000 % 0x40, 0x80 + n / 0x40 % 0x40, 0x80 + n % 0x40] + rest;
    assert b[0] == 0xF0 + n / 0x4_0000 && b[1] == 0x80 + n / 0x1000 % 0x40;
    assert b[2] == 0x80 + n / 0x40 % 0x40 && b[3] == 0x80 + n % 0x40;
  }

  lemma EncodeCharInverts(b: Bytes)
    requires b != [] && DecodeChar(b).Some?
    ensures var (c, n) := DecodeChar(b).value; EncodeChar(c) == b[..n]
  {
    if b[0] < 0x80 {
      assert b[..1] == [b[0]];
    } else if b[0] < 0xE0 {
      Encode2(b);
    } else if b[0] < 0xF0 {
      Encode3(b);
    } else {
      Encode4(b);
    }
  }

  lemma Encode2(b: Bytes)
    requires |b| >= 2 && 0xC0 <= b[0] < 0xE0 && DecodeChar(b).Some?
    ensures DecodeChar(b).value.1 == 2 && EncodeChar(DecodeChar(b).value.0) == b[..2]
  {
    var x: nat, y: nat := b[0] - 0xC0, b[1] - 0x80;
    ModOf(x * 0x40 + y, x, y, 0x40);
    assert b[..2] == [b[0], b[1]];
  }

  lemma Encode3(b: Bytes)
    requires |b| >= 3 && 0xE0 <= b[0] < 0xF0 && DecodeChar(b).Some?
    ensures DecodeChar(b).value.1 == 3 && EncodeChar(DecodeChar(b).value.0) == b[..3]
  {
    var x: nat, y: nat, z: nat := b[0] - 0xE0, b[1] - 0x80, b[2] - 0x80;
    Digits(x, y, z);
    assert b[..3] == [b[0], b[1], b[2]];
  }

  lemma Encode4(b: Bytes)
    requires |b| >= 4 && 0xF0 <= b[0] < 0xF8 && DecodeChar(b).Some?
    ensures DecodeChar(b).value.1 == 4 && EncodeChar(DecodeChar(b).value.0) == b[..4]
  {
    var x: nat, y: nat, z: nat, w: nat := b[0] - 0xF0, b[1] - 0x80, b[2] - 0x80, b[3] - 0x80;
    Digits(x * 0x40 + y, z, w);
    ModOf(x * 0x40 + y, x, y, 0x40);
    var n := (x * 0x40 + y) * 0x1000 + z * 0x40 + w;
    assert n / 0x4_0000 == n / 0x1000 / 0x40;
    assert b[..4] == [b[0], b[1], b[2], b[3]];
  }

  lemma Digits(x: nat, y: nat, z: nat)
    requires y < 0x40 && z < 0x40
    ensures var n := x * 0x1000 + y * 0x40 + z;
            n / 0x1000 == x && n / 0x40 % 0x40 == y && n % 0x40 == z
  {
    var n := x * 0x1000 + y * 0x40 + z;
    ModOf(n, x, y * 0x40 + z, 0x1000);
    ModOf(n, x * 0x40 + y, z, 0x40);
    ModOf(n / 0x40, x, y, 0x40);
  }

  lemma CharThenText(c: char, text: string)
    ensures AsBytes([c] + text) == EncodeChar(c) + AsBytes(text)
  {
    assert ([c] + text)[1..] == text;
  }

  /** Only the bytes of a text are accepted: overlong forms, surrogates and stray bytes are not. */
  lemma {:induction false} OnlyEncodingsAccepted(b: Bytes)
    ensures FromBytes(b).Some? ==> AsBytes(FromBytes(b).value) == b
  {
    if b == [] {
    } else if DecodeChar(b).Some? {
      var (c, n) := DecodeChar(b).value;
      EncodeCharInverts(b);
      OnlyEncodingsAccepted(b[n..]);
      if FromBytes(b[n..]).Some? {
        CharThenText(c, FromBytes(b[n..]).value);
        assert b[..n] + b[n..] == b;
      }
    }
  }

  /** Plain characters are their own codes. */
  lemma {:induction false} AsciiBytes(s: string)
    requires forall i :: 0 <= i < |s| ==> s[i] as int < 0x80
    ensures |AsBytes(s)| == |s| && forall i :: 0 <= i < |s| ==> AsBytes(s)[i] == s[i] as int
  {
    if s == "" {
    } else {
      AsciiBytes(s[1..]);
    }
  }

  /** Every text comes back from its bytes. */
  lemma {:induction false} Utf8RoundTrip(s: string)
    ensures FromBytes(AsBytes(s)) == Some(s)
  {
    if s == "" {
    } else {
      var first, rest := EncodeChar(s[0]), AsBytes(s[1..]);
      DecodeCharInverts(s[0], rest);
      assert (first + rest)[|first|..] == rest;
      Utf8RoundTrip(s[1..]);
      assert [s[0]] + s[1..] == s;
    }
  }
}
