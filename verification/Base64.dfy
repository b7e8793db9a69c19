/** Base64 as in section 4 of RFC 4648 (src/auth/mod.rs). */
module Base64 {
  import opened Wrappers
  import opened Bits
  import opened Text

  type Byte = b: nat | b < 0x100

  type Bytes = seq<Byte>

  const PAD: Byte := 61
  const NO_VALUE: Byte := 255

  /** Entry v of the alphabet `A-Z a-z 0-9 + /`. */
  function Symbol(v: nat): Byte
    requires v < 64
  {
    if v < 26 then v + 65
    else if v < 52 then v + 71
    else if v < 62 then v - 4
    else if v == 62 then 43
    else 47
  }

  /** The position of a character in the alphabet. */
  function Value(c: Byte): Byte {
    if 65 <= c <= 90 then c - 65
    else if 97 <= c <= 122 then c - 71
    else if 48 <= c <= 57 then c + 4
    else if c == 43 then 62
    else if c == 47 then 63
    else NO_VALUE
  }

  predicate IsAsciiWhitespace(c: Byte) {
    c == 32 || c == 9 || c == 10 || c == 12 || c == 13
  }

  predicate Dropped(c: Byte) { c == PAD || IsAsciiWhitespace(c) }

  lemma SymbolValue(v: nat)
    requires v < 64
    ensures Value(Symbol(v)) == v && !Dropped(Symbol(v))
  {
  }

  lemma ValueSymbol(c: Byte)
    ensures Value(c) == NO_VALUE || (Value(c) < 64 && Symbol(Value(c)) == c)
  {
  }

  // ---------------------------------------------------------------------------------------
  // Encoding

  /** The four sextets of three bytes: `b0 >> 2`, `(b0 & 3) << 4 | b1 >> 4`, and so on. */
  function Sextets(b0: Byte, b1: Byte, b2: Byte): (nat, nat, nat, nat) {
    (b0 / 4, Or(And(b0, 3) * 16, b1 / 16), Or(And(b1, 15) * 4, b2 / 64), And(b2, 63))
  }

  lemma SextetsAre(b0: Byte, b1: Byte, b2: Byte)
    ensures Sextets(b0, b1, b2) == (b0 / 4, b0 % 4 * 16 + b1 / 16, b1 % 16 * 4 + b2 / 64, b2 % 64)
  {
    Powers();
    AndLow(b0, 2, b0 / 4, b0 % 4);
    AndLow(b1, 4, b1 / 16, b1 % 16);
    AndLow(b2, 6, b2 / 64, b2 % 64);
    OrDisjoint(b0 % 4 * 16, b0 % 4, 4, b1 / 16);
    OrDisjoint(b1 % 16 * 4, b1 % 16, 2, b2 / 64);
  }

  lemma Powers()
    ensures Pow2(2) == 4 && Pow2(4) == 16 && Pow2(6) == 64 && Pow2(8) == 256
  {
    assert Pow2(4) == 16;
    Pow2Add(2, 4);
    Pow2Add(4, 4);
  }

  /** The four characters of a chunk of one to three bytes. */
  function EncodeChunk(chunk: Bytes): (e: Bytes)
    requires 1 <= |chunk| <= 3
    ensures |e| == 4
  {
    var b0 := chunk[0];
    var b1 := if |chunk| > 1 then chunk[1] else 0;
    var b2 := if |chunk| > 2 then chunk[2] else 0;
    SextetsAre(b0, b1, b2);
    var (s0, s1, s2, s3) := Sextets(b0, b1, b2);
    [Symbol(s0), Symbol(s1), if |chunk| > 1 then Symbol(s2) else PAD, if |chunk| > 2 then Symbol(s3) else PAD]
  }

  function Encoded(s: Bytes): Bytes {
    if s == [] then []
    else if |s| <= 3 then EncodeChunk(s)
    else EncodeChunk(s[..3]) + Encoded(s[3..])
  }

  /** `custom_base64_encode`, on the UTF-8 bytes of the text. */
  method Encode(s: Bytes) returns (result: Bytes)
    ensures result == Encoded(s)
    ensures Decoded(result) == Some(s)
  {
    result := [];
    var i := 0;
    assert s[0..] == s;
    while i < |s|
      invariant 0 <= i <= |s|
      invariant result + Encoded(s[i..]) == Encoded(s)
    {
      var next := if i + 3 <= |s| then i + 3 else |s|;
      var chunk := s[i..next];
      ChunkOff(result, s, i, next);
      result := result + EncodeChunk(chunk);
      i := next;
    }
    RoundTrip(s);
  }

  lemma ChunkOff(done: Bytes, s: Bytes, i: nat, next: nat)
    requires i < next <= |s| && next == (if i + 3 <= |s| then i + 3 else |s|)
    ensures done + Encoded(s[i..]) == done + EncodeChunk(s[i..next]) + Encoded(s[next..])
  {
    var rest := s[i..];
    if |rest| <= 3 {
      assert rest == s[i..next] && s[next..] == [];
    } else {
      assert rest[..3] == s[i..next] && rest[3..] == s[next..];
    }
    Regroup(done, EncodeChunk(s[i..next]), Encoded(s[next..]));
  }

  /** The standard alphabet: capitals, small letters, digits, plus and slash stand for 0 to 63 in this
      order, and no other character stands for anything. */
  lemma AlphabetMeaning(c: Byte)
    ensures var ch := c as char;
            Value(c) ==
            if 'A' <= ch <= 'Z' then c - 'A' as nat
            else if 'a' <= ch <= 'z' then 26 + (c - 'a' as nat)
            else if '0' <= ch <= '9' then 52 + (c - '0' as nat)
            else if ch == '+' then 62
            else if ch == '/' then 63
            else 255
  {
  }

  /** The number that the bytes of a chunk are, zeros filled in. */
  function Number(chunk: Bytes): nat
    requires 1 <= |chunk| <= 3
  {
    var b1: nat, b2: nat := if |chunk| > 1 then chunk[1] else 0, if |chunk| > 2 then chunk[2] else 0;
    (chunk[0] as nat) * 0x1_0000 + b1 * 0x100 + b2
  }

  /** A chunk as RFC 4648 describes it: one number of 24 bits written with four digits of six bits each;
      a digit that holds no bit of the chunk is an equals sign. */
  lemma ChunkIsFourDigits(chunk: Bytes)
    requires 1 <= |chunk| <= 3
    ensures var e, n := EncodeChunk(chunk), Number(chunk);
            && Value(e[0]) == n / 0x4_0000 % 64 && Value(e[1]) == n / 0x1000 % 64
            && (if |chunk| > 1 then Value(e[2]) == n / 0x40 % 64 else e[2] == '=' as nat)
            && (if |chunk| > 2 then Value(e[3]) == n % 64 else e[3] == '=' as nat)
  {
    var b0, b1, b2 := chunk[0], if |chunk| > 1 then chunk[1] else 0, if |chunk| > 2 then chunk[2] else 0;
    SextetsAre(b0, b1, b2);
    SextetsAreDigits(b0, b1, b2);
    SymbolValue(Sextets(b0, b1, b2).0);
    SymbolValue(Sextets(b0, b1, b2).1);
    SymbolValue(Sextets(b0, b1, b2).2);
    SymbolValue(Sextets(b0, b1, b2).3);
    ChunkIsSymbols(chunk, b0, b1, b2);
  }

  lemma ChunkIsSymbols(chunk: Bytes, b0: Byte, b1: Byte, b2: Byte)
    requires 1 <= |chunk| <= 3 && b0 == chunk[0]
    requires b1 == (if |chunk| > 1 then chunk[1] else 0) && b2 == (if |chunk| > 2 then chunk[2] else 0)
    ensures var (s0, s1, s2, s3) := Sextets(b0, b1, b2);
            && s0 < 64 && s1 < 64 && s2 < 64 && s3 < 64
            && EncodeChunk(chunk) == [Symbol(s0), Symbol(s1), if |chunk| > 1 then Symbol(s2) else PAD,
                                      if |chunk| > 2 then Symbol(s3) else PAD]
  {
    SextetsAre(b0, b1, b2);
  }

  lemma SextetsAreDigits(b0: nat, b1: nat, b2: nat)
    requires b0 < 0x100 && b1 < 0x100 && b2 < 0x100
    ensures var n := b0 * 0x1_0000 + b1 * 0x100 + b2;
            && n / 0x4_0000 % 64 == b0 / 4 && n / 0x1000 % 64 == b0 % 4 * 16 + b1 / 16
            && n / 0x40 % 64 == b1 % 16 * 4 + b2 / 64 && n % 64 == b2 % 64
  {
    var n := b0 * 0x1_0000 + b1 * 0x100 + b2;
    ModOf(n, b0 / 4, b0 % 4 * 0x1_0000 + b1 * 0x100 + b2, 0x4_0000);
    ModOf(n, b0 * 16 + b1 / 16, b1 % 16 * 0x100 + b2, 0x1000);
    ModOf(n, b0 * 0x400 + b1 * 4 + b2 / 64, b2 % 64, 0x40);
    ModOf(n / 0x1000, b0 / 4, b0 % 4 * 16 + b1 / 16, 64);
    ModOf(n / 0x40, b0 * 16 + b1 / 16, b1 % 16 * 4 + b2 / 64, 64);
  }

  /** Whole groups of three bytes are encoded by themselves. */
  lemma {:induction false} EncodedConcat(a: Bytes, b: Bytes)
    requires |a| % 3 == 0
    ensures Encoded(a + b) == Encoded(a) + Encoded(b)
  {
    if a == [] {
      assert a + b == b;
    } else {
      EncodedConcat(a[3..], b);
      assert a == a[..3] + a[3..];
      OneMoreGroup(a[..3], a[3..], b);
    }
  }

  lemma OneMoreGroup(group: Bytes, rest: Bytes, b: Bytes)
    requires |group| == 3 && Encoded(rest + b) == Encoded(rest) + Encoded(b)
    ensures Encoded(group + rest + b) == Encoded(group + rest) + Encoded(b)
  {
    FirstGroupOff(group, rest);
    FirstGroupOff(group, rest + b);
    Regroup(EncodeChunk(group), Encoded(rest), Encoded(b));
    Regroup(group, rest, b);
  }

  lemma FirstGroupOff(group: Bytes, rest: Bytes)
    requires |group| == 3
    ensures Encoded(group + rest) == EncodeChunk(group) + Encoded(rest)
  {
    var s := group + rest;
    assert s[..3] == group && s[3..] == rest;
    if rest == [] {
      assert s == group;
    }
  }

  /** The number of groups of three bytes begun. */
  function Groups(n: nat): nat {
    if n == 0 then 0 else if n <= 3 then 1 else 1 + Groups(n - 3)
  }

  lemma {:induction false} GroupsAre(n: nat)
    ensures Groups(n) == (n + 2) / 3
  {
    if n <= 3 {
    } else {
      GroupsAre(n - 3);
    }
  }

  lemma {:induction false} EncodedGroups(s: Bytes)
    ensures |Encoded(s)| == 4 * Groups(|s|)
  {
    if |s| <= 3 {
    } else {
      EncodedGroups(s[3..]);
    }
  }

  /** The length that the encoder reserves. */
  lemma EncodedLength(s: Bytes)
    ensures |Encoded(s)| == (|s| + 2) / 3 * 4
  {
    EncodedGroups(s);
    GroupsAre(|s|);
  }

  // ---------------------------------------------------------------------------------------
  // Decoding

  /** The input without padding and white space. */
  function Clean(input: Bytes): Bytes {
    if input == [] then []
    else if Dropped(input[0]) then Clean(input[1..])
    else [input[0]] + Clean(input[1..])
  }

  /** The byte `((a << up) | (b >> down)) as u8`: what exceeds eight bits is cut off. */
  function Merge(a: nat, up: nat, b: nat, down: nat): Byte
    requires down > 0
  {
    Or(a * up, b / down) % 0x100
  }

  /** One to four characters; characters outside the alphabet count only in the first two places. */
  function DecodeChunk(chunk: Bytes): Option<Bytes>
    requires 1 <= |chunk| <= 4
  {
    var c0 := Value(chunk[0]);
    var c1 := if |chunk| > 1 then Value(chunk[1]) else NO_VALUE;
    var c2 := if |chunk| > 2 then Value(chunk[2]) else NO_VALUE;
    var c3 := if |chunk| > 3 then Value(chunk[3]) else NO_VALUE;
    if c0 == NO_VALUE || c1 == NO_VALUE then None
    else Some([Merge(c0, 4, c1, 16)]
              + (if |chunk| > 2 && c2 != NO_VALUE then [Merge(c1, 16, c2, 4)] else [])
              + (if |chunk| > 3 && c3 != NO_VALUE then [Merge(c2, 64, c3, 1)] else []))
  }

  function DecodeClean(clean: Bytes): Option<Bytes> {
    if clean == [] then Some([])
    else
      var n := if |clean| < 4 then |clean| else 4;
      var first := DecodeChunk(clean[..n]);
      var rest := DecodeClean(clean[n..]);
      if first.None? || rest.None? then None else Some(first.value + rest.value)
  }

  function Decoded(input: Bytes): Option<Bytes> {
    DecodeClean(Clean(input))
  }

  /** The lookup table, filled from the alphabet. */
  method FillTable() returns (table: array<Byte>)
    ensures fresh(table) && table.Length == 256
    ensures forall c :: 0 <= c < 256 ==> table[c] == Value(c)
  {
    table := new Byte[256](_ => NO_VALUE);
    for i := 0 to 64
      invariant forall c :: 0 <= c < 256 ==> table[c] == if Value(c) < i then Value(c) else NO_VALUE
    {
      SymbolValue(i);
      forall c | 0 <= c < 256 && c != Symbol(i) ensures Value(c) != i {
        ValueSymbol(c);
      }
      table[Symbol(i)] := i;
    }
    forall c | 0 <= c < 256 ensures Value(c) < 64 || Value(c) == NO_VALUE {
      ValueSymbol(c);
    }
  }

  /** The loop body: the bytes of one chunk, through the table. */
  method TableDecode(table: array<Byte>, chunk: Bytes) returns (bytes: Option<Bytes>)
    requires 1 <= |chunk| <= 4
    requires table.Length == 256 && forall c :: 0 <= c < 256 ==> table[c] == Value(c)
    ensures bytes == DecodeChunk(chunk)
  {
    var c0 := table[chunk[0]];
    var c1 := table[if |chunk| > 1 then chunk[1] else 0];
    var c2 := table[if |chunk| > 2 then chunk[2] else 0];
    var c3 := table[if |chunk| > 3 then chunk[3] else 0];
    if c0 == NO_VALUE || c1 == NO_VALUE {
      return None;
    }
    var out: Bytes := [Merge(c0, 4, c1, 16)];
    if |chunk| > 2 && c2 != NO_VALUE {
      out := out + [Merge(c1, 16, c2, 4)];
    }
    if |chunk| > 3 && c3 != NO_VALUE {
      out := out + [Merge(c2, 64, c3, 1)];
    }
    assert out == [Merge(c0, 4, c1, 16)]
                  + (if |chunk| > 2 && c2 != NO_VALUE then [Merge(c1, 16, c2, 4)] else [])
                  + (if |chunk| > 3 && c3 != NO_VALUE then [Merge(c2, 64, c3, 1)] else []);
    bytes := Some(out);
  }

  /** Decoding what is left after `out`. */
  function Resume(out: Bytes, rest: Bytes): Option<Bytes> {
    var r := DecodeClean(rest);
    if r.None? then None else Some(out + r.value)
  }

  lemma ResumeChunk(out: Bytes, clean: Bytes, i: nat, next: nat)
    requires i < next <= |clean| && next == (if i + 4 <= |clean| then i + 4 else |clean|)
    ensures var first := DecodeChunk(clean[i..next]);
            Resume(out, clean[i..]) == if first.None? then None else Resume(out + first.value, clean[next..])
  {
    var rest := clean[i..];
    var n := next - i;
    assert rest[..n] == clean[i..next] && rest[n..] == clean[next..];
    var first, after := DecodeChunk(rest[..n]), DecodeClean(rest[n..]);
    if first.Some? && after.Some? {
      assert out + (first.value + after.value) == out + first.value + after.value;
    }
  }

  /** `custom_base64_decode`. */
  method Decode(input: Bytes) returns (result: Option<Bytes>)
    ensures result == Decoded(input)
    ensures result.Some? <==> Acceptable(Clean(input))
  {
    DecodesIffAcceptable(Clean(input));
    var table := FillTable();
    var clean := Clean(input);
    var out: Bytes := [];
    var i := 0;
    assert clean[0..] == clean;
    assert DecodeClean(clean).Some? ==> [] + DecodeClean(clean).value == DecodeClean(clean).value;
    while i < |clean|
      invariant 0 <= i <= |clean|
      invariant Decoded(input) == Resume(out, clean[i..])
      invariant forall c :: 0 <= c < 256 ==> table[c] == Value(c)
    {
      var next := if i + 4 <= |clean| then i + 4 else |clean|;
      ResumeChunk(out, clean, i, next);
      var bytes := TableDecode(table, clean[i..next]);
      if bytes.None? {
        return None;
      }
      out := out + bytes.value;
      i := next;
    }
    assert clean[i..] == [] && out + [] == out;
    result := Some(out);
  }

  // ---------------------------------------------------------------------------------------
  // What the decoder accepts

  /** No single character is left over, and the first two of every four are in the alphabet. */
  predicate Acceptable(clean: Bytes) {
    |clean| % 4 != 1 && forall i :: 0 <= i < |clean| && i % 4 < 2 ==> Value(clean[i]) != NO_VALUE
  }

  /** The decoder gives a result exactly for such inputs, whatever the other characters are. */
  lemma {:induction false} DecodesIffAcceptable(clean: Bytes)
    ensures DecodeClean(clean).Some? <==> Acceptable(clean)
  {
    if clean == [] {
    } else if |clean| < 4 {
      DecodeWholeChunk(clean);
      ChunkDecodes(clean);
    } else {
      DecodesIffAcceptable(clean[4..]);
      ChunkDecodes(clean[..4]);
      AcceptableRest(clean);
    }
  }

  lemma ChunkDecodes(chunk: Bytes)
    requires 1 <= |chunk| <= 4
    ensures DecodeChunk(chunk).Some? <==>
            |chunk| > 1 && Value(chunk[0]) != NO_VALUE && Value(chunk[1]) != NO_VALUE
  {
  }

  lemma AcceptableRest(clean: Bytes)
    requires |clean| >= 4
    ensures Acceptable(clean) <==>
            Value(clean[0]) != NO_VALUE && Value(clean[1]) != NO_VALUE && Acceptable(clean[4..])
  {
    var rest := clean[4..];
    if Acceptable(clean) {
      forall i | 0 <= i < |rest| && i % 4 < 2 ensures Value(rest[i]) != NO_VALUE {
        assert rest[i] == clean[i + 4] && (i + 4) % 4 == i % 4;
      }
    }
    if Value(clean[0]) != NO_VALUE && Value(clean[1]) != NO_VALUE && Acceptable(rest) {
      forall i | 0 <= i < |clean| && i % 4 < 2 ensures Value(clean[i]) != NO_VALUE {
        if i >= 4 { assert clean[i] == rest[i - 4] && (i - 4) % 4 == i % 4; }
      }
    }
  }

  /** These six characters are dropped, and no other. */
  lemma CleanOne(c: Byte)
    ensures Dropped(c) <==> c as char in {'=', ' ', '\t', '\n', '\U{000C}', '\r'}
    ensures Clean([c]) == if c as char in {'=', ' ', '\t', '\n', '\U{000C}', '\r'} then [] else [c]
  {
    assert [c][1..] == [];
  }

  /** Padding and white space make no difference, wherever they stand. */
  lemma PaddingIgnored(a: Bytes, dropped: Bytes, b: Bytes)
    requires forall i :: 0 <= i < |dropped| ==>
                           dropped[i] as char in {'=', ' ', '\t', '\n', '\U{000C}', '\r'}
    ensures Decoded(a + dropped + b) == Decoded(a + b)
  {
    forall i | 0 <= i < |dropped| ensures Dropped(dropped[i]) {
      CleanOne(dropped[i]);
    }
    CleanConcat(a + dropped, b);
    CleanConcat(a, dropped);
    CleanConcat(a, b);
    CleanDrops(dropped);
    assert Clean(a) + [] == Clean(a);
  }

  /** The bytes of four characters. One outside the alphabet in the third place leaves out its byte and
      sets the two high bits of the next; one in the fourth place leaves out the last byte. */
  lemma ChunkMeaning(c0: Byte, c1: Byte, c2: Byte, c3: Byte)
    requires Value(c0) != NO_VALUE && Value(c1) != NO_VALUE
    ensures var (v0, v1, v2, v3) := (Value(c0), Value(c1), Value(c2), Value(c3));
            DecodeChunk([c0, c1, c2, c3]) ==
            Some([v0 * 4 + v1 / 16]
                 + (if v2 != NO_VALUE then [v1 % 16 * 16 + v2 / 4] else [])
                 + (if v3 != NO_VALUE then [(if v2 != NO_VALUE then v2 % 4 else 3) * 64 + v3] else []))
  {
    ChunkOfFour(c0, c1, c2, c3);
    MergesAre(c0, c1, c2, c3);
  }

  lemma MergesAre(c0: Byte, c1: Byte, c2: Byte, c3: Byte)
    requires Value(c0) != NO_VALUE && Value(c1) != NO_VALUE
    ensures var (v0, v1, v2, v3) := (Value(c0), Value(c1), Value(c2), Value(c3));
            && Merge(v0, 4, v1, 16) == v0 * 4 + v1 / 16
            && (v2 != NO_VALUE ==> Merge(v1, 16, v2, 4) == v1 % 16 * 16 + v2 / 4)
            && (v3 != NO_VALUE ==> Merge(v2, 64, v3, 1) == (if v2 != NO_VALUE then v2 % 4 else 3) * 64 + v3)
  {
    ValueSymbol(c0);
    ValueSymbol(c1);
    ValueSymbol(c2);
    ValueSymbol(c3);
    var (v0, v1, v2, v3) := (Value(c0), Value(c1), Value(c2), Value(c3));
    MergeFirst(v0, v1);
    if v2 != NO_VALUE { MergeSecond(v1, v2); }
    if v3 != NO_VALUE { MergeThird(v2, v3); }
    assert v2 == NO_VALUE ==> v2 % 4 == 3;
  }

  lemma ChunkOfFour(c0: Byte, c1: Byte, c2: Byte, c3: Byte)
    requires Value(c0) != NO_VALUE && Value(c1) != NO_VALUE
    ensures var (v0, v1, v2, v3) := (Value(c0), Value(c1), Value(c2), Value(c3));
            DecodeChunk([c0, c1, c2, c3]) ==
            Some([Merge(v0, 4, v1, 16)]
                 + (if v2 != NO_VALUE then [Merge(v1, 16, v2, 4)] else [])
                 + (if v3 != NO_VALUE then [Merge(v2, 64, v3, 1)] else []))
  {
  }

  // ---------------------------------------------------------------------------------------
  // Decoding inverts encoding

  lemma CutOff(x: nat, q: nat, r: nat)
    requires x == q * 0x100 + r && r < 0x100
    ensures x % 0x100 == r
  {
  }

  lemma MergeFirst(a: nat, b: nat)
    requires a < 64 && b < 64
    ensures Merge(a, 4, b, 16) == a * 4 + b / 16
  {
    Powers();
    OrDisjoint(a * 4, a, 2, b / 16);
    CutOff(a * 4 + b / 16, 0, a * 4 + b / 16);
  }

  lemma MergeSecond(a: nat, b: nat)
    requires a < 64 && b < 64
    ensures Merge(a, 16, b, 4) == a % 16 * 16 + b / 4
  {
    Powers();
    OrDisjoint(a * 16, a, 4, b / 4);
    CutOff(a * 16 + b / 4, a / 16, a % 16 * 16 + b / 4);
  }

  lemma MergeThird(a: nat, b: nat)
    requires b < 64
    ensures Merge(a, 64, b, 1) == a % 4 * 64 + b
  {
    Powers();
    OrDisjoint(a * 64, a, 6, b);
    assert a == a / 4 * 4 + a % 4;
    assert a * 64 + b == a / 4 * 0x100 + (a % 4 * 64 + b);
    CutOff(a * 64 + b, a / 4, a % 4 * 64 + b);
  }

  lemma {:induction false} CleanKeeps(s: Bytes)
    requires forall i :: 0 <= i < |s| ==> !Dropped(s[i])
    ensures Clean(s) == s
  {
    if s == [] {
    } else {
      CleanKeeps(s[1..]);
    }
  }

  lemma {:induction false} CleanDrops(s: Bytes)
    requires forall i :: 0 <= i < |s| ==> Dropped(s[i])
    ensures Clean(s) == []
  {
    if s == [] {
    } else {
      CleanDrops(s[1..]);
    }
  }

  /** The sextets of three bytes have their characters, and put together give the bytes back. */
  lemma SextetsMerge(b0: Byte, b1: Byte, b2: Byte)
    ensures var (s0, s1, s2, s3) := Sextets(b0, b1, b2);
            && s0 < 64 && s1 < 64 && s2 < 64 && s3 < 64
            && Merge(s0, 4, s1, 16) == b0 && Merge(s1, 16, s2, 4) == b1 && Merge(s2, 64, s3, 1) == b2
  {
    SextetsAre(b0, b1, b2);
    var (s0, s1, s2, s3) := Sextets(b0, b1, b2);
    MergeFirst(s0, s1);
    MergeSecond(s1, s2);
    MergeThird(s2, s3);
  }

  /** The characters of a chunk stand for sextets from which its bytes can be put together. */
  lemma ChunkSextets(chunk: Bytes)
    requires 1 <= |chunk| <= 3
    ensures var e := EncodeChunk(chunk);
            && (forall i :: 0 <= i <= |chunk| ==> !Dropped(e[i]) && Value(e[i]) < 64)
            && (forall i :: |chunk| < i < 4 ==> e[i] == PAD)
            && Merge(Value(e[0]), 4, Value(e[1]), 16) == chunk[0]
            && (|chunk| > 1 ==> Merge(Value(e[1]), 16, Value(e[2]), 4) == chunk[1])
            && (|chunk| > 2 ==> Merge(Value(e[2]), 64, Value(e[3]), 1) == chunk[2])
  {
    var b1 := if |chunk| > 1 then chunk[1] else 0;
    var b2 := if |chunk| > 2 then chunk[2] else 0;
    SextetsMerge(chunk[0], b1, b2);
    var (s0, s1, s2, s3) := Sextets(chunk[0], b1, b2);
    SymbolValue(s0);
    SymbolValue(s1);
    SymbolValue(s2);
    SymbolValue(s3);
  }

  lemma CleanChunk(chunk: Bytes)
    requires 1 <= |chunk| <= 3
    ensures Clean(EncodeChunk(chunk)) == EncodeChunk(chunk)[..|chunk| + 1]
  {
    var e := EncodeChunk(chunk);
    var n := |chunk| + 1;
    ChunkSextets(chunk);
    CleanKeeps(e[..n]);
    CleanDrops(e[n..]);
    CleanConcat(e[..n], e[n..]);
    assert e == e[..n] + e[n..];
  }

  lemma ChunkRoundTrip(chunk: Bytes)
    requires 1 <= |chunk| <= 3
    ensures DecodeChunk(EncodeChunk(chunk)[..|chunk| + 1]) == Some(chunk)
  {
    ChunkSextets(chunk);
    var e := EncodeChunk(chunk);
    var kept := e[..|chunk| + 1];
    assert forall i :: 0 <= i <= |chunk| ==> kept[i] == e[i];
    var v := DecodeChunk(kept).value;
    assert |v| == |chunk|;
    assert v[0] == chunk[0];
    assert |chunk| > 1 ==> v[1] == chunk[1];
    assert |chunk| > 2 ==> v[2] == chunk[2];
    assert v == chunk;
  }

  lemma {:induction false} CleanConcat(a: Bytes, b: Bytes)
    ensures Clean(a + b) == Clean(a) + Clean(b)
  {
    if a == [] {
      assert a + b == b;
    } else {
      assert (a + b)[1..] == a[1..] + b;
      CleanConcat(a[1..], b);
    }
  }

  lemma DecodeWholeChunk(chunk: Bytes)
    requires 1 <= |chunk| <= 4
    ensures DecodeClean(chunk) == DecodeChunk(chunk)
  {
    assert chunk[..|chunk|] == chunk && chunk[|chunk|..] == [];
    assert DecodeClean([]) == Some([]);
    if DecodeChunk(chunk).Some? {
      assert DecodeChunk(chunk).value + [] == DecodeChunk(chunk).value;
    }
  }

  lemma DecodeMore(chunk: Bytes, rest: Bytes)
    requires |chunk| == 4 && DecodeChunk(chunk).Some? && DecodeClean(rest).Some?
    ensures DecodeClean(chunk + rest) == Some(DecodeChunk(chunk).value + DecodeClean(rest).value)
  {
    var all := chunk + rest;
    assert all[..4] == chunk && all[4..] == rest;
  }

  /** Every byte string comes back, with tails of one and two bytes included. */
  lemma {:induction false} RoundTrip(s: Bytes)
    ensures Decoded(Encoded(s)) == Some(s)
  {
    if s == [] {
      assert Clean([]) == [];
    } else if |s| <= 3 {
      CleanChunk(s);
      ChunkRoundTrip(s);
      DecodeWholeChunk(Clean(Encoded(s)));
    } else {
      var head, tail := s[..3], s[3..];
      RoundTrip(tail);
      CleanConcat(EncodeChunk(head), Encoded(tail));
      CleanChunk(head);
      ChunkRoundTrip(head);
      DecodeMore(Clean(EncodeChunk(head)), Clean(Encoded(tail)));
      assert s == head + tail;
    }
  }

  /** So different byte strings have different encodings. */
  lemma EncodedInjective(s: Bytes, t: Bytes)
    requires Encoded(s) == Encoded(t)
    ensures s == t
  {
    RoundTrip(s);
    RoundTrip(t);
  }
}
