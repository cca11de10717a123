// UTF-8 (src/util/utf8.c) and RFC 3629.

module Utf8 {
  import opened Words

  // ---------------------------------------------------------------------
  // Section 4 of RFC 3629
  // ---------------------------------------------------------------------

  predicate Tail(b: byte) {
    0x80 <= b as int <= 0xbf
  }

  /** The second byte of a character, which the first one restricts. */
  predicate Second(a: byte, b: byte) {
    && Tail(b)
    && (a as int == 0xe0 ==> b as int >= 0xa0) && (a as int == 0xed ==> b as int <= 0x9f)
    && (a as int == 0xf0 ==> b as int >= 0x90) && (a as int == 0xf4 ==> b as int <= 0x8f)
  }

  /** How many bytes a character has that begins with a; none does for 0. */
  function Length(a: byte): nat {
    var a := a as int;
    if a <= 0x7f then 1
    else if 0xc2 <= a <= 0xdf then 2
    else if 0xe0 <= a <= 0xef then 3
    else if 0xf0 <= a <= 0xf4 then 4
    else 0
  }

  /** The bytes begin a character. */
  predicate Begins(s: seq<byte>) {
    && s != [] && |s| <= Length(s[0])
    && (|s| > 1 ==> Second(s[0], s[1])) && (|s| > 2 ==> Tail(s[2])) && (|s| > 3 ==> Tail(s[3]))
  }

  /** The bytes are a character. */
  predicate IsChar(s: seq<byte>) {
    Begins(s) && |s| == Length(s[0])
  }

  /** The bytes are only the beginning of a character. */
  predicate Unfinished(s: seq<byte>) {
    Begins(s) && |s| < Length(s[0])
  }

  /** What the first byte contributes. */
  function Lead(a: byte): int {
    var a := a as int;
    if a <= 0x7f then a else if a < 0xe0 then a - 0xc0 else if a < 0xf0 then a - 0xe0 else a - 0xf0
  }

  /** The number that the bytes of a character, or the beginning of it, stand for. */
  function Scalar(s: seq<byte>): int
    requires Begins(s)
  {
    if |s| == 1 then Lead(s[0]) else 64 * Scalar(s[..|s| - 1]) + (s[|s| - 1] as int - 0x80)
  }

  /** Well-formed: a sequence of characters. */
  ghost predicate Octets(s: seq<byte>)
    decreases |s|, 1
  {
    s == [] || exists n :: CharFirst(s, n)
  }

  /** A character of n bytes comes first, and what follows it is well-formed. */
  ghost predicate CharFirst(s: seq<byte>, n: nat)
    decreases |s|, 0
  {
    0 < n <= |s| && IsChar(s[..n]) && Octets(s[n..])
  }

  predicate IsScalar(c: int) {
    0 <= c <= 0xd7ff || 0xe000 <= c <= 0x10ffff
  }

  // ---------------------------------------------------------------------
  // Encoding
  // ---------------------------------------------------------------------

  /** The bytes for a codepoint; none if it is too large. */
  function Encode(utf: nat): (s: seq<byte>)
    ensures |s| <= 4 && (s == [] <==> utf > 0x10ffff)
  {
    if utf <= 0x7f then [utf]
    else if utf <= 0x7ff then [utf / 0x40 % 0x20 + 0xc0, utf % 0x40 + 0x80]
    else if utf <= 0xffff then [utf / 0x1000 % 0x10 + 0xe0, utf / 0x40 % 0x40 + 0x80, utf % 0x40 + 0x80]
    else if utf <= 0x10ffff then
      [utf / 0x40000 % 8 + 0xf0, utf / 0x1000 % 0x40 + 0x80, utf / 0x40 % 0x40 + 0x80, utf % 0x40 + 0x80]
    else []
  }

  lemma ScalarOf(s: seq<byte>)
    requires Begins(s)
    ensures |s| == 1 ==> Scalar(s) == Lead(s[0])
    ensures |s| == 2 ==> Scalar(s) == 64 * Lead(s[0]) + (s[1] as int - 0x80)
    ensures |s| == 3 ==> Scalar(s) == 64 * (64 * Lead(s[0]) + (s[1] as int - 0x80)) + (s[2] as int - 0x80)
    ensures |s| == 4 ==>
      Scalar(s) == 64 * (64 * (64 * Lead(s[0]) + (s[1] as int - 0x80)) + (s[2] as int - 0x80)) + (s[3] as int - 0x80)
  {
    if |s| > 1 {
      ScalarOf(s[..|s| - 1]);
    }
  }

  /** A character stands for a scalar value, and encoding that gives back its bytes. */
  lemma EncodeScalar(s: seq<byte>)
    requires IsChar(s)
    ensures IsScalar(Scalar(s)) && Encode(Scalar(s)) == s
  {
    ScalarOf(s);
    if |s| == 2 {
      EncodeScalar2(s);
    } else if |s| == 3 {
      EncodeScalar3(s);
    } else if |s| == 4 {
      EncodeScalar4(s);
    }
  }

  lemma EncodeScalar2(s: seq<byte>)
    requires IsChar(s) && |s| == 2
    ensures IsScalar(Scalar(s)) && Encode(Scalar(s)) == s
  {
    ScalarOf(s);
    Split2(Lead(s[0]), s[1] as int - 0x80);
  }

  lemma EncodeScalar3(s: seq<byte>)
    requires IsChar(s) && |s| == 3
    ensures IsScalar(Scalar(s)) && Encode(Scalar(s)) == s
  {
    ScalarOf(s);
    Split3(Lead(s[0]), s[1] as int - 0x80, s[2] as int - 0x80);
  }

  lemma EncodeScalar4(s: seq<byte>)
    requires IsChar(s) && |s| == 4
    ensures IsScalar(Scalar(s)) && Encode(Scalar(s)) == s
  {
    ScalarOf(s);
    Split4(Lead(s[0]), s[1] as int - 0x80, s[2] as int - 0x80, s[3] as int - 0x80);
  }

  lemma Split2(a: nat, b: nat)
    requires a < 0x20 && b < 0x40
    ensures var c := 64 * a + b; c / 0x40 % 0x20 == a && c % 0x40 == b
  {
  }

  lemma Split3(a: nat, b: nat, d: nat)
    requires a < 0x10 && b < 0x40 && d < 0x40
    ensures var c := 64 * (64 * a + b) + d; c / 0x1000 % 0x10 == a && c / 0x40 % 0x40 == b && c % 0x40 == d
  {
  }

  lemma Split4(a: nat, b: nat, d: nat, e: nat)
    requires a < 8 && b < 0x40 && d < 0x40 && e < 0x40
    ensures var c := 64 * (64 * (64 * a + b) + d) + e;
            c / 0x40000 % 8 == a && c / 0x1000 % 0x40 == b && c / 0x40 % 0x40 == d && c % 0x40 == e
  {
  }

  /** A codepoint's bytes are a character exactly if it is a scalar value; the encoder also takes surrogates. */
  lemma EncodedChar(utf: nat)
    requires utf <= 0x10ffff
    ensures IsChar(Encode(utf)) <==> IsScalar(utf)
    ensures IsScalar(utf) ==> Scalar(Encode(utf)) == utf
  {
    var s := Encode(utf);
    if utf <= 0x7f {
      assert Scalar(s) == Lead(s[0]);
    } else if utf <= 0x7ff {
      Encoded2(utf, s);
    } else if utf <= 0xffff {
      Encoded3(utf, s);
    } else {
      Encoded4(utf, s);
    }
  }

  lemma Encoded2(utf: nat, s: seq<byte>)
    requires 0x7f < utf <= 0x7ff && s == Encode(utf)
    ensures IsChar(s) && Scalar(s) == utf
  {
    ScalarOf(s);
  }

  lemma Encoded3(utf: nat, s: seq<byte>)
    requires 0x7ff < utf <= 0xffff && s == Encode(utf)
    ensures IsChar(s) <==> IsScalar(utf)
    ensures IsChar(s) ==> Scalar(s) == utf
  {
    Digits3(utf);
    assert s[0] == utf / 0x1000 + 0xe0;
    if IsChar(s) {
      ScalarOf(s);
    }
  }

  lemma Encoded4(utf: nat, s: seq<byte>)
    requires 0xffff < utf <= 0x10ffff && s == Encode(utf)
    ensures IsChar(s) && Scalar(s) == utf
  {
    Digits4(utf);
    assert s[0] == utf / 0x40000 + 0xf0;
    ScalarOf(s);
  }

  lemma Digits3(c: nat)
    requires c <= 0xffff
    ensures c == 64 * (64 * (c / 0x1000) + c / 0x40 % 0x40) + c % 0x40 && c / 0x1000 < 0x10
  {
  }

  lemma Digits4(c: nat)
    requires c <= 0x10ffff
    ensures c == 64 * (64 * (64 * (c / 0x40000) + c / 0x1000 % 0x40) + c / 0x40 % 0x40) + c % 0x40 && c / 0x40000 < 8
  {
  }

  // ---------------------------------------------------------------------
  // The decoder's automaton
  // ---------------------------------------------------------------------

  const ACCEPT: nat := 0
  const REJECT: nat := 1

  /** The first 256 entries of the table: the type of a byte. */
  function Type(b: byte): nat {
    var b := b as int;
    if b <= 0x7f then 0
    else if b <= 0x8f then 1
    else if b <= 0x9f then 9
    else if b <= 0xbf then 7
    else if b <= 0xc1 then 8
    else if b <= 0xdf then 2
    else if b == 0xe0 then 10
    else if b == 0xed then 4
    else if b <= 0xef then 3
    else if b == 0xf0 then 11
    else if b <= 0xf3 then 6
    else if b == 0xf4 then 5
    else 8
  }

  /** The rest of the table, a row of 16 types for each of nine states. */
  function Next(state: nat, t: nat): nat {
    if state == 0 then
      if t == 0 then 0 else if t == 2 then 2 else if t == 3 then 3 else if t == 4 then 5 else if t == 5 then 8
      else if t == 6 then 7 else if t == 10 then 4 else if t == 11 then 6 else REJECT
    else if state == 2 then if t == 1 || t == 7 || t == 9 then ACCEPT else REJECT
    else if state == 3 then if t == 1 || t == 7 || t == 9 then 2 else REJECT
    else if state == 4 then if t == 7 then 2 else REJECT
    else if state == 5 then if t == 1 || t == 9 then 2 else REJECT
    else if state == 6 then if t == 7 || t == 9 then 3 else REJECT
    else if state == 7 then if t == 1 || t == 7 || t == 9 then 3 else REJECT
    else if state == 8 then if t == 1 then 3 else REJECT
    else REJECT
  }

  /** The bits of a first byte that the mask of its type leaves: 0xff >> t, and with the byte. */
  function FirstBits(b: byte, t: nat): nat {
    var b := b as int;
    if t == 0 then b else if t == 1 then b % 0x80 else if t == 2 then b % 0x40 else if t == 3 then b % 0x20
    else if t == 4 then b % 0x10 else if t == 5 then b % 8 else if t == 6 then b % 4 else if t == 7 then b % 2 else 0
  }

  /** One byte: the next state and codepoint. */
  function Feed(state: nat, codepoint: nat, b: byte): (nat, nat) {
    var t := Type(b);
    (Next(state, t), if state != ACCEPT then b as int % 0x40 + 0x40 * codepoint else FirstBits(b, t))
  }

  /** The state behind a first byte. */
  function StateFirst(a: byte): nat {
    var (c, n) := (a as int, Length(a));
    if n == 2 then 2
    else if n == 3 then if c == 0xe0 then 4 else if c == 0xed then 5 else 3
    else if c == 0xf0 then 6 else if c == 0xf4 then 8 else 7
  }

  /** The state of the automaton behind the beginning of a character. */
  function StateAfter(p: seq<byte>): nat {
    if p == [] then ACCEPT
    else if |p| == 1 then StateFirst(p[0])
    else if Length(p[0]) == |p| + 1 then 2
    else 3
  }

  lemma FirstByte(b: byte)
    ensures Next(ACCEPT, Type(b))
         == if Length(b) == 0 then REJECT else if Length(b) == 1 then ACCEPT else StateFirst(b)
    ensures Length(b) > 0 ==> FirstBits(b, Type(b)) == Lead(b)
    ensures Length(b) > 1 ==> StateFirst(b) >= 2
  {
  }

  lemma SecondByte(a: byte, b: byte)
    requires Length(a) > 1
    ensures Next(StateFirst(a), Type(b))
         == if !Second(a, b) then REJECT else if Length(a) == 2 then ACCEPT else if Length(a) == 3 then 2 else 3
  {
  }

  lemma TailByte(b: byte)
    ensures Next(2, Type(b)) == if Tail(b) then ACCEPT else REJECT
    ensures Next(3, Type(b)) == if Tail(b) then 2 else REJECT
    ensures Tail(b) ==> b as int % 0x40 == b as int - 0x80
  {
  }

  /** The state and the codepoint are those of the beginning of a character, or of none. */
  ghost predicate Follows(state: nat, codepoint: nat, p: seq<byte>) {
    state == StateAfter(p) && if p == [] then codepoint == 0 else Unfinished(p) && codepoint == Scalar(p)
  }

  /** A byte leads on to the rest of a character, completes one, or is rejected. */
  ghost predicate Fed(q: seq<byte>, state: nat, codepoint: nat) {
    && (IsChar(q) <==> state == ACCEPT) && (!Begins(q) <==> state == REJECT)
    && (Unfinished(q) ==> state == StateAfter(q))
    && (Begins(q) ==> codepoint == Scalar(q))
  }

  lemma FeedStep(state: nat, codepoint: nat, p: seq<byte>, b: byte)
    requires Follows(state, codepoint, p)
    ensures Fed(p + [b], Feed(state, codepoint, b).0, Feed(state, codepoint, b).1)
  {
    if p == [] {
      assert p + [b] == [b];
      FirstByte(b);
    } else if |p| == 1 {
      FeedSecond(codepoint, p, b);
    } else {
      FeedTail(codepoint, p, b);
    }
  }

  lemma FeedSecond(codepoint: nat, p: seq<byte>, b: byte)
    requires |p| == 1 && Unfinished(p) && codepoint == Scalar(p)
    ensures Fed(p + [b], Feed(StateAfter(p), codepoint, b).0, Feed(StateAfter(p), codepoint, b).1)
  {
    var q := p + [b];
    assert q[0] == p[0] && q[1] == b && q[..1] == p;
    FirstByte(p[0]);
    SecondByte(p[0], b);
    TailByte(b);
  }

  lemma FeedTail(codepoint: nat, p: seq<byte>, b: byte)
    requires |p| > 1 && Unfinished(p) && codepoint == Scalar(p)
    ensures Fed(p + [b], Feed(StateAfter(p), codepoint, b).0, Feed(StateAfter(p), codepoint, b).1)
  {
    var q := p + [b];
    assert q[0] == p[0] && q[1] == p[1] && q[|p|] == b && q[..|p|] == p && (|p| > 2 ==> q[2] == p[2]);
    TailByte(b);
  }

  lemma BeginsPrefix(s: seq<byte>, n: nat)
    requires 0 < n <= |s| && Begins(s)
    ensures Begins(s[..n])
  {
  }

  // ---------------------------------------------------------------------
  // Decoding
  // ---------------------------------------------------------------------

  datatype Code = Success | OutputSize | InvalidChar

  datatype Result = Result(code: Code, codepoints: seq<nat>, widths: seq<nat>, used: nat)

  const INVALID := Result(InvalidChar, [], [], 0)

  /** The length of the character at the front, if there is one. */
  function FrontLength(input: seq<byte>): (n: nat)
    ensures n > 0 ==> n <= |input| && IsChar(input[..n])
  {
    if input == [] then 0
    else
      var n := Length(input[0]);
      if n > 0 && n <= |input| && IsChar(input[..n]) then n else 0
  }

  function Scalar0(s: seq<byte>): nat
    requires IsChar(s)
  {
    EncodeScalar(s);
    Scalar(s)
  }

  /** What decoding gives, character by character, with room for some codepoints. */
  function Decoded(input: seq<byte>, room: nat): Result
    decreases |input|
  {
    if input == [] then Result(Success, [], [], 0)
    else if room == 0 then Result(OutputSize, [], [], 0)
    else
      var n := FrontLength(input);
      if n > 0 then Prepended([Scalar0(input[..n])], [n], n, Decoded(input[n..], room - 1))
      else if Unfinished(input) then Result(Success, [], [], |input|)
      else INVALID
  }

  function Prepended(codepoints: seq<nat>, widths: seq<nat>, used: nat, r: Result): Result {
    if r.code == InvalidChar then INVALID
    else Result(r.code, codepoints + r.codepoints, widths + r.widths, used + r.used)
  }

  /** A whole character. */
  lemma DecodedChar(input: seq<byte>, n: nat, room: nat)
    requires 0 < n <= |input| && IsChar(input[..n]) && room > 0
    ensures Decoded(input, room) == Prepended([Scalar0(input[..n])], [n], n, Decoded(input[n..], room - 1))
  {
  }

  /** Bytes that begin no character. */
  lemma DecodedInvalid(input: seq<byte>, n: nat, room: nat)
    requires 0 < n <= |input| && !Begins(input[..n]) && room > 0
    requires n == 1 || Unfinished(input[..n - 1])
    ensures Decoded(input, room) == INVALID
  {
    if Unfinished(input) {
      BeginsPrefix(input, n);
    }
  }

  lemma PrependedTwice(a: seq<nat>, v: seq<nat>, m: nat, b: seq<nat>, w: seq<nat>, n: nat, r: Result)
    ensures Prepended(a, v, m, Prepended(b, w, n, r)) == Prepended(a + b, v + w, m + n, r)
  {
    assert a + (b + r.codepoints) == a + b + r.codepoints;
    assert v + (w + r.widths) == v + w + r.widths;
  }

  /** What was decoded so far, up to start, goes before what is decoded from there. */
  ghost predicate Decoding(input: seq<byte>, room: nat, codepoints: seq<nat>, widths: seq<nat>, start: nat) {
    && start <= |input| && |codepoints| <= room
    && Decoded(input, room) == Prepended(codepoints, widths, start, Decoded(input[start..], room - |codepoints|))
  }

  lemma CharFront(input: seq<byte>, start: nat, n: nat, room: nat)
    requires 0 < n && start + n <= |input| && room > 0 && IsChar(input[start..start + n])
    ensures Decoded(input[start..], room)
         == Prepended([Scalar0(input[start..start + n])], [n], n, Decoded(input[start + n..], room - 1))
  {
    var rest := input[start..];
    assert rest[..n] == input[start..start + n] && rest[n..] == input[start + n..];
    DecodedChar(rest, n, room);
  }

  lemma CharDone(input: seq<byte>, room: nat, codepoints: seq<nat>, widths: seq<nat>, start: nat, n: nat, c: nat)
    requires Decoding(input, room, codepoints, widths, start) && |codepoints| < room && 0 < n && start + n <= |input|
    requires IsChar(input[start..start + n]) && c == Scalar(input[start..start + n])
    ensures Decoding(input, room, codepoints + [c], widths + [n], start + n)
  {
    CharFront(input, start, n, room - |codepoints|);
    assert |codepoints + [c]| == |codepoints| + 1;
    var rest := Decoded(input[start + n..], room - |codepoints + [c]|);
    PrependedTwice(codepoints, widths, start, [c], [n], n, rest);
  }

  lemma CharRejected(input: seq<byte>, room: nat, codepoints: seq<nat>, widths: seq<nat>, start: nat, n: nat)
    requires Decoding(input, room, codepoints, widths, start) && |codepoints| < room && 0 < n && start + n <= |input|
    requires !Begins(input[start..start + n]) && (n == 1 || Unfinished(input[start..start + n - 1]))
    ensures Decoded(input, room) == INVALID
  {
    var rest := input[start..];
    assert rest[..n] == input[start..start + n] && rest[..n - 1] == input[start..start + n - 1];
    DecodedInvalid(rest, n, room - |codepoints|);
  }

  lemma AllDecoded(input: seq<byte>, room: nat, codepoints: seq<nat>, widths: seq<nat>, start: nat, offset: nat)
    requires Decoding(input, room, codepoints, widths, start) && start <= offset <= |input|
    requires offset == start || (Unfinished(input[start..offset]) && |codepoints| < room)
    requires offset == |input| || |codepoints| == room
    ensures Decoded(input, room)
         == Result(if offset == |input| then Success else OutputSize, codepoints, widths, offset)
  {
    assert input[start..][..offset - start] == input[start..offset];
    EndOfInput(input[start..], offset - start, room - |codepoints|);
    assert codepoints + [] == codepoints && widths + [] == widths;
  }

  /** Writes a codepoint and its width. */
  method Write(output: array<nat>, widths: array<nat>, k: nat, codepoint: nat, width: nat)
    requires output != widths && widths.Length == output.Length && k < output.Length
    modifies output, widths
    ensures output[..k + 1] == old(output[..k]) + [codepoint] && widths[..k + 1] == old(widths[..k]) + [width]
  {
    output[k] := codepoint;
    widths[k] := width;
  }

  lemma FeedAt(state: nat, codepoint: nat, input: seq<byte>, start: nat, offset: nat)
    requires start <= offset < |input| && Follows(state, codepoint, input[start..offset])
    ensures var fed := Feed(state, codepoint, input[offset]);
            Fed(input[start..offset + 1], fed.0, fed.1)
  {
    FeedStep(state, codepoint, input[start..offset], input[offset]);
    assert input[start..offset + 1] == input[start..offset] + [input[offset]];
  }

  /** Decodes into arrays; the result does not depend on what they held. */
  method Decode(output: array<nat>, widths: array<nat>, input: seq<byte>) returns (code: Code, written: nat, used: nat)
    requires output != widths && widths.Length == output.Length
    modifies output, widths
    ensures written <= output.Length
    ensures Result(code, output[..written], widths[..written], used) == Decoded(input, output.Length)
  {
    var state, codepoint := ACCEPT, 0;
    var inputOffset, outputOffset, width := 0, 0, 0;
    ghost var start := 0;
    assert input[0..] == input && output[..0] == [] && widths[..0] == [];
    while inputOffset < |input| && outputOffset < output.Length
      invariant start <= inputOffset <= |input| && outputOffset <= output.Length
      invariant width == inputOffset - start && Follows(state, codepoint, input[start..inputOffset])
      invariant width > 0 ==> outputOffset < output.Length
      invariant Decoding(input, output.Length, output[..outputOffset], widths[..outputOffset], start)
      decreases |input| - inputOffset
    {
      ghost var (cs, ws) := (output[..outputOffset], widths[..outputOffset]);
      FeedAt(state, codepoint, input, start, inputOffset);
      var fed := Feed(state, codepoint, input[inputOffset]);
      state, codepoint := fed.0, fed.1;
      inputOffset := inputOffset + 1;
      if state == REJECT {
        CharRejected(input, output.Length, cs, ws, start, width + 1);
        return InvalidChar, 0, 0;
      }
      width := width + 1;
      if state == ACCEPT {
        CharDone(input, output.Length, cs, ws, start, width, codepoint);
        Write(output, widths, outputOffset, codepoint, width);
        outputOffset := outputOffset + 1;
        start, width, codepoint := inputOffset, 0, 0;
      }
    }
    AllDecoded(input, output.Length, output[..outputOffset], widths[..outputOffset], start, inputOffset);
    return if inputOffset != |input| then OutputSize else Success, outputOffset, inputOffset;
  }

  /** Where the loop ends: there is no room, or only the beginning of a character is left. */
  lemma EndOfInput(input: seq<byte>, width: nat, room: nat)
    requires width <= |input|
    ensures width == 0 && input != [] && room == 0 ==> Decoded(input, room) == Result(OutputSize, [], [], 0)
    ensures width == |input| && (input == [] || (Unfinished(input) && room > 0)) ==>
              Decoded(input, room) == Result(Success, [], [], width)
  {
  }

  // ---------------------------------------------------------------------
  // What decoding means
  // ---------------------------------------------------------------------

  function EncodeAll(codepoints: seq<nat>): seq<byte> {
    if codepoints == [] then [] else Encode(codepoints[0]) + EncodeAll(codepoints[1..])
  }

  lemma Behind(before: seq<byte>, a: seq<byte>, b: seq<byte>)
    ensures before + a + b == before + (a + b)
  {
  }

  lemma {:induction false} EncodeAllMore(codepoints: seq<nat>, c: nat)
    ensures EncodeAll(codepoints + [c]) == EncodeAll(codepoints) + Encode(c)
  {
    var more := codepoints + [c];
    if codepoints == [] {
      assert more[1..] == [] && EncodeAll([]) == [];
    } else {
      EncodeAllMore(codepoints[1..], c);
      assert more[1..] == codepoints[1..] + [c] && more[0] == codepoints[0];
      Behind(Encode(codepoints[0]), EncodeAll(codepoints[1..]), Encode(c));
    }
  }

  /** Writes bytes at a place. */
  method Store(output: array<byte>, at: nat, bytes: seq<byte>)
    requires at + |bytes| <= output.Length
    modifies output
    ensures output[..at + |bytes|] == old(output[..at]) + bytes
  {
    for i := 0 to |bytes|
      invariant output[..at + i] == old(output[..at]) + bytes[..i]
    {
      output[at + i] := bytes[i];
    }
  }

  /** The codepoints from one place to another are encoded behind what was there before. */
  ghost predicate Encoded(output: seq<byte>, before: seq<byte>, codepoints: seq<nat>) {
    output == before + EncodeAll(codepoints) && forall i :: 0 <= i < |codepoints| ==> codepoints[i] <= 0x10ffff
  }

  lemma EncodedMore(output: seq<byte>, before: seq<byte>, input: seq<nat>, from: nat, to: nat)
    requires from <= to < |input| && input[to] <= 0x10ffff && Encoded(output, before, input[from..to])
    ensures Encoded(output + Encode(input[to]), before, input[from..to + 1])
  {
    var codepoints := input[from..to];
    EncodeAllMore(codepoints, input[to]);
    assert input[from..to + 1] == codepoints + [input[to]];
    Behind(before, EncodeAll(codepoints), Encode(input[to]));
  }

  /** The position from which on nothing more is encoded, four bytes before the end, as it is computed in size_t. */
  function Limit(room: nat): u64 {
    Wrap(room - 4)
  }

  /** Where encoding stops in the output: at the limit, or at a codepoint that is too large. */
  function Written(room: nat, pos: nat, input: seq<nat>): nat
    decreases |input|
  {
    if input == [] || pos >= Limit(room) || input[0] > 0x10ffff then pos
    else Written(room, pos + |Encode(input[0])|, input[1..])
  }

  lemma LimitValue(room: nat)
    requires room < W64
    ensures Limit(room) == if room >= 4 then room - 4 else W64 + room - 4
  {
    DivUnique(room - 4, W64, if room >= 4 then 0 else -1, if room >= 4 then room - 4 else W64 + room - 4);
  }

  lemma {:induction false} WrittenInside(room: nat, pos: nat, input: seq<nat>)
    requires 4 <= room < W64 && pos <= room
    ensures pos <= Written(room, pos, input) <= room
    decreases |input|
  {
    LimitValue(room);
    if input != [] && pos < Limit(room) && input[0] <= 0x10ffff {
      WrittenInside(room, pos + |Encode(input[0])|, input[1..]);
    }
  }

  /** Two euro signs are six bytes, and are written to an output that has room for less than four. */
  lemma WrittenBeyond(room: nat)
    requires room < 4
    ensures Written(room, 0, [0x20ac, 0x20ac]) == 6
  {
    LimitValue(room);
    var input := [0x20ac, 0x20ac];
    assert input[1..] == [0x20ac] && [0x20ac][1..] == [];
    assert |Encode(0x20ac)| == 3;
    assert Written(room, 3, [0x20ac]) == Written(room, 6, []);
  }

  /** Whatever the input, nothing is written behind the output exactly if there is room in it for four bytes. */
  lemma WrittenExact(room: nat)
    requires room < W64
    ensures (forall input :: Written(room, 0, input) <= room) <==> room >= 4
  {
    if room >= 4 {
      forall input
        ensures Written(room, 0, input) <= room
      {
        WrittenInside(room, 0, input);
      }
    } else {
      WrittenBeyond(room);
    }
  }

  lemma {:induction false} WrittenFrom(room: nat, pos: nat, input: seq<nat>, from: nat)
    requires from < |input| && pos < Limit(room) && input[from] <= 0x10ffff
    ensures Written(room, pos, input[from..]) == Written(room, pos + |Encode(input[from])|, input[from + 1..])
    ensures Written(room, pos, input[from..]) >= pos + |Encode(input[from])|
  {
    assert input[from..][1..] == input[from + 1..];
    WrittenGrows(room, pos + |Encode(input[from])|, input[from + 1..]);
  }

  lemma {:induction false} WrittenGrows(room: nat, pos: nat, input: seq<nat>)
    ensures Written(room, pos, input) >= pos
    decreases |input|
  {
    if input != [] && pos < Limit(room) && input[0] <= 0x10ffff {
      WrittenGrows(room, pos + |Encode(input[0])|, input[1..]);
    }
  }

  /** Puts a zero behind the bytes, if there is room for it. */
  method Terminate(memory: array<byte>, room: nat, at: nat)
    requires at <= memory.Length && room <= memory.Length
    modifies memory
    ensures memory[..at] == old(memory[..at]) && (at < room ==> memory[at] == 0)
  {
    if at < room {
      memory[at] := 0;
    }
  }

  /** Encodes one codepoint behind those from some place on. */
  method EncodeNext(memory: array<byte>, room: nat, at: nat, input: seq<nat>, to: nat, ghost before: seq<byte>,
                    ghost from: nat) returns (next: nat)
    requires from <= to < |input| && input[to] <= 0x10ffff && at < Limit(room)
    requires Written(room, at, input[to..]) <= memory.Length && at <= memory.Length
    requires Encoded(memory[..at], before, input[from..to])
    modifies memory
    ensures next <= memory.Length && Encoded(memory[..next], before, input[from..to + 1])
    ensures Written(room, next, input[to + 1..]) == Written(room, at, input[to..])
  {
    var bytes := Encode(input[to]);
    WrittenFrom(room, at, input, to);
    EncodedMore(memory[..at], before, input, from, to);
    Store(memory, at, bytes);
    next := at + |bytes|;
  }

  /**
    Encodes from one place in the input to one in the output, which has room for some bytes of the memory, until four
    bytes or fewer are left there. The memory has to reach as far as is written.
   */
  method EncodeInto(memory: array<byte>, room: nat, first: nat, input: seq<nat>, from: nat)
    returns (code: Code, outputPos: nat, inputPos: nat)
    requires room <= memory.Length && room < W64 && first <= room && from <= |input|
    requires Written(room, first, input[from..]) <= memory.Length
    modifies memory
    ensures from <= inputPos <= |input| && outputPos == Written(room, first, input[from..]) <= memory.Length
    ensures Encoded(memory[..outputPos], old(memory[..first]), input[from..inputPos])
    ensures code == InvalidChar <==> outputPos < Limit(room) && inputPos < |input| && input[inputPos] > 0x10ffff
    ensures code == Success <==> inputPos == |input|
    ensures code == OutputSize ==> outputPos >= Limit(room)
    ensures code != InvalidChar && outputPos < room ==> memory[outputPos] == 0
  {
    outputPos, inputPos := first, from;
    ghost var before, end := memory[..first], Written(room, first, input[from..]);
    var limit := Limit(room);
    assert input[from..from] == [] && before + [] == before;
    while inputPos < |input| && outputPos < limit
      invariant from <= inputPos <= |input| && outputPos <= memory.Length
      invariant end == Written(room, outputPos, input[inputPos..])
      invariant Encoded(memory[..outputPos], before, input[from..inputPos])
    {
      if input[inputPos] > 0x10ffff {
        return InvalidChar, outputPos, inputPos;
      }
      outputPos := EncodeNext(memory, room, outputPos, input, inputPos, before, from);
      inputPos := inputPos + 1;
    }
    Terminate(memory, room, outputPos);
    code := if inputPos != |input| then OutputSize else Success;
  }

  function Total(widths: seq<nat>): nat {
    if widths == [] then 0 else widths[0] + Total(widths[1..])
  }

  /** The codepoints are those of the first bytes: scalar values, which encode to them in the given widths. */
  ghost predicate Stands(codepoints: seq<nat>, widths: seq<nat>, bytes: seq<byte>) {
    && |codepoints| == |widths| && Total(widths) == |bytes| && EncodeAll(codepoints) == bytes
    && (forall i :: 0 <= i < |codepoints| ==> IsScalar(codepoints[i]) && widths[i] == |Encode(codepoints[i])|)
  }

  lemma StandsMore(s: seq<byte>, n: nat, codepoints: seq<nat>, widths: seq<nat>, k: nat)
    requires 0 < n <= |s| && IsChar(s[..n]) && n + k <= |s| && Stands(codepoints, widths, s[n..][..k])
    ensures Stands([Scalar0(s[..n])] + codepoints, [n] + widths, s[..n + k])
  {
    EncodeScalar(s[..n]);
    assert s[..n + k] == s[..n] + s[n..][..k];
    assert ([Scalar0(s[..n])] + codepoints)[1..] == codepoints && ([n] + widths)[1..] == widths;
  }

  /**
    The codepoints encode to exactly the characters that were used, in the reported widths; what was used beyond them
    is the unfinished character that the input ends with. Decoding stops early exactly if the room is used up.
   */
  ghost predicate Describes(r: Result, input: seq<byte>, room: nat) {
    && Total(r.widths) <= r.used <= |input|
    && Stands(r.codepoints, r.widths, input[..Total(r.widths)])
    && (r.used > Total(r.widths) ==> r.used == |input| && Unfinished(input[Total(r.widths)..]))
    && (r.code == Success <==> r.used == |input|)
    && (r.code == OutputSize ==> |r.codepoints| == room) && |r.codepoints| <= room
  }

  lemma DescribesMore(input: seq<byte>, n: nat, room: nat, r: Result)
    requires 0 < n <= |input| && IsChar(input[..n]) && room > 0 && r.code != InvalidChar
    requires Describes(r, input[n..], room - 1)
    ensures Describes(Prepended([Scalar0(input[..n])], [n], n, r), input, room)
  {
    var k := Total(r.widths);
    StandsMore(input, n, r.codepoints, r.widths, k);
    assert Total([n] + r.widths) == n + k by {
      assert ([n] + r.widths)[1..] == r.widths;
    }
    assert input[n..][k..] == input[n + k..];
  }

  lemma {:induction false} DecodedStands(input: seq<byte>, room: nat)
    requires Decoded(input, room).code != InvalidChar
    ensures Describes(Decoded(input, room), input, room)
    decreases |input|
  {
    var n := FrontLength(input);
    if room > 0 && n > 0 {
      DecodedStands(input[n..], room - 1);
      DescribesMore(input, n, room, Decoded(input[n..], room - 1));
    } else {
      assert input[..0] == [] && input[0..] == input;
    }
  }

  /** The input is well-formed up to k, and ends there, or with an unfinished character. */
  ghost predicate WellFormedUpTo(input: seq<byte>, k: nat) {
    k <= |input| && Octets(input[..k]) && (k == |input| || Unfinished(input[k..]))
  }

  /** With enough room, exactly the well-formed inputs, and those that end with an unfinished character, are decoded. */
  lemma DecodeSucceeds(input: seq<byte>, room: nat)
    requires room >= |input|
    ensures Decoded(input, room).code == Success <==> exists k :: WellFormedUpTo(input, k)
  {
    if Decoded(input, room).code == Success {
      var k := UsedOctets(input, room);
    }
    if k :| WellFormedUpTo(input, k) {
      OctetsDecode(input, k, room);
    }
  }

  lemma SliceTwice(input: seq<byte>, n: nat, k: nat)
    requires n <= k <= |input|
    ensures input[..k][..n] == input[..n] && input[..k][n..] == input[n..][..k - n] && input[n..][k - n..] == input[k..]
  {
    var s := input[..k];
    assert s == input[..n] + input[n..][..k - n];
  }

  lemma OneMoreChar(input: seq<byte>, n: nat, j: nat)
    requires 0 < n <= |input| && IsChar(input[..n]) && WellFormedUpTo(input[n..], j)
    ensures WellFormedUpTo(input, n + j)
  {
    SliceTwice(input, n, n + j);
    assert CharFirst(input[..n + j], n);
  }

  lemma {:induction false} UsedOctets(input: seq<byte>, room: nat) returns (k: nat)
    requires Decoded(input, room).code == Success
    ensures WellFormedUpTo(input, k)
    decreases |input|
  {
    var n := FrontLength(input);
    if n > 0 {
      k := UsedOctets(input[n..], room - 1);
      OneMoreChar(input, n, k);
      k := n + k;
    } else {
      assert input[0..] == input && input[..0] == [];
      k := 0;
    }
  }

  lemma OneCharLess(input: seq<byte>, k: nat) returns (n: nat)
    requires WellFormedUpTo(input, k) && k > 0
    ensures 0 < n <= k && IsChar(input[..n]) && WellFormedUpTo(input[n..], k - n)
  {
    var s := input[..k];
    assert Octets(s) && s != [];
    n :| CharFirst(s, n);
    SliceTwice(input, n, k);
  }

  lemma {:induction false} OctetsDecode(input: seq<byte>, k: nat, room: nat)
    requires WellFormedUpTo(input, k) && room >= |input|
    ensures Decoded(input, room).code == Success
    decreases |input|
  {
    if k > 0 {
      var n := OneCharLess(input, k);
      OctetsDecode(input[n..], k - n, room - 1);
      DecodedChar(input, n, room);
    } else {
      assert input[0..] == input;
    }
  }

  /** All codepoints come back, and all bytes are used. */
  ghost predicate GivesBack(r: Result, codepoints: seq<nat>, bytes: seq<byte>) {
    r.code == Success && r.codepoints == codepoints && r.used == |bytes|
  }

  lemma EncodedFront(c: nat, rest: seq<byte>, room: nat, codepoints: seq<nat>)
    requires IsScalar(c) && room > 0 && GivesBack(Decoded(rest, room - 1), codepoints, rest)
    ensures GivesBack(Decoded(Encode(c) + rest, room), [c] + codepoints, Encode(c) + rest)
  {
    var (s, all) := (Encode(c), Encode(c) + rest);
    EncodedChar(c);
    assert all[..|s|] == s && all[|s|..] == rest;
    DecodedChar(all, |s|, room);
  }

  /** Decoding what scalar values encode to gives them back. */
  lemma {:induction false} DecodeEncoded(codepoints: seq<nat>, room: nat)
    requires room >= |codepoints| && forall i :: 0 <= i < |codepoints| ==> IsScalar(codepoints[i])
    ensures GivesBack(Decoded(EncodeAll(codepoints), room), codepoints, EncodeAll(codepoints))
  {
    if codepoints != [] {
      DecodeEncoded(codepoints[1..], room - 1);
      EncodedFront(codepoints[0], EncodeAll(codepoints[1..]), room, codepoints[1..]);
    }
  }

  // ---------------------------------------------------------------------
  // Decoding in chunks
  // ---------------------------------------------------------------------

  /** The rest of the input, decoded with what is left of a larger room, goes behind what was decoded first. */
  ghost predicate GoesOn(input: seq<byte>, room: nat, m: nat, r: Result) {
    && r.used <= |input| && |r.codepoints| == m <= room
    && Decoded(input, room) == Prepended(r.codepoints, r.widths, r.used, Decoded(input[r.used..], room - m))
  }

  lemma CharBefore(input: seq<byte>, n: nat, m: nat, room: nat, r: Result)
    requires 0 < n == FrontLength(input) && 0 < m <= room && GoesOn(input[n..], room - 1, m - 1, r)
    ensures GoesOn(input, room, m, Result(r.code, [Scalar0(input[..n])] + r.codepoints, [n] + r.widths, n + r.used))
  {
    assert input[n..][r.used..] == input[n + r.used..];
    var rest := Decoded(input[n + r.used..], room - m);
    PrependedTwice([Scalar0(input[..n])], [n], n, r.codepoints, r.widths, r.used, rest);
    DecodedChar(input, n, room);
  }

  lemma NothingBefore(input: seq<byte>, room: nat)
    ensures GoesOn(input, room, 0, Result(OutputSize, [], [], 0))
  {
    assert input[0..] == input;
    var r := Decoded(input, room);
    assert [] + r.codepoints == r.codepoints && [] + r.widths == r.widths;
  }

  /** After running out of room, decoding can go on where it stopped. */
  lemma {:induction false} DecodeOn(input: seq<byte>, m: nat, room: nat)
    requires Decoded(input, m).code == OutputSize && m <= room
    ensures GoesOn(input, room, m, Decoded(input, m)) && (m > 0 ==> Decoded(input, m).used > 0)
    decreases |input|
  {
    if m == 0 {
      NothingBefore(input, room);
    } else {
      var n := FrontLength(input);
      DecodeOn(input[n..], m - 1, room - 1);
      CharBefore(input, n, m, room, Decoded(input[n..], m - 1));
      DecodedChar(input, n, m);
    }
  }

  lemma {:induction false} DecodedShort(input: seq<byte>, m: nat, room: nat)
    requires Decoded(input, m).code != OutputSize && m <= room
    ensures Decoded(input, room) == Decoded(input, m)
    decreases |input|
  {
    if input != [] && FrontLength(input) > 0 {
      DecodedShort(input[FrontLength(input)..], m - 1, room - 1);
    }
  }

  /** Decoding m codepoints at a time, from where the last chunk ended, as long as the room is what stops it. */
  ghost function Chunked(input: seq<byte>, m: nat): Result
    requires m > 0
    decreases |input|
  {
    var r := Decoded(input, m);
    if r.code != OutputSize then r
    else
      DecodeOn(input, m, m);
      Prepended(r.codepoints, r.widths, r.used, Chunked(input[r.used..], m))
  }

  /** The size of the chunks does not matter. */
  lemma {:induction false} ChunkedDecodes(input: seq<byte>, m: nat, room: nat)
    requires m > 0 && room >= |input| + m
    ensures Chunked(input, m) == Decoded(input, room)
    decreases |input|
  {
    if Decoded(input, m).code == OutputSize {
      DecodeOn(input, m, room);
      UsedEnough(input, m);
      ChunkedDecodes(input[Decoded(input, m).used..], m, room - m);
    } else {
      DecodedShort(input, m, room);
    }
  }

  /** Every codepoint uses a byte. */
  lemma {:induction false} UsedEnough(input: seq<byte>, room: nat)
    ensures |Decoded(input, room).codepoints| <= Decoded(input, room).used
    decreases |input|
  {
    if room > 0 && FrontLength(input) > 0 {
      UsedEnough(input[FrontLength(input)..], room - 1);
    }
  }
}
