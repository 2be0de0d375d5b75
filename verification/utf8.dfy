/**
 * UTF-8 as `Encoding.UTF8` implements it: the encoder used by the client to
 * build a Basic header, and the decoder the server applies to the base64
 * payload. Ill-formed input decodes to U+FFFD, one replacement character per
 * maximal ill-formed subpart, as section 3.9 of the Unicode Standard
 * recommends and as .NET does.
 */
module Utf8 {

  type byte = x: int | 0 <= x < 256

  const Replacement: char := '\U{FFFD}'

  predicate IsContinuation(b: byte) {
    0x80 <= b < 0xC0
  }

  /** The one to four bytes that encode one scalar value. */
  function EncodeChar(c: char): (bs: seq<byte>)
    ensures 1 <= |bs| <= 4
    ensures |bs| == 1 <==> c as int < 0x80
    ensures c as int < 0x80 ==> bs == [c as int]
  {
    var n := c as int;
    if n < 0x80 then [n]
    else if n < 0x800 then [0xC0 + n / 64, 0x80 + n % 64]
    else if n < 0x10000 then [0xE0 + n / 4096, 0x80 + (n / 64) % 64, 0x80 + n % 64]
    else [0xF0 + n / 262144, 0x80 + (n / 4096) % 64, 0x80 + (n / 64) % 64, 0x80 + n % 64]
  }

  /** `Encoding.UTF8.GetBytes`. */
  function Encode(s: string): (bs: seq<byte>)
    ensures |s| <= |bs| <= 4 * |s|
  {
    if s == [] then [] else EncodeChar(s[0]) + Encode(s[1..])
  }

  /** A decoded character together with the number of bytes it consumed. */
  datatype Step = Step(c: char, width: nat)

  /**
   * Decodes the well-formed sequence at the head of `bs`, or the maximal
   * ill-formed subpart there to one U+FFFD (Table 3-7 of the Unicode Standard).
   */
  function DecodeHead(bs: seq<byte>): (r: Step)
    requires |bs| > 0
    ensures 1 <= r.width <= |bs|
    ensures bs[0] < 0x80 ==> r == Step(bs[0] as char, 1)
  {
    var b0: int := bs[0];
    if b0 < 0x80 then Step(b0 as char, 1)
    else if 0xC2 <= b0 <= 0xDF then
      if |bs| >= 2 && IsContinuation(bs[1]) then Step(Scalar2(b0, bs[1]) as char, 2)
      else Step(Replacement, 1)
    else if 0xE0 <= b0 <= 0xEF then
      var lo := if b0 == 0xE0 then 0xA0 else 0x80;
      var hi := if b0 == 0xED then 0x9F else 0xBF;
      if |bs| < 2 || !(lo <= bs[1] <= hi) then Step(Replacement, 1)
      else if |bs| < 3 || !IsContinuation(bs[2]) then Step(Replacement, 2)
      else Step(Scalar3(b0, bs[1], bs[2]) as char, 3)
    else if 0xF0 <= b0 <= 0xF4 then
      var lo := if b0 == 0xF0 then 0x90 else 0x80;
      var hi := if b0 == 0xF4 then 0x8F else 0xBF;
      if |bs| < 2 || !(lo <= bs[1] <= hi) then Step(Replacement, 1)
      else if |bs| < 3 || !IsContinuation(bs[2]) then Step(Replacement, 2)
      else if |bs| < 4 || !IsContinuation(bs[3]) then Step(Replacement, 3)
      else Step(Scalar4(b0, bs[1], bs[2], bs[3]) as char, 4)
    else Step(Replacement, 1)
  }

  /** The payload bits of a two-, three- or four-byte sequence. */
  function Scalar2(b0: int, b1: int): int {
    (b0 - 0xC0) * 64 + (b1 - 0x80)
  }

  function Scalar3(b0: int, b1: int, b2: int): int {
    (b0 - 0xE0) * 4096 + (b1 - 0x80) * 64 + (b2 - 0x80)
  }

  function Scalar4(b0: int, b1: int, b2: int, b3: int): int {
    (b0 - 0xF0) * 262144 + (b1 - 0x80) * 4096 + (b2 - 0x80) * 64 + (b3 - 0x80)
  }

  /** `Encoding.UTF8.GetString`: total, never fails. */
  function Decode(bs: seq<byte>): (s: string)
    ensures |s| <= |bs|
    ensures bs == [] <==> s == []
    decreases |bs|
  {
    if bs == [] then []
    else
      var step := DecodeHead(bs);
      [step.c] + Decode(bs[step.width..])
  }

  lemma Scalar2Inverse(n: int)
    requires 0x80 <= n < 0x800
    ensures 0xC2 <= 0xC0 + n / 64 <= 0xDF
    ensures Scalar2(0xC0 + n / 64, 0x80 + n % 64) == n
  {
  }

  lemma Scalar3Inverse(n: int)
    requires 0x800 <= n < 0x10000
    ensures Scalar3(0xE0 + n / 4096, 0x80 + (n / 64) % 64, 0x80 + n % 64) == n
  {
    assert n / 4096 * 64 + (n / 64) % 64 == n / 64;
  }

  lemma Scalar4Inverse(n: int)
    requires 0x10000 <= n < 0x110000
    ensures Scalar4(0xF0 + n / 262144, 0x80 + (n / 4096) % 64, 0x80 + (n / 64) % 64, 0x80 + n % 64) == n
  {
    assert n / 262144 * 64 + (n / 4096) % 64 == n / 4096;
    assert n / 4096 * 64 + (n / 64) % 64 == n / 64;
  }

  /** The decoder reads back exactly the bytes `EncodeChar` wrote, and nothing after them. */
  lemma DecodeHeadEncodeChar(c: char, rest: seq<byte>)
    ensures DecodeHead(EncodeChar(c) + rest) == Step(c, |EncodeChar(c)|)
  {
    var n := c as int;
    if n < 0x80 {
    } else if n < 0x800 {
      Scalar2Inverse(n);
    } else if n < 0x10000 {
      Scalar3Inverse(n);
    } else {
      Scalar4Inverse(n);
    }
  }

  /** Round trip: decoding what the encoder produced gives the original text back. */
  lemma {:induction false} DecodeEncode(s: string)
    ensures Decode(Encode(s)) == s
  {
    if s != [] {
      var head := EncodeChar(s[0]);
      var tail := Encode(s[1..]);
      assert Encode(s) == head + tail;
      DecodeHeadEncodeChar(s[0], tail);
      assert (head + tail)[|head|..] == tail;
      DecodeEncode(s[1..]);
    }
  }

  /** Encoding distributes over concatenation. */
  lemma {:induction false} EncodeAppend(a: string, b: string)
    ensures Encode(a + b) == Encode(a) + Encode(b)
  {
    if a != [] {
      assert (a + b)[1..] == a[1..] + b;
      EncodeAppend(a[1..], b);
    } else {
      assert a + b == b;
    }
  }

  /** ASCII text encodes one byte per character, each byte the character's code. */
  lemma {:induction false} EncodeAscii(s: string)
    requires forall i :: 0 <= i < |s| ==> s[i] as int < 0x80
    ensures |Encode(s)| == |s|
    ensures forall i :: 0 <= i < |s| ==> Encode(s)[i] == s[i] as int
  {
    if s != [] {
      EncodeAscii(s[1..]);
    }
  }
}
