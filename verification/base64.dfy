/**
 * Base64 with the standard alphabet of section 4 of RFC 4648, as
 * `Convert.ToBase64String` writes it and `Convert.FromBase64String` reads it.
 * Both directions go through 6-bit values ("sextets"), with 64 standing for
 * the padding character.
 */
module Base64 {
  import opened Wrappers
  import Utf8

  type byte = Utf8.byte

  /** A 6-bit value, or `PadValue` for '='. */
  type sextet = v: int | 0 <= v <= 64

  const PadValue: sextet := 64

  /** The character of the alphabet (or '=') that stands for a sextet. */
  function Symbol(v: sextet): char {
    if v < 26 then ('A' as int + v) as char
    else if v < 52 then ('a' as int + v - 26) as char
    else if v < 62 then ('0' as int + v - 52) as char
    else if v == 62 then '+'
    else if v == 63 then '/'
    else '='
  }

  /** The sextet a character stands for; `None` for a character outside the alphabet and '='. */
  function SextetOf(c: char): (r: Option<sextet>)
    ensures r.Some? ==> Symbol(r.value) == c
  {
    if 'A' <= c <= 'Z' then Some(c as int - 'A' as int)
    else if 'a' <= c <= 'z' then Some(c as int - 'a' as int + 26)
    else if '0' <= c <= '9' then Some(c as int - '0' as int + 52)
    else if c == '+' then Some(62)
    else if c == '/' then Some(63)
    else if c == '=' then Some(PadValue)
    else None
  }

  lemma SextetOfSymbol(v: sextet)
    ensures SextetOf(Symbol(v)) == Some(v)
  {
  }

  function Render(vs: seq<sextet>): (s: string)
    ensures |s| == |vs|
  {
    if vs == [] then [] else [Symbol(vs[0])] + Render(vs[1..])
  }

  /** Reads characters as sextets; `None` if any lies outside the alphabet and '='. */
  function Parse(s: string): (r: Option<seq<sextet>>)
    ensures r.Some? ==> |r.value| == |s|
  {
    if s == [] then Some([])
    else match (SextetOf(s[0]), Parse(s[1..]))
      case (Some(v), Some(vs)) => Some([v] + vs)
      case _ => None
  }

  /** The sextets of a group of one to three bytes, missing bytes shown as padding. */
  function PackGroup(a: byte, b: byte, c: byte, n: int): (g: seq<sextet>)
    requires 1 <= n <= 3
    ensures |g| == 4
  {
    [a / 4, a % 4 * 16 + b / 16,
     if n == 1 then PadValue else b % 16 * 4 + c / 64,
     if n <= 2 then PadValue else c % 64]
  }

  function Pack(bs: seq<byte>): (vs: seq<sextet>)
    ensures bs == [] <==> vs == []
  {
    if |bs| == 0 then []
    else if |bs| == 1 then PackGroup(bs[0], 0, 0, 1)
    else if |bs| == 2 then PackGroup(bs[0], bs[1], 0, 2)
    else PackGroup(bs[0], bs[1], bs[2], 3) + Pack(bs[3..])
  }

  /** `Convert.ToBase64String`: groups of three bytes become four characters, the last group padded. */
  function Encode(bs: seq<byte>): (s: string)
    ensures bs == [] <==> s == []
  {
    Render(Pack(bs))
  }

  /** Three bytes from a group without padding. */
  function UnpackFull(g: seq<sextet>): Option<seq<byte>>
    requires |g| == 4
  {
    var a: int, b: int, c: int, d: int := g[0], g[1], g[2], g[3];
    if a < 64 && b < 64 && c < 64 && d < 64 then
      Some([a * 4 + b / 16, b % 16 * 16 + c / 4, c % 4 * 64 + d])
    else None
  }

  /**
   * The final group: one '=' leaves two bytes, two leave one. The bits of the
   * last character that fall past the final byte are ignored.
   */
  function UnpackLast(g: seq<sextet>): Option<seq<byte>>
    requires |g| == 4
  {
    var a: int, b: int, c: int, d: int := g[0], g[1], g[2], g[3];
    if a < 64 && b < 64 && c == PadValue && d == PadValue then
      Some([a * 4 + b / 16])
    else if a < 64 && b < 64 && c < 64 && d == PadValue then
      Some([a * 4 + b / 16, b % 16 * 16 + c / 4])
    else UnpackFull(g)
  }

  /** Groups of four sextets, padding allowed only in the last one; `None` for a trailing partial group. */
  function Unpack(vs: seq<sextet>): Option<seq<byte>>
    decreases |vs|
  {
    if |vs| == 0 then Some([])
    else if |vs| < 4 then None
    else if |vs| == 4 then UnpackLast(vs)
    else
      match (UnpackFull(vs[..4]), Unpack(vs[4..]))
      case (Some(head), Some(tail)) => Some(head + tail)
      case _ => None
  }

  /** The characters `Convert.FromBase64String` skips wherever they occur. */
  predicate IsSkipped(c: char) {
    c == ' ' || c == '\t' || c == '\r' || c == '\n'
  }

  function StripSkipped(s: string): (t: string)
    ensures |t| <= |s|
    ensures forall i :: 0 <= i < |t| ==> !IsSkipped(t[i])
  {
    if s == [] then []
    else if IsSkipped(s[0]) then StripSkipped(s[1..])
    else [s[0]] + StripSkipped(s[1..])
  }

  /**
   * `Convert.FromBase64String`; `None` stands for the `FormatException` it
   * throws on a length that is not a multiple of four (skipped characters
   * aside), a character outside the alphabet, or misplaced padding.
   */
  function Decode(s: string): (r: Option<seq<byte>>)
    ensures |StripSkipped(s)| % 4 != 0 ==> r.None?
    ensures StripSkipped(s) == [] ==> r == Some([])
  {
    var t := StripSkipped(s);
    if |t| % 4 != 0 then None
    else match Parse(t)
      case None => None
      case Some(vs) => Unpack(vs)
  }

  lemma {:induction false} ParseRender(vs: seq<sextet>)
    ensures Parse(Render(vs)) == Some(vs)
  {
    if vs != [] {
      SextetOfSymbol(vs[0]);
      assert Render(vs)[1..] == Render(vs[1..]);
      ParseRender(vs[1..]);
      assert vs == [vs[0]] + vs[1..];
    }
  }

  lemma {:induction false} RenderHasNoSkipped(vs: seq<sextet>)
    ensures forall i :: 0 <= i < |Render(vs)| ==> !IsSkipped(Render(vs)[i])
    ensures forall i :: 0 <= i < |Render(vs)| ==> SextetOf(Render(vs)[i]).Some?
  {
    if vs != [] {
      SextetOfSymbol(vs[0]);
      RenderHasNoSkipped(vs[1..]);
      assert forall i :: 1 <= i < |Render(vs)| ==> Render(vs)[i] == Render(vs[1..])[i - 1];
    }
  }

  lemma {:induction false} StripSkippedIdentity(s: string)
    requires forall i :: 0 <= i < |s| ==> !IsSkipped(s[i])
    ensures StripSkipped(s) == s
  {
    if s != [] {
      StripSkippedIdentity(s[1..]);
    }
  }

  /** The sextets the encoder cuts from three bytes reassemble into those bytes. */
  lemma TripleInverse(a: byte, b: byte, c: byte)
    ensures (a / 4) * 4 + (a % 4 * 16 + b / 16) / 16 == a
    ensures (a % 4 * 16 + b / 16) % 16 * 16 + (b % 16 * 4 + c / 64) / 4 == b
    ensures (b % 16 * 4 + c / 64) % 4 * 64 + c % 64 == c
  {
  }

  /** Each group the encoder writes unpacks to the bytes it was made from. */
  lemma UnpackGroup3(a: byte, b: byte, c: byte)
    ensures UnpackFull(PackGroup(a, b, c, 3)) == Some([a, b, c])
    ensures UnpackLast(PackGroup(a, b, c, 3)) == Some([a, b, c])
  {
    TripleInverse(a, b, c);
  }

  lemma UnpackGroup2(a: byte, b: byte)
    ensures UnpackLast(PackGroup(a, b, 0, 2)) == Some([a, b])
  {
    TripleInverse(a, b, 0);
  }

  lemma UnpackGroup1(a: byte)
    ensures UnpackLast(PackGroup(a, 0, 0, 1)) == Some([a])
  {
    TripleInverse(a, 0, 0);
  }

  lemma UnpackOne(bs: seq<byte>)
    requires |bs| == 1
    ensures Unpack(Pack(bs)) == Some(bs)
  {
    UnpackGroup1(bs[0]);
    assert bs == [bs[0]];
  }

  lemma UnpackTwo(bs: seq<byte>)
    requires |bs| == 2
    ensures Unpack(Pack(bs)) == Some(bs)
  {
    UnpackGroup2(bs[0], bs[1]);
    assert bs == [bs[0], bs[1]];
  }

  lemma UnpackThree(bs: seq<byte>)
    requires |bs| == 3
    ensures Unpack(Pack(bs)) == Some(bs)
  {
    UnpackGroup3(bs[0], bs[1], bs[2]);
    assert bs[3..] == [];
    assert Pack(bs) == PackGroup(bs[0], bs[1], bs[2], 3);
    assert bs == [bs[0], bs[1], bs[2]];
  }

  lemma PackCons(bs: seq<byte>)
    requires |bs| > 3
    ensures Pack(bs) == PackGroup(bs[0], bs[1], bs[2], 3) + Pack(bs[3..])
  {
  }

  /** A full group followed by well-formed groups unpacks group by group. */
  lemma UnpackAppend(g: seq<sextet>, t: seq<sextet>, h: seq<byte>, u: seq<byte>)
    requires |g| == 4 && |t| > 0
    requires UnpackFull(g) == Some(h)
    requires Unpack(t) == Some(u)
    ensures Unpack(g + t) == Some(h + u)
  {
    assert (g + t)[..4] == g && (g + t)[4..] == t;
  }

  lemma UnpackGroupThenRest(a: byte, b: byte, c: byte, rest: seq<byte>, t: seq<sextet>)
    requires |rest| > 0 && t == Pack(rest)
    requires Unpack(t) == Some(rest)
    ensures Unpack(PackGroup(a, b, c, 3) + t) == Some([a, b, c] + rest)
  {
    UnpackGroup3(a, b, c);
    UnpackAppend(PackGroup(a, b, c, 3), t, [a, b, c], rest);
  }

  /** The inductive step, stated of `p` so that the packed form is not unfolded again. */
  lemma UnpackStep(bs: seq<byte>, p: seq<sextet>)
    requires |bs| > 3 && p == Pack(bs)
    requires Unpack(Pack(bs[3..])) == Some(bs[3..])
    ensures Unpack(p) == Some(bs)
  {
    PackCons(bs);
    UnpackGroupThenRest(bs[0], bs[1], bs[2], bs[3..], Pack(bs[3..]));
    assert bs == [bs[0], bs[1], bs[2]] + bs[3..];
  }

  lemma {:induction false} UnpackPack(bs: seq<byte>)
    ensures Unpack(Pack(bs)) == Some(bs)
    decreases |bs|
  {
    if |bs| == 1 {
      UnpackOne(bs);
    } else if |bs| == 2 {
      UnpackTwo(bs);
    } else if |bs| == 3 {
      UnpackThree(bs);
    } else if |bs| > 3 {
      UnpackPack(bs[3..]);
      UnpackStep(bs, Pack(bs));
    }
  }

  /** Every three bytes, and a final one or two, take four characters. */
  lemma {:induction false} PackLength(bs: seq<byte>)
    ensures |Pack(bs)| == (|bs| + 2) / 3 * 4
    decreases |bs|
  {
    if |bs| > 3 {
      PackLength(bs[3..]);
    }
  }

  /** Round trip: whatever the encoder writes, the decoder reads back unchanged. */
  lemma DecodeEncode(bs: seq<byte>)
    ensures Decode(Encode(bs)) == Some(bs)
  {
    var s := Encode(bs);
    PackLength(bs);
    RenderHasNoSkipped(Pack(bs));
    StripSkippedIdentity(s);
    ParseRender(Pack(bs));
    UnpackPack(bs);
  }

  /** Encoder output never contains the characters the decoder skips; every character is in the alphabet or '='. */
  lemma EncodeHasNoSkipped(bs: seq<byte>)
    ensures forall i :: 0 <= i < |Encode(bs)| ==> !IsSkipped(Encode(bs)[i])
    ensures forall i :: 0 <= i < |Encode(bs)| ==> SextetOf(Encode(bs)[i]).Some?
  {
    RenderHasNoSkipped(Pack(bs));
  }

  /** Skipping leaves every other character in place. */
  lemma {:induction false} StripSkippedKeeps(s: string, i: nat)
    requires i < |s| && !IsSkipped(s[i])
    ensures s[i] in StripSkipped(s)
  {
    if i > 0 {
      assert s[1..][i - 1] == s[i];
      StripSkippedKeeps(s[1..], i - 1);
    }
  }

  lemma {:induction false} ParseRejects(t: string, c: char)
    requires c in t && SextetOf(c).None?
    ensures Parse(t).None?
  {
    if t[0] != c {
      ParseRejects(t[1..], c);
    }
  }

  /** A character outside the alphabet that is not skipped makes `FromBase64String` throw, wherever it stands. */
  lemma DecodeRejectsForeign(s: string, i: nat)
    requires i < |s| && !IsSkipped(s[i]) && SextetOf(s[i]).None?
    ensures Decode(s).None?
  {
    StripSkippedKeeps(s, i);
    ParseRejects(StripSkipped(s), s[i]);
  }

  /** Rendering works sextet by sextet, so it distributes over concatenation. */
  lemma {:induction false} RenderAppend(a: seq<sextet>, b: seq<sextet>)
    ensures Render(a + b) == Render(a) + Render(b)
  {
    if a == [] {
      assert a + b == b;
    } else {
      assert (a + b)[0] == a[0] && (a + b)[1..] == a[1..] + b;
      RenderAppend(a[1..], b);
    }
  }

  lemma RenderOne(v: sextet)
    ensures Render([v]) == [Symbol(v)]
  {
    assert [v][1..] == [];
  }

  /** A full group of three bytes is written as the four symbols of its sextets. */
  lemma RenderGroup(a: byte, b: byte, c: byte)
    ensures var g := PackGroup(a, b, c, 3);
      Render(g) == [Symbol(g[0]), Symbol(g[1]), Symbol(g[2]), Symbol(g[3])]
  {
    var g := PackGroup(a, b, c, 3);
    RenderOne(g[0]);
    RenderOne(g[1]);
    RenderOne(g[2]);
    RenderOne(g[3]);
    RenderAppend([g[2]], [g[3]]);
    RenderAppend([g[1]], [g[2]] + [g[3]]);
    RenderAppend([g[0]], [g[1]] + ([g[2]] + [g[3]]));
    assert g == [g[0]] + ([g[1]] + ([g[2]] + [g[3]]));
  }
}
