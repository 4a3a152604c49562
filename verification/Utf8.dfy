/** The encoding check against the code points that UTF-8 is defined by (section 3 of RFC 3629). */
module Utf8 {
  import opened Prelude
  import opened JsonText
  import opened JsonGrammar
  import opened JsonRoundTrip
  import opened JsonDocument

  /** The code points that are accepted: no surrogates, and none of the last two of each plane. */
  predicate IsCharacter(p: int) {
    0 <= p <= 0x10FFFF && !(0xD800 <= p <= 0xDFFF) && p % 0x1_0000 < 0xFFFE
  }

  /** The bytes of a code point. */
  function Encoded(p: int): string
    requires 0 <= p <= 0x10FFFF
  {
    if p < 0x80 then [p as char]
    else if p < 0x800 then [(0xC0 + p / 0x40) as char, (0x80 + p % 0x40) as char]
    else if p < 0x1_0000 then
      [(0xE0 + p / 0x1000) as char, (0x80 + p / 0x40 % 0x40) as char, (0x80 + p % 0x40) as char]
    else
      [(0xF0 + p / 0x4_0000) as char, (0x80 + p / 0x1000 % 0x40) as char, (0x80 + p / 0x40 % 0x40) as char,
       (0x80 + p % 0x40) as char]
  }

  predicate AllCharacters(points: seq<int>) {
    forall p :: p in points ==> IsCharacter(p)
  }

  /** The encodings one after the other. */
  function EncodedAll(points: seq<int>): string
    requires AllCharacters(points)
  {
    if points == [] then ""
    else
      assert points[0] in points && forall p :: p in points[1..] ==> p in points;
      Encoded(points[0]) + EncodedAll(points[1..])
  }

  // ---------------------------------------------------------------- one character

  lemma CodesAre(t: string, e: string, r: string)
    requires t == e + r
    ensures forall i :: 0 <= i < |e| ==> Code(t, i) == e[i] as int
  {
  }

  /** The digits of a code point in base 64, and its last sixteen bits. */
  lemma LastTwo(p: int)
    ensures p == p / 0x1000 * 0x1000 + p / 0x40 % 0x40 * 0x40 + p % 0x40
  {
    assert p / 0x1000 == p / 0x40 / 0x40;
  }

  lemma Base64Digits(p: int)
    requires 0 <= p <= 0x10FFFF
    ensures p == (p / 0x4_0000 * 0x40 + p / 0x1000 % 0x40) * 0x1000 + p / 0x40 % 0x40 * 0x40 + p % 0x40
    ensures p < 0x1_0000 ==> p == p / 0x1000 * 0x1000 + p / 0x40 % 0x40 * 0x40 + p % 0x40
    ensures p % 0x1_0000 == p / 0x1000 % 16 * 0x1000 + p / 0x40 % 0x40 * 0x40 + p % 0x40
    ensures p / 0x1000 % 16 == p / 0x1000 % 0x40 % 16
  {
    LastTwo(p);
    var high := p / 0x1000;
    var low := p / 0x40 % 0x40 * 0x40 + p % 0x40;
    assert p == high * 0x1000 + low && 0 <= low < 0x1000;
    HighDigits(p, high, low);
  }

  lemma HighDigits(p: int, high: int, low: int)
    requires p == high * 0x1000 + low && 0 <= low < 0x1000
    ensures p / 0x4_0000 == high / 0x40 && p % 0x1_0000 == high % 16 * 0x1000 + low
    ensures high == high / 0x40 * 0x40 + high % 0x40 && high % 16 == high % 0x40 % 16
  {
    Split64(high);
    Split16(high);
    Above18(p, high / 0x40, high % 0x40 * 0x1000 + low);
    Below16(p, high / 16, high % 16 * 0x1000 + low);
  }

  lemma Split64(n: int)
    ensures n == n / 0x40 * 0x40 + n % 0x40 && 0 <= n % 0x40 < 0x40 && n % 16 == n % 0x40 % 16
  {
    var q, r := n / 0x40, n % 0x40;
    Split16(r);
    Below4(n, 4 * q + r / 16, r % 16);
  }

  lemma Below4(p: int, q: int, r: int)
    requires p == 16 * q + r && 0 <= r < 16
    ensures p % 16 == r
  {
  }

  lemma Split16(n: int)
    ensures n == n / 16 * 16 + n % 16 && 0 <= n % 16 < 16
  {
  }

  lemma Above18(p: int, q: int, r: int)
    requires p == q * 0x4_0000 + r && 0 <= r < 0x4_0000
    ensures p / 0x4_0000 == q
  {
  }

  lemma Below16(p: int, q: int, r: int)
    requires p == q * 0x1_0000 + r && 0 <= r < 0x1_0000
    ensures p % 0x1_0000 == r
  {
  }

  lemma ShortIsChar(p: int, r: string)
    requires IsCharacter(p) && p < 0x800
    ensures CharLength(Encoded(p) + r) == |Encoded(p)|
  {
    CodesAre(Encoded(p) + r, Encoded(p), r);
  }

  lemma ThreeIsChar(p: int, r: string)
    requires IsCharacter(p) && 0x800 <= p < 0x1_0000
    ensures CharLength(Encoded(p) + r) == 3
  {
    CodesAre(Encoded(p) + r, Encoded(p), r);
    Base64Digits(p);
    assert p / 0x1000 <= 15;
  }

  lemma FourIsChar(p: int, r: string)
    requires IsCharacter(p) && p >= 0x1_0000
    ensures CharLength(Encoded(p) + r) == 4
  {
    CodesAre(Encoded(p) + r, Encoded(p), r);
    Base64Digits(p);
    assert p / 0x4_0000 <= 4;
  }

  /** The encoding of a code point is one character. */
  lemma EncodedIsChar(p: int, r: string)
    requires IsCharacter(p)
    ensures Encoded(p) != "" && CharLength(Encoded(p) + r) == |Encoded(p)|
  {
    if p < 0x800 {
      ShortIsChar(p, r);
    } else if p < 0x1_0000 {
      ThreeIsChar(p, r);
    } else {
      FourIsChar(p, r);
    }
  }

  /** The code point of the character at the front. */
  function PointOf(t: string): int
    requires t != "" && CharLength(t) > 0
  {
    var n := CharLength(t);
    if n == 1 then Code(t, 0)
    else if n == 2 then (Code(t, 0) - 0xC0) * 0x40 + (Code(t, 1) - 0x80)
    else if n == 3 then (Code(t, 0) - 0xE0) * 0x1000 + (Code(t, 1) - 0x80) * 0x40 + (Code(t, 2) - 0x80)
    else ((Code(t, 0) - 0xF0) * 0x40 + (Code(t, 1) - 0x80)) * 0x1000 + (Code(t, 2) - 0x80) * 0x40 + (Code(t, 3) - 0x80)
  }

  lemma FrontOf(t: string, e: string)
    requires |e| <= |t| && forall i :: 0 <= i < |e| ==> Code(t, i) == e[i] as int
    ensures t[..|e|] == e
  {
  }

  lemma TwoDigits(a: int, b: int)
    requires 2 <= a < 32 && 0 <= b < 64
    ensures var p := a * 0x40 + b; 0x80 <= p < 0x800 && p / 0x40 == a && p % 0x40 == b && p % 0x1_0000 == p
  {
  }

  lemma ThreeDigits(a: int, b: int, c: int)
    requires 0 <= a < 16 && 0 <= b < 64 && 0 <= c < 64
    ensures var p := a * 0x1000 + b * 0x40 + c;
            0 <= p < 0x1_0000 && p / 0x1000 == a && p / 0x40 % 0x40 == b && p % 0x40 == c && p % 0x1_0000 == p
  {
  }

  lemma FourDigits(a: int, b: int, c: int, d: int)
    requires 0 <= a < 8 && 0 <= b < 64 && 0 <= c < 64 && 0 <= d < 64
    ensures var p := (a * 0x40 + b) * 0x1000 + c * 0x40 + d;
            && p / 0x4_0000 == a && p / 0x1000 % 0x40 == b && p / 0x40 % 0x40 == c && p % 0x40 == d
            && p % 0x1_0000 == b % 16 * 0x1000 + c * 0x40 + d
  {
    var high, low := a * 0x40 + b, c * 0x40 + d;
    var p := high * 0x1000 + low;
    HighDigits(p, high, low);
    assert p / 0x1000 == high && high / 0x40 == a && high % 0x40 == b;
    assert p == (high * 0x40 + c) * 0x40 + d;
    assert p / 0x40 == high * 0x40 + c;
  }

  lemma TwoIsEncoded(t: string)
    requires t != "" && CharLength(t) == 2
    ensures IsCharacter(PointOf(t)) && Encoded(PointOf(t)) == t[..2]
  {
    TwoDigits(Code(t, 0) - 0xC0, Code(t, 1) - 0x80);
    FrontOf(t, Encoded(PointOf(t)));
  }

  lemma ThreeIsEncoded(t: string)
    requires t != "" && CharLength(t) == 3
    ensures IsCharacter(PointOf(t)) && Encoded(PointOf(t)) == t[..3]
  {
    ThreeDigits(Code(t, 0) - 0xE0, Code(t, 1) - 0x80, Code(t, 2) - 0x80);
    FrontOf(t, Encoded(PointOf(t)));
  }

  lemma FourIsEncoded(t: string)
    requires t != "" && CharLength(t) == 4
    ensures IsCharacter(PointOf(t)) && Encoded(PointOf(t)) == t[..4]
  {
    FourDigits(Code(t, 0) - 0xF0, Code(t, 1) - 0x80, Code(t, 2) - 0x80, Code(t, 3) - 0x80);
    FrontOf(t, Encoded(PointOf(t)));
  }

  /** A character is the encoding of its code point. */
  lemma CharIsEncoded(t: string)
    requires t != "" && CharLength(t) > 0
    ensures IsCharacter(PointOf(t)) && Encoded(PointOf(t)) == t[..CharLength(t)]
  {
    var n := CharLength(t);
    if n == 1 {
      FrontOf(t, Encoded(PointOf(t)));
    } else if n == 2 {
      TwoIsEncoded(t);
    } else if n == 3 {
      ThreeIsEncoded(t);
    } else {
      FourIsEncoded(t);
    }
  }

  // ---------------------------------------------------------------- whole texts

  lemma {:induction false} EncodedAllIsUtf8(points: seq<int>)
    requires AllCharacters(points)
    ensures IsUtf8(EncodedAll(points))
  {
    hide CharLength, Encoded;
    if points != [] {
      var p, rest := points[0], points[1..];
      assert p in points && forall q :: q in rest ==> q in points;
      EncodedIsChar(p, EncodedAll(rest));
      EncodedAllIsUtf8(rest);
      assert (Encoded(p) + EncodedAll(rest))[|Encoded(p)|..] == EncodedAll(rest);
    }
  }

  lemma {:induction false} Utf8IsEncoded(t: string) returns (points: seq<int>)
    requires IsUtf8(t)
    ensures AllCharacters(points) && EncodedAll(points) == t
    decreases |t|
  {
    hide CharLength, Encoded;
    if t == "" {
      points := [];
    } else {
      var n := CharLength(t);
      CharIsEncoded(t);
      var rest := Utf8IsEncoded(t[n..]);
      points := [PointOf(t)] + rest;
      assert points[1..] == rest;
      assert t == t[..n] + t[n..];
    }
  }

  /** The check accepts exactly the texts that are the encodings of some characters, one after the other. */
  lemma Utf8IsEncodings(t: string)
    ensures IsUtf8(t) <==> exists points :: AllCharacters(points) && EncodedAll(points) == t
  {
    if IsUtf8(t) {
      var points := Utf8IsEncoded(t);
    }
    if points :| AllCharacters(points) && EncodedAll(points) == t {
      EncodedAllIsUtf8(points);
    }
  }

  /** So a string of any such characters survives printing and parsing, and one of other bytes does not. */
  lemma CharactersSurvive(t: string, pretty: bool, trailing: bool)
    ensures Read(Write(List([String(t)]), pretty), trailing) == Some(List([String(t)])) <==>
              exists points :: AllCharacters(points) && EncodedAll(points) == t
  {
    Utf8IsEncodings(t);
    var v := List([String(t)]);
    assert ValidStrings(v) <==> IsUtf8(t) by {
      assert String(t) in v.items;
    }
    assert Height(v) == 2 by {
      ItemsHeightStep(v.items);
      ItemsHeightStep([]);
      assert v.items[1..] == [];
    }
    assert WellFormed(v);
    hide Write, JsonToValue, IsUtf8, ValidStrings, Height, WellFormed, EncodedAll, AllCharacters;
    WriteThenRead(v, pretty, trailing);
  }
}
