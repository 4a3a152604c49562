/**
 Web-safe Base64 without padding characters, as one-shot functions.
 Three bytes become four letters; a last group of one or two bytes becomes two or three letters.
 */
module Base64 {
  import opened Prelude

  datatype DecodeError = Base64DecodingError

  /** The letters A-Z a-z 0-9 - _ in the order of their values. */
  function Letter(v: int): char
    requires 0 <= v < 64
  {
    if v < 26 then ('A' as int + v) as char
    else if v < 52 then ('a' as int + (v - 26)) as char
    else if v < 62 then ('0' as int + (v - 52)) as char
    else if v == 62 then '-' else '_'
  }

  predicate IsLetter(c: char) {
    'A' <= c <= 'Z' || 'a' <= c <= 'z' || '0' <= c <= '9' || c == '-' || c == '_'
  }

  function LetterValue(c: char): (v: int)
    requires IsLetter(c)
    ensures 0 <= v < 64 && Letter(v) == c
  {
    if 'A' <= c <= 'Z' then c as int - 'A' as int
    else if 'a' <= c <= 'z' then c as int - 'a' as int + 26
    else if '0' <= c <= '9' then c as int - '0' as int + 52
    else if c == '-' then 62 else 63
  }

  lemma LetterRoundTrip(v: int)
    requires 0 <= v < 64
    ensures IsLetter(Letter(v)) && LetterValue(Letter(v)) == v
  {
  }

  // ---------------------------------------------------------------- one group

  function EncodeGroup(a: Byte, b: Byte, c: Byte): (r: string)
    ensures |r| == 4
  {
    [Letter(a / 4), Letter(a % 4 * 16 + b / 16), Letter(b % 16 * 4 + c / 64), Letter(c % 64)]
  }

  function DecodeGroup(t: string): (r: Bytes)
    requires |t| == 4 && AllLetters(t)
    ensures |r| == 3
  {
    var w, x, y, z := LetterValue(t[0]), LetterValue(t[1]), LetterValue(t[2]), LetterValue(t[3]);
    [w * 4 + x / 16, x % 16 * 16 + y / 4, y % 4 * 64 + z]
  }

  lemma GroupArithmetic(a: Byte, b: Byte, c: Byte)
    ensures a / 4 * 4 + (a % 4 * 16 + b / 16) / 16 == a
    ensures (a % 4 * 16 + b / 16) % 16 * 16 + (b % 16 * 4 + c / 64) / 4 == b
    ensures (b % 16 * 4 + c / 64) % 4 * 64 + c % 64 == c
  {
  }

  /** A group of letters of which the values are known. */
  lemma GroupOfValues(t: string, w: nat, x: nat, y: nat, z: nat)
    requires |t| == 4 && w < 64 && x < 64 && y < 64 && z < 64
    requires t == [Letter(w), Letter(x), Letter(y), Letter(z)]
    ensures AllLetters(t)
    ensures DecodeGroup(t) == [w * 4 + x / 16, x % 16 * 16 + y / 4, y % 4 * 64 + z]
  {
    hide Letter, LetterValue, IsLetter;
    LetterRoundTrip(w);
    LetterRoundTrip(x);
    LetterRoundTrip(y);
    LetterRoundTrip(z);
  }

  lemma GroupRoundTrip(a: Byte, b: Byte, c: Byte)
    ensures AllLetters(EncodeGroup(a, b, c))
    ensures DecodeGroup(EncodeGroup(a, b, c)) == [a, b, c]
  {
    GroupOfValues(EncodeGroup(a, b, c), a / 4, a % 4 * 16 + b / 16, b % 16 * 4 + c / 64, c % 64);
    hide EncodeGroup, DecodeGroup, AllLetters;
    GroupArithmetic(a, b, c);
  }

  // ---------------------------------------------------------------- whole strings

  predicate AllLetters(t: string) {
    forall c :: c in t ==> IsLetter(c)
  }

  /** Base64WSEncode: URL-safe Base64 with the '=' characters removed. */
  function Encode(s: Bytes): string {
    if |s| == 0 then ""
    else if |s| == 1 then EncodeGroup(s[0], 0, 0)[..2]
    else if |s| == 2 then EncodeGroup(s[0], s[1], 0)[..3]
    else EncodeGroup(s[0], s[1], s[2]) + Encode(s[3..])
  }

  /** The Base64 library's decoder on letters only, after the '=' characters have been put back. */
  function DecodeLetters(t: string): Bytes
    requires AllLetters(t) && |t| % 4 != 1
  {
    if |t| == 0 then []
    else if |t| == 2 then DecodeGroup(t + "AA")[..1]
    else if |t| == 3 then DecodeGroup(t + "A")[..2]
    else DecodeGroup(t[..4]) + DecodeLetters(t[4..])
  }

  predicate IsWhitespace(c: char) {
    c == ' ' || c == '\n' || c == '\r'
  }

  /** The effect of joining the lines of the text and deleting its spaces. */
  function StripWhitespace(t: string): (r: string)
    ensures forall c :: c in r ==> c in t && !IsWhitespace(c)
  {
    if t == "" then ""
    else if IsWhitespace(t[0]) then StripWhitespace(t[1..])
    else [t[0]] + StripWhitespace(t[1..])
  }

  /** Base64WSDecode. */
  function Decode(t: string): Result<Bytes, DecodeError> {
    var s := StripWhitespace(t);
    if |s| % 4 == 1 || !AllLetters(s) then Err(Base64DecodingError) else Ok(DecodeLetters(s))
  }

  lemma {:induction false} StripNothing(t: string)
    requires AllLetters(t)
    ensures StripWhitespace(t) == t
  {
    if t != "" {
      assert IsLetter(t[0]);
      StripNothing(t[1..]);
    }
  }

  lemma DecodeOfLetters(t: string)
    requires AllLetters(t)
    ensures Decode(t) == if |t| % 4 == 1 then Err(Base64DecodingError) else Ok(DecodeLetters(t))
  {
    StripNothing(t);
  }

  // ---------------------------------------------------------------- laws

  lemma {:induction false} EncodeGivesLetters(s: Bytes)
    ensures AllLetters(Encode(s))
    ensures |Encode(s)| == |s| / 3 * 4 + (if |s| % 3 == 0 then 0 else |s| % 3 + 1)
    decreases |s|
  {
    if |s| == 1 {
      GroupRoundTrip(s[0], 0, 0);
    } else if |s| == 2 {
      GroupRoundTrip(s[0], s[1], 0);
    } else if |s| >= 3 {
      GroupRoundTrip(s[0], s[1], s[2]);
      EncodeGivesLetters(s[3..]);
    }
  }

  /** The first two letters of a group fix its first byte and the first three fix the first two. */
  lemma DecodeGroupPrefix(a: Byte, b: Byte, c: Byte, t: string)
    requires |t| == 4 && AllLetters(t)
    requires t[..2] == EncodeGroup(a, b, c)[..2]
    ensures DecodeGroup(t)[0] == a
    ensures t[2] == EncodeGroup(a, b, c)[2] ==> DecodeGroup(t)[1] == b
  {
    hide Letter, LetterValue, IsLetter;
    assert t[0] == t[..2][0] && t[1] == t[..2][1];
    LetterRoundTrip(a / 4);
    LetterRoundTrip(a % 4 * 16 + b / 16);
    LetterRoundTrip(b % 16 * 4 + c / 64);
  }

  /** Decoding inverts encoding on every byte string. */
  lemma DecodeInvertsEncode(s: Bytes)
    ensures Decode(Encode(s)) == Ok(s)
  {
    EncodeGivesLetters(s);
    DecodeOfLetters(Encode(s));
    LettersRoundTrip(s);
  }

  lemma OneByteRoundTrip(s: Bytes)
    requires |s| == 1
    ensures AllLetters(Encode(s)) && |Encode(s)| == 2
    ensures DecodeLetters(Encode(s)) == s
  {
    EncodeGivesLetters(s);
    var t := Encode(s) + "AA";
    assert AllLetters(t);
    assert t[..2] == EncodeGroup(s[0], 0, 0)[..2];
    DecodeGroupPrefix(s[0], 0, 0, t);
  }

  lemma TwoBytesRoundTrip(s: Bytes)
    requires |s| == 2
    ensures AllLetters(Encode(s)) && |Encode(s)| == 3
    ensures DecodeLetters(Encode(s)) == s
  {
    EncodeGivesLetters(s);
    var g := EncodeGroup(s[0], s[1], 0);
    var t := Encode(s) + "A";
    assert AllLetters(t);
    assert t[..3] == g[..3];
    assert t[..2] == t[..3][..2] == g[..3][..2] == g[..2];
    assert t[2] == t[..3][2] == g[2];
    DecodeGroupPrefix(s[0], s[1], 0, t);
    assert DecodeGroup(t)[..2] == s;
  }

  lemma DecodeCons(g: string, t: string)
    requires |g| == 4 && AllLetters(g) && AllLetters(t) && |t| % 4 != 1
    ensures AllLetters(g + t) && |g + t| % 4 == |t| % 4
    ensures DecodeLetters(g + t) == DecodeGroup(g) + DecodeLetters(t)
  {
    hide DecodeGroup, IsLetter;
    assert AllLetters(g + t);
    assert (g + t)[..4] == g && (g + t)[4..] == t;
  }

  lemma {:induction false} LettersRoundTrip(s: Bytes)
    ensures AllLetters(Encode(s)) && |Encode(s)| % 4 != 1
    ensures DecodeLetters(Encode(s)) == s
    decreases |s|
  {
    hide EncodeGroup, DecodeGroup, IsLetter;
    if |s| == 1 {
      OneByteRoundTrip(s);
    } else if |s| == 2 {
      TwoBytesRoundTrip(s);
    } else if |s| >= 3 {
      var g := EncodeGroup(s[0], s[1], s[2]);
      var t := Encode(s[3..]);
      LettersRoundTrip(s[3..]);
      assert AllLetters(g) && DecodeGroup(g) == [s[0], s[1], s[2]] by {
        GroupRoundTrip(s[0], s[1], s[2]);
      }
      DecodeCons(g, t);
      assert Encode(s) == g + t;
      assert s == [s[0], s[1], s[2]] + s[3..];
    }
  }

  /** Encoding is compositional at multiples of three bytes. */
  lemma {:induction false} EncodeAppend(a: Bytes, b: Bytes)
    requires |a| % 3 == 0
    ensures Encode(a + b) == Encode(a) + Encode(b)
    decreases |a|
  {
    hide EncodeGroup;
    if a == [] {
      assert a + b == b;
    } else {
      EncodeAppend(a[3..], b);
      assert (a + b)[3..] == a[3..] + b;
    }
  }

  /** Decoding is compositional at multiples of four letters. */
  lemma {:induction false} DecodeAppend(a: string, b: string)
    requires AllLetters(a) && AllLetters(b) && |a| % 4 == 0 && |b| % 4 != 1
    ensures AllLetters(a + b) && DecodeLetters(a + b) == DecodeLetters(a) + DecodeLetters(b)
    decreases |a|
  {
    hide DecodeGroup, IsLetter;
    assert AllLetters(a + b);
    if a == "" {
      assert a + b == b;
    } else {
      DecodeAppend(a[4..], b);
      assert (a + b)[4..] == a[4..] + b;
      assert (a + b)[..4] == a[..4];
    }
  }

  lemma {:induction false} DecodeLength(t: string)
    requires AllLetters(t) && |t| % 4 != 1
    ensures |DecodeLetters(t)| == |t| / 4 * 3 + (if |t| % 4 == 0 then 0 else |t| % 4 - 1)
    decreases |t|
  {
    hide DecodeGroup, IsLetter;
    if |t| >= 4 {
      DecodeLength(t[4..]);
    }
  }

  // ---------------------------------------------------------------- the letters and what they stand for

  /** The alphabet of section 5 of RFC 4648: A to Z, a to z, 0 to 9, - and _, each run in its order. */
  lemma LettersInOrder(v: int)
    requires 0 <= v < 64
    ensures Letter(0) == 'A' && Letter(25) == 'Z' && Letter(26) == 'a' && Letter(51) == 'z'
    ensures Letter(52) == '0' && Letter(61) == '9' && Letter(62) == '-' && Letter(63) == '_'
    ensures v !in {25, 51, 61, 62, 63} ==> Letter(v + 1) as int == Letter(v) as int + 1
    ensures IsLetter(Letter(v)) && LetterValue(Letter(v)) == v
  {
  }

  /** Twenty-four bits as three bytes, zeros where there are none. */
  function ByteGroup(s: Bytes, g: nat): int {
    FromStart(s, 3 * g) * 0x1_0000 + FromStart(s, 3 * g + 1) * 0x100 + FromStart(s, 3 * g + 2)
  }

  function FromStart(s: Bytes, i: nat): int {
    if i < |s| then s[i] else 0
  }

  /** Twenty-four bits as four letters, zeros where there are none. */
  function LetterGroup(t: string, g: nat): int
    requires AllLetters(t)
  {
    ValueAt(t, 4 * g) * 0x4_0000 + ValueAt(t, 4 * g + 1) * 0x1000 + ValueAt(t, 4 * g + 2) * 0x40 + ValueAt(t, 4 * g + 3)
  }

  function ValueAt(t: string, i: nat): int
    requires AllLetters(t)
  {
    if i < |t| then assert t[i] in t; LetterValue(t[i]) else 0
  }

  lemma SixBits(a: Byte, b: Byte, c: Byte)
    ensures a * 0x1_0000 + b * 0x100 + c
         == a / 4 * 0x4_0000 + (a % 4 * 16 + b / 16) * 0x1000 + (b % 16 * 4 + c / 64) * 0x40 + c % 64
    ensures b == 0 ==> a % 4 * 16 + b / 16 == a % 4 * 16
  {
  }

  /** The values of the letters of a group. */
  lemma GroupValues(a: Byte, b: Byte, c: Byte)
    ensures var t := EncodeGroup(a, b, c);
            && AllLetters(t) && LetterValue(t[0]) == a / 4 && LetterValue(t[1]) == a % 4 * 16 + b / 16
            && LetterValue(t[2]) == b % 16 * 4 + c / 64 && LetterValue(t[3]) == c % 64
  {
    LetterRoundTrip(a / 4);
    LetterRoundTrip(a % 4 * 16 + b / 16);
    LetterRoundTrip(b % 16 * 4 + c / 64);
    LetterRoundTrip(c % 64);
    hide Letter, LetterValue, IsLetter;
  }

  /** Encoding: every group of letters has the bits of its group of bytes, and there are no more letters than needed. */
  lemma {:induction false} EncodedGroups(s: Bytes, g: nat)
    requires 3 * g < |s|
    ensures AllLetters(Encode(s)) && |Encode(s)| == (8 * |s| + 5) / 6
    ensures LetterGroup(Encode(s), g) == ByteGroup(s, g)
    decreases |s|
  {
    hide *;
    EncodedLength(s);
    if g == 0 {
      EncodedFirst(s);
    } else {
      EncodedGroups(s[3..], g - 1);
      EncodedLater(s, g);
    }
  }

  lemma EncodedLength(s: Bytes)
    ensures AllLetters(Encode(s)) && |Encode(s)| == (8 * |s| + 5) / 6
  {
    hide *;
    EncodeGivesLetters(s);
    LettersNeeded(|s|);
  }

  lemma LettersNeeded(n: nat)
    ensures n / 3 * 4 + (if n % 3 == 0 then 0 else n % 3 + 1) == (8 * n + 5) / 6
  {
  }

  lemma EncodedFirst(s: Bytes)
    requires s != [] && AllLetters(Encode(s))
    ensures LetterGroup(Encode(s), 0) == ByteGroup(s, 0)
  {
    hide *;
    EncodeGivesLetters(s);
    var b: Byte, c: Byte := if |s| > 1 then s[1] else 0, if |s| > 2 then s[2] else 0;
    GroupValues(s[0], b, c);
    SixBits(s[0], b, c);
    FirstBytes(s, b, c);
    FirstGroup(s, s[0], b, c);
  }

  lemma FirstBytes(s: Bytes, b: Byte, c: Byte)
    requires s != [] && b == (if |s| > 1 then s[1] else 0) && c == (if |s| > 2 then s[2] else 0)
    ensures b == FromStart(s, 1) && c == FromStart(s, 2)
    ensures ByteGroup(s, 0) == s[0] as int * 0x1_0000 + b as int * 0x100 + c as int
  {
  }

  lemma EncodedLater(s: Bytes, g: nat)
    requires |s| > 3 && g > 0 && AllLetters(Encode(s)) && AllLetters(Encode(s[3..]))
    requires LetterGroup(Encode(s[3..]), g - 1) == ByteGroup(s[3..], g - 1)
    ensures LetterGroup(Encode(s), g) == ByteGroup(s, g)
  {
    var first, rest := EncodeGroup(s[0], s[1], s[2]), Encode(s[3..]);
    assert Encode(s) == first + rest;
    hide *;
    assert s == s[..3] + s[3..];
    LaterGroup(first, rest, g);
    LaterBytes(s[..3], s[3..], g);
  }

  lemma LaterBytes(first: Bytes, rest: Bytes, g: nat)
    requires |first| == 3 && g > 0
    ensures ByteGroup(first + rest, g) == ByteGroup(rest, g - 1)
  {
    assert forall i :: 3 * g <= i < 3 + |rest| ==> (first + rest)[i] == rest[i - 3];
  }

  lemma LaterGroup(first: string, rest: string, g: nat)
    requires |first| == 4 && g > 0 && AllLetters(first + rest)
    ensures AllLetters(rest) && LetterGroup(first + rest, g) == LetterGroup(rest, g - 1)
  {
    assert forall c :: c in rest ==> c in first + rest;
    hide LetterValue;
    assert forall i :: 4 * g <= i < 4 + |rest| ==> (first + rest)[i] == rest[i - 4];
  }

  lemma FirstGroup(s: Bytes, a: Byte, b: Byte, c: Byte)
    requires s != [] && a == s[0] && b == FromStart(s, 1) && c == FromStart(s, 2)
    requires AllLetters(Encode(s)) && |Encode(s)| == |s| / 3 * 4 + (if |s| % 3 == 0 then 0 else |s| % 3 + 1)
    requires var t := EncodeGroup(a, b, c);
             AllLetters(t) && LetterValue(t[0]) == a / 4 && LetterValue(t[1]) == a % 4 * 16 + b / 16
             && LetterValue(t[2]) == b % 16 * 4 + c / 64 && LetterValue(t[3]) == c % 64
    ensures LetterGroup(Encode(s), 0)
         == a / 4 * 0x4_0000 + (a % 4 * 16 + b / 16) * 0x1000 + (b % 16 * 4 + c / 64) * 0x40 + c % 64
  {
    hide LetterValue, EncodeGroup, IsLetter;
    var n := if |s| == 1 then 2 else if |s| == 2 then 3 else 4;
    assert Encode(s)[..n] == EncodeGroup(a, b, c)[..n];
    assert forall i :: 0 <= i < n ==> Encode(s)[i] == Encode(s)[..n][i];
  }

  /** The bytes that a number of letters stands for: the bits of each group, less those that do not fill a byte. */
  lemma {:induction false} DecodedGroups(t: string, g: nat)
    requires AllLetters(t) && |t| % 4 != 1 && 4 * g < |t|
    ensures |DecodeLetters(t)| == 6 * |t| / 8
    ensures ByteGroup(DecodeLetters(t), g)
         == (if 4 * g + 4 <= |t| then LetterGroup(t, g)
             else if 4 * g + 3 == |t| then LetterGroup(t, g) / 0x100 * 0x100
             else LetterGroup(t, g) / 0x1_0000 * 0x1_0000)
    decreases |t|
  {
    DecodedLength(t);
    if g == 0 {
      hide *;
      if |t| < 4 {
        ShortDecoded(t);
      } else {
        FirstDecoded(t);
      }
    } else {
      LettersAfter(t);
      hide *;
      DecodedGroups(t[4..], g - 1);
      DecodedLater(t, g);
    }
  }

  lemma DecodedLength(t: string)
    requires AllLetters(t) && |t| % 4 != 1
    ensures |DecodeLetters(t)| == 6 * |t| / 8
  {
    hide *;
    DecodeLength(t);
    BytesMeant(|t|);
  }

  lemma BytesMeant(n: nat)
    requires n % 4 != 1
    ensures n / 4 * 3 + (if n % 4 == 0 then 0 else n % 4 - 1) == 6 * n / 8
  {
  }

  lemma LettersAfter(t: string)
    requires AllLetters(t) && |t| >= 4
    ensures AllLetters(t[..4]) && AllLetters(t[4..])
  {
  }

  lemma DecodedLater(t: string, g: nat)
    requires AllLetters(t) && |t| >= 4 && |t| % 4 != 1 && g > 0 && AllLetters(t[4..])
    ensures LetterGroup(t, g) == LetterGroup(t[4..], g - 1)
    ensures ByteGroup(DecodeLetters(t), g) == ByteGroup(DecodeLetters(t[4..]), g - 1)
  {
    LettersAfter(t);
    assert DecodeLetters(t) == DecodeGroup(t[..4]) + DecodeLetters(t[4..]);
    hide *;
    assert t == t[..4] + t[4..];
    LaterGroup(t[..4], t[4..], g);
    LaterBytes(DecodeGroup(t[..4]), DecodeLetters(t[4..]), g);
  }

  lemma EightBits(w: int, x: int, y: int, z: int)
    requires 0 <= w < 64 && 0 <= x < 64 && 0 <= y < 64 && 0 <= z < 64
    ensures var n := w * 0x4_0000 + x * 0x1000 + y * 0x40 + z;
            var a, b, c := w * 4 + x / 16, x % 16 * 16 + y / 4, y % 4 * 64 + z;
            && 0 <= a < 256 && 0 <= b < 256 && 0 <= c < 256
            && n == a * 0x1_0000 + b * 0x100 + c && n / 0x100 == a * 0x100 + b && n / 0x1_0000 == a
  {
  }

  lemma GroupDecoded(u: string)
    requires |u| == 4 && AllLetters(u)
    ensures var d, n := DecodeGroup(u), LetterGroup(u, 0);
            && n == d[0] as int * 0x1_0000 + d[1] as int * 0x100 + d[2] as int
            && n / 0x100 * 0x100 == d[0] as int * 0x1_0000 + d[1] as int * 0x100
            && n / 0x1_0000 * 0x1_0000 == d[0] as int * 0x1_0000
  {
    hide LetterValue, IsLetter;
    EightBits(LetterValue(u[0]), LetterValue(u[1]), LetterValue(u[2]), LetterValue(u[3]));
  }

  lemma PaddedLetters(t: string, pad: string)
    requires AllLetters(t) && (pad == "A" || pad == "AA" || pad == "") && |t| + |pad| == 4
    ensures AllLetters(t + pad) && LetterGroup(t + pad, 0) == LetterGroup(t, 0)
  {
    assert IsLetter('A') && LetterValue('A') == 0;
    hide LetterValue, IsLetter;
    assert AllLetters(t + pad);
    assert forall i :: 0 <= i < 4 ==> ValueAt(t + pad, i) == ValueAt(t, i);
  }

  lemma FirstFour(t: string)
    requires AllLetters(t) && |t| >= 4
    ensures AllLetters(t[..4]) && LetterGroup(t[..4], 0) == LetterGroup(t, 0)
  {
    hide LetterValue, IsLetter;
    assert AllLetters(t[..4]);
    assert forall i :: 0 <= i < 4 ==> ValueAt(t[..4], i) == ValueAt(t, i);
  }

  lemma ShortDecoded(t: string)
    requires AllLetters(t) && 2 <= |t| < 4
    ensures ByteGroup(DecodeLetters(t), 0)
         == (if |t| == 3 then LetterGroup(t, 0) / 0x100 * 0x100 else LetterGroup(t, 0) / 0x1_0000 * 0x1_0000)
  {
    var pad := if |t| == 2 then "AA" else "A";
    PaddedLetters(t, pad);
    GroupDecoded(t + pad);
    var d, r := DecodeGroup(t + pad), DecodeLetters(t);
    assert r == d[..|t| - 1];
    hide DecodeGroup, LetterGroup, AllLetters, DecodeLetters;
    BytesTaken(d, |t| - 1);
  }

  lemma BytesTaken(d: Bytes, n: nat)
    requires |d| == 3 && 1 <= n < 3
    ensures ByteGroup(d[..n], 0) == d[0] as int * 0x1_0000 + if n == 2 then d[1] as int * 0x100 else 0
  {
  }

  lemma FirstDecoded(t: string)
    requires AllLetters(t) && |t| % 4 != 1 && |t| >= 4
    ensures ByteGroup(DecodeLetters(t), 0) == LetterGroup(t, 0)
  {
    LettersAfter(t);
    FirstFour(t);
    GroupDecoded(t[..4]);
    assert DecodeLetters(t) == DecodeGroup(t[..4]) + DecodeLetters(t[4..]);
    hide *;
    BytesInFront(DecodeGroup(t[..4]), DecodeLetters(t[4..]));
  }

  lemma BytesInFront(d: Bytes, e: Bytes)
    requires |d| == 3
    ensures ByteGroup(d + e, 0) == d[0] as int * 0x1_0000 + d[1] as int * 0x100 + d[2] as int
  {
  }

  /** Spaces and line ends do not matter, wherever they stand. */
  lemma {:induction false} SpacesGo(a: string, c: char, b: string)
    requires c == ' ' || c == '\n' || c == '\r'
    ensures Decode(a + [c] + b) == Decode(a + b)
  {
    StrippedWithout(a, c, b);
    hide StripWhitespace;
  }

  lemma {:induction false} StrippedWithout(a: string, c: char, b: string)
    requires c == ' ' || c == '\n' || c == '\r'
    ensures StripWhitespace(a + [c] + b) == StripWhitespace(a + b)
    decreases |a|
  {
    if a == "" {
      assert a + b == b && (a + [c] + b)[1..] == b;
    } else {
      assert (a + [c] + b)[1..] == a[1..] + [c] + b && (a + b)[1..] == a[1..] + b;
      StrippedWithout(a[1..], c, b);
    }
  }

  /** A text is decoded exactly when everything else in it is a letter, and not one letter more than whole groups. */
  lemma DecodeAccepts(t: string)
    ensures Decode(t).Ok? <==> (forall c :: c in t ==> IsLetter(c) || c in " \n\r") && LetterCount(t) % 4 != 1
  {
    LettersStay(t);
  }

  /** How many letters a text has. */
  function LetterCount(t: string): nat {
    if t == "" then 0 else (if IsLetter(t[0]) then 1 else 0) + LetterCount(t[1..])
  }

  lemma {:induction false} LettersStay(t: string)
    ensures AllLetters(StripWhitespace(t)) <==> forall c :: c in t ==> IsLetter(c) || c in " \n\r"
    ensures AllLetters(StripWhitespace(t)) ==> |StripWhitespace(t)| == LetterCount(t)
  {
    if t != "" {
      LettersStay(t[1..]);
      assert t == [t[0]] + t[1..];
      var rest := StripWhitespace(t[1..]);
      assert forall c :: c in [t[0]] + rest <==> c == t[0] || c in rest;
    }
  }

  /**
   Decoding in groups of four characters, as a stream does, needs text without spaces: this one decodes as a whole,
   but its first group takes three letters and leaves one, which alone is an error.
   */
  lemma SpacesBreakChunking()
    ensures Decode("AA AA").Ok? && Decode("AA AA"[..4]).Ok? && Decode("AA AA"[4..]).Err?
    ensures |Decode("AA AA").value| == 3 && |Decode("AA AA"[..4]).value| == 2
  {
    SpaceGoes("AA", "AA");
    SpaceGoes("AA", "A");
    assert "AA AA" == "AA" + " " + "AA" && "AA AA"[..4] == "AA" + " " + "A" && "AA AA"[4..] == "A";
    DecodeLength("AA" + "AA");
    DecodeLength("AA" + "A");
    DecodeOfLetters("A");
  }

  lemma {:induction false} SpaceGoes(a: string, b: string)
    requires AllLetters(a) && AllLetters(b)
    ensures StripWhitespace(a + " " + b) == a + b && AllLetters(a + b)
  {
    var t := a + " " + b;
    if a == "" {
      assert t[0] == ' ' && t[1..] == b;
      StripNothing(b);
    } else {
      assert IsLetter(a[0]);
      assert t[0] == a[0] && t[1..] == a[1..] + " " + b;
      SpaceGoes(a[1..], b);
    }
  }
}
