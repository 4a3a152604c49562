/**
 The lexical level of JSON: how integers and strings are written, and how the tokens of a text are
 recognised. A text is a C string: it holds no NUL, and reading at its end gives NUL.
 Every scanning function says how many characters of the rest of the text it takes.
 */
module JsonText {
  import opened Prelude

  const NUL: char := 0 as char

  type CString = s: string | NUL !in s

  /** The contents of a std::string up to its first NUL. */
  function CStr(s: string): (r: CString)
    ensures r <= s && (|r| < |s| ==> s[|r|] == NUL)
  {
    if s == "" || s[0] == NUL then "" else [s[0]] + CStr(s[1..])
  }

  function At(t: CString, i: nat): (c: char)
    ensures c != NUL <==> i < |t|
  {
    if i < |t| then assert t[i] in t; t[i] else NUL
  }

  function Rest(t: CString, n: nat): (r: CString)
    requires n <= |t|
    ensures |r| == |t| - n
  {
    assert forall c :: c in t[n..] ==> c in t;
    t[n..]
  }

  // ---------------------------------------------------------------- integers

  predicate IsDigit(c: char) {
    '0' <= c <= '9'
  }

  function DigitChar(d: nat): (c: char)
    requires d < 10
    ensures IsDigit(c) && c as int - '0' as int == d
  {
    ('0' as int + d) as char
  }

  function NatToString(n: nat): (s: string)
    ensures s != "" && (forall c :: c in s ==> IsDigit(c))
    ensures s[0] == '0' ==> n == 0 && |s| == 1
  {
    if n < 10 then [DigitChar(n)] else NatToString(n / 10) + [DigitChar(n % 10)]
  }

  function IntToString(n: int): (s: string) {
    if n < 0 then "-" + NatToString(-n) else NatToString(n)
  }

  const INT32_MIN: int := -0x8000_0000
  const INT32_MAX: int := 0x7FFF_FFFF

  function Saturate(n: int): int {
    if n < INT32_MIN then INT32_MIN else if n > INT32_MAX then INT32_MAX else n
  }

  /** How many digits the text starts with. */
  function DigitCount(t: string): (n: nat)
    ensures n <= |t| && forall i :: 0 <= i < n ==> IsDigit(t[i])
    ensures n < |t| ==> !IsDigit(t[n])
  {
    if t != "" && IsDigit(t[0]) then 1 + DigitCount(t[1..]) else 0
  }

  function DigitsValue(s: string): nat
    requires forall c :: c in s ==> IsDigit(c)
  {
    if s == "" then 0
    else
      assert s[|s| - 1] in s && IsDigit(s[|s| - 1]);
      assert forall c :: c in s[..|s| - 1] ==> c in s;
      DigitsValue(s[..|s| - 1]) * 10 + (s[|s| - 1] as int - '0' as int)
  }

  /** strto32 on a number token: the leading integer, saturated. */
  function IntValue(s: string): int {
    var digits := if s != "" && s[0] == '-' then s[1..] else s;
    var n: int := DigitsValue(digits[..DigitCount(digits)]);
    Saturate(if s != "" && s[0] == '-' then -n else n)
  }

  lemma {:induction false} DigitsValueOfString(n: nat)
    ensures DigitsValue(NatToString(n)) == n
  {
    if n >= 10 {
      DigitsValueOfString(n / 10);
      var s := NatToString(n);
      assert s[..|s| - 1] == NatToString(n / 10);
    }
  }

  lemma {:induction false} DigitCountAppend(s: string, r: string)
    requires forall c :: c in s ==> IsDigit(c)
    requires r != "" ==> !IsDigit(r[0])
    ensures DigitCount(s + r) == |s|
  {
    if s == "" {
      assert s + r == r;
    } else {
      assert (s + r)[1..] == s[1..] + r;
      DigitCountAppend(s[1..], r);
    }
  }

  /** Reading back a written int32 gives it again. */
  lemma IntRoundTrip(n: int)
    requires INT32_MIN <= n <= INT32_MAX
    ensures IntValue(IntToString(n)) == n
  {
    var m := if n < 0 then -n else n;
    var s := NatToString(m);
    DigitsValueOfString(m);
    DigitCountAppend(s, "");
    assert s + "" == s && s[..|s|] == s;
    assert IsDigit(s[0]);
    if n < 0 {
      assert IntToString(n)[1..] == s;
    }
  }

  /** ReadInt: a nonempty run of digits. */
  function ReadInt(t: string, canHaveLeadingZeros: bool): Option<nat> {
    var len := DigitCount(t);
    if len == 0 || (!canHaveLeadingZeros && len > 1 && t[0] == '0') then None else Some(len)
  }

  /** The length of the number token that the text starts with. */
  function NumberLength(t: CString): (r: Option<nat>)
    ensures r.Some? ==> 0 < r.value <= |t|
  {
    var sign := if At(t, 0) == '-' then 1 else 0;
    match ReadInt(Rest(t, sign), false)
    case None => None
    case Some(digits) =>
      var n := sign + digits;
      match FractionLength(Rest(t, n))
      case None => None
      case Some(fraction) =>
        match ExponentLength(Rest(t, n + fraction))
        case None => None
        case Some(exponent) => Some(n + fraction + exponent)
  }

  function FractionLength(t: CString): (r: Option<nat>)
    ensures r.Some? ==> r.value <= |t|
  {
    if At(t, 0) != '.' then Some(0)
    else match ReadInt(Rest(t, 1), true)
         case None => None
         case Some(digits) => Some(1 + digits)
  }

  function ExponentLength(t: CString): (r: Option<nat>)
    ensures r.Some? ==> r.value <= |t|
  {
    if At(t, 0) != 'e' && At(t, 0) != 'E' then Some(0)
    else
      var sign := if At(t, 1) == '-' || At(t, 1) == '+' then 2 else 1;
      match ReadInt(Rest(t, sign), true)
      case None => None
      case Some(digits) => Some(sign + digits)
  }

  /** What may follow an integer without becoming part of its token. */
  predicate EndsNumber(r: CString) {
    !IsDigit(At(r, 0)) && At(r, 0) != '.' && At(r, 0) != 'e' && At(r, 0) != 'E'
  }

  lemma IntHasNoNul(n: int)
    ensures NUL !in IntToString(n)
  {
    hide NatToString;
    assert !IsDigit(NUL);
  }

  lemma IntIsToken(n: int, r: CString)
    requires EndsNumber(r)
    ensures NUL !in IntToString(n) + r && NumberLength(IntToString(n) + r) == Some(|IntToString(n)|)
  {
    hide NatToString, DigitCount;
    var m := if n < 0 then -n else n;
    var s := NatToString(m);
    IntHasNoNul(n);
    var t: CString := IntToString(n) + r;
    var sign := if n < 0 then 1 else 0;
    assert IsDigit(s[0]);
    assert At(t, 0) == if n < 0 then '-' else s[0];
    assert Rest(t, sign) == s + r;
    DigitCountAppend(s, r);
    assert (s + r)[0] == s[0];
    assert ReadInt(s + r, false) == Some(|s|);
    assert Rest(t, sign + |s|) == r;
    assert Rest(r, 0) == r;
  }

  // ---------------------------------------------------------------- strings

  predicate IsHexDigit(c: char) {
    '0' <= c <= '9' || 'a' <= c <= 'f' || 'A' <= c <= 'F'
  }

  /** HexToInt; its last case is never reached on a hexadecimal digit. */
  function HexToInt(c: char): (n: nat)
    requires IsHexDigit(c)
    ensures n < 16
  {
    if '0' <= c <= '9' then c as int - '0' as int
    else if 'A' <= c <= 'F' then c as int - 'A' as int + 10
    else c as int - 'a' as int + 10
  }

  function HexDigit(n: nat): (c: char)
    requires n < 16
    ensures IsHexDigit(c) && HexToInt(c) == n
  {
    if n < 10 then ('0' as int + n) as char else ('A' as int + (n - 10)) as char
  }

  /** The letter of a single-letter escape, if the character has one. */
  function EscapeLetter(c: char): Option<char> {
    if c == 8 as char then Some('b')
    else if c == 12 as char then Some('f')
    else if c == '\n' then Some('n')
    else if c == '\r' then Some('r')
    else if c == '\t' then Some('t')
    else if c == 11 as char then Some('v')
    else if c == '\\' then Some('\\')
    else if c == '"' then Some('"')
    else None
  }

  function EscapeChar(c: char): (s: string)
    ensures s != "" && NUL !in s
  {
    match EscapeLetter(c)
    case Some(letter) => ['\\', letter]
    case None =>
      if c as int < 32 || c as int == 127 then
        ['\\', 'x', HexDigit(c as int / 16), HexDigit(c as int % 16)]
      else [c]
  }

  function Escape(s: string): (r: string)
    ensures NUL !in r
  {
    if s == "" then "" else EscapeChar(s[0]) + Escape(s[1..])
  }

  /** JavascriptDoubleQuote with quotes. */
  function Quote(s: string): (r: string)
    ensures NUL !in r && |r| >= 2
  {
    "\"" + Escape(s) + "\""
  }

  /** The meaning of the letter after a backslash, other than x and u. */
  function SimpleEscape(c: char): Option<char> {
    if c == '\\' || c == '/' || c == '"' then Some(c)
    else if c == 'b' then Some(8 as char)
    else if c == 'f' then Some(12 as char)
    else if c == 'n' then Some('\n')
    else if c == 'r' then Some('\r')
    else if c == 't' then Some('\t')
    else if c == 'v' then Some(11 as char)
    else None
  }

  predicate HexDigitsAt(t: CString, i: nat, count: nat) {
    forall k :: i <= k < i + count ==> IsHexDigit(At(t, k))
  }

  /** The length of the plain or escaped character at the front of a string's text; None if not valid. */
  function UnitLength(t: CString): (r: Option<nat>)
    requires t != ""
    ensures r.Some? ==> 0 < r.value <= |t|
  {
    if t[0] != '\\' then Some(1)
    else if At(t, 1) == 'x' then (if HexDigitsAt(t, 2, 2) then assert IsHexDigit(At(t, 3)); Some(4) else None)
    else if At(t, 1) == 'u' then (if HexDigitsAt(t, 2, 4) then assert IsHexDigit(At(t, 5)); Some(6) else None)
    else if SimpleEscape(At(t, 1)).Some? then Some(2)
    else None
  }

  /** The character it stands for; the value of a \u escape is cut to one byte. */
  function UnitValue(t: CString): char
    requires t != "" && UnitLength(t).Some?
  {
    if t[0] != '\\' then t[0]
    else if At(t, 1) == 'x' then HexValue(t, 2, 2) as char
    else if At(t, 1) == 'u' then (HexValue(t, 2, 4) % 256) as char
    else SimpleEscape(At(t, 1)).value
  }

  /** The number written by some hexadecimal digits. */
  function HexValue(t: CString, i: nat, count: nat): (n: nat)
    requires HexDigitsAt(t, i, count)
    ensures count == 2 ==> n < 256
    ensures count == 1 ==> n < 16
    decreases count
  {
    if count == 0 then 0
    else if count == 1 then HexToInt(At(t, i))
    else HexValue(t, i, count - 1) * 16 + HexToInt(At(t, i + count - 1))
  }

  /** The characters up to and including the closing quote; None for an unfinished or invalid string. */
  function StringLength(t: CString): (r: Option<nat>)
    ensures r.Some? ==> 0 < r.value <= |t|
  {
    if t == "" then None
    else if t[0] == '"' then Some(1)
    else match UnitLength(t)
         case None => None
         case Some(n) =>
           match StringLength(Rest(t, n))
           case None => None
           case Some(m) => Some(n + m)
  }

  /** The string before the closing quote, decoded. */
  function Unescape(t: CString): string
    requires StringLength(t).Some?
  {
    if t[0] == '"' then ""
    else [UnitValue(t)] + Unescape(Rest(t, UnitLength(t).value))
  }

  lemma EscapedCharIsUnit(c: char, r: CString)
    ensures NUL !in EscapeChar(c) + r
    ensures UnitLength(EscapeChar(c) + r) == Some(|EscapeChar(c)|)
    ensures UnitValue(EscapeChar(c) + r) == c
    ensures (EscapeChar(c) + r)[0] != '"'
  {
    var t: CString := EscapeChar(c) + r;
    if EscapeLetter(c).None? && (c as int < 32 || c as int == 127) {
      assert At(t, 1) == 'x' && At(t, 2) == HexDigit(c as int / 16) && At(t, 3) == HexDigit(c as int % 16);
      assert HexDigitsAt(t, 2, 2);
      assert HexValue(t, 2, 1) == c as int / 16;
      assert HexValue(t, 2, 2) == c as int;
    } else if EscapeLetter(c).Some? {
      assert At(t, 1) == EscapeLetter(c).value;
    }
  }

  /** Every quoted string is one token, and its text decodes to the string. */
  lemma {:induction false} EscapeRoundTrip(s: string, r: CString)
    ensures NUL !in Escape(s) + "\"" + r
    ensures StringLength(Escape(s) + "\"" + r) == Some(|Escape(s)| + 1)
    ensures Unescape(Escape(s) + "\"" + r) == s
  {
    hide EscapeChar, UnitLength, UnitValue;
    var t: CString := Escape(s) + "\"" + r;
    if s == "" {
      assert t == "\"" + r;
    } else {
      var rest: CString := Escape(s[1..]) + "\"" + r;
      assert t == EscapeChar(s[0]) + rest;
      EscapedCharIsUnit(s[0], rest);
      assert Rest(t, |EscapeChar(s[0])|) == rest;
      EscapeRoundTrip(s[1..], r);
    }
  }
}
