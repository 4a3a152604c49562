/**
 The grammar of the texts that are accepted, written down without a parser: spaces and comments, numbers, strings,
 and the layout of lists and dictionaries, with the value that each stands for.
 */
module JsonSyntax {
  import opened Prelude
  import opened JsonText
  import opened JsonGrammar

  // ---------------------------------------------------------------- spaces and comments

  datatype Piece = White(c: char) | Line(body: string, end: char) | Block(body: string)

  type Space = seq<Piece>

  predicate IsPiece(p: Piece) {
    match p
    case White(c) => c in " \t\r\n"
    case Line(body, end) => end in "\r\n" && OneLine(body)
    case Block(body) => Open(body + "*")
  }

  predicate OneLine(body: string) {
    '\r' !in body && '\n' !in body
  }

  /** The end of a block comment does not occur. */
  predicate Open(body: string) {
    forall i :: 0 <= i < |body| - 1 ==> !(body[i] == '*' && body[i + 1] == '/')
  }

  function PieceText(p: Piece): string {
    match p
    case White(c) => [c]
    case Line(body, end) => "//" + body + [end]
    case Block(body) => "/*" + body + "*/"
  }

  predicate IsSpaces(s: Space) {
    forall p :: p in s ==> IsPiece(p)
  }

  /** The space, followed by some text. */
  function SpaceText(s: Space, r: string): string {
    if s == [] then r else PieceText(s[0]) + SpaceText(s[1..], r)
  }

  /** What may stand at the very end: a comment need not be finished there. */
  predicate IsTail(tail: string) {
    || tail == ""
    || ("//" <= tail && OneLine(tail[2..]))
    || ("/*" <= tail && Open(tail[2..]))
  }

  // ---------------------------------------------------------------- numbers

  datatype Exponent = Exponent(e: char, sign: string, digits: string)

  datatype Numeral = Numeral(minus: bool, whole: string, fraction: Option<string>, exponent: Option<Exponent>)

  predicate AreDigits(s: string) {
    s != "" && forall c :: c in s ==> '0' <= c <= '9'
  }

  predicate IsNumeral(n: Numeral) {
    && AreDigits(n.whole) && (n.whole[0] == '0' ==> |n.whole| == 1)
    && (n.fraction.Some? ==> AreDigits(n.fraction.value))
    && (n.exponent.Some? ==>
          var e := n.exponent.value; e.e in "eE" && e.sign in {"", "+", "-"} && AreDigits(e.digits))
  }

  function FractionText(n: Numeral): string {
    if n.fraction.Some? then "." + n.fraction.value else ""
  }

  function ExponentText(n: Numeral): string {
    if n.exponent.Some? then [n.exponent.value.e] + n.exponent.value.sign + n.exponent.value.digits else ""
  }

  function NumeralText(n: Numeral): string {
    (if n.minus then "-" else "") + n.whole + FractionText(n) + ExponentText(n)
  }

  function Power10(k: nat): nat {
    if k == 0 then 1 else 10 * Power10(k - 1)
  }

  /** The sum of each digit times its weight. */
  function Decimal(s: string): int {
    if s == "" then 0 else (s[0] as int - '0' as int) * Power10(|s| - 1) + Decimal(s[1..])
  }

  /** The whole part, cut to 32 bits; fraction and exponent do not matter. */
  function NumeralValue(n: Numeral): int {
    var m := if n.minus then -Decimal(n.whole) else Decimal(n.whole);
    Max(-0x8000_0000, Min(m, 0x7FFF_FFFF))
  }

  // ---------------------------------------------------------------- strings

  datatype Unit = Plain(c: char) | Short(letter: char) | Hex2(a: char, b: char) | Hex4(a: char, b: char, c: char, d: char)

  predicate IsHex(c: char) {
    c in "0123456789abcdefABCDEF"
  }

  predicate IsUnit(u: Unit) {
    match u
    case Plain(c) => c != '"' && c != '\\'
    case Short(letter) => letter in "\\/\"bfnrtv"
    case Hex2(a, b) => IsHex(a) && IsHex(b)
    case Hex4(a, b, c, d) => IsHex(a) && IsHex(b) && IsHex(c) && IsHex(d)
  }

  function UnitText(u: Unit): string {
    match u
    case Plain(c) => [c]
    case Short(letter) => "\\" + [letter]
    case Hex2(a, b) => "\\x" + [a, b]
    case Hex4(a, b, c, d) => "\\u" + [a, b, c, d]
  }

  function HexNumber(c: char): nat {
    if '0' <= c <= '9' then c as int - 48 else if 'a' <= c <= 'f' then c as int - 87 else if 'A' <= c <= 'F' then c as int - 55 else 0
  }

  /** The digits in order, in lower and in upper case. */
  lemma HexNumbersInOrder(n: nat)
    requires n < 16
    ensures HexNumber("0123456789abcdef"[n]) == n && HexNumber("0123456789ABCDEF"[n]) == n
  {
  }

  /** What a unit stands for; of four hexadecimal digits only the last two matter. */
  function UnitMeans(u: Unit): int {
    match u
    case Plain(c) => c as int
    case Short(letter) =>
      (match letter
       case 'b' => 8
       case 't' => 9
       case 'n' => 10
       case 'v' => 11
       case 'f' => 12
       case 'r' => 13
       case _ => letter as int)
    case Hex2(a, b) => 16 * HexNumber(a) + HexNumber(b)
    case Hex4(a, b, c, d) => 16 * HexNumber(c) + HexNumber(d)
  }

  predicate AreUnits(units: seq<Unit>) {
    forall u :: u in units ==> IsUnit(u)
  }

  /** The units and the closing quote, followed by some text. */
  function UnitsText(units: seq<Unit>, r: string): string {
    if units == [] then "\"" + r else UnitText(units[0]) + UnitsText(units[1..], r)
  }

  predicate UnitsMean(units: seq<Unit>, s: string) {
    |s| == |units| && forall i :: 0 <= i < |units| ==> s[i] as int == UnitMeans(units[i])
  }

  // ---------------------------------------------------------------- the tokens are recognised

  lemma {:induction false} SpaceTaken(s: Space, r: string, t: CString)
    requires IsSpaces(s) && t == SpaceText(s, r)
    ensures NUL !in r && SkipSpace(t) == SkipSpace(r)
    decreases |s|
  {
    if s != [] {
      var p, rest := s[0], SpaceText(s[1..], r);
      assert p in s;
      assert NUL !in rest by { assert forall c :: c in rest ==> c in t; }
      PieceTaken(p, rest, t);
      SpaceTaken(s[1..], r, rest);
    }
  }

  lemma PieceTaken(p: Piece, r: CString, t: CString)
    requires IsPiece(p) && t == PieceText(p) + r
    ensures SkipSpace(t) == SkipSpace(r)
  {
    hide SkipSpace, CommentLength, OneLine, Open;
    match p
    case White(c) =>
      assert Rest(t, 1) == r;
      SkipMore(t, 1);
    case Line(body, end) =>
      LineIsComment(body, end, r, t);
      SkipMore(t, 3 + |body|);
    case Block(body) =>
      BlockIsComment(body, r, t);
      SkipMore(t, 4 + |body|);
  }

  lemma LineIsComment(body: string, end: char, r: string, t: CString)
    requires end in "\r\n" && OneLine(body) && t == "//" + body + [end] + r
    ensures CommentLength(t) == Some(3 + |body|) && Rest(t, 3 + |body|) == r
  {
    hide OneLine, LineLength;
    var inner: CString := Rest(t, 2);
    assert inner == body + ([end] + r);
    LineTaken(body, end, r, inner);
  }

  lemma BlockIsComment(body: string, r: string, t: CString)
    requires Open(body + "*") && t == "/*" + body + "*/" + r
    ensures CommentLength(t) == Some(4 + |body|) && Rest(t, 4 + |body|) == r
  {
    hide Open, BlockLength;
    var inner: CString := Rest(t, 2);
    assert inner == body + ("*/" + r);
    BlockTaken(body, r, inner);
  }

  lemma SkipMore(t: CString, n: nat)
    requires 0 < n <= |t|
    requires (n == 1 && IsSpace(t[0])) || (!IsSpace(t[0]) && CommentLength(t) == Some(n))
    ensures SkipSpace(t) == SkipSpace(Rest(t, n))
  {
    hide CommentLength;
    var m := SpaceLength(Rest(t, n));
    assert SpaceLength(t) == n + m;
    assert Rest(t, n + m) == Rest(Rest(t, n), m);
  }

  lemma {:induction false} LineTaken(body: string, end: char, r: string, t: CString)
    requires end in "\r\n" && OneLine(body) && t == body + ([end] + r)
    ensures LineLength(t) == |body| + 1
    decreases |body|
  {
    if body != "" {
      assert body[0] in body && t[0] == body[0];
      assert Rest(t, 1) == body[1..] + ([end] + r);
      LineTaken(body[1..], end, r, Rest(t, 1));
    }
  }

  lemma {:induction false} BlockTaken(body: string, r: string, t: CString)
    requires Open(body + "*") && t == body + ("*/" + r)
    ensures BlockLength(t) == |body| + 2
    decreases |body|
  {
    if body != "" {
      var b := body + "*";
      assert !(b[0] == '*' && b[1] == '/');
      assert t[0] == b[0] && At(t, 1) == b[1];
      assert forall i :: 0 <= i < |body| - 1 ==> body[1..][i] == b[i + 1];
      assert body[1..] + "*" == b[1..];
      assert Rest(t, 1) == body[1..] + ("*/" + r);
      BlockTaken(body[1..], r, Rest(t, 1));
    }
  }

  // ---------------------------------------------------------------- what is skipped is space

  lemma {:induction false} LineFound(t: CString)
    ensures var n := LineLength(t);
            || (n == |t| && OneLine(t))
            || (n > 0 && t[n - 1] in "\r\n" && OneLine(t[..n - 1]))
    decreases |t|
  {
    if t != "" && t[0] != '\n' && t[0] != '\r' {
      LineFound(Rest(t, 1));
      var n := LineLength(Rest(t, 1));
      assert t == [t[0]] + Rest(t, 1);
      if n > 0 {
        assert t[..n] == [t[0]] + Rest(t, 1)[..n - 1];
      }
    }
  }

  lemma {:induction false} BlockFound(t: CString)
    ensures var n := BlockLength(t);
            || (n == |t| && Open(t))
            || (n >= 2 && t[n - 2] == '*' && t[n - 1] == '/' && Open(t[..n - 1]))
    decreases |t|
  {
    if t != "" && !(t[0] == '*' && At(t, 1) == '/') {
      var u := Rest(t, 1);
      BlockFound(u);
      var n := BlockLength(u);
      assert forall i :: 0 <= i < |u| ==> u[i] == t[i + 1];
      assert Open(u) ==> Open(t);
      if n >= 2 && Open(u[..n - 1]) {
        assert t[..n] == [t[0]] + u[..n - 1];
        assert Open(t[..n]);
      }
    }
  }

  /** The comment at the front of a text is a piece of space, or the unfinished end. */
  lemma CommentFound(t: CString) returns (p: Option<Piece>)
    requires CommentLength(t).Some?
    ensures p.Some? ==> IsPiece(p.value) && t == PieceText(p.value) + Rest(t, CommentLength(t).value)
    ensures p.None? ==> CommentLength(t).value == |t| && IsTail(t)
  {
    hide OneLine, Open, LineLength, BlockLength;
    if t[1] == '/' {
      p := LineCommentFound(t, Rest(t, 2));
    } else {
      p := BlockCommentFound(t, Rest(t, 2));
    }
  }

  lemma LineCommentFound(t: CString, inner: CString) returns (p: Option<Piece>)
    requires t == "//" + inner
    ensures p.Some? ==> IsPiece(p.value) && t == PieceText(p.value) + inner[LineLength(inner)..]
    ensures p.None? ==> LineLength(inner) == |inner| && IsTail(t)
  {
    hide OneLine, LineLength;
    LineFound(inner);
    var n := LineLength(inner);
    if n == |inner| && OneLine(inner) {
      assert "//" <= t && t[2..] == inner;
      return None;
    }
    p := Some(Line(inner[..n - 1], inner[n - 1]));
    assert inner == inner[..n - 1] + [inner[n - 1]] + inner[n..];
  }

  lemma BlockCommentFound(t: CString, inner: CString) returns (p: Option<Piece>)
    requires t == "/*" + inner
    ensures p.Some? ==> IsPiece(p.value) && t == PieceText(p.value) + inner[BlockLength(inner)..]
    ensures p.None? ==> BlockLength(inner) == |inner| && IsTail(t)
  {
    hide Open, BlockLength;
    BlockFound(inner);
    var n := BlockLength(inner);
    if n == |inner| && Open(inner) {
      assert "/*" <= t && t[2..] == inner;
      return None;
    }
    p := Some(Block(inner[..n - 2]));
    assert inner[..n - 2] + "*" == inner[..n - 1];
    assert inner == inner[..n - 2] + "*/" + inner[n..];
  }

  /** Everything skipped is a space, or an unfinished end if nothing follows. */
  lemma {:induction false} SpaceFound(t: CString) returns (s: Space, tail: string)
    ensures IsSpaces(s) && t == SpaceText(s, tail)
    ensures SkipSpace(t) != "" ==> tail == SkipSpace(t)
    ensures SkipSpace(t) == "" ==> IsTail(tail)
    decreases |t|
  {
    s, tail := [], t;
    if t != "" {
      if IsSpace(t[0]) {
        SkipMore(t, 1);
        var more;
        more, tail := SpaceFound(Rest(t, 1));
        s := ConsSpace(White(t[0]), more, tail, t);
      } else if CommentLength(t).Some? {
        var n := CommentLength(t).value;
        SkipMore(t, n);
        var p := CommentFound(t);
        if p.Some? {
          var more;
          more, tail := SpaceFound(Rest(t, n));
          s := ConsSpace(p.value, more, tail, t);
        }
      }
    }
  }

  lemma ConsSpace(p: Piece, more: Space, tail: string, t: string) returns (s: Space)
    requires IsPiece(p) && IsSpaces(more) && t == PieceText(p) + SpaceText(more, tail)
    ensures IsSpaces(s) && t == SpaceText(s, tail)
  {
    s := [p] + more;
    assert s[0] == p && s[1..] == more;
  }

  /** An unfinished end is skipped to its end. */
  lemma TailTaken(tail: CString)
    requires IsTail(tail)
    ensures SkipSpace(tail) == ""
  {
    if tail != "" {
      var inner := Rest(tail, 2);
      if tail[1] == '/' {
        UnfinishedLine(inner);
      } else {
        UnfinishedBlock(inner);
      }
      assert CommentLength(tail) == Some(|tail|);
      SkipMore(tail, |tail|);
    }
  }

  lemma {:induction false} UnfinishedLine(t: CString)
    requires OneLine(t)
    ensures LineLength(t) == |t|
    decreases |t|
  {
    if t != "" {
      assert t[0] in t;
      UnfinishedLine(Rest(t, 1));
    }
  }

  lemma {:induction false} UnfinishedBlock(t: CString)
    requires Open(t)
    ensures BlockLength(t) == |t|
    decreases |t|
  {
    if t != "" {
      var u := Rest(t, 1);
      assert forall i :: 0 <= i < |u| ==> u[i] == t[i + 1];
      UnfinishedBlock(u);
    }
  }

  // ---------------------------------------------------------------- numbers are recognised

  lemma {:induction false} DecimalSnoc(s: string, c: char)
    requires forall d :: d in s ==> IsDigit(d)
    ensures Decimal(s + [c]) == Decimal(s) * 10 + (c as int - '0' as int)
  {
    if s == "" {
      assert [c][1..] == [] && Power10(0) == 1;
    } else {
      assert (s + [c])[0] == s[0] && (s + [c])[1..] == s[1..] + [c];
      DecimalSnoc(s[1..], c);
      WeightMoves(s[0] as int - '0' as int, |s|);
    }
  }

  lemma WeightMoves(d: int, k: nat)
    requires k > 0
    ensures d * Power10(k) == d * Power10(k - 1) * 10
  {
    var p := Power10(k - 1);
    assert Power10(k) == 10 * p;
    assert d * (10 * p) == d * p * 10;
  }

  /** The value that is read for some digits is the sum of their weights. */
  lemma {:induction false} DigitsAreDecimal(s: string)
    requires forall c :: c in s ==> IsDigit(c)
    ensures DigitsValue(s) == Decimal(s)
    decreases |s|
  {
    if s != "" {
      var front, last := s[..|s| - 1], s[|s| - 1];
      assert s == front + [last];
      assert forall c :: c in front ==> c in s;
      DigitsAreDecimal(front);
      DecimalSnoc(front, last);
    }
  }

  predicate Before(a: string, r: string, t: string) {
    t == a + r
  }

  lemma DigitsTaken(s: string, r: CString, t: CString, zeros: bool)
    requires AreDigits(s) && Before(s, r, t) && !IsDigit(At(r, 0)) && (zeros || (s[0] == '0' ==> |s| == 1))
    ensures ReadInt(t, zeros) == Some(|s|)
    ensures Rest(t, |s|) == r
  {
    assert r != "" ==> At(r, 0) == r[0];
    DigitCountAppend(s, r);
    assert t[0] == s[0];
  }

  lemma FractionTaken(n: Numeral, r: CString, t: CString)
    requires IsNumeral(n) && Before(FractionText(n), r, t) && !IsDigit(At(r, 0)) && At(r, 0) != '.'
    ensures FractionLength(t) == Some(|FractionText(n)|)
    ensures Rest(t, |FractionText(n)|) == r
    ensures !IsDigit(At(t, 0))
  {
    hide ReadInt, AreDigits;
    if n.fraction.Some? {
      var u := Rest(t, 1);
      assert u == n.fraction.value + r;
      DigitsTaken(n.fraction.value, r, u, true);
    } else {
      assert t == r;
    }
  }

  lemma ExponentTaken(n: Numeral, r: CString, t: CString)
    requires IsNumeral(n) && Before(ExponentText(n), r, t) && EndsNumber(r)
    ensures ExponentLength(t) == Some(|ExponentText(n)|)
    ensures Rest(t, |ExponentText(n)|) == r
    ensures !IsDigit(At(t, 0)) && At(t, 0) != '.'
  {
    hide ReadInt, AreDigits;
    if n.exponent.Some? {
      var e := n.exponent.value;
      FirstDigit(e.digits);
      PowerTaken(e, r, t);
    } else {
      assert t == r;
    }
  }

  lemma PowerTaken(e: Exponent, r: CString, t: CString)
    requires e.e in "eE" && e.sign in {"", "+", "-"} && AreDigits(e.digits) && e.digits != "" && IsDigit(e.digits[0])
    requires t == [e.e] + e.sign + e.digits + r && EndsNumber(r)
    ensures ExponentLength(t) == Some(1 + |e.sign| + |e.digits|) && Rest(t, 1 + |e.sign| + |e.digits|) == r
    ensures At(t, 0) == e.e
  {
    hide ReadInt, AreDigits;
    var u := Rest(t, 1 + |e.sign|);
    assert u == e.digits + r;
    DigitsTaken(e.digits, r, u, true);
    assert At(t, 1) == (e.sign + e.digits)[0];
  }

  /** A numeral in front of what may follow a number is one token. */
  lemma NumeralTaken(n: Numeral, r: CString, t: CString)
    requires IsNumeral(n) && t == NumeralText(n) + r && EndsNumber(r)
    ensures NumberLength(t) == Some(|NumeralText(n)|)
    ensures IsDigit(At(t, 0)) || At(t, 0) == '-'
  {
    hide *;
    var a, b, c, d := if n.minus then "-" else "", n.whole, FractionText(n), ExponentText(n);
    WholeIsDigits(n);
    NumeralRests(n, r, t);
    ExponentTaken(n, r, Rest(t, |a| + |b| + |c|));
    FractionTaken(n, Rest(t, |a| + |b| + |c|), Rest(t, |a| + |b|));
    DigitsTaken(b, Rest(t, |a| + |b|), Rest(t, |a|), false);
    FirstDigit(b);
    NumberAssembles(t, |a|, |b|, |c|, |d|);
  }

  lemma WholeIsDigits(n: Numeral)
    requires IsNumeral(n)
    ensures AreDigits(n.whole) && n.whole != "" && (n.whole[0] == '0' ==> |n.whole| == 1)
  {
  }

  /** The parts of a numeral's text, each with everything after it. */
  lemma NumeralRests(n: Numeral, r: CString, t: CString)
    requires t == NumeralText(n) + r && AreDigits(n.whole)
    ensures var a, b, c, d := if n.minus then "-" else "", n.whole, FractionText(n), ExponentText(n);
            && |NumeralText(n)| == |a| + |b| + |c| + |d| && |a| + |b| + |c| + |d| <= |t|
            && Before(b, Rest(t, |a| + |b|), Rest(t, |a|))
            && Before(c, Rest(t, |a| + |b| + |c|), Rest(t, |a| + |b|))
            && Before(d, r, Rest(t, |a| + |b| + |c|))
            && b != "" && At(t, 0) == (if a == "-" then '-' else b[0])
            && |a| == (if At(t, 0) == '-' then 1 else 0)
  {
    var a, b, c, d := if n.minus then "-" else "", n.whole, FractionText(n), ExponentText(n);
    hide *;
    NumeralIs(n);
    Rests(a, b, c, d, NumeralText(n), r, t);
    NumeralStarts(a, b, t);
  }

  lemma NumeralIs(n: Numeral)
    ensures NumeralText(n) == (if n.minus then "-" else "") + n.whole + FractionText(n) + ExponentText(n)
  {
    hide FractionText, ExponentText;
  }

  lemma NumeralStarts(a: string, b: string, t: CString)
    requires (a == "-" || a == "") && AreDigits(b) && |a| + |b| <= |t|
    requires a == t[..|a|] && (b != "" ==> t[|a|] == b[0])
    ensures b != "" && At(t, 0) == (if a == "-" then '-' else b[0])
    ensures |a| == (if At(t, 0) == '-' then 1 else 0)
  {
    FirstDigit(b);
    hide AreDigits;
    assert a == "-" ==> t[0] == t[..1][0];
  }

  lemma Rests(a: string, b: string, c: string, d: string, text: string, r: string, t: CString)
    requires text == a + b + c + d && t == text + r
    ensures |text| == |a| + |b| + |c| + |d| <= |t|
    ensures Before(b, Rest(t, |a| + |b|), Rest(t, |a|))
    ensures Before(c, Rest(t, |a| + |b| + |c|), Rest(t, |a| + |b|))
    ensures Before(d, r, Rest(t, |a| + |b| + |c|))
    ensures a == t[..|a|] && (b != "" ==> t[|a|] == b[0])
  {
  }

  lemma NumberAssembles(t: CString, sign: nat, k: nat, f: nat, x: nat)
    requires sign == if At(t, 0) == '-' then 1 else 0
    requires sign + k + f + x <= |t|
    requires ReadInt(Rest(t, sign), false) == Some(k) && FractionLength(Rest(t, sign + k)) == Some(f)
    requires ExponentLength(Rest(t, sign + k + f)) == Some(x)
    ensures NumberLength(t) == Some(sign + k + f + x)
  {
    hide FractionLength, ExponentLength, ReadInt, Rest;
  }

  /** Its value is that of its whole part. */
  lemma NumeralIsValue(n: Numeral)
    requires IsNumeral(n)
    ensures IntValue(NumeralText(n)) == NumeralValue(n)
  {
    hide *;
    WholeIsDigits(n);
    NumeralTail(n);
    SignedValue(n.minus, n.whole, FractionText(n) + ExponentText(n));
    Clamped(n);
  }

  lemma NumeralTail(n: Numeral)
    requires IsNumeral(n)
    ensures var tail := FractionText(n) + ExponentText(n);
            && NumeralText(n) == (if n.minus then "-" else "") + (n.whole + tail)
            && (tail != "" ==> !IsDigit(tail[0]))
  {
    hide AreDigits;
  }

  lemma SignedValue(minus: bool, whole: string, tail: string)
    requires AreDigits(whole) && (tail != "" ==> !IsDigit(tail[0]))
    ensures IntValue((if minus then "-" else "") + (whole + tail))
         == Saturate(if minus then -Decimal(whole) else Decimal(whole))
  {
    FirstDigit(whole);
    DigitCountAppend(whole, tail);
    DigitsAreDecimal(whole);
    hide DigitsValue, Decimal, DigitCount, AreDigits, Saturate;
    var unsigned := whole + tail;
    assert unsigned[0] == whole[0] && unsigned[..|whole|] == whole;
    if minus {
      var text := "-" + unsigned;
      assert text[0] == '-' && text[1..] == unsigned;
    } else {
      assert "" + unsigned == unsigned;
    }
  }

  lemma Clamped(n: Numeral)
    ensures NumeralValue(n) == Saturate(if n.minus then -Decimal(n.whole) else Decimal(n.whole))
  {
    hide Decimal;
  }

  lemma DigitsFound(t: CString, zeros: bool)
    requires ReadInt(t, zeros).Some?
    ensures var n := ReadInt(t, zeros).value;
            n <= |t| && AreDigits(t[..n]) && (zeros || (t[0] == '0' ==> n == 1)) && t == t[..n] + Rest(t, n)
  {
  }

  lemma FractionFound(t: CString) returns (fraction: Option<string>)
    requires FractionLength(t).Some?
    ensures fraction.Some? ==> AreDigits(fraction.value)
    ensures t[..FractionLength(t).value] == if fraction.Some? then "." + fraction.value else ""
  {
    hide ReadInt, AreDigits;
    if At(t, 0) == '.' {
      DigitsFound(Rest(t, 1), true);
      fraction := Some(Rest(t, 1)[..FractionLength(t).value - 1]);
    } else {
      fraction := None;
    }
  }

  lemma ExponentFound(t: CString) returns (exponent: Option<Exponent>)
    requires ExponentLength(t).Some?
    ensures exponent.Some? ==>
              var e := exponent.value; e.e in "eE" && e.sign in {"", "+", "-"} && AreDigits(e.digits)
    ensures t[..ExponentLength(t).value]
         == if exponent.Some? then [exponent.value.e] + exponent.value.sign + exponent.value.digits else ""
  {
    hide ReadInt, AreDigits;
    if At(t, 0) == 'e' || At(t, 0) == 'E' {
      var k := if At(t, 1) == '-' || At(t, 1) == '+' then 2 else 1;
      DigitsFound(Rest(t, k), true);
      var sign := if k == 2 then [t[1]] else "";
      exponent := Some(Exponent(t[0], sign, Rest(t, k)[..ExponentLength(t).value - k]));
    } else {
      exponent := None;
    }
  }

  /** Every number token is a numeral. */
  lemma NumeralFound(t: CString) returns (n: Numeral)
    requires NumberLength(t).Some?
    ensures IsNumeral(n) && t[..NumberLength(t).value] == NumeralText(n)
  {
    var sign, k, f, x := NumberSplits(t);
    hide FractionLength, ExponentLength, ReadInt, AreDigits, NumberLength, IsNumeral, NumeralText;
    DigitsFound(Rest(t, sign), false);
    var fraction := FractionFound(Rest(t, sign + k));
    var exponent := ExponentFound(Rest(t, sign + k + f));
    n := Numeral(sign == 1, Rest(t, sign)[..k], fraction, exponent);
    NumeralOf(n);
    FourParts(t, sign, k, f, x);
    assert t[..sign] == if n.minus then "-" else "";
  }

  lemma NumberSplits(t: CString) returns (sign: nat, k: nat, f: nat, x: nat)
    requires NumberLength(t).Some?
    ensures sign == if At(t, 0) == '-' then 1 else 0
    ensures sign + k + f + x <= |t| && NumberLength(t) == Some(sign + k + f + x)
    ensures ReadInt(Rest(t, sign), false) == Some(k) && FractionLength(Rest(t, sign + k)) == Some(f)
    ensures ExponentLength(Rest(t, sign + k + f)) == Some(x)
  {
    hide FractionLength, ExponentLength, ReadInt, Rest;
    sign := if At(t, 0) == '-' then 1 else 0;
    k := ReadInt(Rest(t, sign), false).value;
    f := FractionLength(Rest(t, sign + k)).value;
    x := ExponentLength(Rest(t, sign + k + f)).value;
  }

  lemma NumeralOf(n: Numeral)
    requires AreDigits(n.whole) && (n.whole != "" && n.whole[0] == '0' ==> |n.whole| == 1)
    requires n.fraction.Some? ==> AreDigits(n.fraction.value)
    requires n.exponent.Some? ==>
               var e := n.exponent.value; e.e in "eE" && e.sign in {"", "+", "-"} && AreDigits(e.digits)
    ensures IsNumeral(n)
    ensures NumeralText(n) == (if n.minus then "-" else "") + n.whole
                            + (if n.fraction.Some? then "." + n.fraction.value else "")
                            + if n.exponent.Some? then [n.exponent.value.e] + n.exponent.value.sign + n.exponent.value.digits else ""
  {
  }

  lemma FirstDigit(s: string)
    requires AreDigits(s)
    ensures s != "" && IsDigit(s[0])
  {
    assert s[0] in s;
  }

  lemma FourParts(t: string, sign: nat, k: nat, f: nat, x: nat)
    requires sign + k + f + x <= |t|
    ensures t[..sign + k + f + x] == t[..sign] + t[sign..][..k] + t[sign + k..][..f] + t[sign + k + f..][..x]
  {
    TwoParts(t, sign, k);
    TwoParts(t, sign + k, f);
    TwoParts(t, sign + k + f, x);
  }

  lemma TwoParts(t: string, i: nat, j: nat)
    requires i + j <= |t|
    ensures t[..i + j] == t[..i] + t[i..][..j]
  {
  }

  // ---------------------------------------------------------------- strings are recognised

  lemma HexMeans(c: char)
    ensures IsHex(c) <==> IsHexDigit(c)
    ensures IsHex(c) ==> HexToInt(c) == HexNumber(c)
  {
  }

  lemma ShortMeans(c: char)
    ensures SimpleEscape(c).Some? <==> IsUnit(Short(c))
    ensures IsUnit(Short(c)) ==> SimpleEscape(c).value as int == UnitMeans(Short(c))
  {
  }

  lemma HexValueMeans(t: CString, i: nat)
    ensures HexDigitsAt(t, i, 2) <==> IsHex(At(t, i)) && IsHex(At(t, i + 1))
    ensures HexDigitsAt(t, i, 2) ==> HexValue(t, i, 2) == 16 * HexNumber(At(t, i)) + HexNumber(At(t, i + 1))
  {
    hide HexNumber, HexToInt, IsHex, IsHexDigit, At, HexValue;
    HexMeans(At(t, i));
    HexMeans(At(t, i + 1));
    if HexDigitsAt(t, i, 2) {
      HexValueOfTwo(t, i);
    }
  }

  lemma HexValueOfTwo(t: CString, i: nat)
    requires HexDigitsAt(t, i, 2)
    ensures HexValue(t, i, 2) == 16 * HexToInt(At(t, i)) + HexToInt(At(t, i + 1))
  {
    hide HexToInt, IsHexDigit, At;
    assert HexValue(t, i, 1) == HexToInt(At(t, i));
    assert HexValue(t, i, 2) == HexValue(t, i, 1) * 16 + HexToInt(At(t, i + 1));
  }

  lemma HexValueOfFour(t: CString, i: nat)
    ensures HexDigitsAt(t, i, 4) <==> HexDigitsAt(t, i, 2) && HexDigitsAt(t, i + 2, 2)
    ensures HexDigitsAt(t, i, 4) ==> HexValue(t, i, 4) % 256 == HexValue(t, i + 2, 2)
  {
    hide HexToInt, IsHexDigit;
    if HexDigitsAt(t, i, 4) {
      assert HexDigitsAt(t, i, 2) && HexDigitsAt(t, i, 3) && HexDigitsAt(t, i + 2, 1);
      var a, b, c := HexValue(t, i, 2), HexToInt(At(t, i + 2)), HexToInt(At(t, i + 3));
      assert HexValue(t, i, 3) == a * 16 + b;
      assert HexValue(t, i, 4) == (a * 16 + b) * 16 + c;
      assert HexValue(t, i + 2, 1) == b;
      assert HexValue(t, i + 2, 2) == b * 16 + c;
    }
  }

  /** A unit in front of some text is what is taken from it, with its meaning. */
  lemma UnitTaken(u: Unit, r: CString, t: CString)
    requires IsUnit(u) && t == UnitText(u) + r
    ensures t != "" && t[0] != '"' && UnitLength(t) == Some(|UnitText(u)|) && Rest(t, |UnitText(u)|) == r
    ensures UnitValue(t) as int == UnitMeans(u)
  {
    hide *;
    FrontTaken(UnitText(u), r, t);
    match u
    case Plain(c) => PlainTaken(u, r, t);
    case Short(letter) => ShortTaken(u, r, t);
    case Hex2(a, b) => Hex2Taken(u, r, t);
    case Hex4(a, b, c, d) => Hex4Taken(u, r, t);
  }

  lemma FrontTaken(front: string, r: string, t: CString)
    requires t == front + r
    ensures |front| <= |t| && Rest(t, |front|) == r
  {
  }

  lemma PlainTaken(u: Unit, r: CString, t: CString)
    requires u.Plain? && IsUnit(u) && t == UnitText(u) + r
    ensures t != "" && t[0] != '"' && UnitLength(t) == Some(|UnitText(u)|) && UnitValue(t) as int == UnitMeans(u)
  {
    assert t[0] == u.c;
  }

  lemma ShortTaken(u: Unit, r: CString, t: CString)
    requires u.Short? && IsUnit(u) && t == UnitText(u) + r
    ensures t != "" && t[0] != '"' && UnitLength(t) == Some(|UnitText(u)|) && UnitValue(t) as int == UnitMeans(u)
  {
    ShortMeans(u.letter);
    assert u.letter != 'x' && u.letter != 'u';
    hide SimpleEscape, HexDigitsAt, UnitMeans, IsUnit;
    assert At(t, 1) == u.letter;
  }

  lemma Hex2Taken(u: Unit, r: CString, t: CString)
    requires u.Hex2? && IsUnit(u) && t == UnitText(u) + r
    ensures t != "" && t[0] != '"' && UnitLength(t) == Some(|UnitText(u)|) && UnitValue(t) as int == UnitMeans(u)
  {
    hide HexDigitsAt, HexValue, IsHex, HexNumber;
    assert At(t, 1) == 'x' && At(t, 2) == u.a && At(t, 3) == u.b;
    HexValueMeans(t, 2);
  }

  lemma Hex4Taken(u: Unit, r: CString, t: CString)
    requires u.Hex4? && IsUnit(u) && t == UnitText(u) + r
    ensures t != "" && t[0] != '"' && UnitLength(t) == Some(|UnitText(u)|) && UnitValue(t) as int == UnitMeans(u)
  {
    hide HexDigitsAt, HexValue, IsHex, HexNumber;
    assert At(t, 1) == 'u' && At(t, 2) == u.a && At(t, 3) == u.b && At(t, 4) == u.c && At(t, 5) == u.d;
    HexValueMeans(t, 2);
    HexValueMeans(t, 4);
    HexValueOfFour(t, 2);
  }

  /** What is taken from a text is a unit. */
  lemma UnitFound(t: CString) returns (u: Unit)
    requires t != "" && t[0] != '"' && UnitLength(t).Some?
    ensures IsUnit(u) && t == UnitText(u) + Rest(t, UnitLength(t).value) && UnitValue(t) as int == UnitMeans(u)
  {
    if t[0] != '\\' {
      u := Plain(t[0]);
    } else if At(t, 1) == 'x' {
      u := Hex2Found(t);
    } else if At(t, 1) == 'u' {
      u := Hex4Found(t);
    } else {
      ShortMeans(At(t, 1));
      hide SimpleEscape;
      u := Short(At(t, 1));
    }
  }

  lemma Hex2Found(t: CString) returns (u: Unit)
    requires t != "" && t[0] == '\\' && At(t, 1) == 'x' && UnitLength(t).Some?
    ensures IsUnit(u) && t == UnitText(u) + Rest(t, UnitLength(t).value) && UnitValue(t) as int == UnitMeans(u)
  {
    hide *;
    u := Hex2(At(t, 2), At(t, 3));
    Hex2Means(t);
    Hex2Splits(t, u);
  }

  lemma Hex2Means(t: CString)
    requires t != "" && t[0] == '\\' && At(t, 1) == 'x' && UnitLength(t).Some?
    ensures var u := Hex2(At(t, 2), At(t, 3));
            UnitLength(t) == Some(4) && IsUnit(u) && UnitValue(t) as int == UnitMeans(u)
  {
    LongEscape(t);
    hide UnitLength, UnitValue, HexDigitsAt, HexValue, IsHex, HexNumber, At;
    HexValueMeans(t, 2);
  }

  lemma Hex2Splits(t: CString, u: Unit)
    requires |t| >= 4 && t[0] == '\\' && At(t, 1) == 'x' && u == Hex2(At(t, 2), At(t, 3))
    ensures t == UnitText(u) + Rest(t, 4)
  {
  }

  lemma Hex4Found(t: CString) returns (u: Unit)
    requires t != "" && t[0] == '\\' && At(t, 1) == 'u' && UnitLength(t).Some?
    ensures IsUnit(u) && t == UnitText(u) + Rest(t, UnitLength(t).value) && UnitValue(t) as int == UnitMeans(u)
  {
    hide *;
    u := Hex4(At(t, 2), At(t, 3), At(t, 4), At(t, 5));
    Hex4Means(t);
    Hex4Splits(t, u);
  }

  lemma Hex4Means(t: CString)
    requires t != "" && t[0] == '\\' && At(t, 1) == 'u' && UnitLength(t).Some?
    ensures var u := Hex4(At(t, 2), At(t, 3), At(t, 4), At(t, 5));
            UnitLength(t) == Some(6) && IsUnit(u) && UnitValue(t) as int == UnitMeans(u)
  {
    LongEscape(t);
    hide UnitLength, UnitValue, HexDigitsAt, HexValue, IsHex, HexNumber, At;
    HexValueMeans(t, 2);
    HexValueMeans(t, 4);
    HexValueOfFour(t, 2);
  }

  /** The two escapes by hexadecimal digits. */
  lemma LongEscape(t: CString)
    requires t != "" && t[0] == '\\' && UnitLength(t).Some?
    ensures At(t, 1) == 'x' ==>
              HexDigitsAt(t, 2, 2) && UnitLength(t) == Some(4) && UnitValue(t) as int == HexValue(t, 2, 2)
    ensures At(t, 1) == 'u' ==>
              HexDigitsAt(t, 2, 4) && UnitLength(t) == Some(6) && UnitValue(t) as int == HexValue(t, 2, 4) % 256
  {
    hide HexDigitsAt, HexValue, SimpleEscape, At;
  }

  lemma Hex4Splits(t: CString, u: Unit)
    requires |t| >= 6 && t[0] == '\\' && At(t, 1) == 'u' && u == Hex4(At(t, 2), At(t, 3), At(t, 4), At(t, 5))
    ensures t == UnitText(u) + Rest(t, 6)
  {
  }

  lemma {:induction false} UnitsTaken(units: seq<Unit>, r: string, t: CString)
    requires AreUnits(units) && t == UnitsText(units, r)
    ensures NUL !in r && StringLength(t).Some? && Rest(t, StringLength(t).value) == r
    ensures UnitsMean(units, Unescape(t))
    decreases |units|
  {
    hide UnitText, UnitLength, UnitValue, UnitMeans, IsUnit;
    if units == [] {
      assert Rest(t, 1) == r;
    } else {
      var u, rest := units[0], UnitsText(units[1..], r);
      assert u in units;
      assert NUL !in rest by { assert forall c :: c in rest ==> c in t; }
      UnitTaken(u, rest, t);
      UnitsTaken(units[1..], r, rest);
    }
  }

  lemma {:induction false} UnitsFound(t: CString) returns (units: seq<Unit>)
    requires StringLength(t).Some?
    ensures AreUnits(units) && t == UnitsText(units, Rest(t, StringLength(t).value))
    ensures UnitsMean(units, Unescape(t))
    decreases |t|
  {
    hide UnitText, UnitLength, UnitValue, UnitMeans, IsUnit;
    if t[0] == '"' {
      units := [];
      assert t == "\"" + Rest(t, 1);
    } else {
      var u := UnitFound(t);
      var n := UnitLength(t).value;
      var more := UnitsFound(Rest(t, n));
      units := [u] + more;
      assert units[0] == u && units[1..] == more;
    }
  }
}
