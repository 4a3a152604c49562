/**
 The parser as the program runs it: a cursor over a NUL-terminated text. Every read is at or before
 the terminating NUL, and the cursor never passes it.
 */
module JsonReader {
  import opened Prelude
  import opened JsonText
  import opened JsonGrammar
  import opened JsonDocument
  import opened JsonAccepts

  lemma NulIsNoDigit()
    ensures !IsDigit(NUL)
  {
  }

  lemma FirstOfRest(t: CString, k: nat)
    requires k < |t|
    ensures Rest(t, k) != "" && Rest(t, k)[0] == At(t, k)
  {
  }

  /** The digits at a place, one more than at the next if there is one. */
  lemma DigitStep(t: CString, k: nat)
    requires k <= |t|
    ensures DigitCount(Rest(t, k)) == if k < |t| && IsDigit(At(t, k)) then 1 + DigitCount(Rest(t, k + 1)) else 0
  {
    if k < |t| {
      assert Rest(t, k)[0] == t[k] && Rest(t, k)[1..] == Rest(t, k + 1);
    }
  }

  class Reader {
    var text: CString
    var pos: nat
    var stackDepth: nat
    var allowTrailingComma: bool

    constructor ()
      ensures Valid()
    {
      text, pos, stackDepth, allowTrailingComma := "", 0, 0, false;
    }

    ghost predicate Valid()
      reads `text, `pos
    {
      pos <= |text|
    }

    /** The text from the cursor on. */
    ghost function Current(): CString
      requires Valid()
      reads `text, `pos
    {
      Rest(text, pos)
    }

    /** A character of the text or its terminating NUL. */
    function Char(i: nat): (c: char)
      requires i <= |text|
      reads `text
      ensures c != NUL <==> i < |text|
    {
      At(text, i)
    }

    lemma CharIsAt(i: nat)
      requires Valid() && pos + i <= |text|
      ensures Char(pos + i) == At(Current(), i)
    {
    }

    // -------------------------------------------------------------- whitespace and comments

    /** Reads past the end of the line. */
    method EatLine()
      requires Valid()
      modifies `pos
      ensures Valid() && pos == old(pos) + LineLength(old(Current()))
    {
      hide Rest;
      while Char(pos) != NUL
        invariant Valid() && pos + LineLength(Current()) == old(pos) + LineLength(old(Current()))
        decreases |text| - pos
      {
        var c := Char(pos);
        CharIsAt(0);
        RestOfRest(text, pos, 1);
        LineStep(Current());
        pos := pos + 1;
        if c == '\n' || c == '\r' {
          return;
        }
      }
    }

    /** Reads past the end of a block comment. */
    method EatBlock()
      requires Valid()
      modifies `pos
      ensures Valid() && pos == old(pos) + BlockLength(old(Current()))
    {
      hide Rest;
      while Char(pos) != NUL
        invariant Valid() && pos + BlockLength(Current()) == old(pos) + BlockLength(old(Current()))
        decreases |text| - pos
      {
        CharIsAt(0);
        CharIsAt(1);
        RestOfRest(text, pos, 1);
        BlockStep(Current());
        if Char(pos) == '*' && Char(pos + 1) == '/' {
          pos := pos + 2;
          return;
        }
        pos := pos + 1;
      }
    }

    method EatComment() returns (r: bool)
      requires Valid()
      modifies `pos
      ensures Valid()
      ensures r == CommentLength(old(Current())).Some?
      ensures pos == old(pos) + if r then CommentLength(old(Current())).value else 0
    {
      hide Rest, LineLength, BlockLength;
      CharIsAt(0);
      if Char(pos) != '/' {
        return false;
      }
      CharIsAt(1);
      var nextChar := Char(pos + 1);
      if nextChar == '/' {
        RestOfRest(text, pos, 2);
        pos := pos + 2;
        EatLine();
      } else if nextChar == '*' {
        RestOfRest(text, pos, 2);
        pos := pos + 2;
        EatBlock();
      } else {
        return false;
      }
      r := true;
    }

    method EatWhitespaceAndComments()
      requires Valid()
      modifies `pos
      ensures Valid() && old(pos) <= pos
      ensures Current() == SkipSpace(old(Current()))
    {
      hide Rest, CommentLength, SpaceLength, IsSpace;
      ghost var start := Current();
      while true
        invariant Valid() && old(pos) <= pos
        invariant SkipSpace(Current()) == SkipSpace(start)
        decreases |text| - pos
      {
        var c := Char(pos);
        CharIsAt(0);
        SpaceStep(Current());
        if IsSpace(c) {
          RestOfRest(text, pos, 1);
          pos := pos + 1;
        } else if c == '/' {
          ghost var before := pos;
          var eaten := EatComment();
          if !eaten {
            return;
          }
          RestOfRest(text, before, pos - before);
        } else {
          return;
        }
      }
    }

    // -------------------------------------------------------------- tokens

    /** Digits from some distance after the cursor; None if there are none or they start with a wrong zero. */
    method ReadDigits(length: nat, canHaveLeadingZeros: bool) returns (r: Option<nat>)
      requires Valid() && pos + length <= |text|
      ensures r == ReadInt(Rest(text, pos + length), canHaveLeadingZeros)
      ensures r.Some? ==> pos + length + r.value <= |text|
    {
      hide DigitCount, IsDigit, Rest;
      assert !IsDigit(NUL) by { NulIsNoDigit(); }
      var first := Char(pos + length);
      var len := 0;
      var c := first;
      while c != NUL && IsDigit(c)
        invariant pos + length + len <= |text| && c == Char(pos + length + len)
        invariant len + DigitCount(Rest(text, pos + length + len)) == DigitCount(Rest(text, pos + length))
        decreases |text| - len
      {
        DigitStep(text, pos + length + len);
        len := len + 1;
        c := Char(pos + length + len);
      }
      DigitStep(text, pos + length + len);
      if len > 0 {
        FirstOfRest(text, pos + length);
      }
      if len == 0 || (!canHaveLeadingZeros && len > 1 && first == '0') {
        return None;
      }
      r := Some(len);
    }

    method ReadFraction(length: nat) returns (r: Option<nat>)
      requires Valid() && pos + length <= |text|
      ensures r == FractionLength(Rest(text, pos + length))
      ensures r.Some? ==> pos + length + r.value <= |text|
    {
      hide ReadInt;
      if Char(pos + length) != '.' {
        return Some(0);
      }
      RestOfRest(text, pos + length, 1);
      r := ReadDigits(length + 1, true);
      if r.Some? {
        r := Some(r.value + 1);
      }
    }

    method ReadExponent(length: nat) returns (r: Option<nat>)
      requires Valid() && pos + length <= |text|
      ensures r == ExponentLength(Rest(text, pos + length))
      ensures r.Some? ==> pos + length + r.value <= |text|
    {
      hide ReadInt;
      if Char(pos + length) != 'e' && Char(pos + length) != 'E' {
        return Some(0);
      }
      var sign := 1;
      var c := Char(pos + length + 1);
      if c == '-' || c == '+' {
        sign := 2;
      }
      RestOfRest(text, pos + length, sign);
      r := ReadDigits(length + sign, true);
      if r.Some? {
        r := Some(r.value + sign);
      }
    }

    method ParseNumberToken() returns (token: Token)
      requires Valid() && pos < |text|
      ensures token == match NumberLength(Current()) case Some(n) => Token(Number, n) case None => Token(Invalid, 0)
    {
      hide ReadInt, FractionLength, ExponentLength, Rest;
      CharIsAt(0);
      var sign := 0;
      if Char(pos) == '-' {
        sign := 1;
      }
      RestOfRest(text, pos, sign);
      var digits := ReadDigits(sign, false);
      if digits.None? {
        return Token(Invalid, 0);
      }
      var length := sign + digits.value;
      RestOfRest(text, pos, length);
      var fraction := ReadFraction(length);
      if fraction.None? {
        return Token(Invalid, 0);
      }
      length := length + fraction.value;
      RestOfRest(text, pos, length);
      var exponent := ReadExponent(length);
      if exponent.None? {
        return Token(Invalid, 0);
      }
      token := Token(Number, length + exponent.value);
    }

    /** Checks some hexadecimal digits one after the other, stopping at the first wrong character. */
    method ReadHexDigits(length: nat, digits: nat) returns (ok: bool)
      requires Valid() && pos + length < |text|
      ensures ok <==> HexDigitsAt(Rest(text, pos + length), 1, digits)
      ensures ok ==> pos + length + digits < |text|
    {
      var i := 1;
      while i <= digits
        invariant 1 <= i <= digits + 1 && pos + length + i <= |text|
        invariant HexDigitsAt(Rest(text, pos + length), 1, i - 1)
      {
        var c := Char(pos + length + i);
        assert c == At(Rest(text, pos + length), i);
        if c == NUL {
          return false;
        }
        if !IsHexDigit(c) {
          return false;
        }
        i := i + 1;
      }
      ok := true;
    }

    method NextStringMatch(word: string) returns (r: bool)
      requires Valid() && NUL !in word
      ensures r <==> StartsWith(Current(), word)
    {
      var i := 0;
      while i < |word|
        invariant i <= |word| && pos + i <= |text|
        invariant Current()[..i] == word[..i]
      {
        if Char(pos) == NUL {
          return false;
        }
        assert word[i] in word;
        if Char(pos + i) != word[i] {
          return false;
        }
        assert Current()[..i + 1] == Current()[..i] + [Current()[i]];
        assert word[..i + 1] == word[..i] + [word[i]];
        i := i + 1;
      }
      assert word[..|word|] == word;
      r := true;
    }

    /** The length of an escape; None if it is not valid. */
    method ReadEscape(length: nat) returns (r: Option<nat>)
      requires Valid() && pos + length < |text| && Char(pos + length) == '\\'
      ensures r == UnitLength(Rest(text, pos + length))
    {
      ghost var u := Rest(text, pos + length);
      var escape := Char(pos + length + 1);
      assert escape == At(u, 1);
      if escape == 'x' || escape == 'u' {
        var digits := if escape == 'x' then 2 else 4;
        var ok := ReadHexDigits(length + 1, digits);
        HexShift(u, Rest(text, pos + length + 1), digits);
        r := if ok then Some(2 + digits) else None;
      } else {
        r := if SimpleEscape(escape).Some? then Some(2) else None;
      }
    }

    /** Scans a string token, checking its escapes. */
    method ParseStringToken() returns (token: Token)
      requires Valid() && pos < |text| && Char(pos) == '"'
      ensures token == match StringLength(Rest(text, pos + 1))
                       case Some(n) => Token(StringToken, 1 + n)
                       case None => Token(Invalid, 0)
    {
      hide UnitLength, StringLength, Rest, At;
      var length := 1;
      var c := Char(pos + length);
      while c != NUL
        invariant 1 <= length && pos + length <= |text| && c == Char(pos + length)
        invariant StringLength(Rest(text, pos + 1)) == Longer(StringLength(Rest(text, pos + length)), length - 1)
        decreases |text| - length
      {
        StringStep(text, pos + length);
        if c == '"' {
          return Token(StringToken, length + 1);
        }
        var unit := Some(1);
        if c == '\\' {
          unit := ReadEscape(length);
          if unit.None? {
            return Token(Invalid, 0);
          }
        }
        length := length + unit.value;
        c := Char(pos + length);
      }
      UnfinishedString(text, pos + length);
      token := Token(Invalid, 0);
    }

    /**
     Decodes a scanned string token. It takes exactly the inside of the token: neither the last case nor
     the last case of HexToInt is ever reached.
     */
    method DecodeString(token: Token) returns (decoded: string)
      requires Valid() && token == FrontToken(Current()) && token.kind.StringToken?
      ensures decoded == StringValue(Current())
    {
      hide StringLength, Unescape, FrontToken, Rest, At, UnitValue, UnitLength, UnitMeaning, StringValue;
      StartString(text, pos, token);
      decoded := "";
      assert decoded + Unescape(Rest(text, pos + 1)) == Unescape(Rest(text, pos + 1));
      var i := 1;
      while i < token.length - 1
        invariant 1 <= i < token.length && pos + token.length <= |text|
        invariant StringLength(Rest(text, pos + i)) == Some(token.length - i)
        invariant decoded + Unescape(Rest(text, pos + i)) == Unescape(Rest(text, pos + 1))
      {
        DecodeStep(text, pos + i);
        ghost var before := decoded;
        var c, length := DecodeUnit(i);
        decoded := decoded + [c];
        Associates(before, [c], Unescape(Rest(text, pos + i + length)));
        i := i + length;
      }
      EndString(text, pos + i);
      assert decoded + "" == decoded;
    }

    /** One turn of its loop: the character, plain or escaped, and how many characters of the text it takes. */
    method DecodeUnit(i: nat) returns (c: char, length: nat)
      requires Valid() && pos + i < |text| && UnitLength(Rest(text, pos + i)).Some? && UnitMeaning(text, pos + i)
      ensures c == UnitValue(Rest(text, pos + i)) && Some(length) == UnitLength(Rest(text, pos + i))
    {
      hide Rest, At, UnitValue, UnitLength, HexToInt;
      c, length := Char(pos + i), 1;
      if c == '\\' {
        c := Char(pos + i + 1);
        length := 2;
        var simple := SimpleEscape(c);
        if simple.Some? {
          c := simple.value;
        } else if c == 'x' {
          c := (HexToInt(Char(pos + i + 2)) * 16 + HexToInt(Char(pos + i + 3))) as char;
          length := 4;
        } else if c == 'u' {
          var code := HexToInt(Char(pos + i + 2)) * 4096 + HexToInt(Char(pos + i + 3)) * 256
                    + HexToInt(Char(pos + i + 4)) * 16 + HexToInt(Char(pos + i + 5));
          c := (code % 256) as char;
          length := 6;
        } else {
          assert false;
        }
      }
    }

    method DecodeNumber(token: Token) returns (n: int)
      requires Valid() && token.length <= |Current()|
      ensures n == IntValue(Current()[..token.length])
    {
      var s := text[pos..pos + token.length];
      assert s == Current()[..token.length];
      n := IntValue(s);
    }

    /** One of the three words. */
    method ScanWord(c: char) returns (token: Token)
      requires Valid() && c == Char(pos) && (c == 'n' || c == 't' || c == 'f')
      ensures token == FrontToken(Current())
    {
      hide NumberLength, StringLength, StartsWith;
      CharIsAt(0);
      token := Token(Invalid, 0);
      if c == 'n' {
        var matches := NextStringMatch("null");
        if matches { token := Token(NullToken, 4); }
      } else if c == 't' {
        var matches := NextStringMatch("true");
        if matches { token := Token(BoolTrue, 4); }
      } else {
        var matches := NextStringMatch("false");
        if matches { token := Token(BoolFalse, 5); }
      }
    }

    /** The token at the cursor. */
    method ScanToken() returns (token: Token)
      requires Valid()
      ensures token == FrontToken(Current())
    {
      hide NumberLength, StringLength, StartsWith, Rest, At;
      var c := Char(pos);
      CharIsAt(0);
      if c == NUL {
        token := Token(EndOfInput, 0);
      } else if c == 'n' || c == 't' || c == 'f' {
        token := ScanWord(c);
      } else if c == '[' {
        token := Token(ArrayBegin, 1);
      } else if c == ']' {
        token := Token(ArrayEnd, 1);
      } else if c == ',' {
        token := Token(ListSeparator, 1);
      } else if c == '{' {
        token := Token(ObjectBegin, 1);
      } else if c == '}' {
        token := Token(ObjectEnd, 1);
      } else if c == ':' {
        token := Token(PairSeparator, 1);
      } else if IsDigit(c) || c == '-' {
        token := ParseNumberToken();
      } else if c == '"' {
        RestOfRest(text, pos, 1);
        token := ParseStringToken();
      } else {
        token := Token(Invalid, 0);
      }
    }

    method ParseToken() returns (token: Token)
      requires Valid()
      modifies `pos
      ensures Valid() && old(pos) <= pos
      ensures Current() == SkipSpace(old(Current())) && token == FrontToken(Current())
    {
      EatWhitespaceAndComments();
      token := ScanToken();
    }

    // -------------------------------------------------------------- values

    /**
     What comes after a member of a list or dictionary: a comma, then maybe the closing token if
     trailing commas are allowed, or the closing token. Stops at the closing token or before the next member.
     */
    method ParseSeparator(end: TokenType) returns (failed: bool, stopped: bool)
      requires Valid() && (end.ArrayEnd? || end.ObjectEnd?)
      modifies `pos
      ensures Valid() && old(pos) <= pos
      ensures failed <==> Separated(old(Current()), end, allowTrailingComma).Fail?
      ensures !failed && stopped ==>
                pos < |text| && Separated(old(Current()), end, allowTrailingComma) == Stop(Rest(text, pos + 1))
      ensures !failed && !stopped ==>
                Separated(old(Current()), end, allowTrailingComma) == More(Current())
                && SkipSpace(Current()) == Current()
    {
      hide FrontToken, SkipSpace, SpaceLength, Separated;
      ghost var after := Current();
      var token := ParseToken();
      SkipTwice(after);
      if token.kind.ListSeparator? {
        SeparatedByComma(after, end, allowTrailingComma);
        RestOfRest(text, pos, 1);
        pos := pos + 1;
        token := ParseToken();
        if token.kind == end {
          RestOfRest(text, pos, 1);
          return !allowTrailingComma, true;
        }
        return false, false;
      }
      SeparatedByNothing(after, end, allowTrailingComma);
      if token.kind != end {
        return true, false;
      }
      RestOfRest(text, pos, 1);
      return false, true;
    }

    /** The members of a list after its opening bracket; stops at the closing bracket. */
    method ParseList() returns (r: Option<seq<Value>>)
      requires Valid()
      modifies `pos, `stackDepth
      ensures Valid() && old(pos) <= pos
      ensures r.None? <==> BuildItems(old(Current()), old(stackDepth), allowTrailingComma).None?
      ensures r.Some? ==> stackDepth == old(stackDepth) && pos < |text|
      ensures r.Some? ==>
                BuildItems(old(Current()), stackDepth, allowTrailingComma) == Some(Parsed(r.value, Rest(text, pos + 1)))
      decreases |text| - pos, 2
    {
      hide Build, BuildItems, Separated, FrontToken, SkipSpace, SpaceLength;
      ghost var start := Current();
      var token := ParseToken();
      ItemsSkipped(start, stackDepth, allowTrailingComma);
      var items: seq<Value> := [];
      PrependNothing(BuildItems(Current(), stackDepth, allowTrailingComma));
      while !token.kind.ArrayEnd?
        invariant Valid() && old(pos) <= pos && stackDepth == old(stackDepth)
        invariant SkipSpace(Current()) == Current() && token == FrontToken(Current())
        invariant BuildItems(start, stackDepth, allowTrailingComma)
               == Prepend(items, BuildItems(Current(), stackDepth, allowTrailingComma))
        decreases |text| - pos
      {
        ItemsUnfold(Current(), items, stackDepth, allowTrailingComma);
        var item := BuildValue(false);
        if item.None? {
          return None;
        }
        items := items + [item.value];
        var failed, stopped := ParseSeparator(ArrayEnd);
        if failed {
          return None;
        }
        if stopped {
          return Some(items);
        }
        token := ScanToken();
      }
      ItemsEnd(Current(), stackDepth, allowTrailingComma);
      RestOfRest(text, pos, 1);
      r := Some(items);
    }

    /** A key, the colon after it and its value. */
    method ParseEntry(token: Token) returns (r: Option<Entry>)
      requires Valid() && token == FrontToken(Current()) && token.kind.StringToken?
      modifies `pos, `stackDepth
      ensures Valid() && old(pos) < pos
      ensures r.None? ==> EntryFails(old(Current()), old(stackDepth), allowTrailingComma)
      ensures r.Some? ==>
                stackDepth == old(stackDepth)
                && EntryParses(old(Current()), stackDepth, allowTrailingComma, r.value, Current())
      decreases |text| - pos, 2
    {
      hide Build, FrontToken, SkipSpace, SpaceLength, StringValue;
      var key := DecodeString(token);
      RestOfRest(text, pos, token.length);
      pos := pos + token.length;
      var colon := ParseToken();
      if !colon.kind.PairSeparator? {
        return None;
      }
      RestOfRest(text, pos, colon.length);
      assert colon.length == 1 by { ColonIsOne(Current()); }
      pos := pos + colon.length;
      var _ := ParseToken();
      var value := BuildValue(false);
      if value.None? {
        return None;
      }
      r := Some(Entry(key, value.value));
    }

    /** The entries of a dictionary after its opening brace; stops at the closing brace. */
    method ParseDictionary() returns (r: Option<seq<Entry>>)
      requires Valid()
      modifies `pos, `stackDepth
      ensures Valid() && old(pos) <= pos
      ensures r.None? <==> BuildEntries(old(Current()), old(stackDepth), allowTrailingComma, []).None?
      ensures r.Some? ==> stackDepth == old(stackDepth) && pos < |text|
      ensures r.Some? ==>
                BuildEntries(old(Current()), stackDepth, allowTrailingComma, []) == Some(Parsed(r.value, Rest(text, pos + 1)))
      decreases |text| - pos, 3
    {
      hide Build, BuildEntries, Separated, FrontToken, SkipSpace, SpaceLength, StringValue, SetPath;
      ghost var start := Current();
      var token := ParseToken();
      EntriesSkipped(start, stackDepth, allowTrailingComma, []);
      var entries: seq<Entry> := [];
      while !token.kind.ObjectEnd?
        invariant Valid() && old(pos) <= pos && stackDepth == old(stackDepth)
        invariant SkipSpace(Current()) == Current() && token == FrontToken(Current())
        invariant BuildEntries(start, stackDepth, allowTrailingComma, [])
               == BuildEntries(Current(), stackDepth, allowTrailingComma, entries)
        decreases |text| - pos
      {
        EntriesUnfold(Current(), stackDepth, allowTrailingComma, entries);
        if !token.kind.StringToken? {
          return None;
        }
        var entry := ParseEntry(token);
        if entry.None? {
          return None;
        }
        entries := SetPath(entries, entry.value.key, entry.value.value);
        var failed, stopped := ParseSeparator(ObjectEnd);
        if failed {
          return None;
        }
        if stopped {
          return Some(entries);
        }
        token := ScanToken();
      }
      EntriesEnd(Current(), stackDepth, allowTrailingComma, entries);
      RestOfRest(text, pos, 1);
      r := Some(entries);
    }

    /** The value at the cursor. The nesting count is restored when there is one. */
    method BuildValue(isRoot: bool) returns (r: Option<Value>)
      requires Valid()
      modifies `pos, `stackDepth
      ensures Valid() && old(pos) <= pos
      ensures r.None? <==> Build(old(Current()), old(stackDepth), isRoot, allowTrailingComma).None?
      ensures r.Some? ==> stackDepth == old(stackDepth)
      ensures r.Some? ==> Build(old(Current()), stackDepth, isRoot, allowTrailingComma) == Some(Parsed(r.value, Current()))
      decreases |text| - pos, 1
    {
      hide BuildItems, BuildEntries, Separated, FrontToken, SkipSpace, SpaceLength, LeafValue;
      stackDepth := stackDepth + 1;
      if stackDepth > STACK_LIMIT {
        return None;
      }
      var token := ParseToken();
      if isRoot && token.kind != ObjectBegin && token.kind != ArrayBegin {
        return None;
      }
      RestOfRest(text, pos, token.length);
      if IsLeaf(token.kind) {
        var leaf := ParseLeaf(token);
        r := Some(leaf);
      } else if token.kind.ArrayBegin? {
        OneCharacter(Current());
        pos := pos + token.length;
        var items := ParseList();
        if items.None? {
          return None;
        }
        r := Some(List(items.value));
        token := Token(ArrayEnd, 1);
      } else if token.kind.ObjectBegin? {
        OneCharacter(Current());
        pos := pos + token.length;
        var entries := ParseDictionary();
        if entries.None? {
          return None;
        }
        r := Some(Dictionary(entries.value));
        token := Token(ObjectEnd, 1);
      } else {
        return None;
      }
      pos := pos + token.length;
      stackDepth := stackDepth - 1;
    }

    method ParseLeaf(token: Token) returns (v: Value)
      requires Valid() && token == FrontToken(Current()) && IsLeaf(token.kind)
      ensures v == LeafValue(Current())
    {
      hide FrontToken, StringValue, IntValue;
      match token.kind
      case NullToken => v := Null;
      case BoolTrue => v := Boolean(true);
      case BoolFalse => v := Boolean(false);
      case Number =>
        var n := DecodeNumber(token);
        v := Integer(n);
      case StringToken =>
        var s := DecodeString(token);
        v := String(s);
    }

    /** Reads a whole document. */
    method JsonToValue(json: string, checkRoot: bool, trailing: bool) returns (r: Option<Value>)
      requires Valid()
      modifies this
      ensures r == JsonDocument.JsonToValue(json, checkRoot, trailing)
      ensures forall v :: r == Some(v) <==> IsUtf8(CStr(json)) && IsDocument(CStr(json), checkRoot, trailing, v)
      ensures Valid()
    {
      hide Build, FrontToken, SkipSpace, SpaceLength, IsDocument;
      AcceptsDocuments(json, checkRoot, trailing);
      var cString := CStr(json);
      if !IsUtf8(cString) {
        return None;
      }
      text, pos, allowTrailingComma, stackDepth := cString, 0, trailing, 0;
      assert Current() == cString;
      r := BuildValue(checkRoot);
      if r.Some? {
        var token := ParseToken();
        if !token.kind.EndOfInput? {
          r := None;
        }
      }
    }
  }

  lemma ColonIsOne(t: CString)
    ensures FrontToken(t).kind.PairSeparator? || FrontToken(t).kind.ListSeparator? ==> FrontToken(t).length == 1
  {
    hide NumberLength, StringLength, StartsWith;
  }

  lemma OneCharacter(t: CString)
    ensures FrontToken(t).kind.ArrayBegin? || FrontToken(t).kind.ObjectBegin? ==> FrontToken(t).length == 1
  {
    hide NumberLength, StringLength, StartsWith;
  }

  /** A key, a colon and a value in the specification's terms. */
  ghost predicate EntryParses(t: CString, depth: nat, trailing: bool, e: Entry, rest: CString) {
    && FrontToken(t).kind.StringToken?
    && e.key == StringValue(t)
    && var afterKey := SkipSpace(Rest(t, FrontToken(t).length));
       && FrontToken(afterKey).kind.PairSeparator?
       && Build(SkipSpace(Rest(afterKey, 1)), depth, false, trailing) == Some(Parsed(e.value, rest))
  }

  ghost predicate EntryFails(t: CString, depth: nat, trailing: bool) {
    && FrontToken(t).kind.StringToken?
    && var afterKey := SkipSpace(Rest(t, FrontToken(t).length));
       FrontToken(afterKey).kind.PairSeparator? ==> Build(SkipSpace(Rest(afterKey, 1)), depth, false, trailing).None?
  }

  lemma EntriesSkipped(t: CString, depth: nat, trailing: bool, entries: seq<Entry>)
    ensures SkipSpace(SkipSpace(t)) == SkipSpace(t)
    ensures BuildEntries(t, depth, trailing, entries) == BuildEntries(SkipSpace(t), depth, trailing, entries)
  {
    hide Build, Separated, FrontToken, SkipSpace, StringValue, SetPath;
    SkipTwice(t);
  }

  lemma EntriesEnd(t: CString, depth: nat, trailing: bool, entries: seq<Entry>)
    requires SkipSpace(t) == t && FrontToken(t).kind.ObjectEnd?
    ensures |t| >= 1 && BuildEntries(t, depth, trailing, entries) == Some(Parsed(entries, Rest(t, 1)))
  {
    hide Build, Separated, FrontToken, SkipSpace, StringValue, SetPath;
  }

  lemma EntriesUnfold(t: CString, depth: nat, trailing: bool, entries: seq<Entry>)
    requires SkipSpace(t) == t && !FrontToken(t).kind.ObjectEnd?
    ensures !FrontToken(t).kind.StringToken? ==> BuildEntries(t, depth, trailing, entries).None?
    ensures EntryFails(t, depth, trailing) ==> BuildEntries(t, depth, trailing, entries).None?
    ensures forall e, rest :: EntryParses(t, depth, trailing, e, rest) ==>
              var more := Separated(rest, ObjectEnd, trailing);
              var entries' := SetPath(entries, e.key, e.value);
              && (more.Fail? ==> BuildEntries(t, depth, trailing, entries).None?)
              && (more.Stop? ==> BuildEntries(t, depth, trailing, entries) == Some(Parsed(entries', more.rest)))
              && (more.More? ==> BuildEntries(t, depth, trailing, entries) == BuildEntries(more.rest, depth, trailing, entries'))
  {
    hide Build, Separated, FrontToken, SkipSpace, StringValue, SetPath;
  }

  lemma LineStep(t: CString)
    requires t != ""
    ensures LineLength(t) == if At(t, 0) == '\n' || At(t, 0) == '\r' then 1 else 1 + LineLength(Rest(t, 1))
  {
  }

  lemma BlockStep(t: CString)
    requires t != ""
    ensures BlockLength(t) == if At(t, 0) == '*' && At(t, 1) == '/' then 2 else 1 + BlockLength(Rest(t, 1))
  {
  }

  /** Whitespace and comments can be skipped one at a time. */
  lemma SpaceStep(t: CString)
    ensures IsSpace(At(t, 0)) ==> t != "" && SkipSpace(t) == SkipSpace(Rest(t, 1))
    ensures CommentLength(t).Some? ==> SkipSpace(t) == SkipSpace(Rest(t, CommentLength(t).value))
    ensures !IsSpace(At(t, 0)) && CommentLength(t).None? ==> SkipSpace(t) == t
    ensures At(t, 0) != '/' ==> CommentLength(t).None?
  {
    assert !IsSpace(NUL) && !IsSpace('/');
    if t != "" && IsSpace(t[0]) {
      RestOfRest(t, 1, SpaceLength(Rest(t, 1)));
    } else if CommentLength(t).Some? {
      RestOfRest(t, CommentLength(t).value, SpaceLength(Rest(t, CommentLength(t).value)));
    } else {
      assert Rest(t, 0) == t;
    }
  }

  /** Some items already parsed, in front of the rest. */
  function Prepend(items: seq<Value>, r: Option<Parsed<seq<Value>>>): Option<Parsed<seq<Value>>> {
    match r
    case None => None
    case Some(p) => Some(Parsed(items + p.value, p.rest))
  }

  lemma PrependNothing(r: Option<Parsed<seq<Value>>>)
    ensures Prepend([], r) == r
  {
    if r.Some? {
      assert [] + r.value.value == r.value.value;
    }
  }

  lemma ItemsSkipped(t: CString, depth: nat, trailing: bool)
    ensures SkipSpace(SkipSpace(t)) == SkipSpace(t)
    ensures BuildItems(t, depth, trailing) == BuildItems(SkipSpace(t), depth, trailing)
  {
    hide Build, Separated, FrontToken, SkipSpace;
    SkipTwice(t);
  }

  lemma ItemsEnd(t: CString, depth: nat, trailing: bool)
    requires SkipSpace(t) == t && FrontToken(t).kind.ArrayEnd?
    ensures |t| >= 1 && BuildItems(t, depth, trailing) == Some(Parsed([], Rest(t, 1)))
    ensures forall items :: Prepend(items, BuildItems(t, depth, trailing)) == Some(Parsed(items, Rest(t, 1)))
  {
    hide Build, Separated, FrontToken, SkipSpace;
    forall items ensures Prepend(items, BuildItems(t, depth, trailing)) == Some(Parsed(items, Rest(t, 1))) {
      assert items + [] == items;
    }
  }

  lemma ItemsUnfold(t: CString, items: seq<Value>, depth: nat, trailing: bool)
    requires SkipSpace(t) == t && !FrontToken(t).kind.ArrayEnd?
    ensures var all := Prepend(items, BuildItems(t, depth, trailing));
            var item := Build(t, depth, false, trailing);
            && (item.None? ==> all.None?)
            && (item.Some? ==>
                  var more := Separated(item.value.rest, ArrayEnd, trailing);
                  && (more.Fail? ==> all.None?)
                  && (more.Stop? ==> all == Some(Parsed(items + [item.value.value], more.rest)))
                  && (more.More? ==> all == Prepend(items + [item.value.value], BuildItems(more.rest, depth, trailing))))
  {
    hide Build, Separated, FrontToken, SkipSpace;
    var item := Build(t, depth, false, trailing);
    if item.Some? {
      var more := Separated(item.value.rest, ArrayEnd, trailing);
      if more.More? {
        var others := BuildItems(more.rest, depth, trailing);
        if others.Some? {
          assert items + ([item.value.value] + others.value.value) == items + [item.value.value] + others.value.value;
        }
      }
    }
  }

  lemma SeparatedByComma(t: CString, end: TokenType, trailing: bool)
    requires end.ArrayEnd? || end.ObjectEnd?
    requires FrontToken(SkipSpace(t)).kind.ListSeparator?
    ensures |SkipSpace(t)| >= 1
    ensures var v := SkipSpace(Rest(SkipSpace(t), 1));
            && SkipSpace(v) == v
            && (FrontToken(v).kind != end ==> Separated(t, end, trailing) == More(v))
            && (FrontToken(v).kind == end && !trailing ==> Separated(t, end, trailing).Fail?)
            && (FrontToken(v).kind == end && trailing ==> |v| >= 1 && Separated(t, end, trailing) == Stop(Rest(v, 1)))
  {
    hide FrontToken, SkipSpace, Rest;
    SkipTwice(Rest(SkipSpace(t), 1));
  }

  lemma SeparatedByNothing(t: CString, end: TokenType, trailing: bool)
    requires end.ArrayEnd? || end.ObjectEnd?
    requires !FrontToken(SkipSpace(t)).kind.ListSeparator?
    ensures FrontToken(SkipSpace(t)).kind == end ==>
              |SkipSpace(t)| >= 1 && Separated(t, end, trailing) == Stop(Rest(SkipSpace(t), 1))
    ensures FrontToken(SkipSpace(t)).kind != end ==> Separated(t, end, trailing).Fail?
  {
    hide FrontToken, SkipSpace, Rest;
  }

  lemma StartString(text: CString, i: nat, token: Token)
    requires i <= |text| && token == FrontToken(Rest(text, i)) && token.kind.StringToken?
    ensures i + token.length <= |text| && token.length >= 2
    ensures StringLength(Rest(text, i + 1)) == Some(token.length - 1)
    ensures StringValue(Rest(text, i)) == Unescape(Rest(text, i + 1))
  {
    hide StringLength, NumberLength, Unescape;
    RestOfRest(text, i, 1);
  }

  lemma EndString(text: CString, i: nat)
    requires i <= |text| && StringLength(Rest(text, i)) == Some(1)
    ensures Unescape(Rest(text, i)) == ""
  {
  }

  /** The next unit of a scanned string: how long it is, and the character that it stands for. */
  lemma DecodeStep(text: CString, i: nat)
    requires i <= |text| && StringLength(Rest(text, i)).Some? && StringLength(Rest(text, i)).value > 1
    ensures i < |text| && UnitLength(Rest(text, i)).Some?
    ensures var n := UnitLength(Rest(text, i)).value;
            && i + n <= |text|
            && StringLength(Rest(text, i + n)).Some?
            && StringLength(Rest(text, i)).value == n + StringLength(Rest(text, i + n)).value
            && Unescape(Rest(text, i)) == [UnitValue(Rest(text, i))] + Unescape(Rest(text, i + n))
    ensures UnitMeaning(text, i)
  {
    var u := Rest(text, i);
    RestOfRest(text, i, UnitLength(u).value);
    UnitMeans(text, i);
  }

  /** A valid unit spelled out character by character. */
  ghost predicate UnitMeaning(text: CString, i: nat)
    requires i < |text| && UnitLength(Rest(text, i)).Some?
  {
    var n := UnitLength(Rest(text, i)).value;
    var v := UnitValue(Rest(text, i));
    var c := At(text, i + 1);
    if At(text, i) != '\\' then n == 1 && v == At(text, i)
    else if SimpleEscape(c).Some? then n == 2 && v == SimpleEscape(c).value
    else if c == 'x' then
      n == 4 && IsHexDigit(At(text, i + 2)) && IsHexDigit(At(text, i + 3))
      && v as int == HexToInt(At(text, i + 2)) * 16 + HexToInt(At(text, i + 3))
    else
      c == 'u' && n == 6
      && (forall k :: i + 2 <= k < i + 6 ==> IsHexDigit(At(text, k)))
      && v as int == (HexToInt(At(text, i + 2)) * 4096 + HexToInt(At(text, i + 3)) * 256
                      + HexToInt(At(text, i + 4)) * 16 + HexToInt(At(text, i + 5))) % 256
  }

  lemma UnitMeans(text: CString, i: nat)
    requires i < |text| && UnitLength(Rest(text, i)).Some?
    ensures UnitMeaning(text, i)
  {
    var u := Rest(text, i);
    assert forall k: nat :: At(u, k) == At(text, i + k);
    assert forall k: nat :: i <= k ==> At(text, k) == At(u, k - i);
    if u[0] == '\\' && At(u, 1) == 'x' {
      assert HexValue(u, 2, 1) == HexToInt(At(u, 2));
    } else if u[0] == '\\' && At(u, 1) == 'u' {
      assert HexValue(u, 2, 1) == HexToInt(At(u, 2));
      assert HexValue(u, 2, 2) == HexToInt(At(u, 2)) * 16 + HexToInt(At(u, 3));
      assert HexValue(u, 2, 3) == HexValue(u, 2, 2) * 16 + HexToInt(At(u, 4));
    }
  }

  function Longer(r: Option<nat>, k: nat): Option<nat> {
    match r
    case Some(n) => Some(k + n)
    case None => None
  }

  lemma UnfinishedString(text: CString, i: nat)
    requires i == |text|
    ensures StringLength(Rest(text, i)).None?
  {
  }

  lemma StringStep(text: CString, i: nat)
    requires i < |text|
    ensures var u := Rest(text, i);
            && (At(text, i) != '\\' ==> UnitLength(u) == Some(1))
            && StringLength(u) ==
               if At(text, i) == '"' then Some(1)
               else if UnitLength(u).None? then None
               else Longer(StringLength(Rest(text, i + UnitLength(u).value)), UnitLength(u).value)
  {
    var u := Rest(text, i);
    if UnitLength(u).Some? {
      RestOfRest(text, i, UnitLength(u).value);
    }
    hide UnitLength;
  }

  lemma HexShift(u: CString, v: CString, digits: nat)
    requires |u| >= 1 && v == Rest(u, 1)
    ensures HexDigitsAt(u, 2, digits) <==> HexDigitsAt(v, 1, digits)
  {
    assert forall k :: 1 <= k < 1 + digits ==> At(v, k) == At(u, k + 1);
    assert forall k :: 2 <= k < 2 + digits ==> At(u, k) == At(v, k - 1);
  }
}
