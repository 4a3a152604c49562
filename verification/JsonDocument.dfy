/** Whole documents: the encoding check, the parser's entry point, and its laws. */
module JsonDocument {
  import opened Prelude
  import opened JsonText
  import opened JsonGrammar
  import opened JsonRoundTrip

  // ---------------------------------------------------------------- UTF-8

  function Code(t: string, i: nat): int {
    if i < |t| then t[i] as int else 0
  }

  /** The length of the character at the front of a text in UTF-8; 0 if it is not well formed. */
  function CharLength(t: string): (n: nat)
    requires t != ""
    ensures n <= |t| && n <= 4
    ensures n == 1 <==> t[0] as int < 0x80
    ensures n > 1 ==> forall i :: 0 <= i < n ==> t[i] as int >= 0x80
  {
    var c := Code(t, 0);
    if c < 0x80 then 1
    else if c <= 0xC1 then 0
    else if c <= 0xDF then (if 0x80 <= Code(t, 1) <= 0xBF then 2 else 0)
    else if c <= 0xEF then
      // E0 excludes overlong forms, ED surrogates, EF BF BE and EF BF BF are no characters
      if (0x80 <= Code(t, 1) <= 0xBF) && (0x80 <= Code(t, 2) <= 0xBF)
         && !(c == 0xE0 && Code(t, 1) <= 0x9F) && !(c == 0xED && Code(t, 1) >= 0xA0)
         && !(c == 0xEF && Code(t, 1) == 0xBF && Code(t, 2) >= 0xBE)
      then 3 else 0
    else if c <= 0xF4 then
      if (0x80 <= Code(t, 1) <= 0xBF) && (0x80 <= Code(t, 2) <= 0xBF) && (0x80 <= Code(t, 3) <= 0xBF)
         && !(c == 0xF0 && Code(t, 1) <= 0x8F) && !(c == 0xF4 && Code(t, 1) >= 0x90)
         && !(Code(t, 1) % 16 == 15 && Code(t, 2) == 0xBF && Code(t, 3) >= 0xBE)
      then 4 else 0
    else 0
  }

  /** IsStringUTF8. */
  predicate IsUtf8(t: string) {
    t == "" || (CharLength(t) > 0 && IsUtf8(t[CharLength(t)..]))
  }

  predicate IsAscii(a: string) {
    forall c :: c in a ==> c as int < 0x80
  }

  lemma {:induction false} AsciiIsUtf8(a: string)
    requires IsAscii(a)
    ensures IsUtf8(a)
    decreases |a|
  {
    if a != "" {
      assert a[0] in a && forall c :: c in a[1..] ==> c in a;
      assert CharLength(a) == 1;
      AsciiIsUtf8(a[1..]);
    }
  }

  /** No character of UTF-8 runs into a text that starts with an ASCII character. */
  predicate StartsChar(b: string) {
    b == "" || b[0] as int < 0x80
  }

  lemma CharEndsBefore(a: string, b: string)
    requires a != "" && StartsChar(b)
    ensures CharLength(a + b) == CharLength(a)
  {
    assert forall i :: 0 <= i < |a| ==> Code(a + b, i) == Code(a, i);
    assert Code(a + b, |a|) < 0x80 && Code(a, |a|) == 0;
    assert forall i :: i >= |a| ==> Code(a, i) == 0;
  }

  /** Where a text starts anew, both parts must be UTF-8 and need be no more. */
  lemma {:induction false} Utf8Concat(a: string, b: string)
    requires StartsChar(b)
    ensures IsUtf8(a + b) <==> IsUtf8(a) && IsUtf8(b)
    decreases |a|
  {
    if a == "" {
      assert a + b == b;
    } else {
      var n := CharLength(a);
      CharEndsBefore(a, b);
      if n > 0 {
        assert (a + b)[n..] == a[n..] + b;
        Utf8Concat(a[n..], b);
      }
    }
  }

  /** After ASCII everything starts anew. */
  lemma {:induction false} Utf8After(a: string, b: string)
    requires IsAscii(a)
    ensures IsUtf8(a + b) <==> IsUtf8(b)
    decreases |a|
  {
    if a == "" {
      assert a + b == b;
    } else {
      assert a[0] in a && forall c :: c in a[1..] ==> c in a;
      assert (a + b)[1..] == a[1..] + b;
      assert CharLength(a + b) == 1;
      Utf8After(a[1..], b);
    }
  }

  /** A text between ASCII brackets. */
  lemma Utf8Between(a: string, b: string, c: string)
    requires IsAscii(a) && IsAscii(c)
    ensures IsUtf8(a + b + c) <==> IsUtf8(b)
  {
    assert c != "" ==> c[0] in c;
    Utf8Concat(a + b, c);
    AsciiIsUtf8(c);
    Utf8After(a, b);
  }

  lemma EscapeCharIsAscii(c: char)
    requires c as int < 0x80
    ensures IsAscii(EscapeChar(c))
  {
  }

  lemma HighByteIsCopied(c: char)
    requires c as int >= 0x80 || EscapeChar(c)[0] as int >= 0x80
    ensures c as int >= 0x80 && EscapeChar(c) == [c]
  {
  }

  /** Bytes of multi-byte characters are never escaped. */
  lemma {:induction false} EscapeCopies(s: string, n: nat)
    requires n <= |s| && forall i :: 0 <= i < n ==> s[i] as int >= 0x80
    ensures Escape(s) == s[..n] + Escape(s[n..])
    decreases n
  {
    hide EscapeChar;
    if n == 0 {
      assert s[0..] == s && s[..0] == "";
    } else {
      EscapeCopies(s[1..], n - 1);
      assert EscapeChar(s[0]) == [s[0]] by { HighByteIsCopied(s[0]); }
      assert s[1..][n - 1..] == s[n..];
      assert s[..n] == [s[0]] + s[1..][..n - 1];
    }
  }

  /** High bytes at the front of an escaped text are those of the text. */
  lemma {:induction false} EscapeUncopies(s: string, n: nat)
    requires n <= |Escape(s)| && forall i :: 0 <= i < n ==> Escape(s)[i] as int >= 0x80
    ensures n <= |s| && forall i :: 0 <= i < n ==> s[i] == Escape(s)[i]
    decreases n
  {
    if n > 0 {
      var e := EscapeChar(s[0]);
      assert Escape(s) == e + Escape(s[1..]) && e[0] == Escape(s)[0];
      HighByteIsCopied(s[0]);
      assert forall i :: 0 <= i < n - 1 ==> Escape(s[1..])[i] == Escape(s)[i + 1];
      EscapeUncopies(s[1..], n - 1);
      assert forall i :: 0 < i < n ==> s[i] == s[1..][i - 1] && Escape(s)[i] == Escape(s[1..])[i - 1];
    }
  }

  lemma SameFront(a: string, b: string)
    requires a != "" && 0 < CharLength(a) <= |b| && a[..CharLength(a)] == b[..CharLength(a)]
    ensures CharLength(b) == CharLength(a)
  {
    assert forall i :: 0 <= i < CharLength(a) ==> Code(a, i) == a[..CharLength(a)][i] as int;
    assert forall i :: 0 <= i < CharLength(a) ==> Code(b, i) == b[..CharLength(a)][i] as int;
  }

  lemma HighByteStays(s: string)
    requires s != "" && s[0] as int >= 0x80
    ensures Escape(s) != "" && Escape(s)[0] == s[0]
  {
    HighByteIsCopied(s[0]);
  }

  lemma EscapeKeepsLongChar(s: string)
    requires s != "" && CharLength(s) > 1
    ensures Escape(s) != "" && CharLength(Escape(s)) == CharLength(s)
    ensures var n := CharLength(s); Escape(s)[n..] == Escape(s[n..])
  {
    var n := CharLength(s);
    hide CharLength, Escape;
    EscapeCopies(s, n);
    assert Escape(s)[..n] == s[..n] && Escape(s)[n..] == Escape(s[n..]);
    SameFront(s, Escape(s));
  }

  lemma EscapeMakesNoChar(s: string)
    requires Escape(s) != "" && CharLength(Escape(s)) > 1
    ensures s != "" && CharLength(s) == CharLength(Escape(s))
  {
    var e, n := Escape(s), CharLength(Escape(s));
    hide CharLength, Escape;
    EscapeUncopies(s, n);
    assert e[..n] == s[..n];
    SameFront(e, s);
  }

  /** The first character of an escaped text, when it is no ASCII character, is that of the text. */
  lemma EscapeKeepsChar(s: string)
    requires s != "" && s[0] as int >= 0x80
    ensures Escape(s) != "" && CharLength(Escape(s)) == CharLength(s)
    ensures CharLength(s) > 0 ==> var n := CharLength(s); Escape(s)[n..] == Escape(s[n..])
  {
    HighByteStays(s);
    hide CharLength, Escape;
    if CharLength(s) > 0 {
      EscapeKeepsLongChar(s);
    } else if CharLength(Escape(s)) > 0 {
      EscapeMakesNoChar(s);
    }
  }

  /** Escaping neither makes nor breaks UTF-8. */
  lemma {:induction false} EscapeIsUtf8(s: string)
    ensures IsUtf8(Escape(s)) <==> IsUtf8(s)
    decreases |s|
  {
    hide EscapeChar;
    if s != "" {
      if s[0] as int < 0x80 {
        assert CharLength(s) == 1;
        EscapeIsUtf8(s[1..]);
        EscapeCharIsAscii(s[0]);
        Utf8After(EscapeChar(s[0]), Escape(s[1..]));
      } else {
        EscapeKeepsChar(s);
        var n := CharLength(s);
        if n > 0 {
          EscapeIsUtf8(s[n..]);
        }
      }
    }
  }

  // ---------------------------------------------------------------- when printed documents are UTF-8

  /** Every string and key of the value is valid UTF-8. */
  ghost predicate ValidStrings(v: Value) {
    match v
    case String(s) => IsUtf8(s)
    case List(items) => forall item :: item in items ==> ValidStrings(item)
    case Dictionary(entries) => forall e :: e in entries ==> IsUtf8(e.key) && ValidStrings(e.value)
    case _ => true
  }

  ghost predicate ValidItems(items: seq<Value>) {
    forall item :: item in items ==> ValidStrings(item)
  }

  ghost predicate ValidEntries(entries: seq<Entry>) {
    forall e :: e in entries ==> IsUtf8(e.key) && ValidStrings(e.value)
  }

  lemma IntIsAscii(n: int)
    ensures IsAscii(IntToString(n))
  {
    var s := NatToString(if n < 0 then -n else n);
    forall c | c in IntToString(n) ensures c as int < 0x80 {
      if c in s {
        assert IsDigit(c);
      }
    }
  }

  lemma QuoteIsUtf8(s: string)
    ensures IsUtf8(Quote(s)) <==> IsUtf8(s)
  {
    hide Escape;
    EscapeIsUtf8(s);
    Utf8Between("\"", Escape(s), "\"");
  }

  lemma PrintStartsChar(v: Value, pretty: bool, depth: nat)
    ensures StartsChar(Print(v, pretty, depth))
  {
    hide NatToString, Escape, PrintItems, PrintEntries, Indent;
    match v
    case Integer(n) =>
      var s := NatToString(if n < 0 then -n else n);
      assert IsDigit(s[0]);
    case _ =>
  }

  lemma IndentIsAscii(depth: nat)
    ensures IsAscii(Indent(depth)) && IsAscii(LINE_ENDING + Indent(depth) + "}")
  {
  }

  /** A document is printed as UTF-8 exactly when all its strings are UTF-8. */
  lemma {:induction false} PrintIsUtf8(v: Value, pretty: bool, depth: nat)
    ensures IsUtf8(Print(v, pretty, depth)) <==> ValidStrings(v)
    decreases v, 1
  {
    hide IsUtf8, Quote, IntToString, Indent, PrintItems, PrintEntries;
    match v
    case Integer(n) =>
      IntIsAscii(n);
      AsciiIsUtf8(IntToString(n));
    case String(s) => QuoteIsUtf8(s);
    case List(items) =>
      PrintItemsIsUtf8(items, pretty, depth, true);
      var w := if pretty then " " else "";
      var p := PrintItems(items, pretty, depth, true);
      assert "[" + w + p + w + "]" == ("[" + w) + p + (w + "]");
      Utf8Between("[" + w, p, w + "]");
    case Dictionary(entries) =>
      PrintEntriesIsUtf8(entries, pretty, depth, true);
      IndentIsAscii(depth);
      var w := if pretty then LINE_ENDING else "";
      var e := if pretty then LINE_ENDING + Indent(depth) else "";
      var p := PrintEntries(entries, pretty, depth, true);
      assert "{" + w + p + e + "}" == ("{" + w) + p + (e + "}");
      Utf8Between("{" + w, p, e + "}");
    case Null => AsciiIsUtf8("null");
    case Boolean(b) => AsciiIsUtf8(if b then "true" else "false");
  }

  lemma ItemsStartChar(items: seq<Value>, pretty: bool, depth: nat)
    ensures StartsChar(PrintItems(items, pretty, depth, false))
  {
    hide Print;
  }

  lemma ValidItemsCons(items: seq<Value>)
    requires items != []
    ensures ValidItems(items) <==> ValidStrings(items[0]) && ValidItems(items[1..])
  {
    assert items == [items[0]] + items[1..];
  }

  lemma {:induction false} PrintItemsIsUtf8(items: seq<Value>, pretty: bool, depth: nat, first: bool)
    ensures IsUtf8(PrintItems(items, pretty, depth, first)) <==> ValidItems(items)
    decreases items, 0
  {
    hide IsUtf8, Print, ValidStrings, ValidItems;
    if items == [] {
      AsciiIsUtf8("");
      NoItemsValid();
    } else {
      PrintIsUtf8(items[0], pretty, depth);
      PrintItemsIsUtf8(items[1..], pretty, depth, false);
      ValidItemsCons(items);
      ItemsStartChar(items[1..], pretty, depth);
      var sep := Separator(pretty, first, " ");
      var p := Print(items[0], pretty, depth);
      Utf8After(sep, p);
      Utf8Concat(sep + p, PrintItems(items[1..], pretty, depth, false));
    }
  }

  lemma NoItemsValid()
    ensures ValidItems([]) && ValidEntries([])
  {
  }

  lemma PrintKeyIsUtf8(key: string, pretty: bool, depth: nat)
    ensures IsUtf8(PrintKey(key, pretty, depth)) <==> IsUtf8(key)
  {
    hide IsUtf8, Quote, Indent;
    IndentIsAscii(depth + 1);
    QuoteIsUtf8(key);
    Utf8Between(if pretty then Indent(depth + 1) else "", Quote(key), if pretty then ": " else ":");
  }

  lemma EntriesStartChar(entries: seq<Entry>, pretty: bool, depth: nat)
    ensures StartsChar(PrintEntries(entries, pretty, depth, false))
  {
    hide Print, PrintKey;
  }

  lemma ValidEntriesCons(entries: seq<Entry>)
    requires entries != []
    ensures ValidEntries(entries) <==>
              IsUtf8(entries[0].key) && ValidStrings(entries[0].value) && ValidEntries(entries[1..])
  {
    assert entries == [entries[0]] + entries[1..];
  }

  lemma {:induction false} PrintEntriesIsUtf8(entries: seq<Entry>, pretty: bool, depth: nat, first: bool)
    ensures IsUtf8(PrintEntries(entries, pretty, depth, first)) <==> ValidEntries(entries)
    decreases entries, 0
  {
    hide IsUtf8, Print, PrintKey, ValidStrings, ValidEntries;
    if entries == [] {
      AsciiIsUtf8("");
      NoItemsValid();
    } else {
      var e := entries[0];
      PrintIsUtf8(e.value, pretty, depth + 1);
      PrintEntriesIsUtf8(entries[1..], pretty, depth, false);
      ValidEntriesCons(entries);
      EntriesStartChar(entries[1..], pretty, depth);
      PrintStartsChar(e.value, pretty, depth + 1);
      PrintKeyIsUtf8(e.key, pretty, depth);
      var sep := Separator(pretty, first, LINE_ENDING);
      var k, p := PrintKey(e.key, pretty, depth), Print(e.value, pretty, depth + 1);
      Utf8After(sep, k);
      Utf8Concat(sep + k, p);
      Utf8Concat(sep + k + p, PrintEntries(entries[1..], pretty, depth, false));
    }
  }

  // ---------------------------------------------------------------- documents

  /** JsonToValue: None is a failure, whatever its message. */
  function JsonToValue(json: string, checkRoot: bool, trailing: bool): Option<Value> {
    var text := CStr(json);
    if !IsUtf8(text) then None
    else match Build(text, 0, checkRoot, trailing)
         case None => None
         case Some(root) => if NextToken(root.rest).kind.EndOfInput? then Some(root.value) else None
  }

  function Read(json: string, trailing: bool): Option<Value> {
    JsonToValue(json, true, trailing)
  }

  lemma {:induction false} CStrOfText(t: string)
    requires NUL !in t
    ensures CStr(t) == t
  {
    if t != "" {
      assert t[0] in t;
      CStrOfText(t[1..]);
    }
  }

  lemma LeafIsNoRoot(t: CString, trailing: bool)
    requires IsLeaf(NextToken(t).kind)
    ensures Build(t, 0, true, trailing).None?
  {
    hide FrontToken, SkipSpace, LeafValue, BuildItems, BuildEntries;
  }

  lemma RootPrinted(v: Value, pretty: bool, r: CString, trailing: bool)
    requires WellFormed(v) && EndsNumber(r)
    ensures Build(ValueText(v, pretty, 0, r), 0, true, trailing)
         == if IsContainer(v) && Height(v) <= STACK_LIMIT then Some(Parsed(v, r)) else None
  {
    if IsContainer(v) {
      ContainerPrinted(v, pretty, 0, r, 0, true, trailing);
    } else {
      LeafIsToken(v, pretty, 0, r);
      PrintStarts(v, pretty, 0, r);
      SkipSolid(ValueText(v, pretty, 0, r));
      hide LeafValue, Print, ValueText, StartsValue, FrontToken, SkipSpace, Solid, WellFormed, BuildItems, BuildEntries;
      LeafIsNoRoot(ValueText(v, pretty, 0, r), trailing);
    }
  }

  /** Reading a text without NUL. */
  lemma ReadText(t: CString, trailing: bool)
    ensures Read(t, trailing)
         == if !IsUtf8(t) || Build(t, 0, true, trailing).None? then None
            else
              var root := Build(t, 0, true, trailing).value;
              if NextToken(root.rest).kind.EndOfInput? then Some(root.value) else None
  {
    hide Build, IsUtf8, NextToken;
    CStrOfText(t);
  }

  lemma NothingFollows(r: CString)
    requires AllSpace(r)
    ensures NextToken(r).kind.EndOfInput?
  {
    hide SpaceLength;
    assert r + "" == r;
    SkipPast(r, "");
    assert Rest("", 0) == "";
  }

  lemma WriteIsUtf8(v: Value, pretty: bool)
    ensures IsUtf8(Write(v, pretty)) <==> ValidStrings(v)
  {
    hide Print, IsUtf8, ValidStrings;
    PrintIsUtf8(v, pretty, 0);
    var r := if pretty then LINE_ENDING else "";
    AsciiIsUtf8(r);
    Utf8Concat(Print(v, pretty, 0), r);
  }

  /**
   Printing and reading back: every container, compact or pretty, comes back as itself exactly when its
   nesting counted with leaves is at most 100 and its strings are UTF-8, and is rejected otherwise. A leaf alone
   is no document.
   */
  lemma WriteThenRead(v: Value, pretty: bool, trailing: bool)
    requires WellFormed(v)
    ensures Read(Write(v, pretty), trailing)
         == if IsContainer(v) && Height(v) <= STACK_LIMIT && ValidStrings(v) then Some(v) else None
  {
    hide Print, Build, Height, WellFormed, IsUtf8, ValidStrings, SpaceLength, JsonToValue, NextToken;
    var r: CString := if pretty then LINE_ENDING else "";
    PrintIsText(v, pretty, 0);
    var text: CString := Write(v, pretty);
    assert text == ValueText(v, pretty, 0, r);
    WriteIsUtf8(v, pretty);
    RootPrinted(v, pretty, r, trailing);
    ReadText(text, trailing);
    NothingFollows(r);
  }

  // ---------------------------------------------------------------- strict and lenient

  /** Whatever the strict parser builds, the lenient one builds too. */
  lemma {:induction false} StrictBuildsLenient(t: CString, depth: nat, isRoot: bool)
    ensures Build(t, depth, isRoot, false).Some? ==> Build(t, depth, isRoot, true) == Build(t, depth, isRoot, false)
    decreases |t|, 1
  {
    hide FrontToken, SpaceLength, LeafValue, BuildItems, BuildEntries;
    var u := SkipSpace(t);
    var token := FrontToken(u);
    if token.length > 0 && depth + 1 <= STACK_LIMIT {
      StrictItemsLenient(Rest(u, token.length), depth + 1);
      StrictEntriesLenient(Rest(u, token.length), depth + 1, []);
    }
  }

  lemma SeparatedLenient(t: CString, end: TokenType)
    requires end.ArrayEnd? || end.ObjectEnd?
    ensures !Separated(t, end, false).Fail? ==> Separated(t, end, true) == Separated(t, end, false)
  {
    hide FrontToken, SpaceLength;
  }

  lemma {:induction false} StrictItemsLenient(t: CString, depth: nat)
    ensures BuildItems(t, depth, false).Some? ==> BuildItems(t, depth, true) == BuildItems(t, depth, false)
    decreases |t|, 2
  {
    hide FrontToken, SpaceLength, Build, Separated;
    var u := SkipSpace(t);
    if !FrontToken(u).kind.ArrayEnd? {
      StrictBuildsLenient(u, depth, false);
      var item := Build(u, depth, false, false);
      if item.Some? {
        SeparatedLenient(item.value.rest, ArrayEnd);
        var more := Separated(item.value.rest, ArrayEnd, false);
        if more.More? {
          StrictItemsLenient(more.rest, depth);
        }
      }
    }
  }

  lemma {:induction false} StrictEntriesLenient(t: CString, depth: nat, done: seq<Entry>)
    ensures BuildEntries(t, depth, false, done).Some? ==> BuildEntries(t, depth, true, done) == BuildEntries(t, depth, false, done)
    decreases |t|, 2
  {
    hide FrontToken, SpaceLength, Build, Separated, SetPath, StringValue;
    var u := SkipSpace(t);
    var token := FrontToken(u);
    if token.kind.StringToken? {
      var afterKey := SkipSpace(Rest(u, token.length));
      if FrontToken(afterKey).kind.PairSeparator? {
        var v := SkipSpace(Rest(afterKey, 1));
        StrictBuildsLenient(v, depth, false);
        var item := Build(v, depth, false, false);
        if item.Some? {
          SeparatedLenient(item.value.rest, ObjectEnd);
          var more := Separated(item.value.rest, ObjectEnd, false);
          if more.More? {
            StrictEntriesLenient(more.rest, depth, SetPath(done, StringValue(u), item.value.value));
          }
        }
      }
    }
  }

  /** Disallowing trailing commas only restricts the parser: what it accepts, it reads as the lenient one does. */
  lemma StrictIsRestriction(json: string, checkRoot: bool)
    ensures JsonToValue(json, checkRoot, false).Some? ==>
              JsonToValue(json, checkRoot, true) == JsonToValue(json, checkRoot, false)
  {
    hide Build;
    StrictBuildsLenient(CStr(json), 0, checkRoot);
  }
}
