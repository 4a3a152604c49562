/** Everything the parser builds is a value that the printer and the parser agree on. */
module JsonParsed {
  import opened Prelude
  import opened JsonText
  import opened JsonGrammar
  import opened JsonRoundTrip
  import opened JsonDocument

  // ---------------------------------------------------------------- the order of keys

  lemma {:induction false} LessIsTotal(a: string, b: string)
    ensures Less(a, b) || a == b || Less(b, a)
    decreases |a|
  {
    if a != "" && b != "" && a[0] == b[0] {
      LessIsTotal(a[1..], b[1..]);
      assert a == [a[0]] + a[1..] && b == [b[0]] + b[1..];
    }
  }

  lemma {:induction false} LessIsTransitive(a: string, b: string, c: string)
    requires Less(a, b) && Less(b, c)
    ensures Less(a, c)
    decreases |a|
  {
    if a != "" && a[0] == b[0] && b[0] == c[0] {
      LessIsTransitive(a[1..], b[1..], c[1..]);
    }
  }

  // ---------------------------------------------------------------- inserting keeps dictionaries well formed

  ghost predicate WellFormedEntries(entries: seq<Entry>) {
    && Sorted(entries)
    && forall e :: e in entries ==> '.' !in e.key && WellFormed(e.value)
  }

  lemma WellFormedTail(entries: seq<Entry>)
    requires WellFormedEntries(entries) && entries != []
    ensures WellFormedEntries(entries[1..])
    ensures forall e :: e in entries[1..] ==> Less(entries[0].key, e.key)
  {
    var tail := entries[1..];
    forall i, j | 0 <= i < j < |tail| ensures Less(tail[i].key, tail[j].key) {
      assert tail[i] == entries[i + 1] && tail[j] == entries[j + 1];
    }
    forall e | e in tail ensures Less(entries[0].key, e.key) {
      var i :| 0 <= i < |tail| && tail[i] == e;
      assert entries[i + 1] == e;
    }
  }

  lemma WellFormedCons(e: Entry, entries: seq<Entry>)
    requires WellFormedEntries(entries) && '.' !in e.key && WellFormed(e.value)
    requires forall d :: d in entries ==> Less(e.key, d.key)
    ensures WellFormedEntries([e] + entries)
  {
    var all := [e] + entries;
    forall i, j | 0 <= i < j < |all| ensures Less(all[i].key, all[j].key) {
      if i == 0 {
        assert all[j] in entries;
      } else {
        assert all[i] == entries[i - 1] && all[j] == entries[j - 1];
      }
    }
  }

  /** Inserting a key keeps the map sorted, stores the value and leaves the other keys alone. */
  lemma {:induction false} SetKeyWellFormed(entries: seq<Entry>, key: string, value: Value)
    requires WellFormedEntries(entries) && '.' !in key && WellFormed(value)
    ensures WellFormedEntries(SetKey(entries, key, value))
    ensures Lookup(SetKey(entries, key, value), key) == Some(value)
    ensures forall other :: other != key ==> Lookup(SetKey(entries, key, value), other) == Lookup(entries, other)
    ensures forall e :: e in SetKey(entries, key, value) ==> e.key == key || e in entries
  {
    hide WellFormed, WellFormedEntries;
    var r := SetKey(entries, key, value);
    if entries == [] {
      NoEntriesWellFormed();
      WellFormedCons(Entry(key, value), []);
      assert r == [Entry(key, value)] + [];
    } else {
      var first, tail := entries[0], entries[1..];
      assert entries == [first] + tail;
      WellFormedTail(entries);
      if Less(key, first.key) {
        forall d | d in entries ensures Less(key, d.key) {
          if d in tail {
            LessIsTransitive(key, first.key, d.key);
          }
        }
        WellFormedCons(Entry(key, value), entries);
        LessIsAsymmetric(key, first.key);
      } else if first.key == key {
        WellFormedCons(Entry(key, value), tail);
      } else {
        LessIsTotal(key, first.key);
        SetKeyWellFormed(tail, key, value);
        FirstIsWellFormed(entries);
        WellFormedCons(first, SetKey(tail, key, value));
      }
    }
  }

  lemma NoEntriesWellFormed()
    ensures WellFormedEntries([])
  {
  }

  lemma FirstIsWellFormed(entries: seq<Entry>)
    requires WellFormedEntries(entries) && entries != []
    ensures '.' !in entries[0].key && WellFormed(entries[0].value)
  {
    assert entries[0] in entries;
  }

  lemma {:induction false} LookupIsWellFormed(entries: seq<Entry>, key: string)
    requires WellFormedEntries(entries)
    ensures Lookup(entries, key).Some? ==> WellFormed(Lookup(entries, key).value)
  {
    if entries != [] {
      FirstIsWellFormed(entries);
      WellFormedTail(entries);
      LookupIsWellFormed(entries[1..], key);
    }
  }

  lemma {:induction false} SetPathWellFormed(entries: seq<Entry>, path: string, value: Value)
    requires WellFormedEntries(entries) && WellFormed(value)
    ensures WellFormedEntries(SetPath(entries, path, value))
    decreases |path|
  {
    hide WellFormedEntries, WellFormed, Lookup, SetKey, SetPath, Inner;
    var dot := FirstDot(path);
    if dot == |path| {
      assert path[..dot] == path;
      PlainPath(entries, path, value);
      SetKeyWellFormed(entries, path, value);
    } else {
      SetInside(entries, path, value);
      InnerWellFormed(entries, path[..dot]);
      SetPathWellFormed(Inner(entries, path[..dot]), path[dot + 1..], value);
      var nested := Dictionary(SetPath(Inner(entries, path[..dot]), path[dot + 1..], value));
      DictionaryWellFormed(nested.entries);
      SetKeyWellFormed(entries, path[..dot], nested);
    }
  }

  lemma InnerWellFormed(entries: seq<Entry>, key: string)
    requires WellFormedEntries(entries)
    ensures WellFormedEntries(Inner(entries, key))
  {
    NoEntriesWellFormed();
    LookupIsWellFormed(entries, key);
  }

  lemma DictionaryWellFormed(entries: seq<Entry>)
    ensures WellFormed(Dictionary(entries)) <==> WellFormedEntries(entries)
  {
  }

  // ---------------------------------------------------------------- parsing

  lemma LeafIsWellFormed(t: CString)
    requires IsLeaf(FrontToken(t).kind)
    ensures WellFormed(LeafValue(t))
  {
    hide FrontToken, StringValue;
  }

  /** Every value that the parser builds is well formed. */
  lemma {:induction false} BuiltIsWellFormed(t: CString, depth: nat, isRoot: bool, trailing: bool)
    ensures Build(t, depth, isRoot, trailing).Some? ==> WellFormed(Build(t, depth, isRoot, trailing).value.value)
    decreases |t|, 1
  {
    hide FrontToken, SpaceLength, LeafValue, BuildItems, BuildEntries;
    var u := SkipSpace(t);
    var token := FrontToken(u);
    if IsLeaf(token.kind) {
      LeafIsWellFormed(u);
    } else if token.length > 0 && depth + 1 <= STACK_LIMIT {
      var after := Rest(u, token.length);
      ItemsAreWellFormed(after, depth + 1, trailing);
      NoEntriesWellFormed();
      EntriesAreWellFormed(after, depth + 1, trailing, []);
    }
  }

  lemma {:induction false} ItemsAreWellFormed(t: CString, depth: nat, trailing: bool)
    ensures BuildItems(t, depth, trailing).Some? ==>
              forall item :: item in BuildItems(t, depth, trailing).value.value ==> WellFormed(item)
    decreases |t|, 2
  {
    hide FrontToken, SpaceLength, Build, Separated, WellFormed;
    var u := SkipSpace(t);
    if !FrontToken(u).kind.ArrayEnd? {
      BuiltIsWellFormed(u, depth, false, trailing);
      var item := Build(u, depth, false, trailing);
      if item.Some? {
        var more := Separated(item.value.rest, ArrayEnd, trailing);
        if more.More? {
          ItemsAreWellFormed(more.rest, depth, trailing);
        }
      }
    }
  }

  lemma {:induction false} EntriesAreWellFormed(t: CString, depth: nat, trailing: bool, done: seq<Entry>)
    requires WellFormedEntries(done)
    ensures BuildEntries(t, depth, trailing, done).Some? ==>
              WellFormedEntries(BuildEntries(t, depth, trailing, done).value.value)
    decreases |t|, 2
  {
    hide FrontToken, SpaceLength, Build, Separated, WellFormed, WellFormedEntries, SetPath, StringValue;
    var u := SkipSpace(t);
    var token := FrontToken(u);
    if token.kind.StringToken? {
      var afterKey := SkipSpace(Rest(u, token.length));
      if FrontToken(afterKey).kind.PairSeparator? {
        var v := SkipSpace(Rest(afterKey, 1));
        BuiltIsWellFormed(v, depth, false, trailing);
        var item := Build(v, depth, false, trailing);
        if item.Some? {
          SetPathWellFormed(done, StringValue(u), item.value.value);
          var more := Separated(item.value.rest, ObjectEnd, trailing);
          if more.More? {
            EntriesAreWellFormed(more.rest, depth, trailing, SetPath(done, StringValue(u), item.value.value));
          }
        }
      }
    }
  }

  /**
   A document that has been read can be written and read again without change, whatever its text was, exactly
   when its strings are valid UTF-8 and its nesting is within the limit; otherwise the second reading fails. Both
   can fail: an escape can write any byte, and the dots of a key nest dictionaries beyond the parser's own count.
   */
  lemma ReadWriteRead(json: string, trailing: bool, pretty: bool)
    requires Read(json, trailing).Some?
    ensures var v := Read(json, trailing).value;
            && WellFormed(v) && IsContainer(v)
            && Read(Write(v, pretty), trailing) == if Height(v) <= STACK_LIMIT && ValidStrings(v) then Some(v) else None
  {
    hide FrontToken, SpaceLength, WellFormed, ValidStrings, IsUtf8, Print, Height;
    var text := CStr(json);
    BuiltIsWellFormed(text, 0, true, trailing);
    RootIsContainer(text, trailing);
    WriteThenRead(Read(json, trailing).value, pretty, trailing);
  }

  lemma RootIsContainer(t: CString, trailing: bool)
    ensures Build(t, 0, true, trailing).Some? ==> IsContainer(Build(t, 0, true, trailing).value.value)
  {
    hide FrontToken, SpaceLength, LeafValue, BuildItems, BuildEntries;
  }

  // ---------------------------------------------------------------- a byte that is no UTF-8

  /** A list of one string, which is one escaped byte. */
  const ESCAPED_BYTE: CString := "[\"\\x80\"]"

  /** One escaped byte in front of the rest of a string. */
  lemma EscapedByteUnit(u: CString)
    requires |u| >= 4 && u[0] == '\\' && u[1] == 'x' && u[2] == '8' && u[3] == '0'
    ensures UnitLength(u) == Some(4) && UnitValue(u) == 0x80 as char
  {
    assert At(u, 1) == 'x' && At(u, 2) == '8' && At(u, 3) == '0';
    assert HexDigitsAt(u, 2, 2);
    assert HexValue(u, 2, 1) == 8;
    assert HexValue(u, 2, 2) == 0x80;
  }

  lemma UnitInFront(u: CString, n: nat)
    requires u != "" && u[0] != '"' && UnitLength(u) == Some(n) && StringLength(Rest(u, n)) == Some(1)
    ensures StringLength(u) == Some(n + 1) && Unescape(u) == [UnitValue(u)] + Unescape(Rest(u, n))
  {
    hide UnitLength, UnitValue, Rest;
  }

  lemma QuoteEnds(u: CString)
    requires u != "" && u[0] == '"'
    ensures StringLength(u) == Some(1) && Unescape(u) == ""
  {
  }

  lemma StringInFront(t: CString, n: nat)
    requires t != "" && t[0] == '"' && StringLength(Rest(t, 1)) == Some(n)
    ensures SkipSpace(t) == t && FrontToken(t) == Token(StringToken, 1 + n) && StringValue(t) == Unescape(Rest(t, 1))
  {
    hide StringLength, Unescape, NumberLength, StartsWith, SkipSpace, Rest;
    SkipSolid(t);
    assert At(t, 0) == '"';
  }

  lemma EscapedByteIsToken(t: CString)
    requires t == "\"\\x80\"]"
    ensures SkipSpace(t) == t && FrontToken(t) == Token(StringToken, 6)
    ensures StringValue(t) == [0x80 as char] && Rest(t, 6) == "]"
  {
    var u := Rest(t, 1);
    assert u == "\\x80\"]" && Rest(u, 4) == "\"]";
    hide StringLength, Unescape, UnitLength, UnitValue, FrontToken, SkipSpace, StringValue;
    EscapedByteUnit(u);
    QuoteEnds(Rest(u, 4));
    UnitInFront(u, 4);
    StringInFront(t, 5);
  }

  lemma LeafAtFront(t: CString, depth: nat, trailing: bool)
    requires SkipSpace(t) == t && IsLeaf(FrontToken(t).kind) && depth + 1 <= STACK_LIMIT
    ensures Build(t, depth, false, trailing) == Some(Parsed(LeafValue(t), Rest(t, FrontToken(t).length)))
  {
    hide FrontToken, SkipSpace, LeafValue, BuildItems, BuildEntries;
  }

  lemma ListAtFront(t: CString, depth: nat, trailing: bool)
    requires SkipSpace(t) == t && FrontToken(t) == Token(ArrayBegin, 1) && depth + 1 <= STACK_LIMIT
    requires BuildItems(Rest(t, 1), depth + 1, trailing).Some?
    ensures var items := BuildItems(Rest(t, 1), depth + 1, trailing).value;
            Build(t, depth, true, trailing) == Some(Parsed(List(items.value), items.rest))
  {
    hide FrontToken, SkipSpace, LeafValue, BuildItems, BuildEntries;
  }

  lemma BracketStops(trailing: bool)
    ensures Separated("]", ArrayEnd, trailing) == Stop("")
  {
    hide FrontToken, SpaceLength, Separated;
    assert "" + "]" + "" == "]";
    ListEndSeparates(false, "", trailing);
  }

  lemma EscapedByteIsItem(t: CString, trailing: bool)
    requires t == "\"\\x80\"]"
    ensures BuildItems(t, 1, trailing) == Some(Parsed([String([0x80 as char])], ""))
  {
    hide *;
    EscapedByteIsToken(t);
    EscapedByteLeaf(t, trailing);
    BracketStops(trailing);
    ItemsStep(t, 1, trailing);
  }

  lemma EscapedByteLeaf(t: CString, trailing: bool)
    requires t == "\"\\x80\"]"
    ensures Build(t, 1, false, trailing) == Some(Parsed(String([0x80 as char]), "]"))
  {
    hide Build, BuildItems, FrontToken, SpaceLength, SkipSpace, StringValue, Separated, Rest;
    EscapedByteIsToken(t);
    LeafAtFront(t, 1, trailing);
  }

  lemma EscapedByteBuilds(trailing: bool)
    ensures Build(ESCAPED_BYTE, 0, true, trailing) == Some(Parsed(List([String([0x80 as char])]), ""))
  {
    hide Build, BuildItems, FrontToken, SpaceLength, SkipSpace, StringValue, Separated;
    var inner: CString := "\"\\x80\"]";
    assert Rest(ESCAPED_BYTE, 1) == inner;
    PunctuationIsToken(ESCAPED_BYTE);
    EscapedByteIsItem(inner, trailing);
    ListAtFront(ESCAPED_BYTE, 0, trailing);
  }

  /** So it happens: an escape that writes the byte 80 is read, and what is written for it is not. */
  lemma EscapedByteIsLost(trailing: bool, pretty: bool)
    ensures Read(ESCAPED_BYTE, trailing) == Some(List([String([0x80 as char])]))
    ensures Read(Write(List([String([0x80 as char])]), pretty), trailing) == None
  {
    var v := List([String([0x80 as char])]);
    assert !ValidStrings(v) by {
      assert CharLength([0x80 as char]) == 0;
      assert !IsUtf8([0x80 as char]);
      assert String([0x80 as char]) in v.items;
    }
    assert WellFormed(v);
    AsciiIsUtf8(ESCAPED_BYTE);
    EscapedByteBuilds(trailing);
    hide Build, IsUtf8, Write, ValidStrings, WellFormed;
    ReadText(ESCAPED_BYTE, trailing);
    NothingFollows("");
    WriteThenRead(v, pretty, trailing);
  }

  // ---------------------------------------------------------------- a key of many parts

  /** A key of so many parts. */
  function Parts(n: nat): string
    requires n > 0
  {
    if n == 1 then "a" else "a." + Parts(n - 1)
  }

  /** What is read for null under that key. */
  function Nested(n: nat): Value
    requires n > 0
  {
    Dictionary([Entry("a", if n == 1 then Null else Nested(n - 1))])
  }

  lemma {:induction false} PartsNest(n: nat)
    requires n > 0
    ensures Dictionary(SetPath([], Parts(n), Null)) == Nested(n)
  {
    if n == 1 {
      assert FirstDot("") == 0;
      assert FirstDot("a") == 1;
    } else {
      var path, rest := Parts(n), Parts(n - 1);
      assert path[0] == 'a' && path[1..][0] == '.';
      assert FirstDot(path) == 1;
      assert path[..1] == "a" && path[2..] == rest;
      hide SetPath;
      SetPathStep(path, rest);
      PartsNest(n - 1);
    }
  }

  lemma {:induction false} PartsAreUtf8(n: nat)
    requires n > 0
    ensures IsUtf8(Parts(n))
  {
    hide IsUtf8;
    if n == 1 {
      AsciiIsUtf8("a");
    } else {
      PartsAreUtf8(n - 1);
      Utf8After("a.", Parts(n - 1));
    }
  }

  lemma {:induction false} NestedIsValid(n: nat)
    requires n > 0
    ensures ValidStrings(Nested(n)) && Height(Nested(n)) == n + 1
  {
    AsciiIsUtf8("a");
    hide IsUtf8;
    if n > 1 {
      NestedIsValid(n - 1);
    }
    var e := Nested(n).entries[0];
    EntriesHeightStep([e]);
    assert [e][1..] == [];
    EntriesHeightStep([]);
  }

  lemma SetPathStep(path: string, rest: string)
    requires FirstDot(path) == 1 && |path| >= 2 && path[..1] == "a" && path[2..] == rest
    ensures SetPath([], path, Null) == [Entry("a", Dictionary(SetPath([], rest, Null)))]
  {
  }

  lemma OneKeyBuilds(key: string, trailing: bool)
    ensures Build(ValueText(Dictionary([Entry(key, Null)]), false, 0, ""), 0, true, trailing)
         == Some(Parsed(Dictionary(SetPath([], key, Null)), ""))
  {
    hide Print, PrintEntries, BuildEntries, SpaceLength, FrontToken, LeafValue, ValueText, EntriesText, SetPath, KeyText,
         DictionaryEnd, Separated, EndsNumber;
    var e := Entry(key, Null);
    var t := ValueText(Dictionary([e]), false, 0, "");
    var inner := EntriesText([e], false, 0, true, "");
    var tail := EntriesText([], false, 0, false, "");
    DictionaryText([e], false, 0, "");
    assert "" + inner == inner;
    PunctuationIsToken(t);
    assert Rest(t, 1) == inner;
    assert [e][1..] == [];
    KeyAhead([e], false, 0, "");
    NoEntriesPrinted([], false, 0, "", 1, trailing);
    LeafAlone(tail, trailing);
    KeyStep(inner, e, false, 0, tail, 1, trailing, []);
  }

  lemma LeafAlone(r: CString, trailing: bool)
    requires EndsNumber(r)
    ensures Build(ValueText(Null, false, 1, r), 1, false, trailing) == Some(Parsed(Null, r))
  {
    hide Build, EndsNumber, Print;
    LeafBuilds(Null, false, 1, r, 1, trailing);
  }

  /**
   So it happens: a dictionary whose one key has many parts is read, and what is written for it is read again
   exactly when the parts are fewer than 100.
   */
  lemma LongKeyIsRead(n: nat, trailing: bool)
    requires n > 0
    ensures Read(Write(Dictionary([Entry(Parts(n), Null)]), false), trailing) == Some(Nested(n))
  {
    var v := Dictionary([Entry(Parts(n), Null)]);
    PartsNest(n);
    PartsAreUtf8(n);
    assert ValidStrings(v);
    hide Build, IsUtf8, Print, ValidStrings, Nested, SetPath, NextToken, JsonToValue, Parts;
    WriteIsUtf8(v, false);
    OneKeyBuilds(Parts(n), trailing);
    PrintIsText(v, false, 0);
    var text: CString := Write(v, false);
    assert text == ValueText(v, false, 0, "");
    hide Write, ValueText;
    ReadText(text, trailing);
    NothingFollows("");
  }

  lemma LongKeyIsLost(n: nat, trailing: bool, pretty: bool)
    requires n > 0
    ensures Read(Write(Dictionary([Entry(Parts(n), Null)]), false), trailing) == Some(Nested(n))
    ensures Read(Write(Nested(n), pretty), trailing) == if n < 100 then Some(Nested(n)) else None
  {
    hide JsonToValue, Write, Print, Nested, Parts, ValidStrings, Height, WellFormed, IsUtf8;
    LongKeyIsRead(n, trailing);
    NestedIsValid(n);
    ReadWriteRead(Write(Dictionary([Entry(Parts(n), Null)]), false), trailing, pretty);
  }

  // ---------------------------------------------------------------- looking up what was set

  lemma {:induction false} LookupSetKey(entries: seq<Entry>, key: string, value: Value)
    ensures Lookup(SetKey(entries, key, value), key) == Some(value)
    ensures forall other :: other != key ==> Lookup(SetKey(entries, key, value), other) == Lookup(entries, other)
  {
    hide Less;
    if entries != [] {
      LookupSetKey(entries[1..], key, value);
    }
  }

  lemma LookupSetPath(entries: seq<Entry>, key: string, value: Value)
    requires '.' !in key
    ensures Lookup(SetPath(entries, key, value), key) == Some(value)
    ensures forall other :: other != key ==> Lookup(SetPath(entries, key, value), other) == Lookup(entries, other)
  {
    NoDot(key);
    LookupSetKey(entries, key, value);
  }

  /** The value at a path, part by part. */
  function Find(entries: seq<Entry>, path: string): Option<Value>
    decreases |path|
  {
    var dot := FirstDot(path);
    if dot == |path| then Lookup(entries, path)
    else match Lookup(entries, path[..dot])
         case Some(Dictionary(inner)) => Find(inner, path[dot + 1..])
         case _ => None
  }

  /** The dictionary at the first part of a path, empty if there is none. */
  function Inner(entries: seq<Entry>, key: string): seq<Entry> {
    match Lookup(entries, key)
    case Some(Dictionary(existing)) => existing
    case _ => []
  }

  lemma SetInside(entries: seq<Entry>, path: string, value: Value)
    requires FirstDot(path) < |path|
    ensures var dot := FirstDot(path);
            SetPath(entries, path, value)
            == SetKey(entries, path[..dot], Dictionary(SetPath(Inner(entries, path[..dot]), path[dot + 1..], value)))
  {
    hide SetKey;
  }

  /** What is set at a path is found there. */
  lemma {:induction false} SetPathStores(entries: seq<Entry>, path: string, value: Value)
    ensures Find(SetPath(entries, path, value), path) == Some(value)
    decreases |path|
  {
    hide SetKey, SetPath;
    var dot := FirstDot(path);
    if dot == |path| {
      NoDot(path);
      PlainPath(entries, path, value);
    } else {
      SetInside(entries, path, value);
      var inner := SetPath(Inner(entries, path[..dot]), path[dot + 1..], value);
      LookupSetKey(entries, path[..dot], Dictionary(inner));
      SetPathStores(Inner(entries, path[..dot]), path[dot + 1..], value);
    }
  }

  lemma PlainPath(entries: seq<Entry>, path: string, value: Value)
    requires '.' !in path
    ensures SetPath(entries, path, value) == SetKey(entries, path, value)
    ensures Lookup(SetPath(entries, path, value), path) == Some(value)
    ensures forall other :: other != path ==> Lookup(SetPath(entries, path, value), other) == Lookup(entries, other)
  {
    NoDot(path);
    LookupSetKey(entries, path, value);
    hide SetKey;
  }

  /** Paths of which neither leads to or through the other. */
  predicate Apart(p: string, q: string) {
    p != q && !(p + "." <= q) && !(q + "." <= p)
  }

  /** What is found at any other path stays as it was. */
  lemma {:induction false} SetPathKeeps(entries: seq<Entry>, path: string, value: Value, other: string)
    requires Apart(path, other)
    ensures Find(SetPath(entries, path, value), other) == Find(entries, other)
    decreases |path|
  {
    hide SetKey, SetPath, Apart, Find;
    var dot := FirstDot(path);
    if dot == |path| {
      NoDot(path);
      PlainPath(entries, path, value);
      FirstPartsDiffer(path, other);
      FindElsewhere(entries, SetPath(entries, path, value), other);
    } else {
      var a, rest := path[..dot], path[dot + 1..];
      var inner := SetPath(Inner(entries, a), rest, value);
      SetInside(entries, path, value);
      LookupSetKey(entries, a, Dictionary(inner));
      if a == other[..FirstDot(other)] {
        RestsApart(path, other);
        SetPathKeeps(Inner(entries, a), rest, value, other[dot + 1..]);
        FindInside(entries, other);
        FindInside(SetPath(entries, path, value), other);
      } else {
        FindElsewhere(entries, SetPath(entries, path, value), other);
      }
    }
  }

  /** What is found depends on what there is at the first part of the path. */
  lemma FindElsewhere(entries: seq<Entry>, entries': seq<Entry>, path: string)
    requires Lookup(entries, path[..FirstDot(path)]) == Lookup(entries', path[..FirstDot(path)])
    ensures Find(entries, path) == Find(entries', path)
  {
    hide Lookup;
    assert FirstDot(path) == |path| ==> path[..FirstDot(path)] == path;
  }

  lemma FindInside(entries: seq<Entry>, path: string)
    requires FirstDot(path) < |path|
    ensures Find(entries, path) == Find(Inner(entries, path[..FirstDot(path)]), path[FirstDot(path) + 1..])
  {
    hide Lookup;
    NothingFound(path[FirstDot(path) + 1..]);
  }

  lemma FirstPartsDiffer(path: string, other: string)
    requires '.' !in path && Apart(path, other)
    ensures other[..FirstDot(other)] != path
  {
    var dot := FirstDot(other);
    if dot < |other| {
      assert other[..dot + 1] == other[..dot] + ".";
    } else {
      assert other[..dot] == other;
    }
  }

  lemma RestsApart(path: string, other: string)
    requires Apart(path, other) && FirstDot(path) < |path| && path[..FirstDot(path)] == other[..FirstDot(other)]
    ensures FirstDot(other) == FirstDot(path) < |other|
    ensures Apart(path[FirstDot(path) + 1..], other[FirstDot(path) + 1..])
  {
    hide *;
    var dot, dot' := FirstDot(path), FirstDot(other);
    assert dot == |path[..dot]| == |other[..dot']| == dot';
    AtDot(path, dot);
    if dot == |other| {
      Through(path, other, dot);
    } else {
      AtDot(other, dot);
      StillApart(path[..dot + 1], path[dot + 1..], other[dot + 1..]);
    }
  }

  lemma AtDot(path: string, dot: nat)
    requires dot < |path| && path[dot] == '.'
    ensures path[..dot + 1] == path[..dot] + "." && path == path[..dot + 1] + path[dot + 1..]
  {
  }

  lemma Through(path: string, other: string, dot: nat)
    requires dot == |other| < |path| && path[dot] == '.' && path[..dot] == other[..dot]
    ensures !Apart(path, other)
  {
    assert other + "." == path[..dot + 1];
  }

  lemma StillApart(head: string, a: string, b: string)
    requires Apart(head + a, head + b)
    ensures Apart(a, b)
  {
    if a + "." <= b {
      ComesFirst(head, a, b);
    }
    if b + "." <= a {
      ComesFirst(head, b, a);
    }
  }

  lemma ComesFirst(head: string, a: string, b: string)
    requires a + "." <= b
    ensures (head + a) + "." <= head + b
  {
    assert b == (a + ".") + b[|a| + 1..];
    assert head + b == (head + a + ".") + b[|a| + 1..];
  }

  lemma NothingFound(path: string)
    ensures Find([], path) == None
  {
  }

  /** The order of the keys: the first difference decides, and a proper beginning comes first. */
  lemma {:induction false} LessMeans(a: string, b: string)
    ensures Less(a, b) <==> exists i :: FirstDifference(a, b, i)
    decreases |a|
  {
    if b != "" && a == "" {
      assert FirstDifference(a, b, 0);
    } else if a != "" && b != "" {
      LessMeans(a[1..], b[1..]);
      if a[0] < b[0] {
        assert FirstDifference(a, b, 0);
      }
      if a[0] == b[0] && Less(a[1..], b[1..]) {
        var i: nat :| FirstDifference(a[1..], b[1..], i);
        MoveDifference(a, b, i);
        assert FirstDifference(a, b, i + 1);
      }
      if i: nat :| FirstDifference(a, b, i) && i > 0 {
        assert a[0] == a[..i][0] == b[..i][0] == b[0];
        MoveDifference(a, b, i - 1);
      }
    }
  }

  ghost predicate FirstDifference(a: string, b: string, i: nat) {
    i <= |a| && i < |b| && a[..i] == b[..i] && (i == |a| || a[i] < b[i])
  }

  lemma MoveDifference(a: string, b: string, i: nat)
    requires a != "" && b != "" && a[0] == b[0]
    ensures FirstDifference(a[1..], b[1..], i) <==> FirstDifference(a, b, i + 1)
  {
    if i < |a| && i + 1 < |b| {
      assert a[..i + 1] == [a[0]] + a[1..][..i] && b[..i + 1] == [b[0]] + b[1..][..i];
      assert a[1..][..i] == a[..i + 1][1..] && b[1..][..i] == b[..i + 1][1..];
    }
  }
}
