/** Parsing what was printed gives the printed value, down to the nesting limit and no deeper. */
module JsonRoundTrip {
  import opened Prelude
  import opened JsonText
  import opened JsonGrammar

  /** What the program's values satisfy: int32 integers, and sorted keys that are no paths. */
  ghost predicate WellFormed(v: Value) {
    match v
    case Integer(n) => INT32_MIN <= n <= INT32_MAX
    case List(items) => forall item :: item in items ==> WellFormed(item)
    case Dictionary(entries) =>
      && Sorted(entries)
      && forall e :: e in entries ==> '.' !in e.key && WellFormed(e.value)
    case _ => true
  }

  /** The nesting of a value, counting the leaves. */
  function Height(v: Value): (h: nat)
    ensures h >= 1
    decreases v, 1
  {
    match v
    case List(items) => 1 + ItemsHeight(items)
    case Dictionary(entries) => 1 + EntriesHeight(entries)
    case _ => 1
  }

  function ItemsHeight(items: seq<Value>): nat
    decreases items, 0
  {
    if items == [] then 0 else Max(Height(items[0]), ItemsHeight(items[1..]))
  }

  function EntriesHeight(entries: seq<Entry>): nat
    decreases entries, 0
  {
    if entries == [] then 0 else Max(Height(entries[0].value), EntriesHeight(entries[1..]))
  }

  /** The result of parsing something of some height under some number of enclosing values. */
  function Expected<T>(depth: nat, height: nat, value: T, rest: CString): Option<Parsed<T>> {
    if depth + height <= STACK_LIMIT then Some(Parsed(value, rest)) else None
  }

  lemma NothingExpected<T>(depth: nat, value: T, rest: CString)
    requires depth <= STACK_LIMIT
    ensures Expected(depth, 0, value, rest) == Some(Parsed(value, rest))
  {
  }

  predicate IsContainer(v: Value) {
    v.List? || v.Dictionary?
  }

  // ---------------------------------------------------------------- whitespace

  predicate AllSpace(w: string) {
    forall c :: c in w ==> IsSpace(c)
  }

  lemma IndentIsSpace(depth: nat)
    ensures AllSpace(Indent(depth)) && AllSpace(LINE_ENDING) && AllSpace(LINE_ENDING + Indent(depth))
  {
  }

  /** The text starts with neither whitespace nor a comment. */
  predicate Solid(t: CString) {
    t != "" && !IsSpace(t[0]) && t[0] != '/'
  }

  lemma SkipSolid(t: CString)
    requires Solid(t)
    ensures SkipSpace(t) == t
  {
    assert CommentLength(t) == None;
  }

  lemma {:induction false} SkipPast(w: string, t: CString)
    requires AllSpace(w)
    ensures NUL !in w + t && SkipSpace(w + t) == SkipSpace(t)
    decreases |w|
  {
    assert NUL !in w + t by {
      assert !IsSpace(NUL);
    }
    if w == "" {
      assert w + t == t;
    } else {
      var u: CString := w + t;
      assert IsSpace(w[0]);
      assert Rest(u, 1) == w[1..] + t;
      SkipPast(w[1..], t);
      var n := SpaceLength(w[1..] + t);
      assert SpaceLength(u) == 1 + n;
      assert Rest(u, 1 + n) == Rest(Rest(u, 1), n);
    }
  }

  /** The kind of a one-character token. */
  function Punctuation(c: char): Option<TokenType> {
    if c == '[' then Some(ArrayBegin)
    else if c == ']' then Some(ArrayEnd)
    else if c == ',' then Some(ListSeparator)
    else if c == '{' then Some(ObjectBegin)
    else if c == '}' then Some(ObjectEnd)
    else if c == ':' then Some(PairSeparator)
    else None
  }

  lemma FrontPunctuation(t: CString)
    requires t != "" && Punctuation(t[0]).Some?
    ensures FrontToken(t) == Token(Punctuation(t[0]).value, 1)
  {
    hide NumberLength, StringLength, StartsWith, Rest, IsDigit;
    var c := At(t, 0);
    assert c == t[0] && c != NUL;
  }

  lemma PunctuationIsToken(t: CString)
    requires t != "" && Punctuation(t[0]).Some?
    ensures SkipSpace(t) == t && FrontToken(t) == Token(Punctuation(t[0]).value, 1)
  {
    hide FrontToken;
    FrontPunctuation(t);
    SkipSolid(t);
  }

  // ---------------------------------------------------------------- dictionaries

  lemma {:induction false} LessIsAsymmetric(a: string, b: string)
    requires Less(a, b)
    ensures !Less(b, a) && a != b
    decreases |a|
  {
    if a != "" && a[0] == b[0] {
      LessIsAsymmetric(a[1..], b[1..]);
    }
  }

  lemma {:induction false} SetKeyLast(entries: seq<Entry>, key: string, value: Value)
    requires forall e :: e in entries ==> Less(e.key, key)
    ensures SetKey(entries, key, value) == entries + [Entry(key, value)]
  {
    if entries != [] {
      assert entries[0] in entries;
      LessIsAsymmetric(entries[0].key, key);
      SetKeyLast(entries[1..], key, value);
    }
  }

  lemma {:induction false} NoDot(path: string)
    requires '.' !in path
    ensures FirstDot(path) == |path|
  {
    if path != "" {
      NoDot(path[1..]);
    }
  }

  lemma SetPathLast(done: seq<Entry>, e: Entry, rest: seq<Entry>)
    requires Sorted(done + [e] + rest) && '.' !in e.key
    ensures SetPath(done, e.key, e.value) == done + [e]
  {
    NoDot(e.key);
    var all := done + [e] + rest;
    forall d | d in done ensures Less(d.key, e.key) {
      var i :| 0 <= i < |done| && done[i] == d;
      assert all[i] == d && all[|done|] == e;
    }
    SetKeyLast(done, e.key, e.value);
  }

  // ---------------------------------------------------------------- leaves

  /** The characters that a printed value starts with. */
  predicate StartsValue(t: CString) {
    Solid(t) && t[0] != ',' && t[0] != ']' && t[0] != '}' && t[0] != ':'
  }

  lemma PrintStarts(v: Value, pretty: bool, depth: nat, r: CString)
    requires NUL !in Print(v, pretty, depth) + r
    ensures StartsValue(Print(v, pretty, depth) + r)
  {
    var p := Print(v, pretty, depth);
    match v
    case Integer(n) =>
      var s := NatToString(if n < 0 then -n else n);
      assert IsDigit(s[0]);
      assert p[0] == if n < 0 then '-' else s[0];
    case _ =>
      assert p != "" && (p + r)[0] == p[0];
  }

  lemma IntBuilds(n: int, r: CString)
    requires INT32_MIN <= n <= INT32_MAX && EndsNumber(r)
    ensures NUL !in IntToString(n) + r
    ensures FrontToken(IntToString(n) + r) == Token(Number, |IntToString(n)|)
  {
    hide NumberLength, StringLength;
    IntIsToken(n, r);
    var s := NatToString(if n < 0 then -n else n);
    assert IsDigit(s[0]);
    var t: CString := IntToString(n) + r;
    assert At(t, 0) == if n < 0 then '-' else s[0];
  }

  lemma StringBuilds(s: string, r: CString)
    ensures NUL !in Quote(s) + r
    ensures FrontToken(Quote(s) + r) == Token(StringToken, |Quote(s)|)
    ensures StringValue(Quote(s) + r) == s
  {
    hide Escape, NumberLength, StringLength, Unescape;
    var t: CString := Quote(s) + r;
    EscapeRoundTrip(s, r);
    assert Rest(t, 1) == Escape(s) + "\"" + r;
  }

  lemma LeafStarts(word: string, r: CString)
    requires word == "null" || word == "true" || word == "false"
    ensures NUL !in word + r
    ensures FrontToken(word + r) == Token(if word == "null" then NullToken else if word == "true" then BoolTrue
                                          else BoolFalse, |word|)
  {
    var t: CString := word + r;
    assert word <= t && At(t, 0) == word[0];
  }

  /** A printed leaf is one token of its value. */
  lemma LeafIsToken(v: Value, pretty: bool, printDepth: nat, r: CString)
    requires !IsContainer(v) && WellFormed(v) && EndsNumber(r)
    ensures var p := Print(v, pretty, printDepth);
            && NUL !in p + r
            && FrontToken(p + r).length == |p| && IsLeaf(FrontToken(p + r).kind)
            && LeafValue(p + r) == v
  {
    hide NatToString, Escape, NumberLength, StringLength, Unescape, IntValue, IntToString, StringValue, Quote;
    var p := Print(v, pretty, printDepth);
    match v {
      case Null => LeafStarts("null", r);
      case Boolean(b) => LeafStarts(if b then "true" else "false", r);
      case Integer(n) =>
        IntBuilds(n, r);
        IntRoundTrip(n);
        assert (p + r)[..|p|] == p;
      case String(s) => StringBuilds(s, r);
      case _ =>
    }
  }

  lemma LeafBuilds(v: Value, pretty: bool, printDepth: nat, r: CString, depth: nat, trailing: bool)
    requires !IsContainer(v) && WellFormed(v) && EndsNumber(r)
    ensures NUL !in Print(v, pretty, printDepth) + r
    ensures Build(Print(v, pretty, printDepth) + r, depth, false, trailing)
         == if depth + 1 <= STACK_LIMIT then Some(Parsed(v, r)) else None
  {
    hide Print, LeafValue, FrontToken;
    var p := Print(v, pretty, printDepth);
    LeafIsToken(v, pretty, printDepth, r);
    var t: CString := p + r;
    PrintStarts(v, pretty, printDepth, r);
    SkipSolid(t);
    assert Rest(t, |p|) == r;
  }

  // ---------------------------------------------------------------- no printed text holds a NUL

  lemma IntIsText(n: int)
    ensures NUL !in IntToString(n)
  {
    assert !IsDigit(NUL);
  }

  lemma {:induction false} PrintIsText(v: Value, pretty: bool, depth: nat)
    ensures NUL !in Print(v, pretty, depth)
    decreases v, 1
  {
    hide IntToString, Quote;
    match v
    case Integer(n) => IntIsText(n);
    case List(items) => PrintItemsIsText(items, pretty, depth, true);
    case Dictionary(entries) => PrintEntriesIsText(entries, pretty, depth, true);
    case _ =>
  }

  lemma {:induction false} PrintItemsIsText(items: seq<Value>, pretty: bool, depth: nat, first: bool)
    ensures NUL !in PrintItems(items, pretty, depth, first)
    decreases items, 0
  {
    if items != [] {
      PrintIsText(items[0], pretty, depth);
      PrintItemsIsText(items[1..], pretty, depth, false);
    }
  }

  lemma {:induction false} PrintEntriesIsText(entries: seq<Entry>, pretty: bool, depth: nat, first: bool)
    ensures NUL !in PrintEntries(entries, pretty, depth, first)
    decreases entries, 0
  {
    hide Quote;
    if entries != [] {
      PrintIsText(entries[0].value, pretty, depth + 1);
      PrintEntriesIsText(entries[1..], pretty, depth, false);
    }
  }

  // ---------------------------------------------------------------- containers

  /** The end of a printed list, and the text after it. */
  function ListEnd(pretty: bool, r: CString): (t: CString) {
    (if pretty then " " else "") + "]" + r
  }

  /** The end of a printed dictionary, and the text after it. */
  function DictionaryEnd(pretty: bool, depth: nat, r: CString): (t: CString) {
    (if pretty then LINE_ENDING + Indent(depth) else "") + "}" + r
  }

  function ItemsText(items: seq<Value>, pretty: bool, depth: nat, first: bool, r: CString): (t: CString) {
    PrintItemsIsText(items, pretty, depth, first);
    PrintItems(items, pretty, depth, first) + ListEnd(pretty, r)
  }

  function EntriesText(entries: seq<Entry>, pretty: bool, depth: nat, first: bool, r: CString): (t: CString) {
    PrintEntriesIsText(entries, pretty, depth, first);
    PrintEntries(entries, pretty, depth, first) + DictionaryEnd(pretty, depth, r)
  }

  function ValueText(v: Value, pretty: bool, depth: nat, r: CString): (t: CString) {
    PrintIsText(v, pretty, depth);
    Print(v, pretty, depth) + r
  }

  /** Whitespace and a closing bracket. */
  lemma EndSeparates(w: string, u: CString, t: CString, end: TokenType, trailing: bool)
    requires AllSpace(w) && t == w + u && (end.ArrayEnd? || end.ObjectEnd?)
    requires u != "" && Punctuation(u[0]) == Some(end)
    ensures EndsNumber(t)
    ensures SkipSpace(t) == u && FrontToken(u) == Token(end, 1)
    ensures Separated(t, end, trailing) == Stop(Rest(u, 1))
  {
    hide FrontToken, SpaceLength;
    SkipPast(w, u);
    PunctuationIsToken(u);
    assert At(t, 0) == if w == "" then u[0] else w[0];
    assert w != "" ==> IsSpace(w[0]);
  }

  lemma ListEndSeparates(pretty: bool, r: CString, trailing: bool)
    ensures EndsNumber(ListEnd(pretty, r))
    ensures SkipSpace(ListEnd(pretty, r)) == "]" + r && FrontToken("]" + r) == Token(ArrayEnd, 1)
    ensures Separated(ListEnd(pretty, r), ArrayEnd, trailing) == Stop(r)
  {
    hide FrontToken, SpaceLength, Separated, EndsNumber;
    var u: CString := "]" + r;
    assert Rest(u, 1) == r;
    EndSeparates(if pretty then " " else "", u, ListEnd(pretty, r), ArrayEnd, trailing);
  }

  lemma DictionaryEndSeparates(pretty: bool, depth: nat, r: CString, trailing: bool)
    ensures EndsNumber(DictionaryEnd(pretty, depth, r))
    ensures SkipSpace(DictionaryEnd(pretty, depth, r)) == "}" + r && FrontToken("}" + r) == Token(ObjectEnd, 1)
    ensures Separated(DictionaryEnd(pretty, depth, r), ObjectEnd, trailing) == Stop(r)
  {
    hide FrontToken, SpaceLength, Separated, EndsNumber, Indent;
    IndentIsSpace(depth);
    var u: CString := "}" + r;
    assert Rest(u, 1) == r;
    EndSeparates(if pretty then LINE_ENDING + Indent(depth) else "", u, DictionaryEnd(pretty, depth, r), ObjectEnd, trailing);
  }

  /** A comma and some whitespace before more members. */
  lemma CommaSeparates(gap: string, t: CString, u: CString, end: TokenType, trailing: bool)
    requires AllSpace(gap) && Solid(u) && t == "," + gap + u
    requires end.ArrayEnd? || end.ObjectEnd?
    requires FrontToken(u).kind != end
    ensures EndsNumber(t)
    ensures Separated(t, end, trailing) == More(u)
  {
    hide FrontToken, SpaceLength;
    assert At(t, 0) == ',';
    PunctuationIsToken(t);
    assert Rest(t, 1) == gap + u;
    SkipPast(gap, u);
    SkipSolid(u);
  }

  lemma StartsNoEnd(t: CString)
    requires StartsValue(t)
    ensures !FrontToken(t).kind.ArrayEnd? && !FrontToken(t).kind.ObjectEnd?
    ensures !FrontToken(t).kind.ListSeparator? && !FrontToken(t).kind.PairSeparator?
  {
    assert At(t, 0) == t[0];
  }

  lemma ItemsTextSplit(items: seq<Value>, pretty: bool, depth: nat, r: CString)
    requires items != []
    ensures ItemsText(items, pretty, depth, true, r)
         == ValueText(items[0], pretty, depth, ItemsText(items[1..], pretty, depth, false, r))
  {
    hide Print;
    var p := Print(items[0], pretty, depth);
    var tail := PrintItems(items[1..], pretty, depth, false);
    assert PrintItems(items, pretty, depth, true) == p + tail;
    assert (p + tail) + ListEnd(pretty, r) == p + (tail + ListEnd(pretty, r));
  }

  lemma ItemsTailText(items: seq<Value>, pretty: bool, depth: nat, r: CString)
    requires items != []
    ensures ItemsText(items, pretty, depth, false, r)
         == "," + (if pretty then " " else "") + ItemsText(items, pretty, depth, true, r)
  {
    hide Print;
    var gap := if pretty then " " else "";
    var q := PrintItems(items, pretty, depth, true);
    assert PrintItems(items, pretty, depth, false) == "," + gap + q;
    assert ("," + gap + q) + ListEnd(pretty, r) == "," + gap + (q + ListEnd(pretty, r));
  }

  lemma ItemsStep(t: CString, depth: nat, trailing: bool)
    requires SkipSpace(t) == t && !FrontToken(t).kind.ArrayEnd?
    ensures Build(t, depth, false, trailing).None? ==> BuildItems(t, depth, trailing).None?
    ensures Build(t, depth, false, trailing).Some? ==>
              var item := Build(t, depth, false, trailing).value;
              var more := Separated(item.rest, ArrayEnd, trailing);
              && (more.Stop? ==> BuildItems(t, depth, trailing) == Some(Parsed([item.value], more.rest)))
              && (more.More? ==>
                    var others := BuildItems(more.rest, depth, trailing);
                    BuildItems(t, depth, trailing)
                    == if others.Some? then Some(Parsed([item.value] + others.value.value, others.value.rest)) else None)
  {
    hide Build, Separated, FrontToken, SkipSpace;
  }

  /** The text of the items starts with a value. */
  lemma ItemAhead(items: seq<Value>, pretty: bool, printDepth: nat, r: CString)
    requires items != []
    ensures var t := ItemsText(items, pretty, printDepth, true, r);
            && t == ValueText(items[0], pretty, printDepth, ItemsText(items[1..], pretty, printDepth, false, r))
            && Solid(t) && SkipSpace(t) == t && !FrontToken(t).kind.ArrayEnd?
  {
    hide FrontToken, SpaceLength, ItemsText, Print;
    var t := ItemsText(items, pretty, printDepth, true, r);
    ItemsTextSplit(items, pretty, printDepth, r);
    PrintStarts(items[0], pretty, printDepth, ItemsText(items[1..], pretty, printDepth, false, r));
    SkipSolid(t);
    StartsNoEnd(t);
  }

  /** After an item that is not the last, parsing goes on at the next item. */
  lemma ItemsFollow(rest: seq<Value>, pretty: bool, printDepth: nat, r: CString, trailing: bool)
    requires rest != []
    ensures var tail := ItemsText(rest, pretty, printDepth, false, r);
            EndsNumber(tail) && Separated(tail, ArrayEnd, trailing) == More(ItemsText(rest, pretty, printDepth, true, r))
  {
    hide FrontToken, SpaceLength, ItemsText, Separated, EndsNumber;
    var gap := if pretty then " " else "";
    ItemsTailText(rest, pretty, printDepth, r);
    ItemAhead(rest, pretty, printDepth, r);
    CommaSeparates(gap, ItemsText(rest, pretty, printDepth, false, r), ItemsText(rest, pretty, printDepth, true, r),
                   ArrayEnd, trailing);
  }

  /** What is printed for no items ends the list, at its start and after other items. */
  lemma NoItemsPrinted(pretty: bool, printDepth: nat, r: CString, depth: nat, trailing: bool)
    ensures BuildItems(ItemsText([], pretty, printDepth, true, r), depth, trailing) == Some(Parsed([], r))
    ensures EndsNumber(ItemsText([], pretty, printDepth, false, r))
    ensures Separated(ItemsText([], pretty, printDepth, false, r), ArrayEnd, trailing) == Stop(r)
  {
    hide FrontToken, SpaceLength, Separated, Build, EndsNumber, ListEnd;
    var end := ListEnd(pretty, r);
    assert ItemsText([], pretty, printDepth, true, r) == end == ItemsText([], pretty, printDepth, false, r);
    ListEndSeparates(pretty, r, trailing);
    assert Rest("]" + r, 1) == r;
  }

  /** One item more in front of items that parse as they should. */
  lemma ItemsPrintedCons(item: Value, rest: seq<Value>, pretty: bool, printDepth: nat, r: CString, depth: nat,
          trailing: bool)
    requires var tail := ItemsText(rest, pretty, printDepth, false, r);
             EndsNumber(tail) ==>
               Build(ValueText(item, pretty, printDepth, tail), depth, false, trailing)
               == Expected(depth, Height(item), item, tail)
    requires rest != [] ==>
               BuildItems(ItemsText(rest, pretty, printDepth, true, r), depth, trailing)
               == Expected(depth, ItemsHeight(rest), rest, r)
    ensures BuildItems(ItemsText([item] + rest, pretty, printDepth, true, r), depth, trailing)
         == Expected(depth, Max(Height(item), ItemsHeight(rest)), [item] + rest, r)
  {
    hide Separated, Build, Height, ItemsHeight, SpaceLength, ValueText, EndsNumber, ItemsText, BuildItems, Solid, FrontToken;
    var items := [item] + rest;
    assert items[0] == item && items[1..] == rest;
    var tail := ItemsText(rest, pretty, printDepth, false, r);
    var t := ItemsText(items, pretty, printDepth, true, r);
    ItemAhead(items, pretty, printDepth, r);
    ItemsStep(t, depth, trailing);
    if rest == [] {
      NoItemsPrinted(pretty, printDepth, r, depth, trailing);
      assert ItemsHeight(rest) == 0 by { ItemsHeightStep(rest); }
      assert [item] == [item] + rest;
    } else {
      ItemsFollow(rest, pretty, printDepth, r, trailing);
    }
  }

  lemma ItemsHeightStep(items: seq<Value>)
    ensures items == [] ==> ItemsHeight(items) == 0
    ensures items != [] ==> ItemsHeight(items) == Max(Height(items[0]), ItemsHeight(items[1..]))
  {
  }

  /** Parsing a printed list from one of its items. */
  lemma {:induction false} ItemsPrinted(items: seq<Value>, pretty: bool, printDepth: nat, r: CString, depth: nat,
          trailing: bool)
    requires forall item :: item in items ==> WellFormed(item)
    requires EndsNumber(r) && depth <= STACK_LIMIT
    ensures BuildItems(ItemsText(items, pretty, printDepth, true, r), depth, trailing)
         == Expected(depth, ItemsHeight(items), items, r)
    decreases items, 0
  {
    hide Build, Height, ItemsHeight, WellFormed, ValueText, EndsNumber, ItemsText, BuildItems, Expected;
    ItemsHeightStep(items);
    if items == [] {
      NoItemsPrinted(pretty, printDepth, r, depth, trailing);
      assert items == [];
      NothingExpected(depth, items, r);
    } else {
      var item, rest := items[0], items[1..];
      assert item in items;
      assert items == [item] + rest;
      var tail := ItemsText(rest, pretty, printDepth, false, r);
      if EndsNumber(tail) {
        ValuePrinted(item, pretty, printDepth, tail, depth, trailing);
      }
      if rest != [] {
        ItemsPrinted(rest, pretty, printDepth, r, depth, trailing);
      }
      ItemsPrintedCons(item, rest, pretty, printDepth, r, depth, trailing);
    }
  }

  lemma Regroup(i: string, q: string, colon: string, p: string, tail: string, end: string)
    ensures (i + q + colon + p + tail) + end == i + (q + (colon + (p + (tail + end))))
  {
    Associates(p, tail, end);
    Associates(colon, p, tail + end);
    Associates(q, colon, p + (tail + end));
    Associates(i, q, colon + (p + (tail + end)));
    Associates(i + q + colon + p, tail, end);
    Associates(i + q + colon, p, tail + end);
    Associates(i + q, colon, p + (tail + end));
  }

  lemma EntriesTextSplit(entries: seq<Entry>, pretty: bool, depth: nat, r: CString)
    requires entries != []
    ensures EntriesText(entries, pretty, depth, true, r)
         == (if pretty then Indent(depth + 1) else "")
            + KeyText(entries[0], pretty, depth, EntriesText(entries[1..], pretty, depth, false, r))
  {
    hide Print, Quote, Indent, DictionaryEnd;
    var rest := entries[1..];
    var i := if pretty then Indent(depth + 1) else "";
    var q := Quote(entries[0].key);
    var colon := if pretty then ": " else ":";
    var p := Print(entries[0].value, pretty, depth + 1);
    var tail := PrintEntries(rest, pretty, depth, false);
    var end := DictionaryEnd(pretty, depth, r);
    assert PrintEntries(entries, pretty, depth, true) == i + q + colon + p + tail by {
      FirstEntryPrinted(entries, pretty, depth);
    }
    hide PrintEntries;
    Regroup(i, q, colon, p, tail, end);
  }

  lemma FirstEntryPrinted(entries: seq<Entry>, pretty: bool, depth: nat)
    requires entries != []
    ensures PrintEntries(entries, pretty, depth, true)
         == (if pretty then Indent(depth + 1) else "") + Quote(entries[0].key) + (if pretty then ": " else ":")
            + Print(entries[0].value, pretty, depth + 1) + PrintEntries(entries[1..], pretty, depth, false)
  {
    hide Print, Quote, Indent;
    assert "" + PrintKey(entries[0].key, pretty, depth) == PrintKey(entries[0].key, pretty, depth);
  }

  /** A key and its value without the indentation, and the text after them. */
  function KeyText(e: Entry, pretty: bool, depth: nat, r: CString): (t: CString) {
    Quote(e.key) + AfterKey(e, pretty, depth, r)
  }

  function AfterKey(e: Entry, pretty: bool, depth: nat, r: CString): (t: CString) {
    (if pretty then ": " else ":") + ValueText(e.value, pretty, depth + 1, r)
  }

  lemma ColonScans(e: Entry, pretty: bool, depth: nat, r: CString)
    ensures var afterKey := AfterKey(e, pretty, depth, r);
            && SkipSpace(afterKey) == afterKey && FrontToken(afterKey) == Token(PairSeparator, 1)
            && SkipSpace(Rest(afterKey, 1)) == ValueText(e.value, pretty, depth + 1, r)
  {
    hide Print, FrontToken, SpaceLength;
    var afterKey := AfterKey(e, pretty, depth, r);
    PunctuationIsToken(afterKey);
    hide Punctuation;
    var v := ValueText(e.value, pretty, depth + 1, r);
    var gap := if pretty then " " else "";
    assert Rest(afterKey, 1) == gap + v;
    SkipPast(gap, v);
    PrintStarts(e.value, pretty, depth + 1, r);
    SkipSolid(v);
  }

  lemma KeyScans(e: Entry, pretty: bool, depth: nat, r: CString)
    ensures var t := KeyText(e, pretty, depth, r);
            && Solid(t) && FrontToken(t) == Token(StringToken, |Quote(e.key)|) && StringValue(t) == e.key
            && Rest(t, |Quote(e.key)|) == AfterKey(e, pretty, depth, r)
  {
    hide Escape, FrontToken, StringValue, AfterKey;
    StringBuilds(e.key, AfterKey(e, pretty, depth, r));
  }

  lemma EntriesStep(t: CString, depth: nat, trailing: bool, done: seq<Entry>)
    requires FrontToken(SkipSpace(t)).kind.StringToken?
    requires FrontToken(SkipSpace(Rest(SkipSpace(t), FrontToken(SkipSpace(t)).length))).kind.PairSeparator?
    ensures var u := SkipSpace(t);
            var afterKey := SkipSpace(Rest(u, FrontToken(u).length));
            var item := Build(SkipSpace(Rest(afterKey, 1)), depth, false, trailing);
            && (item.None? ==> BuildEntries(t, depth, trailing, done).None?)
            && (item.Some? ==>
                  var more := Separated(item.value.rest, ObjectEnd, trailing);
                  var done' := SetPath(done, StringValue(u), item.value.value);
                  && (more.Stop? ==> BuildEntries(t, depth, trailing, done) == Some(Parsed(done', more.rest)))
                  && (more.More? ==> BuildEntries(t, depth, trailing, done) == BuildEntries(more.rest, depth, trailing, done')))
  {
    hide Build, Separated, FrontToken, SkipSpace, SetPath, StringValue;
  }

  lemma EntriesSkip(a: CString, b: CString, depth: nat, trailing: bool, done: seq<Entry>)
    requires SkipSpace(a) == SkipSpace(b)
    ensures BuildEntries(a, depth, trailing, done) == BuildEntries(b, depth, trailing, done)
  {
    hide Build, Separated, FrontToken, SkipSpace, SetPath, StringValue;
  }

  lemma ItemsSkip(a: CString, b: CString, depth: nat, trailing: bool)
    requires SkipSpace(a) == SkipSpace(b)
    ensures BuildItems(a, depth, trailing) == BuildItems(b, depth, trailing)
  {
    hide Build, Separated, FrontToken, SkipSpace;
  }

  /** The text of the entries after a comma, and what skipping its whitespace leaves. */
  lemma KeyAhead(entries: seq<Entry>, pretty: bool, printDepth: nat, r: CString)
    requires entries != []
    ensures var key := KeyText(entries[0], pretty, printDepth, EntriesText(entries[1..], pretty, printDepth, false, r));
            var indent := if pretty then Indent(printDepth + 1) else "";
            && AllSpace(indent) && Solid(key) && SkipSpace(key) == key
            && EntriesText(entries, pretty, printDepth, true, r) == indent + key
            && SkipSpace(EntriesText(entries, pretty, printDepth, true, r)) == key
  {
    hide FrontToken, SpaceLength, EntriesText, KeyText, Indent, StringValue, Quote;
    var after := EntriesText(entries[1..], pretty, printDepth, false, r);
    var key := KeyText(entries[0], pretty, printDepth, after);
    EntriesTextSplit(entries, pretty, printDepth, r);
    IndentIsSpace(printDepth + 1);
    KeyScans(entries[0], pretty, printDepth, after);
    SkipSolid(key);
    SkipPast(if pretty then Indent(printDepth + 1) else "", key);
  }

  /** After an entry that is not the last, parsing goes on at the next key. */
  lemma EntriesFollow(rest: seq<Entry>, pretty: bool, printDepth: nat, r: CString, depth: nat, trailing: bool,
          done: seq<Entry>)
    requires rest != []
    ensures var tail := EntriesText(rest, pretty, printDepth, false, r);
            var more := Separated(tail, ObjectEnd, trailing);
            && EndsNumber(tail) && more.More?
            && BuildEntries(more.rest, depth, trailing, done)
            == BuildEntries(EntriesText(rest, pretty, printDepth, true, r), depth, trailing, done)
  {
    hide FrontToken, SpaceLength, EntriesText, KeyText, Indent, StringValue, Quote, BuildEntries, Separated, EndsNumber, Solid,
         AllSpace, SkipSpace;
    var tail := EntriesText(rest, pretty, printDepth, false, r);
    var next := EntriesText(rest, pretty, printDepth, true, r);
    var after := EntriesText(rest[1..], pretty, printDepth, false, r);
    var key := KeyText(rest[0], pretty, printDepth, after);
    var gap := if pretty then LINE_ENDING else "";
    var indent := if pretty then Indent(printDepth + 1) else "";
    EntriesTailText(rest, pretty, printDepth, r);
    KeyAhead(rest, pretty, printDepth, r);
    KeyScans(rest[0], pretty, printDepth, after);
    assert tail == "," + (gap + indent) + key by {
      Associates("," + gap, indent, key);
      Associates(",", gap, indent);
    }
    GapIsSpace(pretty, printDepth + 1);
    CommaSeparates(gap + indent, tail, key, ObjectEnd, trailing);
    EntriesSkip(key, next, depth, trailing, done);
  }

  lemma GapIsSpace(pretty: bool, depth: nat)
    ensures AllSpace((if pretty then LINE_ENDING else "") + if pretty then Indent(depth) else "")
  {
    IndentIsSpace(depth);
    assert "" + "" == "";
  }

  lemma CommaPrinted(rest: seq<Entry>, pretty: bool, depth: nat)
    requires rest != []
    ensures PrintEntries(rest, pretty, depth, false)
         == "," + (if pretty then LINE_ENDING else "") + PrintEntries(rest, pretty, depth, true)
  {
    hide Print, PrintKey;
    var comma := "," + if pretty then LINE_ENDING else "";
    var k := PrintKey(rest[0].key, pretty, depth);
    var p := Print(rest[0].value, pretty, depth + 1);
    var more := PrintEntries(rest[1..], pretty, depth, false);
    assert Separator(pretty, false, LINE_ENDING) == comma;
    assert PrintEntries(rest, pretty, depth, false) == comma + k + p + more;
    assert PrintEntries(rest, pretty, depth, true) == k + p + more by {
      assert "" + k == k;
    }
    hide PrintEntries;
    Associates(comma, k, p);
    Associates(comma, k + p, more);
  }

  lemma EntriesTailText(rest: seq<Entry>, pretty: bool, depth: nat, r: CString)
    requires rest != []
    ensures EntriesText(rest, pretty, depth, false, r)
         == "," + (if pretty then LINE_ENDING else "") + EntriesText(rest, pretty, depth, true, r)
  {
    hide PrintEntries, DictionaryEnd;
    CommaPrinted(rest, pretty, depth);
    Associates("," + if pretty then LINE_ENDING else "", PrintEntries(rest, pretty, depth, true), DictionaryEnd(pretty, depth, r));
  }

  /** Parsing one printed entry. */
  lemma KeyStep(t: CString, e: Entry, pretty: bool, printDepth: nat, tail: CString, depth: nat, trailing: bool,
          done: seq<Entry>)
    requires SkipSpace(t) == KeyText(e, pretty, printDepth, tail)
    ensures var item := Build(ValueText(e.value, pretty, printDepth + 1, tail), depth, false, trailing);
            && (item.None? ==> BuildEntries(t, depth, trailing, done).None?)
            && (item.Some? ==>
                  var more := Separated(item.value.rest, ObjectEnd, trailing);
                  var done' := SetPath(done, e.key, item.value.value);
                  && (more.Stop? ==> BuildEntries(t, depth, trailing, done) == Some(Parsed(done', more.rest)))
                  && (more.More? ==> BuildEntries(t, depth, trailing, done) == BuildEntries(more.rest, depth, trailing, done')))
  {
    hide FrontToken, SpaceLength, KeyText, ValueText, AfterKey, StringValue, Quote, BuildEntries, Separated, SetPath, Build;
    KeyScans(e, pretty, printDepth, tail);
    ColonScans(e, pretty, printDepth, tail);
    EntriesStep(t, depth, trailing, done);
  }

  /** What is printed for no entries ends the dictionary, at its start and after other entries. */
  lemma NoEntriesPrinted(done: seq<Entry>, pretty: bool, printDepth: nat, r: CString, depth: nat, trailing: bool)
    ensures BuildEntries(EntriesText([], pretty, printDepth, true, r), depth, trailing, done) == Some(Parsed(done, r))
    ensures EndsNumber(EntriesText([], pretty, printDepth, false, r))
    ensures Separated(EntriesText([], pretty, printDepth, false, r), ObjectEnd, trailing) == Stop(r)
  {
    hide FrontToken, SpaceLength, Separated, Build, SetPath, StringValue, Indent, EndsNumber, DictionaryEnd;
    var end := DictionaryEnd(pretty, printDepth, r);
    assert EntriesText([], pretty, printDepth, true, r) == end == EntriesText([], pretty, printDepth, false, r);
    DictionaryEndSeparates(pretty, printDepth, r, trailing);
    assert Rest("}" + r, 1) == r;
  }

  /** One entry more in front of entries that parse as they should. */
  lemma EntriesPrintedCons(done: seq<Entry>, e: Entry, rest: seq<Entry>, pretty: bool, printDepth: nat, r: CString,
                           depth: nat, trailing: bool)
    requires Sorted(done + [e] + rest) && '.' !in e.key
    requires var tail := EntriesText(rest, pretty, printDepth, false, r);
             EndsNumber(tail) ==>
               Build(ValueText(e.value, pretty, printDepth + 1, tail), depth, false, trailing)
               == Expected(depth, Height(e.value), e.value, tail)
    requires rest != [] ==>
               BuildEntries(EntriesText(rest, pretty, printDepth, true, r), depth, trailing, done + [e])
               == Expected(depth, EntriesHeight(rest), done + [e] + rest, r)
    ensures BuildEntries(EntriesText([e] + rest, pretty, printDepth, true, r), depth, trailing, done)
         == Expected(depth, Max(Height(e.value), EntriesHeight(rest)), done + [e] + rest, r)
  {
    hide Separated, Build, Height, EntriesHeight, SetPath, SpaceLength, KeyText, ValueText, Indent, Sorted, EndsNumber,
         EntriesText, BuildEntries, DictionaryEnd, Solid, AllSpace;
    var entries := [e] + rest;
    assert entries[0] == e && entries[1..] == rest;
    var tail := EntriesText(rest, pretty, printDepth, false, r);
    var t := EntriesText(entries, pretty, printDepth, true, r);
    KeyAhead(entries, pretty, printDepth, r);
    SetPathLast(done, e, rest);
    KeyStep(t, e, pretty, printDepth, tail, depth, trailing, done);
    if rest == [] {
      NoEntriesPrinted(done, pretty, printDepth, r, depth, trailing);
      assert EntriesHeight(rest) == 0 by { EntriesHeightStep(rest); }
      assert done + [e] == done + [e] + rest;
    } else {
      EntriesFollow(rest, pretty, printDepth, r, depth, trailing, done + [e]);
    }
  }

  lemma EntriesHeightStep(entries: seq<Entry>)
    ensures entries == [] ==> EntriesHeight(entries) == 0
    ensures entries != [] ==> EntriesHeight(entries) == Max(Height(entries[0].value), EntriesHeight(entries[1..]))
  {
  }

  /** Parsing a printed dictionary from one of its keys, with the entries before it already parsed. */
  lemma {:induction false} EntriesPrinted(done: seq<Entry>, entries: seq<Entry>, pretty: bool, printDepth: nat,
          r: CString,
                                          depth: nat, trailing: bool)
    requires Sorted(done + entries)
    requires forall e :: e in entries ==> '.' !in e.key && WellFormed(e.value)
    requires EndsNumber(r) && depth <= STACK_LIMIT
    ensures BuildEntries(EntriesText(entries, pretty, printDepth, true, r), depth, trailing, done)
         == Expected(depth, EntriesHeight(entries), done + entries, r)
    decreases entries, 0
  {
    hide Build, Height, EntriesHeight, WellFormed, ValueText, Sorted, EndsNumber, EntriesText, BuildEntries, Expected;
    EntriesHeightStep(entries);
    if entries == [] {
      NoEntriesPrinted(done, pretty, printDepth, r, depth, trailing);
      assert done + entries == done && entries == [];
      NothingExpected(depth, done, r);
    } else {
      var e, rest := entries[0], entries[1..];
      assert e in entries;
      assert entries == [e] + rest;
      assert done + entries == done + [e] + rest;
      var tail := EntriesText(rest, pretty, printDepth, false, r);
      if EndsNumber(tail) {
        ValuePrinted(e.value, pretty, printDepth + 1, tail, depth, trailing);
      }
      if rest != [] {
        EntriesPrinted(done + [e], rest, pretty, printDepth, r, depth, trailing);
      }
      EntriesPrintedCons(done, e, rest, pretty, printDepth, r, depth, trailing);
    }
  }

  /** Parsing a printed value. */
  lemma {:induction false} ValuePrinted(v: Value, pretty: bool, printDepth: nat, r: CString, depth: nat, trailing: bool)
    requires WellFormed(v) && EndsNumber(r)
    ensures Build(ValueText(v, pretty, printDepth, r), depth, false, trailing)
         == Expected(depth, Height(v), v, r)
    decreases v, 2
  {
    hide Print, BuildItems, BuildEntries, FrontToken, SkipSpace, LeafValue, ItemsHeight, EntriesHeight;
    if !IsContainer(v) {
      LeafBuilds(v, pretty, printDepth, r, depth, trailing);
    } else if depth + 1 <= STACK_LIMIT {
      ContainerPrinted(v, pretty, printDepth, r, depth, false, trailing);
    }
  }

  lemma {:induction false} ContainerPrinted(v: Value, pretty: bool, printDepth: nat, r: CString, depth: nat,
          isRoot: bool, trailing: bool)
    requires IsContainer(v) && WellFormed(v) && EndsNumber(r) && depth + 1 <= STACK_LIMIT
    ensures Build(ValueText(v, pretty, printDepth, r), depth, isRoot, trailing)
         == Expected(depth, Height(v), v, r)
    decreases v, 1
  {
    hide PrintItems, PrintEntries, BuildItems, BuildEntries, SpaceLength, FrontToken, LeafValue, ItemsHeight, EntriesHeight,
         Indent, ValueText, ItemsText, EntriesText;
    var t := ValueText(v, pretty, printDepth, r);
    match v
    case List(items) =>
      var inner := ItemsText(items, pretty, printDepth, true, r);
      var w := if pretty then " " else "";
      ListText(items, pretty, printDepth, r);
      PunctuationIsToken(t);
      assert Rest(t, 1) == w + inner;
      SkipPast(w, inner);
      ItemsSkip(w + inner, inner, depth + 1, trailing);
      ItemsPrinted(items, pretty, printDepth, r, depth + 1, trailing);
    case Dictionary(entries) =>
      var inner := EntriesText(entries, pretty, printDepth, true, r);
      var w := if pretty then LINE_ENDING else "";
      DictionaryText(entries, pretty, printDepth, r);
      PunctuationIsToken(t);
      assert Rest(t, 1) == w + inner;
      SkipPast(w, inner);
      EntriesSkip(w + inner, inner, depth + 1, trailing, []);
      assert [] + entries == entries;
      EntriesPrinted([], entries, pretty, printDepth, r, depth + 1, trailing);
  }

  lemma ListText(items: seq<Value>, pretty: bool, depth: nat, r: CString)
    ensures ValueText(List(items), pretty, depth, r)
         == "[" + ((if pretty then " " else "") + ItemsText(items, pretty, depth, true, r))
  {
    hide PrintItems;
    var w := if pretty then " " else "";
    var p := PrintItems(items, pretty, depth, true);
    assert ("[" + w + p + w + "]") + r == "[" + (w + (p + (w + "]" + r)));
  }

  lemma DictionaryText(entries: seq<Entry>, pretty: bool, depth: nat, r: CString)
    ensures ValueText(Dictionary(entries), pretty, depth, r)
         == "{" + ((if pretty then LINE_ENDING else "") + EntriesText(entries, pretty, depth, true, r))
  {
    hide PrintEntries, Indent;
    var w := if pretty then LINE_ENDING else "";
    var p := PrintEntries(entries, pretty, depth, true);
    var e := if pretty then LINE_ENDING + Indent(depth) else "";
    assert ("{" + w + p + e + "}") + r == "{" + (w + (p + (e + "}" + r)));
  }
}
