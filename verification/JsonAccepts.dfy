/** The parser accepts exactly the texts of the grammar, and yields what they stand for. */
module JsonAccepts {
  import opened Prelude
  import opened JsonText
  import opened JsonGrammar
  import opened JsonRoundTrip
  import opened JsonDocument
  import opened JsonSyntax

  // ---------------------------------------------------------------- the texts of the grammar

  /**
   A value as it is written, with the space in front of it. After the last member of a list or dictionary there may be
   a comma, and space after it; without members there is only the space.
   */
  datatype Tree =
    | Word(space: Space, word: string)
    | Numeric(space: Space, numeral: Numeral)
    | Quoted(space: Space, units: seq<Unit>)
    | Array(space: Space, items: seq<Item>, last: Option<Space>)
    | Object(space: Space, pairs: seq<Pair>, last: Option<Space>)

  datatype Item = Item(value: Tree, after: Space)

  datatype Pair = Pair(space: Space, key: seq<Unit>, colon: Space, value: Tree, after: Space)

  predicate IsLast(last: Option<Space>, count: nat) {
    (last.Some? ==> IsSpaces(last.value)) && (count == 0 ==> last.Some?)
  }

  predicate IsTree(tree: Tree)
    decreases tree, 1
  {
    && IsSpaces(tree.space)
    && match tree
       case Word(_, word) => word in {"null", "true", "false"}
       case Numeric(_, numeral) => IsNumeral(numeral)
       case Quoted(_, units) => AreUnits(units)
       case Array(_, items, last) => AreItems(items) && IsLast(last, |items|)
       case Object(_, pairs, last) => ArePairs(pairs) && IsLast(last, |pairs|)
  }

  predicate AreItems(items: seq<Item>)
    decreases items, 0
  {
    items == [] || (IsTree(items[0].value) && IsSpaces(items[0].after) && AreItems(items[1..]))
  }

  predicate ArePairs(pairs: seq<Pair>)
    decreases pairs, 0
  {
    pairs == [] ||
    (var p := pairs[0];
     IsSpaces(p.space) && AreUnits(p.key) && IsSpaces(p.colon) && IsTree(p.value) && IsSpaces(p.after) && ArePairs(pairs[1..]))
  }

  /** The text of a value, followed by some text. */
  function TreeText(tree: Tree, r: string): string
    decreases tree, 2
  {
    SpaceText(tree.space, BodyText(tree, r))
  }

  function BodyText(tree: Tree, r: string): string
    decreases tree, 1
  {
    match tree
    case Word(_, word) => word + r
    case Numeric(_, numeral) => NumeralText(numeral) + r
    case Quoted(_, units) => "\"" + UnitsText(units, r)
    case Array(_, items, last) => "[" + ItemsText(items, last, "]" + r)
    case Object(_, pairs, last) => "{" + PairsText(pairs, last, "}" + r)
  }

  function ItemsText(items: seq<Item>, last: Option<Space>, r: string): string
    decreases items, 0
  {
    if items == [] then LastText(last, r)
    else TreeText(items[0].value, SpaceText(items[0].after, MoreItemsText(items[1..], last, r)))
  }

  /** A comma and more items, or nothing. */
  function MoreItemsText(items: seq<Item>, last: Option<Space>, r: string): string
    decreases items, 1
  {
    if items == [] && last.None? then r else "," + ItemsText(items, last, r)
  }

  function PairsText(pairs: seq<Pair>, last: Option<Space>, r: string): string
    decreases pairs, 0
  {
    if pairs == [] then LastText(last, r)
    else
      var p := pairs[0];
      KeyText(p, TreeText(p.value, SpaceText(p.after, MorePairsText(pairs[1..], last, r))))
  }

  function MorePairsText(pairs: seq<Pair>, last: Option<Space>, r: string): string
    decreases pairs, 1
  {
    if pairs == [] && last.None? then r else "," + PairsText(pairs, last, r)
  }

  /** A key and its colon, followed by some text. */
  function KeyText(p: Pair, r: string): string {
    SpaceText(p.space, "\"" + UnitsText(p.key, SpaceText(p.colon, ":" + r)))
  }

  function LastText(last: Option<Space>, r: string): string {
    if last.Some? then SpaceText(last.value, r) else r
  }

  // ---------------------------------------------------------------- what they stand for

  function UnitsString(units: seq<Unit>): string
    requires AreUnits(units)
  {
    if units == [] then ""
    else
      assert units[0] in units && forall u :: u in units[1..] ==> u in units;
      [UnitChar(units[0])] + UnitsString(units[1..])
  }

  function UnitChar(u: Unit): (c: char)
    requires IsUnit(u)
    ensures c as int == UnitMeans(u)
  {
    match u
    case Plain(c) => c
    case Short(letter) => if letter in "bfnrtv" then UnitMeans(u) as char else letter
    case _ => UnitMeans(u) as char
  }

  function Meaning(tree: Tree): Value
    requires IsTree(tree)
    decreases tree, 1
  {
    match tree
    case Word(_, word) => if word == "null" then Null else Boolean(word == "true")
    case Numeric(_, numeral) => Integer(NumeralValue(numeral))
    case Quoted(_, units) => String(UnitsString(units))
    case Array(_, items, _) => List(ItemsMeaning(items))
    case Object(_, pairs, _) => Dictionary(PairsMeaning(pairs, []))
  }

  function ItemsMeaning(items: seq<Item>): seq<Value>
    requires AreItems(items)
    decreases items, 0
  {
    if items == [] then [] else [Meaning(items[0].value)] + ItemsMeaning(items[1..])
  }

  /** The pairs set one after the other in some dictionary. */
  function PairsMeaning(pairs: seq<Pair>, entries: seq<Entry>): seq<Entry>
    requires ArePairs(pairs)
    decreases pairs, 0
  {
    if pairs == [] then entries
    else PairsMeaning(pairs[1..], SetPath(entries, UnitsString(pairs[0].key), Meaning(pairs[0].value)))
  }

  /** The nesting, counting leaves and empty containers. */
  function Nesting(tree: Tree): nat
    decreases tree, 1
  {
    match tree
    case Array(_, items, _) => 1 + ItemsNesting(items)
    case Object(_, pairs, _) => 1 + PairsNesting(pairs)
    case _ => 1
  }

  function ItemsNesting(items: seq<Item>): nat
    decreases items, 0
  {
    if items == [] then 0 else Max(Nesting(items[0].value), ItemsNesting(items[1..]))
  }

  function PairsNesting(pairs: seq<Pair>): nat
    decreases pairs, 0
  {
    if pairs == [] then 0 else Max(Nesting(pairs[0].value), PairsNesting(pairs[1..]))
  }

  /** No comma after a last member. */
  predicate Strict(tree: Tree)
    decreases tree, 1
  {
    match tree
    case Array(_, items, last) => (items == [] || last.None?) && StrictItems(items)
    case Object(_, pairs, last) => (pairs == [] || last.None?) && StrictPairs(pairs)
    case _ => true
  }

  predicate StrictItems(items: seq<Item>)
    decreases items, 0
  {
    items == [] || (Strict(items[0].value) && StrictItems(items[1..]))
  }

  predicate StrictPairs(pairs: seq<Pair>)
    decreases pairs, 0
  {
    pairs == [] || (Strict(pairs[0].value) && StrictPairs(pairs[1..]))
  }

  predicate IsContainerTree(tree: Tree) {
    tree.Array? || tree.Object?
  }

  /** Some text that is a document of the grammar, with what may stand around it. */
  ghost predicate IsDocument(text: string, checkRoot: bool, trailing: bool, v: Value) {
    exists tree, space, tail ::
      && IsTree(tree) && IsSpaces(space) && IsTail(tail)
      && text == TreeText(tree, SpaceText(space, tail))
      && Meaning(tree) == v && Nesting(tree) <= 100
      && (trailing || Strict(tree)) && (checkRoot ==> IsContainerTree(tree))
  }

  // ---------------------------------------------------------------- texts of the grammar are accepted

  /** What may follow a number. */
  predicate Ends(r: string) {
    r == "" || (!IsDigit(r[0]) && r[0] != '.' && r[0] != 'e' && r[0] != 'E')
  }

  lemma EndsText(r: CString)
    requires Ends(r)
    ensures EndsNumber(r)
  {
  }

  lemma SpaceEnds(s: Space, r: string)
    requires IsSpaces(s) && Ends(r)
    ensures Ends(SpaceText(s, r))
  {
    if s != [] {
      assert s[0] in s;
      var rest := SpaceText(s[1..], r);
      assert PieceText(s[0]) != "" && (PieceText(s[0]) + rest)[0] == PieceText(s[0])[0];
    }
  }

  lemma LastEnds(last: Option<Space>, r: string)
    requires (last.Some? ==> IsSpaces(last.value)) && Ends(r)
    ensures Ends(LastText(last, r))
  {
    if last.Some? {
      SpaceEnds(last.value, r);
    }
  }

  lemma {:induction false} StringOfUnits(units: seq<Unit>, s: string)
    requires AreUnits(units) && UnitsMean(units, s)
    ensures s == UnitsString(units)
    decreases |units|
  {
    hide UnitMeans, IsUnit, UnitChar;
    if units != [] {
      assert units[0] in units && forall u :: u in units[1..] ==> u in units;
      UnitsMeanTail(units, s);
      StringOfUnits(units[1..], s[1..]);
      assert s == [s[0]] + s[1..];
    }
  }

  lemma UnitsMeanTail(units: seq<Unit>, s: string)
    requires units != [] && UnitsMean(units, s)
    ensures s != "" && s[0] as int == UnitMeans(units[0]) && UnitsMean(units[1..], s[1..])
  {
    hide UnitMeans;
    assert forall i :: 0 <= i < |units| - 1 ==> s[1..][i] == s[i + 1] && units[1..][i] == units[i + 1];
  }

  lemma Suffix(a: string, b: string, t: CString)
    requires t == a + b
    ensures NUL !in b && |a| <= |t| && Rest(t, |a|) == b
  {
    assert forall c :: c in b ==> c in t;
  }

  /** A leaf in front of what may follow a number is one token with its value. */
  lemma LeafTaken(tree: Tree, r: string, t: CString)
    requires IsTree(tree) && !IsContainerTree(tree) && t == BodyText(tree, r) && Ends(r)
    ensures NUL !in r && SkipSpace(t) == t
    ensures IsLeaf(FrontToken(t).kind) && LeafValue(t) == Meaning(tree) && Rest(t, FrontToken(t).length) == r
  {
    match tree
    case Word(_, word) => WordTaken(word, r, t);
    case Numeric(_, numeral) => NumericTaken(numeral, r, t);
    case Quoted(_, units) => QuotedTaken(units, r, t);
  }

  lemma WordTaken(word: string, r: string, t: CString)
    requires word in {"null", "true", "false"} && t == word + r
    ensures NUL !in r && SkipSpace(t) == t
    ensures IsLeaf(FrontToken(t).kind) && Rest(t, FrontToken(t).length) == r
    ensures LeafValue(t) == if word == "null" then Null else Boolean(word == "true")
  {
    hide SkipSpace, NumberLength, StringLength;
    Suffix(word, r, t);
    assert word <= t && At(t, 0) == word[0];
    SkipSolid(t);
  }

  lemma NumericTaken(n: Numeral, r: string, t: CString)
    requires IsNumeral(n) && t == NumeralText(n) + r && Ends(r)
    ensures NUL !in r && SkipSpace(t) == t
    ensures IsLeaf(FrontToken(t).kind) && Rest(t, FrontToken(t).length) == r
    ensures LeafValue(t) == Integer(NumeralValue(n))
  {
    hide SkipSpace, NumberLength, StringLength, NumeralText, IsNumeral, IntValue, NumeralValue, Rest;
    Suffix(NumeralText(n), r, t);
    EndsText(r);
    NumeralTaken(n, r, t);
    NumeralIsValue(n);
    assert t[..|NumeralText(n)|] == NumeralText(n);
    SkipSolid(t);
  }

  lemma QuotedTaken(units: seq<Unit>, r: string, t: CString)
    requires AreUnits(units) && t == "\"" + UnitsText(units, r)
    ensures NUL !in r && SkipSpace(t) == t
    ensures FrontToken(t).kind.StringToken? && StringValue(t) == UnitsString(units)
    ensures Rest(t, FrontToken(t).length) == r
  {
    hide SkipSpace, NumberLength, StringLength, Unescape, UnitsText, AreUnits;
    Suffix("\"", UnitsText(units, r), t);
    var u: CString := Rest(t, 1);
    UnitsTaken(units, r, u);
    StringOfUnits(units, Unescape(u));
    SkipSolid(t);
    assert Rest(t, 1 + StringLength(u).value) == Rest(u, StringLength(u).value);
  }

  /** A closing bracket, with space and, if that is allowed, a comma and space in front. */
  lemma EndTaken(after: Space, last: Option<Space>, bracket: string, r: string, end: TokenType, trailing: bool, t: CString)
    requires IsSpaces(after) && (last.Some? ==> IsSpaces(last.value)) && (trailing || last.None?)
    requires (bracket == "]" && end == ArrayEnd) || (bracket == "}" && end == ObjectEnd)
    requires t == SpaceText(after, if last.None? then bracket + r else "," + SpaceText(last.value, bracket + r))
    ensures NUL !in r && Separated(t, end, trailing) == Stop(r)
  {
    hide SpaceText, SkipSpace, FrontToken;
    var closing := bracket + r;
    var u := if last.None? then closing else "," + SpaceText(last.value, closing);
    SpaceTaken(after, u, t);
    PunctuationIsToken(u);
    if last.Some? {
      Suffix(",", SpaceText(last.value, closing), u);
      SpaceTaken(last.value, closing, Rest(u, 1));
      PunctuationIsToken(closing);
    }
    Suffix(bracket, r, closing);
  }

  /** A comma in front of more members. */
  lemma CommaTaken(after: Space, more: CString, end: TokenType, trailing: bool, t: CString)
    requires IsSpaces(after) && t == SpaceText(after, "," + more) && (end.ArrayEnd? || end.ObjectEnd?)
    requires FrontToken(SkipSpace(more)).kind != end
    ensures Separated(t, end, trailing) == More(SkipSpace(more))
  {
    hide SpaceText, SkipSpace, FrontToken;
    SpaceTaken(after, "," + more, t);
    PunctuationIsToken("," + more);
    Suffix(",", more, "," + more);
  }

  lemma ArrayTaken(t: CString, items: seq<Value>, r: CString, depth: nat, isRoot: bool, trailing: bool)
    requires t != "" && t[0] == '[' && depth + 1 <= STACK_LIMIT
    requires BuildItems(Rest(t, 1), depth + 1, trailing) == Some(Parsed(items, r))
    ensures SkipSpace(t) == t && Build(t, depth, isRoot, trailing) == Some(Parsed(List(items), r))
  {
    hide FrontToken, SkipSpace, BuildItems, BuildEntries, LeafValue, Rest;
    PunctuationIsToken(t);
  }

  lemma ObjectTaken(t: CString, entries: seq<Entry>, r: CString, depth: nat, isRoot: bool, trailing: bool)
    requires t != "" && t[0] == '{' && depth + 1 <= STACK_LIMIT
    requires BuildEntries(Rest(t, 1), depth + 1, trailing, []) == Some(Parsed(entries, r))
    ensures SkipSpace(t) == t && Build(t, depth, isRoot, trailing) == Some(Parsed(Dictionary(entries), r))
  {
    hide FrontToken, SkipSpace, BuildItems, BuildEntries, LeafValue, Rest;
    PunctuationIsToken(t);
  }

  lemma LeafAccepted(t: CString, depth: nat, trailing: bool)
    requires SkipSpace(t) == t && IsLeaf(FrontToken(t).kind) && depth + 1 <= STACK_LIMIT
    ensures Build(t, depth, false, trailing) == Some(Parsed(LeafValue(t), Rest(t, FrontToken(t).length)))
  {
    hide FrontToken, SkipSpace, BuildItems, BuildEntries, LeafValue;
  }

  /** Space in front does not matter. */
  lemma BuildSkips(a: CString, b: CString, depth: nat, isRoot: bool, trailing: bool)
    requires SkipSpace(a) == SkipSpace(b)
    ensures Build(a, depth, isRoot, trailing) == Build(b, depth, isRoot, trailing)
  {
    hide FrontToken, SkipSpace, BuildItems, BuildEntries, LeafValue;
  }

  /** What a value starts with. */
  lemma BuildStarts(t: CString, depth: nat, isRoot: bool, trailing: bool)
    requires Build(t, depth, isRoot, trailing).Some?
    ensures var k := FrontToken(SkipSpace(t)).kind; IsLeaf(k) || k.ArrayBegin? || k.ObjectBegin?
  {
    hide FrontToken, SkipSpace, BuildItems, BuildEntries, LeafValue;
  }

  /** A text of the grammar is parsed as what it stands for. */
  lemma {:induction false} TreeTaken(tree: Tree, r: string, t: CString, depth: nat, isRoot: bool, trailing: bool)
    requires IsTree(tree) && t == TreeText(tree, r) && Ends(r)
    requires depth + Nesting(tree) <= STACK_LIMIT && (trailing || Strict(tree)) && (isRoot ==> IsContainerTree(tree))
    ensures NUL !in r && Build(t, depth, isRoot, trailing) == Some(Parsed(Meaning(tree), r))
    decreases tree, 2
  {
    hide SpaceText, SkipSpace, FrontToken, Build, BuildItems, BuildEntries, ItemsText, PairsText, LeafValue, Ends;
    SpaceTaken(tree.space, BodyText(tree, r), t);
    var u: CString := BodyText(tree, r);
    BuildSkips(t, u, depth, isRoot, trailing);
    match tree
    case Array(_, items, last) =>
      Suffix("[", ItemsText(items, last, "]" + r), u);
      ItemsTaken(items, last, r, Rest(u, 1), depth + 1, trailing);
      ArrayTaken(u, ItemsMeaning(items), r, depth, isRoot, trailing);
    case Object(_, pairs, last) =>
      Suffix("{", PairsText(pairs, last, "}" + r), u);
      PairsTaken(pairs, last, r, Rest(u, 1), depth + 1, trailing, []);
      ObjectTaken(u, PairsMeaning(pairs, []), r, depth, isRoot, trailing);
    case _ =>
      LeafTaken(tree, r, u);
      LeafAccepted(u, depth, trailing);
  }

  lemma NoItemsTaken(last: Space, r: string, t: CString, depth: nat, trailing: bool)
    requires IsSpaces(last) && t == SpaceText(last, "]" + r)
    ensures NUL !in r && BuildItems(t, depth, trailing) == Some(Parsed([], r))
  {
    hide SpaceText, SkipSpace, FrontToken, Build;
    SpaceTaken(last, "]" + r, t);
    PunctuationIsToken("]" + r);
    Suffix("]", r, "]" + r);
  }

  /** The parsing of a list from one of its items. */
  lemma ItemsCons(t: CString, depth: nat, trailing: bool, item: Parsed<Value>, more: Continuation)
    requires Build(t, depth, false, trailing) == Some(item) && Separated(item.rest, ArrayEnd, trailing) == more
    ensures !FrontToken(SkipSpace(t)).kind.ArrayEnd?
    ensures more.Stop? ==> BuildItems(t, depth, trailing) == Some(Parsed([item.value], more.rest))
    ensures more.More? ==>
              var others := BuildItems(more.rest, depth, trailing);
              BuildItems(t, depth, trailing)
              == if others.Some? then Some(Parsed([item.value] + others.value.value, others.value.rest)) else None
  {
    hide SkipSpace, FrontToken, Build, BuildItems, Separated;
    SkipTwice(t);
    BuildSkips(t, SkipSpace(t), depth, false, trailing);
    BuildStarts(t, depth, false, trailing);
    ItemsSkip(t, SkipSpace(t), depth, trailing);
    ItemsStep(SkipSpace(t), depth, trailing);
  }

  lemma {:induction false} ItemsTaken(items: seq<Item>, last: Option<Space>, r: string, t: CString, depth: nat, trailing: bool)
    requires AreItems(items) && IsLast(last, |items|) && t == ItemsText(items, last, "]" + r)
    requires depth + ItemsNesting(items) <= STACK_LIMIT
    requires trailing || (StrictItems(items) && (items == [] || last.None?))
    ensures NUL !in r && BuildItems(t, depth, trailing) == Some(Parsed(ItemsMeaning(items), r))
    ensures items != [] ==> !FrontToken(SkipSpace(t)).kind.ArrayEnd?
    decreases items
  {
    hide SpaceText, SkipSpace, FrontToken, Build, BuildItems, Separated, TreeText, Meaning, IsTree, Strict, Nesting, Ends, IsSpaces;
    if items == [] {
      NoItemsTaken(last.value, r, t, depth, trailing);
    } else {
      var item, more := items[0], items[1..];
      var follow := MoreItemsText(more, last, "]" + r);
      var rest := SpaceText(item.after, follow);
      SeparatorEnds(follow);
      SpaceEnds(item.after, follow);
      TreeTaken(item.value, rest, t, depth, false, trailing);
      if more == [] {
        LastItem(last, r);
        EndTaken(item.after, last, "]", r, ArrayEnd, trailing, rest);
        ItemsCons(t, depth, trailing, Parsed(Meaning(item.value), rest), Stop(r));
        OneItem(items);
      } else {
        var tail := ItemsText(more, last, "]" + r);
        SpaceTaken(item.after, follow, rest);
        Suffix(",", tail, follow);
        ItemsTaken(more, last, r, tail, depth, trailing);
        CommaTaken(item.after, tail, ArrayEnd, trailing, rest);
        SkipTwice(tail);
        ItemsSkip(SkipSpace(tail), tail, depth, trailing);
        ItemsCons(t, depth, trailing, Parsed(Meaning(item.value), rest), More(SkipSpace(tail)));
      }
    }
  }

  lemma SeparatorEnds(follow: string)
    requires follow != "" && follow[0] in ",]}"
    ensures Ends(follow)
  {
  }

  lemma LastItem(last: Option<Space>, r: string)
    ensures MoreItemsText([], last, "]" + r) == if last.None? then "]" + r else "," + SpaceText(last.value, "]" + r)
  {
  }

  lemma OneItem(items: seq<Item>)
    requires |items| == 1 && AreItems(items)
    ensures ItemsMeaning(items) == [Meaning(items[0].value)]
  {
    assert ItemsMeaning(items[1..]) == [];
  }

  lemma NoPairsTaken(last: Space, r: string, t: CString, depth: nat, trailing: bool, entries: seq<Entry>)
    requires IsSpaces(last) && t == SpaceText(last, "}" + r)
    ensures NUL !in r && BuildEntries(t, depth, trailing, entries) == Some(Parsed(entries, r))
  {
    hide SpaceText, SkipSpace, FrontToken, Build;
    SpaceTaken(last, "}" + r, t);
    PunctuationIsToken("}" + r);
    Suffix("}", r, "}" + r);
  }

  /** A key and its colon in front of some text. */
  lemma KeyTaken(p: Pair, r: string, t: CString)
    requires IsSpaces(p.space) && AreUnits(p.key) && IsSpaces(p.colon) && t == KeyText(p, r)
    ensures NUL !in r
    ensures var u := SkipSpace(t);
            var afterKey := SkipSpace(Rest(u, FrontToken(u).length));
            && FrontToken(u).kind.StringToken? && StringValue(u) == UnitsString(p.key)
            && FrontToken(afterKey).kind.PairSeparator? && Rest(afterKey, 1) == r
  {
    hide SpaceText, SkipSpace, FrontToken, UnitsText, StringValue, IsSpaces, AreUnits;
    var colon := ":" + r;
    var body := "\"" + UnitsText(p.key, SpaceText(p.colon, colon));
    SpaceTaken(p.space, body, t);
    QuotedTaken(p.key, SpaceText(p.colon, colon), body);
    SpaceTaken(p.colon, colon, SpaceText(p.colon, colon));
    PunctuationIsToken(colon);
    Suffix(":", r, colon);
  }

  /** The parsing of a dictionary from one of its keys. */
  lemma PairsCons(t: CString, depth: nat, trailing: bool, entries: seq<Entry>, p: Pair, r: CString, item: Parsed<Value>,
                  more: Continuation)
    requires IsSpaces(p.space) && AreUnits(p.key) && IsSpaces(p.colon) && t == KeyText(p, r)
    requires Build(r, depth, false, trailing) == Some(item) && Separated(item.rest, ObjectEnd, trailing) == more
    ensures FrontToken(SkipSpace(t)).kind.StringToken?
    ensures var entries' := SetPath(entries, UnitsString(p.key), item.value);
            && (more.Stop? ==> BuildEntries(t, depth, trailing, entries) == Some(Parsed(entries', more.rest)))
            && (more.More? ==> BuildEntries(t, depth, trailing, entries) == BuildEntries(more.rest, depth, trailing, entries'))
  {
    hide SkipSpace, FrontToken, Build, BuildEntries, Separated, KeyText, SetPath, StringValue, IsSpaces, AreUnits;
    KeyTaken(p, r, t);
    SkipTwice(r);
    BuildSkips(r, SkipSpace(r), depth, false, trailing);
    EntriesStep(t, depth, trailing, entries);
  }

  lemma {:induction false} PairsTaken(pairs: seq<Pair>, last: Option<Space>, r: string, t: CString, depth: nat, trailing: bool,
                                      entries: seq<Entry>)
    requires ArePairs(pairs) && IsLast(last, |pairs|) && t == PairsText(pairs, last, "}" + r)
    requires depth + PairsNesting(pairs) <= STACK_LIMIT
    requires trailing || (StrictPairs(pairs) && (pairs == [] || last.None?))
    ensures NUL !in r && BuildEntries(t, depth, trailing, entries) == Some(Parsed(PairsMeaning(pairs, entries), r))
    ensures pairs != [] ==> FrontToken(SkipSpace(t)).kind.StringToken?
    decreases pairs
  {
    hide SpaceText, SkipSpace, FrontToken, Build, BuildEntries, Separated, TreeText, KeyText, Meaning, IsTree, Strict, Nesting,
         Ends, IsSpaces, AreUnits, SetPath, UnitsString;
    if pairs == [] {
      NoPairsTaken(last.value, r, t, depth, trailing, entries);
    } else {
      var p, more := pairs[0], pairs[1..];
      var follow := MorePairsText(more, last, "}" + r);
      var rest := SpaceText(p.after, follow);
      SeparatorEnds(follow);
      SpaceEnds(p.after, follow);
      KeyTaken(p, TreeText(p.value, rest), t);
      TreeTaken(p.value, rest, TreeText(p.value, rest), depth, false, trailing);
      if more == [] {
        LastPair(last, r);
        EndTaken(p.after, last, "}", r, ObjectEnd, trailing, rest);
        PairsCons(t, depth, trailing, entries, p, TreeText(p.value, rest), Parsed(Meaning(p.value), rest), Stop(r));
        OnePair(pairs, entries);
      } else {
        var tail := PairsText(more, last, "}" + r);
        SpaceTaken(p.after, follow, rest);
        Suffix(",", tail, follow);
        var entries' := SetPath(entries, UnitsString(p.key), Meaning(p.value));
        PairsTaken(more, last, r, tail, depth, trailing, entries');
        CommaTaken(p.after, tail, ObjectEnd, trailing, rest);
        SkipTwice(tail);
        EntriesSkip(SkipSpace(tail), tail, depth, trailing, entries');
        PairsCons(t, depth, trailing, entries, p, TreeText(p.value, rest), Parsed(Meaning(p.value), rest), More(SkipSpace(tail)));
      }
    }
  }

  lemma LastPair(last: Option<Space>, r: string)
    ensures MorePairsText([], last, "}" + r) == if last.None? then "}" + r else "," + SpaceText(last.value, "}" + r)
  {
  }

  lemma OnePair(pairs: seq<Pair>, entries: seq<Entry>)
    requires |pairs| == 1 && ArePairs(pairs)
    ensures PairsMeaning(pairs, entries) == SetPath(entries, UnitsString(pairs[0].key), Meaning(pairs[0].value))
  {
    assert pairs[1..] == [];
  }

  // ---------------------------------------------------------------- accepted texts are texts of the grammar

  /** The character that a token of punctuation or a string starts with. */
  lemma TokenStarts(t: CString)
    ensures var k := FrontToken(t).kind;
            && (k.ArrayBegin? ==> "[" <= t) && (k.ArrayEnd? ==> "]" <= t)
            && (k.ObjectBegin? ==> "{" <= t) && (k.ObjectEnd? ==> "}" <= t)
            && (k.ListSeparator? ==> "," <= t) && (k.PairSeparator? ==> ":" <= t)
            && (k.ArrayBegin? || k.ArrayEnd? || k.ObjectBegin? || k.ObjectEnd? || k.ListSeparator? || k.PairSeparator? ==>
                  FrontToken(t).length == 1)
    ensures FrontToken(t).kind.StringToken? ==>
              "\"" <= t && StringLength(Rest(t, 1)).Some? && FrontToken(t).length == 1 + StringLength(Rest(t, 1)).value
    ensures FrontToken(t).kind.Number? ==> NumberLength(t) == Some(FrontToken(t).length)
  {
    hide NumberLength, StringLength;
  }

  lemma WordStarts(t: CString)
    ensures FrontToken(t).kind.NullToken? ==> "null" <= t && FrontToken(t).length == 4
    ensures FrontToken(t).kind.BoolTrue? ==> "true" <= t && FrontToken(t).length == 4
    ensures FrontToken(t).kind.BoolFalse? ==> "false" <= t && FrontToken(t).length == 5
  {
    hide NumberLength, StringLength;
  }

  lemma Prefix(a: string, t: CString)
    requires a <= t
    ensures t == a + Rest(t, |a|)
  {
  }

  lemma QuotedFound(t: CString) returns (units: seq<Unit>)
    requires FrontToken(t).kind.StringToken?
    ensures AreUnits(units) && StringValue(t) == UnitsString(units)
    ensures t == "\"" + UnitsText(units, Rest(t, FrontToken(t).length))
  {
    TokenStarts(t);
    var u := Rest(t, 1);
    Prefix("\"", t);
    units := UnitsFound(u);
    assert StringValue(t) == Unescape(u);
    hide FrontToken, StringLength, Unescape, UnitsText, AreUnits, StringValue;
    StringOfUnits(units, Unescape(u));
    assert Rest(u, StringLength(u).value) == Rest(t, 1 + StringLength(u).value);
  }

  /** The leaf at the front of a text. */
  lemma LeafFound(t: CString, space: Space) returns (tree: Tree)
    requires IsLeaf(FrontToken(t).kind) && IsSpaces(space)
    ensures IsTree(tree) && !IsContainerTree(tree) && tree.space == space
    ensures t == BodyText(tree, Rest(t, FrontToken(t).length)) && Meaning(tree) == LeafValue(t)
  {
    hide FrontToken, UnitsText, NumeralText, AreUnits, IsNumeral, IsSpaces, Rest, LeafValue, UnitsString, NumeralValue;
    if FrontToken(t).kind.StringToken? {
      var units := QuotedFound(t);
      tree := Quoted(space, units);
      StringLeaf(t);
    } else if FrontToken(t).kind.Number? {
      var numeral := NumericFound(t);
      tree := Numeric(space, numeral);
    } else {
      var word := WordFound(t);
      tree := Word(space, word);
    }
  }

  lemma StringLeaf(t: CString)
    requires FrontToken(t).kind.StringToken?
    ensures LeafValue(t) == String(StringValue(t))
  {
    hide FrontToken, StringValue;
  }

  lemma NumericFound(t: CString) returns (n: Numeral)
    requires FrontToken(t).kind.Number?
    ensures IsNumeral(n) && LeafValue(t) == Integer(NumeralValue(n))
    ensures t == NumeralText(n) + Rest(t, FrontToken(t).length)
  {
    TokenStarts(t);
    hide FrontToken, NumeralText, IsNumeral, NumberLength, IntValue, NumeralValue;
    n := NumeralFound(t);
    NumeralIsValue(n);
    Prefix(NumeralText(n), t);
  }

  lemma WordFound(t: CString) returns (word: string)
    requires IsLeaf(FrontToken(t).kind) && !FrontToken(t).kind.StringToken? && !FrontToken(t).kind.Number?
    ensures word in {"null", "true", "false"} && t == word + Rest(t, FrontToken(t).length)
    ensures LeafValue(t) == if word == "null" then Null else Boolean(word == "true")
  {
    WordStarts(t);
    hide FrontToken;
    word := if FrontToken(t).kind.NullToken? then "null" else if FrontToken(t).kind.BoolTrue? then "true" else "false";
    Prefix(word, t);
  }

  /** The space in front of something. */
  lemma SpaceInFront(t: CString) returns (s: Space)
    requires SkipSpace(t) != ""
    ensures IsSpaces(s) && t == SpaceText(s, SkipSpace(t))
  {
    hide *;
    var tail;
    s, tail := SpaceFound(t);
  }

  lemma TokenIsThere(t: CString)
    ensures FrontToken(t).length > 0 ==> t != ""
  {
    hide FrontToken;
  }

  /** What stands between members: some space, and a comma or the end. */
  lemma SeparatorFound(t: CString, end: TokenType, trailing: bool)
    returns (after: Space, last: Option<Space>, rest: CString)
    requires (end.ArrayEnd? || end.ObjectEnd?) && !Separated(t, end, trailing).Fail?
    ensures IsSpaces(after) && (last.Some? ==> IsSpaces(last.value) && trailing)
    ensures var more := Separated(t, end, trailing);
            var bracket := if end.ArrayEnd? then "]" else "}";
            && (more.Stop? ==>
                  t == SpaceText(after, if last.None? then bracket + more.rest else "," + SpaceText(last.value, bracket + more.rest)))
            && (more.More? ==> last.None? && |rest| < |t| && t == SpaceText(after, "," + rest) && more.rest == SkipSpace(rest))
            && (more.More? ==> FrontToken(more.rest).kind != end)
  {
    var u := SkipSpace(t);
    TokenStarts(u);
    last := None;
    rest := "";
    hide FrontToken, SkipSpace, SpaceText, IsSpaces;
    TokenIsThere(u);
    after := SpaceInFront(t);
    if FrontToken(u).kind.ListSeparator? {
      rest := Rest(u, 1);
      Prefix(",", u);
      var v := SkipSpace(rest);
      if FrontToken(v).kind == end {
        TokenStarts(v);
        TokenIsThere(v);
        var s := SpaceInFront(rest);
        last := Some(s);
        Prefix(if end.ArrayEnd? then "]" else "}", v);
      }
    } else {
      Prefix(if end.ArrayEnd? then "]" else "}", u);
    }
  }

  /** Whatever is parsed is a text of the grammar. */
  lemma {:induction false} TreeFound(t: CString, depth: nat, isRoot: bool, trailing: bool) returns (tree: Tree)
    requires Build(t, depth, isRoot, trailing).Some?
    ensures IsTree(tree) && t == TreeText(tree, Build(t, depth, isRoot, trailing).value.rest)
    ensures Meaning(tree) == Build(t, depth, isRoot, trailing).value.value
    ensures depth + Nesting(tree) <= STACK_LIMIT && (trailing || Strict(tree)) && (isRoot ==> IsContainerTree(tree))
    decreases |t|, 1
  {
    hide SkipSpace, FrontToken, BuildItems, BuildEntries, SpaceText, IsSpaces, LeafValue, ItemsText, PairsText, Build, Rest;
    var u := SkipSpace(t);
    var k := FrontToken(u).kind;
    BuildStarts(t, depth, isRoot, trailing);
    BuildCases(t, depth, isRoot, trailing);
    TokenStarts(u);
    TokenIsThere(u);
    var space := SpaceInFront(t);
    if k.ArrayBegin? {
      Prefix("[", u);
      var items, last := ItemsFound(Rest(u, 1), depth + 1, trailing);
      tree := Array(space, items, last);
    } else if k.ObjectBegin? {
      Prefix("{", u);
      var pairs, last := PairsFound(Rest(u, 1), depth + 1, trailing, []);
      tree := Object(space, pairs, last);
    } else {
      tree := LeafFound(u, space);
    }
  }

  /** What was parsed, by the first token. */
  lemma BuildCases(t: CString, depth: nat, isRoot: bool, trailing: bool)
    requires Build(t, depth, isRoot, trailing).Some?
    ensures var u := SkipSpace(t);
            var k := FrontToken(u).kind;
            var r := Build(t, depth, isRoot, trailing).value;
            && depth + 1 <= STACK_LIMIT
            && (IsLeaf(k) ==> !isRoot && r == Parsed(LeafValue(u), Rest(u, FrontToken(u).length)))
            && (k.ArrayBegin? ==>
                  |u| > 0 && var items := BuildItems(Rest(u, 1), depth + 1, trailing);
                  items.Some? && r == Parsed(List(items.value.value), items.value.rest))
            && (k.ObjectBegin? ==>
                  |u| > 0 && var entries := BuildEntries(Rest(u, 1), depth + 1, trailing, []);
                  entries.Some? && r == Parsed(Dictionary(entries.value.value), entries.value.rest))
  {
    TokenStarts(SkipSpace(t));
    TokenIsThere(SkipSpace(t));
    hide SkipSpace, FrontToken, BuildItems, BuildEntries, LeafValue;
  }

  lemma {:induction false} ItemsFound(t: CString, depth: nat, trailing: bool) returns (items: seq<Item>, last: Option<Space>)
    requires BuildItems(t, depth, trailing).Some? && depth <= STACK_LIMIT
    ensures AreItems(items) && IsLast(last, |items|)
    ensures t == ItemsText(items, last, "]" + BuildItems(t, depth, trailing).value.rest)
    ensures ItemsMeaning(items) == BuildItems(t, depth, trailing).value.value
    ensures depth + ItemsNesting(items) <= STACK_LIMIT
    ensures trailing || (StrictItems(items) && (items == [] || last.None?))
    ensures items == [] ==> FrontToken(SkipSpace(t)).kind.ArrayEnd?
    decreases |t|, 2
  {
    var u := SkipSpace(t);
    hide SkipSpace, FrontToken, Build, SpaceText, IsSpaces, TreeText, IsTree, Meaning, Nesting, Strict, Separated;
    if FrontToken(u).kind.ArrayEnd? {
      TokenStarts(u);
      TokenIsThere(u);
      var s := SpaceInFront(t);
      Prefix("]", u);
      items, last := [], Some(s);
    } else {
      SkipTwice(t);
      BuildSkips(t, u, depth, false, trailing);
      var item := Build(t, depth, false, trailing).value;
      var tree := TreeFound(t, depth, false, trailing);
      var after, closing, rest := SeparatorFound(item.rest, ArrayEnd, trailing);
      var more: seq<Item> := [];
      last := closing;
      LastItem(last, BuildItems(t, depth, trailing).value.rest);
      if Separated(item.rest, ArrayEnd, trailing).More? {
        SkipTwice(rest);
        ItemsSkip(SkipSpace(rest), rest, depth, trailing);
        more, last := ItemsFound(rest, depth, trailing);
      }
      items := [Item(tree, after)] + more;
      assert items[0] == Item(tree, after) && items[1..] == more;
    }
  }

  lemma {:induction false} PairsFound(t: CString, depth: nat, trailing: bool, entries: seq<Entry>)
    returns (pairs: seq<Pair>, last: Option<Space>)
    requires BuildEntries(t, depth, trailing, entries).Some? && depth <= STACK_LIMIT
    ensures ArePairs(pairs) && IsLast(last, |pairs|)
    ensures t == PairsText(pairs, last, "}" + BuildEntries(t, depth, trailing, entries).value.rest)
    ensures PairsMeaning(pairs, entries) == BuildEntries(t, depth, trailing, entries).value.value
    ensures depth + PairsNesting(pairs) <= STACK_LIMIT
    ensures trailing || (StrictPairs(pairs) && (pairs == [] || last.None?))
    ensures pairs == [] ==> FrontToken(SkipSpace(t)).kind.ObjectEnd?
    decreases |t|, 2
  {
    var u := SkipSpace(t);
    hide SkipSpace, FrontToken, Build, SpaceText, IsSpaces, TreeText, IsTree, Meaning, Nesting, Strict, Separated, KeyText,
         AreUnits, SetPath, StringValue, UnitsString;
    if FrontToken(u).kind.ObjectEnd? {
      TokenStarts(u);
      TokenIsThere(u);
      var s := SpaceInFront(t);
      Prefix("}", u);
      pairs, last := [], Some(s);
    } else {
      var space, key, colon, value := KeyFound(t);
      SkipTwice(value);
      BuildSkips(value, SkipSpace(value), depth, false, trailing);
      var item := Build(value, depth, false, trailing).value;
      var tree := TreeFound(value, depth, false, trailing);
      var after, closing, rest := SeparatorFound(item.rest, ObjectEnd, trailing);
      var more: seq<Pair> := [];
      last := closing;
      LastPair(last, BuildEntries(t, depth, trailing, entries).value.rest);
      if Separated(item.rest, ObjectEnd, trailing).More? {
        SkipTwice(rest);
        var entries' := SetPath(entries, UnitsString(key), item.value);
        EntriesSkip(SkipSpace(rest), rest, depth, trailing, entries');
        more, last := PairsFound(rest, depth, trailing, entries');
      }
      var p := Pair(space, key, colon, tree, after);
      pairs := [p] + more;
      assert pairs[0] == p && pairs[1..] == more;
      assert t == KeyText(p, value);
    }
  }

  /** The key and the colon at the front of a text. */
  lemma KeyFound(t: CString) returns (space: Space, key: seq<Unit>, colon: Space, value: CString)
    requires FrontToken(SkipSpace(t)).kind.StringToken?
    requires FrontToken(SkipSpace(Rest(SkipSpace(t), FrontToken(SkipSpace(t)).length))).kind.PairSeparator?
    ensures IsSpaces(space) && AreUnits(key) && IsSpaces(colon) && |value| < |t|
    ensures forall tree, after :: t == KeyText(Pair(space, key, colon, tree, after), value)
    ensures StringValue(SkipSpace(t)) == UnitsString(key)
    ensures value == Rest(SkipSpace(Rest(SkipSpace(t), FrontToken(SkipSpace(t)).length)), 1)
  {
    var u := SkipSpace(t);
    var afterKey := Rest(u, FrontToken(u).length);
    var v := SkipSpace(afterKey);
    hide SkipSpace, FrontToken, SpaceText, IsSpaces, AreUnits, StringValue, UnitsText, UnitsString;
    TokenIsThere(u);
    TokenIsThere(v);
    space := SpaceInFront(t);
    key := QuotedFound(u);
    colon := SpaceInFront(afterKey);
    TokenStarts(v);
    Prefix(":", v);
    value := Rest(v, 1);
  }

  // ---------------------------------------------------------------- the grammar is what is accepted

  /** What follows the root is nothing exactly when it is space, and at the end perhaps an unfinished comment. */
  lemma NothingMoreFollows(t: CString) returns (space: Space, tail: string)
    ensures NextToken(t).kind.EndOfInput? ==> IsSpaces(space) && IsTail(tail) && t == SpaceText(space, tail)
  {
    assert NextToken(t).kind.EndOfInput? ==> SkipSpace(t) == "";
    hide *;
    space, tail := SpaceFound(t);
  }

  lemma NothingFollowsSpace(t: CString, space: Space, tail: string)
    requires IsSpaces(space) && IsTail(tail) && t == SpaceText(space, tail)
    ensures NextToken(t).kind.EndOfInput?
  {
    hide IsTail, IsSpaces, SpaceText, SpaceLength;
    SpaceTaken(space, tail, t);
    TailTaken(tail);
  }

  lemma TailEnds(space: Space, tail: string)
    requires IsSpaces(space) && IsTail(tail)
    ensures Ends(SpaceText(space, tail))
  {
    assert Ends(tail);
    SpaceEnds(space, tail);
  }

  /**
   The parser accepts a text as a value exactly when it is UTF-8 and a document of the grammar that stands for the
   value, with at most 100 levels of nesting, with commas after last members only where they are allowed.
   */
  lemma AcceptsTheGrammar(json: string, checkRoot: bool, trailing: bool, v: Value)
    ensures JsonToValue(json, checkRoot, trailing) == Some(v) <==>
            IsUtf8(CStr(json)) && IsDocument(CStr(json), checkRoot, trailing, v)
  {
    var t := CStr(json);
    hide Build, IsUtf8, NextToken, CStr, TreeText, SpaceText, IsTree, IsTail, IsSpaces, Meaning, Nesting, Strict, Ends;
    if JsonToValue(json, checkRoot, trailing) == Some(v) {
      var tree := TreeFound(t, 0, checkRoot, trailing);
      var space, tail := NothingMoreFollows(Build(t, 0, checkRoot, trailing).value.rest);
      assert IsDocument(t, checkRoot, trailing, v);
    }
    if IsDocument(t, checkRoot, trailing, v) {
      var tree, space, tail :|
        && IsTree(tree) && IsSpaces(space) && IsTail(tail)
        && t == TreeText(tree, SpaceText(space, tail))
        && Meaning(tree) == v && Nesting(tree) <= 100
        && (trailing || Strict(tree)) && (checkRoot ==> IsContainerTree(tree));
      TailEnds(space, tail);
      TreeTaken(tree, SpaceText(space, tail), t, 0, checkRoot, trailing);
      NothingFollowsSpace(SpaceText(space, tail), space, tail);
    }
  }

  lemma AcceptsDocuments(json: string, checkRoot: bool, trailing: bool)
    ensures forall v :: JsonToValue(json, checkRoot, trailing) == Some(v) <==>
              IsUtf8(CStr(json)) && IsDocument(CStr(json), checkRoot, trailing, v)
  {
    hide JsonToValue, IsUtf8, IsDocument;
    forall v ensures JsonToValue(json, checkRoot, trailing) == Some(v) <==>
                     IsUtf8(CStr(json)) && IsDocument(CStr(json), checkRoot, trailing, v) {
      AcceptsTheGrammar(json, checkRoot, trailing, v);
    }
  }
}
