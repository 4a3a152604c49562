/** JSON values, the text that is printed for them, and the values that are parsed from text. */
module JsonGrammar {
  import opened Prelude
  import opened JsonText

  datatype Entry = Entry(key: string, value: Value)

  /** The entries of a dictionary are those of a sorted map, in the order of its iteration. */
  datatype Value =
    | Null
    | Boolean(b: bool)
    | Integer(n: int)
    | String(s: string)
    | List(items: seq<Value>)
    | Dictionary(entries: seq<Entry>)

  // ---------------------------------------------------------------- dictionaries

  /** The order of std::string. */
  predicate Less(a: string, b: string) {
    if b == "" then false
    else if a == "" then true
    else a[0] < b[0] || (a[0] == b[0] && Less(a[1..], b[1..]))
  }

  ghost predicate Sorted(entries: seq<Entry>) {
    forall i, j :: 0 <= i < j < |entries| ==> Less(entries[i].key, entries[j].key)
  }

  /** Inserts a key into a sorted map or replaces its value. */
  function SetKey(entries: seq<Entry>, key: string, value: Value): seq<Entry> {
    if entries == [] || Less(key, entries[0].key) then [Entry(key, value)] + entries
    else if entries[0].key == key then [Entry(key, value)] + entries[1..]
    else [entries[0]] + SetKey(entries[1..], key, value)
  }

  function Lookup(entries: seq<Entry>, key: string): Option<Value> {
    if entries == [] then None
    else if entries[0].key == key then Some(entries[0].value)
    else Lookup(entries[1..], key)
  }

  function FirstDot(path: string): (n: nat)
    ensures n <= |path| && '.' !in path[..n]
    ensures n < |path| ==> path[n] == '.'
  {
    if path == "" || path[0] == '.' then 0 else 1 + FirstDot(path[1..])
  }

  /** DictionaryValue::Set: a dot in the path leads into a nested dictionary, created on demand. */
  function SetPath(entries: seq<Entry>, path: string, value: Value): seq<Entry>
    decreases |path|
  {
    var dot := FirstDot(path);
    if dot == |path| then SetKey(entries, path, value)
    else
      var inner := match Lookup(entries, path[..dot])
                   case Some(Dictionary(existing)) => existing
                   case _ => [];
      SetKey(entries, path[..dot], Dictionary(SetPath(inner, path[dot + 1..], value)))
  }

  // ---------------------------------------------------------------- printing

  const LINE_ENDING: string := "\r\n"

  function Indent(depth: nat): string {
    Repeat(' ', depth * 3)
  }

  /** What the writer appends for a value at some depth of dictionaries. */
  function Print(v: Value, pretty: bool, depth: nat): string
    decreases v, 1
  {
    match v
    case Null => "null"
    case Boolean(b) => if b then "true" else "false"
    case Integer(n) => IntToString(n)
    case String(s) => Quote(s)
    case List(items) =>
      "[" + (if pretty then " " else "") + PrintItems(items, pretty, depth, true)
      + (if pretty then " " else "") + "]"
    case Dictionary(entries) =>
      "{" + (if pretty then LINE_ENDING else "") + PrintEntries(entries, pretty, depth, true)
      + (if pretty then LINE_ENDING + Indent(depth) else "") + "}"
  }

  function Separator(pretty: bool, first: bool, gap: string): string {
    if first then "" else if pretty then "," + gap else ","
  }

  function PrintItems(items: seq<Value>, pretty: bool, depth: nat, first: bool): string
    decreases items, 0
  {
    if items == [] then ""
    else
      Separator(pretty, first, " ") + Print(items[0], pretty, depth)
      + PrintItems(items[1..], pretty, depth, false)
  }

  function PrintEntries(entries: seq<Entry>, pretty: bool, depth: nat, first: bool): string
    decreases entries, 0
  {
    if entries == [] then ""
    else
      Separator(pretty, first, LINE_ENDING) + PrintKey(entries[0].key, pretty, depth)
      + Print(entries[0].value, pretty, depth + 1)
      + PrintEntries(entries[1..], pretty, depth, false)
  }

  function PrintKey(key: string, pretty: bool, depth: nat): string {
    (if pretty then Indent(depth + 1) else "") + Quote(key) + (if pretty then ": " else ":")
  }

  /** JSONWriter::Write. */
  function Write(v: Value, pretty: bool): string {
    Print(v, pretty, 0) + (if pretty then LINE_ENDING else "")
  }

  // ---------------------------------------------------------------- whitespace and comments

  predicate IsSpace(c: char) {
    c == ' ' || c == '\n' || c == '\r' || c == '\t'
  }

  /** Up to and including the end of the line. */
  function LineLength(t: CString): (n: nat)
    ensures n <= |t|
  {
    if t == "" then 0
    else if t[0] == '\n' || t[0] == '\r' then 1
    else 1 + LineLength(Rest(t, 1))
  }

  /** Up to and including the end of a block comment. */
  function BlockLength(t: CString): (n: nat)
    ensures n <= |t|
  {
    if t == "" then 0
    else if t[0] == '*' && At(t, 1) == '/' then 2
    else 1 + BlockLength(Rest(t, 1))
  }

  /** The comment that the text starts with, finished or not; None if it is no comment. */
  function CommentLength(t: CString): (r: Option<nat>)
    ensures r.Some? ==> 2 <= r.value <= |t|
  {
    if At(t, 0) != '/' then None
    else if At(t, 1) == '/' then Some(2 + LineLength(Rest(t, 2)))
    else if At(t, 1) == '*' then Some(2 + BlockLength(Rest(t, 2)))
    else None
  }

  /** All the whitespace and comments that the text starts with. */
  function SpaceLength(t: CString): (n: nat)
    ensures n <= |t|
    decreases |t|
  {
    if t == "" then 0
    else if IsSpace(t[0]) then 1 + SpaceLength(Rest(t, 1))
    else match CommentLength(t)
         case None => 0
         case Some(n) => n + SpaceLength(Rest(t, n))
  }

  // ---------------------------------------------------------------- tokens

  datatype TokenType =
    | ObjectBegin | ObjectEnd | ArrayBegin | ArrayEnd | StringToken | Number | BoolTrue | BoolFalse | NullToken
    | ListSeparator | PairSeparator | EndOfInput | Invalid

  /** A token and its length; the tokens of no length are EndOfInput and Invalid. */
  datatype Token = Token(kind: TokenType, length: nat)

  predicate StartsWith(t: CString, word: string) {
    word <= t
  }

  /** The token at the front of a text without leading whitespace. */
  function FrontToken(t: CString): (token: Token)
    ensures token.length <= |t|
    ensures token.length == 0 <==> token.kind.EndOfInput? || token.kind.Invalid?
  {
    var c := At(t, 0);
    if c == NUL then Token(EndOfInput, 0)
    else if c == 'n' then if StartsWith(t, "null") then Token(NullToken, 4) else Token(Invalid, 0)
    else if c == 't' then if StartsWith(t, "true") then Token(BoolTrue, 4) else Token(Invalid, 0)
    else if c == 'f' then if StartsWith(t, "false") then Token(BoolFalse, 5) else Token(Invalid, 0)
    else if c == '[' then Token(ArrayBegin, 1)
    else if c == ']' then Token(ArrayEnd, 1)
    else if c == ',' then Token(ListSeparator, 1)
    else if c == '{' then Token(ObjectBegin, 1)
    else if c == '}' then Token(ObjectEnd, 1)
    else if c == ':' then Token(PairSeparator, 1)
    else if IsDigit(c) || c == '-' then
      match NumberLength(t)
      case Some(n) => Token(Number, n)
      case None => Token(Invalid, 0)
    else if c == '"' then
      match StringLength(Rest(t, 1))
      case Some(n) => Token(StringToken, 1 + n)
      case None => Token(Invalid, 0)
    else Token(Invalid, 0)
  }

  /** ParseToken: the text after whitespace, with the token there. */
  function SkipSpace(t: CString): (u: CString)
    ensures |u| <= |t|
  {
    Rest(t, SpaceLength(t))
  }

  function NextToken(t: CString): Token {
    FrontToken(SkipSpace(t))
  }

  lemma NoRest(t: CString)
    ensures Rest(t, 0) == t
  {
  }

  lemma RestOfRest(t: CString, a: nat, b: nat)
    requires a + b <= |t|
    ensures Rest(Rest(t, a), b) == Rest(t, a + b)
  {
  }

  lemma SkipTwice(t: CString)
    ensures SkipSpace(SkipSpace(t)) == SkipSpace(t)
  {
    hide SpaceLength, Rest;
    SpaceIsAllTaken(t);
    NoRest(SkipSpace(t));
  }

  lemma {:induction false} SpaceIsAllTaken(t: CString)
    ensures SpaceLength(SkipSpace(t)) == 0
    decreases |t|
  {
    if t != "" && IsSpace(t[0]) {
      SpaceIsAllTaken(Rest(t, 1));
      RestOfRest(t, 1, SpaceLength(Rest(t, 1)));
    } else if t != "" && CommentLength(t).Some? {
      var n := CommentLength(t).value;
      SpaceIsAllTaken(Rest(t, n));
      RestOfRest(t, n, SpaceLength(Rest(t, n)));
    } else {
      assert Rest(t, 0) == t;
    }
  }

  // ---------------------------------------------------------------- parsing

  const STACK_LIMIT: nat := 100

  /** A parsed piece and the text that follows it. */
  datatype Parsed<T> = Parsed(value: T, rest: CString)

  function StringValue(t: CString): string
    requires FrontToken(t).kind.StringToken?
  {
    Unescape(Rest(t, 1))
  }

  predicate IsLeaf(kind: TokenType) {
    kind.NullToken? || kind.BoolTrue? || kind.BoolFalse? || kind.Number? || kind.StringToken?
  }

  /** The value of the one-token value at the front of a text. */
  function LeafValue(t: CString): Value
    requires IsLeaf(FrontToken(t).kind)
  {
    var token := FrontToken(t);
    match token.kind
    case BoolTrue => Boolean(true)
    case BoolFalse => Boolean(false)
    case Number => Integer(IntValue(t[..token.length]))
    case StringToken => String(StringValue(t))
    case _ => Null
  }

  /**
   BuildValue, started with some number of enclosing values: None stands for every failure.
   */
  function Build(t: CString, depth: nat, isRoot: bool, trailing: bool): (r: Option<Parsed<Value>>)
    ensures r.Some? ==> |r.value.rest| < |t|
    decreases |t|, 1
  {
    hide FrontToken, SpaceLength, LeafValue;
    if depth + 1 > STACK_LIMIT then None
    else
      var u := SkipSpace(t);
      var token := FrontToken(u);
      if isRoot && token.kind != ObjectBegin && token.kind != ArrayBegin then None
      else
        var after := Rest(u, token.length);
        if IsLeaf(token.kind) then Some(Parsed(LeafValue(u), after))
        else if token.kind.ArrayBegin? then
          match BuildItems(after, depth + 1, trailing)
          case None => None
          case Some(items) => Some(Parsed(List(items.value), items.rest))
        else if token.kind.ObjectBegin? then
          match BuildEntries(after, depth + 1, trailing, [])
          case None => None
          case Some(entries) => Some(Parsed(Dictionary(entries.value), entries.rest))
        else None
  }

  /** The rest of a list, from before one of its values or its closing bracket. */
  function BuildItems(t: CString, depth: nat, trailing: bool): (r: Option<Parsed<seq<Value>>>)
    ensures r.Some? ==> |r.value.rest| < |t|
    decreases |t|, 2
  {
    var u := SkipSpace(t);
    if FrontToken(u).kind.ArrayEnd? then Some(Parsed([], Rest(u, 1)))
    else match Build(u, depth, false, trailing)
         case None => None
         case Some(item) =>
           var more := Separated(item.rest, ArrayEnd, trailing);
           match more
           case Stop(rest) => Some(Parsed([item.value], rest))
           case Fail => None
           case More(rest) =>
             match BuildItems(rest, depth, trailing)
             case None => None
             case Some(items) => Some(Parsed([item.value] + items.value, items.rest))
  }

  /** The rest of a dictionary, from before one of its keys or its closing brace, added to some entries. */
  function BuildEntries(t: CString, depth: nat, trailing: bool, entries: seq<Entry>): (r: Option<Parsed<seq<Entry>>>)
    ensures r.Some? ==> |r.value.rest| < |t|
    decreases |t|, 2
  {
    var u := SkipSpace(t);
    var token := FrontToken(u);
    if token.kind.ObjectEnd? then Some(Parsed(entries, Rest(u, 1)))
    else if !token.kind.StringToken? then None
    else
      var afterKey := SkipSpace(Rest(u, token.length));
      if !FrontToken(afterKey).kind.PairSeparator? then None
      else match Build(SkipSpace(Rest(afterKey, 1)), depth, false, trailing)
           case None => None
           case Some(item) =>
             var entries' := SetPath(entries, StringValue(u), item.value);
             match Separated(item.rest, ObjectEnd, trailing)
             case Stop(rest) => Some(Parsed(entries', rest))
             case Fail => None
             case More(rest) => BuildEntries(rest, depth, trailing, entries')
  }

  /** What follows a member of a list or dictionary: another member, the closing token, or an error. */
  datatype Continuation = More(rest: CString) | Stop(rest: CString) | Fail

  function Separated(t: CString, end: TokenType, trailing: bool): (r: Continuation)
    requires end.ArrayEnd? || end.ObjectEnd?
    ensures r.More? || r.Stop? ==> |r.rest| < |t|
  {
    var u := SkipSpace(t);
    var token := FrontToken(u);
    if token.kind.ListSeparator? then
      var v := SkipSpace(Rest(u, 1));
      if FrontToken(v).kind != end then More(v)
      else if trailing then Stop(Rest(v, 1))
      else Fail
    else if token.kind == end then Stop(Rest(u, 1))
    else Fail
  }
}
