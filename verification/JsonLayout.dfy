/** The printed text letter by letter: the escapes, and the two layouts of a document. */
module JsonLayout {
  import opened Prelude
  import opened JsonText
  import opened JsonGrammar

  /** The characters that are written by a letter, and those that are written in two hexadecimal digits. */
  lemma EscapesWritten(c: char)
    ensures EscapeChar(8 as char) == "\\b" && EscapeChar(9 as char) == "\\t" && EscapeChar(10 as char) == "\\n"
    ensures EscapeChar(11 as char) == "\\v" && EscapeChar(12 as char) == "\\f" && EscapeChar(13 as char) == "\\r"
    ensures EscapeChar('"') == "\\\"" && EscapeChar('\\') == "\\\\"
    ensures c as int < 8 || 13 < c as int < 32 || c as int == 127 ==>
              EscapeChar(c) == "\\x" + ["01234567"[c as int / 16], "0123456789ABCDEF"[c as int % 16]]
    ensures c as int >= 32 && c !in "\"\\" && c as int != 127 ==> EscapeChar(c) == [c]
  {
    if c as int < 8 || 13 < c as int < 32 || c as int == 127 {
      HexWritten(c as int / 16);
      HexWritten(c as int % 16);
      assert "01234567"[c as int / 16] == "0123456789ABCDEF"[c as int / 16];
    }
  }

  lemma HexWritten(n: nat)
    requires n < 16
    ensures HexDigit(n) == "0123456789ABCDEF"[n]
  {
  }

  /** The decimal digits of a number, the most significant first, with a minus sign if it is negative. */
  lemma NumberWritten()
    ensures IntToString(-1230) == "-1230" && IntToString(0) == "0" && IntToString(45) == "45"
  {
    assert NatToString(1) == "1" && NatToString(12) == "12" && NatToString(123) == "123" && NatToString(1230) == "1230";
    assert NatToString(4) == "4";
  }

  // ---------------------------------------------------------------- layout

  /** Some texts with a separator between them. */
  function Joined(parts: seq<string>, separator: string): string {
    if |parts| == 0 then ""
    else if |parts| == 1 then parts[0]
    else parts[0] + separator + Joined(parts[1..], separator)
  }

  function Items(items: seq<Value>, pretty: bool, depth: nat): (parts: seq<string>)
    ensures |parts| == |items| && forall i :: 0 <= i < |items| ==> parts[i] == Print(items[i], pretty, depth)
  {
    seq(|items|, i requires 0 <= i < |items| => Print(items[i], pretty, depth))
  }

  /** Each entry on its own line, indented by three spaces for each level, or without any space. */
  function Lines(entries: seq<Entry>, pretty: bool, depth: nat): (parts: seq<string>)
    ensures |parts| == |entries|
    ensures forall i :: 0 <= i < |entries| ==>
              parts[i] == (if pretty then Repeat(' ', 3 * (depth + 1)) else "") + ("\"" + Escape(entries[i].key) + "\"")
                        + (if pretty then ": " else ":") + Print(entries[i].value, pretty, depth + 1)
  {
    seq(|entries|, i requires 0 <= i < |entries| =>
      (if pretty then Repeat(' ', 3 * (depth + 1)) else "") + ("\"" + Escape(entries[i].key) + "\"")
      + (if pretty then ": " else ":") + Print(entries[i].value, pretty, depth + 1))
  }

  /** A comma and some gap in front of the remaining parts. */
  function After(parts: seq<string>, separator: string): string {
    if parts == [] then "" else separator + Joined(parts, separator)
  }

  lemma JoinedCons(part: string, parts: seq<string>, separator: string)
    ensures Joined([part] + parts, separator) == part + After(parts, separator)
  {
    assert ([part] + parts)[1..] == parts;
    if parts == [] {
      assert part + "" == part;
    } else {
      Associates(part, separator, Joined(parts, separator));
    }
  }

  lemma {:induction false} ItemsJoined(items: seq<Value>, pretty: bool, depth: nat)
    ensures PrintItems(items, pretty, depth, true) == Joined(Items(items, pretty, depth), if pretty then ", " else ",")
    ensures PrintItems(items, pretty, depth, false) == After(Items(items, pretty, depth), if pretty then ", " else ",")
    decreases |items|
  {
    hide *;
    var separator := if pretty then ", " else ",";
    if items == [] {
      NoItems(pretty, depth, separator);
    } else {
      var p, parts := Print(items[0], pretty, depth), Items(items[1..], pretty, depth);
      ItemsJoined(items[1..], pretty, depth);
      assert Items(items, pretty, depth) == [p] + parts;
      JoinedCons(p, parts, separator);
      ItemsPrinted(items, pretty, depth);
      AfterCons(p, parts, separator);
    }
  }

  lemma NoItems(pretty: bool, depth: nat, separator: string)
    ensures PrintItems([], pretty, depth, true) == Joined(Items([], pretty, depth), separator) == ""
    ensures PrintItems([], pretty, depth, false) == After(Items([], pretty, depth), separator) == ""
  {
  }

  lemma ItemsPrinted(items: seq<Value>, pretty: bool, depth: nat)
    requires items != []
    ensures var p, more := Print(items[0], pretty, depth), PrintItems(items[1..], pretty, depth, false);
            && PrintItems(items, pretty, depth, true) == p + more
            && PrintItems(items, pretty, depth, false) == (if pretty then ", " else ",") + (p + more)
  {
    hide Print;
    var p, more := Print(items[0], pretty, depth), PrintItems(items[1..], pretty, depth, false);
    var separator := if pretty then ", " else ",";
    assert Separator(pretty, false, " ") == separator && Separator(pretty, true, " ") == "";
    assert PrintItems(items, pretty, depth, true) == "" + p + more;
    assert PrintItems(items, pretty, depth, false) == separator + p + more;
    hide *;
    assert "" + p == p;
    Associates(separator, p, more);
  }

  lemma LinePrinted(e: Entry, pretty: bool, depth: nat)
    ensures PrintKey(e.key, pretty, depth) + Print(e.value, pretty, depth + 1) == Lines([e], pretty, depth)[0]
  {
    hide Print, Escape;
    assert depth + 1 >= 0 && (depth + 1) * 3 == 3 * (depth + 1);
  }

  lemma LinesCons(entries: seq<Entry>, pretty: bool, depth: nat)
    requires entries != []
    ensures Lines(entries, pretty, depth) == Lines([entries[0]], pretty, depth) + Lines(entries[1..], pretty, depth)
  {
    hide Print, Escape;
  }

  lemma {:induction false} EntriesJoined(entries: seq<Entry>, pretty: bool, depth: nat)
    ensures PrintEntries(entries, pretty, depth, true) == Joined(Lines(entries, pretty, depth), if pretty then ",\r\n" else ",")
    ensures PrintEntries(entries, pretty, depth, false) == After(Lines(entries, pretty, depth), if pretty then ",\r\n" else ",")
    decreases |entries|
  {
    hide *;
    var separator := if pretty then ",\r\n" else ",";
    if entries == [] {
      NoLines(pretty, depth, separator);
    } else {
      var e, parts := entries[0], Lines(entries[1..], pretty, depth);
      var line := PrintKey(e.key, pretty, depth) + Print(e.value, pretty, depth + 1);
      EntriesJoined(entries[1..], pretty, depth);
      LinePrinted(e, pretty, depth);
      LinesCons(entries, pretty, depth);
      assert Lines([e], pretty, depth) == [line];
      JoinedCons(line, parts, separator);
      EntriesPrinted(entries, pretty, depth);
      AfterCons(line, parts, separator);
    }
  }

  lemma AfterCons(part: string, parts: seq<string>, separator: string)
    ensures After([part] + parts, separator) == separator + Joined([part] + parts, separator)
  {
    hide Joined;
  }

  lemma NoLines(pretty: bool, depth: nat, separator: string)
    ensures PrintEntries([], pretty, depth, true) == Joined(Lines([], pretty, depth), separator) == ""
    ensures PrintEntries([], pretty, depth, false) == After(Lines([], pretty, depth), separator) == ""
  {
  }

  lemma EntriesPrinted(entries: seq<Entry>, pretty: bool, depth: nat)
    requires entries != []
    ensures var line := PrintKey(entries[0].key, pretty, depth) + Print(entries[0].value, pretty, depth + 1);
            var more := PrintEntries(entries[1..], pretty, depth, false);
            && PrintEntries(entries, pretty, depth, true) == line + more
            && PrintEntries(entries, pretty, depth, false) == (if pretty then ",\r\n" else ",") + (line + more)
  {
    hide Print, PrintKey;
    var k, p := PrintKey(entries[0].key, pretty, depth), Print(entries[0].value, pretty, depth + 1);
    var more := PrintEntries(entries[1..], pretty, depth, false);
    var separator := if pretty then ",\r\n" else ",";
    assert Separator(pretty, false, LINE_ENDING) == separator && Separator(pretty, true, LINE_ENDING) == "";
    assert PrintEntries(entries, pretty, depth, true) == "" + k + p + more;
    assert PrintEntries(entries, pretty, depth, false) == separator + k + p + more;
    hide *;
    assert "" + k == k;
    Associates(separator, k, p);
    Associates(separator, k + p, more);
  }

  /** A list stays on one line, with or without spaces around its items. */
  lemma ListLayout(items: seq<Value>, depth: nat)
    ensures Print(List(items), false, depth) == "[" + Joined(Items(items, false, depth), ",") + "]"
    ensures Print(List(items), true, depth) == "[ " + Joined(Items(items, true, depth), ", ") + " ]"
  {
    hide Items, Joined;
    ItemsJoined(items, false, depth);
    ItemsJoined(items, true, depth);
    hide PrintItems;
    assert "[" + "" + Joined(Items(items, false, depth), ",") + "" + "]" == "[" + Joined(Items(items, false, depth), ",") + "]";
    assert "[" + " " == "[ ";
    Associates("[ " + Joined(Items(items, true, depth), ", "), " ", "]");
  }

  /** A dictionary has a line for each entry, or stays on one line. */
  lemma DictionaryLayout(entries: seq<Entry>, depth: nat)
    ensures Print(Dictionary(entries), false, depth) == "{" + Joined(Lines(entries, false, depth), ",") + "}"
    ensures Print(Dictionary(entries), true, depth)
         == "{\r\n" + Joined(Lines(entries, true, depth), ",\r\n") + ("\r\n" + Repeat(' ', 3 * depth)) + "}"
  {
    hide Lines, Joined;
    EntriesJoined(entries, false, depth);
    EntriesJoined(entries, true, depth);
    hide PrintEntries;
    var compact := Joined(Lines(entries, false, depth), ",");
    assert "{" + "" + compact + "" + "}" == "{" + compact + "}";
    assert "{" + LINE_ENDING == "{\r\n";
    assert depth * 3 == 3 * depth;
  }

  /** A leaf as it is printed, and the line ending after a pretty document. */
  lemma LeafLayout(s: string, n: int, v: Value, pretty: bool, depth: nat)
    ensures Print(Null, pretty, depth) == "null"
    ensures Print(Boolean(true), pretty, depth) == "true" && Print(Boolean(false), pretty, depth) == "false"
    ensures Print(Integer(n), pretty, depth) == IntToString(n)
    ensures Print(String(s), pretty, depth) == "\"" + Escape(s) + "\""
    ensures Write(v, false) == Print(v, false, 0) && Write(v, true) == Print(v, true, 0) + "\r\n"
  {
    hide Escape, IntToString;
    assert Print(v, false, 0) + "" == Print(v, false, 0);
  }

  /** The escaped string is its characters' escapes, in their order. */
  lemma {:induction false} EscapedInOrder(a: string, c: char, b: string)
    ensures Escape(a + [c] + b) == Escape(a) + EscapeChar(c) + Escape(b)
    decreases |a|
  {
    hide EscapeChar;
    if a == "" {
      assert a + [c] + b == [c] + b && ([c] + b)[1..] == b;
      assert "" + EscapeChar(c) == EscapeChar(c);
    } else {
      assert (a + [c] + b)[0] == a[0] && (a + [c] + b)[1..] == a[1..] + [c] + b;
      EscapedInOrder(a[1..], c, b);
      Associates(EscapeChar(a[0]), Escape(a[1..]), EscapeChar(c));
      Associates(EscapeChar(a[0]), Escape(a[1..]) + EscapeChar(c), Escape(b));
    }
  }
}
