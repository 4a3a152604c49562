/** The printer as the program runs it, appending to one growing string. */
module JsonWriter {
  import opened Prelude
  import opened JsonText
  import opened JsonGrammar
  import opened JsonRoundTrip
  import opened JsonDocument
  import opened JsonReader

  class Writer {
    const prettyPrint: bool
    var json: string

    constructor (prettyPrint: bool)
      ensures this.prettyPrint == prettyPrint && json == ""
    {
      this.prettyPrint := prettyPrint;
      json := "";
    }

    /** Appends the escape of a character that has one letter for it. */
    method SingleEscapeChar(c: char) returns (escaped: bool)
      modifies this
      ensures escaped == EscapeLetter(c).Some?
      ensures json == old(json) + if escaped then EscapeChar(c) else ""
    {
      match EscapeLetter(c)
      case Some(letter) =>
        json := json + ['\\', letter];
        escaped := true;
      case None =>
        assert json + "" == json;
        escaped := false;
    }

    /** JavascriptDoubleQuote, with quotes. */
    /** Appends one character of a quoted string. */
    method AppendChar(c: char)
      modifies this
      ensures json == old(json) + EscapeChar(c)
    {
      ghost var before := json;
      var escaped := SingleEscapeChar(c);
      if !escaped {
        assert json == before + "" == before;
        if c as int < 32 || c as int == 127 {
          json := json + ['\\', 'x', HexDigit(c as int / 16), HexDigit(c as int % 16)];
        } else {
          json := json + [c];
        }
      }
    }

    method AppendQuotedString(s: string)
      modifies this
      ensures json == old(json) + Quote(s)
    {
      ghost var start := json;
      json := json + "\"";
      assert s[0..] == s;
      for i := 0 to |s|
        invariant json + Escape(s[i..]) == start + "\"" + Escape(s)
      {
        ghost var before := json;
        EscapeStep(s, i);
        AppendChar(s[i]);
        Associates(before, EscapeChar(s[i]), Escape(s[i + 1..]));
      }
      assert json + "" == json;
      json := json + "\"";
      Associates(start, "\"", Escape(s));
      Associates(start, "\"" + Escape(s), "\"");
    }

    /** Appends the separator before a member that is not the first. */
    method AppendSeparator(first: bool, gap: string)
      modifies this
      ensures json == old(json) + Separator(prettyPrint, first, gap)
    {
      if first {
        assert json + "" == json;
      } else {
        json := json + ",";
        if prettyPrint {
          json := json + gap;
        }
      }
    }

    /** Everything a list appends after its opening. */
    method AppendItems(items: seq<Value>, depth: nat)
      modifies this
      ensures json == old(json) + PrintItems(items, prettyPrint, depth, true)
      decreases items, 0
    {
      hide Print;
      ghost var all := json + PrintItems(items, prettyPrint, depth, true);
      var i := 0;
      assert items[0..] == items;
      while i < |items|
        invariant 0 <= i <= |items|
        invariant json + PrintItems(items[i..], prettyPrint, depth, i == 0) == all
      {
        ghost var before := json;
        assert items[i..][0] == items[i] && items[i..][1..] == items[i + 1..];
        AppendSeparator(i == 0, " ");
        assert items[i] in items;
        BuildJSONString(items[i], depth);
        Reassociate(before, Separator(prettyPrint, i == 0, " "), Print(items[i], prettyPrint, depth),
                    PrintItems(items[i + 1..], prettyPrint, depth, false));
        i := i + 1;
      }
      assert json + "" == json;
    }

    method AppendEntries(entries: seq<Entry>, depth: nat)
      modifies this
      ensures json == old(json) + PrintEntries(entries, prettyPrint, depth, true)
      decreases entries, 0
    {
      hide Print, Quote, Indent, PrintKey;
      ghost var all := json + PrintEntries(entries, prettyPrint, depth, true);
      var i := 0;
      assert entries[0..] == entries;
      while i < |entries|
        invariant 0 <= i <= |entries|
        invariant json + PrintEntries(entries[i..], prettyPrint, depth, i == 0) == all
      {
        ghost var before := json;
        var e := entries[i];
        assert entries[i..][0] == e && entries[i..][1..] == entries[i + 1..];
        AppendSeparator(i == 0, LINE_ENDING);
        AppendKey(e.key, depth);
        ghost var head := Separator(prettyPrint, i == 0, LINE_ENDING) + PrintKey(e.key, prettyPrint, depth);
        assert json == before + head;
        assert e in entries;
        BuildJSONString(e.value, depth + 1);
        Reassociate(before, head, Print(e.value, prettyPrint, depth + 1),
                    PrintEntries(entries[i + 1..], prettyPrint, depth, false));
        i := i + 1;
      }
      assert json + "" == json;
    }

    method AppendKey(key: string, depth: nat)
      modifies this
      ensures json == old(json) + PrintKey(key, prettyPrint, depth)
    {
      hide Quote, Indent;
      if prettyPrint {
        json := json + Indent(depth + 1);
      }
      AppendQuotedString(key);
      json := json + if prettyPrint then ": " else ":";
    }

    method BuildJSONString(node: Value, depth: nat)
      modifies this
      ensures json == old(json) + Print(node, prettyPrint, depth)
      decreases node, 1
    {
      hide PrintItems, PrintEntries, Indent, Quote, IntToString;
      match node {
        case Null => json := json + "null";
        case Boolean(b) => json := json + if b then "true" else "false";
        case Integer(n) => json := json + IntToString(n);
        case String(s) => AppendQuotedString(s);
        case List(items) =>
          json := json + "[" + if prettyPrint then " " else "";
          AppendItems(items, depth);
          json := json + (if prettyPrint then " " else "") + "]";
        case Dictionary(entries) =>
          json := json + "{" + if prettyPrint then LINE_ENDING else "";
          AppendEntries(entries, depth);
          json := json + (if prettyPrint then LINE_ENDING + Indent(depth) else "") + "}";
      }
    }
  }

  lemma EscapeStep(s: string, i: nat)
    requires i < |s|
    ensures Escape(s[i..]) == EscapeChar(s[i]) + Escape(s[i + 1..]) && Escape("") == ""
  {
    assert s[i..][0] == s[i] && s[i..][1..] == s[i + 1..];
  }

  lemma Reassociate(a: string, b: string, c: string, d: string)
    ensures a + b + c + d == a + (b + c + d)
  {
  }

  method WriteJson(node: Value, prettyPrint: bool) returns (json: string)
    ensures json == Write(node, prettyPrint)
  {
    hide Print;
    var writer := new Writer(prettyPrint);
    writer.BuildJSONString(node, 0);
    json := writer.json + if prettyPrint then LINE_ENDING else "";
  }

  /** The two programs together: what one writes the other reads back, up to the nesting limit and for UTF-8 strings. */
  method WriteAndRead(node: Value, prettyPrint: bool, trailing: bool) returns (r: Option<Value>)
    requires WellFormed(node)
    ensures r == if IsContainer(node) && Height(node) <= STACK_LIMIT && ValidStrings(node) then Some(node) else None
  {
    hide Build, Print, Height, ValidStrings;
    var json := WriteJson(node, prettyPrint);
    WriteThenRead(node, prettyPrint, trailing);
    var reader := new Reader();
    r := reader.JsonToValue(json, true, trailing);
  }
}
