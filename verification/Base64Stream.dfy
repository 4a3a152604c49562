/** The incremental web-safe Base64 writer and reader. */
module Base64Stream {
  import opened Prelude
  import opened Streams
  import opened Base64

  // ---------------------------------------------------------------- writing

  /** The text is the encoding of all the data but the buffered bytes, a whole number of groups. */
  ghost predicate Encoded(data: Bytes, buffer: Bytes, text: string) {
    && |buffer| < 3
    && |buffer| <= |data|
    && (|data| - |buffer|) % 3 == 0
    && data[|data| - |buffer|..] == buffer
    && text == Encode(data[..|data| - |buffer|])
  }

  lemma EncodedStep(data: Bytes, buffer: Bytes, text: string, more: Bytes, n: nat)
    requires Encoded(data, buffer, text)
    requires n == 3 * (|buffer + more| / 3)
    ensures Encoded(data + more, (buffer + more)[n..], text + Encode((buffer + more)[..n]))
  {
    hide Encode;
    var done := data[..|data| - |buffer|];
    var input := buffer + more;
    assert data + more == done + input;
    assert (done + input)[..|done| + n] == done + input[..n];
    assert (done + input)[|done| + n..] == input[n..];
    EncodeAppend(done, input[..n]);
  }

  lemma EncodedFlush(data: Bytes, buffer: Bytes, text: string)
    requires Encoded(data, buffer, text)
    ensures Encode(data) == text + if buffer == [] then "" else Encode(buffer)
    ensures Encoded([], [], "")
  {
    EncodeAppend(data[..|data| - |buffer|], buffer);
    assert data == data[..|data| - |buffer|] + buffer;
    hide Encode;
    assert Encode([]) == "" by { NothingEncoded(); }
  }

  lemma NothingEncoded()
    ensures Encode([]) == ""
  {
  }

  /** Encodes what it is given in whole groups of three bytes and keeps the rest until flushed. */
  class StreamWriter {
    const stream: Sink<char>
    var buffer: Bytes            // bytes accepted but not yet encoded
    ghost var given: Bytes       // bytes accepted since the last flush
    ghost var emitted: string    // text written before and by the last flush
    ghost var pending: string    // text written since the last flush

    constructor (target: Sink<char>)
      ensures Valid() && stream == target
      ensures given == [] && emitted == target.Written()
    {
      stream := target;
      buffer := [];
      given := [];
      emitted := target.Written();
      pending := "";
      new;
      assert target.Written() + "" == target.Written();
    }

    ghost predicate Valid()
      reads this, stream
    {
      Encoded(given, buffer, pending) && stream.Written() == emitted + pending
    }

    method Write(data: Bytes)
      requires Valid()
      modifies this, stream
      ensures Valid()
      ensures given == old(given) + data && emitted == old(emitted)
    {
      hide Encode, Encoded;
      var input := buffer + data;
      var lenToWrite := 3 * (|input| / 3);
      EncodedStep(given, buffer, pending, data, lenToWrite);
      stream.Write(Encode(input[..lenToWrite]));
      pending := pending + Encode(input[..lenToWrite]);
      buffer := input[lenToWrite..];
      given := given + data;
    }

    /** Everything since the last flush has now been written as one run of Base64 text. */
    method Flush()
      requires Valid()
      modifies this, stream
      ensures Valid()
      ensures stream.Written() == old(emitted) + Encode(old(given))
      ensures given == [] && emitted == stream.Written()
    {
      EncodedFlush(given, buffer, pending);
      hide Encode, Encoded;
      Associates(emitted, pending, if buffer == [] then "" else Encode(buffer));
      if buffer != [] {
        var result := Encode(buffer);
        buffer := [];
        if result != "" {
          stream.Write(result);
          stream.Flush();
        }
      }
      given := [];
      emitted := stream.Written();
      pending := "";
    }
  }

  lemma NothingFlattened(chunks: seq<Bytes>)
    ensures chunks[..0] == [] && Flatten(chunks[..0]) == []
  {
  }

  /** Any chunking of the data followed by one flush writes exactly the one-shot encoding. */
  method WriteAll(chunks: seq<Bytes>, target: Sink<char>)
    modifies target
    ensures target.Written() == old(target.Written()) + Encode(Flatten(chunks))
  {
    hide Encode, Encoded, Flatten;
    var writer := new StreamWriter(target);
    assert Flatten(chunks[..0]) == [] by { NothingFlattened(chunks); }
    for i := 0 to |chunks|
      invariant writer.Valid() && writer.stream == target && fresh(writer)
      invariant writer.given == Flatten(chunks[..i])
      invariant writer.emitted == old(target.Written())
    {
      FlattenSnoc(chunks[..i], chunks[i]);
      assert chunks[..i + 1] == chunks[..i] + [chunks[i]];
      writer.Write(chunks[i]);
    }
    assert chunks[..|chunks|] == chunks;
    writer.Flush();
  }

  // ---------------------------------------------------------------- reading

  /** True when the letters end in a group of one letter, which encodes nothing. */
  predicate Dangling(text: string) {
    |text| % 4 == 1
  }

  /** The letters without a last lone one. */
  function Whole(text: string): (r: string)
    ensures |r| % 4 != 1
    ensures forall c :: c in r ==> c in text
  {
    if Dangling(text) then text[..|text| - 1] else text
  }

  /** The bytes that letters stand for, without a last lone letter. */
  function Decodable(text: string): Bytes
    requires AllLetters(text)
  {
    DecodeLetters(Whole(text))
  }

  lemma WholeSplit(a: string, b: string)
    requires |a| % 4 == 0
    ensures Dangling(a + b) <==> Dangling(b)
    ensures Whole(a + b) == a + Whole(b)
  {
    assert |a + b| == 4 * (|a| / 4) + |b|;
    if Dangling(b) {
      assert (a + b)[..|a + b| - 1] == a + b[..|b| - 1];
    }
  }

  lemma DecodableSplit(a: string, b: string)
    requires AllLetters(a) && AllLetters(b) && |a| % 4 == 0
    ensures AllLetters(a + b) && Decodable(a + b) == DecodeLetters(a) + Decodable(b)
    ensures Dangling(a + b) <==> Dangling(b)
  {
    hide DecodeLetters, Whole, Dangling, IsLetter;
    WholeSplit(a, b);
    assert AllLetters(a + b);
    DecodeAppend(a, Whole(b));
  }

  /** Decoding the whole groups of the data at hand leaves the rest of the text to be decoded. */
  lemma DecodeStep(data: string, rest: string)
    requires AllLetters(data + rest)
    ensures var n := |data| / 4 * 4;
            && AllLetters(data) && AllLetters(data[..n]) && n % 4 != 1 && AllLetters(data[n..] + rest)
            && Decodable(data + rest) == DecodeLetters(data[..n]) + Decodable(data[n..] + rest)
            && (Dangling(data + rest) <==> Dangling(data[n..] + rest))
  {
    hide DecodeLetters, Decodable, IsLetter, Dangling;
    var n := |data| / 4 * 4;
    assert forall c :: c in data ==> c in data + rest;
    assert forall c :: c in rest ==> c in data + rest;
    assert data == data[..n] + data[n..];
    assert data + rest == data[..n] + (data[n..] + rest);
    DecodableSplit(data[..n], data[n..] + rest);
  }

  // ---------------------------------------------------------------- what a read does, for every text

  /** A source, the characters held by the decoder and the bytes not yet returned. */
  datatype Reading = Reading(events: seq<Event<char>>, held: string, decoded: Bytes)

  /** Whether a request can be answered from the decoded bytes alone. */
  predicate Satisfied(decoded: Bytes, size: int, chars: int) {
    if chars >= 0 then |decoded| >= chars else if size < 0 then decoded != [] else |decoded| >= size
  }

  /** One read of the source, decoded; no state when it cannot be. */
  function Filled(s: Reading, size: int): (Option<string>, Option<Reading>) {
    var (newdata, events) := ReadEvents(s.events, size);
    if newdata.None? then (None, Some(s.(events := events)))
    else
      var data := s.held + newdata.value;
      var n := |data| / 4 * 4;
      match Decode(data[..n])
      case Err(_) => (newdata, None)
      case Ok(bytes) => (newdata, Some(Reading(events, data[n..], s.decoded + bytes)))
  }

  function TextOf(s: Reading): string {
    s.held + Content(s.events)
  }

  lemma ChunkSplit(data: string, n: nat, tail: seq<Event<char>>)
    requires n <= |data|
    ensures Content([Chunk(data)] + tail) == data[..n] + Content([Chunk(data[n..])] + tail)
  {
    assert ([Chunk(data)] + tail)[1..] == tail && ([Chunk(data[n..])] + tail)[1..] == tail;
    assert data == data[..n] + data[n..];
    Associates(data[..n], data[n..], Content(tail));
  }

  lemma ReadEventsSplit(events: seq<Event<char>>, size: int)
    ensures var (r, rest) := ReadEvents(events, size);
            if r.Some? then Content(events) == r.value + Content(rest) else Content(events) == Content(rest)
  {
    if size == 0 || events == [] {
      assert "" + Content(events) == Content(events);
    } else if events[0].Chunk? && size > 0 && |events[0].data| > size {
      assert events == [Chunk(events[0].data)] + events[1..];
      hide Content;
      ChunkSplit(events[0].data, size, events[1..]);
    } else {
      assert "" + Content(events[1..]) == Content(events[1..]);
    }
  }

  /** For letters, one read of the source moves bytes from what is to be decoded to what is decoded. */
  lemma FilledLetters(s: Reading, size: int)
    requires AllLetters(TextOf(s))
    ensures var t := Filled(s, size).1;
            && t.Some? && AllLetters(TextOf(t.value))
            && s.decoded + Decodable(TextOf(s)) == t.value.decoded + Decodable(TextOf(t.value))
            && (Dangling(TextOf(t.value)) <==> Dangling(TextOf(s)))
            && (|TextOf(s)| < 4 ==> TextOf(t.value) == TextOf(s) && t.value.decoded == s.decoded)
  {
    ReadEventsSplit(s.events, size);
    hide ReadEvents, DecodeLetters, Decodable, IsLetter, AllLetters, Dangling, Decode;
    var (newdata, rest) := ReadEvents(s.events, size);
    if newdata.Some? {
      var data := s.held + newdata.value;
      Associates(s.held, newdata.value, Content(rest));
      assert TextOf(s) == data + Content(rest);
      DecodeStep(data, Content(rest));
      var n := |data| / 4 * 4;
      DecodeOfLetters(data[..n]);
      Associates(s.decoded, DecodeLetters(data[..n]), Decodable(data[n..] + Content(rest)));
      if |TextOf(s)| < 4 {
        FewLetters(data, s.decoded);
      }
    }
  }

  lemma FewLetters(data: string, decoded: Bytes)
    requires |data| < 4
    ensures |data| / 4 * 4 == 0 && data[..0] == "" && data[0..] == data
    ensures AllLetters("") && DecodeLetters("") == [] && decoded + [] == decoded
  {
  }

  function Store(events: seq<Event<char>>): nat {
    |Content(events)| + |events|
  }

  lemma FilledShrinks(s: Reading, size: int)
    ensures var (newdata, t) := Filled(s, size); t.Some? && newdata != Some("") ==> Store(t.value.events) < Store(s.events)
  {
    if size != 0 && s.events != [] && s.events[0].Chunk? {
      var data, tail := s.events[0].data, s.events[1..];
      if size > 0 && |data| > size {
        assert Content([Chunk(data[size..])] + tail) == data[size..] + Content(tail);
      }
    }
  }

  /** Reads until the request can be answered or nothing more comes; last is what was read last. */
  function Waited(s: Reading, last: Option<string>, size: int, chars: int): (Option<string>, Option<Reading>)
    decreases Store(s.events)
  {
    if Satisfied(s.decoded, size, chars) then (last, Some(s))
    else
      var (newdata, t) := Filled(s, size);
      if t.None? || newdata == Some("") then (newdata, t)
      else
        FilledShrinks(s, size);
        Waited(t.value, newdata, size, chars)
  }

  /** The answer, and the state after it; when there is none and nothing came, the decoder is flushed. */
  function Delivered(s: Reading, chars: int, nothingRead: bool): (Result<Bytes, DecodeError>, Reading) {
    var result := if chars < 0 then s.decoded else Take(s.decoded, chars);
    var t := s.(decoded := if chars < 0 then [] else Skip(s.decoded, chars));
    if result != [] || !nothingRead || chars == 0 then (Ok(result), t)
    else if t.held == "" then (Ok([]), t)
    else match Decode(t.held)
         case Err(e) => (Err(e), t)
         case Ok(bytes) => (Ok(bytes), t.(held := ""))
  }

  /** One read: its answer, and the state after it unless decoding what was read failed. */
  function ReadOnce(s: Reading, size: int, chars: int): (Result<Bytes, DecodeError>, Option<Reading>) {
    match Waited(s, Some(""), size, chars)
    case (_, None) => (Err(Base64DecodingError), None)
    case (newdata, Some(t)) =>
      var (r, u) := Delivered(t, chars, newdata == Some(""));
      (r, Some(u))
  }

  class StreamReader {
    const stream: Source<char>
    var decoderBuffer: string    // letters read but not yet decoded, fewer than four
    var charBuffer: Bytes        // bytes decoded but not yet returned

    constructor (source: Source<char>)
      requires source.Valid()
      ensures Valid() && stream == source
      ensures Text() == source.Rest() && charBuffer == []
    {
      stream := source;
      decoderBuffer := "";
      charBuffer := [];
      new;
      assert "" + source.Rest() == source.Rest();
    }

    ghost predicate Valid()
      reads this, stream
    {
      stream.Valid() && |decoderBuffer| < 4
    }

    ghost function View(): Reading
      reads this, stream
    {
      Reading(stream.events, decoderBuffer, charBuffer)
    }

    /** The text that is still to be decoded. */
    ghost function Text(): string
      reads this, stream
    {
      decoderBuffer + stream.Rest()
    }

    /** The bytes that are still to be returned. */
    ghost function Pending(): Bytes
      reads this, stream
      requires AllLetters(Text())
    {
      charBuffer + Decodable(Text())
    }

    ghost function Measure(): nat
      reads this, stream
    {
      |charBuffer| + |decoderBuffer| + stream.Measure()
    }

    /** Decodes the longest prefix of whole groups and buffers the rest. */
    method DecodeChunk(input: string) returns (r: Result<Bytes, DecodeError>)
      requires |decoderBuffer| < 4
      modifies `decoderBuffer
      ensures |decoderBuffer| < 4
      ensures r.Ok? ==> |r.value| + |decoderBuffer| <= old(|decoderBuffer|) + |input|
      ensures r.Ok? ==> |r.value| <= 3 * ((old(|decoderBuffer|) + |input|) / 4)
      ensures var data := old(decoderBuffer) + input;
              var n := |data| / 4 * 4;
              r == Decode(data[..n]) && decoderBuffer == if r.Ok? then data[n..] else old(decoderBuffer)
      ensures var data := old(decoderBuffer) + input;
              AllLetters(data) ==>
                && r == Ok(DecodeLetters(data[..|data| / 4 * 4]))
                && decoderBuffer == data[|data| / 4 * 4..]
    {
      var data := decoderBuffer + input;
      var lenToRead := 4 * (|data| / 4);
      r := Decode(data[..lenToRead]);
      if r.Err? {
        NotLetters(data, lenToRead);
        return;
      }
      DecodeShrinks(data[..lenToRead]);
      if AllLetters(data) {
        DecodeOfLetters(data[..lenToRead]);
      }
      decoderBuffer := data[lenToRead..];
    }

    /** Decodes what the decoder still holds, the last incomplete group of the text. */
    method FlushDecoder() returns (r: Result<Bytes, DecodeError>)
      requires |decoderBuffer| < 4
      modifies `decoderBuffer
      ensures |decoderBuffer| < 4
      ensures r.Ok? ==> decoderBuffer == "" && |r.value| <= Min(2, old(|decoderBuffer|))
      ensures r.Err? ==> decoderBuffer == old(decoderBuffer)
      ensures r == if old(decoderBuffer) == "" then Ok([]) else Decode(old(decoderBuffer))
      ensures AllLetters(old(decoderBuffer)) ==>
                r == if Dangling(old(decoderBuffer)) then Err(Base64DecodingError)
                     else Ok(DecodeLetters(old(decoderBuffer)))
    {
      r := Ok([]);
      if decoderBuffer != "" {
        r := Decode(decoderBuffer);
        if r.Err? {
          if AllLetters(decoderBuffer) {
            DecodeOfLetters(decoderBuffer);
          }
          return;
        }
        DecodeShrinks(decoderBuffer);
        if AllLetters(decoderBuffer) {
          DecodeOfLetters(decoderBuffer);
        }
        decoderBuffer := "";
      }
    }

    /** One more read of the source, decoded; None tells that nothing was available. */
    method Fill(size: int) returns (newdata: Option<string>, failed: bool)
      requires Valid()
      modifies this, stream
      ensures Valid()
      ensures (newdata, if failed then None else Some(View())) == Filled(old(View()), size)
      ensures !failed ==> old(charBuffer) <= charBuffer
      ensures !failed ==> |charBuffer| + |decoderBuffer| + stream.Measure() <= old(Measure())
      ensures newdata != Some("") ==> stream.Measure() < old(stream.Measure())
      ensures !failed && size > 0 ==> |charBuffer| <= old(|charBuffer|) + 3 * ((size + 3) / 4)
      ensures newdata == Some("") && size != 0 ==> stream.Rest() == ""
      ensures newdata == Some("") ==> failed || charBuffer == old(charBuffer)
      ensures newdata.None? ==> charBuffer == old(charBuffer)
    {
      hide DecodeLetters, IsLetter, AllLetters, Decode, ReadEvents;
      failed := false;
      newdata := stream.Read(size);
      if newdata.Some? {
        var decoded := DecodeChunk(newdata.value);
        if decoded.Err? {
          failed := true;
          return;
        }
        charBuffer := charBuffer + decoded.value;
      }
    }

    /** Reads until the request can be answered or the source is exhausted, even past moments without data. */
    method Wait(size: int, chars: int) returns (newdata: Option<string>, failed: bool)
      requires Valid()
      modifies this, stream
      ensures Valid()
      ensures !failed ==> Measure() <= old(Measure())
      ensures !failed ==> Satisfied(charBuffer, size, chars) || newdata == Some("")
      ensures Satisfied(old(charBuffer), size, chars) ==>
                !failed && newdata == Some("") && unchanged(this) && unchanged(stream)
      ensures !failed && size != 0 && !Satisfied(charBuffer, size, chars) ==> stream.Rest() == ""
      ensures !failed && size > 0 && chars < 0 ==>
                |charBuffer| <= Max(old(|charBuffer|), size - 1 + 3 * ((size + 3) / 4))
      ensures !failed ==> old(charBuffer) <= charBuffer
      ensures AllLetters(old(Text())) ==>
                !failed && AllLetters(Text()) && Pending() == old(Pending())
                && (Dangling(Text()) <==> old(Dangling(Text())))
      ensures AllLetters(old(Text())) && |old(Text())| < 4 ==> Text() == old(Text()) && charBuffer == old(charBuffer)
      ensures (newdata, if failed then None else Some(View())) == Waited(old(View()), Some(""), size, chars)
    {
      hide Decodable, IsLetter, AllLetters, Dangling, Filled;
      newdata, failed := Some(""), false;
      while !Satisfied(charBuffer, size, chars)
        invariant Valid() && !failed && Measure() <= old(Measure()) && old(charBuffer) <= charBuffer
        invariant Satisfied(old(charBuffer), size, chars) ==> newdata == Some("") && unchanged(this) && unchanged(stream)
        invariant size > 0 && chars < 0 ==> |charBuffer| <= Max(old(|charBuffer|), size - 1 + 3 * ((size + 3) / 4))
        invariant AllLetters(old(Text())) ==>
                    AllLetters(Text()) && Pending() == old(Pending())
                    && (Dangling(Text()) <==> old(Dangling(Text())))
        invariant AllLetters(old(Text())) && |old(Text())| < 4 ==> Text() == old(Text()) && charBuffer == old(charBuffer)
        invariant Waited(old(View()), Some(""), size, chars) == Waited(View(), newdata, size, chars)
        decreases stream.Measure()
      {
        ghost var s := View();
        if AllLetters(old(Text())) {
          FilledLetters(s, size);
        }
        newdata, failed := Fill(size);
        if failed || newdata == Some("") {
          return;
        }
      }
    }

    /** Hands out decoded bytes, or flushes the decoder when there are none left and no data came. */
    method Deliver(chars: int, nothingRead: bool) returns (r: Result<Bytes, DecodeError>)
      requires Valid()
      modifies this
      ensures Valid() && (r, View()) == Delivered(old(View()), chars, nothingRead)
    {
      var result := if chars < 0 then charBuffer else Take(charBuffer, chars);
      charBuffer := if chars < 0 then [] else Skip(charBuffer, chars);
      if result == [] && nothingRead && chars != 0 {
        r := FlushDecoder();
      } else {
        r := Ok(result);
      }
    }

    /**
     One read. Its answer is never None: the loop waits for data even when the source has none.
     For letters and a nonzero size the answers are the decoded bytes in order, and a request
     for a nonzero number of bytes is answered by the empty string only at the end of the text.
     For any text and any size, zero included, the answer is that of the function.
     */
    method Read(size: int, chars: int) returns (r: Result<Bytes, DecodeError>)
      requires Valid()
      modifies this, stream
      ensures Valid()
      ensures var (answer, after) := ReadOnce(old(View()), size, chars);
              r == answer && (after.Some? ==> View() == after.value)
      ensures r.Ok? ==> |r.value| + Measure() <= old(Measure())
      ensures r.Ok? && chars >= 0 ==> |r.value| <= if chars == 1 then 2 else chars
      // More bytes than asked for come exactly when one is asked for and the last three letters are all that is left.
      ensures size != 0 && AllLetters(old(Text())) && r.Ok? && chars >= 0 ==>
                (|r.value| > chars <==> chars == 1 && old(charBuffer) == [] && |old(Text())| == 3)
      ensures r.Ok? && size > 0 && chars < 0 ==>
                |r.value| <= Max(old(|charBuffer|), 2 * size + 1) && charBuffer == []
      ensures size != 0 && AllLetters(old(Text())) ==>
                && AllLetters(Text())
                && (Dangling(Text()) <==> old(Dangling(Text())))
                && (r.Err? ==> chars != 0 && old(Dangling(Text())) && old(Pending()) == [])
                && (r.Ok? ==> old(Pending()) == r.value + Pending())
                && (r == Ok([]) && chars != 0 ==> Pending() == [] && !Dangling(Text()))
    {
      hide Decodable, IsLetter, AllLetters, Dangling, Waited, Delivered, DecodeLetters;
      var newdata, failed := Wait(size, chars);
      if failed {
        return Err(Base64DecodingError);
      }
      var nothingRead := newdata == Some("");
      ghost var s, rest := View(), stream.Rest();
      DeliveredBounds(s, chars, nothingRead);
      if AllLetters(old(Text())) {
        OnlyLetters(decoderBuffer, rest);
        if chars >= 0 {
          DeliveredMore(s, chars, nothingRead);
        }
        if chars == 0 || charBuffer != [] || (nothingRead && rest == "") {
          DeliveredPending(s, rest, chars, nothingRead);
        }
        if rest == "" && charBuffer == [] {
          assert Text() == decoderBuffer;
          assert [] + Decodable(decoderBuffer) == Decodable(decoderBuffer);
          ThreeLetters(old(Text()), decoderBuffer, old(charBuffer));
        }
      }
      r := Deliver(chars, nothingRead);
    }
  }

  /** No more is handed out than is held, and no more than asked for but once. */
  lemma DeliveredBounds(s: Reading, chars: int, nothingRead: bool)
    requires |s.held| < 4
    ensures var (r, t) := Delivered(s, chars, nothingRead);
            && t.events == s.events
            && (r.Ok? ==> |r.value| + |t.decoded| + |t.held| <= |s.decoded| + |s.held|)
            && (r.Ok? && chars >= 0 ==> |r.value| <= if chars == 1 then 2 else chars)
            && (r.Ok? && chars < 0 ==> |r.value| <= Max(|s.decoded|, 2) && t.decoded == [])
  {
    if Decode(s.held).Ok? {
      DecodeShrinks(s.held);
    }
  }

  lemma DeliveredMore(s: Reading, chars: int, nothingRead: bool)
    requires |s.held| < 4 && AllLetters(s.held) && chars >= 0
    ensures var (r, t) := Delivered(s, chars, nothingRead);
            r.Ok? ==> (|r.value| > chars <==> chars == 1 && nothingRead && s.decoded == [] && |s.held| == 3)
  {
    DecodeOfLetters(s.held);
    if !Dangling(s.held) {
      LastGroupLength(s.held);
    }
    hide DecodeLetters, Decode;
  }

  /** Unless the decoder is flushed in the middle of a text, what is handed out and what stays make up what there was. */
  lemma DeliveredPending(s: Reading, rest: string, chars: int, nothingRead: bool)
    requires |s.held| < 4 && AllLetters(s.held + rest)
    requires chars == 0 || s.decoded != [] || (nothingRead && rest == "")
    ensures var (r, t) := Delivered(s, chars, nothingRead);
            && AllLetters(t.held + rest)
            && (Dangling(t.held + rest) <==> Dangling(s.held + rest))
            && (r.Err? ==> chars != 0 && Dangling(s.held + rest) && s.decoded + Decodable(s.held + rest) == [])
            && (r.Ok? ==> s.decoded + Decodable(s.held + rest) == r.value + (t.decoded + Decodable(t.held + rest)))
            && (r == Ok([]) && chars != 0 ==> t.decoded + Decodable(t.held + rest) == [] && !Dangling(t.held + rest))
  {
    hide DecodeLetters, Decodable, IsLetter, Decode, Dangling;
    var result := if chars < 0 then s.decoded else Take(s.decoded, chars);
    if result == [] && nothingRead && chars != 0 {
      assert s.held + rest == s.held;
      LastGroup(s.held);
      LastGroup("");
      DecodeOfLetters(s.held);
      assert "" + rest == "";
    } else {
      var kept := if chars < 0 then [] else Skip(s.decoded, chars);
      assert s.decoded == result + kept;
      Associates(result, kept, Decodable(s.held + rest));
    }
  }

  lemma OnlyLetters(a: string, b: string)
    requires AllLetters(a + b)
    ensures AllLetters(a)
  {
    assert forall c :: c in a ==> c in a + b;
  }

  /** The last letters stand for one byte less than their number. */
  lemma LastGroupLength(text: string)
    requires |text| < 4 && AllLetters(text) && !Dangling(text)
    ensures |text| % 4 != 1 && |DecodeLetters(text)| == Max(0, |text| - 1)
  {
    DecodeLength(text);
  }

  /** Three letters at the end, with nothing decoded before them, are the whole text that was left. */
  lemma ThreeLetters(text: string, last: string, decoded: Bytes)
    requires AllLetters(text) && AllLetters(last) && |last| < 4 && (Dangling(text) <==> Dangling(last))
    requires decoded == [] && Decodable(last) == decoded + Decodable(text)
    ensures |text| == 3 <==> |last| == 3
  {
    DecodeLength(Whole(text));
    DecodeLength(Whole(last));
    assert [] + Decodable(text) == Decodable(text);
  }

  /** What is left of the text when the source is exhausted and fewer than four letters are buffered. */
  lemma LastGroup(text: string)
    requires |text| < 4 && AllLetters(text)
    ensures Dangling(text) <==> |text| == 1
    ensures Decodable(text) == if Dangling(text) then [] else DecodeLetters(text)
    ensures Decodable("") == []
  {
    if |text| == 1 {
      assert Whole(text) == "";
    }
  }

  lemma NotLetters(data: string, n: nat)
    requires n <= |data| && n % 4 == 0 && Decode(data[..n]).Err?
    ensures !AllLetters(data)
  {
    if AllLetters(data) {
      assert AllLetters(data[..n]);
      DecodeOfLetters(data[..n]);
    }
  }

  lemma {:induction false} StripShrinks(t: string)
    ensures |StripWhitespace(t)| <= |t|
  {
    if t != "" {
      StripShrinks(t[1..]);
    }
  }

  lemma DecodeShrinks(t: string)
    requires Decode(t).Ok?
    ensures |Decode(t).value| <= |t| / 4 * 3 + (if |t| % 4 == 0 then 0 else |t| % 4 - 1)
  {
    StripShrinks(t);
    DecodeLength(StripWhitespace(t));
  }

  lemma AllPending(text: string)
    requires AllLetters(text)
    ensures Decode(text) == if Dangling(text) then Err(Base64DecodingError) else Ok(Decodable(text))
  {
    DecodeOfLetters(text);
  }

  lemma FlattenNothing(answers: seq<Bytes>, rest: Bytes)
    requires answers == []
    ensures Flatten(answers) + rest == rest && rest + [] == rest
  {
  }

  /** A run in which one byte is asked for and two are returned. */
  method TwoBytesForOne() returns (r: Result<Bytes, DecodeError>)
    ensures r == Ok([0, 0])
  {
    assert AllLetters("AAA") && !Dangling("AAA") && "AAA" + "A" == "AAAA";
    assert DecodeLetters("AAA") == DecodeGroup("AAAA")[..2] == [0, 0];
    var source := new Source([Chunk("AAA")]);
    var reader := new StreamReader(source);
    assert Content([Chunk("AAA")]) == "AAA" + Content([]);
    assert reader.Text() == "AAA";
    ghost var all := reader.Pending();
    assert all == [] + DecodeLetters("AAA") == [0, 0];
    hide DecodeLetters, Decodable, AllLetters, Dangling;
    r := reader.Read(1, 1);
    assert r.Ok? && |r.value| == 2;
    assert all == r.value + reader.Pending();
    assert r.value == all[..2] && all[..2] == all;
  }

  // ---------------------------------------------------------------- texts and sizes for which reading goes wrong

  /** What a read answers at once when one chunk is more than enough. */
  lemma OneChunkFills(s: Reading, size: int, chars: int)
    requires s.events != [] && s.events[0].Chunk? && s.events[0].data != "" && size != 0
    requires !Satisfied(s.decoded, size, chars)
    requires var t := Filled(s, size).1; t.Some? && Satisfied(t.value.decoded, size, chars)
    ensures ReadOnce(s, size, chars).0 == Delivered(Filled(s, size).1.value, chars, false).0
    ensures ReadOnce(s, size, chars).1 == Some(Delivered(Filled(s, size).1.value, chars, false).1)
  {
    hide Filled, Delivered, Satisfied;
    var (newdata, t) := Filled(s, size);
    assert newdata.Some? && newdata.value != "" by { FirstChunkComes(s, size); }
    assert Waited(t.value, newdata, size, chars) == (newdata, Some(t.value));
  }

  lemma FirstChunkComes(s: Reading, size: int)
    requires s.events != [] && s.events[0].Chunk? && s.events[0].data != "" && size != 0
    ensures Filled(s, size).0.Some? && Filled(s, size).0.value != ""
  {
  }

  /** A read of no characters, or of a source that is used up, changes nothing. */
  lemma NothingFills(s: Reading, size: int)
    requires |s.held| < 4 && (size == 0 || s.events == [])
    ensures Filled(s, size) == (Some(""), Some(s))
  {
    assert Decode("") == Ok([]);
    assert s.held + "" == s.held && s.held[..0] == "" && s.held[0..] == s.held;
    assert s.decoded + [] == s.decoded;
    assert |s.held| / 4 * 4 == 0;
    hide Decode;
  }

  /** A read of size zero with nothing decoded flushes the decoder, wherever in the text that is. */
  lemma ZeroFlushes(s: Reading, size: int, chars: int)
    requires |s.held| < 4 && s.decoded == [] && chars != 0 && (size == 0 || s.events == [])
    ensures ReadOnce(s, size, chars).0 == if s.held == "" then Ok([]) else Decode(s.held)
  {
    NothingFills(s, size);
    hide Filled, Decode;
    assert Waited(s, Some(""), size, chars) == (Some(""), Some(s));
  }

  lemma LettersA()
    ensures IsLetter('A') && AllLetters("AAAAAAAA") && AllLetters("AAAA") && AllLetters("A")
  {
  }

  lemma DecodedA()
    ensures DecodeLetters("AAAA") == [0, 0, 0]
  {
    assert "AAAA"[..4] == "AAAA" && "AAAA"[4..] == "";
    assert DecodeLetters("AAAA") == DecodeGroup("AAAA") + DecodeLetters("");
    assert DecodeGroup("AAAA") == [0, 0, 0];
  }

  lemma EightLetters()
    ensures Decode("AAAAAAAA").Ok? && Decode("AAAA") == Ok([0, 0, 0]) && Decode("A") == Err(Base64DecodingError)
  {
    LettersA();
    DecodedA();
    hide Decode, DecodeLetters, IsLetter, AllLetters;
    DecodeOfLetters("AAAAAAAA");
    DecodeOfLetters("AAAA");
    DecodeOfLetters("A");
  }

  /** A run in which a read of size zero fails in the middle of a text that can be decoded. */
  method SizeZeroFails() returns (first: Result<Bytes, DecodeError>, second: Result<Bytes, DecodeError>)
    ensures Decode("AAAAAAAA").Ok? && first == Ok([0, 0, 0]) && second == Err(Base64DecodingError)
  {
    EightLetters();
    hide Decode, AllLetters, DecodeLetters, Waited;
    var source := new Source([Chunk("AAAAAAAA")]);
    var reader := new StreamReader(source);
    ghost var s := reader.View();
    assert "" + "AAAAAAAA"[..5] == "AAAAA" && "AAAAA"[..4] == "AAAA" && "AAAAA"[4..] == "A";
    ghost var t := Filled(s, 5).1.value;
    assert t.decoded == [0, 0, 0] && t.held == "A";
    OneChunkFills(s, 5, 3);
    first := reader.Read(5, 3);
    assert first.value == [0, 0, 0] && reader.View().decoded == [] && reader.View().held == "A";
    ZeroFlushes(reader.View(), 0, -1);
    second := reader.Read(0, -1);
  }

  /** A run in which a read fails because of a space that decoding the text as a whole strips. */
  method SpaceFails() returns (first: Result<Bytes, DecodeError>, second: Result<Bytes, DecodeError>)
    ensures Decode("AA AA").Ok? && first == Decode("AA A") && first.Ok? && second == Err(Base64DecodingError)
  {
    SpacesBreakChunking();
    EightLetters();
    hide Decode, AllLetters, DecodeLetters, Waited;
    var source := new Source([Chunk("AA AA")]);
    var reader := new StreamReader(source);
    ghost var s := reader.View();
    assert "" + "AA AA" == "AA AA" && "AA AA"[..4] == "AA A" && "AA AA"[4..] == "A";
    ghost var t := Filled(s, -1).1.value;
    assert t.decoded == Decode("AA A").value && t.held == "A" && t.events == [];
    OneChunkFills(s, -1, -1);
    first := reader.Read(-1, -1);
    assert reader.View() == Reading([], "A", []);
    ZeroFlushes(reader.View(), -1, -1);
    second := reader.Read(-1, -1);
  }

  /**
   Reads until the first empty answer. However the source cuts up the text and whatever the two sizes asked
   for, the answers are the one-shot decoding, and a text that cannot be decoded is reported.
   */
  method ReadAll(schedule: seq<Event<char>>, sizes: nat -> int, chars: nat -> int)
    returns (r: Result<seq<Bytes>, DecodeError>)
    requires forall e :: e in schedule && e.Chunk? ==> e.data != []
    requires AllLetters(Content(schedule))
    requires forall i :: sizes(i) != 0 && chars(i) != 0
    ensures match Decode(Content(schedule))
            case Ok(bytes) => r.Ok? && Flatten(r.value) == bytes
            case Err(e) => r == Err(e)
  {
    hide DecodeLetters, IsLetter, AllLetters, Content, Flatten;
    ghost var text := Content(schedule);
    AllPending(text);
    var source := new Source(schedule);
    var reader := new StreamReader(source);
    ghost var all := reader.Pending();
    assert all == Decodable(text);
    var i, answers := 0, [];
    FlattenNothing(answers, all);
    while true
      invariant reader.Valid() && fresh(reader) && fresh(reader.stream)
      invariant AllLetters(reader.Text())
      invariant Dangling(reader.Text()) <==> Dangling(text)
      invariant all == Flatten(answers) + reader.Pending()
      decreases reader.Measure()
    {
      var answer := reader.Read(sizes(i), chars(i));
      if answer.Err? {
        return Err(Base64DecodingError);
      }
      if answer.value == [] {
        return Ok(answers);
      }
      FlattenThen(answers, answer.value, reader.Pending());
      answers := answers + [answer.value];
      i := i + 1;
    }
  }
}
