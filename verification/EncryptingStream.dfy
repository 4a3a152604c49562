/** The encrypting stream writer, over a plain byte sink or over the Base64 writer. */
module EncryptingStream {
  import opened Prelude
  import opened Streams
  import opened Aes
  import Base64
  import Base64Stream

  /** Where encrypted bytes go. */
  datatype OutputStream = Raw(sink: Sink<Byte>) | Encoded(writer: Base64Stream.StreamWriter) {

    ghost function Objects(): set<object> {
      match this
      case Raw(sink) => {sink}
      case Encoded(writer) => {writer, writer.stream}
    }

    ghost predicate Valid()
      reads Objects()
    {
      Encoded? ==> writer.Valid()
    }

    /** The bytes accepted so far, counted for a Base64 writer from its last flush. */
    ghost function Received(): Bytes
      reads Objects()
    {
      match this
      case Raw(sink) => sink.Written()
      case Encoded(writer) => writer.given
    }

    method Write(data: Bytes)
      requires Valid()
      modifies Objects()
      ensures Valid()
      ensures Received() == old(Received()) + data
      ensures Encoded? ==> writer.emitted == old(writer.emitted)
    {
      match this
      case Raw(sink) => sink.Write(data);
      case Encoded(writer) => writer.Write(data);
    }

    method Flush()
      requires Valid()
      modifies Objects()
      ensures Valid()
      ensures Raw? ==> sink.writes == old(sink.writes) && sink.flushes == old(sink.flushes) + 1
      ensures Encoded? ==> writer.stream.Written() == old(writer.emitted) + Base64.Encode(old(writer.given))
    {
      match this
      case Raw(sink) => sink.Flush();
      case Encoded(writer) => writer.Flush();
    }
  }

  class EncryptingStreamWriter {
    const key: AesKey
    const iv: Block
    const output: OutputStream
    var data: Bytes               // accepted but not yet encrypted
    var chain: Block              // state of the cipher
    var signed: Bytes             // what the signature has been fed
    var closed: bool
    ghost var prefix: Bytes       // what the output had received before this stream
    ghost var plain: Bytes        // everything encrypted so far
    ghost var flushed: bool

    constructor (key: AesKey, output: OutputStream, iv: Block)
      requires output.Valid()
      modifies output.Objects()
      ensures this.key == key && this.iv == iv && this.output == output
      ensures Valid() && !closed && !flushed && Accepted() == []
      ensures prefix == old(output.Received())
      ensures output.Received() == prefix + (key.Header() + iv)
      ensures output.Encoded? ==> output.writer.emitted == old(output.writer.emitted)
    {
      this.key, this.iv, this.output := key, iv, output;
      data, chain, signed := [], iv, key.Header() + iv;
      closed, flushed := false, false;
      prefix, plain := output.Received(), [];
      new;
      output.Write(key.Header() + iv);
      assert key.Header() + iv + [] == key.Header() + iv;
    }

    /** Every byte given to write so far. */
    ghost function Accepted(): Bytes
      reads this
    {
      plain + data
    }

    ghost predicate Valid()
      reads this, output.Objects()
    {
      && output.Valid()
      && Aligned(plain)
      && |data| < BLOCK_SIZE
      && (!flushed ==> signed == key.Header() + iv + CbcEncrypt(key, iv, plain))
      && (!flushed ==> chain == NextChain(iv, CbcEncrypt(key, iv, plain)))
      && (!flushed ==> output.Received() == prefix + signed)
    }

    /** Encrypts whole blocks and keeps cipher, signature and output in step. */
    method WriteEncrypted(blocks: Bytes)
      requires Valid() && Aligned(blocks)
      modifies this, output.Objects()
      ensures Valid() && flushed == old(flushed) && closed == old(closed) && prefix == old(prefix)
      ensures data == old(data)
      ensures !flushed ==> plain == old(plain) + blocks
      ensures output.Received() == old(output.Received()) + CbcEncrypt(key, old(chain), blocks)
      ensures signed == old(signed) + CbcEncrypt(key, old(chain), blocks)
      ensures output.Encoded? ==> output.writer.emitted == old(output.writer.emitted)
    {
      hide CbcEncrypt, NextChain, Base64Stream.Encoded, Base64.Encode, Flatten;
      var encrypted := CbcEncrypt(key, chain, blocks);
      if !flushed {
        CbcEncryptAppend(key, iv, plain, blocks);
        NextChainAppend(iv, CbcEncrypt(key, iv, plain), encrypted);
        plain := plain + blocks;
      }
      output.Write(encrypted);
      chain := NextChain(chain, encrypted);
      signed := signed + encrypted;
    }

    /** Adds to the buffered data, then encrypts as many of its blocks as need no padding. */
    method Buffer(more: Bytes)
      requires Valid()
      modifies this, output.Objects()
      ensures Valid() && flushed == old(flushed) && closed == old(closed) && prefix == old(prefix)
      ensures !flushed ==> Accepted() == old(Accepted()) + more
      ensures |output.Received()| + |data| == old(|output.Received()| + |data|) + |more|
      ensures output.Encoded? ==> output.writer.emitted == old(output.writer.emitted)
    {
      hide CbcEncrypt, NextChain, Base64Stream.Encoded, Base64.Encode, Flatten, NoPadBufferSize, Repeat;
      var all := data + more;
      var size := NoPadBufferSize(|all|);
      if |all| >= size {
        MoveFront(plain, data, more, size);
        WriteEncrypted(all[..size]);
      } else {
        MoveFront(plain, data, more, 0);
        assert all[..0] == [] && plain + [] == plain;
        size := 0;
      }
      data := all[size..];
    }

    /** Fewer than one block of the accepted data stays buffered; the rest goes to the output. */
    method Write(more: Bytes) returns (r: Result<(), CryptError>)
      requires Valid()
      modifies this, output.Objects()
      ensures Valid() && flushed == old(flushed) && closed == old(closed) && prefix == old(prefix)
      ensures closed ==> r == Err(ClosedStream) && unchanged(this) && output.Received() == old(output.Received())
      ensures !closed ==> r == Ok(())
      ensures |data| < BLOCK_SIZE
      ensures !closed && !flushed ==> Accepted() == old(Accepted()) + more
      ensures !closed ==> |output.Received()| + |data| == old(|output.Received()| + |data|) + |more|
      ensures output.Encoded? ==> output.writer.emitted == old(output.writer.emitted)
    {
      if closed {
        return Err(ClosedStream);
      }
      hide CbcEncrypt, NextChain, Base64Stream.Encoded, Base64.Encode, Flatten;
      Buffer(more);
      r := Ok(());
    }

    /** Pads and encrypts the buffered data and writes the signature; the buffer is left as it is. */
    method Seal()
      requires Valid()
      modifies this, output.Objects()
      ensures Valid() && flushed && closed == old(closed) && prefix == old(prefix)
      ensures data == old(data)
      ensures !old(flushed) ==> output.Received() == prefix + Encrypt(key, iv, old(Accepted()))
      ensures |output.Received()| == |old(output.Received())| + |Pad(data)| + HLEN
      ensures output.Encoded? ==> output.writer.emitted == old(output.writer.emitted)
    {
      hide CbcEncrypt, NextChain, Base64Stream.Encoded, Base64.Encode, Flatten, Pad;
      if !flushed {
        PadAppend(plain, data);
      }
      WriteEncrypted(Pad(data));
      var signature := key.mac(signed);
      output.Write(signature);
      assert !flushed ==> output.Received() == prefix + (signed + signature);
      flushed := true;
    }

    /** After writes and one flush the output has received the one-shot encryption of everything written. */
    method Flush() returns (r: Result<(), CryptError>)
      requires Valid()
      modifies this, output.Objects()
      ensures Valid() && closed == old(closed) && prefix == old(prefix)
      ensures closed ==> r == Err(ClosedStream) && unchanged(this) && output.Received() == old(output.Received())
      ensures !closed ==> r == Ok(()) && flushed && data == old(data)
      ensures !closed && !old(flushed) && output.Raw? ==>
                output.Received() == prefix + Encrypt(key, iv, old(Accepted()))
      ensures !closed && !old(flushed) && output.Encoded? ==>
                output.writer.stream.Written()
                == old(output.writer.emitted) + Base64.Encode(prefix + Encrypt(key, iv, old(Accepted())))
      ensures !closed && output.Raw? ==>
                |output.Received()| == |old(output.Received())| + |Pad(data)| + HLEN
    {
      if closed {
        return Err(ClosedStream);
      }
      hide Encrypt, CbcEncrypt, NextChain, Base64Stream.Encoded, Base64.Encode, Flatten;
      Seal();
      output.Flush();
      r := Ok(());
    }

    method Close() returns (r: Result<(), CryptError>)
      requires Valid()
      modifies this
      ensures Valid() && closed && flushed == old(flushed)
      ensures r == if old(closed) then Err(ClosedStream) else Ok(())
      ensures unchanged(`data) && unchanged(`signed)
    {
      if closed {
        return Err(ClosedStream);
      }
      closed := true;
      r := Ok(());
    }
  }

  lemma WritesMessage(key: AesKey, iv: Block, data: Bytes)
    ensures key.Valid() ==> IsMessage(key, iv, data, Encrypt(key, iv, data))
  {
    hide Encrypt, IsMessage, AesKey.Valid;
    if key.Valid() {
      EncryptionIsMessage(key, iv, data);
    }
  }

  /** However the data is cut into writes, the bytes written are the one-shot encryption of the whole. */
  method EncryptStream(key: AesKey, iv: Block, chunks: seq<Bytes>) returns (ciphertext: Sink<Byte>)
    ensures fresh(ciphertext) && ciphertext.Written() == Encrypt(key, iv, Flatten(chunks))
    ensures key.Valid() ==> IsMessage(key, iv, Flatten(chunks), ciphertext.Written())
  {
    hide Encrypt, CbcEncrypt, NextChain, IsMessage, AesKey.Valid;
    WritesMessage(key, iv, Flatten(chunks));
    ciphertext := new Sink<Byte>();
    var writer := new EncryptingStreamWriter(key, Raw(ciphertext), iv);
    var i := 0;
    while i < |chunks|
      invariant 0 <= i <= |chunks|
      invariant writer.Valid() && !writer.closed && !writer.flushed && fresh(writer) && fresh(ciphertext)
      invariant writer.output == Raw(ciphertext) && writer.key == key && writer.iv == iv
      invariant writer.prefix == [] && writer.Accepted() == Flatten(chunks[..i])
    {
      FlattenSnoc(chunks[..i], chunks[i]);
      assert chunks[..i + 1] == chunks[..i] + [chunks[i]];
      var _ := writer.Write(chunks[i]);
      i := i + 1;
    }
    assert chunks[..|chunks|] == chunks;
    var _ := writer.Flush();
    var _ := writer.Close();
  }

  // ---------------------------------------------------------------- more than one flush

  datatype StreamOp = DoWrite(data: Bytes) | DoFlush

  /** Everything that is written along a run. */
  function Given(ops: seq<StreamOp>): Bytes {
    if ops == [] then []
    else Given(ops[..|ops| - 1]) + if ops[|ops| - 1].DoWrite? then ops[|ops| - 1].data else []
  }

  function Flushes(ops: seq<StreamOp>): nat {
    if ops == [] then 0 else Flushes(ops[..|ops| - 1]) + if ops[|ops| - 1].DoFlush? then 1 else 0
  }

  lemma EncryptLength(key: AesKey, iv: Block, data: Bytes)
    ensures |Encrypt(key, iv, data)| == HEADER_SIZE + BLOCK_SIZE + |Pad(data)| + HLEN
  {
    hide CbcEncrypt, Pad;
    key.HeaderIsVersionAndHash();
  }

  /** Without a flush all is there but the padding and the signature; every flush adds one of each at least. */
  predicate Sized(received: nat, given: nat, flushes: nat) {
    && (flushes == 0 ==> received == HEADER_SIZE + BLOCK_SIZE + given)
    && received >= HEADER_SIZE + BLOCK_SIZE + given + (HLEN + BLOCK_SIZE) * flushes
  }

  /** The writer after a run. */
  ghost predicate After(writer: EncryptingStreamWriter, ops: seq<StreamOp>)
    reads writer, writer.output.Objects()
  {
    && writer.Valid() && !writer.closed && writer.prefix == []
    && (writer.flushed <==> Flushes(ops) > 0)
    && (!writer.flushed ==> writer.Accepted() == Given(ops))
    && Sized(|writer.output.Received()| + |writer.data|, |Given(ops)|, Flushes(ops))
  }

  lemma RunSnoc(ops: seq<StreamOp>, op: StreamOp)
    ensures Given(ops + [op]) == Given(ops) + if op.DoWrite? then op.data else []
    ensures Flushes(ops + [op]) == Flushes(ops) + if op.DoFlush? then 1 else 0
  {
    assert (ops + [op])[..|ops|] == ops;
  }

  method PerformWrite(writer: EncryptingStreamWriter, ghost before: seq<StreamOp>, data: Bytes)
    requires After(writer, before)
    modifies writer, writer.output.Objects()
    ensures After(writer, before + [DoWrite(data)])
  {
    hide Encrypt, CbcEncrypt, NextChain, Flatten, Given, Flushes, EncryptingStreamWriter.Valid, OutputStream.Received,
         OutputStream.Objects, Base64.Encode, Base64Stream.Encoded;
    RunSnoc(before, DoWrite(data));
    var _ := writer.Write(data);
  }

  /** The first flush makes the output the one-shot encryption. */
  method PerformFlush(writer: EncryptingStreamWriter, ghost before: seq<StreamOp>)
    requires After(writer, before) && writer.output.Raw?
    modifies writer, writer.output.Objects()
    ensures After(writer, before + [DoFlush])
    ensures Flushes(before) == 0 ==> writer.output.Received() == Encrypt(writer.key, writer.iv, Given(before))
  {
    hide Encrypt, CbcEncrypt, NextChain, Flatten, Given, Flushes, Pad, EncryptingStreamWriter.Valid, OutputStream.Received,
         OutputStream.Objects, Base64.Encode, Base64Stream.Encoded;
    RunSnoc(before, DoFlush);
    var _ := writer.Flush();
    NothingBefore(Encrypt(writer.key, writer.iv, Given(before)));
  }

  lemma NothingBefore(message: Bytes)
    ensures [] + message == message
  {
  }

  lemma NotTheEncryption(writer: EncryptingStreamWriter, ops: seq<StreamOp>)
    requires After(writer, ops) && Flushes(ops) != 1
    ensures writer.output.Received() != Encrypt(writer.key, writer.iv, Given(ops))
  {
    EncryptLength(writer.key, writer.iv, Given(ops));
    hide Encrypt, Given, Flushes;
  }

  /**
   Any writes and flushes in any order: with a flush at the end the output is the one-shot encryption of everything
   written exactly when that flush is the only one, because a flush does not clear the buffer. Without any flush it
   never is.
   */
  method RunStream(key: AesKey, iv: Block, ops: seq<StreamOp>) returns (ciphertext: Sink<Byte>)
    ensures fresh(ciphertext)
    ensures ops != [] && ops[|ops| - 1].DoFlush? ==>
              (ciphertext.Written() == Encrypt(key, iv, Given(ops)) <==> Flushes(ops) == 1)
    ensures Flushes(ops) != 1 ==> ciphertext.Written() != Encrypt(key, iv, Given(ops))
  {
    hide Encrypt, CbcEncrypt, NextChain, EncryptingStreamWriter.Valid;
    ciphertext := new Sink<Byte>();
    key.HeaderIsVersionAndHash();
    NothingBefore(key.Header() + iv);
    var writer := new EncryptingStreamWriter(key, Raw(ciphertext), iv);
    assert After(writer, []);
    hide After, Flatten, Given, Flushes;
    ghost var before: seq<StreamOp> := [];
    for i := 0 to |ops|
      invariant After(writer, ops[..i]) && fresh(writer) && fresh(ciphertext)
      invariant writer.output == Raw(ciphertext) && writer.key == key && writer.iv == iv
      invariant i > 0 ==> before == ops[..i - 1]
      invariant i > 0 && ops[i - 1].DoFlush? && Flushes(before) == 0 ==>
                  ciphertext.Written() == Encrypt(key, iv, Given(before))
    {
      TakeSnoc(ops, i);
      before := ops[..i];
      match ops[i] {
        case DoWrite(data) => PerformWrite(writer, before, data);
        case DoFlush => PerformFlush(writer, before);
      }
    }
    assert ops[..|ops|] == ops;
    if Flushes(ops) != 1 {
      NotTheEncryption(writer, ops);
    } else if ops != [] && ops[|ops| - 1].DoFlush? {
      TakeSnoc(ops, |ops| - 1);
      RunSnoc(before, DoFlush);
      NothingAfter(Given(before));
    }
  }

  lemma NothingAfter(data: Bytes)
    ensures data + [] == data
  {
  }

  /** So it happens: after a second flush the output is longer than the encryption of the data. */
  method FlushTwice(key: AesKey, iv: Block, data: Bytes) returns (ciphertext: Sink<Byte>)
    ensures fresh(ciphertext) && |ciphertext.Written()| > |Encrypt(key, iv, data)| + HLEN
    ensures ciphertext.Written() != Encrypt(key, iv, data)
  {
    hide Encrypt, CbcEncrypt, NextChain, Pad;
    ciphertext := new Sink<Byte>();
    var writer := new EncryptingStreamWriter(key, Raw(ciphertext), iv);
    var _ := writer.Write(data);
    assert writer.Accepted() == data;
    var _ := writer.Flush();
    var _ := writer.Flush();
  }

  /** The same stream over the Base64 writer produces the Base64 text of the one-shot encryption. */
  method EncryptStreamToText(key: AesKey, iv: Block, chunks: seq<Bytes>) returns (text: Sink<char>)
    ensures fresh(text) && text.Written() == Base64.Encode(Encrypt(key, iv, Flatten(chunks)))
  {
    hide Encrypt, Base64.Encode, Base64Stream.Encoded, CbcEncrypt, NextChain;
    text := new Sink<char>();
    var encoder := new Base64Stream.StreamWriter(text);
    var writer := new EncryptingStreamWriter(key, Encoded(encoder), iv);
    var i := 0;
    while i < |chunks|
      invariant 0 <= i <= |chunks|
      invariant writer.Valid() && !writer.closed && !writer.flushed && fresh(writer) && fresh(encoder) && fresh(text)
      invariant writer.output == Encoded(encoder) && encoder.stream == text && writer.key == key && writer.iv == iv
      invariant encoder.emitted == ""
      invariant writer.prefix == [] && writer.Accepted() == Flatten(chunks[..i])
    {
      FlattenSnoc(chunks[..i], chunks[i]);
      assert chunks[..i + 1] == chunks[..i] + [chunks[i]];
      var _ := writer.Write(chunks[i]);
      i := i + 1;
    }
    assert chunks[..|chunks|] == chunks;
    var _ := writer.Flush();
    var message := Encrypt(key, iv, Flatten(chunks));
    assert [] + message == message && "" + Base64.Encode(message) == Base64.Encode(message);
    var _ := writer.Close();
  }
}
