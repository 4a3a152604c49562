/** The decrypting stream reader, over a plain byte source or over the Base64 reader. */
module DecryptingStream {
  import opened Prelude
  import opened Streams
  import opened Aes
  import Base64
  import Base64Stream

  // ---------------------------------------------------------------- what the reader should return

  /** The keys of a keyset by hash identifier. */
  type KeySet = map<string, AesKey>

  function ParseHeader(keys: KeySet, header: Bytes): Result<AesKey, CryptError>
    requires |header| == HEADER_SIZE
  {
    if header[0] != VERSION then Err(BadVersionError)
    else
      var id := Base64.Encode(header[1..]);
      if id in keys then Ok(keys[id]) else Err(KeyNotFoundError)
  }

  /** The one-shot decryption of a whole message by a keyset. */
  function CrypterDecrypt(keys: KeySet, input: Bytes): Result<Bytes, CryptError> {
    if |input| < HEADER_SIZE then Err(ShortCiphertextError)
    else match ParseHeader(keys, input[..HEADER_SIZE])
         case Err(e) => Err(e)
         case Ok(key) => Aes.Decrypt(key, input)
  }

  /** A whole header whose version is right and whose key is there. */
  predicate Known(keys: KeySet, m: Bytes) {
    |m| >= 5 && m[0] == 0 && Base64.Encode(m[1..5]) in keys
  }

  lemma HeaderMeans(keys: KeySet, m: Bytes)
    requires |m| >= 5
    ensures ParseHeader(keys, m[..5]) ==
            if m[0] != 0 then Err(BadVersionError)
            else if Base64.Encode(m[1..5]) !in keys then Err(KeyNotFoundError)
            else Ok(keys[Base64.Encode(m[1..5])])
  {
    assert m[..5][1..] == m[1..5];
  }

  /** Which error one-shot decryption reports, for every message. */
  lemma DecryptReports(keys: KeySet, m: Bytes)
    ensures var r := CrypterDecrypt(keys, m);
            && (r == Err(BadVersionError) <==> |m| >= 5 && m[0] != 0)
            && (r == Err(KeyNotFoundError) <==> |m| >= 5 && m[0] == 0 && Base64.Encode(m[1..5]) !in keys)
            && (r == Err(ShortCiphertextError) <==> |m| < 5 || (Known(keys, m) && |m| < 41))
    ensures var r := CrypterDecrypt(keys, m);
            var signed := Known(keys, m) && |m| >= 41 && keys[Base64.Encode(m[1..5])].mac(m[..|m| - 20]) == m[|m| - 20..];
            && (r == Err(InvalidSignatureError) <==> Known(keys, m) && |m| >= 41 && !signed)
            && (r == Err(UnalignedCiphertext) <==> signed && (|m| - 41) % 16 != 0)
            && (r == Err(EmptyPlaintext) <==> signed && |m| == 41)
            && (r.Ok? <==> signed && |m| > 41 && (|m| - 41) % 16 == 0)
  {
    if |m| >= 5 {
      HeaderMeans(keys, m);
      hide ParseHeader, CbcDecrypt;
      if Known(keys, m) {
        DecryptCases(keys[Base64.Encode(m[1..5])], m);
        hide Aes.Decrypt;
      }
    }
  }

  lemma DecryptCases(key: AesKey, m: Bytes)
    requires |m| >= 5
    ensures Aes.Decrypt(key, m) ==
            if |m| < 41 then Err(ShortCiphertextError)
            else if key.mac(m[..|m| - 20]) != m[|m| - 20..] then Err(InvalidSignatureError)
            else if (|m| - 41) % 16 != 0 then Err(UnalignedCiphertext)
            else UnPad(CbcDecrypt(key, m[5..21], m[21..|m| - 20]))
  {
    hide CbcDecrypt, UnPad;
    var dataBytes := m[5..];
    if |m| >= 41 {
      assert dataBytes[..16] == m[5..21] && dataBytes[16..|dataBytes| - 20] == m[21..|m| - 20];
      assert dataBytes[|dataBytes| - 20..] == m[|m| - 20..];
    }
  }

  /** Header and initialization vector. */
  const PREAMBLE: nat := HEADER_SIZE + BLOCK_SIZE

  /**
   The results of removing padding from a last chunk of whole blocks only: everything before the
   chunk is kept, and the last byte tells how much of the chunk is dropped.
   */
  ghost predicate Unpadded(padded: Bytes, data: Bytes) {
    exists cut: nat :: cut < |padded| && cut % BLOCK_SIZE == 0 && UnpaddedAt(padded, cut, data)
  }

  ghost predicate UnpaddedAt(padded: Bytes, cut: nat, data: Bytes)
    requires cut < |padded|
  {
    data == padded[..cut] + DropLast(padded[cut..], padded[|padded| - 1])
  }

  /** The ciphertext and the signature of a message longer than preamble and signature. */
  function Ciphertext(total: Bytes): Bytes
    requires |total| > PREAMBLE + HLEN
  {
    total[PREAMBLE..|total| - HLEN]
  }

  predicate Authentic(key: AesKey, total: Bytes)
    requires |total| > PREAMBLE + HLEN
  {
    key.mac(total[..|total| - HLEN]) == total[|total| - HLEN..]
  }

  /** The outcome of reading the stream of bytes `total` to its end. */
  ghost predicate Outcome(keys: KeySet, total: Bytes, r: Result<Bytes, CryptError>) {
    if |total| < HEADER_SIZE then r == Ok([])
    else match ParseHeader(keys, total[..HEADER_SIZE])
         case Err(e) => r == Err(e)
         case Ok(key) =>
           if |total| <= PREAMBLE + HLEN then r == Ok([])
           else if !Aligned(Ciphertext(total)) then r == Err(UnalignedCiphertext)
           else if !Authentic(key, total) then r == Err(InvalidSignatureError)
           else r.Ok? && Unpadded(CbcDecrypt(key, total[HEADER_SIZE..PREAMBLE], Ciphertext(total)), r.value)
  }

  /** Which error the stream reader reports, whatever the schedule. */
  lemma StreamReports(keys: KeySet, m: Bytes, r: Result<Bytes, CryptError>)
    requires Outcome(keys, m, r)
    ensures r == Err(BadVersionError) <==> |m| >= 5 && m[0] != 0
    ensures r == Err(KeyNotFoundError) <==> |m| >= 5 && m[0] == 0 && Base64.Encode(m[1..5]) !in keys
    ensures r == Err(UnalignedCiphertext) <==> Known(keys, m) && |m| > 41 && (|m| - 41) % 16 != 0
    ensures r == Err(InvalidSignatureError) <==>
              Known(keys, m) && |m| > 41 && (|m| - 41) % 16 == 0
              && keys[Base64.Encode(m[1..5])].mac(m[..|m| - 20]) != m[|m| - 20..]
    ensures r.Err? ==> r.error in {BadVersionError, KeyNotFoundError, UnalignedCiphertext, InvalidSignatureError}
  {
    hide ParseHeader, Unpadded, CbcDecrypt;
    if |m| >= 5 {
      HeaderMeans(keys, m);
    }
  }

  /** A message of a key that is not in the keyset is reported as that, in one shot and as a stream. */
  lemma UnknownKeyIsReported(keys: KeySet, key: AesKey, iv: Block, data: Bytes, r: Result<Bytes, CryptError>)
    requires key.HashId() !in keys
    ensures CrypterDecrypt(keys, Encrypt(key, iv, data)) == Err(KeyNotFoundError)
    ensures Outcome(keys, Encrypt(key, iv, data), r) ==> r == Err(KeyNotFoundError)
  {
    var m := Encrypt(key, iv, data);
    key.HeaderIsVersionAndHash();
    assert m[..5] == key.Header() && m[1..5] == m[..5][1..] == key.hash && m[0] == m[..5][0];
    hide Encrypt, Outcome, CrypterDecrypt, AesKey.Header;
    DecryptReports(keys, m);
    if Outcome(keys, m, r) {
      StreamReports(keys, m, r);
    }
  }

  /** Whether a padded text ends in the padding that encryption writes, at least in its last byte. */
  predicate WellPadded(padded: Bytes) {
    padded != [] && 1 <= padded[|padded| - 1] <= BLOCK_SIZE
  }

  /**
   Removing padding from the last chunk gives the same result wherever that chunk starts exactly when
   the last byte is a padding length or there is only one block.
   */
  lemma UnpaddingIsChunkIndependent(padded: Bytes)
    requires Aligned(padded) && padded != []
    ensures (forall data :: Unpadded(padded, data) ==> UnPad(padded) == Ok(data))
            <==> WellPadded(padded) || |padded| == BLOCK_SIZE
  {
    if WellPadded(padded) || |padded| == BLOCK_SIZE {
      forall data | Unpadded(padded, data) ensures UnPad(padded) == Ok(data) {
        var cut: nat :| cut < |padded| && cut % BLOCK_SIZE == 0 && UnpaddedAt(padded, cut, data);
        CutIsNotSeen(padded, cut, data);
      }
    } else {
      var data := CutIsSeen(padded);
    }
  }

  lemma CutIsNotSeen(padded: Bytes, cut: nat, data: Bytes)
    requires Aligned(padded) && cut < |padded| && cut % BLOCK_SIZE == 0 && UnpaddedAt(padded, cut, data)
    requires WellPadded(padded) || |padded| == BLOCK_SIZE
    ensures UnPad(padded) == Ok(data)
  {
    CutLeavesABlock(padded, cut);
    assert data == DropLast(padded, padded[|padded| - 1]);
  }

  lemma CutIsSeen(padded: Bytes) returns (data: Bytes)
    requires Aligned(padded) && |padded| > BLOCK_SIZE && !WellPadded(padded)
    ensures Unpadded(padded, data) && UnPad(padded) != Ok(data)
  {
    var cut := |padded| - BLOCK_SIZE;
    data := padded[..cut] + DropLast(padded[cut..], padded[|padded| - 1]);
    assert cut % BLOCK_SIZE == 0 && UnpaddedAt(padded, cut, data);
    assert |data| == cut > 0;
  }

  lemma CutLeavesABlock(padded: Bytes, cut: nat)
    requires Aligned(padded) && cut < |padded| && cut % BLOCK_SIZE == 0
    ensures |padded| - cut >= BLOCK_SIZE
    ensures |padded| == BLOCK_SIZE ==> cut == 0
  {
  }

  lemma UnpadAlways(padded: Bytes)
    requires padded != []
    ensures UnPad(padded).Ok? && Unpadded(padded, UnPad(padded).value)
  {
    assert padded[..0] + DropLast(padded[0..], padded[|padded| - 1]) == UnPad(padded).value by {
      assert padded[0..] == padded;
    }
    assert 0 % BLOCK_SIZE == 0 && UnpaddedAt(padded, 0, UnPad(padded).value);
  }

  /** A message on which the stream reader and the one-shot decryption do the same checks. */
  predicate Comparable(keys: KeySet, total: Bytes) {
    && |total| >= HEADER_SIZE
    && match ParseHeader(keys, total[..HEADER_SIZE])
       case Err(_) => true
       case Ok(key) =>
         && |total| > PREAMBLE + HLEN
         && (Aligned(Ciphertext(total)) || Authentic(key, total))
         && (Aligned(Ciphertext(total)) && Authentic(key, total) ==>
               var padded := CbcDecrypt(key, total[HEADER_SIZE..PREAMBLE], Ciphertext(total));
               WellPadded(padded) || |padded| == BLOCK_SIZE)
  }

  lemma DecryptOfLong(key: AesKey, total: Bytes)
    requires |total| > PREAMBLE + HLEN
    ensures Aes.Decrypt(key, total) ==
            if !Authentic(key, total) then Err(InvalidSignatureError)
            else if !Aligned(Ciphertext(total)) then Err(UnalignedCiphertext)
            else UnPad(CbcDecrypt(key, total[HEADER_SIZE..PREAMBLE], Ciphertext(total)))
  {
    hide CbcDecrypt;
    var dataBytes := total[HEADER_SIZE..];
    assert dataBytes[..BLOCK_SIZE] == total[HEADER_SIZE..PREAMBLE];
    assert dataBytes[BLOCK_SIZE..|dataBytes| - HLEN] == Ciphertext(total);
    assert dataBytes[|dataBytes| - HLEN..] == total[|total| - HLEN..];
  }

  lemma DecryptOfShort(key: AesKey, total: Bytes)
    requires HEADER_SIZE <= |total| <= PREAMBLE + HLEN
    ensures Aes.Decrypt(key, total).Err?
  {
    var dataBytes := total[HEADER_SIZE..];
    if |dataBytes| >= BLOCK_SIZE + HLEN {
      assert dataBytes[BLOCK_SIZE..|dataBytes| - HLEN] == [];
    }
  }

  /**
   The stream reader's outcomes are the one-shot outcome and no other, exactly on comparable messages.
   On the others it differs: a message of at most 41 bytes is read as empty without any check.
   */
  lemma StreamAgreesWithDecrypt(keys: KeySet, total: Bytes)
    ensures (forall r :: Outcome(keys, total, r) ==> r == CrypterDecrypt(keys, total)) <==> Comparable(keys, total)
    ensures Comparable(keys, total) ==> Outcome(keys, total, CrypterDecrypt(keys, total))
  {
    hide CbcDecrypt, ParseHeader, UnPad, Unpadded, Aes.Decrypt;
    if |total| < HEADER_SIZE {
      assert Outcome(keys, total, Ok([]));
    } else {
      match ParseHeader(keys, total[..HEADER_SIZE])
      case Err(e) =>
      case Ok(key) =>
        if |total| <= PREAMBLE + HLEN {
          assert Outcome(keys, total, Ok([]));
          DecryptOfShort(key, total);
        } else {
          DecryptOfLong(key, total);
          if !Aligned(Ciphertext(total)) {
            assert Outcome(keys, total, Err(UnalignedCiphertext));
          } else if Authentic(key, total) {
            AgreesOnAuthentic(keys, total, key);
          }
        }
    }
  }

  lemma AgreesOnAuthentic(keys: KeySet, total: Bytes, key: AesKey)
    requires |total| > PREAMBLE + HLEN
    requires ParseHeader(keys, total[..HEADER_SIZE]) == Ok(key)
    requires Aligned(Ciphertext(total)) && Authentic(key, total)
    ensures (forall r :: Outcome(keys, total, r) ==> r == CrypterDecrypt(keys, total)) <==> Comparable(keys, total)
    ensures Outcome(keys, total, CrypterDecrypt(keys, total))
  {
    hide CbcDecrypt, ParseHeader, UnPad, Unpadded, Aes.Decrypt;
    DecryptOfLong(key, total);
    var padded := CbcDecrypt(key, total[HEADER_SIZE..PREAMBLE], Ciphertext(total));
    UnpaddingIsChunkIndependent(padded);
    UnpadAlways(padded);
    if !Comparable(keys, total) {
      var data :| Unpadded(padded, data) && UnPad(padded) != Ok(data);
      assert Outcome(keys, total, Ok(data));
    }
  }

  /** Every message that encryption produces is comparable, so reading its stream gives the plaintext. */
  lemma EncryptedMessageIsRead(keys: KeySet, key: AesKey, iv: Block, data: Bytes, r: Result<Bytes, CryptError>)
    requires key.Valid() && key.HashId() in keys && keys[key.HashId()] == key
    requires Outcome(keys, Encrypt(key, iv, data), r)
    ensures r == Ok(data) == CrypterDecrypt(keys, Encrypt(key, iv, data))
  {
    var total := Encrypt(key, iv, data);
    key.HeaderIsVersionAndHash();
    assert total[..HEADER_SIZE] == key.Header();
    assert total[..HEADER_SIZE][1..] == key.hash;
    DecryptInvertsEncrypt(key, iv, data);
    EncryptedMessageIsComparable(keys, key, iv, data);
    StreamAgreesWithDecrypt(keys, total);
  }

  lemma EncryptedMessageIsComparable(keys: KeySet, key: AesKey, iv: Block, data: Bytes)
    requires key.Valid()
    requires ParseHeader(keys, Encrypt(key, iv, data)[..HEADER_SIZE]) == Ok(key)
    ensures Comparable(keys, Encrypt(key, iv, data))
  {
    hide ParseHeader, CbcEncrypt, CbcDecrypt, Pad;
    var total := Encrypt(key, iv, data);
    key.HeaderIsVersionAndHash();
    var ciph := CbcEncrypt(key, iv, Pad(data));
    assert |total| > PREAMBLE + HLEN;
    assert total[HEADER_SIZE..PREAMBLE] == iv;
    assert Ciphertext(total) == ciph;
    assert Authentic(key, total);
    CbcDecryptInverts(key, iv, Pad(data));
    PadIsWellPadded(data);
  }

  lemma PadIsWellPadded(data: Bytes)
    ensures WellPadded(Pad(data))
  {
  }

  // ---------------------------------------------------------------- input

  /** Where encrypted bytes come from. */
  datatype InputStream = Raw(source: Source<Byte>) | Decoded(reader: Base64Stream.StreamReader) {

    ghost function Objects(): set<object> {
      match this
      case Raw(source) => {source}
      case Decoded(reader) => {reader, reader.stream}
    }

    ghost predicate Valid()
      reads Objects()
    {
      match this
      case Raw(source) => source.Valid()
      case Decoded(reader) => reader.Valid() && reader.charBuffer == []
    }

    /** Base64 input is clean when its text can be decoded. */
    ghost predicate Clean()
      reads Objects()
    {
      Decoded? ==> Base64.AllLetters(reader.Text()) && !Base64Stream.Dangling(reader.Text())
    }

    /** The bytes still to come. */
    ghost function Rest(): Bytes
      requires Clean()
      reads Objects()
    {
      match this
      case Raw(source) => source.Rest()
      case Decoded(reader) => reader.Pending()
    }

    /** A byte source with a moment before its end at which nothing is available. */
    ghost predicate Paused()
      reads Objects()
    {
      Raw? && source.Paused()
    }

    /** A byte source that is used up. */
    ghost predicate Ended()
      reads Objects()
    {
      Raw? && source.events == []
    }

    ghost function Measure(): nat
      reads Objects()
    {
      match this
      case Raw(source) => source.Measure()
      case Decoded(reader) => reader.Measure()
    }

    /**
     Both kinds of input answer a positive size with at most twice as many bytes and one, and with
     the empty string only at the end.
     */
    method Read(size: nat) returns (r: Result<Option<Bytes>, CryptError>)
      requires Valid() && size > 0
      modifies Objects()
      ensures r.Ok? ==> Valid()
      ensures r == Ok(None) ==> Measure() < old(Measure())
      ensures r.Ok? && r.value.Some? ==>
                |r.value.value| <= 2 * size + 1 && |r.value.value| + Measure() <= old(Measure())
      ensures old(Clean()) ==>
                && Clean() && r.Ok?
                && old(Rest()) == (if r.value.Some? then r.value.value else []) + Rest()
                && (r.value == Some([]) ==> Rest() == [])
      ensures old(Paused()) ==>
                r.Ok? && r.value != Some([]) && (Paused() || (Ended() && r.value.None? && Clean() && Rest() == []))
      ensures old(Ended()) ==> r == Ok(Some([])) && Ended()
    {
      hide Base64Stream.Decodable, Base64.IsLetter, Base64.AllLetters, Base64Stream.Dangling;
      match this
      case Raw(source) =>
        var bytes := source.Read(size);
        r := Ok(bytes);
      case Decoded(reader) =>
        var bytes := reader.Read(size, -1);
        r := if bytes.Ok? then Ok(Some(bytes.value)) else Err(UndecodableText);
    }
  }

  // ---------------------------------------------------------------- stages of the reader

  /** Nothing but part of the header has been read. */
  ghost predicate HeaderStage(total: Bytes, rest: Bytes, held: Bytes, plain: Bytes) {
    total == held + rest && plain == []
  }

  ghost predicate KeyFound(keys: KeySet, total: Bytes, key: AesKey) {
    |total| >= HEADER_SIZE && ParseHeader(keys, total[..HEADER_SIZE]) == Ok(key)
  }

  /** The key is known and the signature has been fed the header. */
  ghost predicate VectorStage(keys: KeySet, total: Bytes, rest: Bytes, key: AesKey, signed: Bytes, held: Bytes,
          plain: Bytes) {
    && KeyFound(keys, total, key)
    && |signed| == HEADER_SIZE
    && total == signed + held + rest
    && plain == []
  }

  /**
   Cipher, signature and plaintext agree on how much of the ciphertext has been decrypted, and as soon as
   any of it has been, one block and the length of a signature are held back.
   */
  ghost predicate BodyStage(keys: KeySet, total: Bytes, rest: Bytes, key: AesKey, chain: Block, signed: Bytes,
          held: Bytes, plain: Bytes) {
    && KeyFound(keys, total, key)
    && |signed| >= PREAMBLE
    && total == signed + held + rest
    && Aligned(signed[PREAMBLE..])
    && chain == NextChain(signed[HEADER_SIZE..PREAMBLE], signed[PREAMBLE..])
    && plain == CbcDecrypt(key, signed[HEADER_SIZE..PREAMBLE], signed[PREAMBLE..])
    && (signed[PREAMBLE..] != [] ==> |held| >= BLOCK_SIZE + HLEN)
  }

  /** The whole message has been decrypted and verified. */
  ghost predicate Done(keys: KeySet, total: Bytes, rest: Bytes, held: Bytes, plain: Bytes) {
    rest == [] && held == [] && Outcome(keys, total, Ok(plain))
  }

  lemma MoveData(signed: Bytes, held: Bytes, data: Bytes)
    requires |signed| >= PREAMBLE && data <= held
    ensures (signed + data)[HEADER_SIZE..PREAMBLE] == signed[HEADER_SIZE..PREAMBLE]
    ensures (signed + data)[PREAMBLE..] == signed[PREAMBLE..] + data
    ensures signed + held == (signed + data) + held[|data|..]
  {
    assert held == data + held[|data|..];
  }

  /** Decrypting some whole blocks while enough is held back stays in the body stage. */
  lemma BodyStep(keys: KeySet, total: Bytes, rest: Bytes, key: AesKey, chain: Block, signed: Bytes, held: Bytes,
          plain: Bytes, data: Bytes)
    requires BodyStage(keys, total, rest, key, chain, signed, held, plain)
    requires data <= held && Aligned(data) && |held| - |data| >= BLOCK_SIZE + HLEN
    ensures BodyStage(keys, total, rest, key, NextChain(chain, data), signed + data, held[|data|..],
                      plain + CbcDecrypt(key, chain, data))
  {
    hide CbcDecrypt, ParseHeader;
    var iv, ct := signed[HEADER_SIZE..PREAMBLE], signed[PREAMBLE..];
    MoveData(signed, held, data);
    NextChainAppend(iv, ct, data);
    CbcDecryptAppend(key, iv, ct, data);
  }

  /** At the end of the input the last data to decrypt is everything but the signature. */
  lemma BodyEnd(keys: KeySet, total: Bytes, key: AesKey, chain: Block, signed: Bytes, held: Bytes, plain: Bytes)
    requires BodyStage(keys, total, [], key, chain, signed, held, plain)
    requires |held| > HLEN
    ensures var data := held[..|held| - HLEN];
            && |total| > PREAMBLE + HLEN && KeyFound(keys, total, key)
            && (Aligned(Ciphertext(total)) <==> Aligned(data))
            && signed + data == total[..|total| - HLEN]
            && held[|data|..] == total[|total| - HLEN..]
            && (Aligned(data) ==>
                  && CbcDecrypt(key, total[HEADER_SIZE..PREAMBLE], Ciphertext(total)) == plain + CbcDecrypt(key, chain, data)
                  && |plain| % BLOCK_SIZE == 0)
  {
    hide CbcDecrypt, ParseHeader;
    var data := held[..|held| - HLEN];
    var iv, ct := signed[HEADER_SIZE..PREAMBLE], signed[PREAMBLE..];
    assert total == signed + held;
    MoveData(signed, held, data);
    assert total == (signed + data) + held[|data|..];
    assert total[..|total| - HLEN] == signed + data;
    assert total[HEADER_SIZE..PREAMBLE] == iv;
    assert Ciphertext(total) == (signed + data)[PREAMBLE..];
    if Aligned(data) {
      CbcDecryptAppend(key, iv, ct, data);
    }
  }

  lemma BodyRejected(keys: KeySet, total: Bytes, key: AesKey)
    requires KeyFound(keys, total, key) && |total| > PREAMBLE + HLEN
    ensures !Aligned(Ciphertext(total)) ==> Outcome(keys, total, Err(UnalignedCiphertext))
    ensures Aligned(Ciphertext(total)) && !Authentic(key, total) ==> Outcome(keys, total, Err(InvalidSignatureError))
  {
  }

  lemma AuthenticMeans(key: AesKey, total: Bytes, signed: Bytes, signature: Bytes)
    requires |total| > PREAMBLE + HLEN
    requires signed == total[..|total| - HLEN] && signature == total[|total| - HLEN..]
    ensures Authentic(key, total) <==> key.mac(signed) == signature
  {
  }

  /** All is decrypted and the signature matches; what is left is the padding of the last chunk. */
  ghost predicate Decrypted(keys: KeySet, total: Bytes, key: AesKey, plain: Bytes, last: Bytes) {
    && KeyFound(keys, total, key)
    && |total| > PREAMBLE + HLEN && Aligned(Ciphertext(total)) && Authentic(key, total)
    && CbcDecrypt(key, total[HEADER_SIZE..PREAMBLE], Ciphertext(total)) == plain + last
    && |plain| % BLOCK_SIZE == 0
  }

  /** Removing the padding of the last chunk completes the plaintext. */
  lemma BodyDone(keys: KeySet, total: Bytes, key: AesKey, plain: Bytes, last: Bytes)
    requires Decrypted(keys, total, key, plain, last) && last != []
    ensures UnPad(last).Ok? && Outcome(keys, total, Ok(plain + UnPad(last).value))
    ensures |last| == BLOCK_SIZE ==> LastBlockUnpadded(keys, total, plain + UnPad(last).value)
  {
    hide CbcDecrypt, ParseHeader;
    var padded := plain + last;
    assert padded[..|plain|] == plain && padded[|plain|..] == last;
    assert UnpaddedAt(padded, |plain|, plain + UnPad(last).value);
  }

  /** The plaintext when the last block alone was left for the end, so that padding was removed from it alone. */
  ghost predicate LastBlockUnpadded(keys: KeySet, total: Bytes, plain: Bytes) {
    && |total| > PREAMBLE + HLEN && |total| >= HEADER_SIZE
    && ParseHeader(keys, total[..HEADER_SIZE]).Ok?
    && var key := ParseHeader(keys, total[..HEADER_SIZE]).value;
       Aligned(Ciphertext(total)) && Authentic(key, total)
       && var padded := CbcDecrypt(key, total[HEADER_SIZE..PREAMBLE], Ciphertext(total));
          |padded| >= BLOCK_SIZE && UnpaddedAt(padded, |padded| - BLOCK_SIZE, plain)
  }

  /** If the input ends before anything could be decrypted, the message is too short to be checked. */
  lemma BodyShort(keys: KeySet, total: Bytes, key: AesKey, chain: Block, signed: Bytes, held: Bytes, plain: Bytes)
    requires BodyStage(keys, total, [], key, chain, signed, held, plain)
    requires |held| <= HLEN
    ensures plain == [] && |total| <= PREAMBLE + HLEN && Outcome(keys, total, Ok([]))
  {
  }

  // ---------------------------------------------------------------- the reader

  class DecryptingStreamReader {
    const keySet: KeySet
    const input: InputStream
    var bufferSize: int
    var key: Option<AesKey>
    var chain: Option<Block>      // state of the cipher, once created
    var signed: Bytes             // what the signature has been fed
    var encryptedBuffer: Bytes
    var decryptedBuffer: Bytes
    var closed: bool
    ghost const clean: bool       // the input was clean at the start
    ghost const total: Bytes      // then, all the bytes it had
    ghost var delivered: Bytes    // what reads have returned so far
    ghost var finished: bool

    constructor (keySet: KeySet, input: InputStream, bufferSize: int)
      requires input.Valid()
      ensures this.keySet == keySet && this.input == input
      ensures Valid() && !closed && delivered == []
      ensures clean == input.Clean() && (clean ==> total == input.Rest())
      ensures Calm() <==> input.Paused()
    {
      this.keySet, this.input, this.bufferSize := keySet, input, bufferSize;
      key, chain, signed := None, None, [];
      encryptedBuffer, decryptedBuffer := [], [];
      closed, finished := false, false;
      clean := input.Clean();
      total := if input.Clean() then input.Rest() else [];
      delivered := [];
    }

    /** All the plaintext produced so far. */
    ghost function Plain(): Bytes
      reads this
    {
      delivered + decryptedBuffer
    }

    ghost predicate Stage(rest: Bytes)
      reads this
    {
      match key
      case None => HeaderStage(total, rest, encryptedBuffer, Plain())
      case Some(k) =>
        match chain
        case None => VectorStage(keySet, total, rest, k, signed, encryptedBuffer, Plain())
        case Some(c) =>
          if finished then Done(keySet, total, rest, encryptedBuffer, Plain())
          else BodyStage(keySet, total, rest, k, c, signed, encryptedBuffer, Plain())
    }

    ghost predicate Valid()
      reads this, input.Objects()
    {
      && input.Valid()
      && (key.None? ==> |encryptedBuffer| < HEADER_SIZE && chain.None?)
      && (chain.None? ==> !finished)
      && (key.Some? && chain.None? ==> |encryptedBuffer| < BLOCK_SIZE)
      && (clean ==> input.Clean() && Stage(input.Rest()))
    }

    /**
     The input has yet to pause, or it has ended and so little is held back that only one more block can be
     decrypted; or all is done, and the last block was left for the end.
     */
    ghost predicate Calm()
      reads this, input.Objects()
    {
      if finished then LastBlockUnpadded(keySet, total, Plain())
      else input.Paused() || (input.Ended() && chain.Some? && |encryptedBuffer| < HLEN + 2 * BLOCK_SIZE)
    }

    ghost function Measure(): nat
      reads this, input.Objects()
    {
      |encryptedBuffer| + |decryptedBuffer| + input.Measure()
    }

    /**
     Reads at least size bytes when blocking, otherwise until the source has nothing at hand.
     Tells whether the input may have more.
     */
    method ReadBytes(size: nat, block: bool) returns (failed: bool, result: Bytes, available: bool)
      requires input.Valid() && size > 0
      modifies input.Objects()
      ensures !failed ==> input.Valid() && |result| + input.Measure() <= old(input.Measure())
      ensures !failed && available ==> input.Measure() < old(input.Measure())
      ensures !failed && available && block ==> |result| >= size
      ensures !failed && !available ==> |result| < size
      ensures |result| <= 3 * size
      ensures old(input.Clean()) ==>
                && !failed && input.Clean()
                && old(input.Rest()) == result + input.Rest()
                && (!available ==> input.Rest() == [])
      ensures old(input.Paused()) && !block ==> !failed && available && (input.Paused() || input.Ended())
      ensures old(input.Paused()) && block && old(input.Clean()) && |old(input.Rest())| >= size ==> available && input.Paused()
      ensures old(input.Ended()) ==> !failed && result == [] && !available && input.Ended()
    {
      hide InputStream.Valid, InputStream.Clean, InputStream.Rest, InputStream.Measure, InputStream.Paused, InputStream.Ended;
      failed, result, available := false, [], true;
      var needMoreData := true;
      while needMoreData
        invariant input.Valid() && !failed && available
        invariant |result| + input.Measure() <= old(input.Measure())
        invariant !needMoreData ==> |result| >= size && input.Measure() < old(input.Measure())
        invariant needMoreData ==> |result| < size
        invariant |result| <= 3 * size
        invariant old(input.Clean()) ==> input.Clean() && old(input.Rest()) == result + input.Rest()
        invariant old(input.Paused()) ==>
                    input.Paused() || (block && input.Ended() && input.Clean() && input.Rest() == [] && needMoreData)
        invariant old(input.Ended()) ==> input.Ended() && result == [] && needMoreData
        decreases input.Measure()
      {
        var readBytes := input.Read(size);
        if readBytes.Err? {
          failed := true;
          return;
        }
        match readBytes.value {
          case Some(bytes) =>
            if bytes == [] {
              available := false;
              return;
            }
            result := result + bytes;
          case None =>
            if !block {
              return;
            }
        }
        needMoreData := |result| < size;
      }
    }

    /** The first stage: the header names the key. */
    method CreateKey() returns (r: Result<bool, CryptError>)
      requires Valid() && key.None?
      modifies this, input.Objects()
      ensures unchanged(`delivered) && unchanged(`decryptedBuffer) && unchanged(`closed) && unchanged(`finished)
      ensures r.Ok? ==> Valid() && Measure() <= old(Measure()) && chain.None?
      ensures r == Ok(true) ==> key.Some?
      ensures r == Ok(false) && clean ==> input.Rest() == [] && key.None?
      ensures r.Err? && clean ==> Outcome(keySet, total, Err(r.error))
      ensures r.Ok? && old(input.Paused()) && clean && |total| >= HEADER_SIZE ==> r.value && input.Paused()
    {
      hide InputStream.Valid, InputStream.Clean, InputStream.Rest, InputStream.Measure, InputStream.Paused, InputStream.Ended,
           ParseHeader, Outcome, BodyStage, Done, LastBlockUnpadded, NextChain;
      var failed, readBytes, available := ReadBytes(HEADER_SIZE - |encryptedBuffer|, true);
      if failed {
        return Err(UndecodableText);
      }
      ghost var rest := if clean then input.Rest() else [];
      ghost var before := encryptedBuffer;
      encryptedBuffer := encryptedBuffer + readBytes;
      assert clean ==> total == encryptedBuffer + rest by {
        assert (before + readBytes) + rest == before + (readBytes + rest);
      }
      if |encryptedBuffer| >= HEADER_SIZE {
        var header := encryptedBuffer[..HEADER_SIZE];
        assert clean ==> header == total[..HEADER_SIZE];
        var found := ParseHeader(keySet, header);
        encryptedBuffer := encryptedBuffer[HEADER_SIZE..];
        if found.Err? {
          if clean {
            HeaderRejected(keySet, total, found.error);
          }
          return Err(found.error);
        }
        assert clean ==> header + encryptedBuffer + rest == total;
        key := Some(found.value);
        signed := header;
        if bufferSize >= 0 {
          bufferSize := NoPadBufferSize(bufferSize);
        }
      }
      r := Ok(available);
    }

    /** The second stage: the initialization vector starts the cipher. */
    method CreateCipher() returns (r: Result<bool, CryptError>)
      requires Valid() && key.Some? && chain.None?
      modifies this, input.Objects()
      ensures unchanged(`delivered) && unchanged(`decryptedBuffer) && unchanged(`closed) && unchanged(`finished)
      ensures unchanged(`key)
      ensures r.Ok? ==> Valid() && Measure() <= old(Measure())
      ensures r == Ok(true) ==> chain.Some?
      ensures r == Ok(false) && clean ==> input.Rest() == [] && chain.None?
      ensures r.Err? ==> !clean
      ensures r.Ok? && old(input.Paused()) && clean && |total| >= PREAMBLE ==> r.value && input.Paused()
    {
      hide InputStream.Valid, InputStream.Clean, InputStream.Rest, InputStream.Measure, InputStream.Paused, InputStream.Ended,
           ParseHeader, Outcome, CbcDecrypt;
      var failed, readBytes, available := ReadBytes(BLOCK_SIZE - |encryptedBuffer|, true);
      if failed {
        return Err(UndecodableText);
      }
      ghost var rest := if clean then input.Rest() else [];
      ghost var before := encryptedBuffer;
      encryptedBuffer := encryptedBuffer + readBytes;
      assert clean ==> total == signed + encryptedBuffer + rest by {
        assert signed + (before + readBytes) + rest == signed + before + (readBytes + rest);
      }
      if |encryptedBuffer| >= BLOCK_SIZE {
        var iv := encryptedBuffer[..BLOCK_SIZE];
        encryptedBuffer := encryptedBuffer[BLOCK_SIZE..];
        if clean {
          StartBody(keySet, total, rest, key.value, signed, iv, encryptedBuffer);
        }
        signed := signed + iv;
        chain := Some(iv);
      }
      r := Ok(available);
    }

    /** What can be decrypted of the bytes at hand: everything but a reserve, in whole blocks until the end. */
    static function Decryptable(held: Bytes, available: bool): (data: Bytes)
      ensures data <= held
      ensures available ==> Aligned(data) && (data != [] ==> |held| - |data| >= BLOCK_SIZE + HLEN)
      ensures available ==> |held| - |data| < HLEN + 2 * BLOCK_SIZE
      ensures !available ==> data == if |held| <= HLEN then [] else held[..|held| - HLEN]
    {
      var reserved := if available then HLEN + BLOCK_SIZE else HLEN;
      var availableData := DropLast(held, reserved);
      var noDecryptLen := if available then |availableData| % BLOCK_SIZE else 0;
      if noDecryptLen != 0 then DropLast(availableData, noDecryptLen) else availableData
    }

    /** Reads until some data can be decrypted or the input has ended. */
    method Gather() returns (failed: bool, data: Bytes, available: bool)
      requires Valid() && chain.Some? && key.Some?
      modifies this, input.Objects()
      ensures unchanged(`delivered) && unchanged(`decryptedBuffer) && unchanged(`closed) && unchanged(`finished)
      ensures unchanged(`key) && unchanged(`chain) && unchanged(`signed)
      ensures !failed ==> Valid() && Measure() <= old(Measure())
      ensures !failed ==> data == Decryptable(encryptedBuffer, available) && (available ==> data != [])
      ensures !failed && !available && clean ==> input.Rest() == []
      ensures failed ==> !clean
      ensures old(Calm()) && !finished && clean ==>
                if available then input.Paused() || input.Ended() else |encryptedBuffer| < HLEN + 2 * BLOCK_SIZE
    {
      hide InputStream.Valid, InputStream.Clean, InputStream.Rest, InputStream.Measure, InputStream.Paused, InputStream.Ended,
           ParseHeader, Outcome,
           CbcDecrypt, Decryptable, HeaderStage, VectorStage, BodyStage, LastBlockUnpadded, NextChain;
      failed, data, available := false, [], true;
      var needMoreData := true;
      while needMoreData
        invariant Valid() && !failed
        invariant Measure() <= old(Measure())
        invariant unchanged(`delivered) && unchanged(`decryptedBuffer) && unchanged(`closed) && unchanged(`finished)
        invariant unchanged(`key) && unchanged(`chain) && unchanged(`signed)
        invariant !needMoreData ==> data == Decryptable(encryptedBuffer, available) && (available ==> data != [])
        invariant !needMoreData && !available && clean ==> input.Rest() == []
        invariant old(Calm()) && !finished && clean ==>
                    if needMoreData then Calm()
                    else if available then input.Paused() || input.Ended()
                    else |encryptedBuffer| < HLEN + 2 * BLOCK_SIZE
        decreases needMoreData, input.Measure()
      {
        var readBytes;
        failed, readBytes, available := ReadBytes(BLOCK_SIZE, false);
        if failed {
          return;
        }
        if clean && finished {
          assert readBytes == [] && encryptedBuffer + readBytes == encryptedBuffer;
        } else if clean {
          BodyReceive(keySet, total, input.Rest(), key.value, chain.value, signed, encryptedBuffer, Plain(), readBytes);
        }
        encryptedBuffer := encryptedBuffer + readBytes;
        data := Decryptable(encryptedBuffer, available);
        needMoreData := available && data == [];
      }
    }

    /** The last data: it must be whole blocks and the signature must match. */
    method Verify(data: Bytes) returns (r: Result<Bytes, CryptError>)
      requires Valid() && chain.Some? && key.Some? && (clean ==> !finished)
      requires data != [] && data == Decryptable(encryptedBuffer, false)
      requires clean ==> input.Rest() == []
      modifies `signed, `encryptedBuffer, `chain
      ensures r.Err? && clean ==> Outcome(keySet, total, Err(r.error))
      ensures r.Ok? ==> chain.Some? && encryptedBuffer == [] && Aligned(data) && |r.value| == |data|
      ensures r.Ok? && clean ==> Decrypted(keySet, total, key.value, Plain(), r.value)
      ensures |data| <= |old(encryptedBuffer)|
    {
      hide InputStream.Valid, InputStream.Clean, InputStream.Rest, InputStream.Measure, InputStream.Paused, InputStream.Ended,
           ParseHeader, HeaderStage, VectorStage, BodyStage, Outcome, CbcDecrypt, Decryptable, Authentic;
      assert this !in input.Objects();
      var k := key.value;
      if clean {
        BodyEnd(keySet, total, k, chain.value, signed, encryptedBuffer, Plain());
        BodyRejected(keySet, total, k);
      }
      signed := signed + data;
      encryptedBuffer := encryptedBuffer[|data|..];
      if !Aligned(data) {
        return Err(UnalignedCiphertext);
      }
      var decrypted := CbcDecrypt(k, chain.value, data);
      chain := Some(NextChain(chain.value, data));
      if |encryptedBuffer| != HLEN {
        return Err(ShortCiphertextError);
      }
      var currentSig := k.mac(signed);
      var messageSig := encryptedBuffer;
      encryptedBuffer := [];
      var ok := VerifySignedData(currentSig, messageSig);
      assert clean ==> ok == Authentic(k, total) by {
        if clean {
          AuthenticMeans(k, total, signed, messageSig);
        }
      }
      r := if ok then Ok(decrypted) else Err(InvalidSignatureError);
    }

    /** At the end the signature must match and the padding goes. */
    method Finish(data: Bytes) returns (r: Result<(), CryptError>)
      requires Valid() && chain.Some? && key.Some? && (clean ==> !finished)
      requires data != [] && data == Decryptable(encryptedBuffer, false)
      requires clean ==> input.Rest() == []
      modifies this
      ensures unchanged(`delivered) && unchanged(`closed) && unchanged(`key)
      ensures r.Ok? ==> Valid() && Measure() <= old(Measure()) && chain.Some?
      ensures r.Ok? && clean ==> Outcome(keySet, total, Ok(Plain()))
      ensures r.Err? && clean ==> Outcome(keySet, total, Err(r.error))
      ensures r.Ok? ==> finished && Aligned(data)
      ensures r.Ok? && clean && |data| == BLOCK_SIZE ==> LastBlockUnpadded(keySet, total, Plain())
    {
      hide InputStream.Valid, InputStream.Clean, InputStream.Rest, InputStream.Measure, InputStream.Paused, InputStream.Ended,
           ParseHeader, HeaderStage, VectorStage, BodyStage, Outcome, UnPad, Decryptable, LastBlockUnpadded, Decrypted;
      assert this !in input.Objects();
      var decrypted := Verify(data);
      if decrypted.Err? {
        return Err(decrypted.error);
      }
      ghost var plain := Plain();
      if clean {
        BodyDone(keySet, total, key.value, plain, decrypted.value);
      }
      var unpadded := UnPad(decrypted.value);
      UnPadShrinks(decrypted.value);
      if unpadded.Err? {
        return Err(unpadded.error);
      }
      assert delivered + (decryptedBuffer + unpadded.value) == plain + unpadded.value;
      decryptedBuffer := decryptedBuffer + unpadded.value;
      finished := true;
      r := Ok(());
    }

    /** Before the end: decrypts whole blocks and keeps cipher, signature and plaintext in step. */
    method DecryptBlocks(data: Bytes)
      requires Valid() && chain.Some? && key.Some? && (clean ==> !finished)
      requires data != [] && data == Decryptable(encryptedBuffer, true)
      modifies `signed, `chain, `encryptedBuffer, `decryptedBuffer
      ensures Valid() && chain.Some? && Measure() <= old(Measure()) && decryptedBuffer != []
      ensures |encryptedBuffer| < HLEN + 2 * BLOCK_SIZE
    {
      hide InputStream.Valid, InputStream.Clean, InputStream.Rest, InputStream.Measure, InputStream.Paused, InputStream.Ended,
           ParseHeader, CbcDecrypt, Decryptable, HeaderStage, VectorStage, BodyStage, Done;
      assert this !in input.Objects();
      if clean {
        BodyStep(keySet, total, input.Rest(), key.value, chain.value, signed, encryptedBuffer, Plain(), data);
      }
      var decrypted := CbcDecrypt(key.value, chain.value, data);
      Associates(delivered, decryptedBuffer, decrypted);
      signed := signed + data;
      chain := Some(NextChain(chain.value, data));
      encryptedBuffer := encryptedBuffer[|data|..];
      decryptedBuffer := decryptedBuffer + decrypted;
    }

    /** The third stage: one round of decryption. Tells whether there may be more. */
    method DecryptMore() returns (r: Result<bool, CryptError>)
      requires Valid() && chain.Some? && key.Some?
      modifies this, input.Objects()
      ensures unchanged(`delivered) && unchanged(`closed)
      ensures r.Ok? ==> Valid() && Measure() <= old(Measure())
      ensures r == Ok(true) ==> decryptedBuffer != []
      ensures r == Ok(false) && clean ==> Outcome(keySet, total, Ok(Plain()))
      ensures r.Err? && clean ==> Outcome(keySet, total, Err(r.error))
      ensures r.Ok? && old(Calm()) && clean && |total| > PREAMBLE + HLEN ==> Calm() && (r.value <==> !finished)
    {
      hide InputStream.Valid, InputStream.Clean, InputStream.Rest, InputStream.Measure, InputStream.Paused, InputStream.Ended,
           ParseHeader, Outcome,
           CbcDecrypt, Decryptable, LastBlockUnpadded, HeaderStage, VectorStage, BodyStage;
      var failed, data, available := Gather();
      if failed {
        return Err(UndecodableText);
      }
      if data == [] {
        if clean && !finished {
          BodyShort(keySet, total, key.value, chain.value, signed, encryptedBuffer, Plain());
        }
        return Ok(available);
      }
      if !available {
        var done := Finish(data);
        return if done.Ok? then Ok(false) else Err(done.error);
      }
      DecryptBlocks(data);
      r := Ok(true);
    }

    /** Hands out at most chars bytes, or everything decrypted so far for a negative number. */
    method Deliver(chars: int) returns (result: Bytes)
      requires Valid()
      modifies `decryptedBuffer, `delivered
      ensures Valid() && |result| + Measure() <= old(Measure())
      ensures delivered == old(delivered) + result && Plain() == old(Plain())
      ensures chars >= 0 ==> |result| <= chars
      ensures chars != 0 && result == [] ==> delivered == Plain() && old(decryptedBuffer) == []
    {
      hide InputStream.Valid, InputStream.Clean, InputStream.Rest, InputStream.Measure, InputStream.Paused, InputStream.Ended,
           ParseHeader, Outcome,
           HeaderStage, VectorStage, BodyStage, Done, LastBlockUnpadded;
      assert this !in input.Objects();
      result := if chars < 0 then decryptedBuffer else Take(decryptedBuffer, chars);
      var kept := if chars < 0 then [] else Skip(decryptedBuffer, chars);
      assert decryptedBuffer == result + kept;
      assert delivered + result + kept == delivered + (result + kept);
      decryptedBuffer := kept;
      delivered := delivered + result;
    }

    /** The first two stages, where they are still to come. Tells whether there may be something to decrypt. */
    method Start() returns (r: Result<bool, CryptError>)
      requires Valid()
      modifies this, input.Objects()
      ensures unchanged(`delivered) && unchanged(`decryptedBuffer) && unchanged(`closed) && unchanged(`finished)
      ensures r.Ok? ==> Valid() && Measure() <= old(Measure())
      ensures r == Ok(true) ==> key.Some? && chain.Some?
      ensures r == Ok(false) && clean ==> Outcome(keySet, total, Ok(Plain()))
      ensures r.Err? && clean ==> Outcome(keySet, total, Err(r.error))
      ensures old(Calm()) && clean && |total| > PREAMBLE + HLEN && r.Ok? ==> r.value && Calm()
    {
      hide InputStream.Valid, InputStream.Clean, InputStream.Rest, InputStream.Measure, InputStream.Paused, InputStream.Ended,
           ParseHeader, Outcome, CbcDecrypt, LastBlockUnpadded, HeaderStage, VectorStage, BodyStage, Done;
      var available := true;
      if key.None? {
        var created := CreateKey();
        if created.Err? {
          return Err(created.error);
        }
        available := created.value;
        if clean && !available {
          HeaderShort(keySet, total, encryptedBuffer, Plain());
        }
      }
      if available && chain.None? {
        var created := CreateCipher();
        if created.Err? {
          return Err(created.error);
        }
        available := created.value;
        if clean && !available {
          VectorShort(keySet, total, key.value, signed, encryptedBuffer, Plain());
        }
      }
      r := Ok(available);
    }

    /**
     One read. On a clean input what is returned is always the next part of the plaintext, None is the
     answer to a request for nothing only, an error is the outcome of the message, and once a request for
     something is answered by the empty string everything returned so far is the outcome of the message.
     */
    method Read(chars: int) returns (r: Result<Option<Bytes>, CryptError>)
      requires Valid()
      modifies this, input.Objects()
      ensures closed == old(closed)
      ensures closed ==> r == Err(ClosedStream) && unchanged(this)
      ensures r.Ok? ==> Valid()
      ensures r.Ok? ==> (if r.value.Some? then |r.value.value| else 0) + Measure() <= old(Measure())
      ensures r.Ok? ==> delivered == old(delivered) + (if r.value.Some? then r.value.value else [])
      ensures r.Ok? && r.value.Some? && chars >= 0 ==> |r.value.value| <= chars
      ensures r == Ok(None) ==> chars == 0
      ensures clean && r == Ok(Some([])) && chars != 0 ==> Outcome(keySet, total, Ok(delivered))
      ensures clean && !closed && r.Err? ==> Outcome(keySet, total, Err(r.error))
      ensures old(Calm()) && clean && |total| > PREAMBLE + HLEN && r.Ok? ==>
                Calm() && (r == Ok(Some([])) && chars != 0 ==> LastBlockUnpadded(keySet, total, delivered))
    {
      hide InputStream.Valid, InputStream.Clean, InputStream.Rest, InputStream.Measure, InputStream.Paused, InputStream.Ended,
           ParseHeader, Outcome,
           CbcDecrypt, LastBlockUnpadded, HeaderStage, VectorStage, BodyStage, Done;
      if closed {
        return Err(ClosedStream);
      }
      var started := Start();
      if started.Err? {
        return Err(started.error);
      }
      var available := started.value;
      if available {
        var more := DecryptMore();
        if more.Err? {
          return Err(more.error);
        }
        available := more.value;
      }
      var result := Deliver(chars);
      r := if result == [] && available then Ok(None) else Ok(Some(result));
    }

    method Close()
      modifies `closed
      ensures closed
    {
      closed := true;
    }
  }

  lemma HeaderShort(keys: KeySet, total: Bytes, held: Bytes, plain: Bytes)
    requires HeaderStage(total, [], held, plain) && |held| < HEADER_SIZE
    ensures Outcome(keys, total, Ok(plain))
  {
    assert total == held;
  }

  lemma VectorShort(keys: KeySet, total: Bytes, key: AesKey, signed: Bytes, held: Bytes, plain: Bytes)
    requires VectorStage(keys, total, [], key, signed, held, plain) && |held| < BLOCK_SIZE
    ensures Outcome(keys, total, Ok(plain))
  {
  }

  lemma UnPadShrinks(padded: Bytes)
    ensures UnPad(padded).Ok? ==> |UnPad(padded).value| <= |padded|
    ensures UnPad(padded).Err? <==> padded == []
  {
  }

  lemma BodyReceive(keys: KeySet, total: Bytes, rest: Bytes, key: AesKey, chain: Block, signed: Bytes, held: Bytes,
          plain: Bytes, bytes: Bytes)
    requires BodyStage(keys, total, bytes + rest, key, chain, signed, held, plain)
    ensures BodyStage(keys, total, rest, key, chain, signed, held + bytes, plain)
  {
    hide CbcDecrypt, ParseHeader;
    assert signed + held + (bytes + rest) == signed + (held + bytes) + rest;
  }

  lemma HeaderRejected(keys: KeySet, total: Bytes, e: CryptError)
    requires |total| >= HEADER_SIZE && ParseHeader(keys, total[..HEADER_SIZE]) == Err(e)
    ensures Outcome(keys, total, Err(e))
  {
  }

  lemma StartBody(keys: KeySet, total: Bytes, rest: Bytes, key: AesKey, header: Bytes, iv: Block, held: Bytes)
    requires VectorStage(keys, total, rest, key, header, iv + held, [])
    ensures BodyStage(keys, total, rest, key, iv, header + iv, held, [])
  {
    assert (header + iv)[HEADER_SIZE..PREAMBLE] == iv;
    assert header + (iv + held) == header + iv + held;
  }

  // ---------------------------------------------------------------- whole runs

  /** Everything that was read, or the error. */
  function Joined(r: Result<seq<Bytes>, CryptError>): Result<Bytes, CryptError> {
    match r
    case Ok(answers) => Ok(Flatten(answers))
    case Err(e) => Err(e)
  }

  /** Reads until the first empty answer, with any nonzero sizes. */
  method ReadAll(reader: DecryptingStreamReader, sizes: nat -> int) returns (r: Result<seq<Bytes>, CryptError>)
    requires reader.Valid() && reader.clean && !reader.closed && reader.delivered == []
    requires forall i :: sizes(i) != 0
    modifies reader, reader.input.Objects()
    ensures Outcome(reader.keySet, reader.total, Joined(r))
    ensures r == Err(BadVersionError) <==> |reader.total| >= 5 && reader.total[0] != 0
    ensures r == Err(KeyNotFoundError) <==>
              |reader.total| >= 5 && reader.total[0] == 0 && Base64.Encode(reader.total[1..5]) !in reader.keySet
    ensures old(reader.Calm()) && |reader.total| > PREAMBLE + HLEN && r.Ok? ==>
              LastBlockUnpadded(reader.keySet, reader.total, Flatten(r.value))
  {
    hide Outcome, InputStream.Valid, InputStream.Clean, InputStream.Rest, InputStream.Measure, InputStream.Objects,
         DecryptingStreamReader.Stage, DecryptingStreamReader.Calm, LastBlockUnpadded;
    var i, answers := 0, [];
    while true
      invariant reader.Valid() && !reader.closed && reader.delivered == Flatten(answers)
      invariant old(reader.Calm()) && |reader.total| > PREAMBLE + HLEN ==> reader.Calm()
      decreases reader.Measure()
    {
      var answer := reader.Read(sizes(i));
      if answer.Err? {
        StreamReports(reader.keySet, reader.total, Err(answer.error));
        return Err(answer.error);
      }
      if answer.value == Some([]) {
        assert Flatten(answers) + [] == Flatten(answers);
        StreamReports(reader.keySet, reader.total, Ok(reader.delivered));
        return Ok(answers);
      }
      FlattenSnoc(answers, answer.value.value);
      answers := answers + [answer.value.value];
      i := i + 1;
    }
  }

  /** When the last block alone is left for the end, the outcome is the one-shot one on comparable messages only. */
  lemma LastBlockAgrees(keys: KeySet, total: Bytes, r: Result<Bytes, CryptError>)
    requires Outcome(keys, total, r)
    requires |total| > PREAMBLE + HLEN && r.Ok? ==> LastBlockUnpadded(keys, total, r.value)
    ensures r == CrypterDecrypt(keys, total) <==> Comparable(keys, total)
  {
    StreamAgreesWithDecrypt(keys, total);
    hide CbcDecrypt, ParseHeader, UnPad, Unpadded, Aes.Decrypt;
    if !Comparable(keys, total) && |total| >= HEADER_SIZE {
      var key := ParseHeader(keys, total[..HEADER_SIZE]).value;
      if |total| <= PREAMBLE + HLEN {
        DecryptOfShort(key, total);
      } else {
        DecryptOfLong(key, total);
        if Aligned(Ciphertext(total)) && Authentic(key, total) {
          LastBlockDiffers(CbcDecrypt(key, total[HEADER_SIZE..PREAMBLE], Ciphertext(total)), r.value);
        }
      }
    }
  }

  lemma LastBlockDiffers(padded: Bytes, data: Bytes)
    requires Aligned(padded) && |padded| > BLOCK_SIZE && !WellPadded(padded)
    requires UnpaddedAt(padded, |padded| - BLOCK_SIZE, data)
    ensures UnPad(padded) != Ok(data)
  {
    assert |data| >= |padded| - BLOCK_SIZE > 0;
  }

  /**
   On every message there is a source with which the reader tells whether it agrees with the one-shot decryption:
   one that has all the bytes at hand and then pauses once before its end. With it the two agree exactly on
   comparable messages, whatever sizes are asked for.
   */
  method ReadPaused(keys: KeySet, total: Bytes, sizes: nat -> int) returns (r: Result<seq<Bytes>, CryptError>)
    requires forall i :: sizes(i) != 0
    ensures Joined(r) == CrypterDecrypt(keys, total) <==> Comparable(keys, total)
  {
    hide Outcome, Flatten, LastBlockUnpadded, Comparable, CrypterDecrypt;
    var schedule := if total == [] then [Nothing] else [Chunk(total), Nothing];
    PausedContent(total);
    var source := new Source(schedule);
    var reader := new DecryptingStreamReader(keys, Raw(source), -1);
    r := ReadAll(reader, sizes);
    LastBlockAgrees(keys, total, Joined(r));
  }

  lemma PausedContent(total: Bytes)
    ensures Content<Byte>([Nothing]) == [] && Content([Chunk(total), Nothing]) == total
  {
    assert Content<Byte>([Nothing]) == [];
    assert [Chunk(total), Nothing][1..] == [Nothing];
  }

  /** A message of at most 41 bytes with a known key, or without a header, is read as empty; in one shot it is an error. */
  lemma ShortStreamIsReadAsEmpty(keys: KeySet, total: Bytes, r: Result<Bytes, CryptError>)
    requires |total| <= PREAMBLE + HLEN
    requires |total| >= HEADER_SIZE ==> ParseHeader(keys, total[..HEADER_SIZE]).Ok?
    ensures Outcome(keys, total, r) <==> r == Ok([])
    ensures CrypterDecrypt(keys, total).Err?
  {
    hide ParseHeader, Aes.Decrypt;
    if |total| >= HEADER_SIZE {
      DecryptOfShort(ParseHeader(keys, total[..HEADER_SIZE]).value, total);
    }
  }

  /** So it happens: the header of any key of the keyset, alone, is read as the empty text. */
  method ReadHeaderAlone(keys: KeySet, key: AesKey, sizes: nat -> int) returns (answers: seq<Bytes>)
    requires key.HashId() in keys && keys[key.HashId()] == key
    requires forall i :: sizes(i) != 0
    ensures Flatten(answers) == [] && CrypterDecrypt(keys, key.Header()).Err?
  {
    hide Outcome, Flatten, LastBlockUnpadded, CrypterDecrypt, Content;
    key.HeaderIsVersionAndHash();
    var total := key.Header();
    assert total[..HEADER_SIZE] == total && total[1..] == key.hash;
    PausedContent(total);
    var source := new Source([Chunk(total), Nothing]);
    var reader := new DecryptingStreamReader(keys, Raw(source), -1);
    var r := ReadAll(reader, sizes);
    ShortStreamIsReadAsEmpty(keys, total, Joined(r));
    answers := r.value;
  }

  /** However the source cuts up an encrypted message, reading the stream to its end gives the plaintext. */
  method DecryptStream(keys: KeySet, key: AesKey, iv: Block, data: Bytes,
                       schedule: seq<Event<Byte>>, sizes: nat -> int) returns (answers: seq<Bytes>)
    requires key.Valid() && key.HashId() in keys && keys[key.HashId()] == key
    requires forall e :: e in schedule && e.Chunk? ==> e.data != []
    requires Content(schedule) == Encrypt(key, iv, data)
    requires forall i :: sizes(i) != 0
    ensures Flatten(answers) == data
  {
    hide Outcome, Encrypt, Content, Flatten;
    var source := new Source(schedule);
    var reader := new DecryptingStreamReader(keys, Raw(source), -1);
    var r := ReadAll(reader, sizes);
    EncryptedMessageIsRead(keys, key, iv, data, Joined(r));
    answers := r.value;
  }

  /** The same over the Base64 text of the message, read through the Base64 reader. */
  method DecryptTextStream(keys: KeySet, key: AesKey, iv: Block, data: Bytes,
                           schedule: seq<Event<char>>, sizes: nat -> int) returns (answers: seq<Bytes>)
    requires key.Valid() && key.HashId() in keys && keys[key.HashId()] == key
    requires forall e :: e in schedule && e.Chunk? ==> e.data != []
    requires Content(schedule) == Base64.Encode(Encrypt(key, iv, data))
    requires forall i :: sizes(i) != 0
    ensures Flatten(answers) == data
  {
    hide Outcome, Encrypt, Content, Flatten, Base64.Encode, Base64.DecodeLetters, Base64Stream.Decodable,
         Base64Stream.Dangling, Base64.AllLetters;
    EncodedTextIsClean(Encrypt(key, iv, data));
    var source := new Source(schedule);
    var decoder := new Base64Stream.StreamReader(source);
    var reader := new DecryptingStreamReader(keys, Decoded(decoder), -1);
    var r := ReadAll(reader, sizes);
    EncryptedMessageIsRead(keys, key, iv, data, Joined(r));
    answers := r.value;
  }

  lemma EncodedTextIsClean(bytes: Bytes)
    ensures Base64.AllLetters(Base64.Encode(bytes)) && !Base64Stream.Dangling(Base64.Encode(bytes))
    ensures [] + Base64Stream.Decodable(Base64.Encode(bytes)) == bytes
  {
    Base64.LettersRoundTrip(bytes);
  }
}
