/**
 One-shot encryption: PKCS5 padding, cipher block chaining (section 6.2 of NIST SP 800-38A)
 over an abstract block cipher, and an appended signature.
 */
module Aes {
  import opened Prelude
  import Base64

  const BLOCK_SIZE: nat := 16
  const HLEN: nat := 20
  const KEY_HASH_SIZE: nat := 4
  const HEADER_SIZE: nat := 5
  const VERSION: Byte := 0

  type Block = b: Bytes | |b| == BLOCK_SIZE witness Repeat(0, BLOCK_SIZE)
  type Digest = b: Bytes | |b| == HLEN witness Repeat(0, HLEN)
  type KeyHash = b: Bytes | |b| == KEY_HASH_SIZE witness Repeat(0, KEY_HASH_SIZE)

  datatype CryptError =
    | ShortCiphertextError
    | InvalidSignatureError
    | BadVersionError
    | KeyNotFoundError
    | UnalignedCiphertext
    | EmptyPlaintext
    | UndecodableText
    | ClosedStream

  /** A key: the two directions of its block cipher, its signing function and its hash identifier. */
  datatype AesKey = AesKey(hash: KeyHash, enc: Block -> Block, dec: Block -> Block, mac: Bytes -> Digest) {

    /** The one law asked of the block cipher. */
    ghost predicate Valid() {
      forall b: Block :: dec(enc(b)) == b
    }

    function HashId(): string {
      Base64.Encode(hash)
    }

    function Header(): (h: Bytes) {
      [VERSION] + match Base64.Decode(HashId())
                  case Ok(bytes) => bytes
                  case Err(_) => []
    }

    lemma HeaderIsVersionAndHash()
      ensures Header() == [VERSION] + hash && |Header()| == HEADER_SIZE
    {
      Base64.DecodeInvertsEncode(hash);
    }
  }

  // ---------------------------------------------------------------- cipher block chaining

  predicate Aligned(data: Bytes) {
    |data| % BLOCK_SIZE == 0
  }

  function CbcEncrypt(k: AesKey, chain: Block, data: Bytes): (r: Bytes)
    requires Aligned(data)
    ensures |r| == |data|
    decreases |data|
  {
    if data == [] then []
    else
      var c := k.enc(XorBytes(data[..BLOCK_SIZE], chain));
      c + CbcEncrypt(k, c, data[BLOCK_SIZE..])
  }

  function CbcDecrypt(k: AesKey, chain: Block, data: Bytes): (r: Bytes)
    requires Aligned(data)
    ensures |r| == |data|
    decreases |data|
  {
    if data == [] then []
    else
      var c := data[..BLOCK_SIZE];
      XorBytes(k.dec(c), chain) + CbcDecrypt(k, c, data[BLOCK_SIZE..])
  }

  /** The chaining value after some ciphertext has gone through the cipher. */
  function NextChain(chain: Block, ciphertext: Bytes): Block
    requires Aligned(ciphertext)
  {
    if ciphertext == [] then chain else ciphertext[|ciphertext| - BLOCK_SIZE..]
  }

  lemma {:induction false} NextChainStep(chain: Block, ciphertext: Bytes)
    requires Aligned(ciphertext) && ciphertext != []
    ensures NextChain(chain, ciphertext) == NextChain(ciphertext[..BLOCK_SIZE], ciphertext[BLOCK_SIZE..])
  {
  }

  lemma NextChainAppend(chain: Block, a: Bytes, b: Bytes)
    requires Aligned(a) && Aligned(b)
    ensures Aligned(a + b)
    ensures NextChain(chain, a + b) == NextChain(NextChain(chain, a), b)
  {
    if b == [] {
      assert a + b == a;
    }
  }

  /** A cipher that has encrypted a continues on b as if both had been given at once. */
  lemma {:induction false} CbcEncryptAppend(k: AesKey, chain: Block, a: Bytes, b: Bytes)
    requires Aligned(a) && Aligned(b)
    ensures Aligned(a + b)
    ensures CbcEncrypt(k, chain, a + b)
         == CbcEncrypt(k, chain, a) + CbcEncrypt(k, NextChain(chain, CbcEncrypt(k, chain, a)), b)
    decreases |a|
  {
    if a == [] {
      assert a + b == b;
    } else {
      var a' := a[BLOCK_SIZE..];
      var c := k.enc(XorBytes(a[..BLOCK_SIZE], chain));
      assert (a + b)[..BLOCK_SIZE] == a[..BLOCK_SIZE];
      assert (a + b)[BLOCK_SIZE..] == a' + b;
      CbcEncryptAppend(k, c, a', b);
      var e := CbcEncrypt(k, chain, a);
      assert e[..BLOCK_SIZE] == c && e[BLOCK_SIZE..] == CbcEncrypt(k, c, a');
      NextChainStep(chain, e);
    }
  }

  lemma {:induction false} CbcDecryptAppend(k: AesKey, chain: Block, a: Bytes, b: Bytes)
    requires Aligned(a) && Aligned(b)
    ensures Aligned(a + b)
    ensures CbcDecrypt(k, chain, a + b) == CbcDecrypt(k, chain, a) + CbcDecrypt(k, NextChain(chain, a), b)
    decreases |a|
  {
    if a == [] {
      assert a + b == b;
    } else {
      var a' := a[BLOCK_SIZE..];
      assert (a + b)[..BLOCK_SIZE] == a[..BLOCK_SIZE];
      assert (a + b)[BLOCK_SIZE..] == a' + b;
      CbcDecryptAppend(k, a[..BLOCK_SIZE], a', b);
      NextChainStep(chain, a);
    }
  }

  lemma {:induction false} CbcDecryptInverts(k: AesKey, chain: Block, data: Bytes)
    requires k.Valid() && Aligned(data)
    ensures CbcDecrypt(k, chain, CbcEncrypt(k, chain, data)) == data
    decreases |data|
  {
    if data != [] {
      var x := XorBytes(data[..BLOCK_SIZE], chain);
      var c := k.enc(x);
      var e := CbcEncrypt(k, chain, data);
      assert e[..BLOCK_SIZE] == c && e[BLOCK_SIZE..] == CbcEncrypt(k, c, data[BLOCK_SIZE..]);
      CbcDecryptInverts(k, c, data[BLOCK_SIZE..]);
      XorBytesCancels(data[..BLOCK_SIZE], chain);
      assert data == data[..BLOCK_SIZE] + data[BLOCK_SIZE..];
    }
  }

  function BlockAt(data: Bytes, i: nat): Block
    requires 16 * i + 16 <= |data|
  {
    data[16 * i..16 * i + 16]
  }

  lemma BlockAfter(first: Block, rest: Bytes, i: nat)
    requires i > 0 && 16 * i + 16 <= 16 + |rest|
    ensures BlockAt(first + rest, i) == BlockAt(rest, i - 1) && BlockAt(first + rest, 0) == first
  {
  }

  /** Every block of ciphertext is the block cipher applied to the plaintext block and the block of ciphertext before it. */
  lemma {:induction false} CbcEncryptBlock(k: AesKey, chain: Block, data: Bytes, i: nat)
    requires Aligned(data) && 16 * i + 16 <= |data|
    ensures var c := CbcEncrypt(k, chain, data);
            BlockAt(c, i) == k.enc(XorBytes(BlockAt(data, i), if i == 0 then chain else BlockAt(c, i - 1)))
    decreases i
  {
    var first: Block, rest := data[..BLOCK_SIZE], data[BLOCK_SIZE..];
    var c: Block := k.enc(XorBytes(first, chain));
    var cs := CbcEncrypt(k, c, rest);
    assert CbcEncrypt(k, chain, data) == c + cs && data == first + rest;
    hide CbcEncrypt, XorBytes;
    if i == 0 {
      assert (c + cs)[..16] == c;
    } else {
      CbcEncryptBlock(k, c, rest, i - 1);
      BlockAfter(first, rest, i);
      BlockAfter(c, cs, i);
      if i > 1 {
        BlockAfter(c, cs, i - 1);
      }
    }
  }

  /** Every block of plaintext is that, undone. */
  lemma {:induction false} CbcDecryptBlock(k: AesKey, chain: Block, data: Bytes, i: nat)
    requires Aligned(data) && 16 * i + 16 <= |data|
    ensures BlockAt(CbcDecrypt(k, chain, data), i)
         == XorBytes(k.dec(BlockAt(data, i)), if i == 0 then chain else BlockAt(data, i - 1))
    decreases i
  {
    var first: Block, rest := data[..BLOCK_SIZE], data[BLOCK_SIZE..];
    var x: Block := XorBytes(k.dec(first), chain);
    var xs := CbcDecrypt(k, first, rest);
    assert CbcDecrypt(k, chain, data) == x + xs && data == first + rest;
    hide CbcDecrypt, XorBytes;
    if i == 0 {
      assert (x + xs)[..16] == x;
    } else {
      CbcDecryptBlock(k, first, rest, i - 1);
      BlockAfter(first, rest, i);
      BlockAfter(x, xs, i);
      if i > 1 {
        BlockAfter(first, rest, i - 1);
      }
    }
  }

  // ---------------------------------------------------------------- padding

  function Pad(data: Bytes): (r: Bytes)
    ensures Aligned(r) && |data| < |r| <= |data| + BLOCK_SIZE
  {
    var pad := BLOCK_SIZE - |data| % BLOCK_SIZE;
    data + Repeat(pad, pad)
  }

  function UnPad(padded: Bytes): Result<Bytes, CryptError> {
    if padded == [] then Err(EmptyPlaintext)
    else Ok(DropLast(padded, padded[|padded| - 1]))
  }

  lemma UnPadInvertsPad(data: Bytes)
    ensures UnPad(Pad(data)) == Ok(data)
  {
    var pad := BLOCK_SIZE - |data| % BLOCK_SIZE;
    if |data| == 0 {
      assert data == [];
    } else {
      assert Pad(data)[..|data|] == data;
    }
  }

  lemma PadAppend(a: Bytes, b: Bytes)
    requires Aligned(a)
    ensures Pad(a + b) == a + Pad(b)
  {
    assert |a + b| % BLOCK_SIZE == |b| % BLOCK_SIZE;
  }

  /** A buffer size that needs no padding, one block at least. */
  function NoPadBufferSize(bufferSize: nat): (r: nat)
    ensures r % BLOCK_SIZE == 0 && BLOCK_SIZE <= r
    ensures bufferSize < r + BLOCK_SIZE && (bufferSize < r ==> r == BLOCK_SIZE)
  {
    Max(BLOCK_SIZE * (bufferSize / BLOCK_SIZE), BLOCK_SIZE)
  }

  // ---------------------------------------------------------------- signatures

  /** The comparison that visits every byte: true exactly for equal strings. */
  method VerifySignedData(macBytes: Bytes, sigBytes: Bytes) returns (ok: bool)
    ensures ok <==> macBytes == sigBytes
  {
    if |sigBytes| != |macBytes| {
      return false;
    }
    var result: nat := 0;
    for i := 0 to |macBytes|
      invariant result == 0 <==> macBytes[..i] == sigBytes[..i]
    {
      XorIsZero(macBytes[i], sigBytes[i]);
      OrIsZero(result, Xor(macBytes[i], sigBytes[i]));
      assert macBytes[..i + 1] == macBytes[..i] + [macBytes[i]];
      assert sigBytes[..i + 1] == sigBytes[..i] + [sigBytes[i]];
      result := Or(result, Xor(macBytes[i], sigBytes[i]));
    }
    assert macBytes[..|macBytes|] == macBytes && sigBytes[..|macBytes|] == sigBytes;
    ok := result == 0;
  }

  // ---------------------------------------------------------------- messages

  /** Header, initialization vector and ciphertext, then the signature over all three. */
  function Encrypt(k: AesKey, iv: Block, data: Bytes): Bytes {
    var msg := k.Header() + iv + CbcEncrypt(k, iv, Pad(data));
    msg + k.mac(msg)
  }

  function Decrypt(k: AesKey, input: Bytes): Result<Bytes, CryptError> {
    var dataBytes := Skip(input, HEADER_SIZE);
    if |dataBytes| < BLOCK_SIZE + HLEN then Err(ShortCiphertextError)
    else
      var iv := dataBytes[..BLOCK_SIZE];
      var ciph := dataBytes[BLOCK_SIZE..|dataBytes| - HLEN];
      var sig := dataBytes[|dataBytes| - HLEN..];
      if k.mac(input[..|input| - HLEN]) != sig then Err(InvalidSignatureError)
      else if !Aligned(ciph) then Err(UnalignedCiphertext)
      else UnPad(CbcDecrypt(k, iv, ciph))
  }

  /** The data, and up to sixteen bytes that all say how many they are. */
  predicate IsPadded(padded: Bytes, data: Bytes) {
    && |data| < |padded| <= |data| + 16 && |padded| % 16 == 0
    && padded[..|data|] == data
    && forall i :: |data| <= i < |padded| ==> padded[i] == |padded| - |data|
  }

  /**
   What a message is, in bytes: a version byte 0, four bytes of key hash, sixteen bytes of initialization vector,
   the padded data in cipher block chaining, and the signature of all this in twenty bytes.
   */
  predicate IsMessage(k: AesKey, iv: Block, data: Bytes, m: Bytes) {
    && |m| >= 41 && (|m| - 41) % 16 == 0
    && m[0] == 0 && m[1..5] == k.hash && m[5..21] == iv
    && IsPadded(CbcDecrypt(k, iv, m[21..|m| - 20]), data)
    && m[|m| - 20..] == k.mac(m[..|m| - 20])
  }

  lemma PadIsPadded(data: Bytes)
    ensures IsPadded(Pad(data), data)
  {
  }

  /** Encryption makes such a message, for every key, vector and data. */
  lemma EncryptionIsMessage(k: AesKey, iv: Block, data: Bytes)
    requires k.Valid()
    ensures IsMessage(k, iv, data, Encrypt(k, iv, data))
  {
    k.HeaderIsVersionAndHash();
    PadIsPadded(data);
    CbcDecryptInverts(k, iv, Pad(data));
    var ciph := CbcEncrypt(k, iv, Pad(data));
    var msg := k.Header() + iv + ciph;
    var m := Encrypt(k, iv, data);
    assert m == msg + k.mac(msg);
    hide CbcEncrypt, CbcDecrypt, Pad, IsPadded, Encrypt, AesKey.Header, AesKey.Valid;
    assert m[21..|m| - 20] == ciph && m[..|m| - 20] == msg && m[5..21] == iv;
  }

  /** Decrypting an encrypted message gives the message back, for every plaintext and vector. */
  lemma DecryptInvertsEncrypt(k: AesKey, iv: Block, data: Bytes)
    requires k.Valid()
    ensures Decrypt(k, Encrypt(k, iv, data)) == Ok(data)
  {
    k.HeaderIsVersionAndHash();
    var ciph := CbcEncrypt(k, iv, Pad(data));
    var msg := k.Header() + iv + ciph;
    var input := Encrypt(k, iv, data);
    var dataBytes := input[HEADER_SIZE..];
    assert input[..|input| - HLEN] == msg;
    assert dataBytes == iv + ciph + k.mac(msg);
    assert dataBytes[..BLOCK_SIZE] == iv;
    assert dataBytes[BLOCK_SIZE..|dataBytes| - HLEN] == ciph;
    assert dataBytes[|dataBytes| - HLEN..] == k.mac(msg);
    CbcDecryptInverts(k, iv, Pad(data));
    UnPadInvertsPad(data);
  }
}
