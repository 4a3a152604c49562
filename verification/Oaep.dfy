/** OAEP as the RSA keys of the Python library do it, with SHA-1 as a parameter. */
module Oaep {
  import opened Prelude
  import opened Packing

  const HLEN := 20
  const LABEL_LIMIT := 0x2000_0000_0000_0000
  const MASK_LIMIT := 0x1_0000_0000 * HLEN

  datatype OaepError =
    | LabelTooLong
    | MessageTooLong
    | MaskTooLong
    | TooSmall(length: nat)
    | WrongLabel
    | MissingOne
    | IndexError

  /** A hash with digests of 20 bytes. */
  ghost predicate IsHash(hash: Bytes -> Bytes) {
    forall input :: |hash(input)| == HLEN
  }

  // ---------------------------------------------------------------- byte strings

  function PadBytes(s: Bytes, n: nat): Bytes {
    Repeat(0 as Byte, n) + s
  }

  /** The shorter string is padded in front with zeros. */
  function PaddedXor(a: Bytes, b: Bytes): Bytes {
    var m := Max(|a|, |b|);
    XorBytes(PadBytes(a, m - |a|), PadBytes(b, m - |b|))
  }

  lemma PaddedXorSameLength(a: Bytes, b: Bytes)
    requires |a| == |b|
    ensures PaddedXor(a, b) == XorBytes(a, b)
  {
    assert PadBytes(a, 0) == a && PadBytes(b, 0) == b;
  }

  lemma PaddedXorCancels(a: Bytes, b: Bytes)
    requires |a| == |b|
    ensures |PaddedXor(a, b)| == |a| && PaddedXor(PaddedXor(a, b), b) == a
  {
    PaddedXorSameLength(a, b);
    PaddedXorSameLength(XorBytes(a, b), b);
    XorBytesCancels(a, b);
  }

  /** The byte that stands so many places before the end, zero in front of the string. */
  function FromEnd(s: Bytes, i: nat): Byte {
    if i < |s| then s[|s| - 1 - i] else 0
  }

  /** The exclusive or of strings of any lengths, aligned at their ends. */
  lemma PaddedXorByBytes(a: Bytes, b: Bytes, i: nat)
    requires i < Max(|a|, |b|)
    ensures |PaddedXor(a, b)| == Max(|a|, |b|) && FromEnd(PaddedXor(a, b), i) == XorByte(FromEnd(a, i), FromEnd(b, i))
  {
    var m := Max(|a|, |b|);
    assert FromEnd(a, i) == PadBytes(a, m - |a|)[m - 1 - i];
    assert FromEnd(b, i) == PadBytes(b, m - |b|)[m - 1 - i];
  }

  /** lstrip of zero bytes, which is also what the RSA primitive does to its result. */
  function Strip(s: Bytes): (r: Bytes)
    ensures |r| <= |s| && s == Repeat(0 as Byte, |s| - |r|) + r
    ensures r != [] ==> r[0] != 0
  {
    if s == [] || s[0] != 0 then s else Strip(s[1..])
  }

  lemma {:induction false} StripZeros(n: nat, s: Bytes)
    requires s != [] ==> s[0] != 0
    ensures Strip(Repeat(0 as Byte, n) + s) == s
  {
    if n == 0 {
      assert Repeat(0 as Byte, 0) + s == s;
    } else {
      assert (Repeat(0 as Byte, n) + s)[1..] == Repeat(0 as Byte, n - 1) + s;
      StripZeros(n - 1, s);
    }
  }

  // ---------------------------------------------------------------- the mask

  function Blocks(hash: Bytes -> Bytes, seed: Bytes, n: nat): Bytes {
    if n == 0 then [] else Blocks(hash, seed, n - 1) + hash(seed + IntToBytes(n - 1))
  }

  /** The number of digests that are needed for this many bytes. */
  function BlockCount(length: nat): nat {
    (length + HLEN - 1) / HLEN
  }

  function Mask(hash: Bytes -> Bytes, seed: Bytes, length: nat): Bytes {
    Take(Blocks(hash, seed, BlockCount(length)), length)
  }

  lemma {:induction false} BlocksLength(hash: Bytes -> Bytes, seed: Bytes, n: nat)
    requires IsHash(hash)
    ensures |Blocks(hash, seed, n)| == n * HLEN
  {
    if n > 0 {
      BlocksLength(hash, seed, n - 1);
    }
  }

  /** The mask has exactly the length that is asked for. */
  lemma MaskLength(hash: Bytes -> Bytes, seed: Bytes, length: nat)
    requires IsHash(hash)
    ensures |Mask(hash, seed, length)| == length
  {
    BlocksLength(hash, seed, BlockCount(length));
  }

  /**
   The mask of section B.2.1 of RFC 3447, byte by byte: each comes from the hash of the seed and of a counter of four
   bytes, the most significant first, that says how many digests came before.
   */
  ghost predicate IsMaskByte(hash: Bytes -> Bytes, seed: Bytes, i: nat, b: Byte)
    requires IsHash(hash)
  {
    forall c: Bytes :: Counts(c, i / 20) ==> b == hash(seed + c)[i % 20]
  }

  /** Four bytes, the most significant first, that make a number. */
  predicate Counts(c: Bytes, n: nat) {
    |c| == 4 && n == c[0] as int * 0x100_0000 + c[1] as int * 0x1_0000 + c[2] as int * 0x100 + c[3] as int
  }

  lemma CountsIs(c: Bytes, n: nat)
    requires Counts(c, n)
    ensures IntToBytes(n) == c
  {
    UnsignedRoundTrip(c);
    assert Unsigned(c) == n;
  }

  ghost predicate IsMask(hash: Bytes -> Bytes, seed: Bytes, mask: Bytes)
    requires IsHash(hash)
  {
    forall i :: 0 <= i < |mask| ==> IsMaskByte(hash, seed, i, mask[i])
  }

  lemma {:induction false} BlocksAt(hash: Bytes -> Bytes, seed: Bytes, n: nat, i: nat)
    requires IsHash(hash) && i < 20 * n
    ensures |Blocks(hash, seed, n)| == 20 * n && Blocks(hash, seed, n)[i] == hash(seed + IntToBytes(i / 20))[i % 20]
    decreases n
  {
    BlocksLength(hash, seed, n);
    BlocksLength(hash, seed, n - 1);
    hide IntToBytes;
    if i < 20 * (n - 1) {
      BlocksAt(hash, seed, n - 1, i);
    } else {
      assert i / 20 == n - 1;
    }
  }

  lemma MaskIsMask(hash: Bytes -> Bytes, seed: Bytes, length: nat)
    requires IsHash(hash)
    ensures |Mask(hash, seed, length)| == length && IsMask(hash, seed, Mask(hash, seed, length))
  {
    MaskLength(hash, seed, length);
    var mask := Mask(hash, seed, length);
    forall i | 0 <= i < |mask| ensures IsMaskByte(hash, seed, i, mask[i]) {
      BlocksAt(hash, seed, BlockCount(length), i);
      assert mask[i] == Blocks(hash, seed, BlockCount(length))[i];
      CountedByte(hash, seed, i, mask[i]);
    }
  }

  lemma CountedByte(hash: Bytes -> Bytes, seed: Bytes, i: nat, b: Byte)
    requires IsHash(hash) && b == hash(seed + IntToBytes(i / 20))[i % 20]
    ensures IsMaskByte(hash, seed, i, b)
  {
    hide IntToBytes, Counts;
    forall c: Bytes | Counts(c, i / 20) ensures b == hash(seed + c)[i % 20] {
      CountsIs(c, i / 20);
    }
  }

  method MGF(hash: Bytes -> Bytes, seed: Bytes, length: nat) returns (r: Result<Bytes, OaepError>)
    requires IsHash(hash)
    ensures r == if length > MASK_LIMIT then Err(MaskTooLong) else Ok(Mask(hash, seed, length))
    ensures r.Ok? ==> |r.value| == length && IsMask(hash, seed, r.value)
  {
    if length > MASK_LIMIT {
      return Err(MaskTooLong);
    }
    var output: Bytes := [];
    for i := 0 to BlockCount(length)
      invariant output == Blocks(hash, seed, i)
    {
      output := output + hash(seed + IntToBytes(i));
    }
    MaskIsMask(hash, seed, length);
    return Ok(Take(output, length));
  }

  // ---------------------------------------------------------------- encoding and decoding

  /** What is masked: the hash of the label, zeros, a one and the message. */
  function DataBlock(hash: Bytes -> Bytes, msg: Bytes, tag: Bytes, zeros: nat): Bytes {
    hash(tag) + Repeat(0 as Byte, zeros) + [1] + msg
  }

  /** Encodes a message for a modulus of k bytes with a seed. */
  function Encode(hash: Bytes -> Bytes, msg: Bytes, tag: Bytes, seed: Bytes, k: nat): Result<Bytes, OaepError> {
    if |tag| >= LABEL_LIMIT then Err(LabelTooLong)
    else if |msg| > k - 2 * HLEN - 2 then Err(MessageTooLong)
    else if k - HLEN - 1 > MASK_LIMIT then Err(MaskTooLong)
    else
      var block := DataBlock(hash, msg, tag, k - |msg| - 2 * HLEN - 2);
      var maskedBlock := PaddedXor(block, Mask(hash, seed, k - HLEN - 1));
      var maskedSeed := PaddedXor(seed, Mask(hash, maskedBlock, HLEN));
      Ok([0] + maskedSeed + maskedBlock)
  }

  /** The zeros that the primitive stripped put back, but for the first byte. */
  function Restore(encoded: Bytes, k: nat): Bytes {
    var missing := k - |encoded|;
    if missing > 1 then Repeat(0 as Byte, missing - 1) + encoded else encoded
  }

  /** The seed and the data block of an encoded message without its first byte. */
  function Unmask(hash: Bytes -> Bytes, encoded: Bytes): (Bytes, Bytes) {
    var maskedBlock := Skip(encoded, HLEN);
    var seed := PaddedXor(Take(encoded, HLEN), Mask(hash, maskedBlock, HLEN));
    (seed, PaddedXor(maskedBlock, Mask(hash, seed, |maskedBlock|)))
  }

  function Decode(hash: Bytes -> Bytes, encoded: Bytes, tag: Bytes, k: nat): Result<Bytes, OaepError> {
    if |tag| >= LABEL_LIMIT then Err(LabelTooLong)
    else if |encoded| < 2 * HLEN + 2 then Err(TooSmall(|encoded|))
    else
      var restored := Restore(encoded, k);
      if |restored| - HLEN > MASK_LIMIT then Err(MaskTooLong)
      else
        var block := Unmask(hash, restored).1;
        if Take(block, HLEN) != hash(tag) then Err(WrongLabel)
        else
          var delimited := Strip(Skip(block, HLEN));
          if delimited == [] then Err(IndexError)
          else if delimited[0] != 1 then Err(MissingOne)
          else Ok(delimited[1..])
  }

  // ---------------------------------------------------------------- decoding inverts encoding

  lemma EncodedParts(hash: Bytes -> Bytes, msg: Bytes, tag: Bytes, seed: Bytes, k: nat)
    requires IsHash(hash) && |seed| == HLEN && Encode(hash, msg, tag, seed, k).Ok?
    ensures var em := Encode(hash, msg, tag, seed, k).value;
            && |em| == k && em[0] == 0
            && Unmask(hash, em[1..]) == (seed, DataBlock(hash, msg, tag, k - |msg| - 2 * HLEN - 2))
  {
    hide Mask, PaddedXor;
    var em := Encode(hash, msg, tag, seed, k).value;
    var block := DataBlock(hash, msg, tag, k - |msg| - 2 * HLEN - 2);
    assert |block| == k - HLEN - 1;
    var blockMask := Mask(hash, seed, k - HLEN - 1);
    MaskLength(hash, seed, k - HLEN - 1);
    PaddedXorCancels(block, blockMask);
    var maskedBlock := PaddedXor(block, blockMask);
    var seedMask := Mask(hash, maskedBlock, HLEN);
    MaskLength(hash, maskedBlock, HLEN);
    PaddedXorCancels(seed, seedMask);
    var maskedSeed := PaddedXor(seed, seedMask);
    assert em[1..] == maskedSeed + maskedBlock;
    assert Take(em[1..], HLEN) == maskedSeed && Skip(em[1..], HLEN) == maskedBlock;
  }

  lemma BlockDecodes(hash: Bytes -> Bytes, msg: Bytes, tag: Bytes, zeros: nat)
    requires IsHash(hash)
    ensures var block := DataBlock(hash, msg, tag, zeros);
            && Take(block, HLEN) == hash(tag)
            && Strip(Skip(block, HLEN)) == [1] + msg
  {
    var block := DataBlock(hash, msg, tag, zeros);
    assert Skip(block, HLEN) == Repeat(0 as Byte, zeros) + ([1] + msg);
    StripZeros(zeros, [1] + msg);
  }

  lemma RestoreStripped(em: Bytes)
    requires em != [] && em[0] == 0 && Strip(em) != []
    ensures Restore(Strip(em), |em|) == em[1..] && |Strip(em)| < |em|
  {
    var r := Strip(em);
    var z := |em| - |r|;
    assert r[0] != 0 && em[z..] == r;
    assert z != 0;
    assert em[1..] == Repeat(0 as Byte, z - 1) + r;
    if z == 1 {
      assert em[1..] == r;
    }
  }

  /**
   Decoding what the primitive makes of an encoded message gives the message back exactly when the stripped text
   still has the least length; otherwise it is rejected. The length is checked before the zeros are restored.
   */
  lemma DecodeInvertsEncode(hash: Bytes -> Bytes, msg: Bytes, tag: Bytes, seed: Bytes, k: nat)
    requires IsHash(hash) && |seed| == HLEN && Encode(hash, msg, tag, seed, k).Ok?
    ensures var stripped := Strip(Encode(hash, msg, tag, seed, k).value);
            Decode(hash, stripped, tag, k) == if |stripped| >= 2 * HLEN + 2 then Ok(msg) else Err(TooSmall(|stripped|))
  {
    EncodedParts(hash, msg, tag, seed, k);
    var em := Encode(hash, msg, tag, seed, k).value;
    hide Encode, Unmask, Strip, DataBlock, Restore;
    if |Strip(em)| >= 2 * HLEN + 2 {
      assert Encode(hash, msg, tag, seed, k).Ok?;
      ShortMask(hash, msg, tag, seed, k);
      RestoreStripped(em);
      BlockDecodes(hash, msg, tag, k - |msg| - 2 * HLEN - 2);
      assert ([1] + msg)[1..] == msg;
    }
  }

  lemma ShortMask(hash: Bytes -> Bytes, msg: Bytes, tag: Bytes, seed: Bytes, k: nat)
    requires Encode(hash, msg, tag, seed, k).Ok?
    ensures |tag| < LABEL_LIMIT && 2 * HLEN + 2 + |msg| <= k && k - HLEN - 1 <= MASK_LIMIT
  {
  }

  /** A modulus of 42 bytes has room for the empty message, which can then never be decoded. */
  lemma SmallestModulusFails(hash: Bytes -> Bytes, tag: Bytes, seed: Bytes)
    requires IsHash(hash) && |seed| == HLEN && |tag| < LABEL_LIMIT
    ensures Encode(hash, [], tag, seed, 2 * HLEN + 2).Ok?
    ensures Decode(hash, Strip(Encode(hash, [], tag, seed, 2 * HLEN + 2).value), tag, 2 * HLEN + 2).Err?
  {
    EncodedParts(hash, [], tag, seed, 2 * HLEN + 2);
    DecodeInvertsEncode(hash, [], tag, seed, 2 * HLEN + 2);
    var em := Encode(hash, [], tag, seed, 2 * HLEN + 2).value;
    hide Encode, Decode;
    if Strip(em) != [] {
      RestoreStripped(em);
    }
  }

  /** A seed that gives an encoded message. */
  function SeedOf(hash: Bytes -> Bytes, encoded: Bytes, k: nat): Bytes {
    Unmask(hash, Restore(encoded, k)).0
  }

  lemma UnmaskInverts(hash: Bytes -> Bytes, restored: Bytes)
    requires IsHash(hash) && |restored| >= HLEN
    ensures var (seed, block) := Unmask(hash, restored);
            && |seed| == HLEN && |block| == |restored| - HLEN
            && var maskedBlock := PaddedXor(block, Mask(hash, seed, |block|));
               PaddedXor(seed, Mask(hash, maskedBlock, HLEN)) + maskedBlock == restored
  {
    hide Mask, PaddedXor;
    var maskedSeed, maskedBlock := Take(restored, HLEN), Skip(restored, HLEN);
    MaskLength(hash, maskedBlock, HLEN);
    PaddedXorCancels(maskedSeed, Mask(hash, maskedBlock, HLEN));
    var seed := PaddedXor(maskedSeed, Mask(hash, maskedBlock, HLEN));
    MaskLength(hash, seed, |maskedBlock|);
    PaddedXorCancels(maskedBlock, Mask(hash, seed, |maskedBlock|));
  }

  lemma AcceptedBlock(hash: Bytes -> Bytes, block: Bytes, tag: Bytes, msg: Bytes)
    requires IsHash(hash) && |block| >= HLEN && Take(block, HLEN) == hash(tag) && Strip(Skip(block, HLEN)) == [1] + msg
    ensures |block| >= HLEN + 1 + |msg| && block == DataBlock(hash, msg, tag, |block| - HLEN - 1 - |msg|)
  {
    assert block == Take(block, HLEN) + Skip(block, HLEN);
    var rest := Skip(block, HLEN);
    var zeros := Repeat(0 as Byte, |rest| - 1 - |msg|);
    assert rest == zeros + ([1] + msg);
    hide Strip;
    Associates(hash(tag), zeros, [1] + msg);
    Associates(hash(tag) + zeros, [1], msg);
  }

  /** What an accepted text satisfies. */
  lemma AcceptedMeans(hash: Bytes -> Bytes, encoded: Bytes, tag: Bytes, k: nat)
    requires Decode(hash, encoded, tag, k).Ok?
    ensures |tag| < LABEL_LIMIT && |encoded| >= 2 * HLEN + 2
    ensures var restored := Restore(encoded, k);
            var block := Unmask(hash, restored).1;
            && |restored| - HLEN <= MASK_LIMIT && Take(block, HLEN) == hash(tag)
            && Strip(Skip(block, HLEN)) == [1] + Decode(hash, encoded, tag, k).value
  {
    hide Unmask, Restore, Strip;
    var delimited := Strip(Skip(Unmask(hash, Restore(encoded, k)).1, HLEN));
    assert delimited == [delimited[0]] + delimited[1..];
  }

  lemma RestoredLength(encoded: Bytes, k: nat)
    requires |encoded| < k
    ensures [0] + Restore(encoded, k) == Repeat(0 as Byte, k - |encoded|) + encoded
  {
    var restored := Restore(encoded, k);
    assert |restored| == k - 1;
  }

  /** Nothing is decoded but encoded messages: what is accepted is the encoding of the result with some seed. */
  lemma OnlyEncodingsDecode(hash: Bytes -> Bytes, encoded: Bytes, tag: Bytes, k: nat)
    requires IsHash(hash) && |encoded| < k && Decode(hash, encoded, tag, k).Ok?
    ensures |SeedOf(hash, encoded, k)| == HLEN
    ensures Encode(hash, Decode(hash, encoded, tag, k).value, tag, SeedOf(hash, encoded, k), k)
         == Ok(Repeat(0 as Byte, k - |encoded|) + encoded)
  {
    AcceptedMeans(hash, encoded, tag, k);
    RestoredLength(encoded, k);
    var restored := Restore(encoded, k);
    assert |restored| == k - 1;
    var msg := Decode(hash, encoded, tag, k).value;
    hide Decode, Restore;
    EncodesBack(hash, msg, tag, restored, k);
  }

  /** A text whose data block is that of a message is the encoding of the message with the seed that it hides. */
  lemma EncodesBlock(hash: Bytes -> Bytes, msg: Bytes, tag: Bytes, seed: Bytes, block: Bytes, restored: Bytes, k: nat)
    requires |tag| < LABEL_LIMIT && |block| == k - HLEN - 1 <= MASK_LIMIT && |block| >= HLEN + 1 + |msg|
    requires block == DataBlock(hash, msg, tag, |block| - HLEN - 1 - |msg|)
    requires var maskedBlock := PaddedXor(block, Mask(hash, seed, |block|));
             PaddedXor(seed, Mask(hash, maskedBlock, HLEN)) + maskedBlock == restored
    ensures Encode(hash, msg, tag, seed, k) == Ok([0] + restored)
  {
    hide Mask, PaddedXor, DataBlock;
    EncodeIs(hash, msg, tag, seed, k);
    var maskedBlock := PaddedXor(block, Mask(hash, seed, |block|));
    Associates([0], PaddedXor(seed, Mask(hash, maskedBlock, HLEN)), maskedBlock);
  }

  lemma EncodesBack(hash: Bytes -> Bytes, msg: Bytes, tag: Bytes, restored: Bytes, k: nat)
    requires IsHash(hash) && |tag| < LABEL_LIMIT && HLEN <= |restored| == k - 1 && k - HLEN - 1 <= MASK_LIMIT
    requires var block := Unmask(hash, restored).1;
             Take(block, HLEN) == hash(tag) && Strip(Skip(block, HLEN)) == [1] + msg && |restored| >= 2 * HLEN
    ensures |Unmask(hash, restored).0| == HLEN
    ensures Encode(hash, msg, tag, Unmask(hash, restored).0, k) == Ok([0] + restored)
  {
    hide Mask, PaddedXor, Unmask, Strip, DataBlock, Encode, Take, Skip, IsHash;
    UnmaskInverts(hash, restored);
    AcceptedBlock(hash, Unmask(hash, restored).1, tag, msg);
    EncodesBlock(hash, msg, tag, Unmask(hash, restored).0, Unmask(hash, restored).1, restored, k);
  }

  lemma EncodeIs(hash: Bytes -> Bytes, msg: Bytes, tag: Bytes, seed: Bytes, k: nat)
    requires |tag| < LABEL_LIMIT && 2 * HLEN + 2 + |msg| <= k && k - HLEN - 1 <= MASK_LIMIT
    ensures var block := DataBlock(hash, msg, tag, k - |msg| - 2 * HLEN - 2);
            var maskedBlock := PaddedXor(block, Mask(hash, seed, k - HLEN - 1));
            Encode(hash, msg, tag, seed, k) == Ok([0] + PaddedXor(seed, Mask(hash, maskedBlock, HLEN)) + maskedBlock)
  {
  }

  // ---------------------------------------------------------------- encoded messages byte by byte

  /** The hash of the label, zeros, a one and the message. */
  predicate IsDataBlock(hash: Bytes -> Bytes, msg: Bytes, tag: Bytes, block: Bytes) {
    && |block| >= |msg| + 21 && |hash(tag)| == 20
    && block[..20] == hash(tag) && block[|block| - |msg|..] == msg && block[|block| - |msg| - 1] == 1
    && forall i :: 20 <= i < |block| - |msg| - 1 ==> block[i] == 0
  }

  lemma DataBlockIs(hash: Bytes -> Bytes, msg: Bytes, tag: Bytes, zeros: nat)
    requires IsHash(hash)
    ensures IsDataBlock(hash, msg, tag, DataBlock(hash, msg, tag, zeros)) && |DataBlock(hash, msg, tag, zeros)| == 21 + zeros + |msg|
  {
  }

  /**
   The encoding of section 7.1.1 of RFC 3447: a zero byte, the seed masked by what follows it, and the data block
   masked by the seed.
   */
  lemma EncodedByBytes(hash: Bytes -> Bytes, msg: Bytes, tag: Bytes, seed: Bytes, k: nat)
      returns (block: Bytes, blockMask: Bytes, seedMask: Bytes)
    requires IsHash(hash) && |seed| == 20 && Encode(hash, msg, tag, seed, k).Ok?
    ensures var em := Encode(hash, msg, tag, seed, k).value;
            && |em| == k && k >= 42 + |msg| && em[0] == 0
            && |seedMask| == 20 && IsMask(hash, em[21..], seedMask)
            && |blockMask| == |block| == k - 21 && IsMask(hash, seed, blockMask)
            && IsDataBlock(hash, msg, tag, block)
            && em[1..21] == XorBytes(seed, seedMask) && em[21..] == XorBytes(block, blockMask)
  {
    ShortMask(hash, msg, tag, seed, k);
    block := DataBlock(hash, msg, tag, k - |msg| - 42);
    DataBlockIs(hash, msg, tag, k - |msg| - 42);
    blockMask := Mask(hash, seed, k - 21);
    MaskIsMask(hash, seed, k - 21);
    PaddedXorSameLength(block, blockMask);
    var maskedBlock := XorBytes(block, blockMask);
    seedMask := Mask(hash, maskedBlock, 20);
    MaskIsMask(hash, maskedBlock, 20);
    PaddedXorSameLength(seed, seedMask);
    EncodeIs(hash, msg, tag, seed, k);
    hide Encode, Mask, PaddedXor, XorBytes, DataBlock, IsMask, IsDataBlock, IsHash;
    var maskedSeed := XorBytes(seed, seedMask);
    var em := Encode(hash, msg, tag, seed, k).value;
    assert em == [0] + maskedSeed + maskedBlock;
    assert em[1..21] == maskedSeed && em[21..] == maskedBlock;
  }

  /** When encoding fails, and with which error. */
  lemma EncodeReports(hash: Bytes -> Bytes, msg: Bytes, tag: Bytes, seed: Bytes, k: nat)
    ensures var r := Encode(hash, msg, tag, seed, k);
            && (r == Err(LabelTooLong) <==> |tag| >= 0x2000_0000_0000_0000)
            && (r == Err(MessageTooLong) <==> |tag| < 0x2000_0000_0000_0000 && |msg| + 42 > k)
            && (r == Err(MaskTooLong) <==>
                  |tag| < 0x2000_0000_0000_0000 && |msg| + 42 <= k && k - 21 > 0x1_0000_0000 * 20)
            && (r.Err? ==> r.error in {LabelTooLong, MessageTooLong, MaskTooLong})
  {
    hide Mask, PaddedXor, DataBlock;
  }

  // ---------------------------------------------------------------- texts as long as the modulus

  /** The text is the encoding of the message, but for zeros in front that the primitive stripped. */
  ghost predicate IsEncodingOf(hash: Bytes -> Bytes, encoded: Bytes, msg: Bytes, tag: Bytes, k: nat) {
    exists seed: Bytes :: |seed| == HLEN
      && Encode(hash, msg, tag, seed, k) == Ok(Repeat(0 as Byte, Max(0, k - |encoded|)) + encoded)
  }

  /**
   What the primitive returns has no zero in front. Of such texts that are accepted, exactly those shorter than the
   modulus are encodings of what they decode to: the first byte of a text as long as the modulus, which should be
   zero, is never looked at.
   */
  lemma AcceptedIsEncodingIfShort(hash: Bytes -> Bytes, encoded: Bytes, tag: Bytes, k: nat)
    requires IsHash(hash) && Strip(encoded) == encoded && Decode(hash, encoded, tag, k).Ok?
    ensures IsEncodingOf(hash, encoded, Decode(hash, encoded, tag, k).value, tag, k) <==> |encoded| < k
  {
    var msg := Decode(hash, encoded, tag, k).value;
    if |encoded| < k {
      OnlyEncodingsDecode(hash, encoded, tag, k);
      hide Encode, Decode, Strip;
      var seed := SeedOf(hash, encoded, k);
      assert Encode(hash, msg, tag, seed, k) == Ok(Repeat(0 as Byte, Max(0, k - |encoded|)) + encoded);
    } else {
      AcceptedMeans(hash, encoded, tag, k);
      LongIsNoEncoding(hash, encoded, msg, tag, k);
    }
  }

  /** A text without a zero in front that is as long as the modulus encodes no message at all. */
  lemma LongIsNoEncoding(hash: Bytes -> Bytes, encoded: Bytes, msg: Bytes, tag: Bytes, k: nat)
    requires IsHash(hash) && encoded != [] && Strip(encoded) == encoded && |encoded| >= k
    ensures !IsEncodingOf(hash, encoded, msg, tag, k)
  {
    forall seed: Bytes | |seed| == HLEN
      ensures Encode(hash, msg, tag, seed, k) != Ok(Repeat(0 as Byte, Max(0, k - |encoded|)) + encoded)
    {
      if Encode(hash, msg, tag, seed, k).Ok? {
        EncodedParts(hash, msg, tag, seed, k);
        hide Encode;
        assert (Repeat(0 as Byte, 0) + encoded)[0] == encoded[0];
      }
    }
  }

  lemma DecodesBlock(hash: Bytes -> Bytes, text: Bytes, msg: Bytes, tag: Bytes, k: nat)
    requires |tag| < LABEL_LIMIT && |text| == k >= 2 * HLEN + 2 && k - HLEN <= MASK_LIMIT
    requires var block := Unmask(hash, text).1; Take(block, HLEN) == hash(tag) && Strip(Skip(block, HLEN)) == [1] + msg
    ensures Decode(hash, text, tag, k) == Ok(msg)
  {
    hide Unmask, Strip, Take, Skip;
    assert ([1] + msg)[1..] == msg;
  }

  /** What the decoder finds in the encoding for a modulus one byte longer, without its zero. */
  lemma LongerBlock(hash: Bytes -> Bytes, msg: Bytes, tag: Bytes, seed: Bytes, k: nat)
    requires IsHash(hash) && |seed| == HLEN && Encode(hash, msg, tag, seed, k + 1).Ok?
    ensures var text := Encode(hash, msg, tag, seed, k + 1).value;
            |text| == k + 1 && Take(Unmask(hash, text[1..]).1, HLEN) == hash(tag)
            && Strip(Skip(Unmask(hash, text[1..]).1, HLEN)) == [1] + msg
  {
    EncodedParts(hash, msg, tag, seed, k + 1);
    ShortMask(hash, msg, tag, seed, k + 1);
    BlockDecodes(hash, msg, tag, k + 1 - |msg| - 2 * HLEN - 2);
    hide *;
  }

  /** The encoding for a modulus one byte longer, without its zero, is accepted as it stands. */
  lemma LongerEncodingIsAccepted(hash: Bytes -> Bytes, msg: Bytes, tag: Bytes, seed: Bytes, k: nat)
    requires IsHash(hash) && |seed| == HLEN && Encode(hash, msg, tag, seed, k + 1).Ok? && |msg| <= k - 2 * HLEN - 2
    ensures var text := Encode(hash, msg, tag, seed, k + 1).value[1..];
            |text| == k && Decode(hash, text, tag, k) == Ok(msg)
  {
    LongerBlock(hash, msg, tag, seed, k);
    ShortMask(hash, msg, tag, seed, k + 1);
    hide Encode, Unmask, Strip, Take, Skip, Decode, IsHash;
    DecodesBlock(hash, Encode(hash, msg, tag, seed, k + 1).value[1..], msg, tag, k);
  }

  /** Such a text: with a hash of zeros and a seed that starts with a one, the primitive can return it. */
  lemma AcceptedAndNoEncoding()
    ensures var hash: Bytes -> Bytes := _ => Repeat(0 as Byte, HLEN);
            var seed := [1] + Repeat(0 as Byte, HLEN - 1);
            && Encode(hash, [], [], seed, 43).Ok?
            && var text := Encode(hash, [], [], seed, 43).value[1..];
               && Strip(text) == text && Decode(hash, text, [], 42) == Ok([])
               && !IsEncodingOf(hash, text, [], [], 42)
  {
    var hash: Bytes -> Bytes := _ => Repeat(0 as Byte, HLEN);
    var seed: Bytes := [1] + Repeat(0 as Byte, HLEN - 1);
    assert IsHash(hash);
    LongerEncodingIsAccepted(hash, [], [], seed, 42);
    SeedStaysInFront(hash, seed);
    var text := Encode(hash, [], [], seed, 43).value[1..];
    LongIsNoEncoding(hash, text, [], [], 42);
  }

  /** With a hash of zeros the seed is not masked. */
  lemma SeedStaysInFront(hash: Bytes -> Bytes, seed: Bytes)
    requires (forall x :: hash(x) == Repeat(0 as Byte, HLEN)) && |seed| == HLEN && seed[0] == 1
    ensures Encode(hash, [], [], seed, 43).Ok? && Encode(hash, [], [], seed, 43).value != []
    ensures Encode(hash, [], [], seed, 43).value[1..] != [] && Encode(hash, [], [], seed, 43).value[1..][0] == 1
  {
    assert IsHash(hash);
    EncodedParts(hash, [], [], seed, 43);
    var maskedBlock := PaddedXor(DataBlock(hash, [], [], 1), Mask(hash, seed, 22));
    var mask := Mask(hash, maskedBlock, HLEN);
    assert Blocks(hash, maskedBlock, 1) == Blocks(hash, maskedBlock, 0) + hash(maskedBlock + IntToBytes(0));
    assert mask == Repeat(0 as Byte, HLEN);
    PaddedXorSameLength(seed, mask);
    assert Xor(1, 0) == 1 + 2 * Xor(0, 0);
    assert XorBytes(seed, mask)[0] == XorByte(seed[0], mask[0]) == 1;
  }

  /** Which texts are rejected before or without unmasking. */
  lemma DecodeLimits(hash: Bytes -> Bytes, encoded: Bytes, tag: Bytes, k: nat)
    ensures var r := Decode(hash, encoded, tag, k);
            var restored := |Restore(encoded, k)|;
            && (r == Err(LabelTooLong) <==> |tag| >= LABEL_LIMIT)
            && (r == Err(TooSmall(|encoded|)) <==> |tag| < LABEL_LIMIT && |encoded| < 42)
            && (r == Err(MaskTooLong) <==> |tag| < LABEL_LIMIT && |encoded| >= 42 && restored - 20 > MASK_LIMIT)
  {
    hide Unmask, Restore, Strip;
  }

  /** Where the label and the delimiter are looked for otherwise. */
  lemma DecodeCases(hash: Bytes -> Bytes, encoded: Bytes, tag: Bytes, k: nat)
    requires |tag| < LABEL_LIMIT && |encoded| >= 42 && |Restore(encoded, k)| - 20 <= MASK_LIMIT
    ensures var block := Unmask(hash, Restore(encoded, k)).1;
            var d := Strip(Skip(block, 20));
            Decode(hash, encoded, tag, k) ==
            if Take(block, 20) != hash(tag) then Err(WrongLabel)
            else if d == [] then Err(IndexError)
            else if d[0] != 1 then Err(MissingOne)
            else Ok(d[1..])
  {
    hide Unmask, Restore, Strip;
  }

  /** Which texts are rejected for their data block, and what the others are decoded as. */
  lemma DecodeReports(hash: Bytes -> Bytes, encoded: Bytes, tag: Bytes, k: nat)
    requires IsHash(hash) && |tag| < LABEL_LIMIT && |encoded| >= 42 && |Restore(encoded, k)| - 20 <= MASK_LIMIT
    ensures var r, block := Decode(hash, encoded, tag, k), Unmask(hash, Restore(encoded, k)).1;
            && |block| == |Restore(encoded, k)| - 20 >= 20
            && (block[..20] != hash(tag) <==> r == Err(WrongLabel))
            && (block[..20] == hash(tag) && AllZeros(block, 20, |block|) <==> r == Err(IndexError))
            && forall i :: 20 <= i < |block| && AllZeros(block, 20, i) && block[i] != 0 && block[..20] == hash(tag) ==>
                 r == if block[i] == 1 then Ok(block[i + 1..]) else Err(MissingOne)
  {
    hide Unmask, Restore, Strip, Decode, AllZeros, Skip, Take;
    LongEnough(encoded, k);
    UnmaskInverts(hash, Restore(encoded, k));
    DecodeCases(hash, encoded, tag, k);
    var block := Unmask(hash, Restore(encoded, k)).1;
    TakeIs(block);
    DelimiterFound(block);
    var d := Strip(Skip(block, 20));
    if d != [] {
      assert block[|block| - |d|..][0] == d[0] && block[|block| - |d|..][1..] == block[|block| - |d| + 1..];
    }
  }

  lemma LongEnough(encoded: Bytes, k: nat)
    ensures |Restore(encoded, k)| >= |encoded|
  {
  }

  lemma TakeIs(block: Bytes)
    requires |block| >= 20
    ensures Take(block, 20) == block[..20]
  {
  }

  ghost predicate AllZeros(block: Bytes, from: nat, to: nat) {
    forall i :: from <= i < to && i < |block| ==> block[i] == 0
  }

  /** What stripping the zeros after the label leaves starts at the first byte that is none. */
  lemma DelimiterFound(block: Bytes)
    requires |block| >= 20
    ensures var d := Strip(Skip(block, 20));
            && (d == [] <==> AllZeros(block, 20, |block|))
            && (d != [] ==> 20 <= |block| - |d| && d == block[|block| - |d|..] && AllZeros(block, 20, |block| - |d|) && d[0] != 0)
            && (forall i :: 20 <= i < |block| && AllZeros(block, 20, i) && block[i] != 0 ==> i == |block| - |d|)
  {
    var rest := Skip(block, 20);
    var d := Strip(rest);
    var zeros := Repeat(0 as Byte, |rest| - |d|);
    assert forall i :: 20 <= i < |block| ==> block[i] == rest[i - 20];
    assert forall i :: 0 <= i < |zeros| ==> zeros[i] == 0;
    assert forall i :: 0 <= i < |zeros| ==> rest[i] == zeros[i];
    assert rest[|zeros|..] == d;
    hide Strip;
    assert block[|block| - |d|..] == rest[|zeros|..];
  }
}
