/** Length-prefixed packing of byte strings, and the framing of attached signatures. */
module Packing {
  import opened Prelude

  const TWO_31 := 0x8000_0000
  const TWO_32 := 0x1_0000_0000

  datatype PackError = StructError | AssertionError

  // ---------------------------------------------------------------- 32-bit integers

  /** The low 32 bits of a number in two's complement, the most significant byte first. */
  function IntToBytes(n: int): (r: Bytes)
    ensures |r| == 4
  {
    [n / 0x100_0000 % 256, n / 0x1_0000 % 256, n / 0x100 % 256, n % 256]
  }

  /** The signed number with the same low 32 bits. */
  function Wrap32(n: int): (r: int)
    ensures -TWO_31 <= r < TWO_31
    ensures -TWO_31 <= n < TWO_31 ==> r == n
    ensures (r - n) % TWO_32 == 0
  {
    (n + TWO_31) % TWO_32 - TWO_31
  }

  /** A number with one more byte at its end. */
  function Shift(n: int, b: Byte): int {
    n * 256 + b
  }

  /** Four bytes read as a number without sign. */
  function Unsigned(b: Bytes): (r: nat)
    requires |b| == 4
    ensures r < TWO_32
  {
    Shift(Shift(Shift(b[0], b[1]), b[2]), b[3])
  }

  /** Four bytes read in two's complement. */
  function BytesToInt(b: Bytes): (r: int)
    requires |b| == 4
    ensures -TWO_31 <= r < TWO_31
  {
    Wrap32(Unsigned(b))
  }

  lemma ShiftBack(n: int, b: Byte)
    ensures Shift(n, b) / 256 == n && Shift(n, b) % 256 == b
  {
  }

  lemma ShiftAgain(n: int)
    ensures Shift(n / 256, n % 256) == n
  {
  }

  /** The bytes of a number, one division at a time. */
  lemma Divisions(n: int)
    ensures n / 0x1_0000 == n / 0x100 / 256
    ensures n / 0x100_0000 == n / 0x1_0000 / 256
    ensures n / TWO_32 == n / 0x100_0000 / 256
  {
  }

  /** The last byte of a number, and the number before it, at each of its divisions. */
  lemma ShiftDivisions(n: int, b: Byte)
    ensures Shift(n, b) % 256 == b && Shift(n, b) / 0x100 == n
    ensures Shift(n, b) / 0x1_0000 == n / 0x100 && Shift(n, b) / 0x100_0000 == n / 0x1_0000
  {
    ShiftBack(n, b);
    Divisions(Shift(n, b));
    Divisions(n);
    hide Shift;
  }

  /** Reading four bytes and writing them again. */
  lemma UnsignedRoundTrip(b: Bytes)
    requires |b| == 4
    ensures IntToBytes(Unsigned(b)) == b
  {
    var n0: int := b[0];
    var n1, n2, n3 := Shift(n0, b[1]), Shift(Shift(n0, b[1]), b[2]), Shift(Shift(Shift(n0, b[1]), b[2]), b[3]);
    assert Unsigned(b) == n3;
    ShiftDivisions(n0, b[1]);
    ShiftDivisions(n1, b[2]);
    ShiftDivisions(n2, b[3]);
    hide Shift, Unsigned;
    assert n3 / 0x100_0000 % 256 == b[0] && n3 / 0x1_0000 % 256 == b[1];
    assert n3 / 0x100 % 256 == b[2] && n3 % 256 == b[3];
    FourBytes(b);
  }

  lemma FourBytes(b: Bytes)
    requires |b| == 4
    ensures b == [b[0], b[1], b[2], b[3]]
  {
  }

  lemma ShiftMonotone(n: int, m: int, k: int, b: Byte)
    requires n == m - k * 256
    ensures Shift(n, b) == Shift(m, b) - k * 0x1_0000
  {
  }

  /** Writing a number and reading it again gives its low 32 bits. */
  lemma WrittenUnsigned(n: int)
    ensures Unsigned(IntToBytes(n)) == n % TWO_32
  {
    Divisions(n);
    var q1, q2, q3 := n / 0x100, n / 0x1_0000, n / 0x100_0000;
    ShiftAgain(n);
    ShiftAgain(q1);
    ShiftAgain(q2);
    ShiftAgain(q3);
    hide Shift;
    var k := n / TWO_32;
    assert q3 % 256 == q3 - 256 * k;
    assert Shift(q3 % 256, q2 % 256) == q2 - 0x1_0000 * k by {
      ShiftMonotone(q3 % 256, q3, k, q2 % 256);
    }
    assert Shift(Shift(q3 % 256, q2 % 256), q1 % 256) == q1 - 0x100_0000 * k by {
      ShiftMonotone(Shift(q3 % 256, q2 % 256), q2, 256 * k, q1 % 256);
    }
    ShiftMonotone(Shift(Shift(q3 % 256, q2 % 256), q1 % 256), q1, 0x1_0000 * k, n % 256);
  }

  /** Numbers with the same low 32 bits are written the same. */
  lemma SameLowBits(n: int, m: int)
    requires n % TWO_32 == m % TWO_32
    ensures IntToBytes(n) == IntToBytes(m)
  {
    hide Unsigned, IntToBytes;
    UnsignedRoundTrip(IntToBytes(n));
    UnsignedRoundTrip(IntToBytes(m));
    WrittenUnsigned(n);
    WrittenUnsigned(m);
  }

  lemma WrapOfLowBits(n: int)
    ensures Wrap32(n % TWO_32) == Wrap32(n) && Wrap32(n) % TWO_32 == n % TWO_32
  {
  }

  /** Writing and reading are inverses; a number that does not fit comes back wrapped around. */
  lemma IntRoundTrip(n: int, b: Bytes)
    requires |b| == 4
    ensures BytesToInt(IntToBytes(n)) == Wrap32(n)
    ensures IntToBytes(BytesToInt(b)) == b
  {
    hide Unsigned, IntToBytes, Wrap32;
    WrittenUnsigned(n);
    WrapOfLowBits(n);
    UnsignedRoundTrip(b);
    WrapOfLowBits(Unsigned(b));
    SameLowBits(BytesToInt(b), Unsigned(b));
  }

  /** An arithmetic right shift by i bytes. */
  function ShiftRight(n: int, i: nat): int {
    if i == 0 then n else ShiftRight(n, i - 1) / 256
  }

  lemma ShiftRights(n: int)
    ensures ShiftRight(n, 0) == n && ShiftRight(n, 1) == n / 0x100
    ensures ShiftRight(n, 2) == n / 0x1_0000 && ShiftRight(n, 3) == n / 0x100_0000
  {
    Divisions(n);
    assert ShiftRight(n, 1) == ShiftRight(n, 0) / 256;
    assert ShiftRight(n, 2) == ShiftRight(n, 1) / 256;
    assert ShiftRight(n, 3) == ShiftRight(n, 2) / 256;
  }

  method Int32ToByteString(num: int) returns (r: Bytes)
    requires -TWO_31 <= num < TWO_31
    ensures r == IntToBytes(num)
    ensures BytesToInt(r) == num
  {
    var bytes := new Byte[4](_ => 0);
    ghost var written := IntToBytes(num);
    ShiftRights(num);
    assert written == [ShiftRight(num, 3) % 256, ShiftRight(num, 2) % 256, ShiftRight(num, 1) % 256, ShiftRight(num, 0) % 256];
    hide ShiftRight, IntToBytes;
    for i := 0 to 4
      invariant forall j :: 4 - i <= j < 4 ==> bytes[j] == written[j]
    {
      bytes[4 - i - 1] := ShiftRight(num, i) % 256;
    }
    r := bytes[..];
    IntRoundTrip(num, r);
  }

  /** The first n bytes read as a number without sign. */
  function Leading(b: Bytes, n: nat): nat
    requires n <= |b|
  {
    if n == 0 then 0 else Shift(Leading(b, n - 1), b[n - 1])
  }

  lemma LeadingIsUnsigned(b: Bytes)
    requires |b| == 4
    ensures Leading(b, 4) == Unsigned(b)
  {
    assert Leading(b, 1) == Shift(0, b[0]);
    assert Leading(b, 2) == Shift(Leading(b, 1), b[1]);
    assert Leading(b, 3) == Shift(Leading(b, 2), b[2]);
  }

  lemma WrapAdd(n: int, k: int)
    ensures Wrap32(n + k * TWO_32) == Wrap32(n)
  {
  }

  lemma WrapShift(n: int, m: int, b: Byte)
    requires n == Wrap32(m)
    ensures Wrap32(Shift(n, b)) == Wrap32(Shift(m, b))
  {
    var k := (n - m) / TWO_32;
    assert n == m + k * TWO_32;
    hide Wrap32;
    WrapAdd(Shift(m, b), 256 * k);
  }

  /** The number at an offset of a string, if there are four bytes; each step wraps around at 32 bits. */
  method ByteStringToInt32(str: Bytes, offset: nat) returns (r: Option<int>)
    ensures r == if offset + 4 > |str| then None else Some(BytesToInt(str[offset..offset + 4]))
  {
    if offset + 4 > |str| {
      return None;
    }
    var num := 0;
    ghost var b := str[offset..offset + 4];
    for i := 0 to 4
      invariant num == Wrap32(Leading(b, i))
    {
      WrapShift(num, Leading(b, i), b[i]);
      num := Wrap32(Shift(num, str[offset + i]));
    }
    LeadingIsUnsigned(b);
    return Some(num);
  }

  // ---------------------------------------------------------------- packing

  /** struct.pack of a number that has to fit. */
  function PackInt(n: int): Result<Bytes, PackError> {
    if -TWO_31 <= n < TWO_31 then Ok(IntToBytes(n)) else Err(StructError)
  }

  function PackByteArray(a: Option<Bytes>): Result<Bytes, PackError> {
    if a.None? then Ok([])
    else match PackInt(|a.value|)
         case Err(e) => Err(e)
         case Ok(head) => Ok(head + a.value)
  }

  /** The arrays, each of them packed, one after the other. */
  function PackAll(arrays: seq<Option<Bytes>>): Result<Bytes, PackError> {
    if arrays == [] then Ok([])
    else
      match PackByteArray(arrays[0])
      case Err(e) => Err(e)
      case Ok(first) =>
        match PackAll(arrays[1..])
        case Err(e) => Err(e)
        case Ok(rest) => Ok(first + rest)
  }

  function PackMultipleByteArrays(arrays: seq<Option<Bytes>>): Result<Bytes, PackError> {
    match PackInt(|arrays|)
    case Err(e) => Err(e)
    case Ok(head) =>
      match PackAll(arrays)
      case Err(e) => Err(e)
      case Ok(contents) => Ok(head + contents)
  }

  /** The arrays that are there. */
  function Given(arrays: seq<Option<Bytes>>): seq<Bytes> {
    if arrays == [] then []
    else if arrays[0].None? then Given(arrays[1..])
    else [arrays[0].value] + Given(arrays[1..])
  }

  /** Packing fails exactly when there are too many arrays or one is too long. */
  lemma {:induction false} PackAllFails(arrays: seq<Option<Bytes>>)
    ensures PackAll(arrays).Ok? <==> forall a :: a in arrays && a.Some? ==> |a.value| < TWO_31
  {
    hide IntToBytes;
    if arrays != [] {
      PackAllFails(arrays[1..]);
      assert arrays == [arrays[0]] + arrays[1..];
    }
  }

  function Wrapped(arrays: seq<Bytes>): (r: seq<Option<Bytes>>)
    ensures |r| == |arrays| && forall i :: 0 <= i < |r| ==> r[i] == Some(arrays[i])
  {
    seq(|arrays|, i requires 0 <= i < |arrays| => Some(arrays[i]))
  }

  /** The packing of a first array and some more. */
  lemma PackFirst(item: Bytes, rest: seq<Bytes>)
    ensures PackAll(Wrapped([item] + rest)).Ok? <==> |item| < TWO_31 && PackAll(Wrapped(rest)).Ok?
    ensures PackAll(Wrapped([item] + rest)).Ok? ==>
              PackAll(Wrapped([item] + rest)).value == IntToBytes(|item|) + item + PackAll(Wrapped(rest)).value
  {
    hide IntToBytes;
    var all := Wrapped([item] + rest);
    assert all[0] == Some(item) && all[1..] == Wrapped(rest);
  }

  lemma NothingPacked()
    ensures PackAll(Wrapped([])) == Ok([])
  {
  }

  // ---------------------------------------------------------------- the input of a hash over fields

  /** What PrefixHash feeds to the hash. */
  function PrefixInput(fields: seq<Bytes>): Bytes {
    if fields == [] then [] else IntToBytes(|fields[0]|) + fields[0] + PrefixInput(fields[1..])
  }

  lemma FirstFieldAgrees(f: Bytes, rest: Bytes, g: Bytes, rest': Bytes)
    requires |f| < TWO_32 && |g| < TWO_32
    requires IntToBytes(|f|) + f + rest == IntToBytes(|g|) + g + rest'
    ensures f == g && rest == rest'
  {
    WrittenUnsigned(|f|);
    WrittenUnsigned(|g|);
    hide IntToBytes, Unsigned;
    var all := IntToBytes(|f|) + f + rest;
    assert all[..4] == IntToBytes(|f|) && all[..4] == IntToBytes(|g|);
    assert |f| == |g|;
    assert all[4..4 + |f|] == f && all[4..4 + |f|] == g;
    assert all[4 + |f|..] == rest && all[4 + |f|..] == rest';
  }

  /** Different lists of fields give different inputs, so nothing can be moved from one field to another. */
  lemma {:induction false} PrefixInputIsInjective(a: seq<Bytes>, b: seq<Bytes>)
    requires forall f :: f in a + b ==> |f| < TWO_32
    requires PrefixInput(a) == PrefixInput(b)
    ensures a == b
    decreases |a|
  {
    hide IntToBytes;
    if a != [] && b != [] {
      var f, g := a[0], b[0];
      assert f in a + b && g in a + b;
      FirstFieldAgrees(f, PrefixInput(a[1..]), g, PrefixInput(b[1..]));
      assert forall h :: h in a[1..] + b[1..] ==> h in a + b;
      PrefixInputIsInjective(a[1..], b[1..]);
      assert a == [f] + a[1..] && b == [g] + b[1..];
    }
  }

  /** Fields of 2^32 bytes are beyond that: their length is written as 0, and zeros may be so many empty fields. */
  lemma LongFieldCollides()
    ensures PrefixInput([Repeat(0 as Byte, TWO_32)]) == PrefixInput(Repeat<Bytes>([], TWO_32 / 4 + 1))
  {
    var zeros: Bytes := Repeat(0 as Byte, TWO_32);
    EmptyFields(TWO_32 / 4 + 1);
    assert PrefixInput([zeros]) == IntToBytes(TWO_32) + zeros + PrefixInput([]);
    assert IntToBytes(TWO_32) == [0, 0, 0, 0];
    assert [0, 0, 0, 0] + zeros + [] == Repeat(0 as Byte, TWO_32 + 4);
  }

  lemma {:induction false} EmptyFields(n: nat)
    ensures PrefixInput(Repeat<Bytes>([], n)) == Repeat(0 as Byte, 4 * n)
  {
    if n > 0 {
      EmptyFields(n - 1);
      var fields: seq<Bytes> := Repeat([], n);
      assert fields[1..] == Repeat<Bytes>([], n - 1);
      assert IntToBytes(0) == [0, 0, 0, 0];
    }
  }

  // ---------------------------------------------------------------- comparing

  /** Compares without stopping at the first difference. */
  method SafeStringEquals(a: Bytes, b: Bytes) returns (equal: bool)
    ensures equal <==> a == b
  {
    if |a| != |b| {
      return false;
    }
    var result: nat := 0;
    for i := 0 to |a|
      invariant result == 0 <==> a[..i] == b[..i]
    {
      OrIsZero(result, Xor(a[i], b[i]));
      XorIsZero(a[i], b[i]);
      assert a[..i + 1] == a[..i] + [a[i]] && b[..i + 1] == b[..i] + [b[i]];
      result := Or(result, Xor(a[i], b[i]));
    }
    assert a[..|a|] == a && b[..|a|] == b;
    return result == 0;
  }

  // ---------------------------------------------------------------- attached signatures

  const HEADER_SIZE := 5
  const VERSION_BYTE: Byte := 0

  /** The text that is signed: the data, the hidden value with its length if there is one, and the version. */
  function MessageToSign(data: Bytes, hidden: Option<Bytes>): Bytes {
    data + (if hidden.Some? then IntToBytes(|hidden.value|) + hidden.value else []) + [VERSION_BYTE]
  }

  /** Among hidden values of the same length, the text determines the data and the hidden value. */
  lemma MessageDeterminesParts(data: Bytes, hidden: Bytes, data': Bytes, hidden': Bytes)
    requires |hidden| == |hidden'|
    ensures MessageToSign(data, Some(hidden)) == MessageToSign(data', Some(hidden')) <==> data == data' && hidden == hidden'
  {
    hide IntToBytes;
    var m, m' := MessageToSign(data, Some(hidden)), MessageToSign(data', Some(hidden'));
    if m == m' {
      var n, h := |data|, |hidden|;
      assert |m| == n + h + 5 && |m'| == |data'| + h + 5;
      assert m[..n] == data && m'[..n] == data';
      assert m[n + 4..n + 4 + h] == hidden && m'[n + 4..n + 4 + h] == hidden';
    }
  }

  /** With hidden values of different lengths, different parts can give the same text. */
  lemma LengthsMatter()
    ensures MessageToSign([], Some([0, 0, 0, 0])) == MessageToSign([0, 0, 0, 4], Some([]))
  {
    assert IntToBytes(4) == [0, 0, 0, 4] && IntToBytes(0) == [0, 0, 0, 0];
  }

  /** The data in front, then the length of the hidden value and the value if there is one, the version byte last. */
  predicate IsMessageToSign(data: Bytes, hidden: Option<Bytes>, m: Bytes) {
    && |m| > |data| && m[..|data|] == data && m[|m| - 1] == 0
    && match hidden
       case None => |m| == |data| + 1
       case Some(h) =>
         |m| == |data| + 4 + |h| + 1 && m[|data| + 4..|m| - 1] == h
         && IsNumber(m[|data|..|data| + 4], |h|)
  }

  /** Four bytes, the most significant first, that make the low 32 bits of a number. */
  predicate IsNumber(b: Bytes, n: int) {
    |b| == 4 && n % TWO_32 == b[0] as int * 0x100_0000 + b[1] as int * 0x1_0000 + b[2] as int * 0x100 + b[3] as int
  }

  lemma WrittenNumber(n: int)
    ensures IsNumber(IntToBytes(n), n)
  {
    WrittenUnsigned(n);
    hide IntToBytes;
    var b := IntToBytes(n);
    assert Unsigned(b) == b[0] as int * 0x100_0000 + b[1] as int * 0x1_0000 + b[2] as int * 0x100 + b[3] as int;
  }

  lemma MessageIs(data: Bytes, hidden: Option<Bytes>)
    ensures IsMessageToSign(data, hidden, MessageToSign(data, hidden))
  {
    if hidden.Some? {
      WrittenNumber(|hidden.value|);
      hide IntToBytes, IsNumber;
      var m := MessageToSign(data, hidden);
      var n := IntToBytes(|hidden.value|);
      assert m == data + (n + hidden.value) + [0];
      PartsOf(data, n, hidden.value, [0]);
    }
  }

  lemma PartsOf(a: Bytes, b: Bytes, c: Bytes, d: Bytes)
    ensures var m := a + (b + c) + d;
            m[..|a|] == a && m[|a|..|a| + |b|] == b && m[|a| + |b|..|m| - |d|] == c && m[|m| - |d|..] == d
  {
  }

  /** Packed texts in full: the number of all the arrays first, then each that is there with its length. */
  lemma PackOne(a: Option<Bytes>, rest: seq<Option<Bytes>>)
    requires PackAll(rest).Ok? && (a.Some? ==> |a.value| < TWO_31)
    ensures PackAll([a] + rest)
         == Ok((if a.Some? then IntToBytes(|a.value|) + a.value else []) + PackAll(rest).value)
  {
    hide IntToBytes;
    assert ([a] + rest)[0] == a && ([a] + rest)[1..] == rest;
  }

  /** Packed texts in full: the number of all the arrays first, then each that is there with its length. */
  lemma PackedInFull()
    ensures PackMultipleByteArrays([Some([7, 8]), None, Some([])]) == Ok([0, 0, 0, 3, 0, 0, 0, 2, 7, 8, 0, 0, 0, 0])
  {
    var one: seq<Option<Bytes>> := [Some([])];
    var two: seq<Option<Bytes>> := [None, Some([])];
    var three: seq<Option<Bytes>> := [Some([7, 8]), None, Some([])];
    assert IntToBytes(0) == [0, 0, 0, 0] && IntToBytes(2) == [0, 0, 0, 2] && IntToBytes(3) == [0, 0, 0, 3];
    assert PackAll([]) == Ok([]);
    hide IntToBytes, PackAll;
    var zero: Bytes := [0, 0, 0, 0];
    assert PackAll(one) == Ok(zero) by {
      PackOne(one[0], []);
      assert [one[0]] + [] == one && zero + [] + [] == zero;
    }
    assert PackAll(two) == Ok(zero) by {
      PackOne(two[0], one);
      assert [two[0]] + one == two && [] + zero == zero;
    }
    assert PackAll(three) == Ok([0, 0, 0, 2, 7, 8, 0, 0, 0, 0]) by {
      PackOne(three[0], two);
      assert [three[0]] + two == three;
      assert [0, 0, 0, 2] + [7, 8] + zero == [0, 0, 0, 2, 7, 8, 0, 0, 0, 0];
    }
    assert [0, 0, 0, 3] + [0, 0, 0, 2, 7, 8, 0, 0, 0, 0] == [0, 0, 0, 3, 0, 0, 0, 2, 7, 8, 0, 0, 0, 0];
  }

  /** What is fed to the hash in full: the length of each field and the field. */
  lemma FedInFull()
    ensures PrefixInput([[7, 8], []]) == [0, 0, 0, 2, 7, 8, 0, 0, 0, 0]
  {
    var f: seq<Bytes> := [[7, 8], []];
    assert f[1..] == [[]] && f[1..][1..] == [];
    assert PrefixInput([[]]) == [0, 0, 0, 0];
  }

  method BuildMessageToSign(data: Bytes, hidden: Option<Bytes>) returns (message: Bytes)
    ensures message == MessageToSign(data, hidden) && IsMessageToSign(data, hidden, message)
  {
    message := data;
    if hidden.Some? {
      message := message + IntToBytes(|hidden.value|);
      message := message + hidden.value;
    }
    message := message + [VERSION_BYTE];
    MessageIs(data, hidden);
    assert hidden.Some? ==> data + IntToBytes(|hidden.value|) + hidden.value == data + (IntToBytes(|hidden.value|) + hidden.value);
  }

  /** What AttachedSign puts together, before it is encoded. */
  function Frame(header: Bytes, data: Bytes, signature: Bytes): Bytes {
    header + IntToBytes(|data|) + data + signature
  }

  datatype Attached = Attached(header: Bytes, data: Bytes, signature: Bytes)

  /** C++'s substr for an offset inside the string; a negative count is taken for a huge one. */
  function Substr(s: Bytes, offset: nat, count: int): Bytes
    requires offset <= |s|
  {
    if count < 0 || offset + count > |s| then s[offset..] else s[offset..offset + count]
  }

  /** The sum of two 32-bit numbers as the size it is compared with. */
  function AsSize(n: int): nat {
    var w := Wrap32(n);
    if w >= 0 then w else w + TWO_32 * TWO_32
  }

  method ParseAttachedSignature(decoded: Bytes) returns (r: Option<Attached>)
    requires |decoded| < TWO_31 * TWO_32
    ensures r == Parsed(decoded)
  {
    var header := if |decoded| <= HEADER_SIZE then decoded else decoded[..HEADER_SIZE];
    var offset := HEADER_SIZE;
    var length := ByteStringToInt32(decoded, offset);
    if length.None? {
      return None;
    }
    offset := offset + 4;
    if |decoded| < AsSize(offset + length.value) {
      return None;
    }
    var data := Substr(decoded, offset, length.value);
    offset := offset + length.value;
    return Some(Attached(header, data, decoded[offset..]));
  }

  /** The greatest length of data whose end is still a 32-bit number. */
  const LONGEST := TWO_31 - 1 - HEADER_SIZE - 4

  /** What the parser makes of a text: a length from -9 to -1 takes it back into the header and is not rejected. */
  function Parsed(decoded: Bytes): Option<Attached> {
    if |decoded| < HEADER_SIZE + 4 then None
    else
      var length := BytesToInt(decoded[HEADER_SIZE..HEADER_SIZE + 4]);
      if 0 <= length <= LONGEST && length <= |decoded| - HEADER_SIZE - 4
      then Some(Attached(decoded[..HEADER_SIZE], decoded[9..9 + length], decoded[9 + length..]))
      else if -9 <= length < 0
      then Some(Attached(decoded[..HEADER_SIZE], decoded[9..], decoded[9 + length..]))
      else None
  }

  lemma FrameParts(header: Bytes, data: Bytes, signature: Bytes)
    requires |header| == HEADER_SIZE
    ensures var f := Frame(header, data, signature);
            && |f| == 9 + |data| + |signature| && f[..HEADER_SIZE] == header
            && BytesToInt(f[HEADER_SIZE..HEADER_SIZE + 4]) == Wrap32(|data|)
            && f[9..9 + |data|] == data && f[9 + |data|..] == signature
  {
    hide IntToBytes, BytesToInt, Wrap32;
    var f := Frame(header, data, signature);
    assert f[HEADER_SIZE..HEADER_SIZE + 4] == IntToBytes(|data|);
    IntRoundTrip(|data|, IntToBytes(|data|));
  }

  /**
   Parsing what AttachedSign framed gives the header, the data and the signature back, exactly when the data is
   short enough for its end to be a 32-bit number.
   */
  lemma ParsedInvertsFrame(header: Bytes, data: Bytes, signature: Bytes)
    requires |header| == HEADER_SIZE
    ensures Parsed(Frame(header, data, signature)) == Some(Attached(header, data, signature)) <==> |data| <= LONGEST
  {
    FrameParts(header, data, signature);
    hide Frame, BytesToInt;
    var f := Frame(header, data, signature);
    var length := Wrap32(|data|);
    if |data| > LONGEST && -9 <= length < 0 {
      assert |f[9 + length..]| > |signature|;
    }
  }

  /** What is parsed is the frame of its parts exactly when the length in it is not negative. */
  lemma ParsedIsFrame(decoded: Bytes)
    requires Parsed(decoded).Some?
    ensures var a := Parsed(decoded).value;
            Frame(a.header, a.data, a.signature) == decoded <==> BytesToInt(decoded[HEADER_SIZE..HEADER_SIZE + 4]) >= 0
  {
    var head := decoded[HEADER_SIZE..HEADER_SIZE + 4];
    var n := BytesToInt(head);
    IntRoundTrip(n, head);
    hide BytesToInt, IntToBytes, Wrap32;
    var a := Parsed(decoded).value;
    if n >= 0 {
      assert Parsed(decoded) == Some(Attached(decoded[..HEADER_SIZE], decoded[9..9 + n], decoded[9 + n..]));
      hide Parsed;
      assert |decoded[9..9 + n]| == n;
      Cut(decoded, HEADER_SIZE, 9, 9 + n);
    } else {
      assert |a.data| == |decoded| - 9 && |a.signature| == |decoded| - 9 - n;
      assert |Frame(a.header, a.data, a.signature)| > |decoded|;
    }
  }

  /** A text with the length -1 that is parsed: its last byte is taken for the signature and for part of the length. */
  lemma NegativeLengthIsParsed()
    ensures Parsed([0, 0, 0, 0, 0, 255, 255, 255, 255]) == Some(Attached([0, 0, 0, 0, 0], [], [255]))
    ensures Frame([0, 0, 0, 0, 0], [], [255]) != [0, 0, 0, 0, 0, 255, 255, 255, 255]
  {
    var text: Bytes := [0, 0, 0, 0, 0, 255, 255, 255, 255];
    assert text[5..9] == [255, 255, 255, 255] && BytesToInt([255, 255, 255, 255]) == -1;
    assert text[..5] == [0, 0, 0, 0, 0] && text[9..] == [] && text[8..] == [255];
    assert |Frame([0, 0, 0, 0, 0], [], [255])| == 10;
  }

  /** Which texts are parsed: those with room for header and length, and with a length that ends in the text. */
  lemma ParsedWhen(decoded: Bytes)
    ensures Parsed(decoded).Some? <==>
              |decoded| >= 9
              && var n := BytesToInt(decoded[5..9]); -9 <= n <= |decoded| - 9 && n + 9 < TWO_31
    ensures Parsed(decoded).Some? ==>
              var n := BytesToInt(decoded[5..9]);
              && Parsed(decoded).value.header == decoded[..5] && Parsed(decoded).value.signature == decoded[9 + n..]
              && Parsed(decoded).value.data == if n < 0 then decoded[9..] else decoded[9..9 + n]
  {
    hide BytesToInt;
  }
}
