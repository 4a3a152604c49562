/** Shared vocabulary: results, bytes, the bitwise operators and a few sequence facts. */
module Prelude {

  datatype Option<+T> = None | Some(value: T)

  datatype Result<+T, +E> = Ok(value: T) | Err(error: E)

  type Byte = x: int | 0 <= x < 256

  type Bytes = seq<Byte>

  // ---------------------------------------------------------------- bitwise operators

  /** Exclusive or of two natural numbers, bit by bit. */
  function Xor(a: nat, b: nat): nat {
    if a == 0 && b == 0 then 0 else (a + b) % 2 + 2 * Xor(a / 2, b / 2)
  }

  /** Inclusive or of two natural numbers, bit by bit. */
  function Or(a: nat, b: nat): nat {
    if a == 0 && b == 0 then 0
    else (if a % 2 == 0 && b % 2 == 0 then 0 else 1) + 2 * Or(a / 2, b / 2)
  }

  function Pow2(k: nat): nat {
    if k == 0 then 1 else 2 * Pow2(k - 1)
  }

  lemma {:induction false} XorBound(a: nat, b: nat, k: nat)
    requires a < Pow2(k) && b < Pow2(k)
    ensures Xor(a, b) < Pow2(k)
    decreases k
  {
    if a != 0 || b != 0 {
      XorBound(a / 2, b / 2, k - 1);
    }
  }

  function XorByte(a: Byte, b: Byte): Byte {
    XorBound(a, b, 8);
    assert Pow2(8) == 256 by { assert Pow2(4) == 16; }
    Xor(a, b)
  }

  lemma Digits(d: nat, h: nat)
    requires d < 2
    ensures (d + 2 * h) % 2 == d && (d + 2 * h) / 2 == h
  {
  }

  lemma XorStep(a: nat, b: nat)
    ensures Xor(a, b) == (a + b) % 2 + 2 * Xor(a / 2, b / 2)
  {
  }

  lemma LastDigit(a: nat, b: nat, h: nat)
    ensures ((a + b) % 2 + 2 * h + b) % 2 == a % 2 && ((a + b) % 2 + 2 * h) / 2 == h
  {
    Digits((a + b) % 2, h);
  }

  lemma Recompose(a: nat)
    ensures a == a % 2 + 2 * (a / 2)
  {
  }

  lemma {:induction false} XorCancels(a: nat, b: nat)
    ensures Xor(Xor(a, b), b) == a
    decreases a + b
  {
    if a != 0 || b != 0 {
      XorStep(a, b);
      XorStep(Xor(a, b), b);
      hide Xor;
      LastDigit(a, b, Xor(a / 2, b / 2));
      XorCancels(a / 2, b / 2);
      Recompose(a);
    }
  }

  lemma {:induction false} XorIsZero(a: nat, b: nat)
    ensures Xor(a, b) == 0 <==> a == b
    decreases a + b
  {
    if a != 0 || b != 0 {
      XorIsZero(a / 2, b / 2);
    }
  }

  lemma {:induction false} OrIsZero(a: nat, b: nat)
    ensures Or(a, b) == 0 <==> a == 0 && b == 0
    decreases a + b
  {
    if a != 0 || b != 0 {
      OrIsZero(a / 2, b / 2);
    }
  }

  /** A binary digit of a number, the last one first. */
  function BitOf(n: nat, i: nat): nat
    decreases i
  {
    if i == 0 then n % 2 else BitOf(n / 2, i - 1)
  }

  // both operators work digit by digit

  lemma {:induction false} XorByBits(a: nat, b: nat, i: nat)
    ensures BitOf(Xor(a, b), i) == if BitOf(a, i) == BitOf(b, i) then 0 else 1
    decreases i
  {
    XorStep(a, b);
    hide Xor;
    Digits((a + b) % 2, Xor(a / 2, b / 2));
    if i > 0 {
      XorByBits(a / 2, b / 2, i - 1);
    }
  }

  lemma {:induction false} OrByBits(a: nat, b: nat, i: nat)
    ensures BitOf(Or(a, b), i) == if BitOf(a, i) == 0 && BitOf(b, i) == 0 then 0 else 1
    decreases i
  {
    OrStep(a, b);
    hide Or;
    Digits(if a % 2 == 0 && b % 2 == 0 then 0 else 1, Or(a / 2, b / 2));
    if i > 0 {
      OrByBits(a / 2, b / 2, i - 1);
    }
  }

  lemma OrStep(a: nat, b: nat)
    ensures Or(a, b) == (if a % 2 == 0 && b % 2 == 0 then 0 else 1) + 2 * Or(a / 2, b / 2)
  {
  }

  /** Exclusive or of two equally long byte strings. */
  function XorBytes(a: Bytes, b: Bytes): (r: Bytes)
    requires |a| == |b|
    ensures |r| == |a|
  {
    seq(|a|, i requires 0 <= i < |a| => XorByte(a[i], b[i]))
  }

  lemma XorBytesCancels(a: Bytes, b: Bytes)
    requires |a| == |b|
    ensures XorBytes(XorBytes(a, b), b) == a
  {
    forall i | 0 <= i < |a| ensures XorBytes(XorBytes(a, b), b)[i] == a[i] {
      XorCancels(a[i], b[i]);
    }
  }

  // ---------------------------------------------------------------- sequences

  /** The elements of all the pieces, in order. */
  function Flatten<T>(pieces: seq<seq<T>>): seq<T> {
    if pieces == [] then [] else pieces[0] + Flatten(pieces[1..])
  }

  lemma {:induction false} FlattenAppend<T>(a: seq<seq<T>>, b: seq<seq<T>>)
    ensures Flatten(a + b) == Flatten(a) + Flatten(b)
  {
    if a == [] {
      assert a + b == b;
    } else {
      var rest := a[1..];
      FlattenAppend(rest, b);
      assert (a + b)[0] == a[0] && (a + b)[1..] == rest + b;
      assert Flatten(a + b) == a[0] + Flatten(rest + b) && Flatten(a) == a[0] + Flatten(rest);
      hide Flatten;
      Associates(a[0], Flatten(rest), Flatten(b));
    }
  }

  lemma FlattenSnoc<T>(a: seq<seq<T>>, x: seq<T>)
    ensures Flatten(a + [x]) == Flatten(a) + x
  {
    FlattenAppend(a, [x]);
    assert Flatten([x]) == x + Flatten([]);
  }

  lemma FlattenThen<T>(a: seq<seq<T>>, x: seq<T>, rest: seq<T>)
    ensures Flatten(a + [x]) + rest == Flatten(a) + (x + rest)
  {
    FlattenSnoc(a, x);
  }

  lemma MoveFront<T>(done: seq<T>, held: seq<T>, more: seq<T>, n: nat)
    requires n <= |held + more|
    ensures (done + (held + more)[..n]) + (held + more)[n..] == (done + held) + more
  {
  }

  lemma Associates<T>(a: seq<T>, b: seq<T>, c: seq<T>)
    ensures (a + b) + c == a + (b + c)
  {
  }

  lemma Cut<T>(s: seq<T>, i: nat, j: nat, k: nat)
    requires i <= j <= k <= |s|
    ensures s[..i] + s[i..j] + s[j..k] + s[k..] == s
  {
  }

  lemma TakeSnoc<T>(s: seq<T>, i: nat)
    requires i < |s|
    ensures s[..i] + [s[i]] == s[..i + 1]
  {
  }

  function Repeat<T>(x: T, n: nat): (r: seq<T>)
    ensures |r| == n && forall i :: 0 <= i < n ==> r[i] == x
  {
    seq(n, _ => x)
  }

  /** Python's s[:-n] for n >= 0; s[:-0] is the empty slice. */
  function DropLast<T>(s: seq<T>, n: nat): seq<T> {
    if n == 0 || n >= |s| then [] else s[..|s| - n]
  }

  /** Python's s[:n] for n >= 0. */
  function Take<T>(s: seq<T>, n: nat): seq<T> {
    if n <= |s| then s[..n] else s
  }

  /** Python's s[n:] for n >= 0. */
  function Skip<T>(s: seq<T>, n: nat): seq<T> {
    if n <= |s| then s[n..] else []
  }

  function Max(a: int, b: int): int {
    if a < b then b else a
  }

  function Min(a: int, b: int): int {
    if a < b then a else b
  }
}
