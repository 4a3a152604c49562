/** Unpacking byte arrays as the Python library does it, with its slices and whatever lengths a text contains. */
module Unpacking {
  import opened Prelude
  import opened Packing

  /** The place that a position means in a Python slice: a negative one counts from the end, and all are cut off. */
  function Place(s: Bytes, i: int): (r: nat)
    ensures r <= |s| && (0 <= i <= |s| ==> r == i)
  {
    if i < 0 then Max(0, i + |s|) else Min(i, |s|)
  }

  /** Python's s[i:j]. */
  function Slice(s: Bytes, i: int, j: int): Bytes {
    if Place(s, i) < Place(s, j) then s[Place(s, i)..Place(s, j)] else []
  }

  /** The item at a position and the position after it, which lies before it when the length is below -4. */
  function UnpackByteArray(data: Bytes, position: int): Result<(Bytes, int), PackError> {
    var head := Slice(data, position, position + 4);
    if |head| != 4 then Err(StructError)
    else
      var next := position + 4 + BytesToInt(head);
      Ok((Slice(data, position + 4, next), next))
  }

  /** What a number of rounds of unpacking from a position on comes to; None when they were not enough. */
  function UnpackWithin(data: Bytes, position: int, rounds: nat): Option<Result<seq<Bytes>, PackError>>
    decreases rounds
  {
    if position > |data| then Some(Err(AssertionError))
    else if position == |data| then Some(Ok([]))
    else if rounds == 0 then None
    else
      match UnpackByteArray(data, position)
      case Err(e) => Some(Err(e))
      case Ok(first) =>
        match UnpackWithin(data, first.1, rounds - 1)
        case None => None
        case Some(Err(e)) => Some(Err(e))
        case Some(Ok(rest)) => Some(Ok([first.0] + rest))
  }

  /** Unpacking comes to an end. */
  ghost predicate Ends(data: Bytes, position: int) {
    exists rounds: nat :: UnpackWithin(data, position, rounds).Some?
  }

  lemma {:induction false} MoreRounds(data: Bytes, position: int, rounds: nat, more: nat)
    requires rounds <= more && UnpackWithin(data, position, rounds).Some?
    ensures UnpackWithin(data, position, more) == UnpackWithin(data, position, rounds)
    decreases rounds
  {
    hide UnpackByteArray;
    if position < |data| && UnpackByteArray(data, position).Ok? {
      MoreRounds(data, UnpackByteArray(data, position).value.1, rounds - 1, more - 1);
    }
  }

  /** However many rounds are allowed, the result is the same. */
  lemma SameResult(data: Bytes, position: int, n: nat, k: nat)
    requires UnpackWithin(data, position, n).Some? && UnpackWithin(data, position, k).Some?
    ensures UnpackWithin(data, position, n) == UnpackWithin(data, position, k)
  {
    if n <= k {
      MoreRounds(data, position, n, k);
    } else {
      MoreRounds(data, position, k, n);
    }
  }

  // ---------------------------------------------------------------- the loop

  /** A result with items in front. */
  function Prefixed(done: seq<Bytes>, r: Option<Result<seq<Bytes>, PackError>>): Option<Result<seq<Bytes>, PackError>> {
    match r
    case Some(Ok(rest)) => Some(Ok(done + rest))
    case _ => r
  }

  /** One round of the loop. */
  lemma UnpackStep(data: Bytes, position: int, done: seq<Bytes>, rounds: nat)
    ensures position > |data| ==> Prefixed(done, UnpackWithin(data, position, rounds)) == Some(Err(AssertionError))
    ensures position == |data| ==> Prefixed(done, UnpackWithin(data, position, rounds)) == Some(Ok(done))
    ensures position < |data| && UnpackWithin(data, position, rounds).Some? ==> rounds > 0
    ensures position < |data| && rounds > 0 ==>
              match UnpackByteArray(data, position)
              case Err(e) => Prefixed(done, UnpackWithin(data, position, rounds)) == Some(Err(e))
              case Ok(u) =>
                Prefixed(done, UnpackWithin(data, position, rounds)) == Prefixed(done + [u.0], UnpackWithin(data, u.1, rounds - 1))
  {
    hide UnpackByteArray;
    assert done + [] == done;
    if position < |data| && rounds > 0 && UnpackByteArray(data, position).Ok? {
      var u := UnpackByteArray(data, position).value;
      var rest := UnpackWithin(data, u.1, rounds - 1);
      if rest.Some? && rest.value.Ok? {
        Associates(done, [u.0], rest.value.value);
      }
    }
  }

  lemma NothingPrefixed(r: Option<Result<seq<Bytes>, PackError>>)
    ensures Prefixed([], r) == r
  {
    if r.Some? && r.value.Ok? {
      assert [] + r.value.value == r.value.value;
    }
  }

  lemma StillSome(done: seq<Bytes>, r: Option<Result<seq<Bytes>, PackError>>)
    ensures Prefixed(done, r).Some? <==> r.Some?
  {
  }

  /** The loop, on every text on which it ends. */
  method UnpackMultipleByteArrays(data: Bytes, ghost enough: nat) returns (r: Result<seq<Bytes>, PackError>)
    requires UnpackWithin(data, 4, enough).Some?
    ensures UnpackWithin(data, 4, enough) == Some(r)
  {
    ghost var left, outcome := enough, UnpackWithin(data, 4, enough);
    var position := 4;
    var result: seq<Bytes> := [];
    NothingPrefixed(UnpackWithin(data, 4, enough));
    hide UnpackWithin, UnpackByteArray, Prefixed;
    while position < |data|
      invariant outcome == Prefixed(result, UnpackWithin(data, position, left)) && outcome.Some?
      decreases left
    {
      UnpackStep(data, position, result, left);
      StillSome(result, UnpackWithin(data, position, left));
      var unpacked := UnpackByteArray(data, position);
      if unpacked.Err? {
        return Err(unpacked.error);
      }
      result := result + [unpacked.value.0];
      position := unpacked.value.1;
      left := left - 1;
    }
    UnpackStep(data, position, result, left);
    if position != |data| {
      return Err(AssertionError);
    }
    return Ok(result);
  }

  // ---------------------------------------------------------------- unpacking what was packed

  lemma UnpackFirst(before: Bytes, item: Bytes, after: Bytes)
    requires |item| < TWO_31
    ensures UnpackByteArray(before + (IntToBytes(|item|) + item) + after, |before|) == Ok((item, |before| + 4 + |item|))
  {
    var head := IntToBytes(|item|);
    var data := before + (head + item) + after;
    var i := |before|;
    IntRoundTrip(|item|, head);
    SmallIsItself(|item|);
    hide IntToBytes, BytesToInt, Slice, Wrap32;
    assert data[i..i + 4] == head && data[i + 4..i + 4 + |item|] == item;
    SliceInside(data, i, i + 4);
    SliceInside(data, i + 4, i + 4 + |item|);
  }

  lemma SliceInside(s: Bytes, i: nat, j: nat)
    requires i <= j <= |s|
    ensures Slice(s, i, j) == s[i..j]
  {
  }

  lemma {:induction false} UnpackInvertsPack(before: Bytes, arrays: seq<Option<Bytes>>)
    requires PackAll(arrays).Ok?
    ensures UnpackWithin(before + PackAll(arrays).value, |before|, |arrays|) == Some(Ok(Given(arrays)))
    decreases |arrays|
  {
    hide UnpackByteArray, IntToBytes;
    var data := before + PackAll(arrays).value;
    if arrays != [] {
      var first, rest := PackByteArray(arrays[0]).value, PackAll(arrays[1..]).value;
      assert data == (before + first) + rest;
      UnpackInvertsPack(before + first, arrays[1..]);
      if arrays[0].Some? {
        UnpackFirst(before, arrays[0].value, rest);
        assert |first| >= 4;
      } else {
        assert before + first == before;
        MoreRounds(data, |before|, |arrays| - 1, |arrays|);
      }
    }
  }

  /** Unpacking what was packed ends and gives the arrays that were there, in order. */
  lemma UnpackingInvertsPacking(arrays: seq<Option<Bytes>>)
    requires PackMultipleByteArrays(arrays).Ok?
    ensures UnpackWithin(PackMultipleByteArrays(arrays).value, 4, |arrays|) == Some(Ok(Given(arrays)))
  {
    UnpackInvertsPack(IntToBytes(|arrays|), arrays);
  }

  // ---------------------------------------------------------------- what else can be unpacked

  /** None of the lengths that are read is negative. */
  predicate NoneNegative(data: Bytes, position: int, rounds: nat)
    decreases rounds
  {
    if position >= |data| || rounds == 0 then true
    else
      match UnpackByteArray(data, position)
      case Err(e) => true
      case Ok(first) => first.1 >= position + 4 && NoneNegative(data, first.1, rounds - 1)
  }

  /** The length at a position and the item after it, for a position that does not count from the end. */
  lemma UnpackedFirst(data: Bytes, position: nat)
    requires position < |data| && UnpackByteArray(data, position).Ok?
    ensures var (item, next) := UnpackByteArray(data, position).value;
            && position + 4 <= |data| && next - position - 4 < TWO_31 && IntToBytes(next - position - 4) == data[position..position + 4]
            && (position + 4 <= next <= |data| ==>
                  |item| == next - position - 4 && data[position..] == IntToBytes(|item|) + item + data[next..])
            && (next < position + 4 && |item| < TWO_31 ==> IntToBytes(|item|) != data[position..position + 4])
  {
    hide IntToBytes, BytesToInt, Wrap32;
    var (item, next) := UnpackByteArray(data, position).value;
    var head := Slice(data, position, position + 4);
    var n := BytesToInt(head);
    assert position + 4 <= |data| && head == data[position..position + 4];
    IntRoundTrip(|item|, head);
    if 0 <= n && next <= |data| {
      assert item == data[position + 4..next];
      SplitAtItem(data, position, next);
    }
    SmallIsItself(|item|);
  }

  lemma SmallIsItself(n: nat)
    ensures n < TWO_31 ==> Wrap32(n) == n
  {
  }

  lemma SplitAtItem(data: Bytes, position: nat, next: nat)
    requires position + 4 <= next <= |data|
    ensures data[position..] == data[position..position + 4] + data[position + 4..next] + data[next..]
  {
  }

  /**
   What is unpacked is, from its start on, the result packed again exactly when no length that was read is negative.
   The count in front is not looked at.
   */
  lemma {:induction false} UnpackedIsPacking(data: Bytes, position: nat, rounds: nat)
    requires position <= |data| && UnpackWithin(data, position, rounds).Some? && UnpackWithin(data, position, rounds).value.Ok?
    ensures PackAll(Wrapped(UnpackWithin(data, position, rounds).value.value)) == Ok(data[position..])
            <==> NoneNegative(data, position, rounds)
    decreases rounds
  {
    hide UnpackByteArray, PackAll, Wrapped, IntToBytes;
    if position < |data| {
      var (item, next) := UnpackByteArray(data, position).value;
      var rest := UnpackWithin(data, next, rounds - 1).value.value;
      UnpackedFirst(data, position);
      PackFirst(item, rest);
      if next >= position + 4 {
        NotPast(data, next, rounds - 1);
        assert |item| < TWO_31;
        UnpackedIsPacking(data, next, rounds - 1);
        SameFront(IntToBytes(|item|) + item, data[next..], PackAll(Wrapped(rest)));
      } else {
        OtherFront(IntToBytes(|item|), item, PackAll(Wrapped(rest)), data[position..], data[position..position + 4]);
      }
    } else {
      NothingPacked();
      assert data[position..] == [];
    }
  }

  lemma NotPast(data: Bytes, position: int, rounds: nat)
    requires UnpackWithin(data, position, rounds).Some? && UnpackWithin(data, position, rounds).value.Ok?
    ensures position <= |data|
  {
  }

  lemma SameFront(front: Bytes, rest: Bytes, packed: Result<Bytes, PackError>)
    ensures packed.Ok? ==> (front + packed.value == front + rest <==> packed.value == rest)
  {
    if packed.Ok? && front + packed.value == front + rest {
      assert (front + packed.value)[|front|..] == packed.value;
      assert (front + rest)[|front|..] == rest;
    }
  }

  lemma OtherFront(head: Bytes, item: Bytes, packed: Result<Bytes, PackError>, all: Bytes, front: Bytes)
    requires |head| == 4 && |all| >= 4 && all[..4] == front
    ensures packed.Ok? && head + item + packed.value == all ==> head == front
  {
    if packed.Ok? && head + item + packed.value == all {
      assert (head + item + packed.value)[..4] == head;
    }
  }

  /** A text that unpacks although a length in it is negative, and is no packing of the result. */
  lemma BackwardsAndForth()
    ensures var data: Bytes := [0, 0, 0, 4, 255, 255, 255, 248];
            && UnpackWithin(data, 4, 2) == Some(Ok([[], [255, 255, 255, 248]]))
            && PackAll(Wrapped([[], [255, 255, 255, 248]])) != Ok(data[4..])
  {
    var data: Bytes := [0, 0, 0, 4, 255, 255, 255, 248];
    var last: Bytes := [255, 255, 255, 248];
    assert data[4..8] == last && data[0..4] == [0, 0, 0, 4];
    assert BytesToInt(last) == -8 && BytesToInt([0, 0, 0, 4]) == 4;
    assert UnpackByteArray(data, 4) == Ok(([], 0));
    assert UnpackByteArray(data, 0) == Ok((last, 8));
    assert UnpackWithin(data, 8, 0) == Some(Ok([]));
    var none: Bytes := [];
    assert UnpackWithin(data, 0, 1) == Some(Ok([last] + []));
    assert [last] + [] == [last] && [none] + [last] == [none, last];
    hide UnpackByteArray;
    assert UnpackWithin(data, 4, 2) == Some(Ok([none] + [last]));
    PackFirst([], [last]);
    PackFirst(last, []);
    assert |data[4..]| == 4;
  }

  /** A text on which the loop never ends. */
  lemma {:induction false} NeverEnds(rounds: nat)
    ensures UnpackWithin([0, 0, 0, 0, 255, 255, 255, 252], 4, rounds).None?
  {
    var data: Bytes := [0, 0, 0, 0, 255, 255, 255, 252];
    assert data[4..8] == [255, 255, 255, 252] && BytesToInt([255, 255, 255, 252]) == -4;
    assert UnpackByteArray(data, 4) == Ok(([], 4));
    if rounds > 0 {
      NeverEnds(rounds - 1);
    }
  }

  // ---------------------------------------------------------------- when the loop ends

  /** The numbers from low up to high. */
  ghost function Range(low: int, high: int): (r: set<int>)
    requires low <= high
    ensures |r| == high - low && forall p :: p in r <==> low <= p < high
    decreases high - low
  {
    if low == high then {} else Range(low, high - 1) + {high - 1}
  }

  /** The positions from which a slice of four bytes may be read. */
  ghost function Positions(data: Bytes): set<int> {
    Range(-|data|, |data|)
  }

  /**
   The positions that are visited when unpacking ends after a number of rounds and not before: they are all
   different, since each is a different number of rounds away from the end. The last may lie before the start.
   */
  lemma {:induction false} Visited(data: Bytes, position: int, rounds: nat) returns (visited: set<int>)
    requires UnpackWithin(data, position, rounds).Some? && position >= -|data|
    requires rounds > 0 ==> UnpackWithin(data, position, rounds - 1).None?
    ensures rounds <= |visited| + 1 && visited <= Positions(data)
    ensures AllEnd(data, visited, rounds)
    decreases rounds
  {
    hide UnpackWithin, UnpackByteArray, Positions, AllEnd;
    if rounds == 0 {
      NoPosition(data);
      return {};
    }
    OneEnds(data, position, rounds);
    NoneMeansBefore(data, position, rounds - 1);
    IsPosition(data, position);
    if rounds == 1 {
      return {position};
    }
    StepLess(data, position, rounds);
    var next := UnpackByteArray(data, position).value.1;
    if next < -|data| {
      BeforeTheStart(data, next, rounds - 2);
      return {position};
    }
    var rest := Visited(data, next, rounds - 1);
    OneMoreEnds(data, rest, position, rounds);
    visited := rest + {position};
  }

  lemma NoPosition(data: Bytes)
    ensures AllEnd(data, {}, 0)
  {
  }

  lemma IsPosition(data: Bytes, position: int)
    ensures -|data| <= position < |data| <==> position in Positions(data)
  {
  }

  /** From each of the positions unpacking ends within so many rounds. */
  ghost predicate AllEnd(data: Bytes, positions: set<int>, rounds: nat) {
    forall p :: p in positions ==> UnpackWithin(data, p, rounds).Some?
  }

  lemma OneEnds(data: Bytes, position: int, rounds: nat)
    requires UnpackWithin(data, position, rounds).Some?
    ensures AllEnd(data, {position}, rounds)
  {
    hide UnpackWithin;
  }

  lemma OneMoreEnds(data: Bytes, rest: set<int>, position: int, rounds: nat)
    requires rounds > 0 && AllEnd(data, rest, rounds - 1)
    requires UnpackWithin(data, position, rounds - 1).None? && UnpackWithin(data, position, rounds).Some?
    ensures position !in rest && |rest + {position}| == |rest| + 1 && AllEnd(data, rest + {position}, rounds)
  {
    hide UnpackWithin;
    forall p | p in rest + {position} ensures UnpackWithin(data, p, rounds).Some? {
      if p in rest {
        MoreRounds(data, p, rounds - 1, rounds);
      }
    }
  }

  lemma NoneMeansBefore(data: Bytes, position: int, rounds: nat)
    requires UnpackWithin(data, position, rounds).None?
    ensures position < |data|
  {
  }

  lemma StepLess(data: Bytes, position: int, rounds: nat)
    requires rounds > 1 && UnpackWithin(data, position, rounds).Some? && UnpackWithin(data, position, rounds - 1).None?
    ensures UnpackByteArray(data, position).Ok?
    ensures var next := UnpackByteArray(data, position).value.1;
            UnpackWithin(data, next, rounds - 1).Some? && UnpackWithin(data, next, rounds - 2).None?
  {
    hide UnpackByteArray;
  }

  /** From before the start of the data no length can be read. */
  lemma BeforeTheStart(data: Bytes, position: int, rounds: nat)
    requires position < -|data|
    ensures rounds > 0 ==> UnpackWithin(data, position, rounds).Some?
  {
  }

  lemma {:induction false} FewestRounds(data: Bytes, position: int, rounds: nat) returns (fewest: nat)
    requires UnpackWithin(data, position, rounds).Some?
    ensures UnpackWithin(data, position, fewest).Some?
    ensures fewest > 0 ==> UnpackWithin(data, position, fewest - 1).None?
  {
    hide UnpackWithin;
    if rounds > 0 && UnpackWithin(data, position, rounds - 1).Some? {
      fewest := FewestRounds(data, position, rounds - 1);
    } else {
      fewest := rounds;
    }
  }

  /**
   Unpacking ends exactly when it ends within two rounds a byte and one: otherwise it comes back to a position where
   it was, and never ends.
   */
  lemma EndsSoonOrNever(data: Bytes)
    ensures Ends(data, 4) <==> UnpackWithin(data, 4, 2 * |data| + 1).Some?
  {
    if Ends(data, 4) {
      var rounds: nat :| UnpackWithin(data, 4, rounds).Some?;
      hide UnpackWithin;
      var fewest := FewestRounds(data, 4, rounds);
      var visited := Visited(data, 4, fewest);
      SubsetSize(visited, Positions(data));
      MoreRounds(data, 4, fewest, 2 * |data| + 1);
    }
  }

  lemma {:induction false} SubsetSize(a: set<int>, b: set<int>)
    requires a <= b
    ensures |a| <= |b|
  {
    assert b == a + (b - a);
  }

  /** Slices inside the text are its parts, and a negative position counts from the end. */
  lemma SliceMeans(s: Bytes, i: int, j: int)
    ensures 0 <= i <= j <= |s| ==> Slice(s, i, j) == s[i..j]
    ensures 0 <= i < |s| ==> Slice(s, i - |s|, j) == Slice(s, i, j)
    ensures 0 <= j < |s| ==> Slice(s, i, j - |s|) == Slice(s, i, j)
    ensures j > |s| ==> Slice(s, i, j) == Slice(s, i, |s|)
    ensures i < -|s| ==> Slice(s, i, j) == Slice(s, 0, j)
    ensures j < -|s| || i > |s| ==> Slice(s, i, j) == []
  {
  }

  /** Packed arrays with something behind them that is no packed array: what is reported, and when. */
  lemma UnpackReports(data: Bytes, position: nat, rounds: nat)
    requires position < |data| && rounds > 0
    ensures |data| - position < 4 ==> UnpackWithin(data, position, rounds) == Some(Err(StructError))
    ensures |data| - position >= 4 && BytesToInt(data[position..position + 4]) > |data| - position - 4 ==>
              UnpackWithin(data, position, rounds) == Some(Err(AssertionError))
  {
    SliceMeans(data, position, |data|);
    if |data| - position >= 4 {
      SliceMeans(data, position, position + 4);
    }
  }
}
