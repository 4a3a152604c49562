/**
 What a list of observers does while it is iterated over, as functions on values. Iterations nest and overlap freely;
 each live one has a name of its own.
 */
module ObserverModel {
  import opened Prelude

  /** Where an iteration stands, and which observers it has returned. No maximum means that added ones count too. */
  datatype Iteration<O> = Iteration(index: nat, max: Option<nat>, returned: seq<O>)

  /** The slots, of which the removed ones are empty, and the live iterations. */
  datatype State<O> = State(slots: seq<Option<O>>, existingOnly: bool, live: map<int, Iteration<O>>)

  datatype Op<O> =
    | Add(observer: O)
    | Remove(observer: O)
    | Begin(id: int)
    | Next(id: int)
    | End(id: int)

  // ---------------------------------------------------------------- operations

  /** The observers in the slots, in order. */
  function Present<O>(slots: seq<Option<O>>): seq<O> {
    if slots == [] then []
    else if slots[0].Some? then [slots[0].value] + Present(slots[1..])
    else Present(slots[1..])
  }

  function Full<O>(observers: seq<O>): (slots: seq<Option<O>>)
    ensures |slots| == |observers|
  {
    seq(|observers|, i requires 0 <= i < |observers| => Some(observers[i]))
  }

  /** The first slot from i on with this observer, or the number of slots. */
  function Find<O(==)>(slots: seq<Option<O>>, observer: O, i: nat): (r: nat)
    requires i <= |slots|
    ensures i <= r <= |slots| && (r < |slots| ==> slots[r] == Some(observer))
    ensures forall j :: i <= j < r ==> slots[j] != Some(observer)
    decreases |slots| - i
  {
    if i == |slots| || slots[i] == Some(observer) then i else Find(slots, observer, i + 1)
  }

  /** RemoveObserver: a slot is emptied while there are iterations, and taken out otherwise. */
  function RemoveFrom<O(==)>(slots: seq<Option<O>>, observer: O, iterating: bool): seq<Option<O>> {
    var i := Find(slots, observer, 0);
    if i == |slots| then slots
    else if iterating then slots[i := None]
    else slots[..i] + slots[i + 1..]
  }

  function Limit<O>(slots: seq<Option<O>>, max: Option<nat>): (limit: nat)
    ensures limit <= |slots|
  {
    if max.Some? && max.value < |slots| then max.value else |slots|
  }

  /** The first slot from i on that is not empty, or the limit. */
  function Scan<O>(slots: seq<Option<O>>, i: nat, limit: nat): (r: nat)
    requires limit <= |slots|
    ensures i <= r && (i <= limit ==> r <= limit) && (r < limit ==> slots[r].Some?)
    ensures forall j :: i <= j < r && j < limit ==> slots[j].None?
    decreases limit - i
  {
    if i < limit && slots[i].None? then Scan(slots, i + 1, limit) else i
  }

  /** GetNext: the iteration after it, and what it returns. */
  function GetNext<O>(slots: seq<Option<O>>, it: Iteration<O>): (Iteration<O>, Option<O>) {
    var limit := Limit(slots, it.max);
    var i := Scan(slots, it.index, limit);
    if i < limit then (Iteration(i + 1, it.max, it.returned + [slots[i].value]), slots[i])
    else (it.(index := i), None)
  }

  /** One operation; naming an iteration that is not live, or beginning one that is, does nothing. */
  function Step<O(==)>(s: State<O>, op: Op<O>): State<O> {
    match op
    case Add(o) => s.(slots := s.slots + [Some(o)])
    case Remove(o) => s.(slots := RemoveFrom(s.slots, o, s.live != map[]))
    case Begin(id) =>
      if id in s.live then s
      else s.(live := s.live[id := Iteration(0, if s.existingOnly then Some(|s.slots|) else None, [])])
    case Next(id) =>
      if id !in s.live then s else s.(live := s.live[id := GetNext(s.slots, s.live[id]).0])
    case End(id) =>
      if id !in s.live then s
      else
        var live := s.live - {id};
        s.(live := live, slots := if live == map[] then Full(Present(s.slots)) else s.slots)
  }

  function Run<O(==)>(s: State<O>, ops: seq<Op<O>>): State<O>
    decreases |ops|
  {
    if ops == [] then s else Run(Step(s, ops[0]), ops[1..])
  }

  /** Observers are only added when they are not in the list, as the program demands of its callers. */
  predicate Legal<O(==)>(s: State<O>, ops: seq<Op<O>>)
    decreases |ops|
  {
    ops == [] || ((ops[0].Add? ==> Some(ops[0].observer) !in s.slots) && Legal(Step(s, ops[0]), ops[1..]))
  }

  // ---------------------------------------------------------------- the invariant

  ghost predicate Distinct<O>(slots: seq<Option<O>>) {
    forall i, j :: 0 <= i < j < |slots| && slots[i].Some? ==> slots[i] != slots[j]
  }

  /** An iteration never points past the slots, and never past its maximum. */
  ghost predicate InBounds<O>(slots: seq<Option<O>>, it: Iteration<O>) {
    it.index <= |slots| && (it.max.Some? ==> it.index <= it.max.value <= |slots|)
  }

  ghost predicate Inv<O(!new)>(s: State<O>) {
    && Distinct(s.slots)
    && (forall id :: id in s.live ==> InBounds(s.slots, s.live[id]) && s.live[id].max.Some? == s.existingOnly)
    && (s.live == map[] ==> None !in s.slots)
  }

  // ---------------------------------------------------------------- filtering

  lemma {:induction false} PresentAppend<O>(a: seq<Option<O>>, b: seq<Option<O>>)
    ensures Present(a + b) == Present(a) + Present(b)
  {
    if a == [] {
      assert a + b == b;
    } else {
      assert (a + b)[0] == a[0] && (a + b)[1..] == a[1..] + b;
      PresentAppend(a[1..], b);
    }
  }

  lemma {:induction false} PresentFull<O>(observers: seq<O>)
    ensures Present(Full(observers)) == observers
  {
    if observers != [] {
      assert Full(observers)[1..] == Full(observers[1..]);
      PresentFull(observers[1..]);
    }
  }

  lemma {:induction false} FullPresent<O>(slots: seq<Option<O>>)
    requires None !in slots
    ensures Full(Present(slots)) == slots
  {
    if slots != [] {
      assert slots[0] in slots && forall x :: x in slots[1..] ==> x in slots;
      FullPresent(slots[1..]);
    }
  }

  lemma {:induction false} PresentMember<O>(slots: seq<Option<O>>, o: O)
    ensures o in Present(slots) <==> Some(o) in slots
  {
    if slots != [] {
      assert slots == [slots[0]] + slots[1..];
      PresentMember(slots[1..], o);
    }
  }

  lemma {:induction false} PresentDistinct<O>(slots: seq<Option<O>>)
    requires Distinct(slots)
    ensures Distinct(Full(Present(slots)))
  {
    if slots != [] {
      var rest := slots[1..];
      assert forall i :: 0 <= i < |rest| ==> rest[i] == slots[i + 1];
      PresentDistinct(rest);
      if slots[0].Some? {
        PresentMember(rest, slots[0].value);
        assert Some(slots[0].value) !in rest;
        var all, tail := Full(Present(slots)), Full(Present(rest));
        forall i, j | 0 <= i < j < |all| ensures all[i] != all[j] {
          assert all[j] == tail[j - 1] && Present(rest)[j - 1] in Present(rest);
          if i > 0 {
            assert all[i] == tail[i - 1];
          }
        }
      }
    }
  }

  // ---------------------------------------------------------------- every operation keeps the invariant

  lemma AddKeepsDistinct<O>(slots: seq<Option<O>>, o: O)
    requires Distinct(slots) && Some(o) !in slots
    ensures Distinct(slots + [Some(o)])
  {
    var t := slots + [Some(o)];
    forall i, j | 0 <= i < j < |t| && t[i].Some? ensures t[i] != t[j] {
      assert t[i] in slots;
    }
  }

  lemma RemoveKeepsDistinct<O>(slots: seq<Option<O>>, o: O, iterating: bool)
    requires Distinct(slots)
    ensures Distinct(RemoveFrom(slots, o, iterating))
    ensures iterating ==> |RemoveFrom(slots, o, iterating)| == |slots|
    ensures None !in slots && !iterating ==> None !in RemoveFrom(slots, o, iterating)
  {
    var i := Find(slots, o, 0);
    var t := RemoveFrom(slots, o, iterating);
    if i < |slots| && !iterating {
      assert forall j :: 0 <= j < |t| ==> t[j] == slots[if j < i then j else j + 1];
      assert forall j :: 0 <= j < |t| ==> t[j] in slots;
    }
  }

  lemma GetNextInBounds<O>(slots: seq<Option<O>>, it: Iteration<O>)
    requires InBounds(slots, it)
    ensures InBounds(slots, GetNext(slots, it).0)
  {
  }

  lemma FullHasNoneEmpty<O>(observers: seq<O>)
    ensures None !in Full(observers)
  {
  }

  lemma StepKeepsInv<O(!new)>(s: State<O>, op: Op<O>)
    requires Inv(s) && Legal(s, [op])
    ensures Inv(Step(s, op))
  {
    match op
    case Add(o) => AddKeepsDistinct(s.slots, o);
    case Remove(o) => RemoveKeepsDistinct(s.slots, o, s.live != map[]);
    case Begin(id) =>
    case Next(id) =>
      if id in s.live {
        GetNextInBounds(s.slots, s.live[id]);
      }
    case End(id) =>
      PresentDistinct(s.slots);
      FullHasNoneEmpty(Present(s.slots));
  }

  /**
   In any interleaving of iterations, additions and removals, no iteration ever points outside the list, and the
   list has no empty slots whenever no iteration is going on.
   */
  lemma {:induction false} RunKeepsInv<O(!new)>(s: State<O>, ops: seq<Op<O>>)
    requires Inv(s) && Legal(s, ops)
    ensures Inv(Run(s, ops))
    decreases |ops|
  {
    if ops != [] {
      LegalFirst(s, ops);
      StepKeepsInv(s, ops[0]);
      hide Inv, Step;
      RunKeepsInv(Step(s, ops[0]), ops[1..]);
    }
  }

  lemma LegalFirst<O>(s: State<O>, ops: seq<Op<O>>)
    requires Legal(s, ops) && ops != []
    ensures Legal(s, [ops[0]]) && Legal(Step(s, ops[0]), ops[1..])
  {
    assert [ops[0]][1..] == [];
  }

  // ---------------------------------------------------------------- the list that callers see

  /** The list without an observer. */
  function Without<O(==)>(observers: seq<O>, o: O): seq<O> {
    if observers == [] then []
    else if observers[0] == o then observers[1..]
    else [observers[0]] + Without(observers[1..], o)
  }

  lemma {:induction false} PresentWithout<O>(slots: seq<Option<O>>, o: O, i: nat)
    requires i <= |slots| && (i < |slots| ==> slots[i] == Some(o)) && forall j :: 0 <= j < i ==> slots[j] != Some(o)
    ensures i == |slots| ==> Without(Present(slots), o) == Present(slots)
    ensures i < |slots| ==> Without(Present(slots), o) == Present(slots[..i] + slots[i + 1..]) == Present(slots[i := None])
  {
    if slots != [] {
      var rest := slots[1..];
      if i == 0 {
        assert slots[..0] + slots[1..] == rest;
        assert slots[0 := None][1..] == rest;
      } else {
        assert forall j :: 0 <= j < |rest| ==> rest[j] == slots[j + 1];
        PresentWithout(rest, o, i - 1);
        if i < |slots| {
          assert (slots[..i] + slots[i + 1..])[0] == slots[0];
          assert (slots[..i] + slots[i + 1..])[1..] == rest[..i - 1] + rest[i..];
          assert slots[i := None][0] == slots[0] && slots[i := None][1..] == rest[i - 1 := None];
        }
      }
    }
  }

  /** Whatever iterations are going on, adding and removing act on the list of present observers, and nothing else does. */
  lemma IterationsDoNotChangeTheList<O(!new)>(s: State<O>, op: Op<O>)
    ensures Present(Step(s, op).slots) ==
            match op
            case Add(o) => Present(s.slots) + [o]
            case Remove(o) => Without(Present(s.slots), o)
            case _ => Present(s.slots)
  {
    match op
    case Add(o) =>
      PresentAppend(s.slots, [Some(o)]);
      assert Present([Some(o)]) == [o] + Present([]);
    case Remove(o) => PresentWithout(s.slots, o, Find(s.slots, o, 0));
    case Begin(id) =>
    case Next(id) =>
    case End(id) => PresentFull(Present(s.slots));
  }

  // ---------------------------------------------------------------- who is notified

  function Count<O(==)>(s: State<O>, id: int, o: O): nat
    requires id in s.live
  {
    multiset(s.live[id].returned)[o]
  }

  /** The observer is in slot p, and has been returned c times or, once the iteration has passed p, once more. */
  ghost predicate Owes<O>(s: State<O>, id: int, o: O, p: nat, c: nat, max: Option<nat>) {
    && id in s.live && p < |s.slots| && s.slots[p] == Some(o) && s.live[id].max == max
    && Count(s, id, o) == c + if s.live[id].index > p then 1 else 0
  }

  lemma GetNextOwes<O>(slots: seq<Option<O>>, it: Iteration<O>, o: O, p: nat)
    requires Distinct(slots) && InBounds(slots, it) && p < |slots| && slots[p] == Some(o)
    ensures var it' := GetNext(slots, it).0;
            && it'.max == it.max
            && multiset(it'.returned)[o] == multiset(it.returned)[o] + (if it.index <= p < it'.index then 1 else 0)
            && it.index <= it'.index
  {
    var limit := Limit(slots, it.max);
    var i := Scan(slots, it.index, limit);
    if i < limit {
      assert slots[i] == Some(o) <==> i == p;
      assert multiset(it.returned + [slots[i].value]) == multiset(it.returned) + multiset{slots[i].value};
    }
  }

  lemma RemoveOther<O>(slots: seq<Option<O>>, other: O, o: O, p: nat)
    requires p < |slots| && slots[p] == Some(o) && other != o
    ensures var t := RemoveFrom(slots, other, true); |t| == |slots| && t[p] == Some(o)
  {
  }

  lemma StepOwes<O(!new)>(s: State<O>, op: Op<O>, id: int, o: O, p: nat, c: nat, max: Option<nat>)
    requires Inv(s) && Owes(s, id, o, p, c, max) && op != Remove(o) && op != End(id)
    ensures Owes(Step(s, op), id, o, p, c, max)
  {
    match op
    case Add(other) =>
    case Remove(other) =>
      assert id in s.live;
      RemoveOther(s.slots, other, o, p);
    case Begin(other) =>
    case Next(other) =>
      if other == id {
        GetNextOwes(s.slots, s.live[id], o, p);
      }
    case End(other) =>
      assert other in s.live ==> id in s.live - {other};
  }

  lemma {:induction false} RunOwes<O(!new)>(s: State<O>, ops: seq<Op<O>>, id: int, o: O, p: nat, c: nat,
          max: Option<nat>)
    requires Inv(s) && Legal(s, ops) && Owes(s, id, o, p, c, max) && Remove(o) !in ops && End(id) !in ops
    ensures Inv(Run(s, ops)) && Owes(Run(s, ops), id, o, p, c, max)
    decreases |ops|
  {
    if ops != [] {
      var op := ops[0];
      assert op in ops;
      LegalFirst(s, ops);
      StepKeepsInv(s, op);
      StepOwes(s, op, id, o, p, c, max);
      hide Inv, Step, Owes, Legal;
      RunOwes(Step(s, op), ops[1..], id, o, p, c, max);
    }
  }

  /** The iteration has nothing more to return. */
  predicate Done<O>(s: State<O>, id: int) {
    id in s.live && GetNext(s.slots, s.live[id]).1.None?
  }

  lemma DoneIsPast<O(!new)>(s: State<O>, id: int, p: nat)
    requires Inv(s) && Done(s, id) && p < |s.slots| && s.slots[p].Some?
    ensures s.live[id].index > p <==> p < Limit(s.slots, s.live[id].max)
  {
    var it := s.live[id];
    var limit := Limit(s.slots, it.max);
    assert Scan(s.slots, it.index, limit) >= limit;
  }

  /**
   An observer that an iteration has not yet passed and that stays in the list is returned exactly once more by the
   time the iteration is done, unless it was added after an iteration over existing observers had begun: that one
   never returns it.
   */
  lemma DoneReturnsWhatStays<O(!new)>(s: State<O>, ops: seq<Op<O>>, id: int, o: O, p: nat)
    requires Inv(s) && Legal(s, ops) && id in s.live && p < |s.slots| && s.slots[p] == Some(o) && s.live[id].index <= p
    requires Remove(o) !in ops && End(id) !in ops && Done(Run(s, ops), id)
    ensures Count(Run(s, ops), id, o)
         == Count(s, id, o) + if s.live[id].max.None? || p < s.live[id].max.value then 1 else 0
  {
    hide Legal, Done;
    var max := s.live[id].max;
    RunOwes(s, ops, id, o, p, Count(s, id, o), max);
    DoneIsPast(Run(s, ops), id, p);
    hide Distinct, Run;
  }

  /** An observer present from the beginning of an iteration until it is done is returned exactly once. */
  lemma PresentThroughoutIsReturnedOnce<O(!new)>(s: State<O>, ops: seq<Op<O>>, id: int, o: O)
    requires Inv(s) && id !in s.live && Legal(Step(s, Begin(id)), ops) && Some(o) in s.slots
    requires Remove(o) !in ops && End(id) !in ops && Done(Run(Step(s, Begin(id)), ops), id)
    ensures Count(Run(Step(s, Begin(id)), ops), id, o) == 1
  {
    var p :| 0 <= p < |s.slots| && s.slots[p] == Some(o);
    StepKeepsInv(s, Begin(id));
    var t := Step(s, Begin(id));
    assert Count(t, id, o) == 0;
    hide Inv, Legal, Done, Run;
    DoneReturnsWhatStays(t, ops, id, o, p);
  }

  lemma StepAbsent<O(!new)>(s: State<O>, op: Op<O>, id: int, o: O)
    requires id in s.live && Some(o) !in s.slots && op != Add(o) && op != End(id)
    ensures var t := Step(s, op); id in t.live && Some(o) !in t.slots && Count(t, id, o) == Count(s, id, o)
  {
    match op
    case Add(other) =>
    case Remove(other) =>
      var i := Find(s.slots, other, 0);
      assert forall x :: x in RemoveFrom(s.slots, other, true) ==> x in s.slots || x == None;
    case Begin(other) =>
    case Next(other) =>
      if other == id {
        GetNextElsewhere(s.slots, s.live[id], o);
      }
    case End(other) =>
      assert other in s.live ==> id in s.live - {other};
  }

  lemma GetNextElsewhere<O>(slots: seq<Option<O>>, it: Iteration<O>, o: O)
    requires Some(o) !in slots
    ensures multiset(GetNext(slots, it).0.returned)[o] == multiset(it.returned)[o]
  {
    var i := Scan(slots, it.index, Limit(slots, it.max));
    if i < Limit(slots, it.max) {
      assert slots[i] in slots;
      assert multiset(it.returned + [slots[i].value]) == multiset(it.returned) + multiset{slots[i].value};
    }
  }

  /** While an observer is not in the list, no iteration returns it: one removed before its turn is skipped. */
  lemma {:induction false} AbsentIsNotReturned<O(!new)>(s: State<O>, ops: seq<Op<O>>, id: int, o: O)
    requires id in s.live && Some(o) !in s.slots && Add(o) !in ops && End(id) !in ops
    ensures id in Run(s, ops).live && Count(Run(s, ops), id, o) == Count(s, id, o)
    decreases |ops|
  {
    if ops != [] {
      var op := ops[0];
      assert op in ops;
      StepAbsent(s, op, id, o);
      hide Step, Count;
      AbsentIsNotReturned(Step(s, op), ops[1..], id, o);
    }
  }
}
