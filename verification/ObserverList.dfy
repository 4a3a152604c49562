/** A list of observers that may be changed while it is iterated over, as an object updated in place. */
module ObserverLists {
  import opened Prelude
  import Model = ObserverModel

  class ObserverList<O(==)> {
    var observers: seq<Option<O>>
    var notifyDepth: nat
    const existingOnly: bool

    constructor (existingOnly: bool)
      ensures observers == [] && notifyDepth == 0 && this.existingOnly == existingOnly
    {
      observers, notifyDepth, this.existingOnly := [], 0, existingOnly;
    }

    method AddObserver(o: O)
      requires Some(o) !in observers
      modifies `observers
      ensures observers == old(observers) + [Some(o)]
    {
      observers := observers + [Some(o)];
    }

    method RemoveObserver(o: O)
      modifies `observers
      ensures observers == Model.RemoveFrom(old(observers), o, notifyDepth > 0)
    {
      var i := 0;
      while i < |observers| && observers[i] != Some(o)
        invariant 0 <= i <= |observers| && observers == old(observers)
        invariant Model.Find(observers, o, 0) == Model.Find(observers, o, i)
      {
        i := i + 1;
      }
      if i < |observers| {
        if notifyDepth > 0 {
          observers := observers[i := None];
        } else {
          observers := observers[..i] + observers[i + 1..];
        }
      }
    }

    /** Takes the empty slots out, keeping the order of the others. */
    method Compact()
      modifies `observers
      ensures observers == Model.Full(Model.Present(old(observers)))
    {
      var i := 0;
      while i < |observers|
        invariant 0 <= i <= |observers| && None !in observers[..i]
        invariant Model.Present(observers) == Model.Present(old(observers))
        decreases |observers| - i
      {
        ghost var before := observers;
        if observers[i].Some? {
          assert observers[..i + 1] == observers[..i] + [observers[i]];
          i := i + 1;
        } else {
          SkipEmpty(before, i);
          observers := observers[..i] + observers[i + 1..];
          assert observers[..i] == before[..i];
        }
      }
      assert observers[..i] == observers;
      Model.FullPresent(observers);
    }
  }

  lemma SkipEmpty<O>(slots: seq<Option<O>>, i: nat)
    requires i < |slots| && slots[i].None?
    ensures Model.Present(slots[..i] + slots[i + 1..]) == Model.Present(slots)
  {
    EmptyInFront(slots[i..]);
    hide Model.Present;
    Model.PresentAppend(slots[..i], slots[i + 1..]);
    Model.PresentAppend(slots[..i], slots[i..]);
    assert slots == slots[..i] + slots[i..];
    assert slots[i..][1..] == slots[i + 1..];
  }

  lemma EmptyInFront<O>(slots: seq<Option<O>>)
    requires slots != [] && slots[0].None?
    ensures Model.Present(slots) == Model.Present(slots[1..])
  {
  }

  class Iterator<O(==)> {
    const list: ObserverList<O>
    var index: nat
    const maxIndex: Option<nat>
    /** What this iterator has returned so far. */
    ghost var returned: seq<O>

    ghost function View(): Model.Iteration<O>
      reads this
    {
      Model.Iteration(index, maxIndex, returned)
    }

    constructor (list: ObserverList<O>)
      modifies list`notifyDepth
      ensures this.list == list && list.notifyDepth == old(list.notifyDepth) + 1
      ensures View() == Model.Iteration(0, if list.existingOnly then Some(|list.observers|) else None, [])
    {
      this.list, index, returned := list, 0, [];
      maxIndex := if list.existingOnly then Some(|list.observers|) else None;
      new;
      list.notifyDepth := list.notifyDepth + 1;
    }

    /** The end of an iteration. */
    method Finish()
      requires list.notifyDepth > 0
      modifies list
      ensures list.notifyDepth == old(list.notifyDepth) - 1
      ensures list.observers == if list.notifyDepth == 0 then Model.Full(Model.Present(old(list.observers))) else old(list.observers)
    {
      list.notifyDepth := list.notifyDepth - 1;
      if list.notifyDepth == 0 {
        list.Compact();
      }
    }

    method GetNext() returns (o: Option<O>)
      modifies this
      ensures (View(), o) == Model.GetNext(list.observers, old(View()))
    {
      var limit := |list.observers|;
      if maxIndex.Some? && maxIndex.value < limit {
        limit := maxIndex.value;
      }
      while index < limit && list.observers[index].None?
        invariant returned == old(returned)
        invariant Model.Scan(list.observers, index, limit) == Model.Scan(list.observers, old(index), limit)
      {
        index := index + 1;
      }
      if index < limit {
        index := index + 1;
        returned := returned + [list.observers[index - 1].value];
        return list.observers[index - 1];
      }
      return None;
    }
  }

  /** The list and its live iterators, each under a name, as one state of the model. */
  ghost function StateOf<O>(list: ObserverList<O>, live: map<int, Iterator<O>>): Model.State<O>
    reads list, live.Values
  {
    Model.State(list.observers, list.existingOnly, map id | id in live :: live[id].View())
  }

  /** The depth counts the live iterators, which are all different and all of this list. */
  ghost predicate Counted<O>(list: ObserverList<O>, live: map<int, Iterator<O>>)
    reads list, live.Values
  {
    && list.notifyDepth == |live|
    && (forall id :: id in live ==> live[id].list == list)
    && (forall id, other :: id in live && other in live && id != other ==> live[id] != live[other])
  }

  method PerformBegin<O(==)>(list: ObserverList<O>, live: map<int, Iterator<O>>, id: int) returns (live': map<int, Iterator<O>>)
    requires Counted(list, live) && id !in live
    modifies list
    ensures Counted(list, live') && fresh(live'.Values - live.Values)
    ensures StateOf(list, live') == Model.Step(old(StateOf(list, live)), Model.Begin(id))
  {
    var it := new Iterator(list);
    live' := live[id := it];
    assert forall other :: other in live ==> live[other].View() == old(live[other].View());
    assert StateOf(list, live').live == old(StateOf(list, live)).live[id := it.View()];
  }

  method PerformNext<O(==)>(list: ObserverList<O>, live: map<int, Iterator<O>>, id: int) returns (o: Option<O>)
    requires Counted(list, live) && id in live
    modifies live[id]
    ensures Counted(list, live)
    ensures StateOf(list, live) == Model.Step(old(StateOf(list, live)), Model.Next(id))
    ensures o == Model.GetNext(old(StateOf(list, live)).slots, old(StateOf(list, live)).live[id]).1
  {
    o := live[id].GetNext();
    assert forall other :: other in live && other != id ==> live[other].View() == old(live[other].View());
    assert StateOf(list, live).live == old(StateOf(list, live)).live[id := live[id].View()];
  }

  method PerformEnd<O(==)>(list: ObserverList<O>, live: map<int, Iterator<O>>, id: int) returns (live': map<int, Iterator<O>>)
    requires Counted(list, live) && id in live
    modifies list
    ensures Counted(list, live') && live' == live - {id}
    ensures StateOf(list, live') == Model.Step(old(StateOf(list, live)), Model.End(id))
  {
    assert |live| > 0;
    live[id].Finish();
    live' := live - {id};
    assert |live'| == |live| - 1 by {
      assert live'.Keys == live.Keys - {id};
    }
    assert StateOf(list, live').live == old(StateOf(list, live)).live - {id};
    assert live' == map[] <==> |live'| == 0;
    assert StateOf(list, live').live == map[] <==> live' == map[] by {
      assert StateOf(list, live').live.Keys == live'.Keys;
    }
  }

  method PerformRemove<O(==)>(list: ObserverList<O>, live: map<int, Iterator<O>>, o: O)
    requires Counted(list, live)
    modifies list`observers
    ensures Counted(list, live)
    ensures StateOf(list, live) == Model.Step(old(StateOf(list, live)), Model.Remove(o))
  {
    list.RemoveObserver(o);
    assert |live| > 0 <==> live != map[];
    assert StateOf(list, live).live.Keys == live.Keys;
    assert StateOf(list, live).live == old(StateOf(list, live).live);
  }

  method PerformAdd<O(==)>(list: ObserverList<O>, live: map<int, Iterator<O>>, o: O)
    requires Counted(list, live) && Some(o) !in list.observers
    modifies list`observers
    ensures Counted(list, live)
    ensures StateOf(list, live) == Model.Step(old(StateOf(list, live)), Model.Add(o))
  {
    list.AddObserver(o);
    assert StateOf(list, live).live == old(StateOf(list, live).live);
  }

  lemma LiveNames<O>(list: ObserverList<O>, live: map<int, Iterator<O>>)
    ensures forall id :: id in StateOf(list, live).live <==> id in live
  {
  }

  /** Any interleaving of operations on the objects is a run of the model. */
  method Perform<O(==)>(list: ObserverList<O>, live: map<int, Iterator<O>>,
          op: Model.Op<O>) returns (live': map<int, Iterator<O>>)
    requires Counted(list, live) && (op.Add? ==> Some(op.observer) !in list.observers)
    modifies list, live.Values
    ensures Counted(list, live') && fresh(live'.Values - live.Values)
    ensures StateOf(list, live') == Model.Step(old(StateOf(list, live)), op)
  {
    LiveNames(list, live);
    hide StateOf, Counted, Model.RemoveFrom, Model.GetNext, Model.Present, Model.Full;
    live' := live;
    match op {
      case Add(o) =>
        PerformAdd(list, live, o);
      case Remove(o) =>
        PerformRemove(list, live, o);
      case Begin(id) =>
        if id !in live {
          live' := PerformBegin(list, live, id);
        }
      case Next(id) =>
        if id in live {
          var o := PerformNext(list, live, id);
        }
      case End(id) =>
        if id in live {
          live' := PerformEnd(list, live, id);
        }
    }
  }
}
