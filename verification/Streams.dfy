/** File-like objects at the two ends of the streaming classes. */
module Streams {
  import opened Prelude

  /** What a source has in store: a piece of data, or a moment at which nothing is available. */
  datatype Event<T> = Chunk(data: seq<T>) | Nothing

  function Content<T>(events: seq<Event<T>>): seq<T> {
    if events == [] then []
    else (if events[0].Chunk? then events[0].data else []) + Content(events[1..])
  }

  /** What a read answers, and what is left in store. */
  function ReadEvents<T>(events: seq<Event<T>>, size: int): (Option<seq<T>>, seq<Event<T>>) {
    if size == 0 || events == [] then (Some([]), events)
    else match events[0]
         case Nothing => (None, events[1..])
         case Chunk(data) =>
           if size < 0 || |data| <= size then (Some(data), events[1..])
           else (Some(data[..size]), [Chunk(data[size..])] + events[1..])
  }

  /**
   A readable source, blocking or not. Its schedule of events decides how much each read returns;
   after the last event every read answers with the empty string.
   */
  class Source<T> {
    var events: seq<Event<T>>

    constructor (schedule: seq<Event<T>>)
      requires forall e :: e in schedule && e.Chunk? ==> e.data != []
      ensures Valid() && events == schedule
    {
      events := schedule;
    }

    ghost predicate Valid()
      reads this
    {
      forall e :: e in events && e.Chunk? ==> e.data != []
    }

    ghost function Rest(): seq<T>
      reads this
    {
      Content(events)
    }

    /** Decreases with every read that is not answered by the empty string. */
    ghost function Measure(): nat
      reads this
    {
      |Rest()| + |events|
    }

    /** Before the end there is a moment at which nothing is available. */
    ghost predicate Paused()
      reads this
    {
      events != [] && events[|events| - 1].Nothing?
    }

    /**
     At most size elements, everything at hand for a negative size; None when nothing is available yet.
     For a nonzero size the empty string means that the source is exhausted.
     */
    method Read(size: int) returns (r: Option<seq<T>>)
      requires Valid()
      modifies this
      ensures Valid()
      ensures r.None? ==> Rest() == old(Rest()) && Measure() < old(Measure())
      ensures r.Some? ==> old(Rest()) == r.value + Rest() && |r.value| + Measure() <= old(Measure())
      ensures r.Some? && r.value != [] ==> Measure() < old(Measure())
      ensures r.Some? && size >= 0 ==> |r.value| <= size
      ensures r == Some([]) ==> events == old(events) && (size != 0 ==> Rest() == [])
      ensures old(Paused()) && size > 0 ==> r != Some([]) && (Paused() || (r.None? && events == []))
      ensures old(events) == [] ==> r == Some([])
      ensures (r, events) == ReadEvents(old(events), size)
    {
      if size == 0 || events == [] {
        return Some([]);
      }
      match events[0]
      case Nothing =>
        events := events[1..];
        r := None;
      case Chunk(data) =>
        assert events[0] in events;
        if size < 0 || |data| <= size {
          events := events[1..];
          r := Some(data);
        } else {
          var rest := Chunk(data[size..]);
          assert data == data[..size] + rest.data;
          assert Content(events) == data[..size] + (rest.data + Content(events[1..]));
          events := [rest] + events[1..];
          r := Some(data[..size]);
        }
    }
  }

  /** A writable target: the data of every write call, in order. */
  class Sink<T> {
    var writes: seq<seq<T>>
    var flushes: nat

    constructor ()
      ensures writes == [] && flushes == 0
    {
      writes := [];
      flushes := 0;
    }

    ghost function Written(): seq<T>
      reads this
    {
      Flatten(writes)
    }

    method Write(data: seq<T>)
      modifies this
      ensures writes == old(writes) + [data] && flushes == old(flushes)
      ensures Written() == old(Written()) + data
    {
      FlattenSnoc(writes, data);
      writes := writes + [data];
    }

    method Flush()
      modifies this
      ensures writes == old(writes) && flushes == old(flushes) + 1
    {
      flushes := flushes + 1;
    }
  }
}
