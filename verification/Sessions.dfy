/** Long-running sessions with bounded output (internal/session/session.go). */
module Sessions {
  import opened Common

  datatype State = Running | Stopped | Failed

  /** `error` is the text of the last failure; a later stop or clean end does not clear it. */
  datatype Record = Record(state: State, error: string, output: seq<byte>)

  /** Where every session's life begins. */
  const STARTED: Record := Record(Running, "", [])

  datatype Result = Ok | NotFound | NotRunning

  /** How a runner ends: without an error, by cancellation, or with an error. */
  datatype Ending = Clean | Canceled | Error(error: string)

  function Appended(r: Record, data: seq<byte>, maxSize: nat): Record {
    if r.state.Running? then r.(output := LastN(r.output + data, maxSize)) else r
  }

  function Completed(r: Record, ending: Ending): Record {
    if ending.Error? then r.(state := Failed, error := ending.error) else r.(state := Stopped)
  }

  class Manager {
    var items: map<string, Record>
    const maxSize: nat

    constructor (maxSize: int)
      ensures items == map[] && this.maxSize == if maxSize <= 0 then 0x10_0000 else maxSize
    {
      items, this.maxSize := map[], if maxSize <= 0 then 0x10_0000 else maxSize;
    }

    method Start(id: string)
      modifies this
      ensures items == old(items)[id := STARTED]
    {
      items := items[id := STARTED];
    }

    /** What the session's goroutine does when its runner returns. */
    method Complete(id: string, ending: Ending)
      modifies this
      ensures items == if id in old(items) then old(items)[id := Completed(old(items)[id], ending)] else old(items)
    {
      if id !in items { return; }
      var current := items[id];
      if ending.Error? {
        items := items[id := current.(state := Failed, error := ending.error)];
        return;
      }
      items := items[id := current.(state := Stopped)];
    }

    method AppendBounded(output: seq<byte>, data: seq<byte>) returns (result: seq<byte>)
      ensures result == LastN(output + data, maxSize)
    {
      LastNAppend(output, data, maxSize);
      var kept := if |data| > maxSize then data[|data| - maxSize..] else data;
      result := output + kept;
      if |result| > maxSize { result := result[|result| - maxSize..]; }
    }

    method Write(id: string, data: seq<byte>) returns (result: Result)
      modifies this
      ensures id !in old(items) ==> result == NotFound && items == old(items)
      ensures id in old(items) ==>
                && (result == Ok <==> old(items)[id].state.Running?) && result != NotFound
                && items == old(items)[id := Appended(old(items)[id], data, maxSize)]
    {
      if id !in items { return NotFound; }
      var record := items[id];
      if !record.state.Running? { return NotRunning; }
      var output := AppendBounded(record.output, data);
      items := items[id := record.(output := output)];
      return Ok;
    }

    method Stop(id: string) returns (result: Result)
      modifies this
      ensures items == if id in old(items) then old(items)[id := old(items)[id].(state := Stopped)] else old(items)
      ensures result == if id in old(items) then Ok else NotFound
    {
      if id !in items { return NotFound; }
      items := items[id := items[id].(state := Stopped)];
      return Ok;
    }

    method Read(id: string, maxBytes: int) returns (found: Option<Record>)
      ensures found == if id in items then Some(Tail(items[id], maxBytes)) else None
    {
      if id !in items { return None; }
      var data := items[id].output;
      if maxBytes > 0 && |data| > maxBytes { data := data[|data| - maxBytes..]; }
      return Some(items[id].(output := data));
    }
  }

  function Tail(r: Record, maxBytes: int): Record {
    if maxBytes > 0 then r.(output := LastN(r.output, maxBytes)) else r
  }

  // ---------------------------------------------------------------- one session's life

  /** What can happen to a session once started, in the order the lock is taken. */
  datatype Event = Wrote(data: seq<byte>) | WasStopped | RunnerEnded(ending: Ending)

  function Step(r: Record, e: Event, maxSize: nat): Record {
    match e
    case Wrote(data) => Appended(r, data, maxSize)
    case WasStopped => r.(state := Stopped)
    case RunnerEnded(ending) => Completed(r, ending)
  }

  function After(events: seq<Event>, maxSize: nat): Record {
    if events == [] then STARTED
    else Step(After(events[..|events| - 1], maxSize), events[|events| - 1], maxSize)
  }

  /** The writes before the session was first stopped or ended, which are the accepted ones. */
  function Accepted(events: seq<Event>): seq<seq<byte>>
    decreases |events|
  {
    if events == [] || !events[0].Wrote? then [] else [events[0].data] + Accepted(events[1..])
  }

  predicate OnlyWrites(events: seq<Event>) {
    forall e <- events :: e.Wrote?
  }

  /** Appending to the kept end and keeping the end of that is keeping the end of all. */
  lemma AppendedIsTail(before: seq<seq<byte>>, data: seq<byte>, maxSize: nat)
    ensures LastN(LastN(Concat(before), maxSize) + data, maxSize) == LastN(Concat(before + [data]), maxSize)
  {
    ConcatAppend(before, [data]);
    ConcatOne(data);
    LastNAppend(Concat(before), data, maxSize);
  }

  /**
   * Over any interleaving of writes, stops and the runner's end: the stored output is the last
   * `maxSize` bytes of everything accepted, where exactly the writes before the first other event
   * are accepted, and the session runs exactly until that event.
   */
  lemma {:induction false} OutputIsTailOfAccepted(events: seq<Event>, maxSize: nat)
    ensures After(events, maxSize).output == LastN(Concat(Accepted(events)), maxSize)
    ensures After(events, maxSize).state.Running? <==> OnlyWrites(events)
  {
    if events == [] {
    } else {
      var before, last := events[..|events| - 1], events[|events| - 1];
      OutputIsTailOfAccepted(before, maxSize);
      assert events == before + [last];
      AcceptedSplits(before, last);
      if OnlyWrites(before) && last.Wrote? {
        AppendedIsTail(Accepted(before), last.data, maxSize);
      } else {
        assert Accepted(events) == Accepted(before);
      }
    }
  }

  lemma {:induction false} AcceptedSplits(before: seq<Event>, last: Event)
    ensures Accepted(before + [last]) ==
            Accepted(before) + if OnlyWrites(before) && last.Wrote? then [last.data] else []
    decreases |before|
  {
    if before == [] {
      assert [last][1..] == [];
    } else {
      assert (before + [last])[1..] == before[1..] + [last];
      assert OnlyWrites(before) <==> before[0].Wrote? && OnlyWrites(before[1..]) by {
        assert before == [before[0]] + before[1..];
      }
      AcceptedSplits(before[1..], last);
    }
  }

  /** A session that has left Running never returns to it, and its output is final. */
  lemma {:induction false} LeavingIsFinal(events: seq<Event>, more: seq<Event>, maxSize: nat)
    requires !After(events, maxSize).state.Running?
    ensures !After(events + more, maxSize).state.Running?
    ensures After(events + more, maxSize).output == After(events, maxSize).output
    decreases |more|
  {
    if more == [] {
      assert events + more == events;
    } else {
      LeavingIsFinal(events, more[..|more| - 1], maxSize);
      assert (events + more)[..|events + more| - 1] == events + more[..|more| - 1];
    }
  }

  /** The last event that was no write, if there was one. */
  function LastChange(events: seq<Event>): Option<Event> {
    if events == [] then None
    else if events[|events| - 1].Wrote? then LastChange(events[..|events| - 1])
    else Some(events[|events| - 1])
  }

  /** The last error a runner ended with, if one did. */
  function LastError(events: seq<Event>): Option<string> {
    if events == [] then None
    else
      var last := events[|events| - 1];
      if last.RunnerEnded? && last.ending.Error? then Some(last.ending.error) else LastError(events[..|events| - 1])
  }

  /**
   * How a session stands after any life: failed exactly when the last thing that ended it was its
   * runner's error, stopped when that was a stop, a cancellation or a clean end, running when there
   * was none; and the error text is that of the last error.
   */
  lemma {:induction false} StateIsLastEnding(events: seq<Event>, maxSize: nat)
    ensures var r, last := After(events, maxSize), LastChange(events);
            && (r.state.Running? <==> last.None?)
            && (r.state.Failed? <==> last.Some? && last.value.RunnerEnded? && last.value.ending.Error?)
            && r.error == if LastError(events).Some? then LastError(events).value else ""
  {
    if events == [] {
    } else {
      StateIsLastEnding(events[..|events| - 1], maxSize);
    }
  }

  /** A read is the end of everything accepted, as much as was asked for and is kept, and the session as it stands. */
  lemma ReadIsTailOfAccepted(events: seq<Event>, maxSize: nat, maxBytes: int)
    ensures var all, r := Concat(Accepted(events)), After(events, maxSize);
            var read := Tail(r, maxBytes);
            && read.output == LastN(all, if maxBytes > 0 then Min(maxBytes, maxSize) else maxSize)
            && read.state == r.state && read.error == r.error
  {
    OutputIsTailOfAccepted(events, maxSize);
    if maxBytes > 0 { LastNOfLastN(Concat(Accepted(events)), maxSize, maxBytes); }
  }
}
