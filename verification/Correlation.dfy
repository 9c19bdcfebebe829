/**
 * Matching replies to calls on one connection: `Client.Call` of internal/transport/transport.go
 * against the daemon's request loop (device/daemon/Service.m), which answers frames one by one.
 */
module Correlation {
  import opened Common
  import opened Replay

  const ID_SPACE: int := 0x1_0000_0000_0000_0000

  /** A frame the host wrote: the request of a call, or the cancel frame of a call that timed out. */
  datatype Sent = Request(id: uint64) | Cancel(id: uint64)

  /** A reply, named by the place of the frame it answers. It is of kind "response" if `ok`, else of kind "error". */
  datatype Reply = Reply(about: nat, ok: bool)

  /**
   * One end of a connection: the frames written so far, the replies not yet read, and the place up
   * to which frames have been answered, if they ever will be.
   */
  datatype Link = Link(accepted: seq<uint64>, sent: seq<Sent>, answered: nat, unread: seq<Reply>)

  const NEW_LINK: Link := Link([], [], 0, [])

  /**
   * What happens around one call: does its frame get written, which replies arrive until the
   * deadline, and the random id of the cancel frame written if the deadline passes (none when
   * reading fails for another reason).
   */
  datatype Weather = Weather(writes: bool, arriving: seq<Reply>, cancel: Option<uint64>)

  /** The source returns the reply's content for `Success`, and an error for every other outcome. */
  datatype Outcome =
    | Success(about: nat)
    | ErrorReply(about: nat)
    | NoReply
    | Rejected(verdict: Verdict)
    | NotWritten
    | Closed
    | NoMethod

  predicate Answered(outcome: Outcome) { outcome.Success? || outcome.ErrorReply? }

  /** The replies answer frames from `low` up to `high`, each at most once and in their order. */
  predicate InOrder(replies: seq<Reply>, low: nat, high: nat) {
    && (forall i | 0 <= i < |replies| :: low <= replies[i].about < high)
    && (forall i, j | 0 <= i < j < |replies| :: replies[i].about < replies[j].about)
  }

  /** A cancel frame names no method, so its reply is always an error. */
  predicate RefusesCancels(replies: seq<Reply>, sent: seq<Sent>) {
    forall i | 0 <= i < |replies| && replies[i].about < |sent| && sent[replies[i].about].Cancel? :: !replies[i].ok
  }

  predicate Sound(link: Link) {
    && link.answered <= |link.sent|
    && InOrder(link.unread, 0, link.answered) && RefusesCancels(link.unread, link.sent)
  }

  /** Replies arrive to frames not answered yet, the one the call writes included; one too long to send stays away. */
  predicate Possible(link: Link, w: Weather) {
    && Sound(link)
    && InOrder(w.arriving, link.answered, |link.sent| + 1) && RefusesCancels(w.arriving, link.sent)
  }

  /** The place in the queue of the first reply carrying `id`, or the end of the queue. */
  function FirstWith(sent: seq<Sent>, queue: seq<Reply>, id: uint64): (k: nat)
    requires forall i | 0 <= i < |queue| :: queue[i].about < |sent|
    ensures k <= |queue| && (k < |queue| ==> sent[queue[k].about].id == id)
    ensures forall j | 0 <= j < k :: sent[queue[j].about].id != id
  {
    if queue == [] || sent[queue[0].about].id == id then 0 else FirstWith(sent, queue[1..], id) + 1
  }

  lemma FirstIs(sent: seq<Sent>, queue: seq<Reply>, id: uint64, k: nat)
    requires forall i | 0 <= i < |queue| :: queue[i].about < |sent|
    requires k < |queue| && sent[queue[k].about].id == id && forall j | 0 <= j < k :: sent[queue[j].about].id != id
    ensures FirstWith(sent, queue, id) == k
  {
  }

  /** A call's frame is written, and replies arrive. */
  function Arrived(link: Link, id: uint64, w: Weather): Link
    requires Possible(link, w)
  {
    Link(Extend(link.accepted, MAX_BUFFERED_FRAMES, id), link.sent + [Request(id)],
         if w.arriving == [] then link.answered else w.arriving[|w.arriving| - 1].about + 1,
         link.unread + w.arriving)
  }

  lemma ArrivedIsSound(link: Link, id: uint64, w: Weather)
    requires Possible(link, w)
    ensures Sound(Arrived(link, id, w))
  {
  }

  /**
   * The read loop on what has arrived: replies up to the one with `id` are used up, or all and a cancel
   * frame is written.
   */
  function ReadOn(link: Link, id: uint64, cancel: Option<uint64>): (Link, Outcome)
    requires Sound(link)
  {
    var k := FirstWith(link.sent, link.unread, id);
    if k < |link.unread| then
      (link.(unread := link.unread[k + 1..]),
       if link.unread[k].ok then Success(link.unread[k].about) else ErrorReply(link.unread[k].about))
    else
      (link.(sent := if cancel.Some? then link.sent + [Cancel(cancel.value)] else link.sent, unread := []), NoReply)
  }

  lemma ReadOnKeepsSound(link: Link, id: uint64, cancel: Option<uint64>)
    requires Sound(link)
    ensures Sound(ReadOn(link, id, cancel).0)
  {
  }

  function CallWith(link: Link, id: uint64, w: Weather): (Link, Outcome)
    requires Possible(link, w)
  {
    var verdict := Judge(link.accepted, MAX_BUFFERED_FRAMES, id);
    if !verdict.Accepted? then (link, Rejected(verdict))
    else if !w.writes then (link.(accepted := Extend(link.accepted, MAX_BUFFERED_FRAMES, id)), NotWritten)
    else
      ArrivedIsSound(link, id, w);
      ReadOn(Arrived(link, id, w), id, w.cancel)
  }

  /** A call with a new id whose frame gets written reads on what arrives. */
  lemma WrittenCall(link: Link, id: uint64, w: Weather)
    requires Possible(link, w) && w.writes && id != 0 && id !in link.accepted
    ensures Sound(Arrived(link, id, w)) && CallWith(link, id, w) == ReadOn(Arrived(link, id, w), id, w.cancel)
  {
    ArrivedIsSound(link, id, w);
    assert forall x :: x in LastN(link.accepted, MAX_BUFFERED_FRAMES) ==> x in link.accepted;
  }

  /** What is left unread is again in order, and answers only frames written. */
  lemma CallKeepsSound(link: Link, id: uint64, w: Weather)
    requires Possible(link, w)
    ensures Sound(CallWith(link, id, w).0)
  {
    ArrivedIsSound(link, id, w);
    ReadOnKeepsSound(Arrived(link, id, w), id, w.cancel);
  }

  class Client {
    var nextId: uint64
    var closed: bool
    const guard: ReplayGuard
    var sent: seq<Sent>
    var unread: seq<Reply>
    ghost var answered: nat

    constructor (start: uint64)
      ensures nextId == start && !closed && fresh(guard) && Valid() && State() == NEW_LINK
    {
      guard := new ReplayGuard(MAX_BUFFERED_FRAMES);
      nextId, closed, sent, unread, answered := start, false, [], [], 0;
    }

    ghost predicate Valid()
      reads this, guard
    {
      guard.Valid() && guard.limit == MAX_BUFFERED_FRAMES && Sound(State())
    }

    ghost function State(): Link
      reads this, guard
    {
      Link(guard.accepted, sent, answered, unread)
    }

    method Close()
      modifies this`closed
      ensures closed
    {
      closed := true;
    }

    /** Reads on until a reply carries `id`; None means the replies ran out first. */
    method ReadUntil(id: uint64) returns (reply: Option<Reply>)
      requires forall i | 0 <= i < |unread| :: unread[i].about < |sent|
      modifies this`unread
      ensures var k := FirstWith(sent, old(unread), id);
              if k < |old(unread)| then reply == Some(old(unread)[k]) && unread == old(unread)[k + 1..]
              else reply == None && unread == []
    {
      ghost var queue, read := unread, 0;
      while unread != []
        invariant read <= |queue| && unread == queue[read..]
        invariant FirstWith(sent, queue, id) == read + FirstWith(sent, unread, id)
        decreases |unread|
      {
        var incoming := unread[0];
        unread := unread[1..];
        if sent[incoming.about].id == id { return Some(incoming); }
        read := read + 1;
      }
      return None;
    }

    /** The rest of a call once its frame is written: reads on, and cancels the request if nothing came in time. */
    method Await(id: uint64, cancel: Option<uint64>) returns (outcome: Outcome)
      requires Valid()
      modifies this
      ensures Valid() && nextId == old(nextId) && closed == old(closed)
      ensures (State(), outcome) == ReadOn(old(State()), id, cancel)
    {
      ReadOnKeepsSound(State(), id, cancel);
      var reply := ReadUntil(id);
      if reply.Some? {
        return if reply.value.ok then Success(reply.value.about) else ErrorReply(reply.value.about);
      }
      if cancel.Some? { sent := sent + [Cancel(cancel.value)]; }
      return NoReply;
    }

    method Call(verb: string, w: Weather) returns (outcome: Outcome)
      requires Valid() && Possible(State(), w)
      modifies this, guard
      ensures Valid() && closed == old(closed)
      ensures old(closed) ==> outcome == Closed && State() == old(State()) && nextId == old(nextId)
      ensures !old(closed) && verb == "" ==>
                outcome == NoMethod && State() == old(State()) && nextId == old(nextId)
      ensures !old(closed) && verb != "" ==>
                && nextId == (old(nextId) + 1) % ID_SPACE
                && (State(), outcome) == CallWith(old(State()), nextId, w)
    {
      if closed { return Closed; }
      if verb == "" { return NoMethod; }
      nextId := (nextId + 1) % ID_SPACE;
      ghost var before := State();
      var verdict := guard.Mark(nextId);
      if !verdict.Accepted? { return Rejected(verdict); }
      if !w.writes { return NotWritten; }
      ArrivedIsSound(before, nextId, w);
      sent := sent + [Request(nextId)];
      unread := unread + w.arriving;
      answered := if w.arriving == [] then answered else w.arriving[|w.arriving| - 1].about + 1;
      assert State() == Arrived(before, nextId, w);
      outcome := Await(nextId, w.cancel);
    }
  }

  /** No frame whose reply is unread, or may still come, carries `id`. */
  predicate IsFree(link: Link, id: uint64)
    requires Sound(link)
  {
    && (forall i | 0 <= i < |link.unread| :: link.sent[link.unread[i].about].id != id)
    && (forall k | link.answered <= k < |link.sent| :: link.sent[k].id != id)
  }

  lemma AnswerIsFree(link: Link, id: uint64, w: Weather)
    requires Possible(link, w) && IsFree(link, id)
    ensures var outcome := CallWith(link, id, w).1; Answered(outcome) ==> outcome.about == |link.sent|
  {
  }

  /**
   * A call can only be answered by the reply to its own frame, whatever arrives, exactly when its
   * id is free. Other stale replies, and frames whose reply was read already, do no harm.
   */
  lemma ReplyIsOwnExactlyWhenNoIdClash(link: Link, id: uint64)
    requires Sound(link) && Judge(link.accepted, MAX_BUFFERED_FRAMES, id).Accepted?
    ensures (forall w | Possible(link, w) && Answered(CallWith(link, id, w).1) ::
               CallWith(link, id, w).1.about == |link.sent|)
            <==> IsFree(link, id)
  {
    if IsFree(link, id) {
      forall w | Possible(link, w) { AnswerIsFree(link, id, w); }
    } else {
      if i :| 0 <= i < |link.unread| && link.sent[link.unread[i].about].id == id {
        StaleReplyIsTaken(link, id, i);
      } else {
        var k :| link.answered <= k < |link.sent| && link.sent[k].id == id;
        LateReplyIsTaken(link, id, k);
      }
    }
  }

  lemma StaleReplyIsTaken(link: Link, id: uint64, i: nat)
    requires Sound(link) && Judge(link.accepted, MAX_BUFFERED_FRAMES, id).Accepted?
    requires i < |link.unread| && link.sent[link.unread[i].about].id == id
    ensures var w := Weather(true, [], None);
            && Possible(link, w) && Answered(CallWith(link, id, w).1)
            && CallWith(link, id, w).1.about < |link.sent|
  {
    var queue := link.unread + [];
    assert queue[i] == link.unread[i];
  }

  lemma LateReplyIsTaken(link: Link, id: uint64, k: nat)
    requires Sound(link) && Judge(link.accepted, MAX_BUFFERED_FRAMES, id).Accepted?
    requires link.answered <= k < |link.sent| && link.sent[k].id == id
    ensures var w := Weather(true, [Reply(k, false)], None);
            && Possible(link, w) && Answered(CallWith(link, id, w).1)
            && CallWith(link, id, w).1.about < |link.sent|
  {
    var queue := link.unread + [Reply(k, false)];
    assert queue[|link.unread|].about == k;
  }

  // ---------------------------------------------------------------- what a call comes to

  /** What the caller of a call with a new id should get: its own reply if it arrives, as the daemon meant it. */
  function Expected(own: nat, id: uint64, w: Weather): Outcome {
    if id == 0 then Rejected(ZeroId)
    else if !w.writes then NotWritten
    else if Reply(own, true) in w.arriving then Success(own)
    else if Reply(own, false) in w.arriving then ErrorReply(own)
    else NoReply
  }

  /** The queue once what arrives is appended, and the frames it answers. */
  lemma ReadOnOwn(link: Link, id: uint64, w: Weather)
    requires Possible(link, w) && w.writes && id != 0 && id !in link.accepted
    requires forall i | 0 <= i < |link.unread| && link.unread[i].ok :: link.sent[link.unread[i].about].id != id
    requires forall k | link.answered <= k < |link.sent| && link.sent[k].Request? :: link.sent[k].id != id
    ensures var outcome := CallWith(link, id, w).1;
            || outcome == Expected(|link.sent|, id, w)
            || (outcome.ErrorReply? && outcome.about < |link.sent| && link.sent[outcome.about].id == id)
  {
    WrittenCall(link, id, w);
    var arrived := Arrived(link, id, w);
    var k := FirstWith(arrived.sent, arrived.unread, id);
    if k < |arrived.unread| {
      if arrived.unread[k].about == |link.sent| { OwnReplyIsOnly(link, w, arrived.unread[k]); }
    } else {
      OwnReplyIsMissing(link, id, w);
    }
  }

  /** A reply to the call's own frame has just arrived, and is the only one. */
  lemma OwnReplyIsOnly(link: Link, w: Weather, reply: Reply)
    requires Possible(link, w) && reply in link.unread + w.arriving && reply.about == |link.sent|
    ensures reply in w.arriving && Reply(reply.about, !reply.ok) !in w.arriving
  {
  }

  lemma OwnReplyIsMissing(link: Link, id: uint64, w: Weather)
    requires Possible(link, w) && Sound(Arrived(link, id, w))
    requires var arrived := Arrived(link, id, w); FirstWith(arrived.sent, arrived.unread, id) == |arrived.unread|
    ensures forall i | 0 <= i < |w.arriving| :: w.arriving[i].about != |link.sent|
  {
    var arrived := Arrived(link, id, w);
    forall i | 0 <= i < |w.arriving|
      ensures w.arriving[i].about != |link.sent|
    {
      assert arrived.unread[|link.unread| + i] == w.arriving[i];
    }
  }

  /**
   * A call with a new id that no frame still to be answered has: it succeeds exactly when its own
   * reply arrives and is no error, fails with an error reply exactly when its own reply arrives as
   * one, and has no reply exactly when that does not arrive.
   */
  lemma FreeCallAsExpected(link: Link, id: uint64, w: Weather)
    requires Possible(link, w) && IsFree(link, id) && id !in link.accepted
    ensures CallWith(link, id, w).1 == Expected(|link.sent|, id, w)
  {
    if id != 0 {
      UnseenIsAccepted(link.accepted, MAX_BUFFERED_FRAMES, id);
      if w.writes {
        ReadOnOwn(link, id, w);
        AnswerIsFree(link, id, w);
      }
    }
  }

  /** What the read loop used up and what it left. */
  ghost predicate UsedUp(queue: seq<Reply>, sent: seq<Sent>, id: uint64, outcome: Outcome, left: seq<Reply>)
    requires forall i | 0 <= i < |queue| :: queue[i].about < |sent|
  {
    && |left| <= |queue| && left == queue[|queue| - |left|..]
    && var used := |queue| - |left|;
       if Answered(outcome) then
         && used > 0 && queue[used - 1] == Reply(outcome.about, outcome.Success?)
         && sent[outcome.about].id == id && forall i | 0 <= i < used - 1 :: sent[queue[i].about].id != id
       else outcome.NoReply? && left == [] && forall i | 0 <= i < |queue| :: sent[queue[i].about].id != id
  }

  /**
   * No reply is lost: a call uses up the replies with other ids ahead of its answer and the answer,
   * which it returns as it is, or all if none has its id; the rest waits for the next call. The id
   * is remembered, written or not, and a call that times out writes one cancel frame.
   */
  lemma CallUsesUp(link: Link, id: uint64, w: Weather)
    requires Possible(link, w) && id != 0 && id !in link.accepted
    ensures var (after, outcome) := CallWith(link, id, w);
            && Judge(after.accepted, MAX_BUFFERED_FRAMES, id) == Replayed
            && (!w.writes ==> after.sent == link.sent && after.unread == link.unread && outcome == NotWritten)
            && (w.writes ==>
                 && Sound(Arrived(link, id, w))
                 && UsedUp(link.unread + w.arriving, link.sent + [Request(id)], id, outcome, after.unread)
                 && after.sent == link.sent + [Request(id)] +
                    if outcome.NoReply? && w.cancel.Some? then [Cancel(w.cancel.value)] else [])
  {
    UnseenIsAccepted(link.accepted, MAX_BUFFERED_FRAMES, id);
    var window := LastN(link.accepted + [id], MAX_BUFFERED_FRAMES);
    assert window[|window| - 1] == id;
    if w.writes {
      WrittenCall(link, id, w);
      ReadOnUsesUp(Arrived(link, id, w), id, w.cancel);
    }
  }

  lemma ReadOnUsesUp(link: Link, id: uint64, cancel: Option<uint64>)
    requires Sound(link)
    ensures var (after, outcome) := ReadOn(link, id, cancel);
            && UsedUp(link.unread, link.sent, id, outcome, after.unread)
            && after.sent == link.sent + if outcome.NoReply? && cancel.Some? then [Cancel(cancel.value)] else []
  {
    var (after, outcome) := ReadOn(link, id, cancel);
    var queue, k := link.unread, FirstWith(link.sent, link.unread, id);
    if k < |queue| {
      AnswerUsesUp(queue, link.sent, id, k);
      assert link.sent + [] == link.sent;
    } else {
      assert queue[|queue|..] == [];
    }
  }

  lemma AnswerUsesUp(queue: seq<Reply>, sent: seq<Sent>, id: uint64, k: nat)
    requires forall i | 0 <= i < |queue| :: queue[i].about < |sent|
    requires k == FirstWith(sent, queue, id) && k < |queue|
    ensures var outcome := if queue[k].ok then Success(queue[k].about) else ErrorReply(queue[k].about);
            UsedUp(queue, sent, id, outcome, queue[k + 1..])
  {
  }

  // ---------------------------------------------------------------- whole runs

  /**
   * A call in a run, in the order the calls get the connection's lock. Ids are drawn before the
   * lock is taken, so `ticket`, the number of ids drawn earlier, need not follow that order.
   */
  datatype CallEvent = CallEvent(ticket: nat, w: Weather)

  function IdOf(start: uint64, ticket: nat): uint64 { (start + 1 + ticket) % ID_SPACE }

  /** The connection after the first of the calls. */
  function AfterFirst(link: Link, start: uint64, calls: seq<CallEvent>): Link
    requires calls != [] && Possible(link, calls[0].w)
  {
    CallWith(link, IdOf(start, calls[0].ticket), calls[0].w).0
  }

  /** The daemon answers only frames that were sent, each once and in order, and refuses cancel frames. */
  ghost predicate Plausible(link: Link, start: uint64, calls: seq<CallEvent>)
    decreases |calls|
  {
    calls == [] ||
    (Possible(link, calls[0].w) && Plausible(AfterFirst(link, start, calls), start, calls[1..]))
  }

  /** Fewer than 2^64 ids drawn, each once. */
  ghost predicate DistinctTickets(calls: seq<CallEvent>) {
    && (forall i | 0 <= i < |calls| :: calls[i].ticket < ID_SPACE)
    && (forall i, j | 0 <= i < j < |calls| :: calls[i].ticket != calls[j].ticket)
  }

  lemma TicketsGiveDistinctIds(start: uint64, a: nat, b: nat)
    requires a < ID_SPACE && b < ID_SPACE && a != b
    ensures IdOf(start, a) != IdOf(start, b)
  {
  }

  /** `link` has accepted none of the ids the remaining calls will use. */
  ghost predicate Unaccepted(link: Link, start: uint64, calls: seq<CallEvent>) {
    forall i | 0 <= i < |calls| :: IdOf(start, calls[i].ticket) !in link.accepted
  }

  lemma AcceptsStayFresh(link: Link, start: uint64, calls: seq<CallEvent>)
    requires calls != [] && Possible(link, calls[0].w) && DistinctTickets(calls) && Unaccepted(link, start, calls)
    ensures DistinctTickets(calls[1..])
    ensures Unaccepted(AfterFirst(link, start, calls), start, calls[1..])
  {
    forall i | 0 <= i < |calls[1..]|
      ensures IdOf(start, calls[1..][i].ticket) !in
              Extend(link.accepted, MAX_BUFFERED_FRAMES, IdOf(start, calls[0].ticket))
    {
      TicketsGiveDistinctIds(start, calls[0].ticket, calls[i + 1].ticket);
    }
  }

  // ---------------------------------------------------------------- successes

  /**
   * Every call of the run comes to what it should: a success or error of its own, no reply if its
   * own does not arrive, a refusal only of a zero id. Or it fails with the error reply to an earlier
   * cancel frame that drew its id. In any case a success is the reply to the call's own frame.
   */
  ghost predicate AllSuccessesOwn(link: Link, start: uint64, calls: seq<CallEvent>)
    requires Plausible(link, start, calls)
    decreases |calls|
  {
    calls == [] ||
    var id := IdOf(start, calls[0].ticket);
    var outcome := CallWith(link, id, calls[0].w).1;
    && (outcome.Success? ==> outcome.about == |link.sent|)
    && (|| outcome == Expected(|link.sent|, id, calls[0].w)
        || (outcome.ErrorReply? && outcome.about < |link.sent| && link.sent[outcome.about] == Cancel(id)))
    && AllSuccessesOwn(AfterFirst(link, start, calls), start, calls[1..])
  }

  /** No request frame written has the id of a remaining call; cancel frames may. */
  ghost predicate RequestsDiffer(link: Link, start: uint64, calls: seq<CallEvent>) {
    forall k, i | 0 <= k < |link.sent| && 0 <= i < |calls| && link.sent[k].Request? ::
      link.sent[k].id != IdOf(start, calls[i].ticket)
  }

  lemma SuccessIsOwn(link: Link, id: uint64, w: Weather)
    requires Possible(link, w) && id !in link.accepted
    requires forall k | 0 <= k < |link.sent| && link.sent[k].Request? :: link.sent[k].id != id
    ensures var outcome := CallWith(link, id, w).1;
            && (outcome.Success? ==> outcome.about == |link.sent|)
            && (|| outcome == Expected(|link.sent|, id, w)
                || (outcome.ErrorReply? && outcome.about < |link.sent| && link.sent[outcome.about] == Cancel(id)))
  {
    if id != 0 {
      UnseenIsAccepted(link.accepted, MAX_BUFFERED_FRAMES, id);
      if w.writes { ReadOnOwn(link, id, w); }
    }
  }

  lemma RequestsStayDifferent(link: Link, start: uint64, calls: seq<CallEvent>)
    requires calls != [] && Possible(link, calls[0].w)
    requires DistinctTickets(calls) && RequestsDiffer(link, start, calls)
    ensures RequestsDiffer(AfterFirst(link, start, calls), start, calls[1..])
  {
    forall i | 0 <= i < |calls[1..]|
      ensures IdOf(start, calls[0].ticket) != IdOf(start, calls[1..][i].ticket)
    {
      TicketsGiveDistinctIds(start, calls[0].ticket, calls[i + 1].ticket);
    }
  }

  lemma {:induction false} SuccessesAreOwn(link: Link, start: uint64, calls: seq<CallEvent>)
    requires Plausible(link, start, calls) && DistinctTickets(calls)
    requires Unaccepted(link, start, calls) && RequestsDiffer(link, start, calls)
    ensures AllSuccessesOwn(link, start, calls)
    decreases |calls|
  {
    if calls == [] {
    } else {
      SuccessIsOwn(link, IdOf(start, calls[0].ticket), calls[0].w);
      AcceptsStayFresh(link, start, calls);
      RequestsStayDifferent(link, start, calls);
      SuccessesAreOwn(AfterFirst(link, start, calls), start, calls[1..]);
    }
  }

  /**
   * Correlation on a new connection: in whatever order the calls get the lock, whatever is lost,
   * late or times out, and whatever ids cancel frames draw, every success is the call's own reply.
   */
  lemma EverySuccessIsOwn(start: uint64, calls: seq<CallEvent>)
    requires Plausible(NEW_LINK, start, calls) && DistinctTickets(calls)
    ensures AllSuccessesOwn(NEW_LINK, start, calls)
  {
    SuccessesAreOwn(NEW_LINK, start, calls);
  }

  // ---------------------------------------------------------------- error replies

  /** The answers to the call that timed out and to its cancel frame. */
  const LATE: seq<Reply> := [Reply(0, true), Reply(1, false)]

  /** The connection after a call that timed out. */
  predicate TimedOut(link: Link, id: uint64, cancel: uint64) {
    link.sent == [Request(id), Cancel(cancel)] && link.answered == 0 && link.unread == []
  }

  lemma LateCall(link: Link, id: uint64, cancel: uint64)
    requires link == NEW_LINK.(accepted := link.accepted) && id != 0 && id !in link.accepted
    ensures var w := Weather(true, [], Some(cancel));
            Possible(link, w) && TimedOut(CallWith(link, id, w).0, id, cancel)
  {
  }

  lemma LateIsPossible(link: Link, id: uint64, earlier: uint64, w: Weather)
    requires TimedOut(link, earlier, id) && w.arriving == LATE
    ensures Possible(link, w)
  {
  }

  /** What the later call meets: the answer to the earlier call, then the one to its cancel frame. */
  lemma MisledRead(link: Link, id: uint64, earlier: uint64, cancel: Option<uint64>)
    requires Sound(link) && link.unread == LATE && id != earlier
    requires |link.sent| == 3 && link.sent[0].id == earlier && link.sent[1].id == id
    ensures ReadOn(link, id, cancel).1 == ErrorReply(1)
  {
    FirstIs(link.sent, link.unread, id, 1);
  }

  lemma AppendToNothing<T>(s: seq<T>, t: seq<T>)
    requires s == []
    ensures s + t == t
  {
  }

  lemma AppendedAfterTwo(sent: seq<Sent>, third: Sent)
    requires |sent| == 2
    ensures var longer := sent + [third]; |longer| == 3 && longer[0] == sent[0] && longer[1] == sent[1]
  {
  }

  lemma LateArrives(link: Link, id: uint64, earlier: uint64, w: Weather)
    requires TimedOut(link, earlier, id) && Possible(link, w) && w.arriving == LATE
    ensures var arrived := Arrived(link, id, w);
            && arrived.unread == LATE
            && |arrived.sent| == 3 && arrived.sent[0].id == earlier && arrived.sent[1].id == id
  {
    AppendToNothing(link.unread, w.arriving);
    AppendedAfterTwo(link.sent, Request(id));
  }

  lemma MisledCall(link: Link, id: uint64, earlier: uint64, w: Weather)
    requires TimedOut(link, earlier, id) && id != 0 && id !in link.accepted && id != earlier
    requires w.writes && w.arriving == LATE
    ensures Possible(link, w) && CallWith(link, id, w).1 == ErrorReply(1)
  {
    LateIsPossible(link, id, earlier, w);
    WrittenCall(link, id, w);
    LateArrives(link, id, earlier, w);
    MisledRead(Arrived(link, id, w), id, earlier, w.cancel);
  }

  /** A call can fail with the error reply to a cancel frame, if that drew the call's id. */
  lemma CancelIdCanClash()
    ensures var first := CallWith(NEW_LINK, 7, Weather(true, [], Some(8)));
            && first == (Link([7], [Request(7), Cancel(8)], 0, []), NoReply)
            && var w := Weather(true, LATE, None);
               Possible(first.0, w) && CallWith(first.0, 8, w).1 == ErrorReply(1)
  {
    LateCall(NEW_LINK, 7, 8);
    var after := CallWith(NEW_LINK, 7, Weather(true, [], Some(8))).0;
    assert after.accepted == [7];
    MisledCall(after, 8, 7, Weather(true, LATE, None));
  }

  /**
   * The random id of an earlier call's cancel frame is the id of a later call, and neither call is
   * refused for a zero id.
   */
  predicate Clashes(start: uint64, earlier: CallEvent, later: CallEvent) {
    && IdOf(start, earlier.ticket) != 0 && IdOf(start, later.ticket) != 0
    && earlier.w.cancel == Some(IdOf(start, later.ticket))
  }

  ghost predicate NoClash(start: uint64, calls: seq<CallEvent>) {
    forall i, j | 0 <= i < j < |calls| :: !Clashes(start, calls[i], calls[j])
  }

  /** `link` has written no frame with the id of one that will be written. */
  ghost predicate Unsent(link: Link, start: uint64, calls: seq<CallEvent>) {
    forall k, i | 0 <= k < |link.sent| && 0 <= i < |calls| ::
      IdOf(start, calls[i].ticket) == 0 || link.sent[k].id != IdOf(start, calls[i].ticket)
  }

  /** Every call of the run comes to what it should: its answer, success or error, is that to its own frame. */
  ghost predicate AllCorrelated(link: Link, start: uint64, calls: seq<CallEvent>)
    requires Plausible(link, start, calls)
    decreases |calls|
  {
    calls == [] ||
    var id := IdOf(start, calls[0].ticket);
    && CallWith(link, id, calls[0].w).1 == Expected(|link.sent|, id, calls[0].w)
    && AllCorrelated(AfterFirst(link, start, calls), start, calls[1..])
  }

  lemma AnswerIsOwn(link: Link, id: uint64, w: Weather)
    requires Possible(link, w) && id !in link.accepted
    requires id == 0 || forall k | 0 <= k < |link.sent| :: link.sent[k].id != id
    ensures CallWith(link, id, w).1 == Expected(|link.sent|, id, w)
  {
    if id != 0 { FreeCallAsExpected(link, id, w); }
  }

  lemma FramesStayFresh(link: Link, start: uint64, calls: seq<CallEvent>)
    requires calls != [] && Possible(link, calls[0].w)
    requires DistinctTickets(calls) && NoClash(start, calls) && Unsent(link, start, calls)
    ensures NoClash(start, calls[1..])
    ensures Unsent(AfterFirst(link, start, calls), start, calls[1..])
  {
    forall i | 0 <= i < |calls[1..]|
      ensures IdOf(start, calls[1..][i].ticket) != IdOf(start, calls[0].ticket)
      ensures !Clashes(start, calls[0], calls[1..][i])
    {
      TicketsGiveDistinctIds(start, calls[0].ticket, calls[i + 1].ticket);
    }
  }

  lemma {:induction false} CallsAreCorrelated(link: Link, start: uint64, calls: seq<CallEvent>)
    requires Plausible(link, start, calls) && DistinctTickets(calls) && NoClash(start, calls)
    requires Unaccepted(link, start, calls) && Unsent(link, start, calls)
    ensures AllCorrelated(link, start, calls)
    decreases |calls|
  {
    if calls == [] {
    } else {
      AnswerIsOwn(link, IdOf(start, calls[0].ticket), calls[0].w);
      AcceptsStayFresh(link, start, calls);
      FramesStayFresh(link, start, calls);
      CallsAreCorrelated(AfterFirst(link, start, calls), start, calls[1..]);
    }
  }

  /** Without clashing ids, error replies too are the answer to the call's own frame. */
  lemma EveryReplyIsOwn(start: uint64, calls: seq<CallEvent>)
    requires Plausible(NEW_LINK, start, calls) && DistinctTickets(calls) && NoClash(start, calls)
    ensures AllCorrelated(NEW_LINK, start, calls)
  {
    CallsAreCorrelated(NEW_LINK, start, calls);
  }

  // ---------------------------------------------------------------- a clash does harm

  /** The same ids drawn, for calls and for cancel frames, in the same order. */
  ghost predicate SameIds(a: seq<CallEvent>, b: seq<CallEvent>) {
    |a| == |b| && forall i | 0 <= i < |a| :: a[i].ticket == b[i].ticket && a[i].w.cancel == b[i].w.cancel
  }

  /** The call's frame does not get written, and no reply arrives. */
  predicate IsQuiet(c: CallEvent) { !c.w.writes && c.w.arriving == [] }

  /** Only call `j` is written, and it meets the late answers. */
  ghost predicate Misled(calls: seq<CallEvent>, j: nat) {
    && j < |calls| && calls[j].w.writes && calls[j].w.arriving == LATE
    && forall k | 0 <= k < |calls| && k != j :: IsQuiet(calls[k])
  }

  /** Call `i` is written first and times out; `j` then meets the answers to it and to its cancel frame. */
  ghost predicate Unlucky(calls: seq<CallEvent>, i: nat, j: nat) {
    && i < j < |calls| && calls[i].w.writes && calls[i].w.arriving == []
    && calls[j].w.writes && calls[j].w.arriving == LATE
    && forall k | 0 <= k < |calls| && k != i && k != j :: IsQuiet(calls[k])
  }

  lemma QuietCall(link: Link, id: uint64, w: Weather)
    requires Sound(link) && !w.writes && w.arriving == []
    ensures Possible(link, w)
    ensures var (after, outcome) := CallWith(link, id, w);
            after == link.(accepted := after.accepted) && !Answered(outcome)
  {
  }

  lemma {:induction false} QuietIsPlausible(link: Link, start: uint64, calls: seq<CallEvent>)
    requires Sound(link) && forall k | 0 <= k < |calls| :: IsQuiet(calls[k])
    ensures Plausible(link, start, calls)
    decreases |calls|
  {
    if calls == [] {
    } else {
      QuietCall(link, IdOf(start, calls[0].ticket), calls[0].w);
      QuietIsPlausible(AfterFirst(link, start, calls), start, calls[1..]);
    }
  }

  lemma {:induction false} MisledReply(link: Link, start: uint64, calls: seq<CallEvent>, j: nat, earlier: uint64)
    requires Misled(calls, j) && TimedOut(link, earlier, IdOf(start, calls[j].ticket))
    requires IdOf(start, calls[j].ticket) != 0 && IdOf(start, calls[j].ticket) != earlier
    requires DistinctTickets(calls) && Unaccepted(link, start, calls)
    ensures Plausible(link, start, calls) && !AllCorrelated(link, start, calls)
    decreases j
  {
    var id := IdOf(start, calls[0].ticket);
    if j == 0 {
      MisledCall(link, id, earlier, calls[0].w);
      CallKeepsSound(link, id, calls[0].w);
      QuietIsPlausible(AfterFirst(link, start, calls), start, calls[1..]);
    } else {
      QuietCall(link, id, calls[0].w);
      AcceptsStayFresh(link, start, calls);
      MisledReply(AfterFirst(link, start, calls), start, calls[1..], j - 1, earlier);
    }
  }

  lemma TimedOutReply(link: Link, start: uint64, calls: seq<CallEvent>, j: nat)
    requires Unlucky(calls, 0, j) && Clashes(start, calls[0], calls[j])
    requires link == NEW_LINK.(accepted := link.accepted)
    requires DistinctTickets(calls) && Unaccepted(link, start, calls)
    ensures Plausible(link, start, calls) && !AllCorrelated(link, start, calls)
  {
    var id := IdOf(start, calls[0].ticket);
    LateCall(link, id, calls[0].w.cancel.value);
    AcceptsStayFresh(link, start, calls);
    TicketsGiveDistinctIds(start, calls[0].ticket, calls[j].ticket);
    assert calls[1..][j - 1] == calls[j];
    MisledReply(AfterFirst(link, start, calls), start, calls[1..], j - 1, id);
  }

  lemma {:induction false} UnluckyReply(link: Link, start: uint64, calls: seq<CallEvent>, i: nat, j: nat)
    requires Unlucky(calls, i, j) && Clashes(start, calls[i], calls[j])
    requires link == NEW_LINK.(accepted := link.accepted)
    requires DistinctTickets(calls) && Unaccepted(link, start, calls)
    ensures Plausible(link, start, calls) && !AllCorrelated(link, start, calls)
    decreases i
  {
    if i == 0 {
      TimedOutReply(link, start, calls, j);
    } else {
      QuietCall(link, IdOf(start, calls[0].ticket), calls[0].w);
      AcceptsStayFresh(link, start, calls);
      UnluckyReply(AfterFirst(link, start, calls), start, calls[1..], i - 1, j - 1);
    }
  }

  /** What a plan says about ids, a run of it says too. */
  lemma SameIdsClashAlike(start: uint64, a: seq<CallEvent>, b: seq<CallEvent>)
    requires SameIds(a, b)
    ensures DistinctTickets(b) ==> DistinctTickets(a)
    ensures NoClash(start, b) ==> NoClash(start, a)
  {
    if NoClash(start, b) {
      forall i, j | 0 <= i < j < |a|
        ensures !Clashes(start, a[i], a[j])
      {
        assert !Clashes(start, b[i], b[j]);
      }
    }
  }

  /** `calls` is a way a run on a new connection can go that draws the ids of `plan`. */
  ghost predicate IsRunOf(calls: seq<CallEvent>, start: uint64, plan: seq<CallEvent>) {
    SameIds(calls, plan) && Plausible(NEW_LINK, start, calls)
  }

  lemma UnluckyRun(start: uint64, plan: seq<CallEvent>, i: nat, j: nat)
    requires DistinctTickets(plan) && i < j < |plan| && Clashes(start, plan[i], plan[j])
    ensures exists calls :: IsRunOf(calls, start, plan) && !AllCorrelated(NEW_LINK, start, calls)
  {
    var calls := seq(|plan|, k requires 0 <= k < |plan| =>
      plan[k].(w := Weather(k == i || k == j, if k == j then LATE else [], plan[k].w.cancel)));
    assert SameIds(calls, plan) && Unlucky(calls, i, j);
    SameIdsClashAlike(start, calls, plan);
    UnluckyReply(NEW_LINK, start, calls, i, j);
    assert IsRunOf(calls, start, plan);
  }

  lemma LuckyRun(start: uint64, plan: seq<CallEvent>, calls: seq<CallEvent>)
    requires DistinctTickets(plan) && NoClash(start, plan) && IsRunOf(calls, start, plan)
    ensures AllCorrelated(NEW_LINK, start, calls)
  {
    SameIdsClashAlike(start, calls, plan);
    EveryReplyIsOwn(start, calls);
  }

  /**
   * For the ids a run draws, in the order its calls get the lock: whatever is written, lost, late
   * or times out, every answer, error replies included, is that to the call's own frame, exactly
   * when no cancel frame of an earlier call draws the id of a later one.
   */
  lemma RunsAreCorrelatedExactlyWhenNoClash(start: uint64, plan: seq<CallEvent>)
    requires DistinctTickets(plan)
    ensures (forall calls | IsRunOf(calls, start, plan) :: AllCorrelated(NEW_LINK, start, calls))
            <==> NoClash(start, plan)
  {
    if NoClash(start, plan) {
      forall calls | IsRunOf(calls, start, plan) { LuckyRun(start, plan, calls); }
    } else {
      var i, j :| 0 <= i < j < |plan| && Clashes(start, plan[i], plan[j]);
      UnluckyRun(start, plan, i, j);
    }
  }
}
