/**
 * Length-prefixed frames: the host's codec (internal/protocol/protocol.go), the daemon's frame
 * helpers (device/common/Frame.m) and its incremental receive loop (device/daemon/Service.m).
 */
module Framing {
  import opened Common

  const DAY_NANOS: int := 24 * 3600 * 1_000_000_000

  /** A protocol frame; `content` stands for the fields nothing here looks at. */
  datatype Frame = Frame(
    version: nat, kind: string, id: nat, stream: nat, deadline: int, verb: string, content: seq<byte>)

  datatype FrameError = EndOfStream | UnexpectedEnd | FrameTooLarge | InvalidFrame | StaleDeadline | WriteFailed

  datatype Result<+T> = Ok(value: T) | Err(error: FrameError)

  /**
   * The JSON libraries: the host's encoder and decoder, and the daemon's parser, which keeps the
   * request as a dictionary of type R.
   */
  datatype Json<+R> = Json(
    encode: Frame -> seq<byte>, decode: seq<byte> -> Option<Frame>,
    parse: seq<byte> -> Option<R>, asRequest: Frame -> R)

  ghost predicate Lawful<R(!new)>(json: Json<R>) {
    forall f :: |json.encode(f)| > 0 && json.decode(json.encode(f)) == Some(f) &&
      json.parse(json.encode(f)) == Some(json.asRequest(f))
  }

  function Header(n: nat): seq<byte>
    requires n < 0x1_0000_0000
  {
    [n / 0x100_0000, n / 0x1_0000 % 0x100, n / 0x100 % 0x100, n % 0x100]
  }

  function Length(header: seq<byte>): nat
    requires |header| >= 4
  {
    header[0] as int * 0x100_0000 + header[1] as int * 0x1_0000 + header[2] as int * 0x100 + header[3] as int
  }

  lemma HeaderLength(n: nat, rest: seq<byte>)
    requires n < 0x1_0000_0000
    ensures |Header(n)| == 4 && Length(Header(n) + rest) == n
    ensures var h := Header(n); ((h[0] as int * 0x100 + h[1]) * 0x100 + h[2]) * 0x100 + h[3] == n
  {
    var bytes := Header(n) + rest;
    var a, b := n / 0x100, n / 0x1_0000;
    assert bytes[0] == n / 0x100_0000 && bytes[1] == b % 0x100 && bytes[2] == a % 0x100 && bytes[3] == n % 0x100;
    assert n == a * 0x100 + n % 0x100;
    assert b == a / 0x100 && a == b * 0x100 + a % 0x100;
    assert n / 0x100_0000 == b / 0x100 && b == b / 0x100 * 0x100 + b % 0x100;
  }

  /** Four bytes are the header of the length they say. */
  lemma LengthHeader(h: seq<byte>)
    requires |h| == 4
    ensures Length(h) < 0x1_0000_0000 && Header(Length(h)) == h
  {
    var a, b, c, d := h[0] as int, h[1] as int, h[2] as int, h[3] as int;
    var n := Length(h);
    assert n == ((a * 0x100 + b) * 0x100 + c) * 0x100 + d;
    assert n / 0x100 == (a * 0x100 + b) * 0x100 + c && n % 0x100 == d;
    assert n / 0x1_0000 == a * 0x100 + b && n / 0x100 % 0x100 == c;
    assert n / 0x100_0000 == a && n / 0x1_0000 % 0x100 == b;
  }

  // ---------------------------------------------------------------- the host's codec

  predicate IsStale(f: Frame, now: int) { f.deadline != 0 && f.deadline < now - DAY_NANOS }

  function Validate(f: Frame, now: int): Option<FrameError> {
    if f.version != 1 || f.id == 0 then Some(InvalidFrame)
    else if f.kind == "request" && f.verb == "" then Some(InvalidFrame)
    else if f.kind == "cancel" && f.stream == 0 && f.id == 0 then Some(InvalidFrame)
    else if f.kind !in {"request", "cancel", "response", "event", "binary", "error"} then Some(InvalidFrame)
    else if IsStale(f, now) then Some(StaleDeadline)
    else None
  }

  /** What the protocol asks of a frame, apart from time. */
  predicate IsProper(f: Frame) {
    && f.version == 1 && f.id != 0
    && (f.kind == "request" || f.kind == "cancel" || f.kind == "response"
        || f.kind == "event" || f.kind == "binary" || f.kind == "error")
    && (f.kind == "request" ==> f.verb != "")
  }

  /** No deadline, or none that passed more than a day ago, in nanoseconds. */
  predicate IsTimely(f: Frame, now: int) { f.deadline == 0 || f.deadline >= now - 86_400_000_000_000 }

  /**
   * A frame passes the checks exactly when it is proper and timely; an improper one is invalid, whatever
   * its deadline.
   */
  lemma ValidExactly(f: Frame, now: int)
    ensures Validate(f, now) ==
            if !IsProper(f) then Some(InvalidFrame) else if !IsTimely(f, now) then Some(StaleDeadline) else None
  {
  }

  function Print(body: seq<byte>): seq<byte>
    requires |body| <= MAX_FRAME_BYTES
  {
    Header(|body|) + body
  }

  /** The bytes `Write` sets out to send, or why it sends none. */
  function Written<R>(json: Json<R>, f: Frame, max: nat, now: int): Result<seq<byte>>
    requires max <= MAX_FRAME_BYTES
  {
    var body := json.encode(f);
    if Validate(f, now).Some? then Err(Validate(f, now).value)
    else if |body| > max then Err(FrameTooLarge)
    else Ok(Print(body))
  }

  /** What a write that fails at byte `stop`, if it does, gets out. */
  function Taken(bytes: seq<byte>, stop: Option<nat>): seq<byte> {
    if stop.Some? then bytes[..Min(stop.value, |bytes|)] else bytes
  }

  /** What `Write` puts on the wire when the writes of header and body may fail, and what it reports. */
  function Sent<R>(json: Json<R>, f: Frame, max: nat, now: int, header: Option<nat>, body: Option<nat>)
    : (seq<byte>, Result<()>)
    requires max <= MAX_FRAME_BYTES
  {
    match Written(json, f, max, now)
    case Err(e) => ([], Err(e))
    case Ok(bytes) =>
      if header.Some? then (Taken(bytes[..4], header), Err(WriteFailed))
      else (bytes[..4] + Taken(bytes[4..], body), if body.Some? then Err(WriteFailed) else Ok(()))
  }

  function Checked(f: Frame, now: int): Result<Frame> {
    if Validate(f, now).Some? then Err(Validate(f, now).value) else Ok(f)
  }

  /** What `Read` makes of the bytes still to come, and what it leaves of them. */
  function Next(decode: seq<byte> -> Option<Frame>, input: seq<byte>, max: nat, now: int): (Result<Frame>, seq<byte>) {
    if |input| < 4 then (Err(if input == [] then EndOfStream else UnexpectedEnd), [])
    else
      var n := Length(input);
      if n == 0 || n > max then (Err(FrameTooLarge), input[4..])
      else if |input| < 4 + n then (Err(if |input| == 4 then EndOfStream else UnexpectedEnd), [])
      else
        var decoded := decode(input[4..4 + n]);
        (if decoded.None? then Err(InvalidFrame) else Checked(decoded.value, now), input[4 + n..])
  }

  class Codec<R> {
    const json: Json<R>
    var input: seq<byte>
    var output: seq<byte>
    var max: nat

    constructor (json: Json<R>, input: seq<byte>)
      ensures this.json == json && this.input == input && output == [] && max == MAX_FRAME_BYTES
    {
      this.json, this.input, output, max := json, input, [], MAX_FRAME_BYTES;
    }

    method SetMaxFrameBytes(n: int)
      requires max <= MAX_FRAME_BYTES
      modifies this`max
      ensures max == if 0 < n <= MAX_FRAME_BYTES then n else old(max)
    {
      if n > 0 && n <= MAX_FRAME_BYTES { max := n; }
    }

    /** `header` and `body` say where the connection fails the two writes, if it does. */
    method Write(f: Frame, now: int, header: Option<nat>, body: Option<nat>) returns (result: Result<()>)
      requires max <= MAX_FRAME_BYTES
      modifies this`output
      ensures output == old(output) + Sent(json, f, max, now, header, body).0
      ensures result == Sent(json, f, max, now, header, body).1
    {
      var invalid := Validate(f, now);
      if invalid.Some? { return Err(invalid.value); }
      var bytes := json.encode(f);
      if |bytes| > max { return Err(FrameTooLarge); }
      output := output + Taken(Header(|bytes|), header);
      if header.Some? { return Err(WriteFailed); }
      output := output + Taken(bytes, body);
      if body.Some? { return Err(WriteFailed); }
      return Ok(());
    }

    method ReadFull(n: nat) returns (bytes: Result<seq<byte>>)
      modifies this`input
      ensures |old(input)| >= n ==> bytes == Ok(old(input)[..n]) && input == old(input)[n..]
      ensures |old(input)| < n ==> bytes == Err(if old(input) == [] then EndOfStream else UnexpectedEnd) && input == []
    {
      if |input| < n {
        bytes := Err(if input == [] then EndOfStream else UnexpectedEnd);
        input := [];
      } else {
        bytes := Ok(input[..n]);
        input := input[n..];
      }
    }

    method Read(now: int) returns (result: Result<Frame>)
      modifies this`input
      ensures (result, input) == Next(json.decode, old(input), max, now)
    {
      var header := ReadFull(4);
      if header.Err? { return Err(header.error); }
      var n := Length(header.value);
      if n <= 0 || n > max { return Err(FrameTooLarge); }
      var body := ReadFull(n);
      if body.Err? { return Err(body.error); }
      assert old(input)[4..][n..] == old(input)[4 + n..];
      assert old(input)[4..][..n] == old(input)[4..4 + n];
      var frame := json.decode(body.value);
      if frame.None? { return Err(InvalidFrame); }
      var invalid := Validate(frame.value, now);
      if invalid.Some? { return Err(invalid.value); }
      return Ok(frame.value);
    }
  }

  /**
   * A body that decodes to `f`, printed, is read as `f` if that passes the reader's checks, and only its
   * bytes are consumed.
   */
  lemma PrintedIsNext(
    decode: seq<byte> -> Option<Frame>, body: seq<byte>, f: Frame, max: nat, now: int, rest: seq<byte>)
    requires 0 < |body| <= max <= MAX_FRAME_BYTES && decode(body) == Some(f)
    ensures Next(decode, Print(body) + rest, max, now) == (Checked(f, now), rest)
  {
    HeaderLength(|body|, body + rest);
    var input := Print(body) + rest;
    assert input == Header(|body|) + (body + rest);
    assert input[4..4 + |body|] == body;
    assert input[4 + |body|..] == rest;
  }

  /** A frame is written exactly when it is proper, timely and within the limit, as its length and its body. */
  lemma WrittenExactly<R>(json: Json<R>, f: Frame, max: nat, now: int)
    requires max <= MAX_FRAME_BYTES
    ensures var body := json.encode(f);
            Written(json, f, max, now) ==
            if !IsProper(f) then Err(InvalidFrame)
            else if !IsTimely(f, now) then Err(StaleDeadline)
            else if |body| > max then Err(FrameTooLarge)
            else Ok(Header(|body|) + body)
  {
    ValidExactly(f, now);
  }

  /** There is a whole frame of legal length at the front of the input. */
  predicate IsWhole(input: seq<byte>, max: nat) {
    |input| >= 4 && 0 < Length(input) <= max && |input| >= 4 + Length(input)
  }

  /** A frame is read exactly when it stands whole at the front, is legally long, decodes, and is proper and timely. */
  lemma ReadExactly(decode: seq<byte> -> Option<Frame>, input: seq<byte>, max: nat, now: int, f: Frame)
    ensures Next(decode, input, max, now).0 == Ok(f) <==>
            && IsWhole(input, max) && decode(input[4..4 + Length(input)]) == Some(f)
            && IsProper(f) && IsTimely(f, now)
    ensures IsWhole(input, max) ==> Next(decode, input, max, now).1 == input[4 + Length(input)..]
  {
    if IsWhole(input, max) {
      var decoded := decode(input[4..4 + Length(input)]);
      if decoded.Some? { ValidExactly(decoded.value, now); }
    }
  }

  /**
   * How a read fails otherwise: nothing at all, a cut frame, a length that is not allowed, or bytes that
   * are no acceptable frame.
   */
  lemma ReadFailsExactly(decode: seq<byte> -> Option<Frame>, input: seq<byte>, max: nat, now: int)
    ensures var (result, rest) := Next(decode, input, max, now);
            && (input == [] ==> result == Err(EndOfStream))
            && (0 < |input| < 4 ==> result == Err(UnexpectedEnd))
            && (result == Err(EndOfStream) || result == Err(UnexpectedEnd) ==> rest == [])
            && (result == Err(FrameTooLarge) ==> |input| >= 4 && rest == input[4..])
            && (|input| >= 4 && (Length(input) == 0 || Length(input) > max) <==> result == Err(FrameTooLarge))
            && (|input| >= 4 && 0 < Length(input) <= max && |input| < 4 + Length(input) ==>
                 result == Err(if |input| == 4 then EndOfStream else UnexpectedEnd))
            && (result == Err(StaleDeadline) <==>
                 && IsWhole(input, max) && decode(input[4..4 + Length(input)]).Some?
                 && var f := decode(input[4..4 + Length(input)]).value; IsProper(f) && !IsTimely(f, now))
  {
    if IsWhole(input, max) {
      var decoded := decode(input[4..4 + Length(input)]);
      if decoded.Some? { ValidExactly(decoded.value, now); }
    }
  }

  function Received(f: Frame, now: int): Result<Frame> {
    if IsStale(f, now) then Err(StaleDeadline) else Ok(f)
  }

  /**
   * A frame that was written is read back, and only its own bytes are consumed. The one exception
   * is exact: a frame whose deadline went stale between the write and the read is refused.
   */
  lemma WrittenIsReadBack<R(!new)>(json: Json<R>, f: Frame, max: nat, sent: int, received: int, rest: seq<byte>)
    requires Lawful(json) && max <= MAX_FRAME_BYTES
    requires Written(json, f, max, sent).Ok?
    ensures Next(json.decode, Written(json, f, max, sent).value + rest, max, received) == (Received(f, received), rest)
  {
    PrintedIsNext(json.decode, json.encode(f), f, max, received, rest);
  }

  /** The request frame of a call (internal/transport/transport.go). */
  function RequestFrame(id: nat, verb: string, deadline: int, content: seq<byte>): Frame {
    Frame(1, "request", id, 0, deadline, verb, content)
  }

  /** The cancel frame of a call that timed out: an id of its own, and the call's as its stream. */
  function CancelFrame(id: nat, call: nat, content: seq<byte>): Frame {
    Frame(1, "cancel", id, call, 0, "", content)
  }

  predicate IsCallFrame(f: Frame) {
    && f.id != 0
    && ((f == RequestFrame(f.id, f.verb, f.deadline, f.content) && f.verb != "")
        || f == CancelFrame(f.id, f.stream, f.content))
  }

  /**
   * Whatever a call sends gets through: every request with a verb, an id that is not zero and a
   * deadline that is not a day past, and every cancel frame, is written and read back as it was.
   */
  lemma CallFramesPass<R(!new)>(json: Json<R>, f: Frame, max: nat, sent: int, received: int, rest: seq<byte>)
    requires Lawful(json) && max <= MAX_FRAME_BYTES && |json.encode(f)| <= max
    requires IsCallFrame(f) && sent <= received
    requires f.deadline == 0 || f.deadline >= received - 86_400_000_000_000
    ensures Written(json, f, max, sent) == Ok(Print(json.encode(f)))
    ensures Next(json.decode, Print(json.encode(f)) + rest, max, received) == (Ok(f), rest)
  {
    WrittenExactly(json, f, max, sent);
    WrittenIsReadBack(json, f, max, sent, received, rest);
  }

  /** A stream of printed frames. */
  function PrintAll(encode: Frame -> seq<byte>, frames: seq<Frame>): seq<byte>
    requires forall f <- frames :: |encode(f)| <= MAX_FRAME_BYTES
  {
    if frames == [] then [] else Print(encode(frames[0])) + PrintAll(encode, frames[1..])
  }

  // ---------------------------------------------------------------- the daemon

  function DictionaryFromFrame<R>(frame: seq<byte>, parse: seq<byte> -> Option<R>): Option<R> {
    if |frame| < 4 then None
    else
      var n := Length(frame);
      if n == 0 || n > MAX_FRAME_BYTES || |frame| < 4 + n then None else parse(frame[4..4 + n])
  }

  /** The requests taken out of a buffer, what is left in it, and whether the connection survives. */
  datatype Drained<+R> = Drained(requests: seq<R>, rest: seq<byte>, alive: bool)

  /** What the front of a buffer is: an unfinished frame, something fatal, or a request and the bytes behind it. */
  datatype Front<+R> = Unfinished | Fatal(left: seq<byte>) | Request(request: R, behind: seq<byte>)

  function FrontOf<R>(buffer: seq<byte>, parse: seq<byte> -> Option<R>): (front: Front<R>)
    ensures front.Request? ==> |front.behind| < |buffer|
  {
    if |buffer| < 4 then Unfinished
    else
      var n := Length(buffer);
      if n == 0 || n > MAX_FRAME_BYTES then Fatal(buffer)
      else if |buffer| < 4 + n then Unfinished
      else
        var request := parse(buffer[4..4 + n]);
        if request.None? then Fatal(buffer[4 + n..]) else Request(request.value, buffer[4 + n..])
  }

  function Drain<R>(buffer: seq<byte>, parse: seq<byte> -> Option<R>): Drained<R>
    decreases |buffer|
  {
    match FrontOf(buffer, parse)
    case Unfinished => Drained([], buffer, true)
    case Fatal(left) => Drained([], left, false)
    case Request(request, behind) =>
      Before(request, Drain(behind, parse))
  }

  /** `request` was taken out ahead of what `d` says. */
  function Before<R>(request: R, d: Drained<R>): Drained<R> {
    Drained([request] + d.requests, d.rest, d.alive)
  }

  /** One accepted connection: its buffer, and the requests handed to the request handler so far. */
  class Connection<R> {
    const parse: seq<byte> -> Option<R>
    var buffer: seq<byte>
    var handled: seq<R>
    var alive: bool

    constructor (parse: seq<byte> -> Option<R>)
      ensures this.parse == parse && State() == Drained([], [], true)
    {
      this.parse, buffer, handled, alive := parse, [], [], true;
    }

    function State(): Drained<R>
      reads this
    {
      Drained(handled, buffer, alive)
    }

    /** Handles every finished frame at the front of the buffer. */
    method DrainBuffer()
      requires alive
      modifies this
      ensures State() == Feed(Drained(old(handled), old(buffer), true), [], parse)
    {
      assert buffer + [] == buffer;
      while |buffer| >= 4
        invariant alive
        invariant Feed(State(), [], parse) == Feed(old(State()), [], parse)
        decreases |buffer|
      {
        assert buffer + [] == buffer;
        var length := Length(buffer);
        if length == 0 || length > MAX_FRAME_BYTES {
          alive := false;
          return;
        }
        if |buffer| < 4 + length { return; }
        ghost var front := FrontOf(buffer, parse);
        var request := DictionaryFromFrame(buffer[..4 + length], parse);
        TakeFrame(buffer, length, parse);
        buffer := buffer[4 + length..];
        if request.None? {
          alive := false;
          return;
        }
        Handled(handled, request.value, buffer, parse);
        handled := handled + [request.value];
      }
      assert buffer + [] == buffer;
    }

    /** One completion of a receive; `alive` afterwards means another receive was issued. */
    method Receive(content: seq<byte>, isComplete: bool, failed: bool)
      requires alive
      modifies this
      ensures failed ==> State() == Drained(old(handled), old(buffer), false)
      ensures !failed ==>
                var fed := Feed(old(State()), content, parse);
                State() == fed.(alive := fed.alive && !isComplete)
    {
      if failed {
        alive := false;
        return;
      }
      assert old(buffer) + content + [] == old(buffer) + content;
      buffer := buffer + content;
      DrainBuffer();
      if isComplete { alive := false; }
    }
  }

  lemma TakeFrame<R>(buffer: seq<byte>, length: nat, parse: seq<byte> -> Option<R>)
    requires |buffer| >= 4 && length == Length(buffer) && 0 < length <= MAX_FRAME_BYTES && |buffer| >= 4 + length
    ensures var request := DictionaryFromFrame(buffer[..4 + length], parse);
            FrontOf(buffer, parse) ==
              if request.None? then Fatal(buffer[4 + length..]) else Request(request.value, buffer[4 + length..])
  {
    assert buffer[..4 + length][4..4 + length] == buffer[4..4 + length];
    assert Length(buffer[..4 + length]) == length;
  }

  lemma Handled<R>(handled: seq<R>, request: R, behind: seq<byte>, parse: seq<byte> -> Option<R>)
    ensures var after := Drain(behind, parse);
            Feed(Drained(handled + [request], behind, true), [], parse) ==
            Drained(handled + ([request] + after.requests), after.rest, after.alive)
  {
    assert behind + [] == behind;
  }

  /** What one more segment does to a connection; a cancelled connection ignores it. */
  function Feed<R>(c: Drained<R>, segment: seq<byte>, parse: seq<byte> -> Option<R>): Drained<R> {
    if !c.alive then c
    else
      var d := Drain(c.rest + segment, parse);
      Drained(c.requests + d.requests, d.rest, d.alive)
  }

  function FeedAll<R>(c: Drained<R>, segments: seq<seq<byte>>, parse: seq<byte> -> Option<R>): Drained<R>
    decreases |segments|
  {
    if segments == [] then c else FeedAll(Feed(c, segments[0], parse), segments[1..], parse)
  }

  lemma FrontSplit<R>(a: seq<byte>, b: seq<byte>, parse: seq<byte> -> Option<R>)
    ensures match FrontOf(a, parse)
            case Unfinished => true
            case Fatal(_) => FrontOf(a + b, parse).Fatal?
            case Request(request, behind) => FrontOf(a + b, parse) == Request(request, behind + b)
  {
    if |a| >= 4 {
      var n := Length(a);
      assert Length(a + b) == n;
      if 0 < n <= MAX_FRAME_BYTES && |a| >= 4 + n {
        assert (a + b)[4..4 + n] == a[4..4 + n];
        assert (a + b)[4 + n..] == a[4 + n..] + b;
      }
    }
  }

  lemma DrainOfRequest<R>(a: seq<byte>, parse: seq<byte> -> Option<R>)
    requires FrontOf(a, parse).Request?
    ensures Drain(a, parse) == Before(FrontOf(a, parse).request, Drain(FrontOf(a, parse).behind, parse))
  {
  }

  /** No whole frame yet, and nothing wrong so far. */
  predicate IsUnfinished(bytes: seq<byte>) {
    |bytes| < 4 || (0 < Length(bytes) <= MAX_FRAME_BYTES && |bytes| < 4 + Length(bytes))
  }

  /** At the front is a length that is not allowed, or a whole frame whose body is no request. */
  predicate IsBad<R>(bytes: seq<byte>, parse: seq<byte> -> Option<R>) {
    && |bytes| >= 4
    && var n := Length(bytes);
       n == 0 || n > MAX_FRAME_BYTES || (|bytes| >= 4 + n && parse(bytes[4..4 + n]).None?)
  }

  /** Printed bodies one after the other. */
  function Printed(bodies: seq<seq<byte>>): seq<byte>
    requires forall i | 0 <= i < |bodies| :: |bodies[i]| <= MAX_FRAME_BYTES
  {
    if bodies == [] then [] else Print(bodies[0]) + Printed(bodies[1..])
  }

  /** The bodies are frames of legal length, and parse to the requests. */
  ghost predicate AreRequests<R>(bodies: seq<seq<byte>>, requests: seq<R>, parse: seq<byte> -> Option<R>) {
    |bodies| == |requests| &&
    forall i | 0 <= i < |bodies| :: 0 < |bodies[i]| <= MAX_FRAME_BYTES && parse(bodies[i]) == Some(requests[i])
  }

  /**
   * The bytes are frames of these bodies that parse to the requests, and then `tail`, which `d` goes on
   * or ends with.
   */
  ghost predicate IsParse<R>(bytes: seq<byte>, bodies: seq<seq<byte>>, tail: seq<byte>, d: Drained<R>,
                             parse: seq<byte> -> Option<R>) {
    && AreRequests(bodies, d.requests, parse) && bytes == Printed(bodies) + tail
    && (if d.alive then tail == d.rest && IsUnfinished(tail) else IsBad(tail, parse))
  }

  /** A request at the front is a printed body. */
  lemma FrontIsPrinted<R>(bytes: seq<byte>, parse: seq<byte> -> Option<R>)
    requires FrontOf(bytes, parse).Request?
    ensures var n := Length(bytes);
            && 0 < n <= MAX_FRAME_BYTES && |bytes| >= 4 + n
            && parse(bytes[4..4 + n]) == Some(FrontOf(bytes, parse).request)
            && bytes == Print(bytes[4..4 + n]) + FrontOf(bytes, parse).behind
  {
    var n := Length(bytes);
    assert Length(bytes[..4]) == n;
    LengthHeader(bytes[..4]);
    assert bytes == bytes[..4] + bytes[4..4 + n] + bytes[4 + n..];
  }

  lemma MoreIsParse<R>(body: seq<byte>, behind: seq<byte>, bodies: seq<seq<byte>>, tail: seq<byte>, d: Drained<R>,
                       parse: seq<byte> -> Option<R>)
    requires 0 < |body| <= MAX_FRAME_BYTES && parse(body).Some? && IsParse(behind, bodies, tail, d, parse)
    ensures IsParse(Print(body) + behind, [body] + bodies, tail, Before(parse(body).value, d), parse)
  {
    assert ([body] + bodies)[1..] == bodies;
    assert Print(body) + (Printed(bodies) + tail) == Print(body) + Printed(bodies) + tail;
  }

  /** The bodies of the frames that the buffer loop takes, and where it stops. */
  function Taking<R>(bytes: seq<byte>, parse: seq<byte> -> Option<R>): (seq<seq<byte>>, seq<byte>)
    decreases |bytes|
  {
    match FrontOf(bytes, parse)
    case Request(_, behind) =>
      var (bodies, tail) := Taking(behind, parse);
      ([bytes[4..|bytes| - |behind|]] + bodies, tail)
    case _ => ([], bytes)
  }

  ghost predicate TakesAll<R>(bytes: seq<byte>, parse: seq<byte> -> Option<R>) {
    IsParse(bytes, Taking(bytes, parse).0, Taking(bytes, parse).1, Drain(bytes, parse), parse)
  }

  lemma StopsIsParse<R>(bytes: seq<byte>, parse: seq<byte> -> Option<R>)
    requires !FrontOf(bytes, parse).Request?
    ensures TakesAll(bytes, parse)
  {
    assert Printed([]) + bytes == bytes;
  }

  lemma TakesIsParse<R>(bytes: seq<byte>, parse: seq<byte> -> Option<R>)
    requires FrontOf(bytes, parse).Request? && TakesAll(FrontOf(bytes, parse).behind, parse)
    ensures TakesAll(bytes, parse)
  {
    var behind := FrontOf(bytes, parse).behind;
    var (bodies, tail) := Taking(behind, parse);
    FrontIsPrinted(bytes, parse);
    DrainOfRequest(bytes, parse);
    MoreIsParse(bytes[4..4 + Length(bytes)], behind, bodies, tail, Drain(behind, parse), parse);
    assert |bytes| - |behind| == 4 + Length(bytes);
  }

  /**
   * The buffer loop is a parser of the stream: the requests it takes are the bodies of the frames
   * at the front, in order and none left out, and it stops at an unfinished frame, or for good at a
   * length that is not allowed or a body that is no request.
   */
  lemma {:induction false} DrainIsParse<R>(bytes: seq<byte>, parse: seq<byte> -> Option<R>)
    ensures TakesAll(bytes, parse)
    decreases |bytes|
  {
    if !FrontOf(bytes, parse).Request? {
      StopsIsParse(bytes, parse);
    } else {
      DrainIsParse(FrontOf(bytes, parse).behind, parse);
      TakesIsParse(bytes, parse);
    }
  }

  /** The bytes of `b` after those of `a` give what a parse of both gives. */
  ghost predicate Splits<R>(a: seq<byte>, b: seq<byte>, parse: seq<byte> -> Option<R>) {
    var d, whole := Drain(a, parse), Drain(a + b, parse);
    if d.alive then whole == Feed(d, b, parse) else whole.requests == d.requests && !whole.alive
  }

  lemma FeedBefore<R>(request: R, d: Drained<R>, b: seq<byte>, parse: seq<byte> -> Option<R>)
    requires d.alive
    ensures Feed(Before(request, d), b, parse) == Before(request, Feed(d, b, parse))
  {
    var more := Drain(d.rest + b, parse).requests;
    assert [request] + (d.requests + more) == [request] + d.requests + more;
  }

  /** A request at the front is the same with or without the later bytes. */
  lemma SplitBehindRequest<R>(a: seq<byte>, b: seq<byte>, parse: seq<byte> -> Option<R>)
    requires FrontOf(a, parse).Request? && Splits(FrontOf(a, parse).behind, b, parse)
    ensures Splits(a, b, parse)
  {
    var request, behind := FrontOf(a, parse).request, FrontOf(a, parse).behind;
    FrontSplit(a, b, parse);
    DrainOfRequest(a, parse);
    DrainOfRequest(a + b, parse);
    if Drain(behind, parse).alive {
      FeedBefore(request, Drain(behind, parse), b, parse);
    }
  }

  lemma SplitAtEnd<R>(a: seq<byte>, b: seq<byte>, parse: seq<byte> -> Option<R>)
    requires !FrontOf(a, parse).Request?
    ensures Splits(a, b, parse)
  {
    FrontSplit(a, b, parse);
  }

  /** Bytes that arrive later never change what the earlier ones meant. */
  lemma {:induction false} DrainSplit<R>(a: seq<byte>, b: seq<byte>, parse: seq<byte> -> Option<R>)
    ensures Splits(a, b, parse)
    decreases |a|
  {
    if !FrontOf(a, parse).Request? {
      SplitAtEnd(a, b, parse);
    } else {
      DrainSplit(FrontOf(a, parse).behind, b, parse);
      SplitBehindRequest(a, b, parse);
    }
  }

  /**
   * Segmentation independence: however a stream is cut, the daemon handles the requests and
   * reaches the verdict of a parse of the whole stream, and while alive it holds the same leftover.
   */
  lemma {:induction false} SegmentationIndependence<R>(
    start: seq<byte>, segments: seq<seq<byte>>, parse: seq<byte> -> Option<R>)
    ensures var fed, whole := FeedAll(Drain(start, parse), segments, parse), Drain(start + Concat(segments), parse);
            && fed.requests == whole.requests && fed.alive == whole.alive
            && (whole.alive ==> fed.rest == whole.rest)
    decreases |segments|
  {
    if segments == [] {
      assert start + Concat(segments) == start;
    } else {
      var s, others := segments[0], segments[1..];
      assert start + Concat(segments) == start + s + Concat(others);
      DrainSplit(start, s, parse);
      var d := Drain(start, parse);
      if d.alive {
        SegmentationIndependence(start + s, others, parse);
      } else {
        CancelledStays(d, segments, parse);
        DrainSplit(start, Concat(segments), parse);
      }
    }
  }

  lemma {:induction false} CancelledStays<R>(c: Drained<R>, segments: seq<seq<byte>>, parse: seq<byte> -> Option<R>)
    requires !c.alive
    ensures FeedAll(c, segments, parse) == c
  {
    if segments == [] {
    } else {
      CancelledStays(c, segments[1..], parse);
    }
  }

  function Requests<R>(json: Json<R>, frames: seq<Frame>): seq<R> {
    seq(|frames|, i requires 0 <= i < |frames| => json.asRequest(frames[i]))
  }

  /** A printed body that parses is the request at the front of the buffer. */
  lemma PrintedIsFront<R>(body: seq<byte>, rest: seq<byte>, parse: seq<byte> -> Option<R>)
    requires 0 < |body| <= MAX_FRAME_BYTES && parse(body).Some?
    ensures FrontOf(Print(body) + rest, parse) == Request(parse(body).value, rest)
  {
    var stream := Print(body) + rest;
    HeaderLength(|body|, body + rest);
    assert stream == Header(|body|) + (body + rest);
    assert stream[4..4 + |body|] == body;
    assert stream[4 + |body|..] == rest;
  }

  lemma {:induction false} PrintedDrains<R(!new)>(json: Json<R>, frames: seq<Frame>)
    requires Lawful(json) && forall f <- frames :: |json.encode(f)| <= MAX_FRAME_BYTES
    ensures Drain(PrintAll(json.encode, frames), json.parse) == Drained(Requests(json, frames), [], true)
  {
    if frames == [] {
    } else {
      PrintedIsFront(json.encode(frames[0]), PrintAll(json.encode, frames[1..]), json.parse);
      PrintedDrains(json, frames[1..]);
      assert Requests(json, frames) == [json.asRequest(frames[0])] + Requests(json, frames[1..]);
    }
  }

  /**
   * What the host prints is what the daemon handles, in order: after any part of the stream, cut
   * into any segments, the daemon is alive and has handled an initial run of the frames, and after
   * all of it exactly those frames with nothing left over.
   */
  lemma DaemonHandlesWhatWasPrinted<R(!new)>(
    json: Json<R>, frames: seq<Frame>, segments: seq<seq<byte>>, unsent: seq<byte>)
    requires Lawful(json) && forall f <- frames :: |json.encode(f)| <= MAX_FRAME_BYTES
    requires Concat(segments) + unsent == PrintAll(json.encode, frames)
    ensures var c := FeedAll(Drained([], [], true), segments, json.parse);
            && c.alive && c.requests <= Requests(json, frames)
            && (unsent == [] ==> c == Drained(Requests(json, frames), [], true))
  {
    SegmentationIndependence([], segments, json.parse);
    assert [] + Concat(segments) == Concat(segments);
    DrainSplit(Concat(segments), unsent, json.parse);
    PrintedDrains(json, frames);
    assert unsent == [] ==> Concat(segments) + unsent == Concat(segments);
  }

  /**
   * What a write leaves on the wire is the printed frame when it succeeds, and otherwise no request
   * unless it is the whole frame.
   */
  lemma FailedWriteIsNoRequest<R(!new)>(
    json: Json<R>, f: Frame, max: nat, now: int, header: Option<nat>, body: Option<nat>)
    requires Lawful(json) && max <= MAX_FRAME_BYTES && Written(json, f, max, now).Ok?
    ensures var (sent, result) := Sent(json, f, max, now, header, body);
            && sent <= PrintAll(json.encode, [f])
            && (result == Ok(()) <==> header.None? && body.None?)
            && (result.Ok? ==> sent == PrintAll(json.encode, [f]))
            && |sent| == (if header.Some? then Min(header.value, 4)
                          else 4 + if body.Some? then Min(body.value, |json.encode(f)|) else |json.encode(f)|)
            && (sent != PrintAll(json.encode, [f]) ==> Drain(sent, json.parse) == Drained([], sent, true))
  {
    var sent, whole := Sent(json, f, max, now, header, body).0, Print(json.encode(f));
    assert PrintAll(json.encode, [f]) == whole;
    assert sent <= whole by { assert whole[..4] + whole[4..] == whole; }
    HeaderLength(|json.encode(f)|, json.encode(f));
    assert |sent| >= 4 ==> sent[..4] == whole[..4];
    assert |sent| == |whole| ==> sent == whole;
  }

  // ---------------------------------------------------------------- streams the host reads

  /** The host's reader takes one frame a call; `times(k)` is when it makes the `k`-th. */
  function ReadMany(decode: seq<byte> -> Option<Frame>, input: seq<byte>, times: nat -> int, count: nat)
    : (seq<Result<Frame>>, seq<byte>)
    decreases count
  {
    if count == 0 then ([], input)
    else
      var (results, left) := ReadMany(decode, input, times, count - 1);
      var (last, rest) := Next(decode, left, MAX_FRAME_BYTES, times(count - 1));
      (results + [last], rest)
  }

  /** What the first `count` frames are read as, each at its own time. */
  function AllChecked(frames: seq<Frame>, times: nat -> int, count: nat): (results: seq<Result<Frame>>)
    requires count <= |frames|
    ensures |results| == count && forall i | 0 <= i < count :: results[i] == Checked(frames[i], times(i))
  {
    if count == 0 then [] else AllChecked(frames, times, count - 1) + [Checked(frames[count - 1], times(count - 1))]
  }

  ghost predicate AllDecode(encode: Frame -> seq<byte>, decode: seq<byte> -> Option<Frame>, frames: seq<Frame>) {
    forall f <- frames :: 0 < |encode(f)| <= MAX_FRAME_BYTES && decode(encode(f)) == Some(f)
  }

  /** A printed stream is read frame by frame, and what comes behind it stays. */
  lemma {:induction false} StreamReadsBack(
    encode: Frame -> seq<byte>, decode: seq<byte> -> Option<Frame>, frames: seq<Frame>, rest: seq<byte>,
    times: nat -> int, count: nat)
    requires AllDecode(encode, decode, frames) && count <= |frames|
    ensures ReadMany(decode, PrintAll(encode, frames) + rest, times, count) ==
            (AllChecked(frames, times, count), PrintAll(encode, frames[count..]) + rest)
    decreases count
  {
    if count == 0 {
      assert frames[0..] == frames;
    } else {
      StreamReadsBack(encode, decode, frames, rest, times, count - 1);
      StreamReadsNext(encode, decode, frames[count - 1..], rest, times(count - 1));
      assert frames[count - 1..][1..] == frames[count..];
    }
  }

  lemma StreamReadsNext(
    encode: Frame -> seq<byte>, decode: seq<byte> -> Option<Frame>, frames: seq<Frame>, rest: seq<byte>, now: int)
    requires AllDecode(encode, decode, frames) && frames != []
    ensures Next(decode, PrintAll(encode, frames) + rest, MAX_FRAME_BYTES, now) ==
            (Checked(frames[0], now), PrintAll(encode, frames[1..]) + rest)
  {
    var body, behind := encode(frames[0]), PrintAll(encode, frames[1..]) + rest;
    assert PrintAll(encode, frames) + rest == Print(body) + behind;
    PrintedIsNext(decode, body, frames[0], MAX_FRAME_BYTES, now, behind);
  }

  /** Every frame passed the writer's checks when it was written. */
  ghost predicate AllWritten<R>(json: Json<R>, frames: seq<Frame>, sent: nat -> int) {
    forall i | 0 <= i < |frames| :: Written(json, frames[i], MAX_FRAME_BYTES, sent(i)).Ok?
  }

  /**
   * What the host's writer printed, its reader takes back frame by frame, refusing exactly those
   * that went stale on the way.
   */
  lemma PrintedReadsBack<R(!new)>(
    json: Json<R>, frames: seq<Frame>, rest: seq<byte>, sent: nat -> int, received: nat -> int)
    requires Lawful(json) && AllWritten(json, frames, sent)
    requires forall f <- frames :: |json.encode(f)| <= MAX_FRAME_BYTES
    ensures var (results, left) := ReadMany(json.decode, PrintAll(json.encode, frames) + rest, received, |frames|);
            && left == rest && |results| == |frames|
            && forall i | 0 <= i < |frames| :: results[i] == Received(frames[i], received(i))
  {
    StreamReadsBack(json.encode, json.decode, frames, rest, received, |frames|);
    assert PrintAll(json.encode, frames[|frames|..]) + rest == rest;
    forall i | 0 <= i < |frames|
      ensures Checked(frames[i], received(i)) == Received(frames[i], received(i))
    {
      assert Written(json, frames[i], MAX_FRAME_BYTES, sent(i)).Ok?;
    }
  }

  // ---------------------------------------------------------------- the daemon's replies

  /** The daemon's encoder; it fails on a dictionary that JSON cannot express. */
  type ReplyEncoder = Frame -> Option<seq<byte>>

  /** The host's decoder undoes it. */
  ghost predicate IsUndone(reply: ReplyEncoder, decode: seq<byte> -> Option<Frame>) {
    forall f :: reply(f).Some? ==> |reply(f).value| > 0 && decode(reply(f).value) == Some(f)
  }

  /** What the daemon stamps on everything its request handler returns. */
  predicate IsReply(f: Frame) {
    f.version == 1 && f.id != 0 && f.deadline == 0 && (f.kind == "response" || f.kind == "error")
  }

  function FrameForDictionary(f: Frame, reply: ReplyEncoder): Option<seq<byte>> {
    if reply(f).None? || |reply(f).value| > MAX_FRAME_BYTES then None else Some(Print(reply(f).value))
  }

  /** What the daemon sends for some replies: nothing for one it gets no frame for. */
  function ReplyStream(replies: seq<Frame>, reply: ReplyEncoder): seq<byte> {
    if replies == [] then []
    else
      var frame := FrameForDictionary(replies[0], reply);
      (if frame.Some? then frame.value else []) + ReplyStream(replies[1..], reply)
  }

  predicate Sendable(f: Frame, reply: ReplyEncoder) { reply(f).Some? && |reply(f).value| <= MAX_FRAME_BYTES }

  function AllSendable(replies: seq<Frame>, reply: ReplyEncoder): (frames: seq<Frame>)
    ensures forall f :: f in frames <==> f in replies && Sendable(f, reply)
  {
    if replies == [] then []
    else (if Sendable(replies[0], reply) then [replies[0]] else []) + AllSendable(replies[1..], reply)
  }

  function Body(reply: ReplyEncoder): Frame -> seq<byte> {
    f => if reply(f).Some? then reply(f).value else []
  }

  lemma {:induction false} ReplyStreamIsPrinted(replies: seq<Frame>, reply: ReplyEncoder)
    ensures ReplyStream(replies, reply) == PrintAll(Body(reply), AllSendable(replies, reply))
  {
    if replies == [] {
    } else {
      var f, others := replies[0], AllSendable(replies[1..], reply);
      ReplyStreamIsPrinted(replies[1..], reply);
      if Sendable(f, reply) {
        assert ([f] + others)[1..] == others;
      } else {
        assert [] + others == others && [] + ReplyStream(replies[1..], reply) == ReplyStream(replies[1..], reply);
      }
    }
  }

  /**
   * The other direction: of any replies the daemon makes, the host reads exactly those that could
   * be encoded within the frame limit, as they were and in their order, whenever it reads them.
   */
  lemma RepliesReadBack(
    replies: seq<Frame>, reply: ReplyEncoder, decode: seq<byte> -> Option<Frame>, rest: seq<byte>, times: nat -> int)
    requires IsUndone(reply, decode) && forall f <- replies :: IsReply(f)
    ensures var sent := AllSendable(replies, reply);
            var (results, left) := ReadMany(decode, ReplyStream(replies, reply) + rest, times, |sent|);
            && left == rest && |results| == |sent| && forall i | 0 <= i < |sent| :: results[i] == Ok(sent[i])
  {
    var sent := AllSendable(replies, reply);
    ReplyStreamIsPrinted(replies, reply);
    StreamReadsBack(Body(reply), decode, sent, rest, times, |sent|);
    assert PrintAll(Body(reply), sent[|sent|..]) + rest == rest;
    forall i | 0 <= i < |sent|
      ensures Checked(sent[i], times(i)) == Ok(sent[i])
    {
      assert sent[i] in replies && IsReply(sent[i]);
    }
  }
}
