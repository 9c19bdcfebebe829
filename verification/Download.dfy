/**
 * Downloading a file in ranges: the host's loop (internal/device/manager.go) against the
 * daemon's ranged read (device/daemon/Service.m).
 */
module Download {
  import opened Common

  const DEFAULT_READ_BYTES: nat := 0x10_0000

  /** A ranged reply as the host parses it; the numbers come off the wire and may be anything. */
  datatype Range = Range(data: seq<byte>, offset: int, size: int)

  /** Who answers the `call`-th read, made at `offset`; None is a read that failed twice. */
  type Responder = (nat, nat) -> Option<Range>

  datatype Result = Downloaded(data: seq<byte>) | ReadFailed | WrongOffset(got: int, expected: nat)

  /** The reported sizes stay below `bound`. */
  ghost predicate Bounded(read: Responder, bound: int) {
    forall call, offset :: read(call, offset).Some? ==> read(call, offset).value.size <= bound
  }

  /**
   * The loop's meaning from `data` on: the result, and which read was the last. It ends because
   * every turn but the last adds a byte.
   */
  ghost function Fetch(read: Responder, maxBytes: int, bound: int, data: seq<byte>, call: nat): (Result, nat)
    requires maxBytes > 0 || Bounded(read, bound)
    decreases if maxBytes > 0 then maxBytes - |data| else bound - |data|
  {
    var chunk := read(call, |data|);
    if chunk.None? then (ReadFailed, call)
    else if chunk.value.offset != |data| then (WrongOffset(chunk.value.offset, |data|), call)
    else
      var more := data + chunk.value.data;
      if maxBytes > 0 && |more| >= maxBytes then (Downloaded(more[..maxBytes]), call)
      else if |chunk.value.data| == 0 || |more| >= chunk.value.size then (Downloaded(more), call)
      else Fetch(read, maxBytes, bound, more, call + 1)
  }

  /** The reply to a read at `offset` ends a download that comes to `length` bytes. */
  predicate Ends(chunk: Range, maxBytes: int, offset: nat, length: nat) {
    var reached := offset + |chunk.data|;
    if maxBytes > 0 && reached >= maxBytes then length == maxBytes
    else length == reached && (chunk.data == [] || reached >= chunk.size)
  }

  method DownloadChunks(read: Responder, maxBytes: int, ghost bound: int) returns (result: Result)
    requires maxBytes > 0 || Bounded(read, bound)
    ensures result == Fetch(read, maxBytes, bound, [], 0).0
  {
    var data := [];
    var call := 0;
    while true
      invariant Fetch(read, maxBytes, bound, data, call) == Fetch(read, maxBytes, bound, [], 0)
      decreases if maxBytes > 0 then maxBytes - |data| else bound - |data|
    {
      var chunk := read(call, |data|);
      if chunk.None? { return ReadFailed; }
      if chunk.value.offset != |data| { return WrongOffset(chunk.value.offset, |data|); }
      data := data + chunk.value.data;
      if maxBytes > 0 && |data| >= maxBytes { return Downloaded(data[..maxBytes]); }
      if |chunk.value.data| == 0 || |data| >= chunk.value.size { return Downloaded(data); }
      call := call + 1;
    }
  }

  /** The `last` read was made at `offset`, and the result is what it says. */
  predicate IsDecidedBy(read: Responder, maxBytes: int, result: Result, last: nat, offset: nat) {
    match read(last, offset)
    case None => result.ReadFailed?
    case Some(chunk) =>
      if chunk.offset != offset then result == WrongOffset(chunk.offset, offset)
      else result.Downloaded? && Ends(chunk, maxBytes, offset, |result.data|)
  }

  /**
   * Against any responder: the download fails exactly when the last read did, reports a wrong offset
   * exactly when that read answered at another offset than it was asked for, and succeeds exactly
   * when that read came at its place and ended the file or filled `maxBytes`.
   */
  lemma {:induction false} LastReadDecides(read: Responder, maxBytes: int, bound: int, data: seq<byte>, call: nat)
    requires maxBytes > 0 || Bounded(read, bound)
    requires maxBytes > 0 ==> |data| < maxBytes
    ensures var (result, last) := Fetch(read, maxBytes, bound, data, call);
            last >= call && exists offset :: IsDecidedBy(read, maxBytes, result, last, offset)
    decreases if maxBytes > 0 then maxBytes - |data| else bound - |data|
  {
    var (result, last) := Fetch(read, maxBytes, bound, data, call);
    var chunk := read(call, |data|);
    if chunk.None? || chunk.value.offset != |data| {
      assert IsDecidedBy(read, maxBytes, result, call, |data|);
    } else {
      var more := data + chunk.value.data;
      if (maxBytes > 0 && |more| >= maxBytes) || |chunk.value.data| == 0 || |more| >= chunk.value.size {
        assert IsDecidedBy(read, maxBytes, result, call, |data|);
      } else {
        LastReadDecides(read, maxBytes, bound, more, call + 1);
      }
    }
  }

  /**
   * The daemon's answer. It takes the size first and reads afterwards, at most `available` bytes at
   * once, so the file may have grown from `sized` to `seen` in between.
   */
  function ReadRange(sized: seq<byte>, seen: seq<byte>, offset: nat, maxBytes: nat, available: nat): Range
    requires sized <= seen
  {
    var start := Min(offset, |sized|);
    var length := Min(Min(if maxBytes > 0 then maxBytes else DEFAULT_READ_BYTES, available), |seen| - start);
    Range(seen[start..start + length], start, |sized|)
  }

  /** The contents of one file while it is read: call by call as its size is taken, and as it is read. */
  datatype History = History(sized: nat -> seq<byte>, seen: nat -> seq<byte>)

  /** A file that is only ever appended to. */
  ghost predicate Grows(h: History) {
    forall i: nat :: h.sized(i) <= h.seen(i) && h.seen(i) <= h.sized(i + 1)
  }

  /** A responder that is the daemon reading that file; `None` is a failure on the way. */
  ghost predicate Serves(read: Responder, h: History)
    requires Grows(h)
  {
    forall call, offset :: read(call, offset).Some? ==>
      exists available: nat {:trigger ReadRange(h.sized(call), h.seen(call), offset, DEFAULT_READ_BYTES, available)} ::
        available > 0 &&
        read(call, offset).value == ReadRange(h.sized(call), h.seen(call), offset, DEFAULT_READ_BYTES, available)
  }

  function FirstBytes(file: seq<byte>, maxBytes: int): seq<byte> {
    if maxBytes > 0 then file[..Min(maxBytes, |file|)] else file
  }

  /**
   * Cut at `maxBytes`, `data` is the file as it was when sized, or with some of what was appended until
   * it was seen.
   */
  predicate IsFileBetween(data: seq<byte>, sized: seq<byte>, seen: seq<byte>, maxBytes: int) {
    FirstBytes(sized, maxBytes) <= data && data <= FirstBytes(seen, maxBytes)
  }

  /**
   * One read of at least a byte, if there is one: it extends what was read along the file, and when
   * the loop stops after it, what was read reaches the file's size or its first `maxBytes` bytes.
   */
  lemma OneRead(sized: seq<byte>, seen: seq<byte>, data: seq<byte>, available: nat, maxBytes: int)
    requires sized <= seen && data <= sized && available > 0 && (maxBytes > 0 ==> |data| < maxBytes)
    ensures var chunk := ReadRange(sized, seen, |data|, DEFAULT_READ_BYTES, available);
            var more := data + chunk.data;
            && chunk.offset == |data| && more <= seen
            && (maxBytes > 0 && |more| >= maxBytes ==> IsFileBetween(more[..maxBytes], sized, seen, maxBytes))
            && (maxBytes <= 0 || |more| < maxBytes ==>
                 (|chunk.data| == 0 || |more| >= chunk.size <==> IsFileBetween(more, sized, seen, maxBytes)))
  {
    var chunk := ReadRange(sized, seen, |data|, DEFAULT_READ_BYTES, available);
    var more := data + chunk.data;
    assert more == seen[..|more|];
    assert sized == seen[..|sized|];
  }

  /**
   * Whatever short reads the daemon makes and however the file grows meanwhile, a successful
   * download is the file as it was during the last read, or its first `maxBytes` bytes.
   */
  lemma {:induction false} DownloadIsExact(
    read: Responder, h: History, maxBytes: int, bound: int, data: seq<byte>, call: nat)
    requires Grows(h) && Serves(read, h)
    requires maxBytes > 0 || Bounded(read, bound)
    requires data <= h.sized(call) && (maxBytes > 0 ==> |data| < maxBytes)
    ensures var (result, last) := Fetch(read, maxBytes, bound, data, call);
            && !result.WrongOffset?
            && (result.Downloaded? ==> IsFileBetween(result.data, h.sized(last), h.seen(last), maxBytes))
    decreases if maxBytes > 0 then maxBytes - |data| else bound - |data|
  {
    var chunk := read(call, |data|);
    if chunk.Some? {
      var available: nat :| available > 0 &&
        chunk.value == ReadRange(h.sized(call), h.seen(call), |data|, DEFAULT_READ_BYTES, available);
      OneRead(h.sized(call), h.seen(call), data, available, maxBytes);
      var more := data + chunk.value.data;
      if !(maxBytes > 0 && |more| >= maxBytes) && !(|chunk.value.data| == 0 || |more| >= chunk.value.size) {
        DownloadIsExact(read, h, maxBytes, bound, more, call + 1);
      }
    }
  }

  /** On a file nobody changes, with every read answered, the result is that file or its first bytes. */
  lemma FixedFileIsDownloadedWhole(read: Responder, file: seq<byte>, maxBytes: int)
    requires Serves(read, History(_ => file, _ => file)) && forall call, offset :: read(call, offset).Some?
    ensures Bounded(read, |file|)
    ensures Fetch(read, maxBytes, |file|, [], 0).0 == Downloaded(FirstBytes(file, maxBytes))
  {
    var h := History(_ => file, _ => file);
    forall call, offset | read(call, offset).Some?
      ensures read(call, offset).value.size <= |file|
    {
      var available: nat :|
        read(call, offset).value == ReadRange(h.sized(call), h.seen(call), offset, DEFAULT_READ_BYTES, available);
    }
    DownloadIsExact(read, h, maxBytes, |file|, [], 0);
    NeverFails(read, maxBytes, |file|, [], 0);
  }

  lemma {:induction false} NeverFails(read: Responder, maxBytes: int, bound: int, data: seq<byte>, call: nat)
    requires maxBytes > 0 || Bounded(read, bound)
    requires forall c, offset :: read(c, offset).Some?
    ensures !Fetch(read, maxBytes, bound, data, call).0.ReadFailed?
    decreases if maxBytes > 0 then maxBytes - |data| else bound - |data|
  {
    var chunk := read(call, |data|);
    var more := data + chunk.value.data;
    if chunk.value.offset == |data| && !(maxBytes > 0 && |more| >= maxBytes) &&
       !(|chunk.value.data| == 0 || |more| >= chunk.value.size) {
      NeverFails(read, maxBytes, bound, more, call + 1);
    }
  }
}
