/**
 * Uploading a file over a link that may fail: the host's chunk loop and its single retry
 * (internal/device/manager.go) against the daemon's file operations (device/daemon/Service.m).
 */
module Upload {
  import opened Common

  type Path = string
  type Files = map<Path, seq<byte>>

  const TRANSFER_CHUNK_BYTES: nat := 0x10_0000

  /** What the host asks of `file_write`; an empty `renameTo` means the key is absent. */
  datatype WriteRequest =
    | Whole(path: Path, data: seq<byte>)
    | Append(path: Path, data: seq<byte>, truncate: bool, renameTo: Path)

  datatype Reply =
    | Written(bytes: nat, size: Option<nat>, appended: bool)
    | Refused

  /**
   * Everything the environment decides about one attempt: whether the request reaches the daemon,
   * which of the daemon's system calls work (and how many bytes the write gets out), and whether
   * the reply reaches the host.
   */
  datatype Attempt = Attempt(
    delivered: bool, unlinks: bool, creates: bool, opens: bool,
    writes: nat, offsets: bool, renames: bool, replied: bool)

  /** The two attempts at one request, and whether the host could dial again in between. */
  datatype Exchange = Exchange(first: Attempt, reconnects: bool, second: Attempt)

  // ---------------------------------------------------------------- the daemon

  function ServeAppend(files: Files, path: Path, data: seq<byte>, renameTo: Path, a: Attempt): (Files, Reply) {
    if path !in files && !a.creates then (files, Refused)
    else
      var present := if path in files then files else files[path := []];
      if !a.opens then (present, Refused)
      else
        var content := present[path] + data[..Min(a.writes, |data|)];
        var appended := present[path := content];
        if a.writes < |data| || !a.offsets then (appended, Refused)
        else if renameTo == "" then (appended, Written(|data|, Some(|content|), true))
        else if !a.renames then (appended, Refused)
        else ((appended - {path})[renameTo := content], Written(|data|, Some(|content|), true))
  }

  function Serve(files: Files, r: WriteRequest, a: Attempt): (Files, Reply) {
    match r
    case Whole(path, data) =>
      if a.writes < |data| || !a.renames then (files, Refused)
      else (files[path := data], Written(|data|, None, false))
    case Append(path, data, truncate, renameTo) =>
      ServeAppend(if truncate && a.unlinks then files - {path} else files, path, data, renameTo, a)
  }

  /** The device's file system, changed one system call at a time. */
  class Device {
    var files: Files

    constructor (files: Files)
      ensures this.files == files
    {
      this.files := files;
    }

    method AppendFile(path: Path, data: seq<byte>, renameTo: Path, a: Attempt) returns (reply: Reply)
      modifies this
      ensures (files, reply) == ServeAppend(old(files), path, data, renameTo, a)
    {
      if path !in files {
        if !a.creates { return Refused; }
        files := files[path := []];
      }
      if !a.opens { return Refused; }
      files := files[path := files[path] + data[..Min(a.writes, |data|)]];
      var size := |files[path]|;
      if a.writes < |data| || !a.offsets { return Refused; }
      if renameTo != "" {
        if !a.renames { return Refused; }
        files := (files - {path})[renameTo := files[path]];
      }
      return Written(|data|, Some(size), true);
    }

    method FileWrite(r: WriteRequest, a: Attempt) returns (reply: Reply)
      modifies this
      ensures (files, reply) == Serve(old(files), r, a)
    {
      match r {
        case Append(path, data, truncate, renameTo) =>
          if truncate && a.unlinks { files := files - {path}; }
          reply := AppendFile(path, data, renameTo, a);
        case Whole(path, data) =>
          // A partial temporary file is unlinked again, so only the rename is visible.
          if a.writes < |data| || !a.renames { return Refused; }
          files := files[path := data];
          reply := Written(|data|, None, false);
      }
    }
  }

  // ---------------------------------------------------------------- the host

  /** One call: a refusal and a lost reply look the same to the host. */
  function Call(files: Files, r: WriteRequest, a: Attempt): (Files, Option<Reply>) {
    if !a.delivered then (files, None)
    else
      var (served, reply) := Serve(files, r, a);
      (served, if reply.Written? && a.replied then Some(reply) else None)
  }

  /** One call and, if it failed and the host could reconnect, one retry of the same request. */
  function Send(files: Files, r: WriteRequest, x: Exchange): (Files, Option<Reply>) {
    var (files1, reply1) := Call(files, r, x.first);
    if reply1.Some? then (files1, reply1)
    else if !x.reconnects then (files1, None)
    else Call(files1, r, x.second)
  }

  function PartOf(destination: Path): Path { destination + ".jb-p1lot-part" }

  function ChunkParams(destination: Path, chunk: seq<byte>, index: nat, chunked: bool, last: bool): WriteRequest {
    if !chunked then Whole(destination, chunk)
    else Append(PartOf(destination), chunk, index == 0, if last then destination else "")
  }

  predicate ConfirmWritten(reply: Reply, expected: nat) {
    reply.Written? ==> reply.bytes == expected
  }

  predicate ConfirmSize(reply: Reply, expected: nat) {
    reply.Written? && reply.appended && reply.size.Some? ==> reply.size.value == expected
  }

  function ChunksFrom(data: seq<byte>, size: nat, start: nat): seq<seq<byte>>
    requires size > 0
    decreases |data| - start
  {
    if start >= |data| then [] else [data[start..Min(start + size, |data|)]] + ChunksFrom(data, size, start + size)
  }

  function Chunks(data: seq<byte>, size: nat): seq<seq<byte>>
    requires size > 0
  {
    if |data| <= size then [data] else ChunksFrom(data, size, 0)
  }

  method TransferChunks(data: seq<byte>, size: nat) returns (chunks: seq<seq<byte>>)
    requires size > 0
    ensures chunks == Chunks(data, size)
  {
    if |data| <= size { return [data]; }
    chunks := [];
    var start := 0;
    while start < |data|
      invariant chunks + ChunksFrom(data, size, start) == ChunksFrom(data, size, 0)
    {
      var chunk := data[start..Min(start + size, |data|)];
      assert chunks + ([chunk] + ChunksFrom(data, size, start + size)) ==
        chunks + [chunk] + ChunksFrom(data, size, start + size);
      chunks := chunks + [chunk];
      start := start + size;
    }
  }

  lemma {:induction false} ChunksFromRejoin(data: seq<byte>, size: nat, start: nat)
    requires size > 0 && start <= |data|
    ensures Concat(ChunksFrom(data, size, start)) == data[start..]
    ensures forall i | 0 <= i < |ChunksFrom(data, size, start)| :: 0 < |ChunksFrom(data, size, start)[i]| <= size
    decreases |data| - start
  {
    if start == |data| {
    } else {
      var chunk, rest := data[start..Min(start + size, |data|)], ChunksFrom(data, size, start + size);
      assert ([chunk] + rest)[1..] == rest;
      if start + size <= |data| {
        ChunksFromRejoin(data, size, start + size);
      }
      assert chunk + data[Min(start + size, |data|)..] == data[start..];
    }
  }

  /** The chunks rejoin to the data; data over one chunk has several, none empty and none too long. */
  lemma ChunksRejoin(data: seq<byte>, size: nat)
    requires size > 0
    ensures var chunks := Chunks(data, size);
            && Concat(chunks) == data && |chunks| > 0
            && (|data| > size ==> |chunks| > 1 && forall i | 0 <= i < |chunks| :: 0 < |chunks[i]| <= size)
  {
    ConcatOne(data);
    ChunksFromRejoin(data, size, 0);
    assert data[0..] == data;
  }

  /** The transfer after some chunks: the device's files, the last reply, and whether it still runs. */
  datatype Progress = Progress(files: Files, running: bool, reply: Reply)

  function Request(destination: Path, data: seq<byte>, chunks: seq<seq<byte>>, i: nat): WriteRequest
    requires i < |chunks|
  {
    ChunkParams(destination, chunks[i], i, |data| > TRANSFER_CHUNK_BYTES, i == |chunks| - 1)
  }

  /** What the host makes of the answer to a chunk. */
  function Confirmed(files: Files, r: WriteRequest, before: Reply, reply: Option<Reply>): Progress {
    if reply.None? then Progress(files, false, before)
    else Progress(files, ConfirmWritten(reply.value, |r.data|), reply.value)
  }

  function SendChunk(p: Progress, r: WriteRequest, x: Exchange): Progress {
    var (files, reply) := Send(p.files, r, x);
    Confirmed(files, r, p.reply, reply)
  }

  /** The two checks end the transfer exactly at an answer about another number of bytes. */
  lemma OtherCountsAreRefused(files: Files, r: WriteRequest, before: Reply, bytes: nat, size: nat, expected: nat)
    ensures Confirmed(files, r, before, Some(Written(bytes, Some(size), true))).running <==> bytes == |r.data|
    ensures ConfirmSize(Written(bytes, Some(size), true), expected) <==> size == expected
  {
  }

  /** The first `n` chunks; a failed chunk ends the transfer. */
  function After(files: Files, destination: Path, data: seq<byte>, chunks: seq<seq<byte>>, xs: nat -> Exchange, n: nat)
    : Progress
    requires n <= |chunks|
  {
    if n == 0 then Progress(files, true, Refused)
    else
      var p := After(files, destination, data, chunks, xs, n - 1);
      if p.running then SendChunk(p, Request(destination, data, chunks, n - 1), xs(n - 1)) else p
  }

  datatype Result = Uploaded | Failed | TooLarge

  function Transfer(files: Files, destination: Path, data: seq<byte>, xs: nat -> Exchange): (Files, Result) {
    if |data| > MAX_FRAME_BYTES then (files, TooLarge)
    else
      var chunks := Chunks(data, TRANSFER_CHUNK_BYTES);
      var end := After(files, destination, data, chunks, xs, |chunks|);
      (end.files, if end.running && ConfirmSize(end.reply, |data|) then Uploaded else Failed)
  }

  method CallWithRetry(device: Device, r: WriteRequest, x: Exchange) returns (reply: Option<Reply>)
    modifies device
    ensures (device.files, reply) == Send(old(device.files), r, x)
  {
    if x.first.delivered {
      var answer := device.FileWrite(r, x.first);
      if answer.Written? && x.first.replied { return Some(answer); }
    }
    if !x.reconnects || !x.second.delivered { return None; }
    var answer := device.FileWrite(r, x.second);
    reply := if answer.Written? && x.second.replied then Some(answer) else None;
  }

  method SendOne(device: Device, r: WriteRequest, x: Exchange, before: Reply) returns (running: bool, response: Reply)
    modifies device
    ensures Progress(device.files, running, response) == SendChunk(Progress(old(device.files), true, before), r, x)
  {
    var reply := CallWithRetry(device, r, x);
    if reply.None? { return false, before; }
    return ConfirmWritten(reply.value, |r.data|), reply.value;
  }

  method SendChunks(device: Device, destination: Path, data: seq<byte>, chunks: seq<seq<byte>>, xs: nat -> Exchange)
    returns (running: bool, response: Reply)
    modifies device
    ensures After(old(device.files), destination, data, chunks, xs, |chunks|) ==
            Progress(device.files, running, response)
  {
    ghost var start := device.files;
    running, response := true, Refused;
    for index := 0 to |chunks|
      invariant running &&
                After(start, destination, data, chunks, xs, index) == Progress(device.files, running, response)
    {
      running, response := SendOne(device, Request(destination, data, chunks, index), xs(index), response);
      assert After(start, destination, data, chunks, xs, index + 1) == Progress(device.files, running, response);
      if !running {
        FailureStays(start, destination, data, chunks, xs, index + 1, |chunks|);
        return;
      }
    }
  }

  method FileTransfer(device: Device, destination: Path, data: seq<byte>, xs: nat -> Exchange) returns (result: Result)
    modifies device
    ensures (device.files, result) == Transfer(old(device.files), destination, data, xs)
  {
    if |data| > MAX_FRAME_BYTES { return TooLarge; }
    var chunks := TransferChunks(data, TRANSFER_CHUNK_BYTES);
    var running, response := SendChunks(device, destination, data, chunks, xs);
    result := if running && ConfirmSize(response, |data|) then Uploaded else Failed;
  }

  lemma {:induction false} FailureStays(
    files: Files, destination: Path, data: seq<byte>, chunks: seq<seq<byte>>, xs: nat -> Exchange, m: nat, n: nat)
    requires m <= n <= |chunks|
    requires !After(files, destination, data, chunks, xs, m).running
    ensures After(files, destination, data, chunks, xs, n) == After(files, destination, data, chunks, xs, m)
    decreases n
  {
    if m == n {
    } else {
      FailureStays(files, destination, data, chunks, xs, m, n - 1);
    }
  }

  // ---------------------------------------------------------------- what one request can do

  /** Two file systems that agree everywhere but on the transfer's own paths. */
  ghost predicate SameExcept(f: Files, g: Files, own: set<Path>) {
    forall p | p !in own :: (p in f <==> p in g) && (p in f ==> f[p] == g[p])
  }

  /** The attempt gets the whole chunk into a part file that is there, and its reply back to the host. */
  predicate Completes(a: Attempt, size: nat, last: bool) {
    a.delivered && a.opens && a.writes >= size && a.offsets && a.replied && (last ==> a.renames)
  }

  predicate LeavesNothing(a: Attempt) { !a.delivered || !a.opens || a.writes == 0 }

  /** What the link must do for a chunk after the first so that the part file grows by exactly that chunk. */
  predicate CleanExchange(x: Exchange, size: nat, last: bool) {
    || Completes(x.first, size, last)
    || (x.reconnects && Completes(x.second, size, last) && LeavesNothing(x.first))
  }

  /** The size of the part file, if there is one. */
  function Found(files: Files, part: Path): Option<nat> {
    if part in files then Some(|files[part]|) else None
  }

  /** The part file that an attempt at the first chunk leaves where it found `found`. */
  function LeftBehind(found: Option<nat>, size: nat, a: Attempt): Option<nat> {
    if !a.delivered then found
    else
      var kept := if a.unlinks then None else found;
      if kept.None? && !a.creates then None
      else Some((if kept.Some? then kept.value else 0) + if a.opens then Min(a.writes, size) else 0)
  }

  predicate FirstAcknowledged(found: Option<nat>, size: nat, a: Attempt) {
    Completes(a, size, false) && (a.creates || (found.Some? && !a.unlinks))
  }

  /** A stale part file that cannot be unlinked must be empty; otherwise a new one must be created. */
  predicate Restarts(found: Option<nat>, a: Attempt) {
    if found.Some? && !a.unlinks then found.value == 0 else a.creates
  }

  /**
   * What the link must do for the first chunk so that the part file is exactly that chunk: the attempt
   * that is acknowledged restarts the file.
   */
  predicate CleanStart(found: Option<nat>, size: nat, x: Exchange) {
    if FirstAcknowledged(found, size, x.first) then Restarts(found, x.first)
    else
      var left := LeftBehind(found, size, x.first);
      x.reconnects && FirstAcknowledged(left, size, x.second) && Restarts(left, x.second)
  }

  /**
   * `have` holds at least what was acknowledged, and has the same length only if it is the same.
   * Every append, whole or partial, acknowledged or not, preserves this; it is why one size check
   * at the end is enough.
   */
  predicate Covers(have: seq<byte>, acknowledged: seq<byte>) {
    |have| >= |acknowledged| && (|have| == |acknowledged| ==> have == acknowledged)
  }

  /** An intermediate chunk, sent to a part file that exists: no rename, nothing else touched. */
  lemma MiddleChunk(files: Files, part: Path, chunk: seq<byte>, x: Exchange, done: seq<byte>)
    requires part in files && Covers(files[part], done)
    ensures var (after, reply) := Send(files, Append(part, chunk, false, ""), x);
            && SameExcept(files, after, {part})
            && part in after && Covers(after[part], done)
            && (reply.Some? ==> Covers(after[part], done + chunk) && ConfirmWritten(reply.value, |chunk|))
            && (|chunk| > 0 ==>
                 (reply.Some? && |after[part]| == |done + chunk| <==>
                    |files[part]| == |done| && CleanExchange(x, |chunk|, false)))
  {
  }

  lemma FirstCall(files: Files, part: Path, chunk: seq<byte>, a: Attempt)
    ensures var (after, reply) := Call(files, Append(part, chunk, true, ""), a);
            && SameExcept(files, after, {part})
            && Found(after, part) == LeftBehind(Found(files, part), |chunk|, a)
            && (reply.Some? <==> FirstAcknowledged(Found(files, part), |chunk|, a))
            && (reply.Some? ==> part in after && Covers(after[part], chunk) && ConfirmWritten(reply.value, |chunk|))
            && (reply.Some? ==> (|after[part]| == |chunk| <==> Restarts(Found(files, part), a)))
  {
  }

  /**
   * The first chunk: the part file is restarted, so what was there, or a failed first attempt left, is
   * dropped if unlinking works.
   */
  lemma FirstChunk(files: Files, part: Path, chunk: seq<byte>, x: Exchange)
    ensures var (after, reply) := Send(files, Append(part, chunk, true, ""), x);
            && SameExcept(files, after, {part})
            && (reply.Some? ==> part in after && Covers(after[part], chunk) && ConfirmWritten(reply.value, |chunk|))
            && (reply.Some? && after[part] == chunk <==> CleanStart(Found(files, part), |chunk|, x))
  {
    var r := Append(part, chunk, true, "");
    FirstCall(files, part, chunk, x.first);
    FirstCall(Call(files, r, x.first).0, part, chunk, x.second);
  }

  /**
   * The last chunk. The reported size is the size of what was renamed, and it equals the size of
   * the data only if the destination is the data: either the part file was exact, or a repeat
   * after the rename left a destination of this one chunk, which is shorter than the data.
   */
  lemma LastChunk(files: Files, part: Path, destination: Path, chunk: seq<byte>, x: Exchange, done: seq<byte>)
    requires part in files && Covers(files[part], done) && part != destination && destination != ""
    requires |done| > 0 && |chunk| > 0
    ensures var (after, reply) := Send(files, Append(part, chunk, false, destination), x);
            && SameExcept(files, after, {part, destination})
            && (reply.Some? ==>
                 && destination in after && reply.value == Written(|chunk|, Some(|after[destination]|), true)
                 && (|after[destination]| == |done + chunk| ==> after[destination] == done + chunk))
            && (reply.Some? && |after[destination]| == |done + chunk| <==>
                |files[part]| == |done| && CleanExchange(x, |chunk|, true))
  {
  }

  // ---------------------------------------------------------------- whole transfers

  /** Every chunk before the `n`-th went through without leaving stray bytes. */
  ghost predicate AllClean(found: Option<nat>, chunks: seq<seq<byte>>, xs: nat -> Exchange, n: nat)
    requires n <= |chunks|
  {
    && (n > 0 ==> CleanStart(found, |chunks[0]|, xs(0)))
    && forall i | 0 < i < n :: CleanExchange(xs(i), |chunks[i]|, i == |chunks| - 1)
  }

  /** What holds of the part file after `n` chunks other than the last. */
  ghost predicate PartFileHolds(
    files: Files, part: Path, chunks: seq<seq<byte>>, xs: nat -> Exchange, n: nat, p: Progress)
    requires n <= |chunks|
  {
    if n == 0 then p == Progress(files, true, Refused)
    else
      && SameExcept(files, p.files, {part})
      && (p.running ==> part in p.files && Covers(p.files[part], Concat(chunks[..n])))
      && (p.running && |p.files[part]| == |Concat(chunks[..n])| <==> AllClean(Found(files, part), chunks, xs, n))
  }

  /** Before the last chunk is sent, only the part file has changed, and it covers what was acknowledged. */
  lemma {:induction false} PartFile(
    files: Files, destination: Path, data: seq<byte>, chunks: seq<seq<byte>>, xs: nat -> Exchange, n: nat)
    requires |data| > TRANSFER_CHUNK_BYTES && n < |chunks| && forall i | 0 <= i < |chunks| :: |chunks[i]| > 0
    ensures PartFileHolds(files, PartOf(destination), chunks, xs, n, After(files, destination, data, chunks, xs, n))
  {
    if n == 0 {
    } else {
      PartFile(files, destination, data, chunks, xs, n - 1);
      var p := After(files, destination, data, chunks, xs, n - 1);
      PartFileStep(files, destination, data, chunks, xs, n - 1, p);
    }
  }

  lemma PartFileStep(
    files: Files, destination: Path, data: seq<byte>, chunks: seq<seq<byte>>, xs: nat -> Exchange, i: nat, p: Progress)
    requires |data| > TRANSFER_CHUNK_BYTES && i < |chunks| - 1 && |chunks[i]| > 0
    requires PartFileHolds(files, PartOf(destination), chunks, xs, i, p)
    ensures var r := Request(destination, data, chunks, i);
            PartFileHolds(files, PartOf(destination), chunks, xs, i + 1,
              if p.running then SendChunk(p, r, xs(i)) else p)
  {
    var part, chunk, x := PartOf(destination), chunks[i], xs(i);
    GrowPrefix(chunks, i);
    if i == 0 {
      assert Concat(chunks[..0]) == [];
      assert Concat(chunks[..1]) == chunk;
      FirstChunk(p.files, part, chunk, x);
    } else if p.running {
      MiddleChunk(p.files, part, chunk, x, Concat(chunks[..i]));
    }
  }

  lemma GrowPrefix(chunks: seq<seq<byte>>, i: nat)
    requires i < |chunks|
    ensures Concat(chunks[..i + 1]) == Concat(chunks[..i]) + chunks[i]
  {
    assert chunks[..i + 1] == chunks[..i] + [chunks[i]];
    ConcatAppend(chunks[..i], [chunks[i]]);
    ConcatOne(chunks[i]);
  }

  /** The last chunk on top of what holds of the part file: how the transfer stands in the end. */
  lemma LastStep(
    files: Files, destination: Path, data: seq<byte>, chunks: seq<seq<byte>>, xs: nat -> Exchange, p: Progress)
    requires |data| > TRANSFER_CHUNK_BYTES && destination != "" && |chunks| > 1 && Concat(chunks) == data
    requires |chunks[0]| > 0 && |chunks[|chunks| - 1]| > 0
    requires PartFileHolds(files, PartOf(destination), chunks, xs, |chunks| - 1, p)
    ensures var r := Request(destination, data, chunks, |chunks| - 1);
            var end := if p.running then SendChunk(p, r, xs(|chunks| - 1)) else p;
            && SameExcept(files, end.files, {PartOf(destination), destination})
            && (end.running ==>
                 && destination in end.files
                 && end.reply == Written(|r.data|, Some(|end.files[destination]|), true)
                 && (|end.files[destination]| == |data| ==> end.files[destination] == data))
            && (end.running && |end.files[destination]| == |data| <==>
                AllClean(Found(files, PartOf(destination)), chunks, xs, |chunks|))
  {
    var n := |chunks|;
    GrowPrefix(chunks, n - 1);
    assert chunks[..n] == chunks;
    assert chunks[..n - 1][0] == chunks[0];
    if p.running {
      LastChunk(p.files, PartOf(destination), destination, chunks[n - 1], xs(n - 1), Concat(chunks[..n - 1]));
    }
  }

  /** The outcome of a transfer of more than one chunk, in terms of the device afterwards and of the link. */
  lemma ChunkedTransfer(files: Files, destination: Path, data: seq<byte>, xs: nat -> Exchange)
    requires TRANSFER_CHUNK_BYTES < |data| <= MAX_FRAME_BYTES && destination != ""
    ensures var chunks := Chunks(data, TRANSFER_CHUNK_BYTES);
            var end := After(files, destination, data, chunks, xs, |chunks|);
            var (after, result) := Transfer(files, destination, data, xs);
            && SameExcept(files, after, {PartOf(destination), destination})
            && (result.Uploaded? ==> end.running && destination in after && after[destination] == data)
            && (end.running ==> destination in after && (result.Uploaded? <==> after[destination] == data))
            && (result.Uploaded? <==> AllClean(Found(files, PartOf(destination)), chunks, xs, |chunks|))
  {
    var chunks := Chunks(data, TRANSFER_CHUNK_BYTES);
    ChunksRejoin(data, TRANSFER_CHUNK_BYTES);
    PartFile(files, destination, data, chunks, xs, |chunks| - 1);
    LastStep(files, destination, data, chunks, xs, After(files, destination, data, chunks, xs, |chunks| - 1));
  }

  predicate WholeCompletes(a: Attempt, size: nat) {
    a.delivered && a.writes >= size && a.renames && a.replied
  }

  /** Data of one chunk: the write is atomic and its repeat changes nothing, so a lost reply costs nothing. */
  lemma WholeTransfer(files: Files, destination: Path, data: seq<byte>, xs: nat -> Exchange)
    requires |data| <= TRANSFER_CHUNK_BYTES
    ensures var (after, result) := Transfer(files, destination, data, xs);
            && (after == files || after == files[destination := data])
            && (result.Uploaded? ==> after == files[destination := data])
            && (result.Uploaded? <==>
                 || WholeCompletes(xs(0).first, |data|)
                 || (xs(0).reconnects && WholeCompletes(xs(0).second, |data|)))
            && (result.Uploaded? <==> After(files, destination, data, [data], xs, 1).running)
  {
    var x := xs(0);
    var p := After(files, destination, data, [data], xs, 0);
    assert After(files, destination, data, [data], xs, 1) == SendChunk(p, Whole(destination, data), x);
    assert files[destination := data][destination := data] == files[destination := data];
  }

  /** Every chunk was acknowledged in the end. */
  predicate Acknowledged(files: Files, destination: Path, data: seq<byte>, xs: nat -> Exchange) {
    var chunks := Chunks(data, TRANSFER_CHUNK_BYTES);
    After(files, destination, data, chunks, xs, |chunks|).running
  }

  /**
   * Exactness, for data of any size. Whatever the link and the device's system calls did, a
   * reported success means the destination is the data; and if every chunk was acknowledged in the
   * end, a reported failure means it is not. Nothing but the destination and its part file changed.
   * Exactly data over the limit is reported as too large, and then nothing changed at all.
   */
  lemma UploadIsExact(files: Files, destination: Path, data: seq<byte>, xs: nat -> Exchange)
    requires destination != ""
    ensures var (after, result) := Transfer(files, destination, data, xs);
            && SameExcept(files, after, {PartOf(destination), destination})
            && (result.Uploaded? ==> destination in after && after[destination] == data)
            && (result.TooLarge? <==> |data| > MAX_FRAME_BYTES)
            && (result.TooLarge? ==> after == files)
            && (!result.TooLarge? && Acknowledged(files, destination, data, xs) ==>
                 (result.Uploaded? <==> destination in after && after[destination] == data))
  {
    if |data| > MAX_FRAME_BYTES {
    } else if |data| <= TRANSFER_CHUNK_BYTES {
      WholeTransfer(files, destination, data, xs);
    } else {
      ChunkedTransfer(files, destination, data, xs);
    }
  }

  /**
   * The exact condition on the link for success of a chunked upload: every chunk is acknowledged,
   * the first by an attempt that restarts the part file, and no failed attempt at a later one
   * leaves a byte.
   */
  lemma UploadSucceedsExactlyWhenClean(files: Files, destination: Path, data: seq<byte>, xs: nat -> Exchange)
    requires destination != "" && TRANSFER_CHUNK_BYTES < |data| <= MAX_FRAME_BYTES
    ensures var chunks := Chunks(data, TRANSFER_CHUNK_BYTES);
            Transfer(files, destination, data, xs).1.Uploaded? <==>
            AllClean(Found(files, PartOf(destination)), chunks, xs, |chunks|)
  {
    ChunkedTransfer(files, destination, data, xs);
  }

  /** The destination keeps what it had until the last chunk is sent, and for good if that never happens. */
  lemma DestinationKeptUntilLastChunk(files: Files, destination: Path, data: seq<byte>, xs: nat -> Exchange, n: nat)
    requires destination != "" && |data| <= MAX_FRAME_BYTES
    requires n < |Chunks(data, TRANSFER_CHUNK_BYTES)|
    ensures var p := After(files, destination, data, Chunks(data, TRANSFER_CHUNK_BYTES), xs, n);
            && destination != PartOf(destination)
            && SameExcept(files, p.files, {PartOf(destination)})
            && (!p.running ==> Transfer(files, destination, data, xs) == (p.files, Failed))
  {
    var chunks := Chunks(data, TRANSFER_CHUNK_BYTES);
    if |data| > TRANSFER_CHUNK_BYTES {
      ChunksRejoin(data, TRANSFER_CHUNK_BYTES);
      PartFile(files, destination, data, chunks, xs, n);
    }
    if !After(files, destination, data, chunks, xs, n).running {
      FailureStays(files, destination, data, chunks, xs, n, |chunks|);
    }
  }

  /**
   * Why an abandoned request must not be applied after its retry. Chunks of sizes m, n, n: the
   * first chunk's abandoned request arrives once more after the second chunk and restarts the part
   * file, and the last chunk's first attempt appends but cannot rename. Every chunk is acknowledged
   * and the reported size is the right one, yet the destination lacks the second chunk.
   */
  lemma LateRequestDefeatsSizeCheck(destination: Path, a: seq<byte>, b: seq<byte>, c: seq<byte>)
    requires destination != "" && |b| == |c| > 0 && b != c
    ensures var part := PartOf(destination);
            var works := Attempt(true, true, true, true, |a| + |b|, true, true, true);
            var stuck := works.(renames := false);
            var first := Append(part, a, true, "");
            var last := Append(part, c, false, destination);
            var (sentA, replyA) := Call(map[], first, works);
            var (sentB, replyB) := Call(sentA, Append(part, b, false, ""), works);
            var (late, _) := Call(sentB, first, works);
            var (sentC, replyC) := Send(late, last, Exchange(stuck, true, works));
            && replyA.Some? && replyB.Some? && replyC.Some?
            && ConfirmSize(replyC.value, |a + b + c|)
            && sentC[destination] == a + c + c != a + b + c
  {
    var part, works := PartOf(destination), Attempt(true, true, true, true, |a| + |b|, true, true, true);
    var stuck := works.(renames := false);
    assert a[..|a|] == a && b[..|b|] == b && c[..|c|] == c && [] + a == a;
    var sentA := Call(map[], Append(part, a, true, ""), works).0;
    assert sentA == map[part := a];
    var sentB := Call(sentA, Append(part, b, false, ""), works).0;
    assert sentB == map[part := a + b];
    var late := Call(sentB, Append(part, a, true, ""), works).0;
    assert late == map[part := a];
    var appended := Call(late, Append(part, c, false, destination), stuck).0;
    assert appended == map[part := a + c];
    assert (a + b + c)[|a|..|a| + |b|] == b;
    assert (a + c + c)[|a|..|a| + |b|] == c;
  }
}
