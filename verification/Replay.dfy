/** The replay guard of internal/protocol/protocol.go: a bounded window of request ids. */
module Replay {
  import opened Common

  const MAX_BUFFERED_FRAMES: nat := 256

  type uint64 = x: int | 0 <= x < 0x1_0000_0000_0000_0000

  datatype Verdict = Accepted | ZeroId | Replayed

  /** Marking against the history of accepted ids: only the last `limit` of them are remembered. */
  function Judge(accepted: seq<uint64>, limit: nat, id: uint64): Verdict {
    if id == 0 then ZeroId else if id in LastN(accepted, limit) then Replayed else Accepted
  }

  function Extend(accepted: seq<uint64>, limit: nat, id: uint64): seq<uint64> {
    if Judge(accepted, limit, id).Accepted? then accepted + [id] else accepted
  }

  ghost predicate NoDuplicates(s: seq<uint64>) {
    forall i, j | 0 <= i < j < |s| :: s[i] != s[j]
  }

  /** The set has the ids of the queue, and the queue has each once. */
  ghost predicate InStep(seen: set<uint64>, order: seq<uint64>) {
    NoDuplicates(order) && forall id :: id in seen <==> id in order
  }

  lemma AppendKeepsStep(seen: set<uint64>, order: seq<uint64>, id: uint64)
    requires InStep(seen, order) && id !in seen
    ensures InStep(seen + {id}, order + [id])
  {
  }

  lemma DropKeepsStep(seen: set<uint64>, order: seq<uint64>)
    requires InStep(seen, order) && order != []
    ensures InStep(seen - {order[0]}, order[1..])
  {
    assert order == [order[0]] + order[1..];
  }

  /** Appending to the queue and dropping its oldest id keeps the last `limit` accepted ids. */
  lemma QueueIsLast(accepted: seq<uint64>, limit: nat, id: uint64)
    requires limit >= 1
    ensures var order := LastN(accepted, limit) + [id];
            LastN(accepted + [id], limit) == if |order| > limit then order[1..] else order
  {
    LastNAppend(accepted, [id], limit);
  }

  class ReplayGuard {
    var seen: set<uint64>
    var order: seq<uint64>
    const limit: nat
    ghost var accepted: seq<uint64>

    /** The set and the queue hold the same ids, each once: the last `limit` accepted ones. */
    ghost predicate Valid()
      reads this
    {
      && limit >= 1
      && order == LastN(accepted, limit)
      && InStep(seen, order)
    }

    constructor (limit: int)
      ensures Valid() && accepted == [] && this.limit == if limit < 1 then MAX_BUFFERED_FRAMES else limit
    {
      this.limit := if limit < 1 then MAX_BUFFERED_FRAMES else limit;
      seen, order, accepted := {}, [], [];
    }

    method Mark(id: uint64) returns (verdict: Verdict)
      requires Valid()
      modifies this
      ensures Valid()
      ensures verdict == Judge(old(accepted), limit, id)
      ensures accepted == Extend(old(accepted), limit, id)
    {
      if id == 0 { return ZeroId; }
      if id in seen { return Replayed; }
      AppendKeepsStep(seen, order, id);
      seen := seen + {id};
      order := order + [id];
      QueueIsLast(accepted, limit, id);
      accepted := accepted + [id];
      if |order| > limit {
        DropKeepsStep(seen, order);
        var oldest := order[0];
        order := order[1..];
        seen := seen - {oldest};
      }
      return Accepted;
    }
  }

  function MarkAll(ids: seq<uint64>, limit: nat): seq<uint64> {
    if ids == [] then [] else Extend(MarkAll(ids[..|ids| - 1], limit), limit, ids[|ids| - 1])
  }

  /** Over any run, any `limit` + 1 consecutive accepted ids are distinct and none is zero. */
  lemma {:induction false} WindowIsDistinct(ids: seq<uint64>, limit: nat, i: nat, j: nat)
    requires i < j < |MarkAll(ids, limit)| && j <= i + limit
    ensures MarkAll(ids, limit)[i] != MarkAll(ids, limit)[j] && MarkAll(ids, limit)[j] != 0
  {
    var before, id := MarkAll(ids[..|ids| - 1], limit), ids[|ids| - 1];
    if j < |before| {
      WindowIsDistinct(ids[..|ids| - 1], limit, i, j);
    } else {
      var window := LastN(before, limit);
      assert before[i] == window[i - (|before| - |window|)];
    }
  }

  lemma UnseenIsAccepted(accepted: seq<uint64>, limit: nat, id: uint64)
    requires id != 0 && id !in accepted
    ensures Extend(accepted, limit, id) == accepted + [id]
  {
    assert forall x :: x in LastN(accepted, limit) ==> x in accepted;
  }

  lemma LastIsNew(ids: seq<uint64>)
    requires NoDuplicates(ids) && 0 !in ids && ids != []
    ensures var before, last := ids[..|ids| - 1], ids[|ids| - 1];
            NoDuplicates(before) && 0 !in before && last != 0 && last !in before && before + [last] == ids
  {
  }

  /** Ids that differ from each other are all accepted, whatever the limit. */
  lemma {:induction false} FreshIdsAreAccepted(ids: seq<uint64>, limit: nat)
    requires NoDuplicates(ids) && 0 !in ids
    ensures MarkAll(ids, limit) == ids
  {
    if ids == [] {
    } else {
      LastIsNew(ids);
      FreshIdsAreAccepted(ids[..|ids| - 1], limit);
      UnseenIsAccepted(ids[..|ids| - 1], limit, ids[|ids| - 1]);
    }
  }

  /** An id is refused as a replay exactly until `limit` other ids were accepted after it; zero is never accepted. */
  lemma RememberedExactly(before: seq<uint64>, since: seq<uint64>, limit: nat, id: uint64)
    requires limit >= 1 && id !in since
    ensures Judge(before + [id] + since, limit, id) ==
            if id == 0 then ZeroId else if |since| < limit then Replayed else Accepted
  {
    var all := before + [id] + since;
    var window := LastN(all, limit);
    if |since| < limit {
      assert window[|window| - 1 - |since|] == id;
    } else {
      assert forall i | 0 <= i < |window| :: window[i] == since[|since| - |window| + i];
    }
  }
}
