/**
 * The host's cache of device connections (internal/device/manager.go): looked up and changed
 * under a lock, but dialled outside it.
 */
module ClientCache {
  type DeviceId = string

  /** The critical section of an invalidation: only the client that is filed is taken out. */
  function Evict<C(==)>(clients: map<DeviceId, C>, device: DeviceId, client: C): map<DeviceId, C> {
    if device in clients && clients[device] == client then clients - {device} else clients
  }

  class Client {
    const device: DeviceId
    var closed: bool

    constructor (device: DeviceId)
      ensures this.device == device && !closed
    {
      this.device, closed := device, false;
    }

    method Close()
      modifies this
      ensures closed
    {
      closed := true;
    }
  }

  class Manager {
    var clients: map<DeviceId, Client>

    /** The first critical section of `client`. */
    method Cached(device: DeviceId) returns (client: Client?)
      ensures client == if device in clients then clients[device] else null
    {
      if device in clients { return clients[device]; }
      return null;
    }

    /** The second critical section of `client`, after the dial. */
    method File(device: DeviceId, client: Client)
      modifies this
      ensures clients == old(clients)[device := client]
    {
      clients := clients[device := client];
    }

    method ClientFor(device: DeviceId, dials: bool) returns (client: Client?)
      modifies this
      ensures device in old(clients) ==> client == old(clients)[device] && clients == old(clients)
      ensures device !in old(clients) && dials ==>
                client != null && fresh(client) && client.device == device && !client.closed
                && clients == old(clients)[device := client]
      ensures device !in old(clients) && !dials ==> client == null && clients == old(clients)
    {
      client := Cached(device);
      if client != null || !dials { return; }
      var dialled := new Client(device);
      File(device, dialled);
      client := dialled;
    }

    method Invalidate(client: Client?)
      modifies this, client
      ensures client == null ==> clients == old(clients)
      ensures client != null ==> client.closed && clients == Evict(old(clients), client.device, client)
    {
      if client == null { return; }
      if client.device in clients && clients[client.device] == client {
        clients := clients - {client.device};
      }
      client.Close();
    }
  }

  // ---------------------------------------------------------------- interleaved threads

  /** Connections are numbered as they are dialled. */
  type Ref = nat

  /** Where a thread is between the cache's critical sections. */
  datatype Pc = Idle | Dialling(device: DeviceId) | Filing(device: DeviceId, client: Ref) | Closing(client: Ref)

  /** `held` are the clients a thread has been given so far, invalidated ones included. */
  datatype Thread = Thread(pc: Pc, held: set<Ref>)

  datatype World = World(
    clients: map<DeviceId, Ref>, endpoint: map<Ref, DeviceId>, closed: set<Ref>, threads: map<nat, Thread>)

  datatype Event =
    | Spawn(t: nat)
    | Share(t: nat, to: nat, client: Ref)
    | LookUp(t: nat, device: DeviceId)
    | DialSucceeds(t: nat, client: Ref)
    | DialFails(t: nat)
    | FileClient(t: nat)
    | StartInvalidating(t: nat, client: Ref)
    | FinishInvalidating(t: nat)

  predicate Enabled(w: World, e: Event) {
    if e.Spawn? then e.t !in w.threads
    else
      && e.t in w.threads
      && var me := w.threads[e.t];
         match e
         case Share(_, to, client) => to in w.threads && client in me.held
         case LookUp(_, _) => me.pc.Idle?
         case DialSucceeds(_, client) => me.pc.Dialling? && client !in w.endpoint
         case DialFails(_) => me.pc.Dialling?
         case FileClient(_) => me.pc.Filing?
         case StartInvalidating(_, client) => me.pc.Idle? && client in me.held && client in w.endpoint
         case FinishInvalidating(_) => me.pc.Closing?
  }

  function Step(w: World, e: Event): World
    requires Enabled(w, e)
  {
    if e.Spawn? then w.(threads := w.threads[e.t := Thread(Idle, {})])
    else
      var me := w.threads[e.t];
      match e
      case Share(_, to, client) =>
        w.(threads := w.threads[to := w.threads[to].(held := w.threads[to].held + {client})])
      case LookUp(t, device) =>
        w.(threads := w.threads[t :=
          if device in w.clients then me.(held := me.held + {w.clients[device]}) else me.(pc := Dialling(device))])
      case DialSucceeds(t, client) =>
        w.(endpoint := w.endpoint[client := me.pc.device],
           threads := w.threads[t := me.(pc := Filing(me.pc.device, client))])
      case DialFails(t) =>
        w.(threads := w.threads[t := me.(pc := Idle)])
      case FileClient(t) =>
        w.(clients := w.clients[me.pc.device := me.pc.client],
           threads := w.threads[t := Thread(Idle, me.held + {me.pc.client})])
      case StartInvalidating(t, client) =>
        w.(clients := Evict(w.clients, w.endpoint[client], client),
           threads := w.threads[t := me.(pc := Closing(client))])
      case FinishInvalidating(t) =>
        w.(closed := w.closed + {me.pc.client}, threads := w.threads[t := me.(pc := Idle)])
  }

  /** The cache holds only clients filed under their own device, open, and not being closed by anyone. */
  ghost predicate CacheIsSound(w: World) {
    forall device <- w.clients ::
      var client := w.clients[device];
      && client in w.endpoint && w.endpoint[client] == device
      && client !in w.closed
      && forall t <- w.threads :: w.threads[t].pc != Closing(client)
  }

  /** A client between its dial and its filing is known to the dialling thread alone. */
  ghost predicate FreshIsPrivate(w: World) {
    forall t <- w.threads | w.threads[t].pc.Filing? ::
      var client := w.threads[t].pc.client;
      && client in w.endpoint && w.endpoint[client] == w.threads[t].pc.device
      && client !in w.closed && client !in w.clients.Values
      && (forall u <- w.threads :: client !in w.threads[u].held && w.threads[u].pc != Closing(client))
      && (forall u <- w.threads | u != t && w.threads[u].pc.Filing? :: w.threads[u].pc.client != client)
  }

  ghost predicate RefsExist(w: World) {
    && w.closed <= w.endpoint.Keys
    && forall t <- w.threads ::
         && w.threads[t].held <= w.endpoint.Keys
         && (w.threads[t].pc.Closing? ==> w.threads[t].pc.client in w.endpoint)
  }

  ghost predicate Inv(w: World) {
    CacheIsSound(w) && FreshIsPrivate(w) && RefsExist(w)
  }

  lemma StepKeepsCacheSound(w: World, e: Event)
    requires Inv(w) && Enabled(w, e)
    ensures CacheIsSound(Step(w, e))
  {
  }

  lemma StepKeepsFreshPrivate(w: World, e: Event)
    requires Inv(w) && Enabled(w, e)
    ensures FreshIsPrivate(Step(w, e))
  {
  }

  lemma StepKeepsInv(w: World, e: Event)
    requires Inv(w) && Enabled(w, e)
    ensures Inv(Step(w, e))
  {
    StepKeepsCacheSound(w, e);
    StepKeepsFreshPrivate(w, e);
  }

  const START: World := World(map[], map[], {}, map[])

  ghost predicate IsRun(w: World, events: seq<Event>)
    decreases |events|
  {
    events == [] || (Enabled(w, events[0]) && IsRun(Step(w, events[0]), events[1..]))
  }

  function Run(w: World, events: seq<Event>): World
    requires IsRun(w, events)
    decreases |events|
  {
    if events == [] then w else Run(Step(w, events[0]), events[1..])
  }

  lemma {:induction false} RunKeepsInv(w: World, events: seq<Event>)
    requires Inv(w) && IsRun(w, events)
    ensures Inv(Run(w, events))
    decreases |events|
  {
    if events == [] {
    } else {
      StepKeepsInv(w, events[0]);
      RunKeepsInv(Step(w, events[0]), events[1..]);
    }
  }

  /** In every interleaving: what is cached is open, and is filed under its own device. */
  lemma CacheIsSafe(events: seq<Event>)
    requires IsRun(START, events)
    ensures var w := Run(START, events);
            forall device <- w.clients :: w.clients[device] !in w.closed
              && w.clients[device] in w.endpoint && w.endpoint[w.clients[device]] == device
  {
    RunKeepsInv(START, events);
  }

  /** A client that has left the cache, or never got there, and is past its dial. */
  ghost predicate Retired(w: World, client: Ref) {
    && client in w.endpoint
    && client !in w.clients.Values
    && forall t <- w.threads | w.threads[t].pc.Filing? :: w.threads[t].pc.client != client
  }

  /** Invalidating takes out the client it was given, and no other client of any device. */
  lemma InvalidationTakesOnlyItsOwn(w: World, t: nat, client: Ref)
    requires Inv(w) && Enabled(w, StartInvalidating(t, client))
    ensures var after := Step(w, StartInvalidating(t, client));
            && Retired(after, client)
            && forall device <- w.clients | w.clients[device] != client ::
                 device in after.clients && after.clients[device] == w.clients[device]
  {
  }

  /** Once invalidation of a client has begun, no later look-up in any run hands it out again. */
  lemma {:induction false} RetiredIsNeverHandedOut(w: World, client: Ref, events: seq<Event>)
    requires IsRun(w, events) && Retired(w, client)
    ensures Retired(Run(w, events), client)
    decreases |events|
  {
    if events == [] {
    } else {
      var after := Step(w, events[0]);
      forall device <- after.clients
        ensures after.clients[device] != client
      {
        if events[0].FileClient? && device == w.threads[events[0].t].pc.device {
        } else {
          assert after.clients[device] == w.clients[device];
        }
      }
      RetiredIsNeverHandedOut(after, client, events[1..]);
    }
  }

  // ---------------------------------------------------------------- the cache is of use

  /** A thread that looks a device up is given the client filed under it, and has to dial exactly when there is none. */
  lemma LookUpFinds(w: World, t: nat, device: DeviceId)
    requires Enabled(w, LookUp(t, device))
    ensures var after := Step(w, LookUp(t, device));
            && after.clients == w.clients && after.closed == w.closed
            && (device in w.clients ==>
                 after.threads[t] == Thread(Idle, w.threads[t].held + {w.clients[device]}))
            && (device !in w.clients ==> after.threads[t] == Thread(Dialling(device), w.threads[t].held))
  {
  }

  /** Nobody invalidates `client`, and nobody else files one under its device. */
  predicate LeavesAlone(w: World, e: Event, device: DeviceId, client: Ref)
    requires Enabled(w, e)
  {
    && !(e.StartInvalidating? && e.client == client)
    && !(e.FileClient? && w.threads[e.t].pc.device == device)
  }

  ghost predicate AllLeaveAlone(w: World, events: seq<Event>, device: DeviceId, client: Ref)
    requires IsRun(w, events)
    decreases |events|
  {
    events == [] ||
    (LeavesAlone(w, events[0], device, client) && AllLeaveAlone(Step(w, events[0]), events[1..], device, client))
  }

  lemma StepKeepsCached(w: World, e: Event, device: DeviceId, client: Ref)
    requires Inv(w) && Enabled(w, e) && LeavesAlone(w, e, device, client)
    requires device in w.clients && w.clients[device] == client
    ensures var after := Step(w, e); device in after.clients && after.clients[device] == client
  {
  }

  /** What was filed stays in the cache, in every interleaving, until it is invalidated or another takes its place. */
  lemma {:induction false} CachedUntilInvalidated(w: World, events: seq<Event>, device: DeviceId, client: Ref)
    requires Inv(w) && IsRun(w, events) && AllLeaveAlone(w, events, device, client)
    requires device in w.clients && w.clients[device] == client
    ensures var after := Run(w, events); device in after.clients && after.clients[device] == client
    decreases |events|
  {
    if events == [] {
    } else {
      StepKeepsInv(w, events[0]);
      StepKeepsCached(w, events[0], device, client);
      CachedUntilInvalidated(Step(w, events[0]), events[1..], device, client);
    }
  }

  /** Filing puts the dialled client into the cache, and gives it to the thread that dialled. */
  lemma FilingCaches(w: World, t: nat)
    requires Inv(w) && Enabled(w, FileClient(t))
    ensures var pc, after := w.threads[t].pc, Step(w, FileClient(t));
            && pc.device in after.clients && after.clients[pc.device] == pc.client
            && after.threads[t] == Thread(Idle, w.threads[t].held + {pc.client})
            && forall other <- w.clients | other != pc.device ::
                 other in after.clients && after.clients[other] == w.clients[other]
  {
  }

  /** A client is closed by the end of its invalidation and by nothing else, and stays closed. */
  lemma ClosedExactlyByInvalidation(w: World, e: Event, client: Ref)
    requires Enabled(w, e)
    ensures client in Step(w, e).closed <==>
            client in w.closed || (e.FinishInvalidating? && w.threads[e.t].pc == Closing(client))
  {
  }
}
