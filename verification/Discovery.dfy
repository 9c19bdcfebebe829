/**
 * Merging the devices a helper lists with the bridges announced over Bonjour
 * (internal/discovery/discovery.go), and the helper's own list (helpers/idevice/src/main.rs).
 * Go iterates a map in any order; here that order is a parameter.
 */
module Discovery {
  import opened Common

  datatype Device = Device(
    id: string, name: string, product: string, osVersion: string,
    connection: string, address: string, port: int, paired: bool, bridge: bool, source: string)

  type Devices = map<string, Device>

  /** The order in which the map with these keys is iterated the `k`-th time a map is iterated. */
  type Iteration = (nat, set<string>) -> seq<string>

  ghost predicate IsOrder(order: seq<string>, keys: set<string>) {
    && (forall id <- keys :: id in order) && (forall i | 0 <= i < |order| :: order[i] in keys)
    && (forall i, j | 0 <= i < j < |order| :: order[i] != order[j])
  }

  ghost predicate IsIteration(it: Iteration) {
    forall k, keys :: IsOrder(it(k, keys), keys)
  }

  // ---------------------------------------------------------------- the order of names

  /** Strings compared as Go compares them. */
  predicate Less(a: string, b: string) {
    if b == "" then false
    else if a == "" then true
    else if a[0] != b[0] then a[0] < b[0]
    else Less(a[1..], b[1..])
  }

  lemma {:induction false} LessIsTotal(a: string, b: string)
    ensures (a == b && !Less(a, b) && !Less(b, a)) || (a != b && (Less(a, b) <==> !Less(b, a)))
    decreases |a|
  {
    if a == "" || b == "" || a[0] != b[0] {
    } else {
      LessIsTotal(a[1..], b[1..]);
      assert a == [a[0]] + a[1..] && b == [b[0]] + b[1..];
    }
  }

  lemma {:induction false} LessIsTransitive(a: string, b: string, c: string)
    requires Less(a, b) && Less(b, c)
    ensures Less(a, c)
    decreases |a|
  {
    if a == "" || b == "" || c == "" || a[0] != b[0] || b[0] != c[0] {
    } else {
      LessIsTransitive(a[1..], b[1..], c[1..]);
    }
  }

  /** `a` is before `b` after `k` common characters: it ends there, or has the smaller character. */
  predicate SplitsAt(a: string, b: string, k: nat) {
    && k <= |a| && k < |b| && a[..k] == b[..k]
    && (k == |a| || a[k] < b[k])
  }

  ghost predicate Splits(a: string, b: string) { exists k: nat :: SplitsAt(a, b, k) }

  lemma SplitHeads(a: string, b: string, k: nat)
    ensures SplitsAt(a, b, k) && k > 0 ==> a != "" && b != "" && a[0] == b[0]
  {
    if 0 < k <= |a| && k <= |b| { assert a[..k][0] == a[0] && b[..k][0] == b[0]; }
  }

  lemma LessAtHead(a: string, b: string)
    requires a == "" || b == "" || a[0] != b[0]
    ensures Less(a, b) <==> Splits(a, b)
  {
    assert Less(a, b) <==> SplitsAt(a, b, 0);
    if Splits(a, b) {
      var k: nat :| SplitsAt(a, b, k);
      SplitHeads(a, b, k);
    }
  }

  lemma SplitsBehind(a: string, b: string, k: nat)
    requires a != "" && b != "" && a[0] == b[0]
    ensures SplitsAt(a, b, k + 1) <==> SplitsAt(a[1..], b[1..], k)
    ensures !SplitsAt(a, b, 0)
  {
    if k + 1 <= |a| && k + 1 <= |b| {
      assert a[..k + 1] == [a[0]] + a[1..][..k] && b[..k + 1] == [b[0]] + b[1..][..k];
      assert a[..k + 1][1..] == a[1..][..k] && b[..k + 1][1..] == b[1..][..k];
    }
  }

  lemma SplitsWithTail(a: string, b: string)
    requires a != "" && b != "" && a[0] == b[0]
    ensures Splits(a, b) <==> Splits(a[1..], b[1..])
  {
    if Splits(a, b) {
      var k: nat :| SplitsAt(a, b, k);
      SplitsBehind(a, b, if k > 0 then k - 1 else 0);
      assert SplitsAt(a[1..], b[1..], k - 1);
    }
    if Splits(a[1..], b[1..]) {
      var k: nat :| SplitsAt(a[1..], b[1..], k);
      SplitsBehind(a, b, k);
    }
  }

  /** The order is the lexicographic one. */
  lemma {:induction false} LessIsLexicographic(a: string, b: string)
    ensures Less(a, b) <==> Splits(a, b)
    decreases |a|
  {
    if a == "" || b == "" || a[0] != b[0] {
      LessAtHead(a, b);
    } else {
      LessIsLexicographic(a[1..], b[1..]);
      SplitsWithTail(a, b);
    }
  }

  // ---------------------------------------------------------------- matching a host to a device

  /** Among devices of one name, a USB one comes first, then the smaller id. */
  predicate Before(merged: Devices, a: string, b: string)
    requires a in merged && b in merged
  {
    var left, right := merged[a].connection == "usb", merged[b].connection == "usb";
    if left != right then left else Less(a, b)
  }

  lemma BeforeIsTransitive(merged: Devices, a: string, b: string, c: string)
    requires a in merged && b in merged && c in merged
    requires Before(merged, a, b) && Before(merged, b, c)
    ensures Before(merged, a, c)
  {
    if Less(a, b) && Less(b, c) { LessIsTransitive(a, b, c); }
  }

  /** `id` is a device of the host's name, and the first among them. */
  ghost predicate IsBest(merged: Devices, name: string, normalize: string -> string, id: string) {
    && id in merged && normalize(merged[id].name) == name
    && forall other <- merged | normalize(merged[other].name) == name && other != id :: Before(merged, id, other)
  }

  /** Spelled out: the best device is on USB if any of that name is, and has the first id of those alike in this. */
  lemma BestIsUsbThenFirst(merged: Devices, name: string, normalize: string -> string, id: string, other: string)
    requires IsBest(merged, name, normalize, id)
    requires other in merged && normalize(merged[other].name) == name && other != id
    ensures merged[other].connection == "usb" ==> merged[id].connection == "usb"
    ensures (merged[id].connection == "usb" <==> merged[other].connection == "usb") ==> Splits(id, other)
  {
    LessIsLexicographic(id, other);
  }

  lemma BestIsUnique(merged: Devices, name: string, normalize: string -> string, a: string, b: string)
    requires IsBest(merged, name, normalize, a) && IsBest(merged, name, normalize, b)
    ensures a == b
  {
    LessIsTotal(a, b);
  }

  /** The device a host name stands for, or "" if none has that name. */
  method MatchByName(merged: Devices, name: string, normalize: string -> string, order: seq<string>)
    returns (best: string)
    requires IsOrder(order, merged.Keys) && "" !in merged
    ensures best == Match(merged, name, normalize)
  {
    if name == "" { return ""; }
    best := "";
    for i := 0 to |order|
      invariant best == "" <==> forall j | 0 <= j < i :: normalize(merged[order[j]].name) != name
      invariant best != "" ==> best in merged && normalize(merged[best].name) == name
      invariant best != "" ==> forall j | 0 <= j < i && order[j] != best && normalize(merged[order[j]].name) == name ::
                  Before(merged, best, order[j])
    {
      var id := order[i];
      if normalize(merged[id].name) == name {
        if best == "" {
          best := id;
        } else {
          LessIsTotal(id, best);
          if Before(merged, id, best) {
            forall j | 0 <= j < i && order[j] != best && normalize(merged[order[j]].name) == name
              ensures Before(merged, id, order[j])
            {
              BeforeIsTransitive(merged, id, best, order[j]);
            }
            best := id;
          }
        }
      }
    }
    if best != "" {
      assert IsBest(merged, name, normalize, best);
      MatchIs(merged, name, normalize, best);
    } else {
      assert forall id <- merged :: id in order;
    }
  }

  /** The same without an order: the best device is determined by the map alone. */
  ghost function Match(merged: Devices, name: string, normalize: string -> string): string {
    if name != "" && exists id :: IsBest(merged, name, normalize, id) then
      var id :| IsBest(merged, name, normalize, id); id
    else ""
  }

  lemma MatchIs(merged: Devices, name: string, normalize: string -> string, id: string)
    requires name != "" && IsBest(merged, name, normalize, id)
    ensures Match(merged, name, normalize) == id
  {
    BestIsUnique(merged, name, normalize, id, Match(merged, name, normalize));
  }

  // ---------------------------------------------------------------- merging

  const NO_DEVICE: Device := Device("", "", "", "", "", "", 0, false, false, "")

  function TrimDot(host: string): string {
    if host != "" && host[|host| - 1] == '.' then host[..|host| - 1] else host
  }

  /** The entry a looked-up bridge updates: the device of its name, else the only device, else an entry of its own. */
  ghost function Target(merged: Devices, host: string, normalize: string -> string): string {
    var matching := Match(merged, normalize(host), normalize);
    if matching != "" then matching
    else if |merged| == 1 then (var id :| id in merged; id)
    else "bonjour:" + TrimDot(host)
  }

  function Announced(current: Device, host: string, port: int): Device {
    var reached :=
      if current.connection != "usb" then
        current.(address := host, port := port, connection := "wifi", source := "bonjour")
      else current.(source := "usbmux+bonjour");
    reached.(bridge := true, paired := true)
  }

  function NewDevice(id: string, host: string): Device {
    NO_DEVICE.(id := id, name := TrimDot(host), connection := "wifi", paired := true, source := "bonjour")
  }

  ghost function WithEndpoint(merged: Devices, host: string, port: int, normalize: string -> string): Devices {
    var id := Target(merged, host, normalize);
    merged[id := Announced(if id in merged then merged[id] else NewDevice(id, host), host, port)]
  }

  /** Every entry is filed under its own id, and no id is empty. */
  predicate WellFiled(merged: Devices) {
    "" !in merged && forall id <- merged :: merged[id].id == id
  }

  lemma OnlyOne(merged: Devices, id: string, other: string)
    requires |merged| == 1 && id in merged && other in merged
    ensures id == other
  {
    assert |merged.Keys - {id}| == 0;
    assert merged.Keys - {id} == {};
  }

  method MergeBonjourEndpoint(merged: Devices, host: string, port: int, normalize: string -> string, order: seq<string>)
    returns (after: Devices)
    requires IsOrder(order, merged.Keys) && WellFiled(merged)
    ensures after == WithEndpoint(merged, host, port, normalize)
  {
    var matchingId := MatchByName(merged, normalize(host), normalize, order);
    if matchingId == "" && |merged| == 1 {
      for i := 0 to |order|
        invariant i > 0 ==> matchingId in merged
      {
        matchingId := order[i];
      }
      var id: string :| id in merged;
      assert id in order;
      OnlyOne(merged, matchingId, Target(merged, host, normalize));
    }
    if matchingId == "" { matchingId := "bonjour:" + TrimDot(host); }
    var current := if matchingId in merged then merged[matchingId] else NO_DEVICE;
    if current.id == "" { current := NewDevice(matchingId, host); }
    after := merged[matchingId := Announced(current, host, port)];
  }

  datatype Endpoint = Endpoint(host: string, port: int)

  function Listed(listed: seq<Device>): Devices {
    if listed == [] then map[] else Listed(listed[..|listed| - 1])[listed[|listed| - 1].id := listed[|listed| - 1]]
  }

  ghost function MergedAll(listed: seq<Device>, lookups: seq<Endpoint>, normalize: string -> string): Devices {
    if lookups == [] then Listed(listed)
    else
      var last := lookups[|lookups| - 1];
      WithEndpoint(MergedAll(listed, lookups[..|lookups| - 1], normalize), last.host, last.port, normalize)
  }

  predicate HaveIds(listed: seq<Device>) { forall i | 0 <= i < |listed| :: listed[i].id != "" }

  /** The last of the listed devices with an id is the entry of that id. */
  predicate IsLastListed(listed: seq<Device>, i: nat) {
    i < |listed| && forall j | i < j < |listed| :: listed[j].id != listed[i].id
  }

  /** `d` is the last of the listed devices with its id. */
  ghost predicate IsLast(listed: seq<Device>, d: Device) {
    exists i: nat :: IsLastListed(listed, i) && listed[i] == d
  }

  lemma LastStaysLast(listed: seq<Device>, d: Device, next: Device)
    ensures IsLast(listed, d) && next.id != d.id ==> IsLast(listed + [next], d)
    ensures IsLast(listed + [next], next)
  {
    assert IsLastListed(listed + [next], |listed|);
    if IsLast(listed, d) && next.id != d.id {
      var i: nat :| IsLastListed(listed, i) && listed[i] == d;
      assert IsLastListed(listed + [next], i) && (listed + [next])[i] == d;
    }
  }

  lemma {:induction false} ListedIsWellFiled(listed: seq<Device>)
    requires HaveIds(listed)
    ensures WellFiled(Listed(listed)) && forall i | 0 <= i < |listed| :: listed[i].id in Listed(listed)
    ensures forall id <- Listed(listed) :: IsLast(listed, Listed(listed)[id])
  {
    if listed == [] {
    } else {
      var before, last := listed[..|listed| - 1], listed[|listed| - 1];
      ListedIsWellFiled(before);
      assert listed == before + [last];
      forall id <- Listed(listed)
        ensures IsLast(listed, Listed(listed)[id])
      {
        LastStaysLast(before, if id == last.id then last else Listed(before)[id], last);
      }
    }
  }

  /**
   * What an announcement may do to the entries there are: nothing is lost, and a USB entry keeps all but
   * three marks.
   */
  ghost predicate Keeps(before: Devices, after: Devices) {
    forall id <- before ::
      && id in after
      && (before[id].connection == "usb" ==>
           after[id] == before[id].(bridge := after[id].bridge, paired := after[id].paired, source := after[id].source))
  }

  lemma EndpointKeeps(merged: Devices, host: string, port: int, normalize: string -> string)
    requires WellFiled(merged)
    ensures var after := WithEndpoint(merged, host, port, normalize);
            WellFiled(after) && Keeps(merged, after)
  {
  }

  /** Of some devices of one name, one comes first. */
  lemma {:induction false} BestAmong(merged: Devices, ids: set<string>) returns (best: string)
    requires ids != {} && ids <= merged.Keys
    ensures best in ids && forall other <- ids | other != best :: Before(merged, best, other)
    decreases |ids|
  {
    var id :| id in ids;
    if ids == {id} {
      best := id;
    } else {
      var rest := BestAmong(merged, ids - {id});
      LessIsTotal(id, rest);
      if Before(merged, id, rest) {
        forall other <- ids - {id} | other != rest { BeforeIsTransitive(merged, id, rest, other); }
        best := id;
      } else {
        best := rest;
      }
    }
  }

  /** Some device has the name. */
  predicate IsNamed(merged: Devices, name: string, normalize: string -> string) {
    exists id :: id in merged && normalize(merged[id].name) == name
  }

  lemma NamedHasBest(merged: Devices, name: string, normalize: string -> string)
    requires name != ""
    ensures IsNamed(merged, name, normalize) <==> IsBest(merged, name, normalize, Match(merged, name, normalize))
    ensures !IsNamed(merged, name, normalize) ==> Match(merged, name, normalize) == ""
  {
    if IsNamed(merged, name, normalize) {
      var named := set id | id in merged && normalize(merged[id].name) == name;
      var id :| id in merged && normalize(merged[id].name) == name;
      assert id in named;
      var best := BestAmong(merged, named);
      assert IsBest(merged, name, normalize, best);
    }
  }

  /**
   * The entry an announcement is about: the first of the devices with the host's name, if any has it;
   * else the only device, if there is just one; else an entry of the host's own.
   */
  ghost predicate IsAbout(merged: Devices, host: string, normalize: string -> string, id: string) {
    var name := normalize(host);
    if name != "" && IsNamed(merged, name, normalize) then IsBest(merged, name, normalize, id)
    else if |merged| == 1 then id in merged
    else id == "bonjour:" + TrimDot(host)
  }

  lemma TargetIsAbout(merged: Devices, host: string, normalize: string -> string)
    requires WellFiled(merged)
    ensures IsAbout(merged, host, normalize, Target(merged, host, normalize))
  {
    if normalize(host) != "" { NamedHasBest(merged, normalize(host), normalize); }
  }

  /** The entry after an announcement: reachable and paired, over WiFi at the announced address unless it is on USB. */
  predicate IsReached(before: Option<Device>, after: Device, id: string, host: string, port: int) {
    && after.id == id && after.bridge && after.paired
    && (if before.Some? && before.value.connection == "usb"
        then after.connection == "usb" && after.address == before.value.address && after.port == before.value.port
             && after.source == "usbmux+bonjour"
        else after.connection == "wifi" && after.address == host && after.port == port && after.source == "bonjour")
    && (if before.Some? then SameDevice(before.value, after) else SameDevice(NO_DEVICE.(name := TrimDot(host)), after))
  }

  predicate SameDevice(a: Device, b: Device) {
    a.name == b.name && a.product == b.product && a.osVersion == b.osVersion
  }

  lemma AnnouncedIsReached(before: Option<Device>, id: string, host: string, port: int)
    requires before.Some? ==> before.value.id == id
    ensures var current := if before.Some? then before.value else NewDevice(id, host);
            IsReached(before, Announced(current, host, port), id, host, port)
  {
  }

  /** One announcement: the entry it is about is reached, and every other stays as it was. */
  lemma EndpointMarksOne(merged: Devices, host: string, port: int, normalize: string -> string)
    requires WellFiled(merged)
    ensures var after, id := WithEndpoint(merged, host, port, normalize), Target(merged, host, normalize);
            && IsAbout(merged, host, normalize, id)
            && after.Keys == merged.Keys + {id}
            && (forall other <- merged | other != id :: after[other] == merged[other])
            && IsReached(if id in merged then Some(merged[id]) else None, after[id], id, host, port)
  {
    var id := Target(merged, host, normalize);
    TargetIsAbout(merged, host, normalize);
    AnnouncedIsReached(if id in merged then Some(merged[id]) else None, id, host, port);
  }

  lemma {:induction false} MergeKeeps(listed: seq<Device>, lookups: seq<Endpoint>, normalize: string -> string)
    requires HaveIds(listed)
    ensures var merged := MergedAll(listed, lookups, normalize);
            WellFiled(merged) && Keeps(Listed(listed), merged)
  {
    if lookups == [] {
      ListedIsWellFiled(listed);
    } else {
      var before, last := lookups[..|lookups| - 1], lookups[|lookups| - 1];
      MergeKeeps(listed, before, normalize);
      EndpointKeeps(MergedAll(listed, before, normalize), last.host, last.port, normalize);
    }
  }

  // ---------------------------------------------------------------- the list

  /** Devices in strictly increasing order of id. */
  predicate Increasing(devices: seq<Device>) {
    forall i, j | 0 <= i < j < |devices| :: Less(devices[i].id, devices[j].id)
  }

  /** The list of a map: exactly its entries, ordered by id. */
  ghost predicate IsListing(devices: seq<Device>, merged: Devices) {
    && Increasing(devices)
    && (forall i | 0 <= i < |devices| :: devices[i].id in merged && merged[devices[i].id] == devices[i])
    && (forall id <- merged :: merged[id] in devices)
  }

  /** A map has one list. */
  lemma {:induction false} ListingIsUnique(a: seq<Device>, b: seq<Device>, merged: Devices)
    requires IsListing(a, merged) && IsListing(b, merged)
    ensures a == b
  {
    assert forall d :: d in a <==> d in b by {
      forall d | d in a ensures d in b { assert merged[d.id] == d; }
      forall d | d in b ensures d in a { assert merged[d.id] == d; }
    }
    IncreasingIsDetermined(a, b);
  }

  lemma {:induction false} IncreasingIsDetermined(a: seq<Device>, b: seq<Device>)
    requires Increasing(a) && Increasing(b) && forall d :: d in a <==> d in b
    ensures a == b
    decreases |a|
  {
    if a == [] || b == [] {
      HeadIsIn(a);
      HeadIsIn(b);
    } else {
      assert a[0] in b && b[0] in a;
      LessIsTotal(a[0].id, b[0].id);
      var i :| 0 <= i < |a| && a[i] == b[0];
      var j :| 0 <= j < |b| && b[j] == a[0];
      assert a[0] == b[0];
      forall d
        ensures d in a[1..] <==> d in b[1..]
      {
        if d in a[1..] { TailHas(a, b, d); }
        if d in b[1..] { TailHas(b, a, d); }
      }
      IncreasingIsDetermined(a[1..], b[1..]);
      assert a == [a[0]] + a[1..] && b == [b[0]] + b[1..];
    }
  }

  lemma HeadIsIn(s: seq<Device>)
    ensures s != [] ==> s[0] in s
  {
  }

  lemma TailHas(a: seq<Device>, b: seq<Device>, d: Device)
    requires Increasing(a) && a != [] && b != [] && a[0] == b[0] && d in a[1..] && d in b
    ensures d in b[1..]
  {
    var i :| 1 <= i < |a| && a[i] == d;
    LessIsTotal(a[0].id, d.id);
    var j :| 0 <= j < |b| && b[j] == d;
    assert j > 0 && b[1..][j - 1] == d;
  }

  /** A device put in its place; stands for the library's sort by id. */
  function Placed(devices: seq<Device>, d: Device): seq<Device> {
    if devices == [] then [d]
    else if Less(d.id, devices[0].id) then [d] + devices
    else [devices[0]] + Placed(devices[1..], d)
  }

  lemma {:induction false} PlacedIsIncreasing(devices: seq<Device>, d: Device)
    requires Increasing(devices) && forall i | 0 <= i < |devices| :: devices[i].id != d.id
    ensures Increasing(Placed(devices, d))
    ensures forall x :: x in Placed(devices, d) <==> x in devices || x == d
  {
    if devices == [] {
    } else {
      var first, rest := devices[0], devices[1..];
      LessIsTotal(d.id, first.id);
      if Less(d.id, first.id) {
        forall i | 0 <= i < |devices|
          ensures Less(d.id, devices[i].id)
        {
          if i > 0 { LessIsTransitive(d.id, first.id, devices[i].id); }
        }
      } else {
        PlacedIsIncreasing(rest, d);
        var placed := Placed(rest, d);
        forall i | 0 <= i < |placed|
          ensures Less(first.id, placed[i].id)
        {
          assert placed[i] in rest || placed[i] == d;
        }
        assert devices == [first] + rest;
      }
    }
  }

  method Discover(listed: seq<Device>, lookups: seq<Endpoint>, normalize: string -> string, it: Iteration)
    returns (devices: seq<Device>)
    requires HaveIds(listed) && IsIteration(it)
    ensures IsListing(devices, MergedAll(listed, lookups, normalize))
  {
    var merged: Devices := map[];
    for i := 0 to |listed|
      invariant merged == Listed(listed[..i])
    {
      assert listed[..i + 1][..i] == listed[..i];
      merged := merged[listed[i].id := listed[i]];
    }
    assert listed[..|listed|] == listed;
    ListedIsWellFiled(listed);
    for i := 0 to |lookups|
      invariant merged == MergedAll(listed, lookups[..i], normalize) && WellFiled(merged)
    {
      assert lookups[..i + 1][..i] == lookups[..i];
      EndpointKeeps(merged, lookups[i].host, lookups[i].port, normalize);
      merged := MergeBonjourEndpoint(merged, lookups[i].host, lookups[i].port, normalize, it(i, merged.Keys));
    }
    assert lookups[..|lookups|] == lookups;
    devices := ListById(merged, it(|lookups|, merged.Keys));
  }

  method ListById(merged: Devices, order: seq<string>) returns (devices: seq<Device>)
    requires WellFiled(merged) && IsOrder(order, merged.Keys)
    ensures IsListing(devices, merged)
  {
    devices := [];
    for i := 0 to |order|
      invariant Increasing(devices)
      invariant forall d :: d in devices <==> exists j :: 0 <= j < i && d == merged[order[j]]
    {
      forall k | 0 <= k < |devices|
        ensures devices[k].id != merged[order[i]].id
      {
        assert devices[k] in devices;
      }
      PlacedIsIncreasing(devices, merged[order[i]]);
      devices := Placed(devices, merged[order[i]]);
    }
    forall k | 0 <= k < |devices|
      ensures devices[k].id in merged && merged[devices[k].id] == devices[k]
    {
      assert devices[k] in devices;
    }
    forall id <- merged
      ensures merged[id] in devices
    {
      assert id in order;
    }
  }

  /**
   * The discovered list does not depend on the order of map iteration, is ordered by id, keeps
   * every listed id, and never turns a device listed over USB into a WiFi one.
   */
  lemma DiscoveryIsDetermined(
    listed: seq<Device>, lookups: seq<Endpoint>, normalize: string -> string, a: seq<Device>, b: seq<Device>)
    requires HaveIds(listed)
    requires IsListing(a, MergedAll(listed, lookups, normalize)) && IsListing(b, MergedAll(listed, lookups, normalize))
    ensures a == b && Increasing(a)
    ensures forall i | 0 <= i < |listed| :: exists d :: d in a && d.id == listed[i].id
    ensures forall d <- a | d.id in Listed(listed) && Listed(listed)[d.id].connection == "usb" ::
              d.connection == "usb" && d.address == Listed(listed)[d.id].address
  {
    ListingIsUnique(a, b, MergedAll(listed, lookups, normalize));
    MergeKeeps(listed, lookups, normalize);
    ListedIsWellFiled(listed);
    var merged := MergedAll(listed, lookups, normalize);
    forall i | 0 <= i < |listed|
      ensures exists d :: d in a && d.id == listed[i].id
    {
      assert merged[listed[i].id] in a;
    }
  }

  // ---------------------------------------------------------------- the helper's list

  datatype Attached = Attached(udid: string, usb: bool, handle: nat)

  function Position(chosen: seq<Attached>, udid: string): (index: nat)
    ensures index <= |chosen|
    ensures index < |chosen| ==> chosen[index].udid == udid
    ensures forall i | 0 <= i < index :: chosen[i].udid != udid
  {
    if chosen == [] || chosen[0].udid == udid then 0 else 1 + Position(chosen[1..], udid)
  }

  /** Of the entries of one UDID the `k`-th is kept: the last one over USB, or the first if none is. */
  ghost predicate IsKept(devices: seq<Attached>, k: int) {
    && 0 <= k < |devices|
    && forall m | 0 <= m < |devices| && devices[m].udid == devices[k].udid ::
         if devices[k].usb then devices[m].usb ==> m <= k else !devices[m].usb && k <= m
  }

  ghost predicate Represents(best: Attached, devices: seq<Attached>) {
    exists k :: IsKept(devices, k) && devices[k] == best
  }

  /** The UDIDs of `chosen` come in the order in which they first occur in `devices`, so each occurs once. */
  ghost predicate InOrder(chosen: seq<Attached>, devices: seq<Attached>) {
    forall i, j | 0 <= i < j < |chosen| :: Position(devices, chosen[i].udid) < Position(devices, chosen[j].udid)
  }

  ghost predicate AllFound(chosen: seq<Attached>, devices: seq<Attached>) {
    forall k {:trigger Position(chosen, devices[k].udid)} | 0 <= k < |devices| ::
      Position(chosen, devices[k].udid) < |chosen|
  }

  /** The kept entry of every UDID, in the order in which the UDIDs first occur. */
  ghost predicate IsChoice(chosen: seq<Attached>, devices: seq<Attached>) {
    && InOrder(chosen, devices)
    && (forall i {:trigger Represents(chosen[i], devices)} | 0 <= i < |chosen| :: Represents(chosen[i], devices))
    && AllFound(chosen, devices)
  }

  /** One entry more, in the order of the helper's list. */
  function Turn(chosen: seq<Attached>, device: Attached): seq<Attached> {
    var index := Position(chosen, device.udid);
    if index == |chosen| then chosen + [device] else if device.usb then chosen[index := device] else chosen
  }

  function Chosen(devices: seq<Attached>): seq<Attached> {
    if devices == [] then [] else Turn(Chosen(devices[..|devices| - 1]), devices[|devices| - 1])
  }

  method Preferred(devices: seq<Attached>) returns (chosen: seq<Attached>)
    ensures IsChoice(chosen, devices)
  {
    chosen := [];
    for n := 0 to |devices|
      invariant chosen == Chosen(devices[..n])
    {
      var device := devices[n];
      var index := Position(chosen, device.udid);
      assert devices[..n + 1][..n] == devices[..n];
      if index == |chosen| {
        chosen := chosen + [device];
      } else if device.usb {
        chosen := chosen[index := device];
      }
    }
    assert devices[..|devices|] == devices;
    ChosenIsChoice(devices);
  }

  /** Where a UDID first occurs does not change with what comes after. */
  lemma PositionOfPrefix(devices: seq<Attached>, device: Attached, udid: string)
    ensures Position(devices + [device], udid) ==
            if Position(devices, udid) < |devices| || device.udid == udid then Position(devices, udid)
            else |devices| + 1
  {
    var position := Position(devices + [device], udid);
    if Position(devices, udid) < |devices| {
      assert (devices + [device])[Position(devices, udid)].udid == udid;
    } else if device.udid == udid {
      assert (devices + [device])[|devices|].udid == udid;
    }
    assert position < |devices| ==> devices[position].udid == udid;
  }

  lemma OccursInDevices(best: Attached, devices: seq<Attached>)
    requires Represents(best, devices)
    ensures Position(devices, best.udid) < |devices|
  {
  }

  /** Extending a list, or replacing entries by others of the same UDID, loses no UDID. */
  lemma StillFound(chosen: seq<Attached>, after: seq<Attached>, udid: string)
    requires |chosen| <= |after| && forall i | 0 <= i < |chosen| :: after[i].udid == chosen[i].udid
    requires Position(chosen, udid) < |chosen|
    ensures Position(after, udid) < |after|
  {
    assert after[Position(chosen, udid)].udid == udid;
  }

  lemma StillRepresents(best: Attached, devices: seq<Attached>, device: Attached)
    requires Represents(best, devices) && (device.udid == best.udid ==> !device.usb)
    ensures Represents(best, devices + [device])
  {
    var k :| IsKept(devices, k) && devices[k] == best;
    assert IsKept(devices + [device], k);
  }

  lemma NowRepresents(devices: seq<Attached>, device: Attached)
    requires device.usb || Position(devices, device.udid) == |devices|
    ensures Represents(device, devices + [device])
  {
    assert IsKept(devices + [device], |devices|);
  }

  /** The order of a list is kept when its UDIDs are, whatever is seen next. */
  lemma StillInOrder(chosen: seq<Attached>, after: seq<Attached>, devices: seq<Attached>, device: Attached)
    requires InOrder(chosen, devices) && forall i | 0 <= i < |chosen| :: Represents(chosen[i], devices)
    requires |after| == |chosen| && forall i | 0 <= i < |after| :: after[i].udid == chosen[i].udid
    ensures InOrder(after, devices + [device])
  {
    forall i | 0 <= i < |chosen|
      ensures Position(devices + [device], after[i].udid) == Position(devices, chosen[i].udid)
    {
      OccursInDevices(chosen[i], devices);
      PositionOfPrefix(devices, device, chosen[i].udid);
    }
  }

  /** A UDID that occurs is chosen, so one not chosen yet does not occur yet. */
  lemma NewUdid(chosen: seq<Attached>, devices: seq<Attached>, udid: string)
    requires AllFound(chosen, devices)
    ensures Position(devices, udid) < |devices| ==> Position(chosen, udid) < |chosen|
  {
    if Position(devices, udid) < |devices| {
      assert Position(chosen, devices[Position(devices, udid)].udid) < |chosen|;
    }
  }

  lemma PushKeepsOrder(chosen: seq<Attached>, devices: seq<Attached>, device: Attached)
    requires IsChoice(chosen, devices) && Position(chosen, device.udid) == |chosen|
    ensures InOrder(chosen + [device], devices + [device])
  {
    NewUdid(chosen, devices, device.udid);
    StillInOrder(chosen, chosen, devices, device);
    PositionOfPrefix(devices, device, device.udid);
    forall i | 0 <= i < |chosen|
      ensures Position(devices + [device], chosen[i].udid) < |devices|
    {
      OccursInDevices(chosen[i], devices);
      PositionOfPrefix(devices, device, chosen[i].udid);
    }
  }

  lemma PushFindsAll(chosen: seq<Attached>, devices: seq<Attached>, device: Attached)
    requires AllFound(chosen, devices)
    ensures AllFound(chosen + [device], devices + [device])
  {
    var after := chosen + [device];
    forall k | 0 <= k < |devices| + 1
      ensures Position(after, (devices + [device])[k].udid) < |after|
    {
      if k < |devices| {
        StillFound(chosen, after, devices[k].udid);
      } else {
        assert after[|chosen|].udid == device.udid;
      }
    }
  }

  lemma PushKeepsChoice(chosen: seq<Attached>, devices: seq<Attached>, device: Attached)
    requires IsChoice(chosen, devices) && Position(chosen, device.udid) == |chosen|
    ensures IsChoice(chosen + [device], devices + [device])
  {
    var after := chosen + [device];
    PushKeepsOrder(chosen, devices, device);
    PushFindsAll(chosen, devices, device);
    NewUdid(chosen, devices, device.udid);
    forall i | 0 <= i < |after|
      ensures Represents(after[i], devices + [device])
    {
      if i < |chosen| {
        StillRepresents(chosen[i], devices, device);
      } else {
        NowRepresents(devices, device);
      }
    }
  }

  lemma OverwriteFindsAll(
    chosen: seq<Attached>, after: seq<Attached>, devices: seq<Attached>, device: Attached, index: nat)
    requires |after| == |chosen| && forall i | 0 <= i < |after| :: after[i].udid == chosen[i].udid
    requires index < |after| && after[index].udid == device.udid && AllFound(chosen, devices)
    ensures AllFound(after, devices + [device])
  {
    forall k | 0 <= k < |devices| { StillFound(chosen, after, devices[k].udid); }
    assert Position(after, device.udid) < |after|;
  }

  /** No other entry of the list has that UDID. */
  lemma OnlyOneOfUdid(chosen: seq<Attached>, devices: seq<Attached>, i: nat, j: nat)
    requires InOrder(chosen, devices) && i < |chosen| && j < |chosen| && i != j
    ensures chosen[i].udid != chosen[j].udid
  {
  }

  lemma OverwriteKeepsChoice(chosen: seq<Attached>, devices: seq<Attached>, device: Attached, index: nat)
    requires IsChoice(chosen, devices) && device.usb && index < |chosen| && chosen[index].udid == device.udid
    ensures IsChoice(chosen[index := device], devices + [device])
  {
    var after := chosen[index := device];
    StillInOrder(chosen, after, devices, device);
    OverwriteFindsAll(chosen, after, devices, device, index);
    forall i | 0 <= i < |after|
      ensures Represents(after[i], devices + [device])
    {
      if i == index {
        NowRepresents(devices, device);
      } else {
        OnlyOneOfUdid(chosen, devices, i, index);
        StillRepresents(chosen[i], devices, device);
      }
    }
  }

  lemma SkipKeepsChoice(chosen: seq<Attached>, devices: seq<Attached>, device: Attached)
    requires IsChoice(chosen, devices) && Position(chosen, device.udid) < |chosen| && !device.usb
    ensures IsChoice(chosen, devices + [device])
  {
    StillInOrder(chosen, chosen, devices, device);
    forall i | 0 <= i < |chosen| { StillRepresents(chosen[i], devices, device); }
    OverwriteFindsAll(chosen, chosen, devices, device, Position(chosen, device.udid));
  }

  lemma TurnKeepsChoice(chosen: seq<Attached>, devices: seq<Attached>, device: Attached)
    requires IsChoice(chosen, devices)
    ensures IsChoice(Turn(chosen, device), devices + [device])
  {
    var index := Position(chosen, device.udid);
    if index == |chosen| {
      PushKeepsChoice(chosen, devices, device);
    } else if device.usb {
      OverwriteKeepsChoice(chosen, devices, device, index);
    } else {
      SkipKeepsChoice(chosen, devices, device);
    }
  }

  lemma {:induction false} ChosenIsChoice(devices: seq<Attached>)
    ensures IsChoice(Chosen(devices), devices)
  {
    if devices == [] {
    } else {
      var before, last := devices[..|devices| - 1], devices[|devices| - 1];
      assert before + [last] == devices;
      ChosenIsChoice(before);
      TurnKeepsChoice(Chosen(before), before, last);
    }
  }
}
