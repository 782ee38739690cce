/**
 * The Bluetooth LE connection manager of the arGPT app (NewBluetoothManager.swift).
 *
 * The manager owns one CoreBluetooth central. Its own state lives in the fields of
 * class `Manager`; every CoreBluetooth delegate callback is a method whose inputs
 * (peripheral identity, advertised name, RSSI, the current time, service and
 * characteristic UUIDs) are explicit parameters. Every outbound platform call is a
 * `Command` appended to `calls`, and every value sent on one of the Combine subjects
 * is an `Event` appended to `events`.
 */
module Bluetooth {
  import opened Wrappers

  /** The identity of a peripheral (`CBPeripheral.identifier`). */
  type PeripheralId = nat

  /** A service or characteristic identifier (`CBUUID`). */
  type Uuid = nat

  type Byte = b: int | 0 <= b < 256

  /** Proximity auto-connect threshold in dBm (line 95). */
  const RssiAutoConnectThreshold: int := -70

  /** Seconds a sighting stays in the discovery list (line 216). */
  const DiscoveryTimeout: int := 10

  /** `CBCentralManager.state`. */
  datatype AdapterState = Unknown | Resetting | Unsupported | Unauthorized | PoweredOff | PoweredOn

  /** One element of `_discoveredPeripherals`. */
  datatype Entry = Entry(peripheral: PeripheralId, timeout: int)

  /** Calls the manager makes into CoreBluetooth and Foundation. */
  datatype Command =
    | ScanForPeripherals(services: set<Uuid>)
    | ScheduleDiscoveryTimer
    | StopScan
    | Connect(peripheral: PeripheralId)
    | CancelConnection(peripheral: PeripheralId)
    | DiscoverServices(peripheral: PeripheralId, services: set<Uuid>)
    | DiscoverCharacteristics(peripheral: PeripheralId, characteristics: set<Uuid>, service: Uuid)
    | SetNotifyValue(peripheral: PeripheralId, characteristic: Uuid)
    | WriteValue(peripheral: PeripheralId, service: Uuid, characteristic: Uuid, chunk: seq<Byte>, withResponse: bool)

  /** Values published on `peripheralConnected`, `peripheralDisconnected` and `dataReceived`. */
  datatype Event =
    | PeripheralConnected(peripheral: PeripheralId)
    | PeripheralDisconnected
    | DataReceived(characteristic: Uuid, value: seq<Byte>)

  // ---------------------------------------------------------------------------
  // The discovery list
  // ---------------------------------------------------------------------------

  function Peripherals(entries: seq<Entry>): seq<PeripheralId> {
    seq(|entries|, i requires 0 <= i < |entries| => entries[i].peripheral)
  }

  ghost predicate NoDuplicates(ids: seq<PeripheralId>) {
    forall i, j | 0 <= i < j < |ids| :: ids[i] != ids[j]
  }

  /**
   * The clean-up at the start of `updateDiscoveredPeripherals`, taken literally:
   * `removeAll { $0.timeout >= now }` drops every entry whose timeout is still ahead
   * and keeps those that have already expired.
   */
  function Swept(entries: seq<Entry>, now: int): (kept: seq<Entry>)
    ensures forall e :: e in kept <==> e in entries && e.timeout < now
  {
    if entries == [] then []
    else if entries[0].timeout >= now then Swept(entries[1..], now)
    else [entries[0]] + Swept(entries[1..], now)
  }

  /** `removeAll { $0.peripheral.isEqual(peripheral) }`. */
  function WithoutPeripheral(entries: seq<Entry>, p: PeripheralId): (kept: seq<Entry>)
    ensures forall e :: e in kept <==> e in entries && e.peripheral != p
  {
    if entries == [] then []
    else if entries[0].peripheral == p then WithoutPeripheral(entries[1..], p)
    else [entries[0]] + WithoutPeripheral(entries[1..], p)
  }

  lemma UniqueTail(entries: seq<Entry>)
    requires |entries| > 0 && NoDuplicates(Peripherals(entries))
    ensures NoDuplicates(Peripherals(entries[1..]))
    ensures forall e | e in entries[1..] :: e.peripheral != entries[0].peripheral
  {
    var ids := Peripherals(entries);
    var tail := Peripherals(entries[1..]);
    forall i, j | 0 <= i < j < |tail| ensures tail[i] != tail[j] {
      assert tail[i] == ids[i + 1] && tail[j] == ids[j + 1];
    }
    forall e | e in entries[1..] ensures e.peripheral != entries[0].peripheral {
      var k :| 0 <= k < |entries[1..]| && entries[1..][k] == e;
      assert ids[k + 1] == e.peripheral && ids[0] == entries[0].peripheral;
    }
  }

  lemma UniqueCons(head: Entry, tail: seq<Entry>)
    requires NoDuplicates(Peripherals(tail))
    requires forall e | e in tail :: e.peripheral != head.peripheral
    ensures NoDuplicates(Peripherals([head] + tail))
  {
    var ids := Peripherals([head] + tail);
    var rest := Peripherals(tail);
    forall i, j | 0 <= i < j < |ids| ensures ids[i] != ids[j] {
      assert ([head] + tail)[j] == tail[j - 1];
      assert ids[j] == rest[j - 1];
      if i > 0 {
        assert ids[i] == rest[i - 1];
      } else {
        assert tail[j - 1] in tail;
      }
    }
  }

  /** The sweep never introduces two entries for one peripheral. */
  lemma {:induction false} SweptKeepsUnique(entries: seq<Entry>, now: int)
    requires NoDuplicates(Peripherals(entries))
    ensures NoDuplicates(Peripherals(Swept(entries, now)))
    decreases |entries|
  {
    if entries != [] {
      UniqueTail(entries);
      SweptKeepsUnique(entries[1..], now);
      if entries[0].timeout < now {
        UniqueCons(entries[0], Swept(entries[1..], now));
      }
    }
  }

  /** Removing a peripheral's entries never introduces two entries for one peripheral. */
  lemma {:induction false} WithoutPeripheralKeepsUnique(entries: seq<Entry>, p: PeripheralId)
    requires NoDuplicates(Peripherals(entries))
    ensures NoDuplicates(Peripherals(WithoutPeripheral(entries, p)))
    decreases |entries|
  {
    if entries != [] {
      UniqueTail(entries);
      WithoutPeripheralKeepsUnique(entries[1..], p);
      if entries[0].peripheral != p {
        UniqueCons(entries[0], WithoutPeripheral(entries[1..], p));
      }
    }
  }

  /**
   * The discovery list after `updateDiscoveredPeripherals(with: sighted)` at time `now`
   * (lines 211-217). The list never holds two entries for one peripheral; a sighting is
   * the last entry, with timeout `now + 10`, and no earlier entry survives for it; every
   * other entry has a timeout already in the past.
   */
  function UpdatedEntries(entries: seq<Entry>, sighted: Option<PeripheralId>, now: int): (r: seq<Entry>)
    ensures sighted.Some? ==>
      |r| > 0 && r[|r| - 1] == Entry(sighted.value, now + DiscoveryTimeout)
      && forall e | e in r[..|r| - 1] :: e.peripheral != sighted.value
    ensures forall i | 0 <= i < |r| && r[i].timeout >= now :: sighted.Some? && i == |r| - 1
    ensures forall e | e in r && (sighted.None? || e.peripheral != sighted.value) :: e in entries
  {
    var kept := Swept(entries, now);
    if sighted.Some? then
      var others := WithoutPeripheral(kept, sighted.value);
      assert (others + [Entry(sighted.value, now + DiscoveryTimeout)])[..|others|] == others;
      others + [Entry(sighted.value, now + DiscoveryTimeout)]
    else
      kept
  }

  /** The discovery list never holds two entries for one peripheral. */
  lemma UpdatedEntriesKeepUnique(entries: seq<Entry>, sighted: Option<PeripheralId>, now: int)
    requires NoDuplicates(Peripherals(entries))
    ensures NoDuplicates(Peripherals(UpdatedEntries(entries, sighted, now)))
  {
    var kept := Swept(entries, now);
    SweptKeepsUnique(entries, now);
    if sighted.Some? {
      var others := WithoutPeripheral(kept, sighted.value);
      WithoutPeripheralKeepsUnique(kept, sighted.value);
      AppendFreshKeepsUnique(others, Entry(sighted.value, now + DiscoveryTimeout));
    }
  }

  lemma AppendFreshKeepsUnique(entries: seq<Entry>, e: Entry)
    requires NoDuplicates(Peripherals(entries))
    requires forall f | f in entries :: f.peripheral != e.peripheral
    ensures NoDuplicates(Peripherals(entries + [e]))
  {
    var ids := Peripherals(entries + [e]);
    forall i, j | 0 <= i < j < |ids| ensures ids[i] != ids[j] {
      assert (entries + [e])[i] == entries[i];
      if j == |entries| {
        assert entries[i] in entries;
      } else {
        assert ids[i] == Peripherals(entries)[i] && ids[j] == Peripherals(entries)[j];
      }
    }
  }

  /** Whether `updateDiscoveredPeripherals` republishes `discoveredDevices` (line 220). */
  predicate Republishes(sizeBefore: nat, entries: seq<Entry>, sighted: Option<PeripheralId>) {
    |entries| > 0 && (sizeBefore != |entries| || sighted.Some?)
  }

  // ---------------------------------------------------------------------------
  // Chunked writes
  // ---------------------------------------------------------------------------

  /** The chunks `writeData` cuts `data` into: consecutive slices of `size` bytes, the last one shorter. */
  function Chunks(data: seq<Byte>, size: nat): seq<seq<Byte>>
    requires size > 0
    decreases |data|
  {
    if |data| == 0 then []
    else if |data| <= size then [data]
    else [data[..size]] + Chunks(data[size..], size)
  }

  function Concat(chunks: seq<seq<Byte>>): seq<Byte> {
    if chunks == [] then [] else chunks[0] + Concat(chunks[1..])
  }

  /** The chunks, written one after the other, are exactly the payload. */
  lemma {:induction false} ChunksReassemble(data: seq<Byte>, size: nat)
    requires size > 0
    ensures Concat(Chunks(data, size)) == data
    decreases |data|
  {
    if |data| > size {
      ChunksReassemble(data[size..], size);
      assert data == data[..size] + data[size..];
    } else if |data| > 0 {
      assert Concat([data]) == data + Concat([]);
    }
  }

  /**
   * A payload of N bytes takes ⌈N/C⌉ writes (no writes for an empty payload, and
   * otherwise the least count whose C-byte slots hold N bytes); each write carries
   * between 1 and C bytes, every write but the last exactly C.
   */
  lemma {:induction false} ChunkSizes(data: seq<Byte>, size: nat)
    requires size > 0
    ensures var cs := Chunks(data, size);
      && (|cs| == 0 <==> |data| == 0)
      && (|cs| > 0 ==> size * (|cs| - 1) < |data| <= size * |cs|)
      && (forall i | 0 <= i < |cs| :: 0 < |cs[i]| <= size)
      && (forall i | 0 <= i < |cs| - 1 :: |cs[i]| == size)
    decreases |data|
  {
    var cs := Chunks(data, size);
    if |data| > size {
      var rest := Chunks(data[size..], size);
      ChunkSizes(data[size..], size);
      assert cs == [data[..size]] + rest;
      assert size * |cs| == size + size * |rest|;
      assert size * (|cs| - 1) == size * |rest|;
      assert |rest| > 0;
      assert size * (|rest| - 1) + size == size * |rest|;
    }
  }

  /** The `writeValue` calls for a sequence of chunks. */
  function Writes(p: PeripheralId, service: Uuid, characteristic: Uuid, chunks: seq<seq<Byte>>, response: bool): (ws: seq<Command>)
    ensures |ws| == |chunks|
  {
    if chunks == [] then []
    else [WriteValue(p, service, characteristic, chunks[0], response)] + Writes(p, service, characteristic, chunks[1..], response)
  }

  /** Write `i` carries chunk `i`, to the same characteristic and with the same write type. */
  lemma {:induction false} WritesCarryChunks(p: PeripheralId, service: Uuid, characteristic: Uuid,
                                             chunks: seq<seq<Byte>>, response: bool, i: nat)
    requires i < |chunks|
    ensures Writes(p, service, characteristic, chunks, response)[i] == WriteValue(p, service, characteristic, chunks[i], response)
  {
    if i > 0 {
      WritesCarryChunks(p, service, characteristic, chunks[1..], response, i - 1);
    }
  }

  /** One round of the `writeData` loop: the writes left from `idx` start with the chunk up to `endIdx`. */
  lemma WriteStep(p: PeripheralId, service: Uuid, characteristic: Uuid, data: seq<Byte>,
                  idx: nat, endIdx: nat, size: nat, response: bool)
    requires size > 0 && idx < |data|
    requires endIdx == if idx + size < |data| then idx + size else |data|
    ensures Writes(p, service, characteristic, Chunks(data[idx..], size), response)
         == [WriteValue(p, service, characteristic, data[idx..endIdx], response)]
            + Writes(p, service, characteristic, Chunks(data[endIdx..], size), response)
  {
    var rest := data[idx..];
    if |rest| <= size {
      assert rest == data[idx..endIdx] && data[endIdx..] == [];
    } else {
      assert rest[..size] == data[idx..endIdx];
      assert rest[size..] == data[endIdx..];
    }
    var chunks := Chunks(rest, size);
    assert chunks == [data[idx..endIdx]] + Chunks(data[endIdx..], size);
    assert chunks[1..] == Chunks(data[endIdx..], size);
  }

  // ---------------------------------------------------------------------------
  // Characteristic acquisition
  // ---------------------------------------------------------------------------

  /** The table entries `saveCharacteristics` records for the characteristics `ids` of `service`. */
  function Acquired(ids: seq<Uuid>, service: Uuid, configured: set<Uuid>): map<Uuid, Uuid> {
    map id | id in ids && id in configured :: service
  }

  lemma AcquiredAppend(ids: seq<Uuid>, id: Uuid, service: Uuid, configured: set<Uuid>, table: map<Uuid, Uuid>)
    ensures table + Acquired(ids + [id], service, configured) ==
      if id in configured then (table + Acquired(ids, service, configured))[id := service]
      else table + Acquired(ids, service, configured)
  {
    var before := Acquired(ids, service, configured);
    var after := Acquired(ids + [id], service, configured);
    if id in configured {
      assert after == before[id := service];
    } else {
      assert after == before;
    }
  }

  /** The `setNotifyValue` calls `saveCharacteristics` makes, one per receive characteristic, in order. */
  function NotifyRequests(p: PeripheralId, ids: seq<Uuid>, receive: set<Uuid>): seq<Command> {
    if ids == [] then []
    else NotifyRequests(p, ids[..|ids| - 1], receive)
         + (if ids[|ids| - 1] in receive then [SetNotifyValue(p, ids[|ids| - 1])] else [])
  }

  /** The `discoverCharacteristics` calls `discoverCharacteristics()` makes, one per service, in order. */
  function CharacteristicRequests(p: PeripheralId, wanted: set<Uuid>, services: seq<Uuid>): (cs: seq<Command>)
    ensures |cs| == |services|
    ensures forall i | 0 <= i < |services| :: cs[i] == DiscoverCharacteristics(p, wanted, services[i])
  {
    if services == [] then []
    else CharacteristicRequests(p, wanted, services[..|services| - 1])
         + [DiscoverCharacteristics(p, wanted, services[|services| - 1])]
  }

  /**
   * The readiness test of line 285 compares only sizes; since the table never holds a
   * characteristic outside the configured set, equal sizes mean every configured
   * characteristic is in the table.
   */
  lemma SameSizeSubsetIsEqual(acquired: set<Uuid>, configured: set<Uuid>)
    requires acquired <= configured
    ensures |acquired| == |configured| <==> acquired == configured
  {
    if |acquired| == |configured| {
      assert |configured - acquired| == |configured| - |acquired|;
    }
  }

  /** Number of `peripheralConnected` events in a log. */
  function ConnectedEvents(events: seq<Event>): nat {
    if events == [] then 0
    else ConnectedEvents(events[..|events| - 1]) + (if events[|events| - 1].PeripheralConnected? then 1 else 0)
  }

  lemma ConnectedEventsAppend(events: seq<Event>, from: nat, e: Event)
    requires from <= |events|
    ensures ConnectedEvents((events + [e])[from..]) == ConnectedEvents(events[from..]) + (if e.PeripheralConnected? then 1 else 0)
  {
    assert (events + [e])[from..] == events[from..] + [e];
    assert (events[from..] + [e])[..|events[from..]|] == events[from..];
  }

  // ---------------------------------------------------------------------------
  // The manager
  // ---------------------------------------------------------------------------

  class Manager {
    // Configuration, fixed at construction (lines 84-94).
    const peripheralName: string
    const serviceUuids: set<Uuid>
    const receiveUuids: set<Uuid>
    const transmitUuids: set<Uuid>
    const allowAutoConnectByProximity: bool

    // Published state.
    var discoveredDevices: seq<PeripheralId>
    var isConnected: bool
    var selectedDeviceId: Option<PeripheralId>

    // State of the CoreBluetooth central as the manager drives it: the last reported
    // power state, whether a scan was requested and not stopped since, and whether the
    // 5-second discovery timer has been scheduled.
    var adapterState: AdapterState
    var scanning: bool
    var discoveryTimerArmed: bool

    // Private state.
    var enabled: bool
    var discovered: seq<Entry>
    var connected: Option<PeripheralId>
    var characteristics: map<Uuid, Uuid>   // characteristic UUID -> the service it was found in
    var didSendConnectedEvent: bool

    // Outbound platform calls and published events, oldest first.
    var calls: seq<Command>
    var events: seq<Event>

    /** Index into `events` where the current connection session began. */
    ghost var sessionStart: nat

    /** Every characteristic the manager asks for and may record. */
    function Configured(): set<Uuid> {
      receiveUuids + transmitUuids
    }

    ghost predicate Valid()
      reads this
    {
      && isConnected == connected.Some?
      && characteristics.Keys <= Configured()
      && (connected.None? ==> characteristics == map[] && !didSendConnectedEvent)
      && NoDuplicates(Peripherals(discovered))
      && NoDuplicates(discoveredDevices)
      && sessionStart <= |events|
      // at most one `peripheralConnected` per session, and the flag says whether it was sent
      && ConnectedEvents(events[sessionStart..]) == (if didSendConnectedEvent then 1 else 0)
    }

    /** `init` (lines 115-141): the manager starts disabled, idle and with nothing discovered. */
    constructor (autoConnectByProximity: bool, name: string, services: map<Uuid, string>,
                 receiveCharacteristics: map<Uuid, string>, transmitCharacteristics: map<Uuid, string>)
      ensures Valid()
      ensures peripheralName == name && serviceUuids == services.Keys
      ensures receiveUuids == receiveCharacteristics.Keys && transmitUuids == transmitCharacteristics.Keys
      ensures allowAutoConnectByProximity == autoConnectByProximity
      ensures !enabled && connected.None? && selectedDeviceId.None? && !isConnected
      ensures discovered == [] && discoveredDevices == [] && characteristics == map[]
      ensures adapterState == Unknown && !scanning && !discoveryTimerArmed
      ensures calls == [] && events == []
    {
      peripheralName := name;
      serviceUuids := services.Keys;
      receiveUuids := receiveCharacteristics.Keys;
      transmitUuids := transmitCharacteristics.Keys;
      allowAutoConnectByProximity := autoConnectByProximity;
      discoveredDevices := [];
      isConnected := false;
      selectedDeviceId := None;
      adapterState := Unknown;
      scanning := false;
      discoveryTimerArmed := false;
      enabled := false;
      discovered := [];
      connected := None;
      characteristics := map[];
      didSendConnectedEvent := false;
      calls := [];
      events := [];
      sessionStart := 0;
    }

    // --- property observers ---------------------------------------------------

    /** The `didSet` of `selectedDeviceID` (lines 34-42). */
    method SelectedDeviceIdDidSet()
      modifies this`calls
      ensures calls == old(calls) +
        (if connected.Some? && selectedDeviceId != connected then [CancelConnection(connected.value)] else [])
    {
      if connected.Some? {
        if selectedDeviceId != connected {
          calls := calls + [CancelConnection(connected.value)];
        }
      }
    }

    /**
     * Setting `selectedDeviceID` (line 33): when it names another peripheral than the
     * connected one, the connection is cancelled.
     */
    method SetSelectedDeviceId(id: Option<PeripheralId>)
      requires Valid()
      modifies this`selectedDeviceId, this`calls
      ensures Valid()
      ensures selectedDeviceId == id
      ensures calls == old(calls) +
        (if connected.Some? && id != connected then [CancelConnection(connected.value)] else [])
    {
      selectedDeviceId := id;
      SelectedDeviceIdDidSet();
    }

    /**
     * The `didSet` of `_connectedPeripheral` (lines 101-108). When it fills in a missing
     * `selectedDeviceID`, that setter's own observer sees the new peripheral and cancels nothing.
     */
    method ConnectedPeripheralDidSet()
      modifies this`isConnected, this`selectedDeviceId, this`calls
      ensures isConnected == connected.Some?
      ensures selectedDeviceId ==
        (if old(selectedDeviceId).None? && connected.Some? then connected else old(selectedDeviceId))
      ensures calls == old(calls)
    {
      isConnected := connected.Some?;
      if selectedDeviceId.None? && connected.Some? {
        selectedDeviceId := connected;
        SelectedDeviceIdDidSet();
      }
    }

    /**
     * Setting `enabled` (lines 57-75). Enabling while powered on starts a scan; anything
     * else stops scanning (when powered on) and cancels the current connection, leaving
     * `selectedDeviceID` as it was.
     */
    method SetEnabled(value: bool)
      requires Valid()
      modifies this`enabled, this`scanning, this`discoveryTimerArmed, this`calls
      ensures Valid()
      ensures enabled == value
      ensures value && adapterState == PoweredOn ==>
        scanning && discoveryTimerArmed
        && calls == old(calls) + [ScanForPeripherals(serviceUuids), ScheduleDiscoveryTimer]
      ensures !(value && adapterState == PoweredOn) ==>
        scanning == (old(scanning) && adapterState != PoweredOn)
        && discoveryTimerArmed == old(discoveryTimerArmed)
        && calls == old(calls)
           + (if adapterState == PoweredOn then [StopScan] else [])
           + (if connected.Some? then [CancelConnection(connected.value)] else [])
    {
      enabled := value;
      if enabled && adapterState == PoweredOn {
        StartScan();
      } else {
        if adapterState == PoweredOn {
          calls := calls + [StopScan];
          scanning := false;
        }
        if connected.Some? {
          calls := calls + [CancelConnection(connected.value)];
        }
      }
    }

    // --- private helpers ------------------------------------------------------

    /** `startScan` (lines 164-177): scan for the configured services and (re)schedule the sweep timer. */
    method StartScan()
      modifies this`scanning, this`discoveryTimerArmed, this`calls
      ensures scanning && discoveryTimerArmed
      ensures calls == old(calls) + [ScanForPeripherals(serviceUuids), ScheduleDiscoveryTimer]
    {
      calls := calls + [ScanForPeripherals(serviceUuids)];
      scanning := true;
      calls := calls + [ScheduleDiscoveryTimer];
      discoveryTimerArmed := true;
    }

    /** `forgetCharacteristics` (lines 202-204). */
    method ForgetCharacteristics()
      modifies this`characteristics
      ensures characteristics == map[]
    {
      characteristics := map[];
    }

    /**
     * `connectPeripheral` (lines 179-191): connect, adopt the peripheral as the current
     * one (and as the selected one when none was selected), clear the characteristic
     * table, stop scanning and start a new session with no connected event sent.
     */
    method ConnectPeripheral(p: PeripheralId)
      requires Valid()
      requires connected.None?
      modifies this`connected, this`isConnected, this`selectedDeviceId, this`characteristics,
               this`scanning, this`didSendConnectedEvent, this`sessionStart, this`calls
      ensures Valid()
      ensures connected == Some(p) && isConnected
      ensures characteristics == map[] && !didSendConnectedEvent && !scanning
      ensures selectedDeviceId == Some(old(selectedDeviceId).GetOr(p))
      ensures calls == old(calls) + [Connect(p), StopScan]
    {
      calls := calls + [Connect(p)];
      connected := Some(p);
      ConnectedPeripheralDidSet();
      ForgetCharacteristics();
      calls := calls + [StopScan];
      scanning := false;
      didSendConnectedEvent := false;
      sessionStart := |events|;
    }

    /**
     * `forgetPeripheral` (lines 193-200): drop the current peripheral and its
     * characteristics and publish `peripheralDisconnected`, whether or not
     * `peripheralConnected` was ever published for it.
     */
    method ForgetPeripheral()
      requires Valid()
      modifies this`connected, this`isConnected, this`selectedDeviceId, this`characteristics,
               this`didSendConnectedEvent, this`sessionStart, this`calls, this`events
      ensures Valid()
      ensures connected.None? && !isConnected && characteristics == map[] && !didSendConnectedEvent
      ensures events == old(events) + [PeripheralDisconnected]
      ensures selectedDeviceId == old(selectedDeviceId) && calls == old(calls)
    {
      connected := None;
      ConnectedPeripheralDidSet();
      ForgetCharacteristics();
      events := events + [PeripheralDisconnected];
      didSendConnectedEvent := false;
      sessionStart := |events|;
    }

    /**
     * `updateDiscoveredPeripherals` (lines 206-227). `discoveredDevices` is republished,
     * as the identities of the list in order, only when the list is non-empty and its
     * size changed or a peripheral was sighted.
     */
    method UpdateDiscoveredPeripherals(sighted: Option<PeripheralId>, now: int)
      requires Valid()
      modifies this`discovered, this`discoveredDevices
      ensures Valid()
      ensures discovered == UpdatedEntries(old(discovered), sighted, now)
      ensures discoveredDevices ==
        (if Republishes(|old(discovered)|, discovered, sighted) then Peripherals(discovered) else old(discoveredDevices))
    {
      var sizeBefore := |discovered|;
      UpdatedEntriesKeepUnique(discovered, sighted, now);
      discovered := Swept(discovered, now);
      if sighted.Some? {
        discovered := WithoutPeripheral(discovered, sighted.value);
        discovered := discovered + [Entry(sighted.value, now + DiscoveryTimeout)];
      }
      if |discovered| > 0 && (sizeBefore != |discovered| || sighted.Some?) {
        discoveredDevices := Peripherals(discovered);
      }
    }

    /** `discoverCharacteristics` (lines 242-253), given the peripheral's current `services`. */
    method DiscoverCharacteristicsOfServices(services: Option<seq<Uuid>>)
      requires Valid()
      modifies this`characteristics, this`calls
      ensures Valid()
      ensures connected.None? || services.None? ==>
        characteristics == old(characteristics) && calls == old(calls)
      ensures connected.Some? && services.Some? ==>
        characteristics == map[]
        && calls == old(calls) + CharacteristicRequests(connected.value, Configured(), services.value)
    {
      if connected.None? || services.None? {
        return;
      }
      var p := connected.value;
      var ss := services.value;
      ForgetCharacteristics();
      for i := 0 to |ss|
        invariant characteristics == map[]
        invariant calls == old(calls) + CharacteristicRequests(p, Configured(), ss[..i])
      {
        assert ss[..i + 1][..i] == ss[..i];
        calls := calls + [DiscoverCharacteristics(p, Configured(), ss[i])];
      }
      assert ss[..|ss|] == ss;
    }

    /**
     * The loop of `saveCharacteristics` (lines 270-282): record each configured
     * characteristic against `service`, subscribing to the receive ones.
     */
    method RecordCharacteristics(p: PeripheralId, service: Uuid, ids: seq<Uuid>)
      requires characteristics.Keys <= Configured()
      modifies this`characteristics, this`calls
      ensures characteristics.Keys <= Configured()
      ensures characteristics == old(characteristics) + Acquired(ids, service, Configured())
      ensures calls == old(calls) + NotifyRequests(p, ids, receiveUuids)
    {
      for i := 0 to |ids|
        invariant characteristics == old(characteristics) + Acquired(ids[..i], service, Configured())
        invariant calls == old(calls) + NotifyRequests(p, ids[..i], receiveUuids)
        invariant characteristics.Keys <= Configured()
      {
        var id := ids[i];
        assert ids[..i + 1] == ids[..i] + [id];
        assert ids[..i + 1][..i] == ids[..i];
        AcquiredAppend(ids[..i], id, service, Configured(), old(characteristics));
        if id in receiveUuids {
          characteristics := characteristics[id := service];
          calls := calls + [SetNotifyValue(p, id)];
        } else if id in transmitUuids {
          characteristics := characteristics[id := service];
        }
      }
      assert ids[..|ids|] == ids;
    }

    /**
     * `saveCharacteristics` (lines 266-290). Records the discovered characteristics of
     * `service` that belong to the receive or transmit sets (subscribing to the receive
     * ones), ignores the rest, and publishes `peripheralConnected` once the table holds
     * every configured characteristic, unless it was already published this session.
     */
    method SaveCharacteristics(service: Uuid, found: Option<seq<Uuid>>)
      requires Valid()
      modifies this`characteristics, this`calls, this`events, this`didSendConnectedEvent
      ensures Valid()
      ensures connected.None? ==> unchanged(this)
      ensures connected.Some? ==>
        characteristics == old(characteristics) + Acquired(found.GetOr([]), service, Configured())
      ensures connected.Some? ==>
        calls == old(calls) + NotifyRequests(connected.value, found.GetOr([]), receiveUuids)
      ensures connected.Some? ==>
        events == old(events) +
          (if characteristics.Keys == Configured() && !old(didSendConnectedEvent)
           then [PeripheralConnected(connected.value)] else [])
      ensures connected.Some? ==>
        didSendConnectedEvent == (old(didSendConnectedEvent) || characteristics.Keys == Configured())
    {
      if connected.None? {
        return;
      }
      RecordCharacteristics(connected.value, service, found.GetOr([]));
      PublishConnectedOnce();
    }

    /**
     * The tail of `saveCharacteristics` (lines 284-289): once the table is as large as
     * the configured set, `peripheralConnected` is published unless it already was.
     */
    method PublishConnectedOnce()
      requires Valid() && connected.Some?
      modifies this`events, this`didSendConnectedEvent
      ensures Valid()
      ensures events == old(events) +
        (if characteristics.Keys == Configured() && !old(didSendConnectedEvent)
         then [PeripheralConnected(connected.value)] else [])
      ensures didSendConnectedEvent == (old(didSendConnectedEvent) || characteristics.Keys == Configured())
    {
      SameSizeSubsetIsEqual(characteristics.Keys, Configured());
      var haveAll := |characteristics| == |receiveUuids + transmitUuids|;
      if haveAll && !didSendConnectedEvent {
        ConnectedEventsAppend(events, sessionStart, PeripheralConnected(connected.value));
        events := events + [PeripheralConnected(connected.value)];
        didSendConnectedEvent := true;
      }
    }

    /**
     * `writeData` (lines 294-302): one `writeValue` per chunk of at most
     * `maxWriteLength` bytes, in order.
     */
    method WriteData(data: seq<Byte>, service: Uuid, characteristic: Uuid, p: PeripheralId,
                     response: bool, maxWriteLength: nat)
      requires maxWriteLength > 0
      modifies this`calls
      ensures calls == old(calls) + Writes(p, service, characteristic, Chunks(data, maxWriteLength), response)
    {
      var idx := 0;
      ghost var pending := Writes(p, service, characteristic, Chunks(data, maxWriteLength), response);
      assert data[0..] == data;
      while idx < |data|
        invariant 0 <= idx <= |data|
        invariant pending == Writes(p, service, characteristic, Chunks(data[idx..], maxWriteLength), response)
        invariant old(calls) + Writes(p, service, characteristic, Chunks(data, maxWriteLength), response)
               == calls + pending
      {
        var endIdx := if idx + maxWriteLength < |data| then idx + maxWriteLength else |data|;
        WriteStep(p, service, characteristic, data, idx, endIdx, maxWriteLength, response);
        var write := WriteValue(p, service, characteristic, data[idx..endIdx], response);
        assert calls + pending == (calls + [write]) + pending[1..];
        calls := calls + [write];
        pending := pending[1..];
        idx := endIdx;
      }
    }

    // --- public operations ----------------------------------------------------

    /**
     * `send(data:on:response:)` (lines 143-156). Nothing is written unless the
     * characteristic is in the table and a peripheral is connected; otherwise the payload
     * goes out as the chunk writes of `writeData`. `maxWriteLength` is the connected
     * peripheral's `maximumWriteValueLength(for: .withoutResponse)`.
     */
    method Send(data: seq<Byte>, id: Uuid, response: bool, maxWriteLength: nat)
      requires Valid()
      requires maxWriteLength > 0
      modifies this`calls
      ensures Valid()
      ensures id !in characteristics || connected.None? ==> calls == old(calls)
      ensures id in characteristics && connected.Some? ==>
        calls == old(calls) + Writes(connected.value, characteristics[id], id, Chunks(data, maxWriteLength), response)
    {
      if id !in characteristics {
        return;
      }
      if connected.None? {
        return;
      }
      WriteData(data, characteristics[id], id, connected.value, response, maxWriteLength);
    }

    // --- CBCentralManagerDelegate ---------------------------------------------

    /** `centralManagerDidUpdateState` (lines 310-337): power-on resumes scanning when enabled. */
    method CentralManagerDidUpdateState(state: AdapterState)
      requires Valid()
      modifies this`adapterState, this`scanning, this`discoveryTimerArmed, this`calls
      ensures Valid()
      ensures adapterState == state
      ensures state == PoweredOn && enabled ==>
        scanning && discoveryTimerArmed
        && calls == old(calls) + [ScanForPeripherals(serviceUuids), ScheduleDiscoveryTimer]
      ensures !(state == PoweredOn && enabled) ==>
        scanning == old(scanning) && discoveryTimerArmed == old(discoveryTimerArmed) && calls == old(calls)
    {
      adapterState := state;
      if state == PoweredOn && enabled {
        StartScan();
      }
    }

    /**
     * `centralManager(_:didDiscover:advertisementData:rssi:)` (lines 339-368). A sighting
     * under another name only sweeps the list. A sighting of the configured name enters the
     * list and, when no peripheral is current, connects iff the peripheral is the selected
     * one or proximity auto-connect is on and the RSSI reaches −70.
     */
    method DidDiscover(p: PeripheralId, name: Option<string>, rssi: int, now: int)
      requires Valid()
      modifies this`discovered, this`discoveredDevices, this`connected, this`isConnected,
               this`selectedDeviceId, this`characteristics, this`scanning,
               this`didSendConnectedEvent, this`sessionStart, this`calls
      ensures Valid()
      ensures name.GetOr("") != peripheralName ==>
        discovered == UpdatedEntries(old(discovered), None, now)
      ensures name.GetOr("") == peripheralName ==>
        discovered == UpdatedEntries(old(discovered), Some(p), now)
      ensures name.GetOr("") != peripheralName ==>
        discoveredDevices ==
          (if Republishes(|old(discovered)|, discovered, None) then Peripherals(discovered) else old(discoveredDevices))
      ensures name.GetOr("") == peripheralName ==>
        discoveredDevices ==
          (if Republishes(|old(discovered)|, discovered, Some(p)) then Peripherals(discovered) else old(discoveredDevices))
      ensures
        var connects := name.GetOr("") == peripheralName && old(connected).None?
          && (Some(p) == old(selectedDeviceId)
              || (allowAutoConnectByProximity && rssi >= RssiAutoConnectThreshold));
        && (connects ==>
              connected == Some(p) && characteristics == map[] && !didSendConnectedEvent && !scanning
              && selectedDeviceId == Some(old(selectedDeviceId).GetOr(p))
              && calls == old(calls) + [Connect(p), StopScan])
        && (!connects ==>
              connected == old(connected) && characteristics == old(characteristics)
              && didSendConnectedEvent == old(didSendConnectedEvent) && scanning == old(scanning)
              && selectedDeviceId == old(selectedDeviceId) && calls == old(calls))
    {
      var advertised := name.GetOr("");
      if advertised != peripheralName {
        UpdateDiscoveredPeripherals(None, now);
        return;
      }
      UpdateDiscoveredPeripherals(Some(p), now);
      if connected.Some? {
        return;
      }
      var shouldConnect := Some(p) == selectedDeviceId;
      if allowAutoConnectByProximity && rssi >= RssiAutoConnectThreshold {
        shouldConnect := true;
      }
      if shouldConnect {
        ConnectPeripheral(p);
      }
    }

    /** `centralManager(_:didConnect:)` (lines 370-381): discover the configured services. */
    method DidConnect(p: PeripheralId)
      requires Valid()
      modifies this`calls
      ensures Valid()
      ensures calls == old(calls) + (if Some(p) == connected then [DiscoverServices(p, serviceUuids)] else [])
    {
      if Some(p) != connected {
        return;
      }
      calls := calls + [DiscoverServices(p, serviceUuids)];
    }

    /**
     * `centralManager(_:didFailToConnect:error:)` (lines 383-397): tear the session down
     * and sweep the list. Scanning is not restarted.
     */
    method DidFailToConnect(p: PeripheralId, now: int)
      requires Valid()
      modifies this`connected, this`isConnected, this`selectedDeviceId, this`characteristics,
               this`didSendConnectedEvent, this`sessionStart, this`calls, this`events,
               this`discovered, this`discoveredDevices
      ensures Valid()
      ensures Some(p) != old(connected) ==> unchanged(this)
      ensures Some(p) == old(connected) ==>
        connected.None? && characteristics == map[] && !didSendConnectedEvent
        && events == old(events) + [PeripheralDisconnected]
        && calls == old(calls) && selectedDeviceId == old(selectedDeviceId)
        && discovered == UpdatedEntries(old(discovered), None, now)
        && discoveredDevices ==
             (if Republishes(|old(discovered)|, discovered, None) then Peripherals(discovered) else old(discoveredDevices))
    {
      if Some(p) != connected {
        return;
      }
      ForgetPeripheral();
      UpdateDiscoveredPeripherals(None, now);
    }

    /**
     * `centralManager(_:didDisconnectPeripheral:error:)` (lines 399-416): tear the session
     * down, scan again when enabled, and sweep the list.
     */
    method DidDisconnect(p: PeripheralId, now: int)
      requires Valid()
      modifies this`connected, this`isConnected, this`selectedDeviceId, this`characteristics,
               this`didSendConnectedEvent, this`sessionStart, this`calls, this`events,
               this`discovered, this`discoveredDevices, this`scanning, this`discoveryTimerArmed
      ensures Valid()
      ensures Some(p) != old(connected) ==> unchanged(this)
      ensures Some(p) == old(connected) ==>
        connected.None? && characteristics == map[] && !didSendConnectedEvent
        && events == old(events) + [PeripheralDisconnected]
        && selectedDeviceId == old(selectedDeviceId)
        && calls == old(calls) + (if enabled then [ScanForPeripherals(serviceUuids), ScheduleDiscoveryTimer] else [])
        && scanning == (old(scanning) || enabled)
        && discoveryTimerArmed == (old(discoveryTimerArmed) || enabled)
        && discovered == UpdatedEntries(old(discovered), None, now)
        && discoveredDevices ==
             (if Republishes(|old(discovered)|, discovered, None) then Peripherals(discovered) else old(discoveredDevices))
    {
      if Some(p) != connected {
        return;
      }
      ForgetPeripheral();
      if enabled {
        StartScan();
      }
      UpdateDiscoveredPeripherals(None, now);
    }

    /** The repeating 5-second discovery timer scheduled by `startScan` (lines 174-176). */
    method DiscoveryTimerFired(now: int)
      requires Valid()
      requires discoveryTimerArmed
      modifies this`discovered, this`discoveredDevices
      ensures Valid()
      ensures discovered == UpdatedEntries(old(discovered), None, now)
      ensures discoveredDevices ==
        (if Republishes(|old(discovered)|, discovered, None) then Peripherals(discovered) else old(discoveredDevices))
    {
      UpdateDiscoveredPeripherals(None, now);
    }

    // --- CBPeripheralDelegate -------------------------------------------------

    /**
     * `peripheral(_:didDiscoverServices:)` (lines 420-433), given the peripheral's
     * `services` list: on success, rediscover characteristics from scratch.
     */
    method DidDiscoverServices(p: PeripheralId, failed: bool, services: Option<seq<Uuid>>)
      requires Valid()
      modifies this`characteristics, this`calls
      ensures Valid()
      ensures Some(p) != connected || failed || services.None? ==> unchanged(this)
      ensures Some(p) == connected && !failed && services.Some? ==>
        characteristics == map[]
        && calls == old(calls) + CharacteristicRequests(p, Configured(), services.value)
    {
      if Some(p) != connected {
        return;
      }
      if failed {
        return;
      }
      DiscoverCharacteristicsOfServices(services);
    }

    /**
     * `peripheral(_:didModifyServices:)` (lines 435-452): forget every characteristic when
     * a configured service was invalidated, then rediscover services. The connected-event
     * flag is left alone, so readiness is not announced again this session.
     */
    method DidModifyServices(p: PeripheralId, invalidated: seq<Uuid>)
      requires Valid()
      modifies this`characteristics, this`calls
      ensures Valid()
      ensures Some(p) != connected ==> unchanged(this)
      ensures Some(p) == connected ==>
        characteristics ==
          (if exists s :: s in invalidated && s in serviceUuids then map[] else old(characteristics))
        && calls == old(calls) + [DiscoverServices(p, serviceUuids)]
    {
      if Some(p) != connected {
        return;
      }
      if exists s :: s in invalidated && s in serviceUuids {
        ForgetCharacteristics();
      }
      calls := calls + [DiscoverServices(p, serviceUuids)];
    }

    /**
     * `peripheral(_:didDiscoverCharacteristicsFor:error:)` (lines 454-462): the error is
     * not looked at; the service's characteristics are saved.
     */
    method DidDiscoverCharacteristics(p: PeripheralId, service: Uuid, found: Option<seq<Uuid>>)
      requires Valid()
      modifies this`characteristics, this`calls, this`events, this`didSendConnectedEvent
      ensures Valid()
      ensures Some(p) != connected ==> unchanged(this)
      ensures Some(p) == connected ==>
        characteristics == old(characteristics) + Acquired(found.GetOr([]), service, Configured())
        && calls == old(calls) + NotifyRequests(p, found.GetOr([]), receiveUuids)
        && events == old(events) +
             (if characteristics.Keys == Configured() && !old(didSendConnectedEvent)
              then [PeripheralConnected(p)] else [])
        && didSendConnectedEvent == (old(didSendConnectedEvent) || characteristics.Keys == Configured())
    {
      if Some(p) != connected {
        return;
      }
      SaveCharacteristics(service, found);
    }

    /**
     * `peripheral(_:didUpdateValueFor:error:)` (lines 464-478): a value on a receive
     * characteristic is published; errors, missing values and other characteristics are not.
     */
    method DidUpdateValue(characteristic: Uuid, failed: bool, value: Option<seq<Byte>>)
      requires Valid()
      modifies this`events
      ensures Valid()
      ensures events == old(events) +
        (if !failed && characteristic in receiveUuids && value.Some?
         then [DataReceived(characteristic, value.value)] else [])
    {
      if failed {
        return;
      }
      if characteristic in receiveUuids {
        if value.Some? {
          ConnectedEventsAppend(events, sessionStart, DataReceived(characteristic, value.value));
          events := events + [DataReceived(characteristic, value.value)];
        }
      }
    }
  }
}
