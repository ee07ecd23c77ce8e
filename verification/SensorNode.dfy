/** The firmware of main/mesh_node.c, main/mesh_main.c and main/mesh_ota_update.c: static variables updated in place,
    event by event. Every method is proved to do to these variables what NodeSpec says; NodeProps.dfy, BootProps.dfy and
    the network modules prove what follows from that. */
module SensorNode {
  import opened Types
  import opened DataPacket
  import opened NodeSpec
  import opened NodeProps

  const KEY_SLOTS: nat := 400
  const ERR_VALUE_LEN: int := 13

  /** Bytes handed to the stack for one connection. */
  datatype Transmission = Transmission(conn: uint16, bytes: seq<uint8>)

  // ---- On the air -----------------------------------------------------------------------------------------------

  ghost predicate AllPackable(ps: seq<Packet>) {
    forall p :: p in ps ==> Packable(p)
  }

  function ToAll(links: seq<uint16>, b: seq<uint8>): seq<Transmission> {
    seq(|links|, i requires 0 <= i < |links| => Transmission(links[i], b))
  }

  /** Every packet, in order, to every connection. */
  function OnWire(links: seq<uint16>, ps: seq<Packet>): seq<Transmission>
    requires AllPackable(ps)
  {
    if ps == [] then [] else ToAll(links, Packed(ps[0])) + OnWire(links, ps[1..])
  }

  /** The i-th packet goes once to each connection, packed, before the next one goes to any. */
  lemma {:induction false} OnWireAt(links: seq<uint16>, ps: seq<Packet>, i: nat, j: nat)
    requires AllPackable(ps) && i < |ps| && j < |links|
    ensures |OnWire(links, ps)| == |ps| * |links| && i * |links| + j < |OnWire(links, ps)|
    ensures OnWire(links, ps)[i * |links| + j] == Transmission(links[j], Packed(ps[i]))
    decreases |ps|
  {
    OnWireSize(links, ps);
    if i == 0 {
      InRow(0, j, |ps|, |links|);
    } else {
      OnWireAt(links, ps[1..], i - 1, j);
      InRow(i, j, |ps|, |links|);
      OneRowFurther(i, |links|);
    }
  }

  lemma {:induction false} OnWireSize(links: seq<uint16>, ps: seq<Packet>)
    requires AllPackable(ps)
    ensures |OnWire(links, ps)| == |ps| * |links|
  {
    if ps != [] {
      OnWireSize(links, ps[1..]);
      OneRowFurther(|ps|, |links|);
    }
  }

  lemma OneRowFurther(i: nat, n: nat)
    requires i > 0
    ensures i * n == n + (i - 1) * n
  {
  }

  lemma InRow(i: nat, j: nat, rows: nat, n: nat)
    requires i < rows && j < n
    ensures i * n + j < rows * n
  {
    assert (i + 1) * n <= rows * n;
  }

  lemma {:induction false} OnWireAppends(links: seq<uint16>, ps: seq<Packet>, qs: seq<Packet>)
    requires AllPackable(ps) && AllPackable(qs)
    ensures AllPackable(ps + qs) && OnWire(links, ps + qs) == OnWire(links, ps) + OnWire(links, qs)
  {
    if ps == [] {
      assert ps + qs == qs;
    } else {
      OnWireAppends(links, ps[1..], qs);
      assert (ps + qs)[1..] == ps[1..] + qs;
    }
  }

  lemma OnWireNone(w: seq<Transmission>, links: seq<uint16>)
    ensures AllPackable([]) && w == w + OnWire(links, [])
  {
  }

  /** Two batches of transmissions are one. */
  lemma WireJoins(w0: seq<Transmission>, w1: seq<Transmission>, w2: seq<Transmission>, links: seq<uint16>,
                  ps: seq<Packet>, qs: seq<Packet>)
    requires AllPackable(ps) && AllPackable(qs) && w1 == w0 + OnWire(links, ps) && w2 == w1 + OnWire(links, qs)
    ensures AllPackable(ps + qs) && w2 == w0 + OnWire(links, ps + qs)
  {
    OnWireAppends(links, ps, qs);
    Associates(w0, OnWire(links, ps), OnWire(links, qs));
    hide OnWire;
  }

  lemma Associates(a: seq<Transmission>, b: seq<Transmission>, c: seq<Transmission>)
    ensures (a + b) + c == a + (b + c)
  {
  }

  lemma OnWireOne(links: seq<uint16>, p: Packet)
    requires Packable(p)
    ensures OnWire(links, [p]) == ToAll(links, Packed(p))
  {
    assert [p][1..] == [];
  }

  lemma OnWireNext(links: seq<uint16>, ps: seq<Packet>, i: nat)
    requires AllPackable(ps) && i < |ps|
    ensures OnWire(links, ps[..i + 1]) == OnWire(links, ps[..i]) + OnWire(links, [ps[i]])
  {
    assert ps[..i + 1] == ps[..i] + [ps[i]];
    OnWireAppends(links, ps[..i], [ps[i]]);
  }

  lemma RekeyedAll(ps: seq<Packet>, counter: uint8)
    requires AllPackable(ps)
    ensures AllPackable(Rekeyed(ps, counter))
    ensures forall i :: 0 <= i < |ps| ==> Rekeyed(ps, counter)[i] == ps[i].(key := (counter + i) % 0x100)
  {
    forall i | 0 <= i < |ps|
      ensures Rekeyed(ps, counter)[i] == ps[i].(key := (counter + i) % 0x100) && Packable(Rekeyed(ps, counter)[i])
    {
      RekeyedAt(ps, counter, i);
      assert ps[i] in ps;
    }
  }

  /** The four static limits are the defaults. */
  lemma StaticVoltages(stored: Nvs)
    ensures map[BatteryHv := 2100, BatteryLv := 1450, SensorHv := 2707, SensorLv := 1344]
            == map k | k in VOLTAGES :: Loaded(stored, false, k)
  {
  }

  lemma ProcessedCarriesId(s: State, p: Packet)
    requires !ReadsPast(s, p)
    ensures p.ptype == PT_NODE_CONNECTED_RESP && NextStep(s, p) == Process ==> |p.data| > ADDRESS_SIZE
  {
  }

  class Node {
    // main/mesh_node.c, with the heap of main/mesh_data_packet.c
    const nodeAddr: seq<uint8>
    const heap: PacketHeap
    var ourNodeId: uint8
    const processedPackets: array<bool>
    const packetHandlers: array<Option<Handler>>
    var idempotencyKeyCounter: uint8
    var provisioningRequested: bool
    var resendPackets: bool
    var timerActive: bool
    var pars: seq<MeshDataPacket>
    // what the waiting packets say, and the memory they are
    ghost var awaiting: seq<Packet>
    ghost var Repr: set<object>
    // main/mesh_main.c
    var bootState: uint8
    var sleepSeconds: uint64
    var otaAvailable: bool
    // what lies outside these files; `voltages` are the four static limits of the battery and sensor readings
    var voltages: map<Setting, uint32>
    var power: Power
    var markedValid: bool
    var nvs: Nvs
    var links: seq<uint16>
    var wire: seq<Transmission>

    /** The waiting packets are memory of their own, no two of them share any, and they say what `awaiting` says. */
    ghost predicate Waiting()
      reads `pars, `awaiting, `Repr, Repr
    {
      && |pars| == |awaiting|
      && (forall i :: 0 <= i < |pars| ==>
            pars[i] in Repr && pars[i].data in Repr && pars[i].Valid() && pars[i].View() == awaiting[i])
      && forall i, j :: 0 <= i < j < |pars| ==> pars[i] != pars[j] && pars[i].data != pars[j].data
    }

    /** The waiting packets have not been freed, and nothing else of the node lies in their memory. */
    ghost predicate Valid()
      reads `pars, `awaiting, `Repr, heap, Repr
    {
      && processedPackets.Length == KEY_SLOTS && |nodeAddr| == ADDRESS_SIZE
      && |pars| <= MAX_AWAITING && |pars| == |awaiting| && AllPackable(awaiting)
      && heap.Valid() && Repr <= heap.blocks
      && this !in Repr && heap !in Repr && processedPackets !in Repr && packetHandlers !in Repr
      && Waiting()
    }

    ghost function Marked(): set<int>
      reads processedPackets
    {
      set k | 0 <= k < processedPackets.Length && processedPackets[k]
    }

    ghost function LinkView(): Link
      reads `ourNodeId, `provisioningRequested, `resendPackets, `timerActive, `awaiting, processedPackets
    {
      Link(ourNodeId, Marked(), provisioningRequested, resendPackets, timerActive, awaiting)
    }

    ghost function AppView(): App
      reads `bootState, `voltages, `sleepSeconds, `otaAvailable, `markedValid
    {
      App(bootState, voltages, sleepSeconds, otaAvailable, markedValid)
    }

    ghost function View(): State
      reads this, processedPackets, heap`allocatedPackets
    {
      State(nodeAddr, power, LinkView(), Counters(idempotencyKeyCounter, heap.allocatedPackets), AppView(), nvs)
    }

    /** The state and the transmissions are what `o` says, seen from the transmissions before. */
    ghost predicate Did(o: Out, before: seq<Transmission>, to: seq<uint16>)
      reads this, processedPackets, heap`allocatedPackets
    {
      View() == o.st && AllPackable(o.sent) && wire == before + OnWire(to, o.sent)
    }

    /** A packet whose memory is none of the waiting packets'. */
    ghost predicate Apart(p: MeshDataPacket)
      reads `Repr, p
    {
      p !in Repr && p.data !in Repr && p.Valid()
    }

    /** meshsnsr_on_sync has registered the handlers. */
    ghost predicate Registered()
      reads packetHandlers
    {
      && packetHandlers.Length == NUM_PACKET_TYPES
      && forall t :: 0 <= t < NUM_PACKET_TYPES ==> packetHandlers[t] == HandlerOf(t)
    }

    ghost predicate Unregistered()
      reads packetHandlers
    {
      packetHandlers.Length == NUM_PACKET_TYPES && forall t :: 0 <= t < NUM_PACKET_TYPES ==> packetHandlers[t] == None
    }

    // ---- Boot ---------------------------------------------------------------------------------------------------

    /** The static initialisers: nothing has been loaded. */
    constructor (addr: seq<uint8>, stored: Nvs)
      requires |addr| == ADDRESS_SIZE
      ensures Valid() && View() == Loading(addr, stored, false) && wire == [] && Unregistered()
      ensures fresh(heap) && Repr == {}
    {
      hide Loaded;
      nodeAddr, ourNodeId, idempotencyKeyCounter := addr, PROVISIONAL_NODE_ID, 0;
      provisioningRequested, resendPackets, timerActive, pars, awaiting, Repr := false, false, false, [], [], {};
      heap := new PacketHeap();
      processedPackets := new bool[KEY_SLOTS](_ => false);
      packetHandlers := new Option<Handler>[NUM_PACKET_TYPES](_ => None);
      bootState, voltages := 0, map[BatteryHv := 2100, BatteryLv := 1450, SensorHv := 2707, SensorLv := 1344];
      sleepSeconds, otaAvailable := 60, false;
      power, markedValid, nvs, links, wire := Awake, false, stored, [], [];
      new;
      assert Marked() == {};
      StaticVoltages(stored);
    }

    /** nvs_flash_init, after nvs_flash_erase where the store asks for it; a failed check ends the node. */
    method InitStore(flash: Flash) returns (usable: bool)
      requires Valid()
      modifies `nvs, `power
      ensures Valid() && nvs == (if flash.NeedsErase? && flash.erased then EMPTY_STORE else old(nvs))
      ensures usable == (flash.Usable? || (flash.NeedsErase? && flash.erased && flash.usable))
      ensures power == if usable then old(power) else Crashed
    {
      usable := flash.Usable?;
      if flash.NeedsErase? {
        if flash.erased {
          nvs := EMPTY_STORE;
          usable := flash.usable;
        }
      }
      if !usable {
        power := Crashed;
      }
    }

    /** app_main: the stored state is loaded, then what the stored boot state asks for is done. */
    method AppMain(be: BootEnv)
      requires Valid() && View() == Loading(nodeAddr, nvs, false) && Unregistered()
      modifies this, packetHandlers
      ensures Valid() && View() == Booted(nodeAddr, old(nvs), be) && wire == old(wire)
      ensures power == Awake ==> Registered()
    {
      var usable := InitStore(be.flash);
      assert View() == Loading(nodeAddr, nvs, false).(power := power);
      if !usable {
        return;
      }
      ReadStoredState(be.opens);
      assert View() == Loading(nodeAddr, nvs, be.opens);
      hide Loading, Waiting;
      if bootState == BOOT_INSTALL_OTA_UPDATE {
        InstallOtaUpdate(be);
      } else {
        if bootState == BOOT_VERIFY_OTA_UPDATE {
          VerifyOtaUpdate(be);
        }
        OnSync();
      }
    }

    /** nvs_get_u32, handle_load_err and the setter: a missing key leaves the variable as it is. */
    method LoadVoltage(k: Setting)
      requires k in voltages
      modifies `voltages
      ensures voltages.Keys == old(voltages).Keys
      ensures voltages[k] == if k in nvs.settings then nvs.settings[k] else old(voltages)[k]
      ensures forall j :: j in voltages && j != k ==> voltages[j] == old(voltages)[j]
    {
      if k in nvs.settings {
        voltages := voltages[k := nvs.settings[k]];
      }
    }

    method LoadVoltages()
      requires voltages == map k | k in VOLTAGES :: Default(k)
      modifies `voltages
      ensures voltages == map k | k in VOLTAGES :: Loaded(nvs, true, k)
    {
      LoadVoltage(BatteryHv);
      LoadVoltage(BatteryLv);
      LoadVoltage(SensorHv);
      LoadVoltage(SensorLv);
      hide Default;
      assert voltages.Keys == VOLTAGES;
      forall k | k in VOLTAGES ensures voltages[k] == Loaded(nvs, true, k) {
      }
    }

    /** read_stored_state. */
    method ReadStoredState(opens: bool)
      requires Valid() && View() == Loading(nodeAddr, nvs, false)
      modifies `bootState, `voltages, `sleepSeconds
      ensures Valid() && View() == Loading(nodeAddr, nvs, opens)
    {
      hide Waiting;
      if opens {
        assert voltages == map k | k in VOLTAGES :: Default(k);
        if nvs.bootState.Some? {
          bootState := nvs.bootState.value;
        }
        LoadVoltages();
        if SleepDuration in nvs.settings {
          sleepSeconds := LowHalfSet(sleepSeconds, nvs.settings[SleepDuration]);
        }
      }
    }

    /** install_ota_update and ota_update_task. */
    method InstallOtaUpdate(be: BootEnv)
      requires Valid()
      modifies `power, `nvs
      ensures Valid() && View() == NodeSpec.InstallOtaUpdate(old(View()), be) && power != Awake
    {
      hide Waiting;
      if !be.wifi {
        power := Crashed;
        return;
      }
      if !be.taskOpens {
        power := Crashed;
        return;
      }
      if nvs.nodeAddress.None? {
        power := Crashed;
        return;
      }
      if be.downloads {
        if !be.taskReopens {
          power := Crashed;
          return;
        }
        if !be.taskSets {
          power := Crashed;
          return;
        }
        nvs := nvs.(bootState := Some(BOOT_VERIFY_OTA_UPDATE));
      }
      power := Restarting;
    }

    method VerifyOtaUpdate(be: BootEnv)
      requires Valid()
      modifies `markedValid, `nvs
      ensures Valid() && View() == NodeSpec.VerifyOtaUpdate(old(View()), be)
    {
      hide Waiting;
      markedValid := true;
      if !be.verifyOpens {
        return;
      }
      if be.verifySets {
        nvs := nvs.(bootState := Some(BOOT_READ_AND_REPORT));
      }
    }

    /** meshsnsr_on_sync: register the packet handlers. */
    method OnSync()
      requires Unregistered()
      modifies packetHandlers
      ensures Registered()
    {
      packetHandlers[12], packetHandlers[10], packetHandlers[14], packetHandlers[16]
        := Some(DataRequest), Some(DataRequest), Some(DataRequest), Some(DataRequest);
      packetHandlers[PT_NODE_CONNECTED_RESP] := Some(NodeConnectedResp);
      packetHandlers[34], packetHandlers[36], packetHandlers[30], packetHandlers[32], packetHandlers[38]
        := Some(ConfigUpdate), Some(ConfigUpdate), Some(ConfigUpdate), Some(ConfigUpdate), Some(ConfigUpdate);
      packetHandlers[PT_OTA_UPDATE_AVAILABLE] := Some(OtaUpdateAvailable);
      packetHandlers[PT_GO_TO_SLEEP] := Some(GoToSleep);
    }

    // ---- Sending ------------------------------------------------------------------------------------------------

    method NextIdempotencyKey() returns (k: uint8)
      modifies `idempotencyKeyCounter
      ensures k == old(idempotencyKeyCounter) && View() == KeyTaken(old(View()))
    {
      k := idempotencyKeyCounter;
      idempotencyKeyCounter := (idempotencyKeyCounter + 1) % 0x100;
    }

    /** mn_forward_packet for one connection, with a buffer of its own. */
    method ForwardPacket(conn: uint16, p: MeshDataPacket)
      requires p.Valid() && Packable(p.View())
      modifies `wire
      ensures wire == old(wire) + [Transmission(conn, Packed(p.View()))]
    {
      var buf := new uint8[MAX_SIZE](_ => 0);
      var len := Pack(buf, p);
      wire := wire + [Transmission(conn, buf[..len])];
    }

    /** mesh_peer_exec_for_each(mn_forward_packet, p). */
    method ForwardToPeers(p: MeshDataPacket)
      requires p.Valid() && Packable(p.View())
      modifies `wire
      ensures wire == old(wire) + OnWire(links, [p.View()])
    {
      hide OnWire, Packed;
      var i := 0;
      ghost var all := ToAll(links, Packed(p.View()));
      while i < |links|
        invariant 0 <= i <= |links|
        invariant wire == old(wire) + all[..i]
      {
        ForwardPacket(links[i], p);
        assert all[..i + 1] == all[..i] + [all[i]];
        i := i + 1;
      }
      OnWireOne(links, p.View());
    }

    /** mdp_alloc, mdp_copy_packet and mdp_free, which leave the waiting packets alone. */
    method AllocPacket(n: uint8) returns (p: MeshDataPacket)
      requires Valid()
      modifies heap
      ensures Valid() && View() == Allocated(old(View())) && fresh(p) && fresh(p.data) && Apart(p) && heap.Live(p)
      ensures p.data.Length == n && p.data[..] == seq(n, _ => 0)
    {
      hide Waiting, AllPackable, Marked;
      p := heap.Alloc(n);
    }

    method CopyPacket(p: MeshDataPacket) returns (c: MeshDataPacket)
      requires Valid() && p.Valid()
      modifies heap
      ensures Valid() && View() == Allocated(old(View())) && fresh(c) && fresh(c.data) && Apart(c) && heap.Live(c)
      ensures c.View() == p.View() && heap.blocks == old(heap.blocks) + {c, c.data}
    {
      hide Waiting, AllPackable, Marked;
      c := heap.Copy(p);
    }

    method FreePacket(p: MeshDataPacket)
      requires Valid() && Apart(p) && heap.Live(p)
      modifies heap
      ensures Valid() && View() == Freed(old(View())) && !heap.Live(p)
    {
      hide Waiting, AllPackable, Marked;
      heap.Free(p);
    }

    lemma Shape()
      requires Valid()
      ensures |pars| == |awaiting| <= MAX_AWAITING && AllPackable(awaiting) && Repr <= heap.blocks
      ensures processedPackets.Length == KEY_SLOTS && |nodeAddr| == ADDRESS_SIZE
      ensures this !in Repr && heap !in Repr && processedPackets !in Repr && packetHandlers !in Repr
    {
    }

    /** SLIST_INSERT_HEAD. */
    method InsertPar(c: MeshDataPacket)
      requires Valid() && Apart(c) && heap.Live(c) && Packable(c.View()) && |pars| < MAX_AWAITING
      modifies `pars, `awaiting, `Repr
      ensures Valid() && awaiting == [c.View()] + old(awaiting) && Repr == old(Repr) + {c, c.data}
    {
      hide Packable;
      pars, awaiting, Repr := [c] + pars, [c.View()] + awaiting, Repr + {c, c.data};
    }

    /** mn_add_packet_awaiting_response: false when the pool is exhausted. */
    method AddPacketAwaitingResponse(p: MeshDataPacket) returns (ok: bool)
      requires Valid() && p.Valid() && Packable(p.View())
      modifies `pars, `awaiting, `Repr, `timerActive, heap
      ensures Valid() && fresh(Repr - old(Repr)) && old(heap.blocks) <= heap.blocks
      ensures ok == (|old(pars)| < MAX_AWAITING) && View() == AddAwaiting(old(View()), p.View())
    {
      hide Valid, Waiting, Packable, Marked, Apart, PacketHeap.Live;
      Shape();
      if |pars| >= MAX_AWAITING {
        return false;
      }
      var c := CopyPacket(p);
      InsertPar(c);
      Shape();
      if !timerActive {
        timerActive := true;
      }
      ok := true;
    }

    method FindParByType(t: uint8) returns (i: nat)
      requires Valid()
      ensures |pars| == |awaiting| && i == IndexOfType(awaiting, t)
    {
      i := 0;
      while i < |pars| && pars[i].ptype != t
        invariant i <= |pars| && IndexOfType(awaiting, t) == i + IndexOfType(awaiting[i..], t)
      {
        assert awaiting[i..][1..] == awaiting[i + 1..];
        i := i + 1;
      }
    }

    /** SLIST_REMOVE and mdp_free. */
    method RemovePar(i: nat)
      requires Valid() && i < |pars|
      modifies `pars, `awaiting, `Repr, heap
      ensures Valid() && Repr <= old(Repr) && awaiting == old(awaiting)[..i] + old(awaiting)[i + 1..]
      ensures heap.allocatedPackets == old(heap.allocatedPackets) - 1
    {
      hide Packable;
      var p := UnlinkPar(i);
      hide Waiting;
      heap.Free(p);
    }

    method UnlinkPar(i: nat) returns (p: MeshDataPacket)
      requires Waiting() && i < |pars| && this !in Repr
      modifies `pars, `awaiting, `Repr
      ensures Waiting() && pars == old(pars)[..i] + old(pars)[i + 1..]
      ensures awaiting == old(awaiting)[..i] + old(awaiting)[i + 1..]
      ensures p in old(Repr) && p.data in old(Repr) && Repr == old(Repr) - {p, p.data}
    {
      p := pars[i];
      pars, awaiting, Repr := pars[..i] + pars[i + 1..], awaiting[..i] + awaiting[i + 1..], Repr - {p, p.data};
    }

    method RemovePacketAwaitingResponse(t: uint8)
      requires Valid()
      modifies `pars, `awaiting, `Repr, heap
      ensures Valid() && Repr <= old(Repr) && View() == RemoveAwaiting(old(View()), t)
    {
      hide Valid, Waiting, Marked, IndexOfType;
      Shape();
      var i := FindParByType(t);
      if i == |pars| {
        return;
      }
      RemovePar(i);
    }

    /** The packet is sent and freed; a copy of it may stay behind. */
    method SendPacket(p: MeshDataPacket, awaitResponse: bool)
      requires Valid() && Apart(p) && heap.Live(p) && Packable(p.View())
      modifies `wire, `pars, `awaiting, `Repr, `timerActive, heap
      ensures Valid() && fresh(Repr - old(Repr)) && !heap.Live(p)
      ensures Did(Send(old(View()), p.View(), awaitResponse), old(wire), links)
    {
      hide Valid, Waiting, OnWire, AddAwaiting, Packable, Marked;
      Shape();
      ForwardToPeers(p);
      if awaitResponse {
        var ok := AddPacketAwaitingResponse(p);
      }
      FreePacket(p);
      SentOne(p.View());
    }

    lemma NothingSent()
      ensures Did(Out(View(), []), wire, links)
    {
      OnWireNone(wire, links);
    }

    lemma SentOne(p: Packet)
      requires Packable(p)
      ensures AllPackable([p])
    {
    }

    /** A new packet from this node to the hub, under the next key, with `n` payload bytes. */
    method NewPacket(t: uint8, n: uint8) returns (p: MeshDataPacket)
      requires Valid()
      modifies `idempotencyKeyCounter, heap
      ensures Valid() && fresh(p) && fresh(p.data) && Apart(p) && heap.Live(p)
      ensures p.dataLength == p.data.Length == n
      ensures p.View() == ToHub(old(View()), t, seq(n, _ => 0)) && View() == KeyTaken(Allocated(old(View())))
    {
      hide Valid, Waiting, Marked;
      p := AllocPacket(n);
      Shape();
      var key := NextIdempotencyKey();
      Address(p, t, key, n);
    }

    /** The fields of a packet to the hub whose payload is `n` zeroed bytes. */
    method Address(p: MeshDataPacket, t: uint8, key: uint8, n: uint8)
      requires p.data.Length == n && p.data[..] == seq(n, _ => 0)
      modifies p
      ensures p.data == old(p.data) && p.Valid() && p.dataLength == n
      ensures p.View() == Packet(ourNodeId, HUB_NODE_ID, STD_TTL, key, t, seq(n, _ => 0))
    {
      p.ptype, p.source, p.dest, p.ttl, p.key, p.dataLength := t, ourNodeId, HUB_NODE_ID, STD_TTL, key, n;
    }

    method SendEmptyPacket(t: uint8)
      requires Valid()
      modifies `idempotencyKeyCounter, `wire, `pars, `awaiting, `Repr, `timerActive, heap
      ensures Valid() && fresh(Repr - old(Repr)) && Did(SendEmpty(old(View()), t), old(wire), links)
    {
      hide Waiting, OnWire;
      var p := NewPacket(t, 1);
      p.SetPayload([0]);
      SendPacket(p, false);
    }

    /** mesh_node_connection_available: the node asks for an id once per boot. */
    method ConnectionAvailable()
      requires Valid()
      modifies `provisioningRequested, `idempotencyKeyCounter, `wire, `pars, `awaiting, `Repr, `timerActive, heap
      ensures Valid() && fresh(Repr - old(Repr)) && Did(NodeSpec.ConnectionAvailable(old(View())), old(wire), links)
    {
      hide Valid, Waiting, OnWire, Marked, Send;
      Shape();
      if provisioningRequested {
        OnWireNone(wire, links);
      } else {
        provisioningRequested := true;
        var p := NewPacket(PT_NODE_CONNECTED, ADDRESS_SIZE);
        p.SetPayload(nodeAddr);
        SendPacket(p, true);
      }
    }

    /** A fresh key is written into the i-th waiting packet and it is sent. */
    method ResendAt(i: nat)
      requires Valid() && i < |pars|
      modifies `idempotencyKeyCounter, `wire, `awaiting, Repr
      ensures Valid() && Repr == old(Repr) && heap.allocatedPackets == old(heap.allocatedPackets)
      ensures awaiting == old(awaiting)[i := old(awaiting)[i].(key := old(idempotencyKeyCounter))]
      ensures idempotencyKeyCounter == (old(idempotencyKeyCounter) + 1) % 0x100
      ensures wire == old(wire) + OnWire(links, [awaiting[i]])
    {
      hide Waiting, OnWire, Marked;
      var next := NextIdempotencyKey();
      var p := Rekey(i, next);
      ForwardToPeers(p);
    }

    /** The key is overwritten where the packet lies. */
    method Rekey(i: nat, key: uint8) returns (p: MeshDataPacket)
      requires Valid() && i < |pars|
      modifies `awaiting, Repr
      ensures Valid() && awaiting == old(awaiting)[i := old(awaiting)[i].(key := key)]
      ensures p == pars[i] && p.Valid() && p.View() == awaiting[i] && Packable(awaiting[i])
    {
      assert awaiting[i] in awaiting;
      p := pars[i];
      p.key := key;
      awaiting := awaiting[i := p.View()];
    }

    /** The loop over the waiting packets: each gets a fresh key and is sent again. */
    method ResendAll()
      requires Valid()
      modifies `idempotencyKeyCounter, `wire, `awaiting, Repr
      ensures Valid() && Repr == old(Repr) && awaiting == Rekeyed(old(awaiting), old(idempotencyKeyCounter))
      ensures idempotencyKeyCounter == (old(idempotencyKeyCounter) + |pars|) % 0x100
      ensures wire == old(wire) + OnWire(links, awaiting)
      ensures heap.allocatedPackets == old(heap.allocatedPackets)
    {
      hide OnWire, Rekeyed, Waiting;
      var i := 0;
      ghost var was, first, air := awaiting, idempotencyKeyCounter, wire;
      ghost var again := Rekeyed(was, first);
      RekeyedAll(was, first);
      OnWireNone(wire, links);
      assert again[..0] == [];
      while i < |pars|
        invariant 0 <= i <= |pars| == |was| && Valid() && Repr == old(Repr)
        invariant forall j :: 0 <= j < |was| ==> awaiting[j] == if j < i then again[j] else was[j]
        invariant idempotencyKeyCounter == (first + i) % 0x100
        invariant wire == air + OnWire(links, again[..i])
        invariant heap.allocatedPackets == old(heap.allocatedPackets)
      {
        ResendAt(i);
        NextKeys(first, i + 1);
        OnWireNext(links, again, i);
        i := i + 1;
      }
      assert again[..i] == again == awaiting;
    }

    /** mesh_node_resend_packets_if_needed; with nothing left to send the timer is stopped. */
    method ResendPacketsIfNeeded()
      requires Valid()
      modifies `resendPackets, `idempotencyKeyCounter, `wire, `timerActive, `awaiting, Repr
      ensures Valid() && Repr == old(Repr) && Did(ResendIfNeeded(old(View())), old(wire), links)
    {
      hide Valid, Waiting, OnWire, Rekeyed, Marked;
      Shape();
      if !resendPackets {
        OnWireNone(wire, links);
      } else {
        resendPackets := false;
        ResendAll();
        Shape();
        if |pars| == 0 {
          timerActive := false;
        }
      }
    }

    // ---- Handlers -----------------------------------------------------------------------------------------------

    /** meshsnsr_proc_data_request. */
    method ProcDataRequest(p: MeshDataPacket, env: Env)
      requires Valid() && Apart(p)
      modifies `idempotencyKeyCounter, `wire, `pars, `awaiting, `Repr, `timerActive, heap
      ensures Valid() && fresh(Repr - old(Repr)) && Did(HandleDataRequest(old(View()), p.View(), env), old(wire), links)
    {
      hide Valid, Waiting, OnWire, Marked, Send, RequestOf, KeyTaken, Allocated;
      OnWireNone(wire, links);
      var reply := NewPacket(0, 4);
      var known, quantity := SetReplyType(reply, p.ptype);
      if !known {
        return;
      }
      reply.SetPayload(Reading(env.readings, quantity));
      SendPacket(reply, false);
    }

    /** The switch over the type of a data request. */
    method SetReplyType(reply: MeshDataPacket, t: uint8) returns (known: bool, quantity: Quantity)
      requires reply.Valid()
      modifies reply`ptype
      ensures reply.Valid() && known == RequestOf(t).Some?
      ensures known ==> reply.View() == old(reply.View()).(ptype := RequestOf(t).value.1)
      ensures known ==> quantity == RequestOf(t).value.0
    {
      match t {
        case 16 => quantity, reply.ptype := MoistureVoltage, 17;
        case 14 => quantity, reply.ptype := MoisturePct, 15;
        case 10 => quantity, reply.ptype := BatteryPct, 11;
        case 12 => quantity, reply.ptype := BatteryVoltage, 13;
        case _ => return false, BatteryPct;
      }
      known := true;
    }

    /** meshsnsr_proc_config_update: acknowledged whether or not the value could be stored. */
    method ProcConfigUpdate(p: MeshDataPacket, env: Env)
      requires Valid() && Apart(p)
      modifies `power, `sleepSeconds, `nvs, `idempotencyKeyCounter, `wire, `pars, `awaiting, `Repr, `timerActive, heap
      ensures Valid() && fresh(Repr - old(Repr))
      ensures Did(HandleConfigUpdate(old(View()), p.View(), env), old(wire), links)
    {
      hide Valid, Waiting, Did, FromBytes, Marked, SendEmpty;
      Shape();
      if p.dataLength != 4 {
        power := Crashed;
        NothingSent();
        return;
      }
      var newValue := FromBytes(p.data[..4]);
      var storeKey: Setting;
      var ack: uint8;
      match p.ptype {
        case 34 => storeKey, ack := BatteryHv, 35;
        case 36 => storeKey, ack := BatteryLv, 37;
        case 30 => storeKey, ack := SensorHv, 31;
        case 32 => storeKey, ack := SensorLv, 33;
        case 38 =>
          storeKey, ack := SleepDuration, 39;
          sleepSeconds := newValue;
        case _ =>
          NothingSent();
          return;
      }
      if !env.opens {
        NothingSent();
        return;
      }
      if env.sets {
        nvs := nvs.(settings := nvs.settings[storeKey := newValue]);
      }
      SendEmptyPacket(ack);
    }

    /** meshsnsr_proc_ota_update_available. */
    method ProcOtaUpdateAvailable(p: MeshDataPacket, env: Env)
      requires Valid() && Apart(p)
      modifies `power, `otaAvailable, `nvs, `idempotencyKeyCounter, `wire, `pars, `awaiting, `Repr, `timerActive, heap
      ensures Valid() && fresh(Repr - old(Repr))
      ensures Did(HandleOtaUpdateAvailable(old(View()), p.View(), env), old(wire), links)
    {
      hide Valid, Waiting, Did, FromBytes, Marked, OfferAnswered;
      Shape();
      if p.dataLength != 4 {
        power := Crashed;
        NothingSent();
        return;
      }
      AnswerOffer(FromBytes(p.data[..4]), env);
    }

    method AnswerOffer(version: uint32, env: Env)
      requires Valid()
      modifies `otaAvailable, `nvs, `idempotencyKeyCounter, `wire, `pars, `awaiting, `Repr, `timerActive, heap
      ensures Valid() && fresh(Repr - old(Repr)) && Did(OfferAnswered(old(View()), version, env), old(wire), links)
    {
      hide Valid, Waiting, Did, Marked, Send, OfferStored, KeyTaken, Allocated;
      var reply := NewPacket(PT_OTA_UPDATE_AVAILABLE_RESP, 4);
      Shape();
      if version > FIRMWARE_VERSION {
        if !env.opens {
          NothingSent();
          return;
        }
        StoreOffer(env);
        reply.SetPayload([0, 0, 0, 0]);
      } else {
        reply.SetPayload([FIRMWARE_VERSION, 0, 0, 0]);
      }
      SendPacket(reply, false);
    }

    /** The request to install and the address to fetch with, as far as the store takes them. */
    method StoreOffer(env: Env)
      modifies `nvs, `otaAvailable
      ensures View() == OfferStored(old(View()), env)
    {
      hide Marked;
      if env.sets {
        nvs := nvs.(bootState := Some(BOOT_INSTALL_OTA_UPDATE));
      }
      if env.setsAddress {
        nvs := nvs.(nodeAddress := Some(nodeAddr));
      }
      otaAvailable := true;
    }

    /** A copy of `p` goes out and is freed. */
    method SendCopy(p: MeshDataPacket)
      requires Valid() && Apart(p) && Packable(p.View())
      modifies `wire, `pars, `awaiting, `Repr, `timerActive, heap
      ensures Valid() && fresh(Repr - old(Repr)) && Did(Out(old(View()), [p.View()]), old(wire), links)
      ensures Apart(p)
    {
      hide Waiting, OnWire;
      var copy := heap.Copy(p);
      SendPacket(copy, false);
    }

    /** meshsnsr_proc_go_to_sleep: two copies go out, then all connections are closed. */
    method ProcGoToSleep(p: MeshDataPacket)
      requires Valid() && Apart(p)
      modifies `power, `links, `wire, `pars, `awaiting, `Repr, `timerActive, heap
      ensures Valid() && fresh(Repr - old(Repr))
      ensures Did(HandleGoToSleep(old(View()), p.View()), old(wire), old(links)) && power != Awake
      ensures power != Crashed ==> links == []
    {
      hide Waiting, OnWire;
      if p.dataLength > MAX_DATA {
        power := Crashed;  // the check in mdp_pack
        OnWireNone(wire, links);
        return;
      }
      SendCopy(p);
      ghost var once := wire;
      SendCopy(p);
      WireJoins(old(wire), once, wire, links, [p.View()], [p.View()]);
      assert [p.View()] + [p.View()] == [p.View(), p.View()];
      links := [];
      power := if otaAvailable then Restarting else DeepSleep;
    }

    /** meshsnsr_proc_node_connected_resp with mesh_node_packet_response_received. */
    method ProcNodeConnectedResp(p: MeshDataPacket)
      requires Valid() && Apart(p) && p.ptype == PT_NODE_CONNECTED_RESP && p.dataLength > ADDRESS_SIZE
      modifies `ourNodeId, `pars, `awaiting, `Repr, heap
      ensures Valid() && Repr <= old(Repr) && Did(HandleNodeConnectedResp(old(View()), p.View()), old(wire), links)
    {
      hide Waiting;
      ourNodeId := p.data[ADDRESS_SIZE];
      if p.ptype == PT_NODE_CONNECTED_RESP {
        RemovePacketAwaitingResponse(PT_NODE_CONNECTED);
      }
    }

    // ---- Receiving ----------------------------------------------------------------------------------------------

    /** mn_packet_next_step. */
    method PacketNextStep(p: MeshDataPacket) returns (d: Decision)
      requires Valid() && p.Valid() && !ReadsPast(View(), p.View())
      ensures d == NextStep(View(), p.View())
    {
      hide Waiting;
      if p.dest == ourNodeId {
        if p.ptype == PT_NODE_CONNECTED_RESP {
          d := if p.data[..ADDRESS_SIZE] == nodeAddr then Process else Forward;
          assert p.data[..ADDRESS_SIZE] == p.View().data[..ADDRESS_SIZE];
        } else if processedPackets[p.key] {
          d := Terminate;
        } else {
          d := Process;
        }
      } else if p.ptype == PT_GO_TO_SLEEP {
        d := Process;
      } else if p.ttl == 0 {
        d := Terminate;
      } else {
        d := Forward;
      }
    }

    method MarkProcessed(k: uint8)
      requires Valid()
      modifies processedPackets
      ensures Marked() == old(Marked()) + {k as int}
    {
      hide Waiting;
      processedPackets[k] := true;
    }

    /** mn_process_packet; the table is read past its end for a type it does not have. */
    method ProcessPacket(p: MeshDataPacket, env: Env)
      requires Valid() && Registered() && Apart(p)
      requires p.ptype == PT_NODE_CONNECTED_RESP ==> p.dataLength > ADDRESS_SIZE
      modifies this, processedPackets, heap
      ensures Valid() && fresh(Repr - old(Repr)) && (power == Awake ==> links == old(links))
      ensures Did(Processed(old(View()), p.View(), env), old(wire), old(links))
    {
      hide Valid, Waiting, Did, Marked, HandleDataRequest, HandleConfigUpdate, HandleOtaUpdateAvailable,
           HandleGoToSleep, HandleNodeConnectedResp;
      Shape();
      MarkProcessed(p.key);
      if p.ptype >= NUM_PACKET_TYPES {
        power := Crashed;
        NothingSent();
        return;
      }
      match packetHandlers[p.ptype] {
        case None => NothingSent();
        case Some(DataRequest) => ProcDataRequest(p, env);
        case Some(NodeConnectedResp) => ProcNodeConnectedResp(p);
        case Some(ConfigUpdate) => ProcConfigUpdate(p, env);
        case Some(OtaUpdateAvailable) => ProcOtaUpdateAvailable(p, env);
        case Some(GoToSleep) => ProcGoToSleep(p);
      }
    }

    /** The address of a response, or the id behind it, is read where the payload has ended. */
    method RunsPastPayload(p: MeshDataPacket) returns (b: bool)
      requires Valid() && p.Valid()
      ensures b == ReadsPast(View(), p.View())
    {
      hide Waiting;
      b := false;
      if p.dest == ourNodeId && p.ptype == PT_NODE_CONNECTED_RESP {
        b := p.dataLength < ADDRESS_SIZE || (p.dataLength == ADDRESS_SIZE && p.data[..ADDRESS_SIZE] == nodeAddr);
      }
    }

    /** The decision and its execution; a forwarded packet has its ttl lowered in place. */
    method HandlePacket(p: MeshDataPacket, env: Env)
      requires Valid() && Registered() && Apart(p)
      modifies this, processedPackets, heap, p`ttl
      ensures Valid() && fresh(Repr - old(Repr)) && (power == Awake ==> links == old(links))
      ensures Did(Handled(old(View()), old(p.View()), env), old(wire), old(links))
    {
      hide Valid, Waiting, Did, Marked, Processed, NextStep, ReadsPast;
      Shape();
      var past := RunsPastPayload(p);
      if past {
        power := Crashed;
        NothingSent();
        return;
      }
      ProcessedCarriesId(View(), p.View());
      var d := PacketNextStep(p);
      match d {
        case Forward =>
          p.ttl := Decremented(p.ttl);
          PassOn(p);
        case Process => ProcessPacket(p, env);
        case Terminate => NothingSent();
      }
    }

    /** mdp_pack fails its check for a payload that does not fit the buffer. */
    method PassOn(p: MeshDataPacket)
      requires Valid() && p.Valid()
      modifies `power, `wire
      ensures Valid() && Did(if Packable(p.View()) then Out(old(View()), [p.View()])
                             else Out(old(View()).(power := Crashed), []), old(wire), links)
    {
      hide Valid, Waiting, OnWire, Marked;
      Shape();
      if p.dataLength > MAX_DATA {
        power := Crashed;
        OnWireNone(wire, links);
      } else {
        ForwardToPeers(p);
      }
    }

    /** A packet and, if the node stays awake, the pending resends. */
    method ReceivePacket(p: MeshDataPacket, env: Env)
      requires Valid() && Registered() && Apart(p) && power == Awake
      modifies this, processedPackets, heap, p`ttl, Repr
      ensures Valid() && fresh(Repr - old(Repr))
      ensures Did(Received(old(View()), old(p.View()), env), old(wire), old(links))
    {
      hide Waiting, OnWire, Handled;
      ghost var o := Handled(View(), p.View(), env);
      HandlePacket(p, env);
      if power == Awake {
        ghost var handled := wire;
        ResendPacketsIfNeeded();
        WireJoins(old(wire), handled, wire, links, o.sent, ResendIfNeeded(o.st).sent);
      }
    }

    /** mn_receive_data for a write of the bytes `om`; `beyond` is what lies behind its buffer. */
    method ReceiveData(om: seq<uint8>, beyond: Beyond, env: Env) returns (rc: int)
      requires Valid() && Registered() && power == Awake
      modifies this, processedPackets, heap, Repr
      ensures Valid() && fresh(Repr - old(Repr)) && rc == if 7 <= |om| <= 21 then 0 else ERR_VALUE_LEN
      ensures if rc != 0 then Did(Out(old(View()), []), old(wire), old(links))
              else Did(Received(old(View()), Parsed(Padded(om) + beyond), env), old(wire), old(links))
    {
      if |om| < MIN_SIZE || |om| > MAX_SIZE {
        return ERR_VALUE_LEN;
      }
      hide Received, Waiting;
      var buf := Flatten(om);
      var p := new MeshDataPacket(0);
      Unpack(buf, beyond, p);
      ReceivePacket(p, env);
      rc := 0;
    }

    // ---- Timers -------------------------------------------------------------------------------------------------

    /** The resend timer fires: mn_set_resend_flag. */
    method SetResendFlag()
      requires Valid() && power == Awake
      modifies `resendPackets
      ensures Valid() && Did(Step(old(View()), Tick), old(wire), links)
    {
      hide Waiting;
      resendPackets := true;
    }

    /** forced_sleep: awake for too long. */
    method ForcedSleepTimer()
      requires Valid() && power == Awake
      modifies `power
      ensures Valid() && Did(Step(old(View()), ForcedSleep), old(wire), links)
    {
      hide Waiting;
      power := DeepSleep;
    }
  }
}
