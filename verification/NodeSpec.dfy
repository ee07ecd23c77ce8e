/** One sensor node as a value: the static variables of main/mesh_node.c and main/mesh_main.c, the persisted
    state, and one function per event. SensorNode.dfy holds the code that updates these variables in place. */
module NodeSpec {
  import opened Types
  import opened DataPacket

  const HUB_NODE_ID: uint8 := 0
  const PROVISIONAL_NODE_ID: uint8 := 1
  const ADDRESS_SIZE: nat := 6
  const STD_TTL: uint8 := 5
  const MAX_AWAITING: nat := 2
  const FIRMWARE_VERSION: uint32 := 2
  const NUM_PACKET_TYPES: uint8 := 40

  const PT_NODE_CONNECTED: uint8 := 1
  const PT_NODE_CONNECTED_RESP: uint8 := 2
  const PT_OTA_UPDATE_AVAILABLE: uint8 := 3
  const PT_OTA_UPDATE_AVAILABLE_RESP: uint8 := 4
  const PT_GO_TO_SLEEP: uint8 := 5

  const BOOT_READ_AND_REPORT: uint8 := 1
  const BOOT_INSTALL_OTA_UPDATE: uint8 := 2
  const BOOT_VERIFY_OTA_UPDATE: uint8 := 3

  datatype Power = Awake | DeepSleep | Restarting | Crashed

  datatype Setting = BatteryHv | BatteryLv | SensorHv | SensorLv | SleepDuration

  /** The persisted key-value store, restricted to the keys the firmware uses. */
  datatype Nvs = Nvs(bootState: Option<uint8>, nodeAddress: Option<seq<uint8>>, settings: map<Setting, uint32>)

  /** The counters behind every send: the next idempotency key and allocated_packets. */
  datatype Counters = Counters(key: uint8, live: int)

  /** The remaining static variables of mesh_node.c; `processed` holds the marked keys. */
  datatype Link = Link(id: uint8, processed: set<int>, provisioning: bool, resend: bool, timer: bool,
                       awaiting: seq<Packet>)

  /** The static variables of mesh_main.c and its settings. */
  datatype App = App(bootState: uint8, voltages: map<Setting, uint32>, sleepSeconds: uint64, otaAvailable: bool,
                     markedValid: bool)

  datatype State = State(addr: seq<uint8>, power: Power, link: Link, counters: Counters, app: App, nvs: Nvs)

  /** The state after an event and the packets it handed to every connected peer, in order. */
  datatype Out = Out(st: State, sent: seq<Packet>)

  /** What a node can be asked to measure. */
  datatype Quantity = BatteryPct | BatteryVoltage | MoisturePct | MoistureVoltage

  /** What the environment answers while a packet is handled: the bytes of each reading and the outcome of the store
      calls. */
  datatype Env = Env(readings: Readings, opens: bool, sets: bool, setsAddress: bool)

  datatype Readings = Readings(batteryPct: Word, batteryVoltage: Word, moisturePct: Word, moistureVoltage: Word)

  /** The outcome of nvs_flash_init: the store is usable, or must be erased and initialised again, or neither. */
  datatype Flash = Usable | NeedsErase(erased: bool, usable: bool) | Unusable

  /** What the environment answers during a boot. */
  datatype BootEnv = BootEnv(flash: Flash, opens: bool, wifi: bool, taskOpens: bool, downloads: bool, taskReopens: bool,
                             taskSets: bool, verifyOpens: bool, verifySets: bool)

  datatype Decision = Forward | Process | Terminate

  datatype Handler = DataRequest | NodeConnectedResp | ConfigUpdate | OtaUpdateAvailable | GoToSleep

  /** The packet carries the node's address. */
  predicate CarriesAddress(p: Packet, addr: seq<uint8>) {
    |p.data| >= ADDRESS_SIZE && p.data[..ADDRESS_SIZE] == addr
  }

  /** A response whose address, or the id behind it, is read although its payload ends before. */
  predicate ReadsPast(s: State, p: Packet) {
    && p.ptype == PT_NODE_CONNECTED_RESP && p.dest == s.link.id
    && (|p.data| < ADDRESS_SIZE || (|p.data| == ADDRESS_SIZE && CarriesAddress(p, s.addr)))
  }

  /** A response for this node. */
  predicate TakesResponse(s: State, p: Packet) {
    && p.ptype == PT_NODE_CONNECTED_RESP && p.dest == s.link.id
    && |p.data| > ADDRESS_SIZE && CarriesAddress(p, s.addr)
  }

  /** The handlers meshsnsr_on_sync registers. */
  function HandlerOf(t: uint8): (h: Option<Handler>) {
    if t in {10, 12, 14, 16} then Some(DataRequest)
    else if t == PT_NODE_CONNECTED_RESP then Some(NodeConnectedResp)
    else if t in {30, 32, 34, 36, 38} then Some(ConfigUpdate)
    else if t == PT_OTA_UPDATE_AVAILABLE then Some(OtaUpdateAvailable)
    else if t == PT_GO_TO_SLEEP then Some(GoToSleep)
    else None
  }

  function Reading(r: Readings, q: Quantity): Word {
    match q
    case BatteryPct => r.batteryPct
    case BatteryVoltage => r.batteryVoltage
    case MoisturePct => r.moisturePct
    case MoistureVoltage => r.moistureVoltage
  }

  /** What a data request asks for and the type of the reply. */
  function RequestOf(t: uint8): Option<(Quantity, uint8)> {
    match t
    case 16 => Some((MoistureVoltage, 17))
    case 14 => Some((MoisturePct, 15))
    case 10 => Some((BatteryPct, 11))
    case 12 => Some((BatteryVoltage, 13))
    case _ => None
  }

  /** The setting a configuration packet carries and the type of its acknowledgement. */
  function SettingOf(t: uint8): Option<(Setting, uint8)> {
    match t
    case 34 => Some((BatteryHv, 35))
    case 36 => Some((BatteryLv, 37))
    case 30 => Some((SensorHv, 31))
    case 32 => Some((SensorLv, 33))
    case 38 => Some((SleepDuration, 39))
    case _ => None
  }

  function Default(k: Setting): uint32 {
    match k
    case BatteryHv => 2100
    case BatteryLv => 1450
    case SensorHv => 2707
    case SensorLv => 1344
    case SleepDuration => 60
  }

  // ---- Sending --------------------------------------------------------------------------------------------------

  function KeyTaken(s: State): State {
    s.(counters := s.counters.(key := (s.counters.key + 1) % 0x100))
  }

  function Allocated(s: State): State {
    s.(counters := s.counters.(live := s.counters.live + 1))
  }

  function Freed(s: State): State {
    s.(counters := s.counters.(live := s.counters.live - 1))
  }

  /** mn_add_packet_awaiting_response: a copy goes to the head of the list while the pool has a free block. */
  function AddAwaiting(s: State, p: Packet): State {
    if |s.link.awaiting| >= MAX_AWAITING then s
    else Allocated(s).(link := s.link.(awaiting := [p] + s.link.awaiting, timer := true))
  }

  /** mesh_node_send_packet, which also frees the packet it was given. */
  function Send(s: State, p: Packet, await: bool): Out {
    Out(Freed(if await then AddAwaiting(s, p) else s), [p])
  }

  function ToHub(s: State, t: uint8, data: seq<uint8>): Packet {
    Packet(s.link.id, HUB_NODE_ID, STD_TTL, s.counters.key, t, data)
  }

  function SendEmpty(s: State, t: uint8): Out {
    Send(KeyTaken(Allocated(s)), ToHub(s, t, [0]), false)
  }

  /** Fresh keys for the packets that are sent again, taken in list order. */
  function Rekeyed(ps: seq<Packet>, counter: uint8): (r: seq<Packet>)
    ensures |r| == |ps|
  {
    if ps == [] then [] else [ps[0].(key := counter)] + Rekeyed(ps[1..], (counter + 1) % 0x100)
  }

  /** mesh_node_resend_packets_if_needed. */
  function ResendIfNeeded(s: State): Out {
    if !s.link.resend then Out(s, [])
    else
      var again := Rekeyed(s.link.awaiting, s.counters.key);
      Out(s.(link := s.link.(resend := false, awaiting := again, timer := s.link.timer && again != []),
             counters := s.counters.(key := (s.counters.key + |again|) % 0x100)),
          again)
  }

  function ConnectionAvailable(s: State): Out {
    if s.link.provisioning then Out(s, [])
    else Send(KeyTaken(Allocated(s.(link := s.link.(provisioning := true)))), ToHub(s, PT_NODE_CONNECTED, s.addr), true)
  }

  // ---- Handlers -------------------------------------------------------------------------------------------------

  function HandleDataRequest(s: State, p: Packet, env: Env): Out {
    match RequestOf(p.ptype)
    case None => Out(KeyTaken(Allocated(s)), [])
    case Some((q, t)) => Send(KeyTaken(Allocated(s)), ToHub(s, t, Reading(env.readings, q)), false)
  }

  function HandleConfigUpdate(s: State, p: Packet, env: Env): Out {
    if |p.data| != 4 then Out(s.(power := Crashed), [])
    else
      match SettingOf(p.ptype)
      case None => Out(s, [])
      case Some((k, ack)) =>
        var v := FromBytes(p.data);
        var s1 := if k == SleepDuration then s.(app := s.app.(sleepSeconds := v)) else s;
        if !env.opens then Out(s1, [])
        else SendEmpty(if env.sets then s1.(nvs := s1.nvs.(settings := s1.nvs.settings[k := v])) else s1, ack)
  }

  /** Store the request to install, and the address the update is fetched with. */
  function OfferStored(s: State, env: Env): State {
    var n1 := if env.sets then s.nvs.(bootState := Some(BOOT_INSTALL_OTA_UPDATE)) else s.nvs;
    s.(nvs := if env.setsAddress then n1.(nodeAddress := Some(s.addr)) else n1,
       app := s.app.(otaAvailable := true))
  }

  /** The reply to an offer of a firmware version. */
  function OfferAnswered(s: State, version: uint32, env: Env): Out {
    var s1 := KeyTaken(Allocated(s));
    if version > FIRMWARE_VERSION then
      if !env.opens then Out(s1, [])
      else Send(OfferStored(s1, env), ToHub(s, PT_OTA_UPDATE_AVAILABLE_RESP, [0, 0, 0, 0]), false)
    else Send(s1, ToHub(s, PT_OTA_UPDATE_AVAILABLE_RESP, [FIRMWARE_VERSION, 0, 0, 0]), false)
  }

  function HandleOtaUpdateAvailable(s: State, p: Packet, env: Env): Out {
    if |p.data| != 4 then Out(s.(power := Crashed), []) else OfferAnswered(s, FromBytes(p.data), env)
  }

  /** Both copies are allocated, sent and freed; then the node leaves the network. mdp_pack fails its check for a
      payload that does not fit. */
  function HandleGoToSleep(s: State, p: Packet): Out {
    if !Packable(p) then Out(s.(power := Crashed), [])
    else Out(s.(power := if s.app.otaAvailable then Restarting else DeepSleep), [p, p])
  }

  function IndexOfType(ps: seq<Packet>, t: uint8): (i: nat)
    ensures i <= |ps| && (i < |ps| ==> ps[i].ptype == t) && forall j :: 0 <= j < i ==> ps[j].ptype != t
  {
    if ps == [] || ps[0].ptype == t then 0 else 1 + IndexOfType(ps[1..], t)
  }

  function RemoveAwaiting(s: State, t: uint8): State {
    var i := IndexOfType(s.link.awaiting, t);
    if i == |s.link.awaiting| then s
    else Freed(s.(link := s.link.(awaiting := s.link.awaiting[..i] + s.link.awaiting[i + 1..])))
  }

  function HandleNodeConnectedResp(s: State, p: Packet): Out
    requires |p.data| > ADDRESS_SIZE
  {
    Out(RemoveAwaiting(s.(link := s.link.(id := p.data[ADDRESS_SIZE])), PT_NODE_CONNECTED), [])
  }

  /** mn_process_packet. For a type beyond the handler table the code reads past it; that is taken to end the node. */
  function Processed(s: State, p: Packet, env: Env): Out
    requires p.ptype == PT_NODE_CONNECTED_RESP ==> |p.data| > ADDRESS_SIZE
  {
    var s1 := s.(link := s.link.(processed := s.link.processed + {p.key as int}));
    match HandlerOf(p.ptype)
    case None => Out(if p.ptype < NUM_PACKET_TYPES then s1 else s1.(power := Crashed), [])
    case Some(DataRequest) => HandleDataRequest(s1, p, env)
    case Some(NodeConnectedResp) => HandleNodeConnectedResp(s1, p)
    case Some(ConfigUpdate) => HandleConfigUpdate(s1, p, env)
    case Some(OtaUpdateAvailable) => HandleOtaUpdateAvailable(s1, p, env)
    case Some(GoToSleep) => HandleGoToSleep(s1, p)
  }

  /** mn_packet_next_step. */
  function NextStep(s: State, p: Packet): Decision
    requires !ReadsPast(s, p)
  {
    if p.dest == s.link.id then
      if p.ptype == PT_NODE_CONNECTED_RESP then
        if p.data[..ADDRESS_SIZE] == s.addr then Process else Forward
      else if p.key in s.link.processed then Terminate
      else Process
    else if p.ptype == PT_GO_TO_SLEEP then Process
    else if p.ttl == 0 then Terminate
    else Forward
  }

  /** The packet is processed here. */
  predicate Processes(s: State, p: Packet) {
    !ReadsPast(s, p) && NextStep(s, p) == Process
  }

  /** The packet is to be passed on. */
  predicate PassedOn(s: State, p: Packet) {
    !ReadsPast(s, p) && NextStep(s, p) == Forward
  }

  /** The decision and what it does, before the pending resends. Reading an address past the payload is taken to end the
      node; passing on a payload that does not fit the buffer fails the check in mdp_pack. */
  function Handled(s: State, p: Packet, env: Env): Out {
    if ReadsPast(s, p) then Out(s.(power := Crashed), [])
    else
      match NextStep(s, p)
      case Forward => if Packable(p) then Out(s, [p.(ttl := Decremented(p.ttl))]) else Out(s.(power := Crashed), [])
      case Process => Processed(s, p, env)
      case Terminate => Out(s, [])
  }

  /** mn_receive_data: deep sleep, restart and failed assertions do not return to the resend check. */
  function Received(s: State, p: Packet, env: Env): Out {
    if s.power != Awake then Out(s, [])
    else
      var o := Handled(s, p, env);
      if o.st.power != Awake then o
      else
        var r := ResendIfNeeded(o.st);
        Out(r.st, o.sent + r.sent)
  }

  // ---- Boot -----------------------------------------------------------------------------------------------------

  function Loaded(nvs: Nvs, opens: bool, k: Setting): (v: uint32) {
    if opens && k in nvs.settings then nvs.settings[k] else Default(k)
  }

  /** memcpy of four bytes into the low half of a 64-bit variable. */
  function LowHalfSet(old64: uint64, v: uint32): uint64 {
    old64 / 0x1_0000_0000 * 0x1_0000_0000 + v
  }

  const VOLTAGES: set<Setting> := {BatteryHv, BatteryLv, SensorHv, SensorLv}

  /** The static initialisers followed by read_stored_state. */
  function Loading(addr: seq<uint8>, nvs: Nvs, opens: bool): State {
    State(addr, Awake, Link(PROVISIONAL_NODE_ID, {}, false, false, false, []), Counters(0, 0),
          App(if opens && nvs.bootState.Some? then nvs.bootState.value else 0,
              map k | k in VOLTAGES :: Loaded(nvs, opens, k),
              if opens && SleepDuration in nvs.settings
              then LowHalfSet(Default(SleepDuration), nvs.settings[SleepDuration])
              else Default(SleepDuration),
              false, false),
          nvs)
  }

  /** install_ota_update and ota_update_task; every path ends in a restart or a failed check. */
  function InstallOtaUpdate(s: State, be: BootEnv): State {
    if !be.wifi || !be.taskOpens || s.nvs.nodeAddress.None? then s.(power := Crashed)
    else if !be.downloads then s.(power := Restarting)
    else if !be.taskReopens || !be.taskSets then s.(power := Crashed)
    else s.(power := Restarting, nvs := s.nvs.(bootState := Some(BOOT_VERIFY_OTA_UPDATE)))
  }

  function VerifyOtaUpdate(s: State, be: BootEnv): State {
    var s1 := s.(app := s.app.(markedValid := true));
    if be.verifyOpens && be.verifySets then s1.(nvs := s1.nvs.(bootState := Some(BOOT_READ_AND_REPORT))) else s1
  }

  const EMPTY_STORE: Nvs := Nvs(None, None, map[])

  predicate Erases(be: BootEnv) {
    be.flash.NeedsErase? && be.flash.erased
  }

  /** app_main goes on after nvs_flash_init. */
  predicate FlashUsable(be: BootEnv) {
    be.flash.Usable? || (Erases(be) && be.flash.usable)
  }

  /** app_main: a store of an old format or without free pages is erased first. */
  function Booted(addr: seq<uint8>, nvs: Nvs, be: BootEnv): State {
    var stored := if Erases(be) then EMPTY_STORE else nvs;
    var s := Loading(addr, stored, FlashUsable(be) && be.opens);
    if !FlashUsable(be) then s.(power := Crashed)
    else if s.app.bootState == BOOT_INSTALL_OTA_UPDATE then InstallOtaUpdate(s, be)
    else if s.app.bootState == BOOT_VERIFY_OTA_UPDATE then VerifyOtaUpdate(s, be)
    else s
  }

  // ---- Events ---------------------------------------------------------------------------------------------------

  datatype Event =
    | Receive(p: Packet, env: Env)
    | Tick          // the resend timer fires
    | Poll          // advertising or scanning ends
    | Connected     // discovery of a peer completed
    | ForcedSleep   // the node was awake too long
    | Reboot(be: BootEnv)

  function Step(s: State, e: Event): Out {
    match e
    case Reboot(be) => Out(Booted(s.addr, s.nvs, be), [])
    case Receive(p, env) => Received(s, p, env)
    case _ =>
      if s.power != Awake then Out(s, [])
      else
        match e
        case Tick => Out(s.(link := s.link.(resend := true)), [])
        case Poll => ResendIfNeeded(s)
        case Connected => ConnectionAvailable(s)
        case ForcedSleep => Out(s.(power := DeepSleep), [])
  }

  /** The state after a sequence of events. */
  function After(s: State, es: seq<Event>): State {
    if es == [] then s
    else Step(After(s, es[..|es| - 1]), es[|es| - 1]).st
  }
}
