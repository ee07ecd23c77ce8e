/** The persisted boot state and settings across sleeps, restarts and failed downloads. */
module BootProps {
  import opened Types
  import opened DataPacket
  import opened NodeSpec
  import opened NodeProps

  // ---- Firmware updates -----------------------------------------------------------------------------------------

  predicate InstallStored(nvs: Nvs) {
    nvs.bootState == Some(BOOT_INSTALL_OTA_UPDATE)
  }

  /** The node handles an offer of a firmware newer than its own. */
  predicate NewerOffer(s: State, e: Event) {
    HandlesOwn(s, e) && e.p.ptype == 3 && |e.p.data| == 4 && FromBytes(e.p.data) > 2
  }

  /** A boot that loads the request, downloads the image and records that it is to be verified. */
  predicate InstallSucceeds(s: State, e: Event) {
    && e.Reboot? && InstallStored(s.nvs) && s.nvs.nodeAddress.Some?
    && EverythingWorks(e.be)
  }

  /** The store is usable as it is and opens, and the download and the store calls of the update task succeed. */
  predicate EverythingWorks(be: BootEnv) {
    && be.flash.Usable? && be.opens
    && be.wifi && be.taskOpens && be.downloads && be.taskReopens && be.taskSets
  }

  /** A boot that erases the store. */
  predicate ErasesStore(e: Event) {
    e.Reboot? && Erases(e.be)
  }

  /** The setting a configuration packet of this type is for. */
  function Configures(t: uint8): Option<Setting> {
    if t == 30 then Some(SensorHv)
    else if t == 32 then Some(SensorLv)
    else if t == 34 then Some(BatteryHv)
    else if t == 36 then Some(BatteryLv)
    else if t == 38 then Some(SleepDuration)
    else None
  }

  /** The setting and value an event makes the node accept, if any. */
  function Accepted(s: State, e: Event): Option<(Setting, uint32)> {
    if HandlesOwn(s, e) && Configures(e.p.ptype).Some? && |e.p.data| == 4
    then Some((Configures(e.p.ptype).value, FromBytes(e.p.data)))
    else None
  }

  /** The store and the settings in memory after an event other than a reboot, in terms of what the event offered. */
  ghost predicate StoreAfter(s: State, e: Event, s': State) {
    var a := Accepted(s, e);
    && s'.app.markedValid == s.app.markedValid && s'.app.bootState == s.app.bootState
    && s'.app.voltages == s.app.voltages
    && s'.app.otaAvailable == (s.app.otaAvailable || (NewerOffer(s, e) && e.env.opens))
    && s'.app.sleepSeconds == (if a.Some? && a.value.0 == SleepDuration then a.value.1 else s.app.sleepSeconds)
    && s'.nvs.settings ==
         (if a.Some? && e.env.opens && e.env.sets then s.nvs.settings[a.value.0 := a.value.1] else s.nvs.settings)
    && s'.nvs.bootState ==
         (if NewerOffer(s, e) && e.env.opens && e.env.sets then Some(BOOT_INSTALL_OTA_UPDATE) else s.nvs.bootState)
    && s'.nvs.nodeAddress ==
         if NewerOffer(s, e) && e.env.opens && e.env.setsAddress then Some(s.addr) else s.nvs.nodeAddress
  }

  lemma ConfigUpdateStore(s: State, p: Packet, env: Env)
    requires SettingOf(p.ptype).Some?
    ensures var s' := HandleConfigUpdate(s, p, env).st;
            var k := SettingOf(p.ptype).value.0;
            && s'.app == (if |p.data| == 4 && k == SleepDuration
                          then s.app.(sleepSeconds := FromBytes(p.data)) else s.app)
            && s'.nvs == (if |p.data| == 4 && env.opens && env.sets
                          then s.nvs.(settings := s.nvs.settings[k := FromBytes(p.data)]) else s.nvs)
  {
  }

  lemma OtaUpdateStore(s: State, p: Packet, env: Env)
    ensures var s' := HandleOtaUpdateAvailable(s, p, env).st;
            if |p.data| == 4 && FromBytes(p.data) > FIRMWARE_VERSION && env.opens
            then s'.app == s.app.(otaAvailable := true) && s'.nvs == OfferStored(s, env).nvs
            else s'.app == s.app && s'.nvs == s.nvs
  {
  }

  lemma ProcessedStore(s: State, p: Packet, env: Env)
    requires p.ptype == PT_NODE_CONNECTED_RESP ==> |p.data| > ADDRESS_SIZE
    ensures var s' := Processed(s, p, env).st;
            var h := HandlerOf(p.ptype);
            && (h == Some(ConfigUpdate) ==>
                  s'.app == HandleConfigUpdate(s, p, env).st.app && s'.nvs == HandleConfigUpdate(s, p, env).st.nvs)
            && (h == Some(OtaUpdateAvailable) ==>
                  && s'.app == HandleOtaUpdateAvailable(s, p, env).st.app
                  && s'.nvs == HandleOtaUpdateAvailable(s, p, env).st.nvs)
            && (h != Some(ConfigUpdate) && h != Some(OtaUpdateAvailable) ==> s'.app == s.app && s'.nvs == s.nvs)
  {
    var s1 := s.(link := s.link.(processed := s.link.processed + {p.key as int}));
    RegisteredTypesAreKnown(p.ptype);
    var h := HandlerOf(p.ptype);
    if h == Some(ConfigUpdate) {
      ConfigUpdateStore(s1, p, env);
      ConfigUpdateStore(s, p, env);
    } else if h == Some(OtaUpdateAvailable) {
      OtaUpdateStore(s1, p, env);
      OtaUpdateStore(s, p, env);
    }
  }

  lemma ReceivedKeepsStore(s: State, p: Packet, env: Env)
    requires s.power == Awake
    ensures var s' := Received(s, p, env).st;
            if Processes(s, p)
            then s'.app == Processed(s, p, env).st.app && s'.nvs == Processed(s, p, env).st.nvs
            else s'.app == s.app && s'.nvs == s.nvs
  {
  }

  lemma ReceivedStore(s: State, p: Packet, env: Env)
    ensures StoreAfter(s, Receive(p, env), Received(s, p, env).st)
  {
    if s.power == Awake {
      ReceivedKeepsStore(s, p, env);
      if Processes(s, p) {
        ProcessedStore(s, p, env);
        RegisteredTypesAreKnown(p.ptype);
        if SettingOf(p.ptype).Some? {
          ConfigUpdateStore(s, p, env);
        }
        OtaUpdateStore(s, p, env);
      }
    }
  }

  /** Every event but a reboot changes the store only as its packet asks. */
  lemma StoreEffect(s: State, e: Event)
    requires !e.Reboot?
    ensures StoreAfter(s, e, Step(s, e).st)
  {
    if e.Receive? {
      ReceivedStore(s, e.p, e.env);
    }
  }

  /** The request to install is entered only by an offer of a newer firmware whose write succeeded, and by every such
      offer. */
  lemma InstallEnteredOnlyByOffer(s: State, e: Event)
    requires !InstallStored(s.nvs)
    ensures InstallStored(Step(s, e).st.nvs) <==> NewerOffer(s, e) && e.env.opens && e.env.sets
  {
    if !e.Reboot? {
      StoreEffect(s, e);
    }
  }

  /** It is left exactly by a boot whose download succeeds, and then for VERIFY, or by one that erases the store. */
  lemma InstallLeftOnlyByDownloadOrErase(s: State, e: Event)
    requires InstallStored(s.nvs)
    ensures InstallStored(Step(s, e).st.nvs) <==> !InstallSucceeds(s, e) && !ErasesStore(e)
    ensures InstallSucceeds(s, e) ==> Step(s, e).st.nvs.bootState == Some(BOOT_VERIFY_OTA_UPDATE)
    ensures ErasesStore(e) ==> Step(s, e).st.nvs == EMPTY_STORE
  {
    if !e.Reboot? {
      StoreEffect(s, e);
    }
  }

  /** Some boot of the run installed the update successfully. */
  predicate InstalledDuring(s: State, es: seq<Event>) {
    es != [] && (InstalledDuring(s, es[..|es| - 1]) || InstallSucceeds(After(s, es[..|es| - 1]), es[|es| - 1]))
  }

  predicate ErasedDuring(es: seq<Event>) {
    exists e :: e in es && ErasesStore(e)
  }

  /** A stored offer is not lost otherwise: over any sequence of sleeps, restarts, failed downloads and packets the
      request stays stored up to the first successful download or erase. */
  lemma {:induction false} StoredOfferSurvives(s: State, es: seq<Event>)
    requires InstallStored(s.nvs)
    ensures !InstalledDuring(s, es) && !ErasedDuring(es) ==> InstallStored(After(s, es).nvs)
  {
    if es != [] && !InstalledDuring(s, es) && !ErasedDuring(es) {
      var before := es[..|es| - 1];
      assert !ErasedDuring(before);
      StoredOfferSurvives(s, before);
      InstallLeftOnlyByDownloadOrErase(After(s, before), es[|es| - 1]);
    }
  }

  /** An erase loses what was promised: the offer is accepted and answered, its writes succeed, and the next boot finds
      the store without free pages. The node then runs as if nothing had been offered or configured. */
  lemma EraseLosesOffer()
    ensures var s := Loading([6, 5, 4, 3, 2, 1], Nvs(None, None, map[SleepDuration := 7]), true);
            var e := Receive(Packet(0, 1, 5, 9, PT_OTA_UPDATE_AVAILABLE, [3, 0, 0, 0]),
                             Env(NO_READINGS, true, true, true));
            var full := Reboot(BootEnv(NeedsErase(true, true), true, true, true, true, true, true, true, true));
            && NewerOffer(s, e) && Promises(Handled(s, e.p, e.env)) && InstallStored(Step(s, e).st.nvs)
            && Step(Step(s, e).st, full).st == Loading(s.addr, EMPTY_STORE, true)
            && Loading(s.addr, EMPTY_STORE, true).app.sleepSeconds == Default(SleepDuration)
  {
    assert FromBytes([3, 0, 0, 0]) == 3;
  }

  /** The address of the node never changes; a stored one stays stored until an erase. */
  lemma AddressKept(s: State, e: Event)
    ensures Step(s, e).st.addr == s.addr
    ensures s.nvs.nodeAddress == Some(s.addr) && !ErasesStore(e) ==> Step(s, e).st.nvs.nodeAddress == Some(s.addr)
    ensures s.nvs.nodeAddress == None && !(NewerOffer(s, e) && e.env.opens && e.env.setsAddress) ==>
              Step(s, e).st.nvs.nodeAddress == None
  {
    if !e.Reboot? {
      StoreEffect(s, e);
      if e.Receive? && Processes(s, e.p) {
        ProcessedEffect(s, e.p, e.env);
      }
    }
  }

  lemma {:induction false} AddressKeptOverRuns(s: State, es: seq<Event>)
    requires s.nvs.nodeAddress == Some(s.addr)
    ensures After(s, es).addr == s.addr && (!ErasedDuring(es) ==> After(s, es).nvs.nodeAddress == Some(s.addr))
  {
    if es != [] {
      var before := es[..|es| - 1];
      AddressKeptOverRuns(s, before);
      AddressKept(After(s, before), es[|es| - 1]);
      assert !ErasedDuring(es) ==> !ErasedDuring(before) && !ErasesStore(es[|es| - 1]);
    }
  }

  // ---- Promises -------------------------------------------------------------------------------------------------

  /** The reply to an offer; zero in it promises the installation. */
  predicate Promises(o: Out) {
    o.sent != [] && o.sent[0].ptype == PT_OTA_UPDATE_AVAILABLE_RESP && o.sent[0].data == [0, 0, 0, 0]
  }

  /** After the offer both the request and an address to download with are in the store. */
  predicate PromiseHeld(s: State, e: Event)
    requires e.Receive?
  {
    (e.env.sets || InstallStored(s.nvs)) && (e.env.setsAddress || s.nvs.nodeAddress.Some?)
  }

  /** The promise is made whenever the store opens. It is kept, in that a boot in which everything works installs,
      exactly when the request and the address were both written or already there. */
  lemma PromiseKeptWhenWritten(s: State, e: Event, be: BootEnv)
    requires NewerOffer(s, e) && EverythingWorks(be)
    ensures Promises(Handled(s, e.p, e.env)) <==> e.env.opens
    ensures e.env.opens ==> (InstallSucceeds(Step(s, e).st, Reboot(be)) <==> PromiseHeld(s, e))
  {
    StoreEffect(s, e);
  }

  /** No newer firmware is offered during the run. */
  predicate NoOfferDuring(s: State, es: seq<Event>) {
    es == [] || (NoOfferDuring(s, es[..|es| - 1]) && !NewerOffer(After(s, es[..|es| - 1]), es[|es| - 1]))
  }

  /** Between an offer and the boot that could install it nothing changes whether it will: neither sleeps nor failed
      downloads nor packets. */
  lemma {:induction false} ReadinessKept(s: State, es: seq<Event>, be: BootEnv)
    requires EverythingWorks(be)
    requires !InstalledDuring(s, es) && !ErasedDuring(es) && NoOfferDuring(s, es)
    ensures InstallSucceeds(After(s, es), Reboot(be)) <==> InstallSucceeds(s, Reboot(be))
    ensures InstallStored(After(s, es).nvs) <==> InstallStored(s.nvs)
    ensures After(s, es).nvs.nodeAddress == s.nvs.nodeAddress
  {
    if es != [] {
      var before, e := es[..|es| - 1], es[|es| - 1];
      assert !ErasedDuring(before) && !ErasesStore(e);
      ReadinessKept(s, before, be);
      var s1 := After(s, before);
      if InstallStored(s1.nvs) {
        InstallLeftOnlyByDownloadOrErase(s1, e);
      } else {
        InstallEnteredOnlyByOffer(s1, e);
      }
      if !e.Reboot? {
        StoreEffect(s1, e);
      }
    }
  }

  /** With no erase and no other offer in between, an offer is installed by the first boot in which everything works,
      however much later, exactly when its request and an address are in the store. */
  lemma AcceptedOfferGetsInstalled(s: State, offer: Event, es: seq<Event>, be: BootEnv)
    requires NewerOffer(s, offer) && offer.env.opens && EverythingWorks(be)
    requires var s1 := Step(s, offer).st;
             !InstalledDuring(s1, es) && !ErasedDuring(es) && NoOfferDuring(s1, es)
    ensures InstallSucceeds(After(Step(s, offer).st, es), Reboot(be)) <==> PromiseHeld(s, offer)
  {
    PromiseKeptWhenWritten(s, offer, be);
    ReadinessKept(Step(s, offer).st, es, be);
  }

  /** An offer whose writes succeed is installed whatever else is offered meanwhile. */
  lemma WrittenOfferGetsInstalled(s: State, offer: Event, es: seq<Event>, be: BootEnv)
    requires !ErasedDuring(es) && EverythingWorks(be)
    requires NewerOffer(s, offer) && offer.env.opens && offer.env.sets && offer.env.setsAddress
    ensures var s1 := Step(s, offer).st;
            InstallSucceeds(After(s1, es), Reboot(be)) || InstalledDuring(s1, es)
  {
    StoreEffect(s, offer);
    AddressKept(s, offer);
    StoredOfferSurvives(Step(s, offer).st, es);
    AddressKeptOverRuns(Step(s, offer).st, es);
  }

  /** A broken promise: the store opens, the write fails, the hub is told the update will be installed. */
  lemma PromiseCanBreak()
    ensures var s := Loading([6, 5, 4, 3, 2, 1], EMPTY_STORE, true);
            var e := Receive(Packet(0, 1, 5, 9, PT_OTA_UPDATE_AVAILABLE, [3, 0, 0, 0]),
                             Env(NO_READINGS, true, false, true));
            NewerOffer(s, e) && Promises(Handled(s, e.p, e.env)) && !InstallStored(Step(s, e).st.nvs)
  {
    assert FromBytes([3, 0, 0, 0]) == 3;
  }

  /** A boot that opens the store, or does not get that far, and erases nothing. */
  predicate PlainReboot(e: Event) {
    e.Reboot? && !Erases(e.be) && (FlashUsable(e.be) ==> e.be.opens)
  }

  /** A request without an address: every boot that opens the store fails its address check. Nothing is installed, the
      store stays as it is, and the node never comes up. */
  lemma {:induction false} NoAddressNoBoot(s: State, es: seq<Event>)
    requires InstallStored(s.nvs) && s.nvs.nodeAddress.None? && forall e :: e in es ==> PlainReboot(e)
    ensures After(s, es).nvs == s.nvs && !InstalledDuring(s, es) && (es != [] ==> After(s, es).power == Crashed)
  {
    if es != [] {
      NoAddressNoBoot(s, es[..|es| - 1]);
      assert PlainReboot(es[|es| - 1]);
    }
  }

  /** The other broken promise: the request is written and the address is not. The hub is told the update will be
      installed, and from the next boot on the node only crashes. */
  lemma PromiseEndsInCrashLoop(es: seq<Event>)
    requires forall e :: e in es ==> PlainReboot(e)
    ensures var s := Loading([6, 5, 4, 3, 2, 1], EMPTY_STORE, true);
            var e := Receive(Packet(0, 1, 5, 9, PT_OTA_UPDATE_AVAILABLE, [3, 0, 0, 0]),
                             Env(NO_READINGS, true, true, false));
            var s1 := Step(s, e).st;
            && NewerOffer(s, e) && Promises(Handled(s, e.p, e.env)) && InstallStored(s1.nvs)
            && After(s1, es).nvs == s1.nvs && !InstalledDuring(s1, es) && (es != [] ==> After(s1, es).power == Crashed)
  {
    var s := Loading([6, 5, 4, 3, 2, 1], EMPTY_STORE, true);
    var e := Receive(Packet(0, 1, 5, 9, PT_OTA_UPDATE_AVAILABLE, [3, 0, 0, 0]), Env(NO_READINGS, true, true, false));
    assert FromBytes([3, 0, 0, 0]) == 3;
    StoreEffect(s, e);
    NoAddressNoBoot(Step(s, e).st, es);
  }

  /** In a running node the image is marked valid only if this boot loaded VERIFY. */
  ghost predicate ValidImageInv(s: State) {
    s.app.markedValid ==> s.app.bootState == BOOT_VERIFY_OTA_UPDATE
  }

  /** Only a boot that loads VERIFY marks the image, and every such boot does. */
  lemma ImageMarkedOnlyAfterVerifyBoot(s: State, e: Event)
    requires ValidImageInv(s)
    ensures ValidImageInv(Step(s, e).st)
    ensures e.Reboot? ==>
              (Step(s, e).st.app.markedValid <==>
                 e.be.flash.Usable? && e.be.opens && s.nvs.bootState == Some(BOOT_VERIFY_OTA_UPDATE))
    ensures !e.Reboot? ==> Step(s, e).st.app.markedValid == s.app.markedValid
  {
    if !e.Reboot? {
      StoreEffect(s, e);
    }
  }

  /** VERIFY is only ever stored by a successful download, so a marked image was downloaded before. */
  lemma {:induction false} MarkedImageWasDownloaded(s: State, es: seq<Event>)
    requires !s.app.markedValid && s.nvs.bootState != Some(BOOT_VERIFY_OTA_UPDATE)
    ensures After(s, es).app.markedValid || After(s, es).nvs.bootState == Some(BOOT_VERIFY_OTA_UPDATE)
            ==> InstalledDuring(s, es)
    ensures ValidImageInv(After(s, es))
  {
    if es != [] {
      var before := es[..|es| - 1];
      MarkedImageWasDownloaded(s, before);
      ImageMarkedOnlyAfterVerifyBoot(After(s, before), es[|es| - 1]);
      if !es[|es| - 1].Reboot? {
        StoreEffect(After(s, before), es[|es| - 1]);
      }
    }
  }

  // ---- Settings -------------------------------------------------------------------------------------------------

  /** The value accepted last for a setting over a run since the last erase, or what the store held before it; the
      default after an erase. */
  function LastAccepted(s: State, es: seq<Event>, k: Setting): uint32 {
    if es == [] then Loaded(s.nvs, true, k)
    else
      var before, e := es[..|es| - 1], es[|es| - 1];
      if ErasesStore(e) then Default(k)
      else
        match Accepted(After(s, before), e)
        case Some((j, v)) => if j == k then v else LastAccepted(s, before, k)
        case None => LastAccepted(s, before, k)
  }

  /** The value written last for a setting over a run since the last erase: accepted while the store opened and wrote;
      or what the store held before it, or the default after an erase. */
  function LastWritten(s: State, es: seq<Event>, k: Setting): uint32 {
    if es == [] then Loaded(s.nvs, true, k)
    else
      var before, e := es[..|es| - 1], es[|es| - 1];
      if ErasesStore(e) then Default(k)
      else
        match Accepted(After(s, before), e)
        case Some((j, v)) => if j == k && e.env.opens && e.env.sets then v else LastWritten(s, before, k)
        case None => LastWritten(s, before, k)
  }

  /** Whatever the store does, each setting a boot would load is the value written last. */
  lemma {:induction false} SettingsAreLastWritten(s: State, es: seq<Event>, k: Setting)
    ensures Loaded(After(s, es).nvs, true, k) == LastWritten(s, es, k)
  {
    if es != [] {
      var before, e := es[..|es| - 1], es[|es| - 1];
      SettingsAreLastWritten(s, before, k);
      if !e.Reboot? {
        StoreEffect(After(s, before), e);
      }
    }
  }

  /** The store can be used, if need be after an erase, opens and writes whenever it is asked to. */
  predicate StoreWorks(e: Event) {
    (e.Receive? ==> e.env.opens && e.env.sets) && (e.Reboot? ==> FlashUsable(e.be) && e.be.opens)
  }

  /** The copy leaves the upper half of the 64-bit variable alone. */
  lemma UpperHalfKept(old64: uint64, v: uint32)
    ensures LowHalfSet(old64, v) % 0x1_0000_0000 == v
    ensures LowHalfSet(old64, v) / 0x1_0000_0000 == old64 / 0x1_0000_0000
  {
  }

  lemma LowHalfExact(v: uint32)
    ensures LowHalfSet(Default(SleepDuration), v) == v
  {
  }

  /** One event's effect on the store and on the sleep duration in memory. */
  lemma SettingsEffect(s: State, e: Event)
    requires StoreWorks(e)
    ensures var s' := Step(s, e).st;
            var a := Accepted(s, e);
            && s'.nvs.settings == (if ErasesStore(e) then map[]
                                   else if a.Some? then s.nvs.settings[a.value.0 := a.value.1] else s.nvs.settings)
            && (e.Reboot? ==> s'.app.sleepSeconds == Loaded(s'.nvs, true, SleepDuration))
            && (!e.Reboot? ==>
                  s'.app.sleepSeconds
                  == if a.Some? && a.value.0 == SleepDuration then a.value.1 else s.app.sleepSeconds)
  {
    if !e.Reboot? {
      StoreEffect(s, e);
    } else if SleepDuration in s.nvs.settings {
      LowHalfExact(s.nvs.settings[SleepDuration]);
    }
  }

  /** A store that works writes all that is accepted. */
  lemma {:induction false} WrittenIfItWorks(s: State, es: seq<Event>, k: Setting)
    requires forall e :: e in es ==> StoreWorks(e)
    ensures LastWritten(s, es, k) == LastAccepted(s, es, k)
  {
    if es != [] {
      WrittenIfItWorks(s, es[..|es| - 1], k);
      assert StoreWorks(es[|es| - 1]);
    }
  }

  /** With a working store, over any updates, packets, reboots and erases each setting a boot would load is the value
      accepted last since the last erase or the default, and the sleep duration in memory follows at once. */
  lemma {:induction false} SettingsAreLastAccepted(s: State, es: seq<Event>, k: Setting)
    requires forall e :: e in es ==> StoreWorks(e)
    requires s.app.sleepSeconds == Loaded(s.nvs, true, SleepDuration)
    ensures Loaded(After(s, es).nvs, true, k) == LastAccepted(s, es, k)
    ensures After(s, es).app.sleepSeconds == LastAccepted(s, es, SleepDuration)
  {
    SettingsAreLastWritten(s, es, k);
    WrittenIfItWorks(s, es, k);
    if es != [] {
      var before := es[..|es| - 1];
      SettingsAreLastAccepted(s, before, SleepDuration);
      SettingsEffect(After(s, before), es[|es| - 1]);
    }
  }

  /** What a reboot that erases nothing puts into memory is exactly what was written last, whatever the store did. */
  lemma RebootLoadsLastWritten(s: State, es: seq<Event>, be: BootEnv, k: Setting)
    requires be.flash.Usable? && be.opens
    ensures var app := Step(After(s, es), Reboot(be)).st.app;
            if k == SleepDuration then app.sleepSeconds == LastWritten(s, es, k)
            else k in app.voltages && app.voltages[k] == LastWritten(s, es, k)
  {
    hide Step, After, LastWritten, Loaded;
    SettingsAreLastWritten(s, es, k);
    BootLoads(After(s, es), be, k);
  }

  /** With a store that works that is what was accepted last. */
  lemma RebootLoadsLastAccepted(s: State, es: seq<Event>, be: BootEnv, k: Setting)
    requires be.flash.Usable? && be.opens && forall e :: e in es ==> StoreWorks(e)
    ensures var app := Step(After(s, es), Reboot(be)).st.app;
            if k == SleepDuration then app.sleepSeconds == LastAccepted(s, es, k)
            else k in app.voltages && app.voltages[k] == LastAccepted(s, es, k)
  {
    hide Step, After, LastWritten, LastAccepted;
    RebootLoadsLastWritten(s, es, be, k);
    WrittenIfItWorks(s, es, k);
  }

  lemma BootLoads(s: State, be: BootEnv, k: Setting)
    requires be.flash.Usable? && be.opens
    ensures var app := Step(s, Reboot(be)).st.app;
            if k == SleepDuration then app.sleepSeconds == Loaded(s.nvs, true, k)
            else k in app.voltages && app.voltages[k] == Loaded(s.nvs, true, k)
  {
    SettingsEffect(s, Reboot(be));
    assert k != SleepDuration ==> k in VOLTAGES;
  }

  /** The acknowledgement goes out whenever the store opens; the value is stored only if it is also written. */
  lemma AcknowledgedButNotStored(s: State, e: Event)
    requires Accepted(s, e).Some?
    ensures var (k, v) := Accepted(s, e).value;
            var o := Handled(s, e.p, e.env);
            && (o.sent != [] <==> e.env.opens)
            && o.st.nvs == if e.env.opens && e.env.sets then s.nvs.(settings := s.nvs.settings[k := v]) else s.nvs
  {
    RegisteredTypesAreKnown(e.p.ptype);
    var s1 := s.(link := s.link.(processed := s.link.processed + {e.p.key as int}));
    ConfigUpdateStore(s1, e.p, e.env);
  }

  /** An input for which the acknowledgement is wrong: the store opens and the write fails. */
  lemma AcknowledgementCanBeWrong()
    ensures var s := Loading([6, 5, 4, 3, 2, 1], EMPTY_STORE, true);
            var p := Packet(0, 1, 5, 9, 34, [1, 0, 0, 0]);
            var o := Handled(s, p, Env(NO_READINGS, true, false, true));
            && |o.sent| == 1 && o.sent[0].ptype == 35 && o.st.nvs == s.nvs
            && Loaded(o.st.nvs, true, BatteryHv) != FromBytes(p.data)
  {
    assert FromBytes([1, 0, 0, 0]) == 1;
  }

  lemma SleepStepBounded(s: State, e: Event)
    requires s.app.sleepSeconds < 0x1_0000_0000
    ensures Step(s, e).st.app.sleepSeconds < 0x1_0000_0000
  {
    if !e.Reboot? {
      StoreEffect(s, e);
    } else if SleepDuration in s.nvs.settings {
      LowHalfExact(s.nvs.settings[SleepDuration]);
    }
  }

  /** Whatever the store does, the sleep duration stays below 2^32, so its product in microseconds fits 64 bits. */
  lemma {:induction false} SleepNeverOverflows(s: State, es: seq<Event>)
    requires s.app.sleepSeconds < 0x1_0000_0000
    ensures After(s, es).app.sleepSeconds < 0x1_0000_0000
    ensures After(s, es).app.sleepSeconds * 1_000_000 < 0x1_0000_0000_0000_0000
  {
    if es != [] {
      SleepNeverOverflows(s, es[..|es| - 1]);
      SleepStepBounded(After(s, es[..|es| - 1]), es[|es| - 1]);
    }
  }
}
