/** What one node does, in the packet types and payload bytes of main/mesh_data_packet.h: whom it answers and with what,
    when it announces itself, what it repeats, and how a boot ends. None of this is said by way of the functions of
    NodeSpec.dfy that do it. */
module Protocol {
  import opened Types
  import opened DataPacket
  import opened NodeSpec
  import opened NodeProps
  import opened BootProps

  /** A new packet from this node to the hub (id 0) with ttl 5, under the next key. */
  function FromNode(s: State, t: uint8, data: seq<uint8>): Packet {
    Packet(s.link.id, 0, 5, s.counters.key, t, data)
  }

  /** The key of `p` is marked and `keys` keys have been taken. */
  function Moved(s: State, p: Packet, keys: nat): State {
    s.(link := s.link.(processed := s.link.processed + {p.key as int}),
       counters := s.counters.(key := (s.counters.key + keys) % 0x100))
  }

  // ---- Answers --------------------------------------------------------------------------------------------------

  /** What a data request of this type asks for. */
  function Asked(t: uint8, r: Readings): Option<Word> {
    if t == 10 then Some(r.batteryPct)
    else if t == 12 then Some(r.batteryVoltage)
    else if t == 14 then Some(r.moisturePct)
    else if t == 16 then Some(r.moistureVoltage)
    else None
  }

  /** A data request is answered with the reading it asks for, under the type behind its own; nothing else changes. */
  lemma RequestAnswered(s: State, p: Packet, env: Env)
    requires HandlesOwn(s, Receive(p, env)) && Asked(p.ptype, env.readings).Some?
    ensures Handled(s, p, env)
            == Out(Moved(s, p, 1), [FromNode(s, p.ptype + 1, Asked(p.ptype, env.readings).value)])
  {
  }

  /** A configuration packet sets exactly the setting of its type, in the store if that opens and writes and, for the
      sleep duration, at once in memory; it is acknowledged under the type behind its own exactly if the store opens. */
  lemma ConfigurationApplied(s: State, p: Packet, env: Env)
    requires HandlesOwn(s, Receive(p, env)) && Configures(p.ptype).Some? && |p.data| == 4
    ensures var k, v, o := Configures(p.ptype).value, FromBytes(p.data), Handled(s, p, env);
            && o.sent == (if env.opens then [FromNode(s, p.ptype + 1, [0])] else [])
            && o.st == Moved(s, p, |o.sent|).(
                 app := if p.ptype == 38 then s.app.(sleepSeconds := v) else s.app,
                 nvs := if env.opens && env.sets then s.nvs.(settings := s.nvs.settings[k := v]) else s.nvs)
  {
  }

  /** An offer of a firmware newer than 2 is stored and answered with zero if the store opens, and lost together with
      its reply if it does not; any other is answered with 2 and changes nothing. */
  lemma OfferIsAnswered(s: State, p: Packet, env: Env)
    requires HandlesOwn(s, Receive(p, env)) && p.ptype == 3 && |p.data| == 4
    ensures var o := Handled(s, p, env);
            if FromBytes(p.data) <= 2 then o == Out(Moved(s, p, 1), [FromNode(s, 4, [2, 0, 0, 0])])
            else if !env.opens then
              o == Out(Moved(s, p, 1).(counters := Counters((s.counters.key + 1) % 0x100, s.counters.live + 1)), [])
            else
              && o.sent == [FromNode(s, 4, [0, 0, 0, 0])]
              && o.st == Moved(s, p, 1).(
                   app := s.app.(otaAvailable := true),
                   nvs := s.nvs.(bootState := if env.sets then Some(2) else s.nvs.bootState,
                                 nodeAddress := if env.setsAddress then Some(s.addr) else s.nvs.nodeAddress))
  {
  }

  /** A configuration packet or an offer without exactly four bytes fails a check, before anything is stored or sent. */
  lemma WrongLengthEndsNode(s: State, p: Packet, env: Env)
    requires HandlesOwn(s, Receive(p, env)) && (Configures(p.ptype).Some? || p.ptype == 3) && |p.data| != 4
    ensures Handled(s, p, env) == Out(Moved(s, p, 0).(power := Crashed), [])
  {
  }

  /** Packets of any other type for this node are only marked; from type 40 up there is no handler to look up. */
  lemma OthersOnlyMarked(s: State, p: Packet, env: Env)
    requires HandlesOwn(s, Receive(p, env)) && p.ptype !in {3, 5}
    requires Asked(p.ptype, env.readings).None? && Configures(p.ptype).None?
    ensures Handled(s, p, env) == Out(if p.ptype < 40 then Moved(s, p, 0) else Moved(s, p, 0).(power := Crashed), [])
  {
  }

  /** A packet for this node under a marked key is dropped. */
  lemma RepeatedIsDropped(s: State, p: Packet, env: Env)
    requires p.dest == s.link.id && p.ptype != 2 && p.key as int in s.link.processed
    ensures Handled(s, p, env) == Out(s, [])
  {
  }

  /** A packet for another node, other than a request to sleep, is passed on with one ttl less, or dropped without any
      left. */
  lemma OthersPassedOn(s: State, p: Packet, env: Env)
    requires p.dest != s.link.id && p.ptype != 5 && |p.data| <= 15
    ensures Handled(s, p, env) == Out(s, if p.ttl == 0 then [] else [p.(ttl := p.ttl - 1)])
  {
  }

  /** A response for this id and another address is passed on whatever its ttl, which wraps around. */
  lemma MisaddressedPassedOn(s: State, p: Packet, env: Env)
    requires p.ptype == 2 && p.dest == s.link.id && |s.addr| == 6 && 6 <= |p.data| <= 15 && p.data[..6] != s.addr
    ensures Handled(s, p, env) == Out(s, [p.(ttl := if p.ttl == 0 then 255 else p.ttl - 1)])
  {
  }

  /** What ends a node besides a payload of the wrong length: an address or id read behind the payload of a response,
      and a payload beyond 15 bytes that is to be passed on. Nothing is sent. */
  lemma OverrunsEndNode(s: State, p: Packet, env: Env)
    requires s.power == Awake && |s.addr| == 6
    requires || (p.ptype == 2 && p.dest == s.link.id && (|p.data| < 6 || (|p.data| == 6 && p.data == s.addr)))
             || (|p.data| > 15 && p.dest != s.link.id && (p.ptype == 5 || p.ttl > 0))
             || (|p.data| > 15 && p.ptype == 5 && p.key as int !in s.link.processed)
             || (|p.data| > 15 && p.ptype == 2 && p.dest == s.link.id && p.data[..6] != s.addr)
    ensures Handled(s, p, env).st.power == Crashed && Handled(s, p, env).sent == []
    ensures Handled(s, p, env).st.nvs == s.nvs
  {
    assert |p.data| == 6 ==> p.data[..6] == p.data;
  }

  /** A response that carries this node's address gives it the id behind the address; the announcement waits no
      longer. */
  lemma ResponseTaken(s: State, p: Packet, env: Env)
    requires AwaitingInv(s) && |s.addr| == 6
    requires p.ptype == 2 && p.dest == s.link.id && |p.data| > 6 && p.data[..6] == s.addr
    ensures Handled(s, p, env)
            == Out(Moved(s, p, 0).(
                     link := s.link.(id := p.data[6], awaiting := [], processed := s.link.processed + {p.key as int}),
                     counters := Counters(s.counters.key, s.counters.live - |s.link.awaiting|)), [])
  {
    if s.link.awaiting != [] {
      assert IndexOfType(s.link.awaiting, 1) == 0;
      assert s.link.awaiting[..0] + s.link.awaiting[1..] == [];
    }
  }

  // ---- Asleep and awake -----------------------------------------------------------------------------------------

  /** A node that is not awake does nothing until it boots. */
  lemma AsleepUntilBoot(s: State, e: Event)
    requires s.power != Awake && !e.Reboot?
    ensures Step(s, e) == Out(s, [])
  {
  }

  /** The timers: the one for resending only sets its flag, the other one puts the node to sleep. */
  lemma TimersFire(s: State)
    requires s.power == Awake
    ensures Step(s, Tick) == Out(s.(link := s.link.(resend := true)), [])
    ensures Step(s, ForcedSleep) == Out(s.(power := DeepSleep), [])
  {
  }

  // ---- The announcement -----------------------------------------------------------------------------------------

  /** The first discovery of a peer that completes makes the node announce its address (type 1) and wait for the
      response, if there is room for a second waiting packet; later ones do nothing. */
  lemma FirstConnectionAnnounces(s: State)
    requires s.power == Awake
    ensures var hello, key := FromNode(s, 1, s.addr), (s.counters.key + 1) % 0x100;
            Step(s, Connected)
            == if s.link.provisioning then Out(s, [])
               else if |s.link.awaiting| < 2 then
                 Out(s.(link := s.link.(provisioning := true, timer := true, awaiting := [hello] + s.link.awaiting),
                        counters := Counters(key, s.counters.live + 1)), [hello])
               else
                 Out(s.(link := s.link.(provisioning := true), counters := Counters(key, s.counters.live)), [hello])
  {
  }

  /** A discovery completed while the node was awake. */
  predicate ConnectedAwake(s: State, es: seq<Event>) {
    es != [] && (ConnectedAwake(s, es[..|es| - 1])
                 || (es[|es| - 1].Connected? && After(s, es[..|es| - 1]).power == Awake))
  }

  /** The packets completed discoveries made the node send. */
  function Announcements(s: State, es: seq<Event>): seq<Packet> {
    if es == [] then []
    else
      var before, e := es[..|es| - 1], es[|es| - 1];
      Announcements(s, before) + if e.Connected? then Step(After(s, before), e).sent else []
  }

  /** The response to this node arrives while it is awake. */
  predicate Answers(s: State, e: Event) {
    && e.Receive? && s.power == Awake && e.p.ptype == 2 && e.p.dest == s.link.id
    && |e.p.data| > 6 && e.p.data[..6] == s.addr
  }

  /** The node has announced itself and no response has come since. */
  predicate Unanswered(s: State, es: seq<Event>) {
    es != [] &&
    var before, e := es[..|es| - 1], es[|es| - 1];
    if e.Connected? && After(s, before).power == Awake && !ConnectedAwake(s, before) then true
    else Unanswered(s, before) && !Answers(After(s, before), e)
  }

  /** A node that has just booted and not announced itself. */
  ghost predicate Fresh(s: State) {
    |s.addr| == 6 && !s.link.provisioning && s.link.awaiting == [] && !s.app.otaAvailable
  }

  lemma ProvisioningKept(s: State, e: Event)
    requires AwaitingInv(s) && !e.Reboot?
    ensures Step(s, e).st.link.provisioning
            == (s.link.provisioning || (e.Connected? && s.power == Awake))
    ensures Step(s, e).st.addr == s.addr
  {
    if e.Receive? && s.power == Awake && Processes(s, e.p) {
      ProcessedEffect(s, e.p, e.env);
    }
  }

  lemma WaitingAfter(s: State, e: Event)
    requires AwaitingInv(s) && !e.Reboot? && |s.addr| == 6
    ensures Step(s, e).st.link.awaiting != [] <==>
              if e.Connected? && s.power == Awake && !s.link.provisioning then true
              else s.link.awaiting != [] && !Answers(s, e)
  {
    match e
    case Receive(p, env) =>
      if s.power == Awake {
        HandledAwaiting(s, p, env);
        OneKeyAtATime(Handled(s, p, env).st);
        hide Handled;
      }
    case Poll => OneKeyAtATime(s);
    case _ =>
  }

  /** Over a boot the node announces itself exactly once if some discovery completes while it is awake, and never
      otherwise; and the announcement waits exactly until the response comes. */
  lemma {:induction false} AnnouncesOnce(s: State, es: seq<Event>)
    requires Fresh(s) && forall e :: e in es ==> !e.Reboot?
    ensures |Announcements(s, es)| == if ConnectedAwake(s, es) then 1 else 0
    ensures forall q :: q in Announcements(s, es) ==> q.dest == 0 && q.ttl == 5 && q.ptype == 1 && q.data == s.addr
    ensures After(s, es).link.provisioning == ConnectedAwake(s, es) && After(s, es).addr == s.addr
    ensures After(s, es).link.awaiting != [] <==> Unanswered(s, es)
  {
    if es != [] {
      var before, e := es[..|es| - 1], es[|es| - 1];
      AnnouncesOnce(s, before);
      AwaitingInvOverRuns(s, before);
      var b := After(s, before);
      ProvisioningKept(b, e);
      WaitingAfter(b, e);
      hide Step;
      if e.Connected? {
        if b.power == Awake {
          FirstConnectionAnnounces(b);
        } else {
          AsleepUntilBoot(b, e);
        }
      }
    }
  }

  // ---- Sending again --------------------------------------------------------------------------------------------

  /** `again` are the waiting packets under the next keys, in list order. */
  ghost predicate UnderNextKeys(s: State, again: seq<Packet>) {
    && |again| == |s.link.awaiting|
    && forall i :: 0 <= i < |again| ==> again[i] == s.link.awaiting[i].(key := (s.counters.key + i) % 0x100)
  }

  lemma RekeyedInOrder(s: State)
    ensures UnderNextKeys(s, Rekeyed(s.link.awaiting, s.counters.key))
  {
    forall i | 0 <= i < |s.link.awaiting| {
      RekeyedAt(s.link.awaiting, s.counters.key, i);
    }
  }

  /** Sending again: every waiting packet once, each under a key of its own. */
  ghost predicate SentAgain(s: State, o: Out, before: seq<Packet>) {
    var again := o.st.link.awaiting;
    && UnderNextKeys(s, again) && o.sent == before + again
    && o.st == s.(link := s.link.(resend := false, awaiting := again, timer := s.link.timer && again != []),
                  counters := s.counters.(key := (s.counters.key + |again|) % 0x100))
  }

  /** With the flag set, the end of advertising or scanning sends every waiting packet again; without it, nothing. */
  lemma PollSendsAgain(s: State)
    requires s.power == Awake
    ensures if s.link.resend then SentAgain(s, Step(s, Poll), []) else Step(s, Poll) == Out(s, [])
  {
    RekeyedInOrder(s);
  }

  /** So does every reception after which the node is still awake, behind what the packet itself made it send. */
  lemma ReceptionSendsAgain(s: State, p: Packet, env: Env)
    requires s.power == Awake
    ensures var o := Handled(s, p, env);
            if o.st.power == Awake && o.st.link.resend then SentAgain(o.st, Step(s, Receive(p, env)), o.sent)
            else Step(s, Receive(p, env)) == o
  {
    var o := Handled(s, p, env);
    RekeyedInOrder(o.st);
    hide Handled;
    assert o.sent + [] == o.sent;
  }

  /** A lost announcement is repeated: as long as no response has come, whatever else the node has been through in this
      boot, the timer and the next end of advertising send it again, under the next key. */
  lemma UnansweredIsRepeated(s: State, es: seq<Event>)
    requires Fresh(s) && (forall e :: e in es ==> !e.Reboot?) && After(s, es).power == Awake && Unanswered(s, es)
    ensures var b := After(s, es);
            && b.link.timer && |Step(Step(b, Tick).st, Poll).sent| == 1
            && var q := Step(Step(b, Tick).st, Poll).sent[0];
               q.dest == 0 && q.ttl == 5 && q.ptype == 1 && q.data == s.addr && q.key == b.counters.key
  {
    AnnouncesOnce(s, es);
    AwaitingInvOverRuns(s, es);
    TimersFire(After(s, es));
    PollSendsAgain(Step(After(s, es), Tick).st);
    hide Step;
  }

  // ---- Sleeping or restarting -----------------------------------------------------------------------------------

  /** In this run a newer firmware was offered while the store opened. */
  predicate OfferedDuring(s: State, es: seq<Event>) {
    es != [] && (OfferedDuring(s, es[..|es| - 1])
                 || (NewerOffer(After(s, es[..|es| - 1]), es[|es| - 1]) && es[|es| - 1].env.opens))
  }

  lemma {:induction false} OfferIsRemembered(s: State, es: seq<Event>)
    requires Fresh(s) && forall e :: e in es ==> !e.Reboot?
    ensures After(s, es).app.otaAvailable == OfferedDuring(s, es)
  {
    if es != [] {
      OfferIsRemembered(s, es[..|es| - 1]);
      StoreEffect(After(s, es[..|es| - 1]), es[|es| - 1]);
      hide Step;
    }
  }

  /** A request to sleep that reaches an awake node, unless the node has its id and has marked its key, is sent on
      twice; then the node restarts, to install, exactly if a newer firmware was offered in this boot while the store
      opened, and goes to deep sleep otherwise. */
  lemma SleepsUnlessOffered(s: State, es: seq<Event>, p: Packet, env: Env)
    requires Fresh(s) && (forall e :: e in es ==> !e.Reboot?) && After(s, es).power == Awake
    requires p.ptype == 5 && |p.data| <= 15
    requires !(p.dest == After(s, es).link.id && p.key as int in After(s, es).link.processed)
    ensures var o := Step(After(s, es), Receive(p, env));
            o.sent == [p, p] && o.st.power == if OfferedDuring(s, es) then Restarting else DeepSleep
  {
    OfferIsRemembered(s, es);
  }

  // ---- Boots ----------------------------------------------------------------------------------------------------

  /** What the store holds once a boot has dealt with it, and the boot state it loads. */
  function StoreAtBoot(s: State, be: BootEnv): Nvs {
    if be.flash.NeedsErase? && be.flash.erased then Nvs(None, None, map[]) else s.nvs
  }

  function BootStateAt(s: State, be: BootEnv): uint8 {
    if be.opens && StoreAtBoot(s, be).bootState.Some? then StoreAtBoot(s, be).bootState.value else 0
  }

  predicate StoreUsable(be: BootEnv) {
    match be.flash
    case Usable => true
    case NeedsErase(erased, usable) => erased && usable
    case Unusable => false
  }

  lemma UnusableStoreEndsNode(s: State, be: BootEnv)
    requires !StoreUsable(be)
    ensures var b := Step(s, Reboot(be)).st; b.power == Crashed && b.nvs == StoreAtBoot(s, be)
  {
  }

  /** A boot that loads the request to install (2) restarts the node if the download fails, and if it succeeds and the
      store records that the image is to be verified (3); anything else that fails ends it. Nothing is sent. */
  lemma InstallBoots(s: State, be: BootEnv)
    requires StoreUsable(be) && BootStateAt(s, be) == 2
    ensures var b := Step(s, Reboot(be)).st;
            var downloads := be.wifi && be.taskOpens && s.nvs.nodeAddress.Some?;
            var records := be.taskReopens && be.taskSets;
            && b.power == (if downloads && (be.downloads ==> records) then Restarting else Crashed)
            && b.nvs == (if downloads && be.downloads && records then s.nvs.(bootState := Some(3)) else s.nvs)
            && !b.app.markedValid
  {
  }

  /** Any other boot leaves a node that runs afresh; one that loads VERIFY (3) marks the image valid and stores that the
      node is to read and report (1), if the store opens and writes. */
  lemma OtherBootsRun(s: State, be: BootEnv)
    requires StoreUsable(be) && BootStateAt(s, be) != 2 && |s.addr| == 6
    ensures var b, verify := Step(s, Reboot(be)).st, BootStateAt(s, be) == 3;
            && Step(s, Reboot(be)).sent == [] && Fresh(b) && b.power == Awake && b.addr == s.addr
            && b.link == Link(1, {}, false, false, false, []) && b.counters == Counters(0, 0)
            && b.app.markedValid == verify
            && b.nvs == if verify && be.verifyOpens && be.verifySets then StoreAtBoot(s, be).(bootState := Some(1))
                        else StoreAtBoot(s, be)
  {
  }

  /** With nothing stored the limits and the sleep duration are the built-in ones. */
  lemma BuiltInSettings(s: State, be: BootEnv)
    requires StoreUsable(be) && (s.nvs.settings == map[] || be.flash.NeedsErase? || !be.opens)
    ensures var app := Step(s, Reboot(be)).st.app;
            && app.sleepSeconds == 60
            && app.voltages == map[BatteryHv := 2100, BatteryLv := 1450, SensorHv := 2707, SensorLv := 1344]
  {
  }
}
