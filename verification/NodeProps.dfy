/** What every event keeps and what holds over whole runs of one node. */
module NodeProps {
  import opened Types
  import opened DataPacket
  import opened NodeSpec

  // ---- What a handler leaves alone -------------------------------------------------------------------------------

  /** Handlers other than the one for node-connected responses touch neither the address nor the link variables. */
  predicate LinkKept(s: State, s': State) {
    s'.addr == s.addr && s'.link == s.link
  }

  lemma DataRequestEffect(s: State, p: Packet, env: Env)
    ensures var o := HandleDataRequest(s, p, env);
            LinkKept(s, o.st) && o.st.counters.live == s.counters.live + if RequestOf(p.ptype).None? then 1 else 0
  {
  }

  lemma ConfigUpdateEffect(s: State, p: Packet, env: Env)
    ensures var o := HandleConfigUpdate(s, p, env);
            LinkKept(s, o.st) && o.st.counters.live == s.counters.live
  {
  }

  lemma OtaUpdateEffect(s: State, p: Packet, env: Env)
    ensures var o := HandleOtaUpdateAvailable(s, p, env);
            && LinkKept(s, o.st)
            && o.st.counters.live == s.counters.live +
                 if |p.data| == 4 && FromBytes(p.data) > FIRMWARE_VERSION && !env.opens then 1 else 0
  {
  }

  /** The link variables and the number of live packets after any handler. */
  lemma ProcessedEffect(s: State, p: Packet, env: Env)
    requires p.ptype == PT_NODE_CONNECTED_RESP ==> |p.data| > ADDRESS_SIZE
    ensures var s' := Processed(s, p, env).st;
            var marked := s.link.(processed := s.link.processed + {p.key as int});
            && s'.addr == s.addr
            && (p.ptype != PT_NODE_CONNECTED_RESP ==>
                  && s'.link == marked
                  && s'.counters.live == s.counters.live +
                       if p.ptype == PT_OTA_UPDATE_AVAILABLE && |p.data| == 4
                          && FromBytes(p.data) > FIRMWARE_VERSION && !env.opens then 1 else 0)
            && (p.ptype == PT_NODE_CONNECTED_RESP ==>
                  s' == RemoveAwaiting(s.(link := marked.(id := p.data[ADDRESS_SIZE])), PT_NODE_CONNECTED))
  {
    var s1 := s.(link := s.link.(processed := s.link.processed + {p.key as int}));
    match HandlerOf(p.ptype)
    case Some(DataRequest) => DataRequestEffect(s1, p, env);
    case Some(ConfigUpdate) => ConfigUpdateEffect(s1, p, env);
    case Some(OtaUpdateAvailable) => OtaUpdateEffect(s1, p, env);
    case _ =>
  }

  // ---- The packet that waits for its response -------------------------------------------------------------------

  predicate SameButKey(a: Packet, b: Packet) {
    a.(key := 0) == b.(key := 0)
  }

  /** At most one packet waits; it announces this node to the hub and the resend timer runs for it. */
  ghost predicate AwaitingInv(s: State) {
    && |s.link.awaiting| <= 1
    && (s.link.awaiting != [] ==>
          && s.link.provisioning && s.link.timer
          && var q := s.link.awaiting[0];
             q.ptype == PT_NODE_CONNECTED && q.dest == HUB_NODE_ID && q.ttl == STD_TTL && q.data == s.addr)
  }

  /** The i-th packet sent again takes the i-th next key. */
  lemma {:induction false} RekeyedAt(ps: seq<Packet>, counter: uint8, i: nat)
    requires i < |ps|
    ensures Rekeyed(ps, counter)[i] == ps[i].(key := (counter + i) % 0x100)
  {
    if i > 0 {
      RekeyedAt(ps[1..], (counter + 1) % 0x100, i - 1);
      NextKeys(counter, i);
    }
  }

  lemma NextKeys(counter: uint8, i: nat)
    requires i > 0
    ensures ((counter + 1) % 0x100 + (i - 1)) % 0x100 == (counter + i) % 0x100
    ensures ((counter + (i - 1)) % 0x100 + 1) % 0x100 == (counter + i) % 0x100
  {
  }

  lemma OneKeyAtATime(s: State)
    requires |s.link.awaiting| <= 1
    ensures ResendIfNeeded(s).st.link.awaiting == [] <==> s.link.awaiting == []
    ensures s.link.awaiting != [] ==> SameButKey(ResendIfNeeded(s).st.link.awaiting[0], s.link.awaiting[0])
  {
  }

  /** Handling a packet either leaves the list alone or, for a response that is taken, empties it. */
  lemma HandledAwaiting(s: State, p: Packet, env: Env)
    requires AwaitingInv(s)
    ensures AwaitingInv(Handled(s, p, env).st)
    ensures Handled(s, p, env).st.link.awaiting == if TakesResponse(s, p) then [] else s.link.awaiting
  {
    if Processes(s, p) {
      ProcessedEffect(s, p, env);
      if p.ptype == PT_NODE_CONNECTED_RESP && s.link.awaiting != [] {
        assert IndexOfType(s.link.awaiting, PT_NODE_CONNECTED) == 0;
        assert s.link.awaiting[..0] + s.link.awaiting[1..] == [];
      }
    }
  }

  /** Every event keeps the invariant; the waiting packet only ever changes its key, appears or disappears. */
  lemma AwaitingKept(s: State, e: Event)
    requires AwaitingInv(s)
    ensures var o := Step(s, e);
            && AwaitingInv(o.st)
            && (o.st.link.awaiting != [] && s.link.awaiting != [] ==>
                  SameButKey(o.st.link.awaiting[0], s.link.awaiting[0]))
            && (o.st.link.awaiting != [] && s.link.awaiting == [] ==>
                  e == Connected && !s.link.provisioning && o.sent == o.st.link.awaiting)
  {
    match e
    case Receive(p, env) =>
      if s.power == Awake {
        HandledAwaiting(s, p, env);
        OneKeyAtATime(Handled(s, p, env).st);
      }
    case Poll => OneKeyAtATime(s);
    case _ =>
  }

  /** In every run of a node at most one packet waits, so the pool of two is never exhausted. */
  lemma {:induction false} AwaitingInvOverRuns(s: State, es: seq<Event>)
    requires AwaitingInv(s)
    ensures AwaitingInv(After(s, es)) && |After(s, es).link.awaiting| < MAX_AWAITING
  {
    if es != [] {
      AwaitingInvOverRuns(s, es[..|es| - 1]);
      AwaitingKept(After(s, es[..|es| - 1]), es[|es| - 1]);
    }
  }

  /** A packet waits at every point of the run. */
  predicate WaitsThroughout(s: State, es: seq<Event>) {
    After(s, es).link.awaiting != [] && (es == [] || WaitsThroughout(s, es[..|es| - 1]))
  }

  /** As long as it waits it differs from what was announced at first only in its key, however often it is sent again.
      */
  lemma {:induction false} WaitingChangesOnlyItsKey(s: State, es: seq<Event>)
    requires AwaitingInv(s) && WaitsThroughout(s, es)
    ensures s.link.awaiting != [] && SameButKey(After(s, es).link.awaiting[0], s.link.awaiting[0])
  {
    if es != [] {
      var before := es[..|es| - 1];
      WaitingChangesOnlyItsKey(s, before);
      AwaitingInvOverRuns(s, before);
      AwaitingKept(After(s, before), es[|es| - 1]);
    }
  }

  /** A response addressed to this node assigns the id it carries and empties the list. */
  lemma ResponseEndsProvisioning(s: State, p: Packet, env: Env)
    requires AwaitingInv(s) && s.power == Awake && TakesResponse(s, p)
    ensures var s' := Received(s, p, env).st;
            s'.link.awaiting == [] && s'.link.id == p.data[ADDRESS_SIZE] && s'.power == Awake
  {
  }

  // ---- Packet accounting ----------------------------------------------------------------------------------------

  /** The one way a packet is lost: an offer of a newer firmware meets a store that does not open. */
  predicate LeaksPacket(s: State, e: Event) {
    && HandlesOwn(s, e) && e.p.ptype == 3 && |e.p.data| == 4 && FromBytes(e.p.data) > 2 && !e.env.opens
  }

  /** A handler is only ever registered for types it knows, so the early return of the data-request handler that
      would lose its packet is not reached. */
  lemma RegisteredTypesAreKnown(t: uint8)
    ensures HandlerOf(t) == Some(DataRequest) <==> RequestOf(t).Some?
    ensures HandlerOf(t) == Some(ConfigUpdate) <==> SettingOf(t).Some?
  {
  }

  function Lost(s: State, e: Event): nat {
    if LeaksPacket(s, e) then 1 else 0
  }

  /** Packets lost along a run, counted from the last reboot, which resets the counter with the rest of the memory. */
  function LostOver(s: State, es: seq<Event>): nat {
    if es == [] then 0
    else
      var before := es[..|es| - 1];
      if es[|es| - 1].Reboot? then 0 else LostOver(s, before) + Lost(After(s, before), es[|es| - 1])
  }

  lemma AccountingKept(s: State, e: Event)
    requires AwaitingInv(s)
    ensures var s' := Step(s, e).st;
            s'.counters.live - |s'.link.awaiting| ==
            if e.Reboot? then 0 else s.counters.live - |s.link.awaiting| + Lost(s, e)
  {
    match e
    case Receive(p, env) =>
      if s.power == Awake {
        HandledAwaiting(s, p, env);
        HandledAccounting(s, p, env);
        hide Handled;
      }
    case _ =>
  }

  lemma HandledAccounting(s: State, p: Packet, env: Env)
    requires AwaitingInv(s) && s.power == Awake
    ensures var s' := Handled(s, p, env).st;
            s'.counters.live - |s'.link.awaiting| == s.counters.live - |s.link.awaiting| + Lost(s, Receive(p, env))
  {
    HandledAwaiting(s, p, env);
    if Processes(s, p) {
      ProcessedEffect(s, p, env);
      hide Processed;
      if p.ptype == PT_NODE_CONNECTED_RESP && s.link.awaiting != [] {
        assert IndexOfType(s.link.awaiting, PT_NODE_CONNECTED) == 0;
      }
    }
  }

  /** Between events the counter is the number of waiting packets plus the number of lost ones. */
  lemma {:induction false} PacketAccounting(s: State, es: seq<Event>)
    requires AwaitingInv(s) && s.counters.live == |s.link.awaiting|
    ensures After(s, es).counters.live == |After(s, es).link.awaiting| + LostOver(s, es)
  {
    if es != [] {
      var before := es[..|es| - 1];
      PacketAccounting(s, before);
      AwaitingInvOverRuns(s, before);
      AccountingKept(After(s, before), es[|es| - 1]);
    }
  }

  const NO_READINGS: Readings := Readings([0, 0, 0, 0], [0, 0, 0, 0], [0, 0, 0, 0], [0, 0, 0, 0])

  /** An input that leaks a packet. */
  lemma LeakHappens()
    ensures var s := Loading([6, 5, 4, 3, 2, 1], EMPTY_STORE, true);
            var e := Receive(Packet(0, 1, 5, 9, PT_OTA_UPDATE_AVAILABLE, [3, 0, 0, 0]),
                             Env(NO_READINGS, false, true, true));
            LeaksPacket(s, e) && Step(s, e).st.counters.live == 1 && Step(s, e).st.link.awaiting == []
  {
    assert FromBytes([3, 0, 0, 0]) == 3;
  }

  // ---- At-most-once handling ------------------------------------------------------------------------------------

  /** An awake node receives a packet addressed to it under a key it has not marked, node-connected responses (type 2)
      aside. */
  predicate HandlesOwn(s: State, e: Event) {
    && e.Receive? && s.power == Awake && e.p.dest == s.link.id && e.p.ptype != 2
    && e.p.key as int !in s.link.processed
  }

  /** Keys of the packets a run handles as its own, in order. */
  function HandledKeys(s: State, es: seq<Event>): (ks: seq<int>) {
    if es == [] then []
    else
      var before := es[..|es| - 1];
      var e := es[|es| - 1];
      HandledKeys(s, before) + if HandlesOwn(After(s, before), e) then [e.p.key as int] else []
  }

  /** Within a boot no mark is ever taken back, and a handled key is marked. */
  lemma MarksGrow(s: State, e: Event)
    requires !e.Reboot?
    ensures s.link.processed <= Step(s, e).st.link.processed
    ensures HandlesOwn(s, e) ==> e.p.key !in s.link.processed && e.p.key in Step(s, e).st.link.processed
    ensures e.Receive? ==> Step(s, e).st.link.processed <= s.link.processed + {e.p.key as int}
  {
    if e.Receive? {
      MarksGrowByReceiving(s, e.p, e.env);
    }
  }

  lemma MarksGrowByReceiving(s: State, p: Packet, env: Env)
    ensures var marks := Received(s, p, env).st.link.processed;
            && s.link.processed <= marks <= s.link.processed + {p.key as int}
            && (HandlesOwn(s, Receive(p, env)) ==> p.key !in s.link.processed && p.key in marks)
  {
    if s.power == Awake && Processes(s, p) {
      ProcessedEffect(s, p, env);
      hide Processed;
    }
  }

  ghost predicate NoRepeats(ks: seq<int>) {
    forall i, j :: 0 <= i < j < |ks| ==> ks[i] != ks[j]
  }

  /** Over a boot each key is handled at most once, whatever happens to the node id in between, hence at most 256
      packets are. */
  lemma {:induction false} AtMostOncePerKey(s: State, es: seq<Event>)
    requires forall e :: e in es ==> !e.Reboot?
    ensures s.link.processed <= After(s, es).link.processed
    ensures forall k :: k in HandledKeys(s, es) ==>
              k in After(s, es).link.processed && k !in s.link.processed && 0 <= k < 0x100
    ensures NoRepeats(HandledKeys(s, es)) && |HandledKeys(s, es)| <= 0x100
  {
    if es != [] {
      var before := es[..|es| - 1];
      AtMostOncePerKey(s, before);
      MarksGrow(After(s, before), es[|es| - 1]);
    }
    DistinctBytes(HandledKeys(s, es));
  }

  lemma {:induction false} DistinctBytes(ks: seq<int>)
    requires NoRepeats(ks) && forall k :: k in ks ==> 0 <= k < 0x100
    ensures |ks| <= 0x100
  {
    var seen := set k | k in ks;
    SizeOfDistinct(ks, seen);
    ByteSetBound(seen);
  }

  lemma {:induction false} SizeOfDistinct(ks: seq<int>, seen: set<int>)
    requires NoRepeats(ks) && seen == set k | k in ks
    ensures |seen| == |ks|
  {
    if ks == [] {
      assert seen == {};
    } else {
      var rest := ks[1..];
      SizeOfDistinct(rest, set k | k in rest);
      assert seen == (set k | k in rest) + {ks[0]};
      assert forall i :: 0 <= i < |rest| ==> rest[i] == ks[i + 1];
    }
  }
}
