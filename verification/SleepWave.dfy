/** How the request to go to sleep spreads. */
module SleepWave {
  import opened Types
  import opened DataPacket
  import opened NodeSpec
  import opened NodeProps
  import opened Network

  // ---- One node -------------------------------------------------------------------------------------------------

  predicate IsSleep(p: Packet) {
    Packable(p) && p.ptype == PT_GO_TO_SLEEP
  }

  /** The one case in which an awake node ignores the request: it is addressed to the node, and the node has marked its
      key already. */
  predicate Ignores(s: State, p: Packet) {
    p.dest == s.link.id && p.key in s.link.processed
  }

  /** Whatever the ttl, an awake node that does not ignore the request sends it twice, unchanged, and leaves. */
  lemma SleepReceived(s: State, p: Packet, env: Env)
    requires AwaitingInv(s) && IsSleep(p)
    ensures var o := Received(s, p, env);
            if s.power == Awake && !Ignores(s, p)
            then o.sent == [p, p] && o.st.power in {DeepSleep, Restarting}
            else o.st.power == s.power && (!s.link.resend ==> o == Out(s, []))
  {
    if s.power == Awake && Processes(s, p) {
      ProcessedSends(s, p, env);
    }
  }

  predicate AwakeAt(net: Net, u: nat) {
    u < |net.nodes| && net.nodes[u].Sensor? && net.nodes[u].st.power == Awake
  }

  // ---- Coverage in any run --------------------------------------------------------------------------------------

  /** An action that neither breaks a link, loses a packet, wakes a node nor stops one in another way than by a request
      to sleep, and is no delivery of a request to a node that ignores it. */
  predicate Calm(net: Net, a: Action)
    requires NetOk(net) && Enabled(net, a)
  {
    match a
    case Deliver(m, env) =>
      AwakeAt(net, m.to) ==>
        if IsSleep(m.p) then !Ignores(net.nodes[m.to].st, m.p)
        else Received(net.nodes[m.to].st, m.p, env).st.power == Awake
    case Local(_, e) => !e.Reboot? && !e.ForcedSleep?
    case FromHub(_, _) => true
    case Relink(_) => false
    case Lose(_) => false
  }

  ghost predicate CalmRun(net: Net, run: seq<Action>)
    requires NetOk(net) && Ran(net, run).Some?
  {
    run == [] || (CalmRun(net, run[..|run| - 1]) && Calm(Ran(net, run[..|run| - 1]).value, run[|run| - 1]))
  }

  /** u was awake and no longer is. */
  predicate Fell(start: Net, net: Net, u: nat) {
    AwakeAt(start, u) && !AwakeAt(net, u)
  }

  ghost predicate RequestUnderWay(net: Net, v: nat) {
    exists m :: m in net.flight && m.to == v && IsSleep(m.p)
  }

  /** Every peer of a node that fell has fallen, was never awake, or has a request under way to it. */
  ghost predicate Spreading(start: Net, net: Net) {
    && NetOk(net) && net.peers == start.peers && |net.nodes| == |start.nodes|
    && (forall u: nat :: AwakeAt(net, u) ==> AwakeAt(start, u))
    && forall u: nat, v: nat :: Fell(start, net, u) && v in start.peers[u] && AwakeAt(net, v) ==>
         RequestUnderWay(net, v)
  }

  lemma AsleepIgnores(s: State, p: Packet, env: Env)
    requires s.power != Awake
    ensures Received(s, p, env) == Out(s, [])
  {
  }

  /** An action that stops no node and takes at most one packet that no awake node was to sleep on. */
  lemma SpreadingKept(start: Net, net: Net, net': Net, taken: Option<Msg>)
    requires Spreading(start, net) && NetOk(net') && net'.peers == net.peers && |net'.nodes| == |net.nodes|
    requires forall u: nat :: AwakeAt(net', u) <==> AwakeAt(net, u)
    requires forall m :: m in net.flight && Some(m) != taken ==> m in net'.flight
    requires taken.Some? ==> !(AwakeAt(net, taken.value.to) && IsSleep(taken.value.p))
    ensures Spreading(start, net')
  {
  }

  /** A node that sleeps on a request has handed it on to every peer. */
  lemma SpreadingGrows(start: Net, net: Net, net': Net, m: Msg)
    requires Spreading(start, net) && NetOk(net') && net'.peers == net.peers && |net'.nodes| == |net.nodes|
    requires AwakeAt(net, m.to) && IsSleep(m.p)
    requires forall u: nat :: AwakeAt(net', u) <==> AwakeAt(net, u) && u != m.to
    requires forall x :: x in net.flight && x != m ==> x in net'.flight
    requires forall v: nat :: v in net.peers[m.to] ==> Msg(v, m.p) in net'.flight
    ensures Spreading(start, net')
  {
  }

  lemma CalmDelivery(start: Net, net: Net, m: Msg, env: Env)
    requires Spreading(start, net) && m in net.flight && Calm(net, Deliver(m, env))
    ensures Spreading(start, Delivered(net, m, env))
  {
    hide Spreading, NetOk, Delivered, Received, Ignores, AwaitingInv;
    SpreadingIsOk(start, net);
    DeliveryOk(net, m, env);
    DeliveryShape(net, m, env);
    if AwakeAt(net, m.to) && IsSleep(m.p) {
      ReceiverAwaits(net, m.to);
      SleepReceived(net.nodes[m.to].st, m.p, env);
      SpreadingGrows(start, net, Delivered(net, m, env), m);
    } else {
      CalmReceiver(net, m, env);
      SpreadingKept(start, net, Delivered(net, m, env), Some(m));
    }
  }

  lemma SpreadingIsOk(start: Net, net: Net)
    requires Spreading(start, net)
    ensures NetOk(net)
  {
  }

  lemma ReceiverAwaits(net: Net, u: nat)
    requires NetOk(net) && AwakeAt(net, u)
    ensures AwaitingInv(net.nodes[u].st)
  {
  }

  /** Any other calm delivery leaves everybody as awake as before. */
  lemma CalmReceiver(net: Net, m: Msg, env: Env)
    requires NetOk(net) && m in net.flight && Calm(net, Deliver(m, env)) && !(AwakeAt(net, m.to) && IsSleep(m.p))
    ensures forall u: nat :: AwakeAt(Delivered(net, m, env), u) <==> AwakeAt(net, u)
  {
    hide NetOk, Delivered, Received, Ignores;
    DeliveryShape(net, m, env);
    if net.nodes[m.to].Sensor? && !AwakeAt(net, m.to) {
      AsleepIgnores(net.nodes[m.to].st, m.p, env);
    }
  }

  lemma CalmOther(start: Net, net: Net, a: Action)
    requires Spreading(start, net) && Enabled(net, a) && Calm(net, a) && !a.Deliver?
    ensures Spreading(start, Apply(net, a))
  {
    NetOkKept(net, a);
    SpreadingKept(start, net, Apply(net, a), None);
  }

  lemma {:induction false} WaveSpreads(start: Net, run: seq<Action>)
    requires NetOk(start) && Ran(start, run).Some? && CalmRun(start, run)
    ensures Spreading(start, Ran(start, run).value)
  {
    if run != [] {
      hide Received, Step, Delivered;
      var before, a := run[..|run| - 1], run[|run| - 1];
      LastAction(start, run);
      WaveSpreads(start, before);
      if a.Deliver? {
        CalmDelivery(start, Ran(start, before).value, a.m, a.env);
      } else {
        CalmOther(start, Ran(start, before).value, a);
      }
    }
  }

  /** A path of nodes that were awake at the start. */
  ghost predicate AwakePath(net: Net, w: seq<nat>) {
    && NetOk(net) && w != [] && (forall i :: 0 <= i < |w| ==> AwakeAt(net, w[i]))
    && forall i :: 0 <= i < |w| - 1 ==> w[i + 1] in net.peers[w[i]]
  }

  /** Once one node of a network without loss has gone to sleep and no request is under way any more, every node a path
      of awake nodes connects to it has gone to sleep, whatever else was sent, answered or timed out meanwhile. */
  lemma {:induction false} SleepWaveCovers(start: Net, run: seq<Action>, w: seq<nat>)
    requires NetOk(start) && Ran(start, run).Some? && CalmRun(start, run)
    requires forall m :: m in Ran(start, run).value.flight ==> !IsSleep(m.p)
    requires AwakePath(start, w) && Fell(start, Ran(start, run).value, w[0])
    ensures forall i :: 0 <= i < |w| ==> Fell(start, Ran(start, run).value, w[i])
  {
    hide Ran;
    WaveSpreads(start, run);
    if |w| > 1 {
      SleepWaveCovers(start, run, w[..|w| - 1]);
      assert Fell(start, Ran(start, run).value, w[|w| - 2]) && w[|w| - 2 + 1] in start.peers[w[|w| - 2]];
    }
  }

  // ---- The wave alone is exact ----------------------------------------------------------------------------------

  /** Copies of one request to sleep and nothing else are under way. */
  ghost predicate OnlyWave(net: Net, p: Packet) {
    && NetOk(net) && |net.peers| == |net.nodes| && NoResendPending(net) && IsSleep(p)
    && forall m :: m in net.flight ==> m.p == p && m.to < |net.nodes|
  }

  predicate Yields(net: Net, p: Packet, u: nat) {
    AwakeAt(net, u) && !Ignores(net.nodes[u].st, p)
  }

  /** A path from a node the request is under way to, along nodes that do not ignore it. */
  ghost predicate WavePath(net: Net, p: Packet, w: seq<nat>)
    requires |net.peers| == |net.nodes|
  {
    && w != [] && Yields(net, p, w[|w| - 1])
    && if |w| == 1 then Msg(w[0], p) in net.flight
       else WavePath(net, p, w[..|w| - 1]) && w[|w| - 1] in net.peers[w[|w| - 2]]
  }

  ghost predicate Reached(net: Net, p: Packet, v: nat)
    requires |net.peers| == |net.nodes|
  {
    exists w :: WavePath(net, p, w) && w[|w| - 1] == v
  }

  /** The request was sent to v at some point. */
  ghost predicate Targeted(start: Net, p: Packet, net: Net, v: nat)
    requires |start.peers| == |start.nodes|
  {
    Msg(v, p) in start.flight || exists u: nat :: Fell(start, net, u) && v in start.peers[u]
  }

  /** Nodes that have not fallen are as they were. */
  ghost predicate OthersUntouched(start: Net, net: Net) {
    && net.peers == start.peers && |net.nodes| == |start.nodes| == |start.peers|
    && forall u: nat :: u < |net.nodes| && !Fell(start, net, u) ==> net.nodes[u] == start.nodes[u]
  }

  /** Only nodes on a wave path have fallen. */
  ghost predicate FallsReached(start: Net, p: Packet, net: Net)
    requires |start.peers| == |start.nodes|
  {
    forall u: nat :: Fell(start, net, u) ==> Reached(start, p, u)
  }

  /** Whoever was sent the request and does not ignore it has fallen or still has it under way. */
  ghost predicate TargetsServed(start: Net, p: Packet, net: Net)
    requires |start.peers| == |start.nodes|
  {
    && (forall m :: m in net.flight ==> Targeted(start, p, net, m.to))
    && forall v: nat :: Targeted(start, p, net, v) && Yields(start, p, v) ==>
         Fell(start, net, v) || Msg(v, p) in net.flight
  }

  ghost predicate Wave(start: Net, p: Packet, net: Net) {
    OnlyWave(net, p) && OthersUntouched(start, net) && FallsReached(start, p, net) && TargetsServed(start, p, net)
  }

  lemma TargetIsReached(start: Net, p: Packet, net: Net, v: nat)
    requires |start.peers| == |start.nodes| && FallsReached(start, p, net)
    requires Targeted(start, p, net, v) && Yields(start, p, v)
    ensures Reached(start, p, v)
  {
    if Msg(v, p) in start.flight {
      assert WavePath(start, p, [v]);
    } else {
      var u: nat :| Fell(start, net, u) && v in start.peers[u];
      var w :| WavePath(start, p, w) && w[|w| - 1] == u;
      PathExtends(start, p, w, v);
    }
  }

  lemma PathExtends(start: Net, p: Packet, w: seq<nat>, v: nat)
    requires |start.peers| == |start.nodes| && WavePath(start, p, w)
    requires v in start.peers[w[|w| - 1]] && Yields(start, p, v)
    ensures Reached(start, p, v)
  {
    var longer := w + [v];
    assert longer[..|longer| - 1] == w;
    assert WavePath(start, p, longer);
  }

  /** One delivery of the wave: the receiver falls and hands the request on, or nothing but the flight changes. */
  lemma WaveDelivered(net: Net, p: Packet, m: Msg, env: Env)
    requires OnlyWave(net, p) && m in net.flight
    ensures var after := Delivered(net, m, env);
            && after.peers == net.peers && |after.nodes| == |net.nodes|
            && (forall u: nat :: u < |net.nodes| && u != m.to ==> after.nodes[u] == net.nodes[u])
            && (Yields(net, p, m.to) ==>
                  !AwakeAt(after, m.to)
                  && after.flight == net.flight - multiset{m} + Broadcast([p, p], net.peers[m.to]))
            && (!Yields(net, p, m.to) ==> after.nodes == net.nodes && after.flight == net.flight - multiset{m})
  {
    hide Received;
    WaveReceived(net, p, m, env);
  }

  lemma WaveReceived(net: Net, p: Packet, m: Msg, env: Env)
    requires OnlyWave(net, p) && m in net.flight
    ensures m.p == p && m.to < |net.nodes| == |net.peers|
    ensures net.nodes[m.to].Sensor? ==>
              var s := net.nodes[m.to].st;
              var o := Received(s, m.p, env);
              if Yields(net, p, m.to) then o.sent == [p, p] && o.st.power != Awake else o == Out(s, [])
  {
    if net.nodes[m.to].Sensor? {
      hide Received, Ignores;
      SleepReceived(net.nodes[m.to].st, p, env);
    }
  }

  lemma WaveStaysAlone(net: Net, p: Packet, m: Msg, env: Env)
    requires OnlyWave(net, p) && m in net.flight
    ensures OnlyWave(Delivered(net, m, env), p)
  {
    hide Received;
    DeliveryOk(net, m, env);
    if net.nodes[m.to].Sensor? {
      var s := net.nodes[m.to].st;
      SleepReceived(s, p, env);
      SleptKeepsFlag(s, p, env);
      if s.power != Awake {
        AsleepIgnores(s, p, env);
      }
      BroadcastMembers(Received(s, p, env).sent, net.peers[m.to]);
    }
  }

  lemma SleptKeepsFlag(s: State, p: Packet, env: Env)
    requires AwaitingInv(s) && IsSleep(p) && !s.link.resend
    ensures !Received(s, p, env).st.link.resend
  {
  }

  lemma StepFalls(start: Net, p: Packet, net: Net, m: Msg, env: Env)
    requires Wave(start, p, net) && m in net.flight
    ensures var after := Delivered(net, m, env);
            && OthersUntouched(start, after) && FallsReached(start, p, after)
            && (forall u: nat :: Fell(start, after, u) <==> Fell(start, net, u) || (u == m.to && Yields(net, p, u)))
            && (Yields(net, p, m.to) ==> Yields(start, p, m.to))
  {
    hide Delivered;
    WaveDelivered(net, p, m, env);
    if Yields(net, p, m.to) {
      assert !Fell(start, net, m.to);
      assert net.nodes[m.to] == start.nodes[m.to];
      TargetIsReached(start, p, net, m.to);
    }
  }

  lemma StepServes(start: Net, p: Packet, net: Net, after: Net, m: Msg)
    requires |start.peers| == |start.nodes| && TargetsServed(start, p, net) && m in net.flight && m.p == p
    requires forall u: nat :: Fell(start, after, u) <==> Fell(start, net, u) || (u == m.to && Yields(net, p, u))
    requires Yields(start, p, m.to) && !Fell(start, net, m.to) ==> Yields(net, p, m.to)
    requires Yields(net, p, m.to) ==> AwakeAt(start, m.to)
    requires forall x :: x in after.flight ==> x in net.flight || (Yields(net, p, m.to) && x.to in start.peers[m.to])
    requires forall x :: x in net.flight && x != m ==> x in after.flight
    requires Yields(net, p, m.to) ==> forall v :: v in start.peers[m.to] ==> Msg(v, p) in after.flight
    ensures TargetsServed(start, p, after)
  {
  }

  /** What one delivery does to the copies under way. */
  lemma StepFlight(start: Net, p: Packet, net: Net, m: Msg, env: Env)
    requires OnlyWave(net, p) && OthersUntouched(start, net) && m in net.flight
    ensures var after := Delivered(net, m, env);
            && |start.peers| == |start.nodes| && m.p == p
            && (Yields(start, p, m.to) && !Fell(start, net, m.to) ==> Yields(net, p, m.to))
            && (Yields(net, p, m.to) ==> AwakeAt(start, m.to))
            && (forall x :: x in after.flight ==>
                  x in net.flight || (Yields(net, p, m.to) && x.to in start.peers[m.to]))
            && (forall x :: x in net.flight && x != m ==> x in after.flight)
            && (Yields(net, p, m.to) ==> forall v :: v in start.peers[m.to] ==> Msg(v, p) in after.flight)
  {
    hide Delivered, NetOk, Broadcast, Fell, Yields, OthersUntouched;
    WaveRoles(start, p, net, m);
    WaveDelivered(net, p, m, env);
    BroadcastMembers([p, p], net.peers[m.to]);
    FlightAfter(net.flight, m, Broadcast([p, p], net.peers[m.to]));
  }

  lemma WaveRoles(start: Net, p: Packet, net: Net, m: Msg)
    requires OnlyWave(net, p) && OthersUntouched(start, net) && m in net.flight
    ensures |start.peers| == |start.nodes| && m.p == p && net.peers == start.peers && m.to < |start.peers|
    ensures Yields(start, p, m.to) && !Fell(start, net, m.to) ==> Yields(net, p, m.to)
    ensures Yields(net, p, m.to) ==> AwakeAt(start, m.to)
  {
  }

  lemma FlightAfter(flight: multiset<Msg>, m: Msg, sent: multiset<Msg>)
    requires m in flight
    ensures forall x :: x in flight - multiset{m} ==> x in flight
    ensures forall x :: x in flight - multiset{m} + sent ==> x in flight || x in sent
    ensures forall x :: x in flight && x != m ==> x in flight - multiset{m} && x in flight - multiset{m} + sent
    ensures forall x :: x in sent ==> x in flight - multiset{m} + sent
  {
  }

  lemma WaveStep(start: Net, p: Packet, net: Net, m: Msg, env: Env)
    requires Wave(start, p, net) && m in net.flight
    ensures Wave(start, p, Delivered(net, m, env))
  {
    hide Delivered, FallsReached, TargetsServed, OthersUntouched, Fell, Yields;
    StepFlight(start, p, net, m, env);
    WaveStaysAlone(net, p, m, env);
    StepFalls(start, p, net, m, env);
    StepServes(start, p, net, Delivered(net, m, env), m);
  }

  lemma WaveBegins(net: Net, p: Packet)
    requires OnlyWave(net, p)
    ensures Wave(net, p, net)
  {
  }

  lemma {:induction false} WaveRuns(start: Net, p: Packet, run: seq<Action>)
    requires OnlyWave(start, p) && Ran(start, run).Some? && forall a :: a in run ==> a.Deliver?
    ensures Wave(start, p, Ran(start, run).value)
  {
    if run == [] {
      WaveBegins(start, p);
    } else {
      hide Delivered;
      LastAction(start, run);
      WaveRuns(start, p, run[..|run| - 1]);
      WaveStep(start, p, Ran(start, run[..|run| - 1]).value, run[|run| - 1].m, run[|run| - 1].env);
    }
  }

  lemma {:induction false} PathFalls(start: Net, p: Packet, net: Net, w: seq<nat>)
    requires |start.peers| == |start.nodes| && TargetsServed(start, p, net) && net.flight == multiset{}
    requires WavePath(start, p, w)
    ensures Fell(start, net, w[|w| - 1])
  {
    if |w| == 1 {
      assert Targeted(start, p, net, w[0]);
    } else {
      PathFalls(start, p, net, w[..|w| - 1]);
      assert Fell(start, net, w[|w| - 2]) && w[|w| - 1] in start.peers[w[|w| - 2]];
    }
  }

  /** When the wave is over, exactly the nodes on a path along which nobody ignores the request have gone to sleep; the
      ttl plays no part. */
  lemma WaveIsExact(start: Net, p: Packet, run: seq<Action>, v: nat)
    requires OnlyWave(start, p) && Ran(start, run).Some? && forall a :: a in run ==> a.Deliver?
    requires Ran(start, run).value.flight == multiset{}
    ensures Fell(start, Ran(start, run).value, v) <==> Reached(start, p, v)
  {
    hide Ran;
    WaveRuns(start, p, run);
    if Reached(start, p, v) {
      var w :| WavePath(start, p, w) && w[|w| - 1] == v;
      PathFalls(start, p, Ran(start, run).value, w);
    }
  }

  /** A path of awake nodes from where the request is under way, ignored or not. */
  ghost predicate Near(net: Net, p: Packet, w: seq<nat>) {
    AwakePath(net, w) && Msg(w[0], p) in net.flight
  }

  lemma {:induction false} NearIsWavePath(net: Net, p: Packet, w: seq<nat>)
    requires OnlyWave(net, p) && Near(net, p, w)
    requires forall x :: Near(net, p, x) ==> !Ignores(net.nodes[x[|x| - 1]].st, p)
    ensures WavePath(net, p, w)
  {
    if |w| > 1 {
      assert Near(net, p, w[..|w| - 1]);
      NearIsWavePath(net, p, w[..|w| - 1]);
      assert w[|w| - 2 + 1] in net.peers[w[|w| - 2]];
    }
  }

  /** All awake nodes connected to the wave go to sleep exactly when none of them ignores the request, which can be told
      from the states before it starts. */
  lemma WholeComponentSleepsIffNoneIgnores(start: Net, p: Packet, run: seq<Action>)
    requires OnlyWave(start, p) && Ran(start, run).Some? && forall a :: a in run ==> a.Deliver?
    requires Ran(start, run).value.flight == multiset{}
    ensures (forall w :: Near(start, p, w) ==> Fell(start, Ran(start, run).value, w[|w| - 1]))
       <==> (forall w :: Near(start, p, w) ==> !Ignores(start.nodes[w[|w| - 1]].st, p))
  {
    hide Ran;
    var net := Ran(start, run).value;
    forall w | Near(start, p, w) && Fell(start, net, w[|w| - 1]) ensures !Ignores(start.nodes[w[|w| - 1]].st, p) {
      WaveIsExact(start, p, run, w[|w| - 1]);
    }
    if forall w :: Near(start, p, w) ==> !Ignores(start.nodes[w[|w| - 1]].st, p) {
      forall w | Near(start, p, w) ensures Fell(start, net, w[|w| - 1]) {
        NearIsWavePath(start, p, w);
        WaveIsExact(start, p, run, w[|w| - 1]);
      }
    }
  }

  // ---- What the wave costs --------------------------------------------------------------------------------------

  /** The sum of w over the nodes below n that fell. */
  function OverFallen(start: Net, net: Net, w: seq<nat>, n: nat): nat
    requires n <= |w|
  {
    if n == 0 then 0
    else OverFallen(start, net, w, n - 1) + if Fell(start, net, n - 1) then w[n - 1] else 0
  }

  lemma {:induction false} NoneFell(start: Net, w: seq<nat>, n: nat)
    requires n <= |w|
    ensures OverFallen(start, start, w, n) == 0
  {
    if n > 0 {
      NoneFell(start, w, n - 1);
    }
  }

  /** At most one more node fell. */
  lemma {:induction false} OneMoreFell(start: Net, net: Net, net': Net, w: seq<nat>, u: nat, n: nat)
    requires n <= |w| && (Fell(start, net, u) ==> Fell(start, net', u))
    requires forall x: nat :: x != u ==> (Fell(start, net', x) <==> Fell(start, net, x))
    ensures OverFallen(start, net', w, n) == OverFallen(start, net, w, n)
            + if u < n && Fell(start, net', u) && !Fell(start, net, u) then w[u] else 0
  {
    if n > 0 {
      OneMoreFell(start, net, net', w, u, n - 1);
    }
  }

  /** Two copies to every peer. */
  function TwicePeers(net: Net): seq<nat> {
    seq(|net.peers|, u requires 0 <= u < |net.peers| => 2 * |net.peers[u]|)
  }

  /** Two copies to v for every link to it. */
  function TwiceLinks(net: Net, v: nat): seq<nat> {
    seq(|net.peers|, u requires 0 <= u < |net.peers| => 2 * multiset(net.peers[u])[v])
  }

  lemma {:induction false} CopiesSize(p: Packet, to: seq<nat>)
    ensures |Copies(p, to)| == |to|
  {
    if to != [] {
      CopiesSize(p, to[1..]);
    }
  }

  lemma TwoCopies(p: Packet, to: seq<nat>, v: nat)
    ensures |Broadcast([p, p], to)| == 2 * |to| && Broadcast([p, p], to)[Msg(v, p)] == 2 * multiset(to)[v]
  {
    CopiesSize(p, to);
    CopiesCount(p, to, Msg(v, p));
    assert [p, p][1..] == [p] && [p][1..] == [];
    assert Broadcast([p], to) == Copies(p, to) + Broadcast([], to);
    assert Broadcast([p, p], to) == Copies(p, to) + Broadcast([p], to);
  }

  /** What one delivery sends, in all and to v. */
  lemma WaveStepCost(start: Net, p: Packet, net: Net, m: Msg, env: Env, v: nat)
    requires OnlyWave(net, p) && OthersUntouched(start, net) && m in net.flight
    ensures var after, n := Delivered(net, m, env), |start.peers|;
            && |after.flight| + 1 + OverFallen(start, net, TwicePeers(start), n)
               == |net.flight| + OverFallen(start, after, TwicePeers(start), n)
            && (multiset{m} + after.flight)[Msg(v, p)] + OverFallen(start, net, TwiceLinks(start, v), n)
               == net.flight[Msg(v, p)] + OverFallen(start, after, TwiceLinks(start, v), n)
  {
    hide Delivered;
    var after := Delivered(net, m, env);
    WaveDelivered(net, p, m, env);
    OneMoreFell(start, net, after, TwicePeers(start), m.to, |start.peers|);
    OneMoreFell(start, net, after, TwiceLinks(start, v), m.to, |start.peers|);
    if Yields(net, p, m.to) {
      TwoCopies(p, net.peers[m.to], v);
    }
  }

  /** In all, two copies were sent for every peer of every node that went to sleep. */
  lemma {:induction false} TwoCopiesInAll(start: Net, p: Packet, run: seq<Action>)
    requires OnlyWave(start, p) && Ran(start, run).Some? && forall a :: a in run ==> a.Deliver?
    ensures var net := Ran(start, run).value;
            |run| + |net.flight| == |start.flight| + OverFallen(start, net, TwicePeers(start), |start.peers|)
  {
    if run == [] {
      NoneFell(start, TwicePeers(start), |start.peers|);
    } else {
      hide Delivered, OnlyWave, Wave, OverFallen;
      var before, a := run[..|run| - 1], run[|run| - 1];
      LastAction(start, run);
      TwoCopiesInAll(start, p, before);
      WaveRuns(start, p, before);
      WaveStateOk(start, p, Ran(start, before).value);
      WaveStepCost(start, p, Ran(start, before).value, a.m, a.env, 0);
    }
  }

  /** Each node v is sent, besides what was under way to it at first, exactly two copies over each link from each node
      that goes to sleep, and nobody else sends it any. */
  lemma {:induction false} TwoCopiesPerPeer(start: Net, p: Packet, run: seq<Action>, v: nat)
    requires OnlyWave(start, p) && Ran(start, run).Some? && forall a :: a in run ==> a.Deliver?
    ensures var net := Ran(start, run).value;
            Log(run)[Msg(v, p)] + net.flight[Msg(v, p)]
            == start.flight[Msg(v, p)] + OverFallen(start, net, TwiceLinks(start, v), |start.peers|)
  {
    if run == [] {
      NoneFell(start, TwiceLinks(start, v), |start.peers|);
    } else {
      hide Delivered, OnlyWave, Wave, OverFallen;
      var before, a := run[..|run| - 1], run[|run| - 1];
      LastAction(start, run);
      TwoCopiesPerPeer(start, p, before, v);
      WaveRuns(start, p, before);
      WaveStateOk(start, p, Ran(start, before).value);
      WaveStepCost(start, p, Ran(start, before).value, a.m, a.env, v);
    }
  }

  lemma WaveStateOk(start: Net, p: Packet, net: Net)
    requires Wave(start, p, net)
    ensures OnlyWave(net, p) && OthersUntouched(start, net)
  {
  }

  // ---- Who ignores a request ------------------------------------------------------------------------------------

  /** A node that has handled a packet of its own ignores a request to sleep that is sent to its id under the same key,
      as long as it has that id. */
  lemma HandledKeyIsIgnored(s: State, q: Packet, p: Packet, env: Env)
    requires HandlesOwn(s, Receive(q, env)) && AwaitingInv(s)
    requires p.dest == q.dest && p.key == q.key
    ensures Ignores(Received(s, q, env).st, p)
  {
    HandledAwaiting(s, q, env);
    ProcessedEffect(s, q, env);
    ResendSends(Handled(s, q, env).st);
  }

  /** Such a node can be reached: it has answered a data request under key 9 and stays awake through a request to sleep
      under that key, which it passes on to nobody. */
  lemma IgnoringNodeExists()
    ensures var s := Loading([6, 5, 4, 3, 2, 1], EMPTY_STORE, true);
            var env := Env(NO_READINGS, true, true, true);
            var s1 := Received(s, Packet(0, 1, 5, 9, 10, [0]), env).st;
            var p := Packet(0, 1, 5, 9, PT_GO_TO_SLEEP, [0]);
            s1.power == Awake && IsSleep(p) && Ignores(s1, p) && Received(s1, p, env) == Out(s1, [])
  {
    var s := Loading([6, 5, 4, 3, 2, 1], EMPTY_STORE, true);
    var env := Env(NO_READINGS, true, true, true);
    var q, p := Packet(0, 1, 5, 9, 10, [0]), Packet(0, 1, 5, 9, PT_GO_TO_SLEEP, [0]);
    HandledKeyIsIgnored(s, q, p, env);
  }
}
