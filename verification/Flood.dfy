/** How far one flooded packet reaches in a static network without loss, and what it costs. */
module Flood {
  import opened Types
  import opened DataPacket
  import opened NodeSpec
  import opened NodeProps
  import opened Network
  import opened Termination

  /** Packets that are flooded: the responses to unprovisioned nodes and the sleep wave follow rules of their own. */
  predicate Flooded(p: Packet) {
    Packable(p) && p.ptype != PT_NODE_CONNECTED_RESP && p.ptype != PT_GO_TO_SLEEP
  }

  /** The copy of p with remaining ttl t. */
  function Copy(p: Packet, t: uint8): Packet {
    p.(ttl := t)
  }

  /** Participant u passes p on while there is ttl left. */
  predicate Forwards(net: Net, p: Packet, u: nat) {
    u < |net.nodes| && net.nodes[u].Sensor? && net.nodes[u].st.power == Awake && net.nodes[u].st.link.id != p.dest
  }

  /** Participant o has just handed p to all its peers. */
  ghost predicate Started(net: Net, p: Packet, o: nat) {
    && NetOk(net) && NoResendPending(net) && Flooded(p) && o < |net.nodes| && net.flight == Copies(p, net.peers[o])
  }

  // ---- Walks ----------------------------------------------------------------------------------------------------

  function LinksTo(net: Net, u: nat, v: nat): nat
    requires u < |net.peers|
  {
    multiset(net.peers[u])[v]
  }

  /** The number of walks of length k from o to v whose inner nodes all forward p. */
  function Walks(net: Net, p: Packet, o: nat, v: nat, k: nat): nat
    requires o < |net.peers| == |net.nodes|
    decreases k, 0
  {
    if k == 0 then 0
    else if k == 1 then LinksTo(net, o, v)
    else WalksThrough(net, p, o, v, k, |net.nodes|)
  }

  /** Those whose last inner node is below n. */
  function WalksThrough(net: Net, p: Packet, o: nat, v: nat, k: nat, n: nat): nat
    requires o < |net.peers| == |net.nodes| && n <= |net.nodes| && k > 1
    decreases k - 1, n + 1
  {
    if n == 0 then 0
    else WalksThrough(net, p, o, v, k, n - 1)
         + if Forwards(net, p, n - 1) then LinksTo(net, n - 1, v) * Walks(net, p, o, n - 1, k - 1) else 0
  }

  /** An explicit walk: each node is in the previous one's peer list and all inner nodes forward. */
  ghost predicate IsWalk(net: Net, p: Packet, w: seq<nat>) {
    && |net.peers| == |net.nodes| && |w| >= 2
    && (forall i :: 0 <= i < |w| - 1 ==> w[i] < |net.nodes| && w[i + 1] in net.peers[w[i]])
    && (forall i :: 0 < i < |w| - 1 ==> Forwards(net, p, w[i]))
  }

  lemma PositiveProduct(a: nat, b: nat)
    ensures a * b > 0 <==> a > 0 && b > 0
  {
  }

  /** A summand that is not zero makes the sum so, and conversely. */
  lemma {:induction false} WalksThroughPositive(net: Net, p: Packet, o: nat, v: nat, k: nat, n: nat)
    requires o < |net.peers| == |net.nodes| && n <= |net.nodes| && k > 1
    ensures WalksThrough(net, p, o, v, k, n) > 0 <==>
              exists u: nat :: u < n && Forwards(net, p, u) && v in net.peers[u] && Walks(net, p, o, u, k - 1) > 0
  {
    if n > 0 {
      WalksThroughPositive(net, p, o, v, k, n - 1);
      PositiveProduct(LinksTo(net, n - 1, v), Walks(net, p, o, n - 1, k - 1));
    }
  }

  /** The count is positive exactly when there is such a walk. */
  lemma {:induction false} WalksExist(net: Net, p: Packet, o: nat, v: nat, k: nat)
    requires o < |net.peers| == |net.nodes|
    ensures Walks(net, p, o, v, k) > 0 <==> exists w :: IsWalk(net, p, w) && |w| == k + 1 && w[0] == o && w[k] == v
    decreases k
  {
    if k == 1 {
      if Walks(net, p, o, v, 1) > 0 {
        assert IsWalk(net, p, [o, v]);
      }
    } else if k > 1 {
      WalksThroughPositive(net, p, o, v, k, |net.nodes|);
      if Walks(net, p, o, v, k) > 0 {
        var u: nat :| u < |net.nodes| && Forwards(net, p, u) && v in net.peers[u] && Walks(net, p, o, u, k - 1) > 0;
        WalksExist(net, p, o, u, k - 1);
        var w :| IsWalk(net, p, w) && |w| == k && w[0] == o && w[k - 1] == u;
        assert IsWalk(net, p, w + [v]);
      }
      if w :| IsWalk(net, p, w) && |w| == k + 1 && w[0] == o && w[k] == v {
        WalksExist(net, p, o, w[k - 1], k - 1);
        assert IsWalk(net, p, w[..k]);
        assert Forwards(net, p, w[k - 1]) && w[k - 1 + 1] in net.peers[w[k - 1]];
      }
    }
  }

  // ---- One delivery ---------------------------------------------------------------------------------------------

  /** What is under way during the flood of p: copies of p, and replies to it for the hub, which nobody answers. */
  predicate OfFlood(p: Packet, q: Packet) {
    Flooded(q) && if q.ptype == p.ptype then q == Copy(p, q.ttl) && q.ttl <= p.ttl
                  else HandlerOf(q.ptype) == None && q.ptype < NUM_PACKET_TYPES && q.dest == HUB_NODE_ID
  }

  /** Receiving a packet of the flood: forwarders pass copies on and stay as they are; nobody changes its id, and a node
      only stops being awake over a packet addressed to it. */
  lemma FloodReceive(s: State, p: Packet, q: Packet, env: Env)
    requires AwaitingInv(s) && !s.link.resend && OfFlood(p, q)
    ensures var o := Received(s, q, env);
            && o.st.link.id == s.link.id && !o.st.link.resend
            && (s.power != Awake || s.link.id != p.dest || q.ptype != p.ptype ==> o.st.power == s.power)
            && (s.power == Awake && s.link.id != q.dest ==>
                  o.sent == if q.ttl > 0 then [Copy(q, q.ttl - 1)] else [])
            && (s.power != Awake ==> o.sent == [])
            && forall r :: r in o.sent ==> OfFlood(p, r) && (s.link.id == q.dest ==> r.ptype != p.ptype)
  {
    if s.power == Awake {
      FloodHandled(s, p, q, env);
      hide Handled, OfFlood, Flooded;
    }
  }

  lemma FloodHandled(s: State, p: Packet, q: Packet, env: Env)
    requires !s.link.resend && OfFlood(p, q) && s.power == Awake
    ensures var o := Handled(s, q, env);
            && o.st.link.id == s.link.id && !o.st.link.resend
            && (s.link.id != p.dest || q.ptype != p.ptype ==> o.st.power == Awake)
            && (s.link.id != q.dest ==> o.sent == if q.ttl > 0 then [Copy(q, q.ttl - 1)] else [])
            && forall r :: r in o.sent ==> OfFlood(p, r) && (s.link.id == q.dest ==> r.ptype != p.ptype)
  {
    if Processes(s, q) {
      ProcessedSends(s, q, env);
      ProcessedEffect(s, q, env);
      hide Processed;
    }
  }

  // ---- Conservation ---------------------------------------------------------------------------------------------

  /** Copies with remaining ttl t that forwarders below n sent to v, given what was delivered. */
  function Inflow(net: Net, p: Packet, v: nat, t: nat, log: multiset<Msg>, n: nat): nat
    requires n <= |net.peers| && t < 0xff
  {
    if n == 0 then 0
    else Inflow(net, p, v, t, log, n - 1)
         + if Forwards(net, p, n - 1) then LinksTo(net, n - 1, v) * log[Msg(n - 1, Copy(p, t + 1))] else 0
  }

  /** Copies with remaining ttl t ever sent to v: the originator's for the initial ttl, else what was forwarded. */
  function Created(net: Net, p: Packet, o: nat, v: nat, t: nat, log: multiset<Msg>): nat
    requires o < |net.peers| && t <= p.ttl
  {
    if t == p.ttl then LinksTo(net, o, v) else Inflow(net, p, v, t, log, |net.peers|)
  }

  /** Delivering one more message adds to the inflow exactly if it is a copy with one more hop left, at a forwarder. */
  lemma {:induction false} InflowStep(net: Net, p: Packet, v: nat, t: nat, log: multiset<Msg>, m: Msg, n: nat)
    requires n <= |net.peers| && t < 0xff
    ensures Inflow(net, p, v, t, log + multiset{m}, n) == Inflow(net, p, v, t, log, n) +
              if m.to < n && m.p == Copy(p, t + 1) && Forwards(net, p, m.to) then LinksTo(net, m.to, v) else 0
  {
    if n > 0 {
      InflowStep(net, p, v, t, log, m, n - 1);
      hide Forwards, LinksTo;
      OneMoreLogged(log, m, Msg(n - 1, Copy(p, t + 1)), LinksTo(net, n - 1, v));
    }
  }

  lemma OneMoreLogged(log: multiset<Msg>, m: Msg, x: Msg, c: nat)
    ensures c * (log + multiset{m})[x] == c * log[x] + if m == x then c else 0
  {
    if m == x {
      assert (log + multiset{m})[x] == log[x] + 1;
      OneMore(log[x], c);
    } else {
      assert (log + multiset{m})[x] == log[x];
    }
  }

  lemma BroadcastAtMostOne(sent: seq<Packet>, to: seq<nat>, m: Msg)
    requires |sent| <= 1
    ensures Broadcast(sent, to)[m] == if sent != [] && m.p == sent[0] then multiset(to)[m.to] else 0
  {
    if sent != [] {
      assert sent[1..] == [];
      CopiesCount(sent[0], to, m);
    }
  }

  lemma BroadcastOthers(sent: seq<Packet>, to: seq<nat>, m: Msg)
    requires m.p !in sent
    ensures Broadcast(sent, to)[m] == 0
  {
    BroadcastMembers(sent, to);
  }

  /** Nothing but the flood of p is under way. */
  ghost predicate OnlyFlood(net: Net, p: Packet) {
    NetOk(net) && NoResendPending(net) && Flooded(p) && forall m :: m in net.flight ==> OfFlood(p, m.p)
  }

  /** What holds between the deliveries of a flood. */
  ghost predicate Flooding(start: Net, p: Packet, o: nat, net: Net, log: multiset<Msg>)
    requires o < |start.peers|
  {
    && OnlyFlood(net, p) && net.peers == start.peers && |net.nodes| == |start.nodes|
    && (forall u :: Forwards(net, p, u) <==> Forwards(start, p, u))
    && forall v: nat, t: nat :: t <= p.ttl ==>
         log[Msg(v, Copy(p, t))] + net.flight[Msg(v, Copy(p, t))] == Created(start, p, o, v, t, log)
  }

  lemma {:induction false} NoInflowYet(net: Net, p: Packet, v: nat, t: nat, n: nat)
    requires n <= |net.peers| && t < 0xff
    ensures Inflow(net, p, v, t, multiset{}, n) == 0
  {
    if n > 0 {
      NoInflowYet(net, p, v, t, n - 1);
    }
  }

  lemma FloodStarts(net: Net, p: Packet, o: nat)
    requires Started(net, p, o)
    ensures Flooding(net, p, o, net, multiset{})
  {
    CopiesMembers(p, net.peers[o]);
    forall v: nat, t: nat | t <= p.ttl
      ensures net.flight[Msg(v, Copy(p, t))] == Created(net, p, o, v, t, multiset{})
    {
      CopiesCount(p, net.peers[o], Msg(v, Copy(p, t)));
      if t < p.ttl {
        NoInflowYet(net, p, v, t, |net.peers|);
      }
    }
  }

  /** A delivery moves one message to the log and pays for what it sends. */
  lemma DeliveryConserves(start: Net, p: Packet, o: nat, net: Net, log: multiset<Msg>, m: Msg, env: Env, v: nat, t: nat)
    requires o < |start.peers| && Flooding(start, p, o, net, log) && m in net.flight && t <= p.ttl
    ensures var x := Msg(v, Copy(p, t));
            (log + multiset{m})[x] + Delivered(net, m, env).flight[x] == Created(start, p, o, v, t, log + multiset{m})
  {
    hide Received, NetOk, Flooded;
    var x := Msg(v, Copy(p, t));
    if t < p.ttl {
      InflowStep(start, p, v, t, log, m, |start.peers|);
    }
    SensorsAwait(net);
    TakenOk(net, m);
    assert log[x] + net.flight[x] == Created(start, p, o, v, t, log);
    assert (log + multiset{m})[x] + (net.flight - multiset{m})[x] == log[x] + net.flight[x];
    if net.nodes[m.to].Sensor? {
      var s := net.nodes[m.to].st;
      var sent := Received(s, m.p, env).sent;
      FloodReceive(s, p, m.p, env);
      if Forwards(net, p, m.to) && m.p.ptype == p.ptype {
        BroadcastAtMostOne(sent, net.peers[m.to], x);
      } else {
        assert x.p !in sent;
        BroadcastOthers(sent, net.peers[m.to], x);
      }
    }
  }

  lemma DeliveryKeepsRoles(net: Net, p: Packet, m: Msg, env: Env)
    requires OnlyFlood(net, p) && m in net.flight
    ensures var after := Delivered(net, m, env);
            && OnlyFlood(after, p) && (forall u :: Forwards(after, p, u) <==> Forwards(net, p, u))
            && after.peers == net.peers && |after.nodes| == |net.nodes|
  {
    hide Received, Delivered, NetOk, OfFlood, Flooded, AwaitingInv;
    DeliveryOk(net, m, env);
    DeliveryShape(net, m, env);
    if net.nodes[m.to].Sensor? {
      SensorsAwait(net);
      FloodReceive(net.nodes[m.to].st, p, m.p, env);
      KeepsForwarding(net.nodes[m.to].st, p, m.p, env);
    }
  }

  lemma SensorsAwait(net: Net)
    requires NetOk(net)
    ensures |net.peers| == |net.nodes|
    ensures forall i :: 0 <= i < |net.nodes| && net.nodes[i].Sensor? ==> AwaitingInv(net.nodes[i].st)
  {
  }

  /** Receiving makes nobody a forwarder and none stop being one. */
  lemma KeepsForwarding(s: State, p: Packet, q: Packet, env: Env)
    requires AwaitingInv(s) && !s.link.resend && OfFlood(p, q)
    ensures var s' := Received(s, q, env).st;
            s'.power == Awake && s'.link.id != p.dest <==> s.power == Awake && s.link.id != p.dest
  {
    FloodReceive(s, p, q, env);
  }

  /** Over the whole flood every copy ever sent is either delivered or still under way. */
  lemma {:induction false} FloodConserves(start: Net, p: Packet, o: nat, run: seq<Action>)
    requires Started(start, p, o) && Ran(start, run).Some? && forall a :: a in run ==> a.Deliver?
    ensures Flooding(start, p, o, Ran(start, run).value, Log(run))
  {
    hide Flooding, Delivered, NetOk, NoResendPending, Flooded, Copies;
    SensorsAwait(start);
    if run == [] {
      FloodStarts(start, p, o);
    } else {
      var before, a := run[..|run| - 1], run[|run| - 1];
      LastAction(start, run);
      FloodConserves(start, p, o, before);
      FloodGoesOn(start, p, o, Ran(start, before).value, Log(before), a.m, a.env);
    }
  }

  lemma FloodGoesOn(start: Net, p: Packet, o: nat, net: Net, log: multiset<Msg>, m: Msg, env: Env)
    requires o < |start.peers| && Flooding(start, p, o, net, log) && NetOk(net) && m in net.flight
    ensures Flooding(start, p, o, Delivered(net, m, env), log + multiset{m})
  {
    hide Delivered, Created, OnlyFlood, Forwards;
    DeliveryKeepsRoles(net, p, m, env);
    forall v: nat, t: nat | t <= p.ttl
      ensures (log + multiset{m})[Msg(v, Copy(p, t))] + Delivered(net, m, env).flight[Msg(v, Copy(p, t))]
              == Created(start, p, o, v, t, log + multiset{m})
    {
      DeliveryConserves(start, p, o, net, log, m, env, v, t);
    }
  }

  // ---- Reach ----------------------------------------------------------------------------------------------------

  ghost predicate Quiet(net: Net, p: Packet) {
    forall m :: m in net.flight ==> m.p.ptype != p.ptype
  }

  lemma {:induction false} InflowIsWalks(net: Net, p: Packet, o: nat, v: nat, t: nat, log: multiset<Msg>, n: nat,
                                         next: Packet, k: nat)
    requires o < |net.peers| == |net.nodes| && n <= |net.peers| && t < p.ttl
    requires next == Copy(p, t + 1) && k == p.ttl - t
    requires forall u: nat :: log[Msg(u, next)] == Walks(net, p, o, u, k)
    ensures Inflow(net, p, v, t, log, n) == WalksThrough(net, p, o, v, k + 1, n)
  {
    if n > 0 {
      InflowIsWalks(net, p, o, v, t, log, n - 1, next, k);
      assert log[Msg(n - 1, next)] == Walks(net, p, o, n - 1, k);
    }
  }

  /** When the flood is over, a node has received a copy with remaining ttl t once for every walk of length ttl + 1 - t
      that leads to it through forwarding nodes. */
  lemma {:induction false} DeliveredOncePerWalk(start: Net, p: Packet, o: nat, run: seq<Action>, v: nat, t: nat)
    requires Started(start, p, o) && Ran(start, run).Some? && forall a :: a in run ==> a.Deliver?
    requires Quiet(Ran(start, run).value, p) && t <= p.ttl
    ensures Log(run)[Msg(v, Copy(p, t))] == Walks(start, p, o, v, p.ttl + 1 - t)
    decreases p.ttl - t
  {
    hide Ran;
    FloodConserves(start, p, o, run);
    var end := Ran(start, run).value;
    assert Copy(p, t).ptype == p.ptype;
    assert Msg(v, Copy(p, t)) !in end.flight;
    if t < p.ttl {
      var next, k := Copy(p, t + 1), p.ttl - t;
      forall u: nat ensures Log(run)[Msg(u, next)] == Walks(start, p, o, u, k) {
        DeliveredOncePerWalk(start, p, o, run, u, t + 1);
      }
      InflowIsWalks(start, p, o, v, t, Log(run), |start.peers|, next, k);
    }
  }

  /** Reach is exact: v received a copy with remaining ttl t iff a walk of length ttl + 1 - t leads to it. */
  lemma ReachIsExact(start: Net, p: Packet, o: nat, run: seq<Action>, v: nat, t: nat)
    requires Started(start, p, o) && Ran(start, run).Some? && forall a :: a in run ==> a.Deliver?
    requires Quiet(Ran(start, run).value, p) && t <= p.ttl
    ensures var k := p.ttl + 1 - t;
            Msg(v, Copy(p, t)) in Log(run) <==>
              exists w :: IsWalk(start, p, w) && |w| == k + 1 && w[0] == o && w[k] == v
  {
    hide Ran;
    DeliveredOncePerWalk(start, p, o, run, v, t);
    WalksExist(start, p, o, v, p.ttl + 1 - t);
  }

  // ---- At the destination ---------------------------------------------------------------------------------------

  /** The action makes v handle a copy of p. */
  predicate HandlesCopy(net: Net, p: Packet, v: nat, a: Action) {
    && a.Deliver? && a.m.to == v && a.m.p.ptype == p.ptype && v < |net.nodes| && net.nodes[v].Sensor?
    && HandlesOwn(net.nodes[v].st, Receive(a.m.p, a.env))
  }

  /** How often v handles p in a run. */
  ghost function Handlings(start: Net, p: Packet, v: nat, run: seq<Action>): nat
    requires NetOk(start) && Ran(start, run).Some?
  {
    if run == [] then 0
    else
      var before := run[..|run| - 1];
      Handlings(start, p, v, before) + if HandlesCopy(Ran(start, before).value, p, v, run[|run| - 1]) then 1 else 0
  }

  /** A copy of p was delivered to v. */
  ghost predicate Heard(p: Packet, v: nat, run: seq<Action>) {
    exists t: nat :: t <= p.ttl && Msg(v, Copy(p, t)) in Log(run)
  }

  /** A node with the destination id, before and after the first copy. */
  ghost predicate Target(net: Net, p: Packet, v: nat, heard: bool, handled: nat) {
    && v < |net.nodes| && net.nodes[v].Sensor? && net.nodes[v].st.link.id == p.dest
    && (if heard then handled == 1 && p.key as int in net.nodes[v].st.link.processed
        else handled == 0 && net.nodes[v].st.power == Awake && p.key as int !in net.nodes[v].st.link.processed)
  }

  /** What a packet of the flood does to such a node: the first copy is handled, later ones are not, and replies change
      nothing. */
  lemma TargetReceives(s: State, p: Packet, q: Packet, env: Env)
    requires AwaitingInv(s) && !s.link.resend && OfFlood(p, q) && s.link.id == p.dest != HUB_NODE_ID
    ensures var s' := Received(s, q, env).st;
            && s'.link.id == p.dest
            && if q.ptype == p.ptype then
                 && p.key as int in (if s.power == Awake then s'.link.processed else {p.key as int})
                 && s.link.processed <= s'.link.processed
                 && (HandlesOwn(s, Receive(q, env)) <==> s.power == Awake && p.key as int !in s.link.processed)
               else s'.power == s.power && s'.link.processed == s.link.processed
  {
    hide Received;
    FloodReceive(s, p, q, env);
    MarksGrowByReceiving(s, q, env);
    RepliesPassBy(s, p, q, env);
  }

  lemma RepliesPassBy(s: State, p: Packet, q: Packet, env: Env)
    requires !s.link.resend && OfFlood(p, q) && s.link.id == p.dest != HUB_NODE_ID
    ensures q.ptype != p.ptype ==> Received(s, q, env).st == s
  {
  }

  lemma {:induction false} HandledAtMostOnce(start: Net, p: Packet, o: nat, run: seq<Action>, v: nat)
    requires Started(start, p, o) && Ran(start, run).Some? && forall a :: a in run ==> a.Deliver?
    requires Target(start, p, v, false, 0) && p.dest != HUB_NODE_ID
    ensures Target(Ran(start, run).value, p, v, Heard(p, v, run), Handlings(start, p, v, run))
  {
    if run != [] {
      hide Target, Heard, Delivered, HandlesCopy, NetOk, NoResendPending, Flooded;
      var before, a := run[..|run| - 1], run[|run| - 1];
      LastAction(start, run);
      HandledAtMostOnce(start, p, o, before, v);
      SensorsAwait(start);
      FloodConserves(start, p, o, before);
      FloodingIsOnly(start, p, o, Ran(start, before).value, Log(before));
      HeardNext(Ran(start, before).value, p, v, run);
      TargetNext(Ran(start, before).value, p, v, a, Heard(p, v, before), Handlings(start, p, v, before));
    }
  }

  lemma FloodingIsOnly(start: Net, p: Packet, o: nat, net: Net, log: multiset<Msg>)
    requires o < |start.peers| && Flooding(start, p, o, net, log)
    ensures OnlyFlood(net, p) && NetOk(net)
  {
  }

  lemma HeardNext(net: Net, p: Packet, v: nat, run: seq<Action>)
    requires OnlyFlood(net, p) && run != [] && run[|run| - 1].Deliver? && run[|run| - 1].m in net.flight
    ensures var m := run[|run| - 1].m;
            Heard(p, v, run) <==> Heard(p, v, run[..|run| - 1]) || (m.to == v && m.p.ptype == p.ptype)
  {
    var before, m := run[..|run| - 1], run[|run| - 1].m;
    assert OfFlood(p, m.p);
    if m.p.ptype == p.ptype {
      assert m == Msg(m.to, Copy(p, m.p.ttl));
      assert m.to == v ==> Msg(v, Copy(p, m.p.ttl)) in Log(run);
    }
    forall t: nat | t <= p.ttl && Msg(v, Copy(p, t)) in Log(before) ensures Msg(v, Copy(p, t)) in Log(run) {
    }
  }

  lemma TargetNext(net: Net, p: Packet, v: nat, a: Action, heard: bool, handled: nat)
    requires OnlyFlood(net, p) && Target(net, p, v, heard, handled) && p.dest != HUB_NODE_ID
    requires a.Deliver? && a.m in net.flight
    ensures Target(Delivered(net, a.m, a.env), p, v, heard || (a.m.to == v && a.m.p.ptype == p.ptype),
                   handled + if HandlesCopy(net, p, v, a) then 1 else 0)
  {
    hide Received, Delivered, NetOk, Flooded, HandlesOwn;
    DeliveryShape(net, a.m, a.env);
    SensorsAwait(net);
    assert OfFlood(p, a.m.p);
    if a.m.to == v {
      TargetReceives(net.nodes[v].st, p, a.m.p, a.env);
    }
  }

  /** When the flood is over, a node with the destination id and the key unmarked has handled p exactly once if a walk
      through forwarders with no more hops than the ttl allows leads to it, and not at all otherwise. */
  lemma {:induction false} HandledOnceIffReached(start: Net, p: Packet, o: nat, run: seq<Action>, v: nat)
    requires Started(start, p, o) && Ran(start, run).Some? && forall a :: a in run ==> a.Deliver?
    requires Quiet(Ran(start, run).value, p) && p.dest != HUB_NODE_ID
    requires v < |start.nodes| && start.nodes[v].Sensor? && start.nodes[v].st.link.id == p.dest
    requires start.nodes[v].st.power == Awake && p.key as int !in start.nodes[v].st.link.processed
    ensures Handlings(start, p, v, run)
            == if exists w :: IsWalk(start, p, w) && |w| <= p.ttl as int + 2 && w[0] == o && w[|w| - 1] == v
               then 1 else 0
  {
    hide Ran, Started, Quiet, HandlesCopy;
    HandledAtMostOnce(start, p, o, run, v);
    if t: nat :| t <= p.ttl && Msg(v, Copy(p, t)) in Log(run) {
      ReachIsExact(start, p, o, run, v, t);
      var k := p.ttl + 1 - t;
      var w :| IsWalk(start, p, w) && |w| == k + 1 && w[0] == o && w[k] == v;
    }
    if w :| IsWalk(start, p, w) && |w| <= p.ttl as int + 2 && w[0] == o && w[|w| - 1] == v {
      ReachIsExact(start, p, o, run, v, p.ttl + 2 - |w|);
    }
  }

  // ---- Cost -----------------------------------------------------------------------------------------------------

  /** Deliveries of copies of p in a run; without loss every transmission ends in one. */
  function Transmissions(p: Packet, run: seq<Action>): nat {
    if run == [] then 0
    else Transmissions(p, run[..|run| - 1])
         + match run[|run| - 1] { case Deliver(m, _) => if InFamily(p, m.p) then 1 else 0 case _ => 0 }
  }

  lemma {:induction false} NoWeight(d: nat, p: Packet, ms: multiset<Msg>)
    requires forall m :: m in ms ==> !InFamily(p, m.p)
    ensures FlightWeight(d, Some(p), ms) == 0
    decreases |ms|
  {
    if m :| m in ms {
      FlightWeightTake(d, Some(p), ms, m);
      NoWeight(d, p, ms - multiset{m});
    }
  }

  /** One forwarded copy weighs at most what d copies weigh. */
  lemma ForwardedWeight(d: nat, p: Packet, q: Packet, to: seq<nat>)
    requires |to| <= d
    ensures FlightWeight(d, Some(p), Broadcast([q], to)) <= Fan(d, q.ttl)
  {
    hide FlightWeight, Copies, Weight;
    assert [q][1..] == [];
    assert Broadcast([q], to) == Copies(q, to);
    FlightWeightCopies(d, Some(p), q, to);
    ProductsOrdered(|to|, d, Weight(d, q.ttl));
    ProductsOrdered(MsgWeight(d, Some(p), Msg(0, q)), Weight(d, q.ttl), |to|);
  }

  /** What a node sends after receiving q weighs less than q, if q is a copy of p, and nothing otherwise. */
  lemma SentWeight(d: nat, s: State, p: Packet, q: Packet, env: Env, to: seq<nat>)
    requires AwaitingInv(s) && !s.link.resend && OfFlood(p, q) && |to| <= d
    ensures FlightWeight(d, Some(p), Broadcast(Received(s, q, env).sent, to)) + (if InFamily(p, q) then 1 else 0)
            <= MsgWeight(d, Some(p), Msg(0, q))
  {
    hide Received, OfFlood, InFamily, Weight, FlightWeight, Broadcast;
    var sent := Received(s, q, env).sent;
    if s.power == Awake && s.link.id != q.dest && q.ttl > 0 && InFamily(p, q) {
      FloodReceive(s, p, q, env);
      ForwardedWeight(d, p, sent[0], to);
      WeightOfHop(d, q.ttl);
    } else {
      SendsNoFamily(s, p, q, env);
      BroadcastMembers(sent, to);
      NoWeight(d, p, Broadcast(sent, to));
    }
  }

  lemma WeightOfHop(d: nat, t: nat)
    requires t > 0
    ensures Weight(d, t) == 1 + Fan(d, t - 1)
  {
  }

  lemma DeliveryCosts(d: nat, net: Net, p: Packet, m: Msg, env: Env)
    requires OnlyFlood(net, p) && m in net.flight && DegreeAtMost(d, net.peers)
    ensures FlightWeight(d, Some(p), Delivered(net, m, env).flight) + (if InFamily(p, m.p) then 1 else 0)
            <= FlightWeight(d, Some(p), net.flight)
  {
    hide Received;
    FlightWeightTake(d, Some(p), net.flight, m);
    if net.nodes[m.to].Sensor? {
      var s := net.nodes[m.to].st;
      SentWeight(d, s, p, m.p, env, net.peers[m.to]);
      FlightWeightUnion(d, Some(p), net.flight - multiset{m}, Broadcast(Received(s, m.p, env).sent, net.peers[m.to]));
    }
  }

  /** Only a copy with ttl left, at a node it is not addressed to, makes another copy. */
  lemma SendsNoFamily(s: State, p: Packet, q: Packet, env: Env)
    requires AwaitingInv(s) && !s.link.resend && OfFlood(p, q)
    requires !(s.power == Awake && s.link.id != q.dest && q.ttl > 0 && InFamily(p, q))
    ensures forall r :: r in Received(s, q, env).sent ==> !InFamily(p, r)
  {
    hide Received;
    FloodReceive(s, p, q, env);
  }

  lemma {:induction false} CostSoFar(d: nat, start: Net, p: Packet, o: nat, run: seq<Action>)
    requires Started(start, p, o) && Ran(start, run).Some? && forall a :: a in run ==> a.Deliver?
    requires DegreeAtMost(d, start.peers)
    ensures Transmissions(p, run) + FlightWeight(d, Some(p), Ran(start, run).value.flight) <= Fan(d, p.ttl)
  {
    hide Delivered;
    if run == [] {
      FlightWeightCopies(d, Some(p), p, start.peers[o]);
      ProductsOrdered(|start.peers[o]|, d, Weight(d, p.ttl));
    } else {
      var before, a := run[..|run| - 1], run[|run| - 1];
      LastAction(start, run);
      CostSoFar(d, start, p, o, before);
      FloodConserves(start, p, o, before);
      DeliveryCosts(d, Ran(start, before).value, p, a.m, a.env);
    }
  }

  /** d + d^2 + ... + d^k. */
  function PowerSum(d: nat, k: nat): nat {
    if k == 0 then 0 else d * (1 + PowerSum(d, k - 1))
  }

  lemma {:induction false} FanIsPowerSum(d: nat, t: nat)
    ensures Fan(d, t) == PowerSum(d, t + 1)
  {
    if t > 0 {
      FanIsPowerSum(d, t - 1);
    } else {
      assert PowerSum(d, 1) == d * (1 + PowerSum(d, 0));
    }
  }

  /** With at most d peers per node a flood of the standard ttl costs at most d + d^2 + ... + d^6 transmissions. */
  lemma FloodCost(d: nat, start: Net, p: Packet, o: nat, run: seq<Action>)
    requires Started(start, p, o) && Ran(start, run).Some? && forall a :: a in run ==> a.Deliver?
    requires DegreeAtMost(d, start.peers) && p.ttl == STD_TTL
    ensures Transmissions(p, run) <= PowerSum(d, 6)
  {
    CostSoFar(d, start, p, o, run);
    FanIsPowerSum(d, STD_TTL);
  }
}
