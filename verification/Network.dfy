/** Many nodes, the links between them and the packets under way, as a step system. */
module Network {
  import opened Types
  import opened DataPacket
  import opened NodeSpec
  import opened NodeProps

  /** The hub is part of the environment: it consumes what reaches it and sends what it likes. */
  datatype Participant = Hub | Sensor(st: State)

  datatype Msg = Msg(to: nat, p: Packet)

  /** `peers[i]` is the peer list of participant i; `flight` holds the packets sent and not yet delivered. */
  datatype Net = Net(nodes: seq<Participant>, peers: seq<seq<nat>>, flight: multiset<Msg>)

  /** One copy of a packet for every entry of a peer list. */
  function Copies(p: Packet, to: seq<nat>): multiset<Msg> {
    if to == [] then multiset{} else multiset{Msg(to[0], p)} + Copies(p, to[1..])
  }

  function Broadcast(sent: seq<Packet>, to: seq<nat>): multiset<Msg> {
    if sent == [] then multiset{} else Copies(sent[0], to) + Broadcast(sent[1..], to)
  }

  lemma {:induction false} CopiesMembers(p: Packet, to: seq<nat>)
    ensures forall m :: m in Copies(p, to) <==> m.p == p && m.to in to
  {
    if to != [] {
      CopiesMembers(p, to[1..]);
      assert to == [to[0]] + to[1..];
    }
  }

  lemma {:induction false} CopiesCount(p: Packet, to: seq<nat>, m: Msg)
    ensures Copies(p, to)[m] == if m.p == p then multiset(to)[m.to] else 0
  {
    if to != [] {
      CopiesCount(p, to[1..], m);
      assert to == [to[0]] + to[1..];
    }
  }

  lemma BroadcastOne(p: Packet, to: nat)
    ensures Broadcast([p], [to]) == multiset{Msg(to, p)}
  {
    assert [p][1..] == [] && [to][1..] == [];
    assert Copies(p, [to]) == multiset{Msg(to, p)} + Copies(p, []);
    assert Broadcast([p], [to]) == Copies(p, [to]) + Broadcast([], [to]);
  }

  lemma {:induction false} BroadcastMembers(sent: seq<Packet>, to: seq<nat>)
    ensures forall m :: m in Broadcast(sent, to) <==> m.p in sent && m.to in to
  {
    if sent != [] {
      CopiesMembers(sent[0], to);
      BroadcastMembers(sent[1..], to);
      assert sent == [sent[0]] + sent[1..];
    }
  }

  datatype Action =
    | Deliver(m: Msg, env: Env)
    | Local(i: nat, e: Event)         // any event of one node that is not a delivery
    | FromHub(to: nat, p: Packet)
    | Relink(links: seq<seq<nat>>)    // connections come and go
    | Lose(m: Msg)

  predicate LinksOk(links: seq<seq<nat>>, n: nat) {
    |links| == n && forall i :: 0 <= i < n ==> forall j :: j in links[i] ==> j < n
  }

  predicate Enabled(net: Net, a: Action) {
    match a
    case Deliver(m, _) => m in net.flight
    case Local(i, e) => i < |net.nodes| && net.nodes[i].Sensor? && !e.Receive?
    case FromHub(to, p) => to < |net.nodes|
    case Relink(links) => LinksOk(links, |net.nodes|)
    case Lose(m) => m in net.flight
  }

  /** What every participant and every packet under way satisfies; kept by all actions. */
  ghost predicate NetOk(net: Net) {
    && LinksOk(net.peers, |net.nodes|)
    && (forall m :: m in net.flight ==> m.to < |net.nodes|)
    && (forall i :: 0 <= i < |net.nodes| && net.nodes[i].Sensor? ==>
          AwaitingInv(net.nodes[i].st) && |net.nodes[i].st.addr| == ADDRESS_SIZE)
  }

  ghost predicate NoResendPending(net: Net) {
    forall i :: 0 <= i < |net.nodes| && net.nodes[i].Sensor? ==> !net.nodes[i].st.link.resend
  }

  /** The net after node i took a step: its new state, and its packets on the way to its peers. */
  function Stepped(net: Net, i: nat, o: Out): Net
    requires i < |net.nodes| == |net.peers|
  {
    net.(nodes := net.nodes[i := Sensor(o.st)], flight := net.flight + Broadcast(o.sent, net.peers[i]))
  }

  function Taken(net: Net, m: Msg): Net {
    net.(flight := net.flight - multiset{m})
  }

  function Delivered(net: Net, m: Msg, env: Env): Net
    requires NetOk(net) && m in net.flight
  {
    if net.nodes[m.to].Hub? then Taken(net, m)
    else Stepped(Taken(net, m), m.to, Received(net.nodes[m.to].st, m.p, env))
  }

  function Apply(net: Net, a: Action): Net
    requires NetOk(net) && Enabled(net, a)
  {
    match a
    case Deliver(m, env) => Delivered(net, m, env)
    case Local(i, e) => Stepped(net, i, Step(net.nodes[i].st, e))
    case FromHub(to, p) => net.(flight := net.flight + multiset{Msg(to, p)})
    case Relink(links) => net.(peers := links)
    case Lose(m) => Taken(net, m)
  }

  // ---- What nodes send ------------------------------------------------------------------------------------------

  lemma ProcessedSends(s: State, p: Packet, env: Env)
    requires s.power == Awake
    requires p.ptype == PT_NODE_CONNECTED_RESP ==> |p.data| > ADDRESS_SIZE
    ensures var o := Processed(s, p, env);
            if p.ptype == PT_GO_TO_SLEEP then
              if Packable(p) then o.sent == [p, p] && o.st.power in {DeepSleep, Restarting}
              else o.sent == [] && o.st.power == Crashed
            else
              && |o.sent| <= 1 && (p.ptype == PT_NODE_CONNECTED_RESP ==> o.sent == [])
              && (o.st.power != Awake ==> o.st.power == Crashed && o.sent == [])
              && (o.sent != [] ==> Packable(o.sent[0]) && o.sent[0].ttl == STD_TTL && o.sent[0].dest == HUB_NODE_ID
                                   && HandlerOf(o.sent[0].ptype) == None && o.sent[0].ptype < NUM_PACKET_TYPES
                                   && HandlerOf(p.ptype) != None)
  {
    RegisteredTypesAreKnown(p.ptype);
  }

  /** What a pending resend sends: at most one announcement of this node to the hub. */
  lemma ResendSends(s: State)
    requires AwaitingInv(s)
    ensures var o := ResendIfNeeded(s);
            && AwaitingInv(o.st) && o.st.addr == s.addr && o.st.power == s.power && !o.st.link.resend
            && o.st.link.processed == s.link.processed && o.st.link.id == s.link.id
            && |o.sent| <= 1 && (!s.link.resend ==> o.sent == [])
            && forall q :: q in o.sent ==>
                 q.ptype == PT_NODE_CONNECTED && q.ttl == STD_TTL && q.data == s.addr && q.dest == HUB_NODE_ID
  {
  }

  /** Sent packets fit the buffer, and a node-connected response is only ever passed on, changed in nothing but its
      ttl. */
  predicate GoodSend(q: Packet, received: Option<Packet>) {
    && Packable(q)
    && (q.ptype == PT_NODE_CONNECTED_RESP ==>
          received.Some? && q == received.value.(ttl := q.ttl))
  }

  lemma HandledSends(s: State, p: Packet, env: Env)
    requires AwaitingInv(s) && |s.addr| == ADDRESS_SIZE && s.power == Awake
    ensures var o := Handled(s, p, env);
            o.st.addr == s.addr && AwaitingInv(o.st) && forall q :: q in o.sent ==> GoodSend(q, Some(p))
  {
    HandledAwaiting(s, p, env);
    if Processes(s, p) {
      ProcessedSends(s, p, env);
      ProcessedEffect(s, p, env);
    }
  }

  lemma ReceivedSends(s: State, p: Packet, env: Env)
    requires AwaitingInv(s) && |s.addr| == ADDRESS_SIZE
    ensures var o := Received(s, p, env);
            o.st.addr == s.addr && forall q :: q in o.sent ==> GoodSend(q, Some(p))
  {
    if s.power == Awake {
      HandledSends(s, p, env);
      ResendSends(Handled(s, p, env).st);
    }
  }

  lemma StepSends(s: State, e: Event)
    requires AwaitingInv(s) && |s.addr| == ADDRESS_SIZE
    ensures var o := Step(s, e);
            && o.st.addr == s.addr
            && forall q :: q in o.sent ==> GoodSend(q, if e.Receive? then Some(e.p) else None)
  {
    match e
    case Receive(p, env) => ReceivedSends(s, p, env);
    case Poll => ResendSends(s);
    case _ =>
  }

  lemma {:induction false} NetOkKept(net: Net, a: Action)
    requires NetOk(net) && Enabled(net, a)
    ensures NetOk(Apply(net, a)) && |Apply(net, a).nodes| == |net.nodes|
    ensures forall i :: 0 <= i < |net.nodes| ==> Apply(net, a).nodes[i].Hub? == net.nodes[i].Hub?
  {
    match a
    case Deliver(m, env) => DeliveryOk(net, m, env);
    case Local(i, e) => NodeStepOk(net, i, e);
    case _ =>
  }

  lemma DeliveryOk(net: Net, m: Msg, env: Env)
    requires NetOk(net) && m in net.flight
    ensures var after := Delivered(net, m, env);
            && NetOk(after) && |after.nodes| == |net.nodes|
            && forall i :: 0 <= i < |net.nodes| ==> after.nodes[i].Hub? == net.nodes[i].Hub?
  {
    hide NetOk, Received;
    TakenOk(net, m);
    if net.nodes[m.to].Sensor? {
      NodeStepOk(Taken(net, m), m.to, Receive(m.p, env));
    }
  }

  /** What a delivery changes: the receiver, and which packets are under way. */
  lemma DeliveryShape(net: Net, m: Msg, env: Env)
    requires NetOk(net) && m in net.flight
    ensures var after := Delivered(net, m, env);
            && after.peers == net.peers && |after.nodes| == |net.nodes| && m.to < |net.nodes| == |net.peers|
            && (forall u: nat :: u < |net.nodes| && u != m.to ==> after.nodes[u] == net.nodes[u])
            && (forall x :: x in net.flight && x != m ==> x in after.flight)
    ensures var after := Delivered(net, m, env);
            if net.nodes[m.to].Hub? then after.nodes == net.nodes && forall x :: x in after.flight ==> x in net.flight
            else
              var o := Received(net.nodes[m.to].st, m.p, env);
              && after.nodes[m.to] == Sensor(o.st)
              && (forall q, v :: q in o.sent && v in net.peers[m.to] ==> Msg(v, q) in after.flight)
              && (forall x :: x in after.flight ==> x in net.flight || x.p in o.sent)
  {
    hide Received, AwaitingInv, Broadcast;
    if net.nodes[m.to].Sensor? {
      BroadcastMembers(Received(net.nodes[m.to].st, m.p, env).sent, net.peers[m.to]);
    }
  }

  lemma TakenOk(net: Net, m: Msg)
    requires NetOk(net) && m in net.flight
    ensures NetOk(Taken(net, m)) && m.to < |net.nodes| == |net.peers|
  {
    hide AwaitingInv;
  }

  lemma NodeStepOk(net: Net, i: nat, e: Event)
    requires NetOk(net) && i < |net.nodes| && net.nodes[i].Sensor?
    ensures NetOk(Stepped(net, i, Step(net.nodes[i].st, e)))
  {
    var s := net.nodes[i].st;
    AwaitingKept(s, e);
    StepSends(s, e);
    BroadcastMembers(Step(s, e).sent, net.peers[i]);
  }

  lemma PeersAfter(net: Net, a: Action)
    requires NetOk(net) && Enabled(net, a)
    ensures Apply(net, a).peers == if a.Relink? then a.links else net.peers
  {
  }

  // ---- Runs -----------------------------------------------------------------------------------------------------

  /** The net after a sequence of actions, or None if one of them was not enabled. */
  ghost function Ran(net: Net, run: seq<Action>): (r: Option<Net>)
    requires NetOk(net)
    ensures r.Some? ==> NetOk(r.value) && |r.value.nodes| == |net.nodes|
  {
    if run == [] then Some(net)
    else
      match Ran(net, run[..|run| - 1])
      case None => None
      case Some(before) =>
        var a := run[|run| - 1];
        if Enabled(before, a) then NetOkKept(before, a); Some(Apply(before, a)) else None
  }

  /** The prefix of a run is a run, and its last action was enabled after it. */
  lemma LastAction(net: Net, run: seq<Action>)
    requires NetOk(net) && run != [] && Ran(net, run).Some?
    ensures var before := Ran(net, run[..|run| - 1]);
            && before.Some? && Enabled(before.value, run[|run| - 1])
            && Ran(net, run).value == Apply(before.value, run[|run| - 1])
  {
  }

  lemma RanExtend(net: Net, run: seq<Action>, a: Action)
    requires NetOk(net) && Ran(net, run).Some? && Enabled(Ran(net, run).value, a)
    ensures Ran(net, run + [a]) == Some(Apply(Ran(net, run).value, a))
  {
  }

  /** The messages a run delivered. */
  function Log(run: seq<Action>): multiset<Msg> {
    if run == [] then multiset{}
    else Log(run[..|run| - 1]) + match run[|run| - 1] { case Deliver(m, _) => multiset{m} case _ => multiset{} }
  }
}
