/** Which ids nodes end up with. */
module Provisioning {
  import opened Types
  import opened DataPacket
  import opened NodeSpec
  import opened NodeProps
  import opened Network

  /** The hub's table from addresses to ids. */
  type Table = map<seq<uint8>, uint8>

  /** A node-connected response that carries an id carries the one the table holds for its address. */
  predicate Honest(table: Table, p: Packet) {
    p.ptype == PT_NODE_CONNECTED_RESP && |p.data| > ADDRESS_SIZE ==>
      p.data[..ADDRESS_SIZE] in table && p.data[ADDRESS_SIZE] == table[p.data[..ADDRESS_SIZE]]
  }

  predicate IdAgrees(table: Table, s: State) {
    s.link.id == PROVISIONAL_NODE_ID || (s.addr in table && s.link.id == table[s.addr])
  }

  ghost predicate Agreement(table: Table, net: Net) {
    && NetOk(net)
    && (forall m :: m in net.flight ==> Honest(table, m.p))
    && forall i :: 0 <= i < |net.nodes| && net.nodes[i].Sensor? ==> IdAgrees(table, net.nodes[i].st)
  }

  predicate HubHonest(table: Table, run: seq<Action>) {
    forall a :: a in run && a.FromHub? ==> Honest(table, a.p)
  }

  /** The id a node has after receiving a packet: only a response for its id and its address changes it. */
  lemma IdAfterReceiving(s: State, p: Packet, env: Env)
    requires AwaitingInv(s)
    ensures var s' := Received(s, p, env).st;
            && s'.addr == s.addr
            && s'.link.id == if s.power == Awake && TakesResponse(s, p) then p.data[ADDRESS_SIZE] else s.link.id
  {
    if s.power == Awake {
      HandledAwaiting(s, p, env);
      if Processes(s, p) {
        ProcessedEffect(s, p, env);
      }
      ResendSends(Handled(s, p, env).st);
    }
  }

  lemma NodeAgrees(table: Table, s: State, e: Event)
    requires AwaitingInv(s) && |s.addr| == ADDRESS_SIZE && IdAgrees(table, s)
    requires e.Receive? ==> Honest(table, e.p)
    ensures IdAgrees(table, Step(s, e).st)
    ensures forall q :: q in Step(s, e).sent ==> Honest(table, q)
  {
    StepSends(s, e);
    match e
    case Receive(p, env) => IdAfterReceiving(s, p, env);
    case Poll => ResendSends(s);
    case _ =>
  }

  lemma SteppedAgrees(table: Table, net: Net, i: nat, e: Event)
    requires Agreement(table, net) && i < |net.nodes| && net.nodes[i].Sensor?
    requires e.Receive? ==> Honest(table, e.p)
    ensures Agreement(table, Stepped(net, i, Step(net.nodes[i].st, e)))
  {
    NodeAgrees(table, net.nodes[i].st, e);
    NodeStepOk(net, i, e);
    BroadcastMembers(Step(net.nodes[i].st, e).sent, net.peers[i]);
  }

  lemma ActionAgrees(table: Table, net: Net, a: Action)
    requires Agreement(table, net) && Enabled(net, a) && (a.FromHub? ==> Honest(table, a.p))
    ensures Agreement(table, Apply(net, a))
  {
    match a
    case Deliver(m, env) => DeliveryAgrees(table, net, m, env);
    case Local(i, e) =>
      hide Agreement;
      SteppedAgrees(table, net, i, e);
    case _ =>
  }

  lemma DeliveryAgrees(table: Table, net: Net, m: Msg, env: Env)
    requires Agreement(table, net) && m in net.flight
    ensures Agreement(table, Delivered(net, m, env))
  {
    hide Received, Agreement, Honest;
    TakenAgrees(table, net, m);
    if net.nodes[m.to].Sensor? {
      SteppedAgrees(table, Taken(net, m), m.to, Receive(m.p, env));
    }
  }

  lemma TakenAgrees(table: Table, net: Net, m: Msg)
    requires Agreement(table, net) && m in net.flight
    ensures Agreement(table, Taken(net, m)) && Honest(table, m.p)
    ensures NetOk(net) && m.to < |net.nodes| == |net.peers|
  {
    hide Honest, AwaitingInv, IdAgrees;
  }

  /** In every reachable state, through losses, relinking, sleeps and reboots, every node has the provisional id or the
      one the hub assigned to its address. */
  lemma {:induction false} AgreementOverRuns(table: Table, net: Net, run: seq<Action>)
    requires Agreement(table, net) && Ran(net, run).Some? && HubHonest(table, run)
    ensures Agreement(table, Ran(net, run).value)
  {
    if run != [] {
      LastAction(net, run);
      AgreementOverRuns(table, net, run[..|run| - 1]);
      ActionAgrees(table, Ran(net, run[..|run| - 1]).value, run[|run| - 1]);
    }
  }

  /** With an injective table that avoids the reserved ids, no two provisioned nodes share an id, and none has the
      hub's. */
  lemma ProvisionedIdsDistinct(table: Table, net: Net, run: seq<Action>, i: nat, j: nat)
    requires Agreement(table, net) && Ran(net, run).Some? && HubHonest(table, run)
    requires forall a, b :: a in table && b in table && a != b ==> table[a] != table[b]
    requires forall a :: a in table ==> table[a] != HUB_NODE_ID && table[a] != PROVISIONAL_NODE_ID
    requires var vs := Ran(net, run).value.nodes;
             i < |vs| && j < |vs| && vs[i].Sensor? && vs[j].Sensor? && vs[i].st.addr != vs[j].st.addr
    ensures var vs := Ran(net, run).value.nodes;
            && vs[i].st.link.id != HUB_NODE_ID
            && (vs[i].st.link.id == vs[j].st.link.id ==> vs[i].st.link.id == PROVISIONAL_NODE_ID)
  {
    AgreementOverRuns(table, net, run);
  }

  /** An assigned id is final for the boot. */
  lemma AssignedIdStays(table: Table, s: State, e: Event)
    requires AwaitingInv(s) && IdAgrees(table, s) && s.link.id != PROVISIONAL_NODE_ID && !e.Reboot?
    requires e.Receive? ==> Honest(table, e.p)
    ensures Step(s, e).st.link.id == s.link.id
  {
    match e
    case Receive(p, env) => IdAfterReceiving(s, p, env);
    case Poll => ResendSends(s);
    case _ =>
  }
}
