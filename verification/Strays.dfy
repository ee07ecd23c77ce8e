/** Floods that are sure to end, as can be told from the packets under way and the ids of the nodes. */
module Strays {
  import opened Types
  import opened DataPacket
  import opened NodeSpec
  import opened Network
  import opened Termination
  import opened Provisioning

  /** A response with an address. */
  predicate IsResponse(p: Packet) {
    p.ptype == PT_NODE_CONNECTED_RESP && |p.data| >= ADDRESS_SIZE
  }

  /** It would give this id to the node with this address. */
  predicate Assigns(p: Packet, addr: seq<uint8>, id: uint8) {
    IsResponse(p) && |p.data| > ADDRESS_SIZE && CarriesAddress(p, addr) && p.data[ADDRESS_SIZE] == id
  }

  /** The node has the id, or a response under way would give it to it. */
  ghost predicate MayHave(net: Net, s: State, id: uint8) {
    s.link.id == id || exists m :: m in net.flight && Assigns(m.p, s.addr, id)
  }

  /** No awake node has, or may get, the id a response to another node is sent to, if that fits the buffer. */
  ghost predicate NoStray(net: Net) {
    forall m, i :: m in net.flight && IsResponse(m.p) && Packable(m.p)
                   && 0 <= i < |net.nodes| && net.nodes[i].Sensor? ==>
      var s := net.nodes[i].st;
      s.power == Awake && !CarriesAddress(m.p, s.addr) ==> !MayHave(net, s, m.p.dest)
  }

  lemma NoResponseNoStray(net: Net)
    requires forall m :: m in net.flight ==> !IsResponse(m.p)
    ensures NoStray(net)
  {
  }

  /** Without a stray response no ttl wraps. */
  lemma NoStrayNoWrap(net: Net, m: Msg, env: Env)
    requires NetOk(net) && NoStray(net) && m in net.flight
    ensures !Disturbs(net, Deliver(m, env))
  {
    if net.nodes[m.to].Sensor? {
      WrapsOnlyMisaddressedResponses(net.nodes[m.to].st, m.p);
    }
  }

  /** The responses under way after a delivery were under way before, but for their ttl and place. */
  lemma ResponsesOnlyMove(net: Net, m: Msg, env: Env, x: Msg)
    requires NetOk(net) && m in net.flight && x in Delivered(net, m, env).flight && IsResponse(x.p)
    ensures exists y :: y in net.flight && IsResponse(y.p) && x.p == y.p.(ttl := x.p.ttl)
  {
    if x in net.flight {
      assert x.p == x.p.(ttl := x.p.ttl);
    } else {
      var s := net.nodes[m.to].st;
      ReceivedSends(s, m.p, env);
      BroadcastMembers(Received(s, m.p, env).sent, net.peers[m.to]);
      assert GoodSend(x.p, Some(m.p));
      assert IsResponse(m.p);
    }
  }

  /** An id a node may have after a delivery is one it might have had before. */
  lemma MayHaveShrinks(net: Net, m: Msg, env: Env, i: nat, id: uint8)
    requires NetOk(net) && m in net.flight && i < |net.nodes| && net.nodes[i].Sensor?
    requires var after := Delivered(net, m, env);
             after.nodes[i].Sensor? && after.nodes[i].st.power == Awake && MayHave(after, after.nodes[i].st, id)
    ensures net.nodes[i].st.power == Awake && net.nodes[i].st.addr == Delivered(net, m, env).nodes[i].st.addr
    ensures MayHave(net, net.nodes[i].st, id)
  {
    hide Received;
    var after := Delivered(net, m, env);
    var s, s' := net.nodes[i].st, after.nodes[i].st;
    if i == m.to {
      IdAfterReceiving(s, m.p, env);
      if s.power != Awake {
        StaysAsleep(s, m.p, env);
      }
    }
    if s'.link.id != id {
      var x :| x in after.flight && Assigns(x.p, s'.addr, id);
      ResponsesOnlyMove(net, m, env, x);
    }
  }

  lemma StaysAsleep(s: State, p: Packet, env: Env)
    requires s.power != Awake
    ensures Received(s, p, env).st == s
  {
  }

  lemma NoStrayKept(net: Net, m: Msg, env: Env)
    requires NetOk(net) && NoStray(net) && m in net.flight
    ensures NoStray(Delivered(net, m, env))
  {
    hide Received, MayHave;
    var after := Delivered(net, m, env);
    DeliveryOk(net, m, env);
    forall x, i | x in after.flight && IsResponse(x.p) && Packable(x.p)
                  && 0 <= i < |after.nodes| && after.nodes[i].Sensor?
                  && after.nodes[i].st.power == Awake && !CarriesAddress(x.p, after.nodes[i].st.addr)
      ensures !MayHave(after, after.nodes[i].st, x.p.dest)
    {
      ResponsesOnlyMove(net, m, env, x);
      if MayHave(after, after.nodes[i].st, x.p.dest) {
        MayHaveShrinks(net, m, env, i, x.p.dest);
      }
    }
  }

  lemma {:induction false} NoStrayOverRuns(net: Net, run: seq<Action>)
    requires NetOk(net) && NoStray(net) && Ran(net, run).Some? && forall a :: a in run ==> a.Deliver?
    ensures NoStray(Ran(net, run).value) && Disturbances(net, run) == 0
  {
    hide NoStray, Delivered, Disturbs;
    if run != [] {
      var before, a := run[..|run| - 1], run[|run| - 1];
      LastAction(net, run);
      NoStrayOverRuns(net, before);
      NoStrayNoWrap(Ran(net, before).value, a.m, a.env);
      NoStrayKept(Ran(net, before).value, a.m, a.env);
    }
  }

  /** From a network in which no response is astray, every run of deliveries ends within a bound that can be told from
      its start. */
  lemma {:induction false} FloodsEndUnlessAstray(d: nat, net: Net, run: seq<Action>)
    requires NetOk(net) && NoStray(net) && DegreeAtMost(d, net.peers)
    requires Ran(net, run).Some? && forall a :: a in run ==> a.Deliver?
    ensures |run| <= Potential(d, net)
  {
    NoStrayOverRuns(net, run);
    FloodsEnd(d, net, run);
  }

  /** In particular, when no response is under way at all. */
  lemma {:induction false} FloodsEndWithoutResponses(d: nat, net: Net, run: seq<Action>)
    requires NetOk(net) && DegreeAtMost(d, net.peers) && forall m :: m in net.flight ==> !IsResponse(m.p)
    requires Ran(net, run).Some? && forall a :: a in run ==> a.Deliver?
    ensures |run| <= Potential(d, net)
  {
    NoResponseNoStray(net);
    FloodsEndUnlessAstray(d, net, run);
  }
}
