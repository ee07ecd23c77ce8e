/** How long packets can keep the network busy. */
module Termination {
  import opened Types
  import opened DataPacket
  import opened NodeSpec
  import opened NodeProps
  import opened Network

  // ---- The potential --------------------------------------------------------------------------------------------

  /** Deliveries a packet with ttl t can cause where no node has more than d peers. */
  function Weight(d: nat, t: nat): (w: nat)
    ensures w >= 1
    decreases t, 0
  {
    if t == 0 then 1 else 1 + Fan(d, t - 1)
  }

  /** The same for one copy to each of d peers. */
  function Fan(d: nat, t: nat): nat
    decreases t, 1
  {
    d * Weight(d, t)
  }

  lemma ProductsOrdered(a: nat, b: nat, c: nat)
    requires a <= b
    ensures a * c <= b * c
    ensures a < b ==> a * c + c <= b * c
  {
    if a < b {
      assert (a + 1) * c <= b * c;
    }
  }

  lemma OneMore(n: nat, c: nat)
    ensures (n + 1) * c == n * c + c
  {
  }

  lemma {:induction false} WeightGrows(d: nat, t: nat, u: nat)
    requires t <= u
    ensures Weight(d, t) <= Weight(d, u) && Fan(d, t) <= Fan(d, u)
    decreases u
  {
    if t < u {
      WeightGrows(d, t, u - 1);
      WeightStep(d, u - 1);
      hide Weight;
      ProductsOrdered(Weight(d, u - 1), Weight(d, u), d);
    }
  }

  lemma WeightStep(d: nat, t: nat)
    ensures Weight(d, t) <= Weight(d, t + 1)
  {
  }

  /** q is p up to the ttl. */
  predicate InFamily(p: Packet, q: Packet) {
    q.(ttl := 0) == p.(ttl := 0)
  }

  /** With a family given, only its packets weigh. */
  function MsgWeight(d: nat, family: Option<Packet>, m: Msg): nat {
    if family.None? || InFamily(family.value, m.p) then Weight(d, m.p.ttl) else 0
  }

  ghost function FlightWeight(d: nat, family: Option<Packet>, ms: multiset<Msg>): nat
    decreases |ms|
  {
    if ms == multiset{} then 0
    else
      var m :| m in ms;
      MsgWeight(d, family, m) + FlightWeight(d, family, ms - multiset{m})
  }

  lemma {:induction false} FlightWeightTake(d: nat, family: Option<Packet>, ms: multiset<Msg>, m: Msg)
    requires m in ms
    ensures FlightWeight(d, family, ms) == MsgWeight(d, family, m) + FlightWeight(d, family, ms - multiset{m})
    decreases |ms|
  {
    var x :| x in ms
             && FlightWeight(d, family, ms) == MsgWeight(d, family, x) + FlightWeight(d, family, ms - multiset{x});
    hide FlightWeight, MsgWeight;
    if x != m {
      TakenInAnyOrder(ms, x, m);
      FlightWeightTake(d, family, ms - multiset{x}, m);
      FlightWeightTake(d, family, ms - multiset{m}, x);
    }
  }

  lemma TakenInAnyOrder(ms: multiset<Msg>, x: Msg, m: Msg)
    requires x in ms && m in ms && x != m
    ensures m in ms - multiset{x} && x in ms - multiset{m}
    ensures |ms - multiset{x}| == |ms| - 1 && |ms - multiset{m}| == |ms| - 1
    ensures ms - multiset{x} - multiset{m} == ms - multiset{m} - multiset{x}
  {
  }

  lemma {:induction false} FlightWeightUnion(d: nat, family: Option<Packet>, a: multiset<Msg>, b: multiset<Msg>)
    ensures FlightWeight(d, family, a + b) == FlightWeight(d, family, a) + FlightWeight(d, family, b)
    decreases |b|
  {
    if b == multiset{} {
      assert a + b == a;
    } else {
      var m :| m in b;
      FlightWeightTake(d, family, b, m);
      FlightWeightTake(d, family, a + b, m);
      FlightWeightUnion(d, family, a, b - multiset{m});
      assert a + b - multiset{m} == a + (b - multiset{m});
    }
  }

  lemma {:induction false} FlightWeightCopies(d: nat, family: Option<Packet>, p: Packet, to: seq<nat>)
    ensures FlightWeight(d, family, Copies(p, to)) == |to| * MsgWeight(d, family, Msg(0, p))
  {
    if to != [] {
      hide FlightWeight, MsgWeight, Weight;
      FlightWeightCopies(d, family, p, to[1..]);
      var one := multiset{Msg(to[0], p)};
      FlightWeightUnion(d, family, one, Copies(p, to[1..]));
      FlightWeightTake(d, family, one, Msg(to[0], p));
      assert one - multiset{Msg(to[0], p)} == multiset{};
      NothingWeighs(d, family, Msg(to[0], p), Msg(0, p));
      OneMore(|to| - 1, MsgWeight(d, family, Msg(0, p)));
    } else {
      hide Weight;
    }
  }

  lemma NothingWeighs(d: nat, family: Option<Packet>, m: Msg, n: Msg)
    requires m.p == n.p
    ensures FlightWeight(d, family, multiset{}) == 0 && MsgWeight(d, family, m) == MsgWeight(d, family, n)
  {
  }

  function FanOut(d: nat, sent: seq<Packet>): nat {
    if sent == [] then 0 else Fan(d, sent[0].ttl) + FanOut(d, sent[1..])
  }

  lemma {:induction false} FanOutBounds(d: nat, sent: seq<Packet>, to: seq<nat>)
    requires |to| <= d
    ensures FlightWeight(d, None, Broadcast(sent, to)) <= FanOut(d, sent)
  {
    if sent != [] {
      FlightWeightUnion(d, None, Copies(sent[0], to), Broadcast(sent[1..], to));
      FlightWeightCopies(d, None, sent[0], to);
      FanOutBounds(d, sent[1..], to);
      ProductsOrdered(|to|, d, Weight(d, sent[0].ttl));
    }
  }

  lemma {:induction false} FanOutAppend(d: nat, a: seq<Packet>, b: seq<Packet>)
    ensures FanOut(d, a + b) == FanOut(d, a) + FanOut(d, b)
  {
    if a == [] {
      assert a + b == b;
    } else {
      FanOutAppend(d, a[1..], b);
      assert (a + b)[1..] == a[1..] + b;
    }
  }

  const ALL_KEYS: set<int> := set k: int | 0 <= k < 0x100

  function Unmarked(s: State): nat {
    |ALL_KEYS - s.link.processed|
  }

  function Times(a: nat, b: nat): nat {
    a * b
  }

  /** What the future of one node is worth: falling asleep, handling a packet under an unmarked key, a pending resend.
      */
  function NodePotential(d: nat, s: State): nat {
    if s.power != Awake then 0
    else 1 + 2 * Fan(d, 0xff) + Times(Unmarked(s), 1 + Fan(d, STD_TTL)) + if s.link.resend then Fan(d, STD_TTL) else 0
  }

  function ParticipantPotential(d: nat, v: Participant): nat {
    match v
    case Hub => 0
    case Sensor(s) => NodePotential(d, s)
  }

  function NodesPotential(d: nat, vs: seq<Participant>): nat {
    if vs == [] then 0 else ParticipantPotential(d, vs[0]) + NodesPotential(d, vs[1..])
  }

  lemma {:induction false} NodesPotentialUpdate(d: nat, vs: seq<Participant>, i: nat, v: Participant)
    requires i < |vs|
    ensures NodesPotential(d, vs[i := v]) + ParticipantPotential(d, vs[i])
            == NodesPotential(d, vs) + ParticipantPotential(d, v)
  {
    if i == 0 {
      assert vs[0 := v][1..] == vs[1..];
    } else {
      NodesPotentialUpdate(d, vs[1..], i - 1, v);
      assert vs[i := v][1..] == vs[1..][i - 1 := v];
    }
  }

  ghost function Potential(d: nat, net: Net): nat {
    NodesPotential(d, net.nodes) + FlightWeight(d, None, net.flight)
  }

  // ---- One node -------------------------------------------------------------------------------------------------

  /** Forwarding a packet whose ttl is used up: the 8-bit ttl wraps around to 255. */
  predicate Wraps(s: State, p: Packet) {
    s.power == Awake && PassedOn(s, p) && Packable(p) && p.ttl == 0
  }

  /** Only a node-connected response for another node of the same id is forwarded without a look at its ttl. */
  lemma WrapsOnlyMisaddressedResponses(s: State, p: Packet)
    ensures Wraps(s, p) <==>
              && s.power == Awake && p.ttl == 0 && p.dest == s.link.id
              && p.ptype == PT_NODE_CONNECTED_RESP && ADDRESS_SIZE <= |p.data| <= MAX_DATA && !CarriesAddress(p, s.addr)
    ensures PassedOn(s, p) ==> (Decremented(p.ttl) < p.ttl <==> p.ttl != 0)
  {
  }

  lemma MarkingLowers(s: State, k: uint8, s': State)
    requires s'.link.processed == s.link.processed + {k as int}
    ensures Unmarked(s') <= Unmarked(s)
    ensures k !in s.link.processed ==> Unmarked(s') == Unmarked(s) - 1
  {
    var before, after := ALL_KEYS - s.link.processed, ALL_KEYS - s'.link.processed;
    if k in s.link.processed {
      assert after == before;
    } else {
      assert k as int in ALL_KEYS;
      assert after == before - {k as int};
    }
  }

  lemma ProcessedLowers(d: nat, s: State, p: Packet, env: Env)
    requires AwaitingInv(s) && s.power == Awake && Processes(s, p)
    ensures var o := Processed(s, p, env);
            NodePotential(d, o.st) + FanOut(d, o.sent) + 1 <= NodePotential(d, s) + Weight(d, p.ttl)
  {
    hide Processed, Weight, Fan, Times, Unmarked;
    var o := Processed(s, p, env);
    ProcessedSends(s, p, env);
    if p.ptype == PT_GO_TO_SLEEP {
      assert FanOut(d, [p]) == Fan(d, p.ttl) && [p, p][1..] == [p];
      WeightGrows(d, p.ttl, 0xff);
    } else {
      ProcessedMarks(s, p, env);
      TimesLowers(s, p.key, o.st, 1 + Fan(d, STD_TTL));
      assert o.sent != [] ==> o.sent[1..] == [];
      assert FanOut(d, o.sent) <= Fan(d, STD_TTL);
    }
  }

  /** A packet of its own is handled under an unmarked key; a response that is taken sends nothing. */
  lemma ProcessedMarks(s: State, p: Packet, env: Env)
    requires AwaitingInv(s) && s.power == Awake && Processes(s, p) && p.ptype != PT_GO_TO_SLEEP
    ensures var o := Processed(s, p, env);
            && o.st.link.processed == s.link.processed + {p.key as int} && o.st.link.resend == s.link.resend
            && (o.sent != [] ==> p.key !in s.link.processed)
  {
    ProcessedEffect(s, p, env);
    ProcessedSends(s, p, env);
    hide Processed;
  }

  lemma TimesLowers(s: State, k: uint8, s': State, c: nat)
    requires s'.link.processed == s.link.processed + {k as int}
    ensures Times(Unmarked(s'), c) <= Times(Unmarked(s), c)
    ensures k !in s.link.processed ==> Times(Unmarked(s'), c) + c <= Times(Unmarked(s), c)
  {
    MarkingLowers(s, k, s');
    ProductsOrdered(Unmarked(s'), Unmarked(s), c);
  }

  lemma ResendLowers(d: nat, s: State)
    requires AwaitingInv(s)
    ensures var o := ResendIfNeeded(s);
            NodePotential(d, o.st) + FanOut(d, o.sent)
            <= NodePotential(d, s) + if s.power == Awake then 0 else Fan(d, STD_TTL)
  {
  }

  /** Receiving a packet uses up at least one unit, unless the ttl wraps; then it adds a bounded amount. */
  lemma ReceivingLowers(d: nat, s: State, p: Packet, env: Env)
    requires AwaitingInv(s)
    ensures var o := Received(s, p, env);
            NodePotential(d, o.st) + FanOut(d, o.sent) + 1
            <= NodePotential(d, s) + Weight(d, p.ttl) + if Wraps(s, p) then Fan(d, 0xff) else 0
  {
    if s.power == Awake {
      var o := Handled(s, p, env);
      HandledAwaiting(s, p, env);
      if Processes(s, p) {
        ProcessedLowers(d, s, p, env);
      } else if PassedOn(s, p) && Packable(p) {
        assert o.sent[1..] == [];
      }
      assert NodePotential(d, o.st) + FanOut(d, o.sent) + 1
             <= NodePotential(d, s) + Weight(d, p.ttl) + if Wraps(s, p) then Fan(d, 0xff) else 0;
      if o.st.power == Awake {
        ResendLowers(d, o.st);
        FanOutAppend(d, o.sent, ResendIfNeeded(o.st).sent);
      }
    }
  }

  /** What one disturbance can add at most. */
  function Disturbance(d: nat): nat {
    2 + 3 * Fan(d, 0xff) + 0x100 * (1 + Fan(d, STD_TTL)) + 2 * Fan(d, STD_TTL) + Weight(d, 0xff)
  }

  lemma NodePotentialBound(d: nat, s: State)
    ensures NodePotential(d, s) <= 1 + 2 * Fan(d, 0xff) + 0x100 * (1 + Fan(d, STD_TTL)) + Fan(d, STD_TTL)
  {
    ByteSetBound(ALL_KEYS - s.link.processed);
    ProductsOrdered(Unmarked(s), 0x100, 1 + Fan(d, STD_TTL));
  }

  lemma LocalBounded(d: nat, s: State, e: Event)
    requires AwaitingInv(s) && !e.Receive?
    ensures var o := Step(s, e);
            NodePotential(d, o.st) + FanOut(d, o.sent) <= NodePotential(d, s) + Disturbance(d)
  {
    var o := Step(s, e);
    match e
    case Reboot(be) => NodePotentialBound(d, o.st);
    case Poll => ResendLowers(d, s);
    case Connected =>
      AwaitingKept(s, e);
      assert o.sent != [] ==> o.sent[1..] == [] && o.sent[0].ttl == STD_TTL;
      assert FanOut(d, o.sent) <= Fan(d, STD_TTL);
    case _ =>
  }

  // ---- Whole runs -----------------------------------------------------------------------------------------------

  predicate DegreeAtMost(d: nat, links: seq<seq<nat>>) {
    forall i :: 0 <= i < |links| ==> |links[i]| <= d
  }

  /** Anything but the plain delivery of a packet: a wrapping delivery, or an action that is not a delivery. */
  predicate Disturbs(net: Net, a: Action)
    requires NetOk(net) && Enabled(net, a)
  {
    match a
    case Deliver(m, _) => net.nodes[m.to].Sensor? && Wraps(net.nodes[m.to].st, m.p)
    case _ => true
  }

  lemma SteppedPotential(d: nat, net: Net, i: nat, o: Out)
    requires i < |net.nodes| == |net.peers| && |net.peers[i]| <= d
    ensures Potential(d, Stepped(net, i, o)) + ParticipantPotential(d, net.nodes[i])
            <= Potential(d, net) + NodePotential(d, o.st) + FanOut(d, o.sent)
  {
    NodesPotentialUpdate(d, net.nodes, i, Sensor(o.st));
    FlightWeightUnion(d, None, net.flight, Broadcast(o.sent, net.peers[i]));
    FanOutBounds(d, o.sent, net.peers[i]);
  }

  lemma DeliveryPotential(d: nat, net: Net, m: Msg, env: Env)
    requires NetOk(net) && Enabled(net, Deliver(m, env)) && DegreeAtMost(d, net.peers)
    ensures Potential(d, Apply(net, Deliver(m, env))) + 1
            <= Potential(d, net) + if Disturbs(net, Deliver(m, env)) then Disturbance(d) else 0
  {
    hide Received, Step, NodesPotential, NodePotential, Weight, Fan;
    FlightWeightTake(d, None, net.flight, m);
    if net.nodes[m.to].Sensor? {
      var s := net.nodes[m.to].st;
      ReceivingLowers(d, s, m.p, env);
      SteppedPotential(d, Taken(net, m), m.to, Received(s, m.p, env));
    }
  }

  /** A delivery lowers the potential unless its ttl wraps; no action raises it by more than a constant. */
  lemma ActionPotential(d: nat, net: Net, a: Action)
    requires NetOk(net) && Enabled(net, a) && DegreeAtMost(d, net.peers)
    ensures Potential(d, Apply(net, a)) + (if a.Deliver? then 1 else 0)
            <= Potential(d, net) + if Disturbs(net, a) then Disturbance(d) else 0
  {
    hide Received, Step, Delivered, NodesPotential, NodePotential, Weight, Fan;
    match a
    case Deliver(m, env) => DeliveryPotential(d, net, m, env);
    case Local(i, e) =>
      LocalBounded(d, net.nodes[i].st, e);
      SteppedPotential(d, net, i, Step(net.nodes[i].st, e));
    case FromHub(to, p) =>
      FlightWeightUnion(d, None, net.flight, multiset{Msg(to, p)});
      FlightWeightTake(d, None, multiset{Msg(to, p)}, Msg(to, p));
      assert multiset{Msg(to, p)} - multiset{Msg(to, p)} == multiset{};
      WeightGrows(d, p.ttl, 0xff);
    case Relink(links) =>
    case Lose(m) => FlightWeightTake(d, None, net.flight, m);
  }

  ghost function Disturbances(net: Net, run: seq<Action>): nat
    requires NetOk(net) && Ran(net, run).Some?
  {
    if run == [] then 0
    else
      var before := run[..|run| - 1];
      Disturbances(net, before) + if Disturbs(Ran(net, before).value, run[|run| - 1]) then 1 else 0
  }

  function Deliveries(run: seq<Action>): nat {
    if run == [] then 0
    else Deliveries(run[..|run| - 1]) + if run[|run| - 1].Deliver? then 1 else 0
  }

  predicate RelinksWithin(d: nat, run: seq<Action>) {
    forall a :: a in run && a.Relink? ==> DegreeAtMost(d, a.links)
  }

  lemma {:induction false} DegreesKept(d: nat, net: Net, run: seq<Action>)
    requires NetOk(net) && Ran(net, run).Some? && DegreeAtMost(d, net.peers) && RelinksWithin(d, run)
    ensures DegreeAtMost(d, Ran(net, run).value.peers)
  {
    hide Apply;
    if run != [] {
      DegreesKept(d, net, run[..|run| - 1]);
      LastAction(net, run);
      PeersAfter(Ran(net, run[..|run| - 1]).value, run[|run| - 1]);
    }
  }

  /** ActionPotential for the last action of a run. */
  lemma LastActionPotential(d: nat, net: Net, run: seq<Action>)
    requires NetOk(net) && run != [] && Ran(net, run).Some?
    requires DegreeAtMost(d, net.peers) && RelinksWithin(d, run)
    ensures var before := run[..|run| - 1];
            && Ran(net, before).Some?
            && Potential(d, Ran(net, run).value) + (if run[|run| - 1].Deliver? then 1 else 0)
               <= Potential(d, Ran(net, before).value)
                  + if Disturbs(Ran(net, before).value, run[|run| - 1]) then Disturbance(d) else 0
  {
    LastAction(net, run);
    var before := run[..|run| - 1];
    DegreesKept(d, net, before);
    ActionPotential(d, Ran(net, before).value, run[|run| - 1]);
  }

  /** The two tallies and the potential over the last action of a run. */
  lemma LastTally(d: nat, k: nat, net: Net, run: seq<Action>)
    requires NetOk(net) && run != [] && Ran(net, run).Some?
    requires DegreeAtMost(d, net.peers) && RelinksWithin(d, run) && Disturbance(d) <= k
    ensures var before := run[..|run| - 1];
            && Ran(net, before).Some?
            && var more := Disturbances(net, run) - Disturbances(net, before);
               && 0 <= more <= 1
               && Deliveries(run) + Potential(d, Ran(net, run).value)
                  <= Deliveries(before) + Potential(d, Ran(net, before).value) + if more == 1 then k else 0
  {
    LastActionPotential(d, net, run);
  }

  lemma Accumulate(spent: nat, spent': nat, budget: nat, n: nat, n': nat, k: nat)
    requires spent <= budget + n * k && 0 <= n' - n <= 1
    requires spent' <= spent + if n' - n == 1 then k else 0
    ensures spent' <= budget + n' * k
  {
    OneMore(n, k);
  }

  /** In every topology with at most d peers per node, whatever else happens meanwhile, a run delivers at most a fixed
      number of packets plus a fixed number k per disturbance. */
  lemma {:induction false} DeliveriesBounded(d: nat, k: nat, net: Net, run: seq<Action>)
    requires NetOk(net) && Ran(net, run).Some? && DegreeAtMost(d, net.peers) && RelinksWithin(d, run)
    requires Disturbance(d) <= k
    ensures Deliveries(run) + Potential(d, Ran(net, run).value) <= Potential(d, net) + Disturbances(net, run) * k
  {
    if run != [] {
      var before := run[..|run| - 1];
      LastTally(d, k, net, run);
      DeliveriesBounded(d, k, net, before);
      Accumulate(Deliveries(before) + Potential(d, Ran(net, before).value),
                 Deliveries(run) + Potential(d, Ran(net, run).value),
                 Potential(d, net), Disturbances(net, before), Disturbances(net, run), k);
    }
  }

  /** With deliveries only, none of which wraps a ttl, the network falls silent. */
  lemma {:induction false} FloodsEnd(d: nat, net: Net, run: seq<Action>)
    requires NetOk(net) && Ran(net, run).Some? && DegreeAtMost(d, net.peers)
    requires (forall a :: a in run ==> a.Deliver?) && Disturbances(net, run) == 0
    ensures |run| <= Potential(d, net)
  {
    DeliveriesBounded(d, Disturbance(d), net, run);
    AllDeliveries(run);
  }

  lemma {:induction false} AllDeliveries(run: seq<Action>)
    requires forall a :: a in run ==> a.Deliver?
    ensures Deliveries(run) == |run|
  {
    if run != [] {
      AllDeliveries(run[..|run| - 1]);
    }
  }

  // ---- Floods that do not end -----------------------------------------------------------------------------------

  /** An awake node that a response for another node reaches. */
  ghost predicate Relays(s: State, p: Packet) {
    && s.power == Awake && !s.link.resend && AwaitingInv(s) && |s.addr| == ADDRESS_SIZE
    && p.ptype == PT_NODE_CONNECTED_RESP && ADDRESS_SIZE <= |p.data| <= MAX_DATA
    && !(p.dest == s.link.id && CarriesAddress(p, s.addr))
  }

  /** Such a node with the id the response is sent to. */
  ghost predicate PassesOn(s: State, p: Packet) {
    Relays(s, p) && p.dest == s.link.id
  }

  /** It passes the response on whatever its ttl if it has this id, and until the ttl is used up if it has another. */
  lemma RelayReceives(s: State, p: Packet, ttl: uint8, env: Env)
    requires Relays(s, p)
    ensures Relays(s, p.(ttl := ttl))
    ensures Received(s, p, env)
            == Out(s, if p.dest != s.link.id && p.ttl == 0 then [] else [p.(ttl := Decremented(p.ttl))])
  {
  }

  /** Every node that has just booted passes on the responses to the other nodes without an id. */
  lemma BootedNodePassesOn(addr: seq<uint8>, p: Packet)
    requires |addr| == ADDRESS_SIZE && p.ptype == PT_NODE_CONNECTED_RESP && ADDRESS_SIZE <= |p.data| <= MAX_DATA
    requires p.dest == PROVISIONAL_NODE_ID && !CarriesAddress(p, addr)
    ensures PassesOn(Loading(addr, Nvs(None, None, map[]), true), p)
  {
  }

  /** The response after n hops. */
  function Hopped(p: Packet, n: nat): Packet {
    p.(ttl := (p.ttl - n) % 0x100)
  }

  lemma HopAgain(p: Packet, n: nat)
    ensures Hopped(p, n + 1) == Hopped(p, n).(ttl := Decremented(Hopped(p, n).ttl))
    ensures p.ttl % 2 == 0 && n % 2 == 1 ==> Hopped(p, n).ttl != 0
  {
    var t := (p.ttl - n) % 0x100;
    assert p.ttl - n == 0x100 * ((p.ttl - n) / 0x100) + t;
  }

  /** Who the response reaches after n hops between the two. */
  function Turn(u: nat, v: nat, n: nat): nat {
    if n % 2 == 0 then u else v
  }

  /** The response goes from u to v and back: n deliveries, beginning with the one to u. */
  function Bounces(u: nat, v: nat, p: Packet, env: Env, n: nat): (run: seq<Action>)
    ensures |run| == n && forall a :: a in run ==> a.Deliver?
  {
    if n == 0 then []
    else Bounces(u, v, p, env, n - 1) + [Deliver(Msg(Turn(u, v, n - 1), Hopped(p, n - 1)), env)]
  }

  /** u and v are linked both ways and the response is for neither; u has the id it is sent to. v has it too, or the ttl
      with which u is reached is even, so that v is only ever reached with an odd one. */
  ghost predicate Bouncing(net: Net, u: nat, v: nat, p: Packet) {
    && NetOk(net) && u < |net.nodes| && v < |net.nodes| && net.nodes[u].Sensor? && net.nodes[v].Sensor?
    && v in net.peers[u] && u in net.peers[v]
    && PassesOn(net.nodes[u].st, p) && Relays(net.nodes[v].st, p)
    && (p.dest == net.nodes[v].st.link.id || p.ttl % 2 == 0)
  }

  /** A relay with ttl left hands the response to any of its peers and stays as it is. */
  lemma RelayedTo(net: Net, x: nat, y: nat, q: Packet, env: Env)
    requires NetOk(net) && Msg(x, q) in net.flight && x < |net.nodes| && net.nodes[x].Sensor? && y in net.peers[x]
    requires Relays(net.nodes[x].st, q) && (q.dest == net.nodes[x].st.link.id || q.ttl != 0)
    ensures var after := Delivered(net, Msg(x, q), env);
            && after.nodes == net.nodes && after.peers == net.peers
            && Msg(y, q.(ttl := Decremented(q.ttl))) in after.flight
  {
    hide Relays, Delivered, Received, NetOk;
    RelayReceives(net.nodes[x].st, q, q.ttl, env);
    DeliveryShape(net, Msg(x, q), env);
    assert Received(net.nodes[x].st, q, env).sent == [q.(ttl := Decremented(q.ttl))];
  }

  /** In any network with two such nodes, one of which the response is under way to, there are runs of every length with
      deliveries only, whatever the ttl and whatever else is under way. */
  lemma {:induction false} FloodsNeedNotEnd(net: Net, u: nat, v: nat, p: Packet, env: Env, n: nat)
    requires Bouncing(net, u, v, p) && Msg(u, p) in net.flight
    ensures |Bounces(u, v, p, env, n)| == n && Ran(net, Bounces(u, v, p, env, n)).Some?
    ensures var end := Ran(net, Bounces(u, v, p, env, n)).value;
            && end.nodes == net.nodes && end.peers == net.peers
            && Msg(Turn(u, v, n), Hopped(p, n)) in end.flight
  {
    if n == 0 {
      assert Hopped(p, 0) == p && Ran(net, []) == Some(net);
    } else {
      hide Bouncing, Delivered, NetOk, Hopped, Ran, Turn;
      var before := Bounces(u, v, p, env, n - 1);
      BouncingIsOk(net, u, v, p);
      FloodsNeedNotEnd(net, u, v, p, env, n - 1);
      BouncesOnce(net, Ran(net, before).value, u, v, p, env, n);
      RanExtend(net, before, Deliver(Msg(Turn(u, v, n - 1), Hopped(p, n - 1)), env));
    }
  }

  lemma BouncingIsOk(net: Net, u: nat, v: nat, p: Packet)
    requires Bouncing(net, u, v, p)
    ensures NetOk(net)
  {
  }

  lemma BouncesOnce(start: Net, net: Net, u: nat, v: nat, p: Packet, env: Env, n: nat)
    requires Bouncing(start, u, v, p) && NetOk(net) && net.nodes == start.nodes && net.peers == start.peers && n > 0
    requires Msg(Turn(u, v, n - 1), Hopped(p, n - 1)) in net.flight
    ensures var after := Delivered(net, Msg(Turn(u, v, n - 1), Hopped(p, n - 1)), env);
            && after.nodes == start.nodes && after.peers == start.peers
            && Msg(Turn(u, v, n), Hopped(p, n)) in after.flight
  {
    hide Relays, Delivered, Hopped;
    var x, y, q := Turn(u, v, n - 1), Turn(u, v, n), Hopped(p, n - 1);
    HopAgain(p, n - 1);
    StillRelays(net.nodes[x].st, p, n - 1);
    RelayedTo(net, x, y, q, env);
  }

  lemma StillRelays(s: State, p: Packet, n: nat)
    requires Relays(s, p)
    ensures Relays(s, Hopped(p, n)) && Hopped(p, n).dest == p.dest
  {
  }

  // ---- Two nodes: exactly when it ends --------------------------------------------------------------------------

  /** Two linked nodes, and p under way to one of them. */
  function Pair(s0: State, s1: State, at: nat, p: Packet): Net {
    Net([Sensor(s0), Sensor(s1)], [[1], [0]], multiset{Msg(at, p)})
  }

  lemma PairOk(s0: State, s1: State, at: nat, p: Packet)
    requires at < 2 && Relays(s0, p) && Relays(s1, p)
    ensures NetOk(Pair(s0, s1, at, p))
  {
    hide AwaitingInv;
  }

  /** One delivery: the response goes back, or ends with its ttl. */
  lemma PairDelivers(s0: State, s1: State, at: nat, p: Packet, env: Env)
    requires at < 2 && Relays(s0, p) && Relays(s1, p)
    ensures NetOk(Pair(s0, s1, at, p))
    ensures Delivered(Pair(s0, s1, at, p), Msg(at, p), env)
            == if p.dest != (if at == 0 then s0 else s1).link.id && p.ttl == 0
               then Pair(s0, s1, at, p).(flight := multiset{})
               else Pair(s0, s1, 1 - at, p.(ttl := Decremented(p.ttl)))
  {
    hide Relays, NetOk, Received;
    var net := Pair(s0, s1, at, p);
    PairOk(s0, s1, at, p);
    RelayReceives(s0, p, p.ttl, env);
    RelayReceives(s1, p, p.ttl, env);
    BroadcastOne(p.(ttl := Decremented(p.ttl)), 1 - at);
    assert net.nodes[at := net.nodes[at]] == net.nodes;
  }

  /** No response is ever used up between the two. */
  predicate Endless(s1: State, p: Packet) {
    s1.link.id == p.dest || p.ttl % 2 == 0
  }

  /** Where n deliveries lead. */
  function PairAfter(s0: State, s1: State, p: Packet, n: nat): Net {
    if Endless(s1, p) || n <= p.ttl then Pair(s0, s1, n % 2, Hopped(p, n))
    else Pair(s0, s1, 0, p).(flight := multiset{})
  }

  lemma PairStep(s0: State, s1: State, p: Packet, n: nat, a: Action)
    requires PassesOn(s0, p) && Relays(s1, p) && a.Deliver?
    requires NetOk(PairAfter(s0, s1, p, n)) && Enabled(PairAfter(s0, s1, p, n), a)
    ensures Apply(PairAfter(s0, s1, p, n), a) == PairAfter(s0, s1, p, n + 1)
    ensures Endless(s1, p) || n <= p.ttl
  {
    hide Relays, NetOk, Delivered, Hopped;
    if Endless(s1, p) || n <= p.ttl {
      assert a.m == Msg(n % 2, Hopped(p, n));
      StillRelays(s0, p, n);
      StillRelays(s1, p, n);
      PairDelivers(s0, s1, n % 2, Hopped(p, n), a.env);
      HopAgain(p, n);
      UsedUp(s1, p, n);
    }
  }

  /** The ttl is used up at the neighbour, which has another id, or never. */
  lemma UsedUp(s1: State, p: Packet, n: nat)
    requires Endless(s1, p) || n <= p.ttl
    ensures s1.link.id != p.dest && n % 2 == 1 ==> (Hopped(p, n).ttl == 0 <==> !Endless(s1, p) && n == p.ttl)
    ensures s1.link.id != p.dest && !Endless(s1, p) && n == p.ttl ==> n % 2 == 1
  {
    HopAgain(p, n);
  }

  lemma {:induction false} PairRuns(s0: State, s1: State, p: Packet, run: seq<Action>)
    requires PassesOn(s0, p) && Relays(s1, p) && NetOk(Pair(s0, s1, 0, p))
    requires Ran(Pair(s0, s1, 0, p), run).Some? && forall a :: a in run ==> a.Deliver?
    ensures Ran(Pair(s0, s1, 0, p), run).value == PairAfter(s0, s1, p, |run|)
    ensures Endless(s1, p) || |run| <= p.ttl + 1
  {
    if run == [] {
      assert Hopped(p, 0) == p;
    } else {
      hide PassesOn, Relays, NetOk, Apply, PairAfter, Endless;
      LastAction(Pair(s0, s1, 0, p), run);
      PairRuns(s0, s1, p, run[..|run| - 1]);
      PairStep(s0, s1, p, |run| - 1, run[|run| - 1]);
    }
  }

  /** No run with deliveries only is longer. */
  ghost predicate RunsWithin(net: Net, bound: nat)
    requires NetOk(net)
  {
    forall run: seq<Action> :: (forall a :: a in run ==> a.Deliver?) && Ran(net, run).Some? ==> |run| <= bound
  }

  /** A node that a response reaches which is for another node of its id, and one awake neighbour the response is not
      for either: the runs are bounded exactly if the neighbour has another id and the ttl at the node is odd. */
  lemma {:induction false} PairEndsIff(s0: State, s1: State, p: Packet, env: Env)
    requires PassesOn(s0, p) && Relays(s1, p)
    ensures NetOk(Pair(s0, s1, 0, p))
    ensures (exists bound: nat :: RunsWithin(Pair(s0, s1, 0, p), bound)) <==> s1.link.id != p.dest && p.ttl % 2 == 1
    ensures s1.link.id != p.dest && p.ttl % 2 == 1 ==> RunsWithin(Pair(s0, s1, 0, p), p.ttl as int + 1)
  {
    var net := Pair(s0, s1, 0, p);
    PairOk(s0, s1, 0, p);
    if Endless(s1, p) {
      assert Bouncing(net, 0, 1, p);
      if bound: nat :| RunsWithin(net, bound) {
        FloodsNeedNotEnd(net, 0, 1, p, env, bound + 1);
      }
    } else {
      forall run: seq<Action> | (forall a :: a in run ==> a.Deliver?) && Ran(net, run).Some?
        ensures |run| <= p.ttl + 1
      {
        PairRuns(s0, s1, p, run);
      }
      assert RunsWithin(net, p.ttl as int + 1);
    }
  }
}
