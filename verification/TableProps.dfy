/** What every peer of the table can rely on while the others come, go and discover on the same pools: its own
    discovery is one of the runs that Callbacks.dfy and Discovery.dfy are about. */
module TableProps {
  import opened Types
  import opened GattSpec
  import opened PoolBlocks
  import opened Server
  import opened TableSpec
  import Callbacks
  import Discovery

  // ---- One peer among the others --------------------------------------------------------------------------------

  /** The operation neither deletes this peer nor starts its discovery again. */
  predicate Leaves(op: Op, conn: uint16) {
    op.conn == conn ==> !op.Delete? && !op.Discover?
  }

  predicate Stays(ops: seq<Op>, conn: uint16) {
    forall op :: op in ops ==> Leaves(op, conn)
  }

  predicate Has(s: PeerTable, conn: uint16) {
    Find(s.rows, conn) < |s.rows|
  }

  function DiscOf(s: PeerTable, conn: uint16): Disc
    requires Has(s, conn)
  {
    s.rows[Find(s.rows, conn)].disc
  }

  lemma DiscIs(s: PeerTable, conn: uint16, i: nat)
    requires TableValid(s) && i < |s.rows| && s.rows[i].conn == conn
    ensures Has(s, conn) && DiscOf(s, conn) == s.rows[i].disc
  {
  }

  /** Whatever is done to another peer this one keeps its tree and how far it is, beside the new pools. */
  lemma OthersOnlyUsePools(s: PeerTable, op: Op, conn: uint16)
    requires TableValid(s) && Applicable(s, op) && Has(s, conn) && Leaves(op, conn)
    requires !(op.Report? && op.conn == conn)
    ensures var s' := Applied(s, op);
            Has(s', conn) && DiscOf(s', conn) == DiscOf(s, conn).(pools := s'.pools)
  {
    hide Callback, DiscAll, GivenBack, TableValid;
    assert Applied(s, op).rows != [];
    var s', i, n := Applied(s, op), Find(s.rows, conn), Find(s.rows, op.conn);
    TableValidKept(s, op);
    RowsShareThePools(s);
    if s' == s {
    } else if op.Add? {
      DiscIs(s', conn, i + 1);
    } else if op.Delete? {
      DiscIs(s', conn, if i < n then i else i - 1);
    } else {
      DiscIs(s', conn, i);
    }
  }

  lemma RowsShareThePools(s: PeerTable)
    requires TableValid(s)
    ensures forall i :: 0 <= i < |s.rows| ==> s.rows[i].disc.pools == s.pools
  {
  }

  /** A callback of this peer is one of its discovery. */
  lemma OwnCallback(s: PeerTable, op: Op)
    requires TableValid(s) && Applicable(s, op) && op.Report?
    ensures var s' := Applied(s, op);
            Has(s, op.conn) && Has(s', op.conn) && DiscOf(s', op.conn) == Callback(DiscOf(s, op.conn), op.report, op.rc)
  {
    hide Callback, TableValid;
    TableValidKept(s, op);
    DiscIs(Applied(s, op), op.conn, Find(s.rows, op.conn));
  }

  lemma {:induction false} HasOverRuns(s: PeerTable, ops: seq<Op>, conn: uint16)
    requires TableValid(s) && Has(s, conn) && Stays(ops, conn) && Run(s, ops).Some?
    ensures TableValid(Run(s, ops).value) && Has(Run(s, ops).value, conn)
  {
    if ops != [] {
      hide TableValid, Applied, Applicable, Has, Leaves;
      RunBefore(s, ops);
      var before, op := ops[..|ops| - 1], ops[|ops| - 1];
      HasOverRuns(s, before, conn);
      HasAfterOne(Run(s, before).value, op, conn);
    }
  }

  lemma HasAfterOne(s: PeerTable, op: Op, conn: uint16)
    requires TableValid(s) && Applicable(s, op) && Has(s, conn) && Leaves(op, conn)
    ensures TableValid(Applied(s, op)) && Has(Applied(s, op), conn)
  {
    hide TableValid, Applied, Applicable, Has;
    TableValidKept(s, op);
    if op.Report? && op.conn == conn {
      OwnCallback(s, op);
    } else {
      OthersOnlyUsePools(s, op, conn);
    }
  }

  /** The run as this peer sees it: its callbacks, and others using the pools. */
  ghost function Seen(s: PeerTable, ops: seq<Op>, conn: uint16): seq<Callbacks.Event>
    requires Run(s, ops).Some?
  {
    if ops == [] then []
    else
      Seen(s, ops[..|ops| - 1], conn)
      + [if ops[|ops| - 1].Report? && ops[|ops| - 1].conn == conn
         then Callbacks.Event(ops[|ops| - 1].report, ops[|ops| - 1].rc)
         else Callbacks.Others(Run(s, ops).value.pools)]
  }

  lemma {:induction false} RanAppends(d: Disc, es: seq<Callbacks.Event>, e: Callbacks.Event)
    requires Callbacks.Ran(d, es).Some? && Callbacks.Possible(Callbacks.Ran(d, es).value, e)
    ensures Callbacks.Ran(d, es + [e]) == Some(Callbacks.Happened(Callbacks.Ran(d, es).value, e))
  {
    assert (es + [e])[..|es + [e]| - 1] == es;
  }

  lemma {:induction false} SeenIsARun(s: PeerTable, ops: seq<Op>, conn: uint16)
    requires TableValid(s) && Has(s, conn) && Stays(ops, conn) && Run(s, ops).Some?
    ensures Has(Run(s, ops).value, conn)
    ensures Callbacks.Ran(DiscOf(s, conn), Seen(s, ops, conn)) == Some(DiscOf(Run(s, ops).value, conn))
  {
    if ops != [] {
      hide TableValid, Applied, Applicable, Has, DiscOf, Leaves, Callback, Callbacks.Ran;
      RunBefore(s, ops);
      var before, op := ops[..|ops| - 1], ops[|ops| - 1];
      SeenIsARun(s, before, conn);
      HasOverRuns(s, before, conn);
      var b := Run(s, before).value;
      SeenNext(b, op, conn);
      RanAppends(DiscOf(s, conn), Seen(s, before, conn),
                 if op.Report? && op.conn == conn then Callbacks.Event(op.report, op.rc)
                 else Callbacks.Others(Applied(b, op).pools));
    } else {
      assert Callbacks.Ran(DiscOf(s, conn), []) == Some(DiscOf(s, conn));
    }
  }

  lemma SeenNext(s: PeerTable, op: Op, conn: uint16)
    requires TableValid(s) && Applicable(s, op) && Has(s, conn) && Leaves(op, conn)
    ensures var e := if op.Report? && op.conn == conn then Callbacks.Event(op.report, op.rc)
                     else Callbacks.Others(Applied(s, op).pools);
            && Has(Applied(s, op), conn) && Callbacks.Possible(DiscOf(s, conn), e)
            && DiscOf(Applied(s, op), conn) == Callbacks.Happened(DiscOf(s, conn), e)
  {
    hide TableValid, Applied, Callback;
    if op.Report? && op.conn == conn {
      OwnCallback(s, op);
    } else {
      OthersOnlyUsePools(s, op, conn);
    }
  }

  /** For each peer of the table, whatever the others do meanwhile: after mesh_peer_disc_all returned 0 the completion
      callback runs exactly once in a run in which this discovery comes to rest, and not before; after another result no
      callback can follow. */
  lemma {:induction false} EveryPeerReportsOnce(s: PeerTable, conn: uint16, start: int, ops: seq<Op>)
    requires TableValid(s) && Has(s, conn) && !DiscOf(s, conn).asserted && Stays(ops, conn)
    requires Applicable(s, Discover(conn, start)) && Run(Applied(s, Discover(conn, start)), ops).Some?
    requires forall op :: op in ops && op.Report? && op.conn == conn && op.report.ChrItem? ==> op.report.chr.val != 0
    ensures Has(Run(Applied(s, Discover(conn, start)), ops).value, conn)
    ensures var e := DiscOf(Run(Applied(s, Discover(conn, start)), ops).value, conn);
            if Status(s, Discover(conn, start)) != 0
            then e.calls == [] && forall op :: op in ops && op.Report? ==> op.conn != conn
            else e.asserted || |e.calls| == if e.proc.Idle? then 1 else 0
  {
    var s1 := Applied(s, Discover(conn, start));
    DiscoverOutcome(s, conn, start);
    DiscoveryStarts(s, conn, start);
    SeenIsARun(s1, ops, conn);
    SeenHolds(s1, ops, conn);
    Callbacks.CompletionReportedOnce(DiscOf(s, conn), start, Seen(s1, ops, conn));
  }

  /** And what it reports is what ended its own discovery. */
  lemma {:induction false} EveryPeerReportsWhatEndedIt(s: PeerTable, conn: uint16, ops: seq<Op>)
    requires TableValid(s) && Has(s, conn) && !DiscOf(s, conn).asserted && Stays(ops, conn)
    requires Applicable(s, Discover(conn, 0)) && Run(Applied(s, Discover(conn, 0)), ops).Some?
    ensures Has(Run(Applied(s, Discover(conn, 0)), ops).value, conn)
    ensures var s1 := Applied(s, Discover(conn, 0));
            var es := Seen(s1, ops, conn);
            && Callbacks.Ran(DiscAll(DiscOf(s, conn), 0), es).Some?
            && DiscOf(Run(s1, ops).value, conn).calls
               == match Callbacks.EndedWith(DiscAll(DiscOf(s, conn), 0), es) { case Some(rc) => [rc] case None => [] }
  {
    var s1 := Applied(s, Discover(conn, 0));
    DiscoveryStarts(s, conn, 0);
    SeenIsARun(s1, ops, conn);
    Callbacks.ReportsWhatEndedIt(DiscOf(s, conn), Seen(s1, ops, conn));
  }

  // ---- What the functions return --------------------------------------------------------------------------------

  /** mesh_peer_add refuses a known handle (2) and a full table (6); else the peer is there, first in the list, with
      nothing discovered and nothing under way. */
  lemma AddOutcome(s: PeerTable, conn: uint16)
    requires TableValid(s)
    ensures var rc, s' := Status(s, Add(conn)), Applied(s, Add(conn));
            if Has(s, conn) then rc == 2 && s' == s
            else if s.slots == 0 then rc == 6 && s' == s
            else
              && rc == 0 && Has(s', conn) && DiscOf(s', conn) == Disc([], s.pools, 0, 0, Idle, [], [], false)
              && s'.pools == s.pools && s'.slots == s.slots - 1
              && |s'.rows| == |s.rows| + 1 && s'.rows[0].conn == conn && s'.rows[1..] == s.rows
  {
  }

  /** mesh_peer_delete refuses an unknown handle (7); else the peer is gone, its slot is free, and the pools have its
      blocks. */
  lemma DeleteOutcome(s: PeerTable, conn: uint16)
    requires TableValid(s)
    ensures var rc, s' := Status(s, Delete(conn)), Applied(s, Delete(conn));
            if !Has(s, conn) then rc == 7 && s' == s
            else
              && rc == 0 && !Has(s', conn) && s'.slots == s.slots + 1
              && s'.pools == GivenBack(s.pools, DiscOf(s, conn).tree)
  {
    DeletedIsGone(s, conn);
  }

  /** mesh_peer_disc_all refuses an unknown handle (7). For a peer of the table it returns what the stack answered, and
      that is 0 exactly if the discovery of services is then under way. */
  lemma DiscoverOutcome(s: PeerTable, conn: uint16, start: int)
    requires TableValid(s) && Applicable(s, Discover(conn, start))
    ensures var rc, s' := Status(s, Discover(conn, start)), Applied(s, Discover(conn, start));
            if !Has(s, conn) then rc == 7 && s' == s
            else
              && rc == start && Has(s', conn) && (rc == 0 <==> DiscOf(s', conn).proc.AllSvcs?)
              && (rc != 0 ==> DiscOf(s', conn).proc.Idle?)
              && DiscOf(s', conn).calls == [] && DiscOf(s', conn).tree == []
              && s'.pools == GivenBack(s.pools, DiscOf(s, conn).tree) && s'.slots == s.slots
  {
    if Has(s, conn) {
      DiscoveryStarts(s, conn, start);
      RowsShareThePools(s);
    }
  }

  lemma DiscoveryStarts(s: PeerTable, conn: uint16, rc: int)
    requires TableValid(s) && Has(s, conn) && Applicable(s, Discover(conn, rc))
    ensures var s1 := Applied(s, Discover(conn, rc));
            TableValid(s1) && Has(s1, conn) && DiscOf(s1, conn) == DiscAll(DiscOf(s, conn), rc)
  {
    hide TableValid, DiscAll;
    TableValidKept(s, Discover(conn, rc));
    DiscIs(Applied(s, Discover(conn, rc)), conn, Find(s.rows, conn));
  }

  /** The callbacks this peer sees are those of the run. */
  lemma {:induction false} SeenHolds(s: PeerTable, ops: seq<Op>, conn: uint16)
    requires Run(s, ops).Some?
    ensures forall e :: e in Seen(s, ops, conn) && e.Event? ==> Report(conn, e.report, e.rc) in ops
    ensures forall op :: op in ops && op.Report? && op.conn == conn ==>
              Callbacks.Event(op.report, op.rc) in Seen(s, ops, conn)
  {
    if ops != [] {
      var before, op := ops[..|ops| - 1], ops[|ops| - 1];
      SeenHolds(s, before, conn);
      assert ops == before + [op];
    }
  }

  // ---- Peers that are servers -----------------------------------------------------------------------------------

  /** What a server with table t reports next, or a failure. */
  predicate FromServer(t: Tree, d: Disc, made: nat, r: GattSpec.Report) {
    var items := Discovery.Items(t, d.proc);
    r.Error? || r == if made < |items| then items[made] else Done
  }

  /** How many items the procedure under way has then reported. */
  function MadeNext(t: Tree, d: Disc, made: nat, r: GattSpec.Report): nat {
    if !r.Error? && made < |Discovery.Items(t, d.proc)| then made + 1 else 0
  }

  /** The items reported by the procedure under way, if all this peer reported in the run is what a server with table t
      reports. */
  ghost function Made(t: Tree, s: PeerTable, ops: seq<Op>, conn: uint16): Option<nat>
    requires Run(s, ops).Some?
  {
    if ops == [] then Some(0)
    else
      var before, op := ops[..|ops| - 1], ops[|ops| - 1];
      match Made(t, s, before, conn)
      case None => None
      case Some(made) =>
        if op.conn != conn || op.Add? then Some(made)
        else if !op.Report? then Some(0)
        else
          var d := DiscOf(Run(s, before).value, conn);
          if FromServer(t, d, made, op.report) then Some(MadeNext(t, d, made, op.report)) else None
  }

  function MoveOf(op: Op): Discovery.Move
    requires op.Report?
  {
    if op.report.Error? then Discovery.Fail(op.report.status) else Discovery.Answer(op.rc)
  }

  /** The run as moves of this peer's discovery. */
  ghost function Moves(s: PeerTable, ops: seq<Op>, conn: uint16): seq<Discovery.Move>
    requires Run(s, ops).Some?
  {
    if ops == [] then []
    else
      var op := ops[|ops| - 1];
      Moves(s, ops[..|ops| - 1], conn)
      + [if op.Report? && op.conn == conn then MoveOf(op) else Discovery.Move.Others(Run(s, ops).value.pools)]
  }

  lemma {:induction false} PlayedAppends(t: Tree, x: Discovery.Session, ms: seq<Discovery.Move>, m: Discovery.Move)
    requires Discovery.MovesOk(ms) && Discovery.Played(t, x, ms).Some?
    requires (m.Fail? ==> m.status != 0) && (Discovery.Played(t, x, ms).value.d.proc.Idle? ==> m.Others?)
    ensures Discovery.MovesOk(ms + [m])
    ensures Discovery.Played(t, x, ms + [m]) == Some(Discovery.Next(t, Discovery.Played(t, x, ms).value, m))
  {
    assert (ms + [m])[..|ms + [m]| - 1] == ms;
  }

  lemma ServerMove(t: Tree, d: Disc, made: nat, op: Op)
    requires op.Report? && Fits(d.proc, op.report) && FromServer(t, d, made, op.report)
    ensures var m := MoveOf(op); (m.Fail? ==> m.status != 0) && !m.Others?
    ensures Discovery.Next(t, Discovery.Session(d, made), MoveOf(op))
            == Discovery.Session(Callback(d, op.report, op.rc), MadeNext(t, d, made, op.report))
  {
    hide SvcAdd, ChrAdd, DscAdd, DiscChrs, DiscDscs, Discovery.Items;
    Discovery.ItemsFit(t, d.proc);
    if !op.report.Error? && !op.report.Done? {
      assert Callback(d, op.report, op.rc) == Callback(d, op.report, 0);
    }
  }

  lemma {:induction false} MovesArePlayed(t: Tree, s: PeerTable, ops: seq<Op>, conn: uint16)
    requires TableValid(s) && Has(s, conn) && Stays(ops, conn) && Run(s, ops).Some? && Made(t, s, ops, conn).Some?
    ensures Has(Run(s, ops).value, conn) && Discovery.MovesOk(Moves(s, ops, conn))
    ensures Discovery.Played(t, Discovery.Session(DiscOf(s, conn), 0), Moves(s, ops, conn))
            == Some(Discovery.Session(DiscOf(Run(s, ops).value, conn), Made(t, s, ops, conn).value))
  {
    var x := Discovery.Session(DiscOf(s, conn), 0);
    if ops != [] {
      hide TableValid, Applied, Has, DiscOf, Callback, Discovery.Played, Discovery.MovesOk, Discovery.Next, FromServer,
           MadeNext, MoveOf;
      RunBefore(s, ops);
      var before, op := ops[..|ops| - 1], ops[|ops| - 1];
      MovesArePlayed(t, s, before, conn);
      HasOverRuns(s, before, conn);
      var b, made := Run(s, before).value, Made(t, s, before, conn).value;
      NextSession(t, b, op, conn, made);
      PlayedAppends(t, x, Moves(s, before, conn), MoveSeen(b, op, conn));
    } else {
      assert Discovery.Played(t, x, []) == Some(x);
    }
  }

  ghost function MoveSeen(s: PeerTable, op: Op, conn: uint16): Discovery.Move
    requires Applicable(s, op)
  {
    if op.Report? && op.conn == conn then MoveOf(op) else Discovery.Move.Others(Applied(s, op).pools)
  }

  lemma NextSession(t: Tree, s: PeerTable, op: Op, conn: uint16, made: nat)
    requires TableValid(s) && Applicable(s, op) && Has(s, conn) && Leaves(op, conn)
    requires op.Report? && op.conn == conn ==> FromServer(t, DiscOf(s, conn), made, op.report)
    ensures var m := MoveSeen(s, op, conn);
            && Has(Applied(s, op), conn) && (DiscOf(s, conn).proc.Idle? ==> m.Others?) && (m.Fail? ==> m.status != 0)
            && Discovery.Next(t, Discovery.Session(DiscOf(s, conn), made), m)
               == Discovery.Session(DiscOf(Applied(s, op), conn),
                                    if op.Report? && op.conn == conn then MadeNext(t, DiscOf(s, conn), made, op.report)
                                    else made)
  {
    hide TableValid, Applied, Callback, FromServer, MadeNext;
    if op.Report? && op.conn == conn {
      OwnCallback(s, op);
      ServerMove(t, DiscOf(s, conn), made, op);
    } else {
      OthersOnlyUsePools(s, op, conn);
    }
  }

  /** How many callbacks of this peer there were. */
  ghost function CallbacksOf(ops: seq<Op>, conn: uint16): nat {
    if ops == [] then 0
    else CallbacksOf(ops[..|ops| - 1], conn) + if ops[|ops| - 1].Report? && ops[|ops| - 1].conn == conn then 1 else 0
  }

  lemma {:induction false} OwnMovesAreCallbacks(s: PeerTable, ops: seq<Op>, conn: uint16)
    requires Run(s, ops).Some?
    ensures Discovery.Own(Moves(s, ops, conn)) == CallbacksOf(ops, conn)
  {
    if ops != [] {
      var before := ops[..|ops| - 1];
      OwnMovesAreCallbacks(s, before, conn);
      var ms := Moves(s, ops, conn);
      assert ms[..|ms| - 1] == Moves(s, before, conn);
    }
  }

  /** A peer whose server has a well-formed table, in a table of peers that do what they like: it reaches no assertion,
      completion is reported when nothing runs any more and not before, with status 0 exactly its table has been found,
      and without hollow services no more callbacks than Cost allows can come. */
  lemma {:induction false} EveryPeerFindsItsTable(t: Tree, s: PeerTable, conn: uint16, ops: seq<Op>)
    requires TableOk(t) && TableValid(s) && Has(s, conn) && !DiscOf(s, conn).asserted && Stays(ops, conn)
    requires Applicable(s, Discover(conn, 0)) && Run(Applied(s, Discover(conn, 0)), ops).Some?
    requires Made(t, Applied(s, Discover(conn, 0)), ops, conn).Some?
    ensures Has(Run(Applied(s, Discover(conn, 0)), ops).value, conn)
    ensures var e := DiscOf(Run(Applied(s, Discover(conn, 0)), ops).value, conn);
            && !e.asserted && (e.proc.Idle? <==> |e.calls| == 1) && (!e.proc.Idle? ==> e.calls == [])
            && (e.calls == [0] ==> e.tree == t && e.started == Discovery.Schedule(t) && NoHollowService(t))
    ensures NoHollowService(t) ==> CallbacksOf(ops, conn) <= Discovery.Cost(t, Discovery.Schedule(t))
  {
    var s1 := Applied(s, Discover(conn, 0));
    DiscoveryStarts(s, conn, 0);
    MovesArePlayed(t, s1, ops, conn);
    Discovery.DiscoveryFindsTheTable(t, DiscOf(s, conn), Moves(s1, ops, conn));
    if NoHollowService(t) {
      Discovery.DiscoveryEnds(t, DiscOf(s, conn), Moves(s1, ops, conn));
      OwnMovesAreCallbacks(s1, ops, conn);
    }
  }

  // ---- All peers servers ----------------------------------------------------------------------------------------

  /** On the way to its table, or never discovered, or its discovery did not start. */
  ghost predicate FineDisc(t: Tree, d: Disc, made: nat) {
    || Discovery.OnTrack(t, Discovery.Session(d, made), Accounted(d))
    || (d.proc.Idle? && !d.asserted && d.calls == [])
  }

  lemma PoolsAside(t: Tree, d: Disc, made: nat, pools: Pools)
    requires FineDisc(t, d, made)
    ensures FineDisc(t, d.(pools := pools), made)
  {
    hide Discovery.OnTrack, Accounted;
    var x := Discovery.Session(d, made);
    if Discovery.OnTrack(t, x, Accounted(d)) {
      Discovery.OnTrackKept(t, x, Discovery.Move.Others(pools));
    }
  }

  lemma NewlyDiscovered(t: Tree, d: Disc, made: nat, rc: int)
    requires TableOk(t) && FineDisc(t, d, made) && d.proc.Idle?
    ensures FineDisc(t, DiscAll(d, rc), 0)
  {
    FineAsserted(t, d, made);
    hide Discovery.OnTrack, Accounted;
    if rc == 0 {
      Discovery.Begins(t, d);
      RediscoveryGivesAllBack(d, 0);
    }
  }

  lemma FineAsserted(t: Tree, d: Disc, made: nat)
    requires FineDisc(t, d, made)
    ensures !d.asserted && (d.calls == [0] ==> d.tree == t && d.started == Discovery.Schedule(t))
  {
    hide Discovery.OnTrack, Accounted;
    if Discovery.OnTrack(t, Discovery.Session(d, made), Accounted(d)) {
      Discovery.OnTrackSays(t, Discovery.Session(d, made));
    }
  }

  /** A callback with what the server reports loses no block. */
  lemma ServedCallback(t: Tree, d: Disc, made: nat, op: Op)
    requires FineDisc(t, d, made) && op.Report? && Fits(d.proc, op.report) && FromServer(t, d, made, op.report)
    ensures FineDisc(t, Callback(d, op.report, op.rc), MadeNext(t, d, made, op.report))
    ensures !LosesBlocks(d, op.report)
  {
    hide Discovery.OnTrack, Accounted, Callback, LosesBlocks, FromServer, MadeNext, MoveOf, Discovery.Next;
    ServerMove(t, d, made, op);
    Discovery.OnTrackKept(t, Discovery.Session(d, made), MoveOf(op));
    BlocksKeptIffNoneCutOff(d, op.report, op.rc);
  }

  lemma {:induction false} DeletedIsGone(s: PeerTable, conn: uint16)
    requires TableValid(s)
    ensures !Has(Applied(s, Delete(conn)), conn)
  {
    hide GivenBack;
  }

  lemma AddedIsNew(s: PeerTable, op: Op, conn: uint16)
    requires TableValid(s) && Applicable(s, op) && !Has(s, conn) && Has(Applied(s, op), conn)
    ensures op == Add(conn) && DiscOf(Applied(s, op), conn) == NEW_PEER.(pools := s.pools)
  {
    hide Callback, DiscAll, GivenBack;
    assert forall i :: 0 <= i < |s.rows| ==> s.rows[i].conn != conn;
  }

  function MadeAfter(t: Tree, s: PeerTable, op: Op, conn: uint16, made: nat): nat
    requires Applicable(s, op)
  {
    if op.conn != conn || op.Add? then made
    else if !op.Report? then 0
    else MadeNext(t, DiscOf(s, conn), made, op.report)
  }

  /** Whatever happens next, this peer stays fine. */
  lemma StaysFine(t: Tree, s: PeerTable, op: Op, conn: uint16, made: nat)
    requires TableOk(t) && TableValid(s) && Applicable(s, op) && Has(Applied(s, op), conn)
    requires Has(s, conn) ==> FineDisc(t, DiscOf(s, conn), made)
    requires op.Report? && op.conn == conn ==> FromServer(t, DiscOf(s, conn), made, op.report)
    ensures FineDisc(t, DiscOf(Applied(s, op), conn), MadeAfter(t, s, op, conn, made))
    ensures op.Report? && op.conn == conn ==> !CutsOffSome(s, op)
  {
    if !Has(s, conn) {
      AddedIsNew(s, op, conn);
    } else {
      hide TableValid, TableOk, FineDisc, Applied, Callback, LosesBlocks, FromServer, MadeNext;
      var d := DiscOf(s, conn);
      if op.conn == conn && op.Delete? {
        DeletedIsGone(s, conn);
      } else if op.conn == conn && op.Discover? {
        DiscoveryStarts(s, conn, op.start);
        NewlyDiscovered(t, d, made, op.start);
      } else if op.conn == conn && op.Report? {
        OwnCallback(s, op);
        ServedCallback(t, d, made, op);
      } else {
        OthersOnlyUsePools(s, op, conn);
        PoolsAside(t, d, made, Applied(s, op).pools);
      }
    }
  }

  /** All that any peer reported in the run is what a server with its table reports. */
  ghost predicate AllServed(server: uint16 -> Tree, s: PeerTable, ops: seq<Op>)
    requires Run(s, ops).Some?
  {
    forall c: uint16 :: Made(server(c), s, ops, c).Some?
  }

  ghost predicate AllFine(server: uint16 -> Tree, s: PeerTable, ops: seq<Op>)
    requires Run(s, ops).Some? && AllServed(server, s, ops)
  {
    forall c: uint16 :: Has(Run(s, ops).value, c) ==>
      FineDisc(server(c), DiscOf(Run(s, ops).value, c), Made(server(c), s, ops, c).value)
  }

  lemma {:induction false} AllFineOverRuns(server: uint16 -> Tree, s: PeerTable, ops: seq<Op>)
    requires (forall c :: TableOk(server(c))) && TableValid(s) && s.rows == []
    requires Run(s, ops).Some? && AllServed(server, s, ops)
    ensures AllFine(server, s, ops) && !CutsOffDuring(s, ops)
  {
    if ops != [] {
      hide TableOk, TableValid, FineDisc, Applied, Applicable, Has, DiscOf, FromServer, CutsOffSome, MadeNext;
      RunBefore(s, ops);
      var before, op := ops[..|ops| - 1], ops[|ops| - 1];
      forall c: uint16 ensures Made(server(c), s, before, c).Some? {
        assert Made(server(c), s, ops, c).Some?;
      }
      AllFineOverRuns(server, s, before);
      TableValidOverRuns(s, before);
      var b := Run(s, before).value;
      forall c: uint16 | Has(Run(s, ops).value, c)
        ensures FineDisc(server(c), DiscOf(Run(s, ops).value, c), Made(server(c), s, ops, c).value)
        ensures op.Report? && op.conn == c ==> !CutsOffSome(b, op)
      {
        MadeStep(server(c), s, ops, c);
        StaysFine(server(c), b, op, c, Made(server(c), s, before, c).value);
      }
      NoCutByOthers(b, op);
    }
  }

  lemma {:induction false} MadeStep(t: Tree, s: PeerTable, ops: seq<Op>, conn: uint16)
    requires ops != [] && Run(s, ops).Some? && Made(t, s, ops, conn).Some?
    ensures var before, op := ops[..|ops| - 1], ops[|ops| - 1];
            && Run(s, before).Some? && Made(t, s, before, conn).Some? && Applicable(Run(s, before).value, op)
            && Made(t, s, ops, conn).value
               == MadeAfter(t, Run(s, before).value, op, conn, Made(t, s, before, conn).value)
            && (op.Report? && op.conn == conn ==>
                  FromServer(t, DiscOf(Run(s, before).value, conn), Made(t, s, before, conn).value, op.report))
  {
    hide FromServer, MadeNext, Applied;
  }

  lemma NoCutByOthers(s: PeerTable, op: Op)
    requires TableValid(s) && Applicable(s, op)
    ensures op.Report? ==> Has(Applied(s, op), op.conn)
    ensures !op.Report? ==> !CutsOffSome(s, op)
  {
    if op.Report? {
      OwnCallback(s, op);
    }
  }

  /** Any number of peers that are servers with well-formed tables, connected, deleted and discovered in any order and
      all at once over the shared pools, whatever fails: no block is ever lost, no assertion is reached, and every
      discovery reported complete with status 0 has found that peer's table, asking once for every non-empty range. */
  lemma {:induction false} EveryTableIsFound(server: uint16 -> Tree, s: PeerTable, ops: seq<Op>)
    requires (forall c :: TableOk(server(c))) && TableValid(s) && s.rows == []
    requires Run(s, ops).Some? && AllServed(server, s, ops)
    ensures var e := Run(s, ops).value;
            && Capacity(e) == s.pools
            && forall c: uint16 :: Has(e, c) ==>
                 var d := DiscOf(e, c);
                 !d.asserted && (d.calls == [0] ==> d.tree == server(c) && d.started == Discovery.Schedule(server(c)))
  {
    AllFineOverRuns(server, s, ops);
    CapacityKeptIffNoneCutOff(s, ops);
    hide TableOk, TableValid, FineDisc;
    forall c: uint16 | Has(Run(s, ops).value, c)
      ensures var d := DiscOf(Run(s, ops).value, c);
              !d.asserted && (d.calls == [0] ==> d.tree == server(c) && d.started == Discovery.Schedule(server(c)))
    {
      FineAsserted(server(c), DiscOf(Run(s, ops).value, c), Made(server(c), s, ops, c).value);
    }
  }
}
