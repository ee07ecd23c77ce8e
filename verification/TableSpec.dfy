/** The table of peers as a value: which peers there are, how far the discovery of each is, and the shared pools. */
module TableSpec {
  import opened Types
  import opened GattSpec
  import opened PoolBlocks

  const EALREADY: int := 2

  /** A peer and its discovery, whose pools are the shared ones. */
  datatype Row = Row(conn: uint16, disc: Disc)

  /** The peers in list order, the three shared pools, and the free blocks of the peer pool. */
  datatype PeerTable = PeerTable(rows: seq<Row>, pools: Pools, slots: nat)

  predicate TableValid(s: PeerTable) {
    && (forall i :: 0 <= i < |s.rows| ==> s.rows[i].disc.pools == s.pools)
    && forall i, j :: 0 <= i < j < |s.rows| ==> s.rows[i].conn != s.rows[j].conn
  }

  /** The position of the peer with this connection handle, or the number of peers. */
  function Find(rows: seq<Row>, conn: uint16): (n: nat)
    ensures n <= |rows| && (n < |rows| ==> rows[n].conn == conn)
    ensures forall i :: 0 <= i < n ==> rows[i].conn != conn
  {
    if rows == [] || rows[0].conn == conn then 0 else 1 + Find(rows[1..], conn)
  }

  /** The same peers beside other pools. */
  function Pooled(rows: seq<Row>, pools: Pools): (r: seq<Row>)
    ensures |r| == |rows|
    ensures forall i :: 0 <= i < |rows| ==> r[i] == Row(rows[i].conn, rows[i].disc.(pools := pools))
  {
    seq(|rows|, i requires 0 <= i < |rows| => Row(rows[i].conn, rows[i].disc.(pools := pools)))
  }

  /** The n-th peer's discovery becomes `d`, whose pools the others then share. */
  function Changed(s: PeerTable, n: nat, d: Disc): PeerTable
    requires n < |s.rows|
  {
    PeerTable(Pooled(s.rows[n := Row(s.rows[n].conn, d)], d.pools), d.pools, s.slots)
  }

  const NEW_PEER: Disc := Disc([], Pools(0, 0, 0), 0, 0, Idle, [], [], false)

  /** A peer of which nothing is known becomes the first. */
  function Joined(s: PeerTable, conn: uint16): PeerTable
    requires s.slots > 0
  {
    PeerTable([Row(conn, NEW_PEER.(pools := s.pools))] + s.rows, s.pools, s.slots - 1)
  }

  /** The n-th peer gives everything back and is gone. */
  function Left(s: PeerTable, n: nat): PeerTable
    requires n < |s.rows|
  {
    var pools := GivenBack(s.pools, s.rows[n].disc.tree);
    PeerTable(Pooled(s.rows[..n] + s.rows[n + 1..], pools), pools, s.slots + 1)
  }

  /** What happens to the table: mesh_peer_add, mesh_peer_delete, mesh_peer_disc_all with the stack's answer, or a
      callback of the stack with its answer to the procedure the callback may start. */
  datatype Op = Add(conn: uint16) | Delete(conn: uint16) | Discover(conn: uint16, start: int)
              | Report(conn: uint16, report: GattSpec.Report, rc: int)

  /** Callbacks fit the procedure under way of a peer that is in the table; no procedure is started beside another. */
  predicate Applicable(s: PeerTable, op: Op) {
    var n := Find(s.rows, op.conn);
    && (op.Discover? && n < |s.rows| ==> s.rows[n].disc.proc.Idle?)
    && (op.Report? ==> n < |s.rows| && Fits(s.rows[n].disc.proc, op.report))
  }

  /** What the function returns; callbacks return nothing of interest. */
  function Status(s: PeerTable, op: Op): int {
    var found := Find(s.rows, op.conn) < |s.rows|;
    match op
    case Add(_) => if found then EALREADY else if s.slots == 0 then ENOMEM else 0
    case Delete(_) => if found then 0 else ENOTCONN
    case Discover(_, start) => if found then start else ENOTCONN
    case Report(_, _, _) => 0
  }

  function Applied(s: PeerTable, op: Op): PeerTable
    requires Applicable(s, op)
  {
    var n := Find(s.rows, op.conn);
    match op
    case Add(conn) =>
      if n < |s.rows| || s.slots == 0 then s else Joined(s, conn)
    case Delete(_) => if n == |s.rows| then s else Left(s, n)
    case Discover(_, start) => if n == |s.rows| then s else Changed(s, n, DiscAll(s.rows[n].disc, start))
    case Report(_, report, rc) => Changed(s, n, Callback(s.rows[n].disc, report, rc))
  }

  /** The table after a sequence of operations, or None if one of them could not happen. */
  ghost function Run(s: PeerTable, ops: seq<Op>): Option<PeerTable> {
    if ops == [] then Some(s)
    else
      match Run(s, ops[..|ops| - 1])
      case None => None
      case Some(before) =>
        if Applicable(before, ops[|ops| - 1]) then Some(Applied(before, ops[|ops| - 1])) else None
  }

  lemma {:induction false} RunBefore(s: PeerTable, ops: seq<Op>)
    requires ops != [] && Run(s, ops).Some?
    ensures var before := Run(s, ops[..|ops| - 1]);
            before.Some? && Applicable(before.value, ops[|ops| - 1])
            && Run(s, ops).value == Applied(before.value, ops[|ops| - 1])
  {
  }

  lemma TableValidKept(s: PeerTable, op: Op)
    requires TableValid(s) && Applicable(s, op)
    ensures TableValid(Applied(s, op)) && |Applied(s, op).rows| + Applied(s, op).slots == |s.rows| + s.slots
  {
    hide Callback, DiscAll, GivenBack;
  }

  lemma {:induction false} TableValidOverRuns(s: PeerTable, ops: seq<Op>)
    requires TableValid(s) && Run(s, ops).Some?
    ensures var e := Run(s, ops).value; TableValid(e) && |e.rows| + e.slots == |s.rows| + s.slots
  {
    if ops != [] {
      hide TableValid, Applied, Applicable;
      RunBefore(s, ops);
      TableValidOverRuns(s, ops[..|ops| - 1]);
      TableValidKept(Run(s, ops[..|ops| - 1]).value, ops[|ops| - 1]);
    }
  }

  // ---- Capacity -------------------------------------------------------------------------------------------------

  /** The free blocks once the trees of all these peers have been given back. */
  function AllGivenBack(pools: Pools, rows: seq<Row>): Pools {
    if rows == [] then pools else GivenBack(AllGivenBack(pools, rows[1..]), rows[0].disc.tree)
  }

  /** The free blocks and those reachable from any of the peers. */
  function Capacity(s: PeerTable): Pools {
    AllGivenBack(s.pools, s.rows)
  }

  /** The callback cuts off a list. */
  predicate CutsOffSome(s: PeerTable, op: Op)
    requires Applicable(s, op)
  {
    op.Report? && LosesBlocks(s.rows[Find(s.rows, op.conn)].disc, op.report)
  }

  ghost predicate CutsOffDuring(s: PeerTable, ops: seq<Op>)
    requires Run(s, ops).Some?
  {
    ops != [] && (CutsOffDuring(s, ops[..|ops| - 1]) || CutsOffSome(Run(s, ops[..|ops| - 1]).value, ops[|ops| - 1]))
  }

  lemma {:induction false} PooledGivesSame(pools: Pools, rows: seq<Row>, others: Pools)
    ensures AllGivenBack(pools, Pooled(rows, others)) == AllGivenBack(pools, rows)
  {
    if rows != [] {
      PooledGivesSame(pools, rows[1..], others);
      assert Pooled(rows, others)[1..] == Pooled(rows[1..], others);
    }
  }

  const NO_BLOCKS: Pools := Pools(0, 0, 0)

  lemma {:induction false} PoolsApart(pools: Pools, rows: seq<Row>)
    ensures AllGivenBack(pools, rows) == Plus(pools, AllGivenBack(NO_BLOCKS, rows))
  {
    if rows != [] {
      PoolsApart(pools, rows[1..]);
    }
  }

  /** The blocks of the n-th peer and those of all others. */
  lemma {:induction false} OneApart(pools: Pools, rows: seq<Row>, n: nat)
    requires n < |rows|
    ensures AllGivenBack(pools, rows) == GivenBack(AllGivenBack(pools, rows[..n] + rows[n + 1..]), rows[n].disc.tree)
  {
    if n == 0 {
      assert rows[..0] + rows[1..] == rows[1..];
    } else {
      OneApart(pools, rows[1..], n - 1);
      assert rows[1..][..n - 1] + rows[1..][n - 1 + 1..] == (rows[..n] + rows[n + 1..])[1..];
    }
  }

  /** A change of one peer and the pools changes the capacity by as much as what this peer accounts for. */
  lemma ChangeOfOne(s: PeerTable, n: nat, d: Disc)
    requires TableValid(s) && n < |s.rows|
    ensures Minus(Capacity(Changed(s, n, d)), Capacity(s)) == Minus(Accounted(d), Accounted(s.rows[n].disc))
  {
    var rows := s.rows[n := Row(s.rows[n].conn, d)];
    PooledGivesSame(d.pools, rows, d.pools);
    OneApart(d.pools, rows, n);
    OneApart(s.pools, s.rows, n);
    assert rows[..n] + rows[n + 1..] == s.rows[..n] + s.rows[n + 1..];
    PoolsApart(d.pools, s.rows[..n] + s.rows[n + 1..]);
    PoolsApart(s.pools, s.rows[..n] + s.rows[n + 1..]);
  }

  lemma DeletionKeepsCapacity(s: PeerTable, conn: uint16)
    ensures Capacity(Applied(s, Delete(conn))) == Capacity(s)
  {
    hide GivenBack, AllGivenBack;
    var n := Find(s.rows, conn);
    if n < |s.rows| {
      var rest, t := s.rows[..n] + s.rows[n + 1..], s.rows[n].disc.tree;
      var pools := GivenBack(s.pools, t);
      PooledGivesSame(pools, rest, pools);
      OneApart(s.pools, s.rows, n);
      PoolsApart(pools, rest);
      PoolsApart(s.pools, rest);
      GivenBackBeside(s.pools, AllGivenBack(NO_BLOCKS, rest), t);
    }
  }

  lemma GivenBackBeside(a: Pools, b: Pools, t: Tree)
    ensures Plus(GivenBack(a, t), b) == GivenBack(Plus(a, b), t)
  {
  }

  /** Whatever is done to one peer: over all peers every block stays free or reachable exactly if no list is cut off. */
  lemma CapacityAfterOne(s: PeerTable, op: Op)
    requires TableValid(s) && Applicable(s, op)
    ensures AtMost(Capacity(Applied(s, op)), Capacity(s))
    ensures Capacity(Applied(s, op)) == Capacity(s) <==> !CutsOffSome(s, op)
  {
    hide Callback, LosesBlocks, Accounted, GivenBack;
    var n := Find(s.rows, op.conn);
    match op
    case Add(conn) => NewPeerHasNothing(s, conn);
    case Delete(conn) => DeletionKeepsCapacity(s, conn);
    case Discover(_, start) =>
      if n < |s.rows| {
        RediscoveryGivesAllBack(s.rows[n].disc, start);
        ChangeOfOne(s, n, DiscAll(s.rows[n].disc, start));
      }
    case Report(_, report, rc) =>
      BlocksKeptIffNoneCutOff(s.rows[n].disc, report, rc);
      ChangeOfOne(s, n, Callback(s.rows[n].disc, report, rc));
  }

  lemma NewPeerHasNothing(s: PeerTable, conn: uint16)
    ensures Capacity(Applied(s, Add(conn))) == Capacity(s)
  {
    var rows := [Row(conn, NEW_PEER.(pools := s.pools))] + s.rows;
    assert rows[1..] == s.rows;
  }

  /** Over any adds, deletions, rediscoveries and callbacks of any peers: free blocks and those reachable from all peers
      add up to what they did at the start exactly if no callback cut a list off; what was cut off is lost for good. */
  lemma {:induction false} CapacityKeptIffNoneCutOff(s: PeerTable, ops: seq<Op>)
    requires TableValid(s) && Run(s, ops).Some?
    ensures var e := Run(s, ops).value;
            && AtMost(Capacity(e), Capacity(s))
            && (Capacity(e) == Capacity(s) <==> !CutsOffDuring(s, ops))
  {
    if ops != [] {
      hide TableValid, Applied, Applicable, CutsOffSome, Capacity;
      RunBefore(s, ops);
      var before := ops[..|ops| - 1];
      CapacityKeptIffNoneCutOff(s, before);
      TableValidOverRuns(s, before);
      CapacityAfterOne(Run(s, before).value, ops[|ops| - 1]);
    }
  }

  /** When the last peer has left, the pools hold all blocks again but those that were cut off. */
  lemma {:induction false} EmptyTableHasAll(s: PeerTable, ops: seq<Op>)
    requires TableValid(s) && s.rows == [] && Run(s, ops).Some? && Run(s, ops).value.rows == []
    ensures var e := Run(s, ops).value;
            AtMost(e.pools, s.pools) && e.slots == s.slots && (e.pools == s.pools <==> !CutsOffDuring(s, ops))
  {
    CapacityKeptIffNoneCutOff(s, ops);
    TableValidOverRuns(s, ops);
  }
}
