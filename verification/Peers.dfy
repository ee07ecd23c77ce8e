/** The peers of main/mesh_peer.c: their discovery as it runs on the shared memory, and the table of peers. */
module Peers {
  import opened Types
  import opened GattSpec
  import opened BlockLists
  import opened PoolBlocks
  import opened PeerStore
  import opened TableSpec

  /** Only the end of a procedure starts another one. */
  lemma ItemsStartNothing(d: Disc, r: Report, rc: int)
    requires Fits(d.proc, r)
    ensures !r.Done? ==> Callback(d, r, rc) == Callback(d, r, 0)
  {
  }

  /** An add function took d to d' with the outcome r. */
  ghost predicate Took(d: Disc, d': Disc, r: Added<Tree>, ok: bool, rc: int) {
    if ok then r.Added? && rc == r.rc && d' == d.(tree := r.value, pools := r.pools) else r.Asserted? && d' == d
  }

  /** struct mesh_peer in the slot of its block. `proc`, `started`, `calls` and `asserted` record what the stack does
      for it and what happened. */
  class Peer {
    const store: Store
    const slot: nat
    const connHandle: uint16
    var discPrevChrVal: uint16
    var curSvc: int
    ghost var cur: uint16
    var proc: Proc
    var started: seq<Proc>
    var calls: seq<int>
    var asserted: bool

    ghost predicate Placed()
      reads store.Repr()
    {
      store.Valid() && slot < |store.View().svcs.chain|
    }

    ghost function View(): Disc
      requires Placed()
      reads this, store.Repr()
    {
      Shown(store.View())
    }

    ghost function Shown(m: Mem): Disc
      requires MemOk(m) && slot < |m.svcs.chain|
      reads this
    {
      Disc(TreeOf(m, slot), PoolsOf(m), discPrevChrVal, cur, proc, started, calls, asserted)
    }

    /** Another peer's discovery changes only the pools. */
    lemma ShownBeside(m: Mem, m': Mem, q: nat)
      requires OthersKept(m, m', q) && slot != q && slot < |m.svcs.chain|
      ensures Shown(m') == Shown(m).(pools := PoolsOf(m'))
    {
    }

    lemma ShownAt()
      requires Valid()
      ensures Placed() && View() == Shown(store.View()) && View().pools == PoolsOf(store.View())
    {
    }

    /** While characteristics are being discovered cur_svc points to a service of this peer. */
    ghost predicate Valid()
      reads this, store.Repr()
    {
      Placed() && (proc.AllChrs? ==> SvcOf(store.View(), slot, curSvc, cur))
    }

    constructor (store: Store, slot: nat, connHandle: uint16)
      requires store.Valid() && slot < |store.View().svcs.chain|
      ensures Valid() && this.store == store && this.slot == slot && this.connHandle == connHandle
      ensures View() == NEW_PEER.(tree := TreeOf(store.View(), slot), pools := PoolsOf(store.View()))
    {
      this.store, this.slot, this.connHandle := store, slot, connHandle;
      discPrevChrVal, curSvc, cur, proc, started, calls, asserted := 0, NULL, 0, Idle, [], [], false;
    }

    lemma ViewShows()
      requires Placed()
      ensures View().tree == TreeOf(store.View(), slot) && View().pools == PoolsOf(store.View()) && View().proc == proc
    {
    }

    /** peer_disc_complete. */
    method DiscComplete(rc: int)
      requires Placed()
      modifies `discPrevChrVal, `calls
      ensures View() == Completed(old(View()), rc)
    {
      discPrevChrVal := 0;
      calls := calls + [rc];
    }

    /** A ble_gattc_disc_all_* call that the stack answers with rc. */
    method StartProc(p: Proc, rc: int)
      requires Placed()
      modifies `proc, `started, `discPrevChrVal, `calls
      ensures View() == Start(old(View()), p, rc) && (rc != 0 ==> proc == old(proc))
    {
      if rc != 0 {
        DiscComplete(rc);
      } else {
        proc, started := p, started + [p];
      }
    }

    /** peer_disc_dscs. */
    method DiscDscs(rc: int)
      requires Placed() && proc.Idle?
      modifies `proc, `started, `discPrevChrVal, `calls
      ensures Valid() && View() == GattSpec.DiscDscs(old(View()), rc)
    {
      hide LevelOk, Lists.Valid, TreeOf;
      var found, val, end := store.NextDscProc(slot, discPrevChrVal);
      if found {
        StartProc(AllDscs(val, end), rc);
        discPrevChrVal := val;
      } else {
        DiscComplete(0);
      }
    }

    /** peer_disc_chrs. */
    method DiscChrs(rc: int)
      requires Placed() && proc.Idle?
      modifies `proc, `started, `discPrevChrVal, `calls, `curSvc, `cur
      ensures Valid() && View() == GattSpec.DiscChrs(old(View()), rc)
    {
      var b := store.NextBareSvc(slot);
      if b == NULL {
        DiscDscs(rc);
      } else {
        curSvc := b;
        cur := store.svcs.val[b].start;
        StartProc(AllChrs(store.svcs.val[b].start, store.svcs.val[b].end), rc);
      }
    }

    /** After an add function: a status other than 0 aborts the procedure and the discovery, a failed assertion stops
        the node. */
    method AfterAdding(ok: bool, rc: int, ghost d: Disc, ghost r: Added<Tree>)
      requires Placed() && Took(d, View(), r, ok, rc)
      modifies `proc, `discPrevChrVal, `calls, `asserted
      ensures View() == AfterAdd(d, r) && (!proc.Idle? ==> proc == old(proc))
    {
      if !ok {
        proc, asserted := Idle, true;
      } else if rc != 0 {
        proc := Idle;
        DiscComplete(rc);
      }
    }

    /** The procedure ended with an error. */
    method Abort(status: int)
      requires Valid() && Fits(proc, Error(status))
      modifies `proc, `discPrevChrVal, `calls
      ensures Valid() && View() == Callback(old(View()), Error(status), 0)
    {
      proc := Idle;
      DiscComplete(status);
    }

    /** The procedure ended: the next one is started unless the discovery was aborted before. */
    method ProcedureDone(rc: int)
      requires Valid() && Fits(proc, Done)
      modifies `proc, `started, `discPrevChrVal, `calls, `curSvc, `cur
      ensures Valid() && View() == Callback(old(View()), Done, rc)
    {
      hide TreeOf, LevelOk, GattSpec.DiscChrs, GattSpec.DiscDscs;
      var descriptors := proc.AllDscs?;
      proc := Idle;
      if discPrevChrVal > 0 {
        if descriptors {
          DiscDscs(rc);
        } else {
          DiscChrs(rc);
        }
      }
    }

    /** peer_svc_add, seen on the tree. */
    method AddSvc(svc: Svc) returns (rc: int)
      requires Placed()
      modifies store.Repr()
      ensures Placed() && OthersKept(old(store.View()), store.View(), slot)
      ensures var r := SvcAdd(old(View()).tree, old(View()).pools, svc);
              r.Added? && rc == r.rc && View().tree == r.value && View().pools == r.pools
    {
      SvcAddRefines(store.View(), slot, svc);
      hide TreeOf, MemOk, Lists.Valid, SvcAdded, GattSpec.SvcAdd;
      rc := store.SvcAdd(slot, svc);
    }

    /** peer_svc_disced with status 0. */
    method SvcDisced(svc: Svc)
      requires Valid() && Fits(proc, SvcItem(svc))
      modifies this, store.Repr()
      ensures Valid() && View() == Callback(old(View()), SvcItem(svc), 0)
      ensures OthersKept(old(store.View()), store.View(), slot)
    {
      hide Store.Valid, Store.View, Placed, TreeOf, SvcOf, MemOk, OthersKept, GattSpec.SvcAdd, AfterAdd;
      ghost var d := View();
      var rc := AddSvc(svc);
      AfterAdding(true, rc, d, SvcAdd(d.tree, d.pools, svc));
    }

    /** The start handle of *cur_svc, which is not dangling. */
    method CurStart() returns (h: uint16)
      requires Valid() && proc.AllChrs?
      ensures h == cur
    {
      InRange(store.svcs.View());
      h := store.svcs.val[curSvc].start;
    }

    /** peer_chr_add, seen on the tree; false where an assertion fails. */
    method AddChr(start: uint16, chr: Chr) returns (ok: bool, rc: int)
      requires Placed()
      modifies store.Repr()
      ensures Placed() && OthersKept(old(store.View()), store.View(), slot)
      ensures MemOk(store.View()) && store.View().svcs == old(store.View()).svcs
      ensures var r := ChrAdd(old(View()).tree, old(View()).pools, start, chr);
              if ok then r.Added? && rc == r.rc && View().tree == r.value && View().pools == r.pools
              else r.Asserted? && View() == old(View())
    {
      ChrAddRefines(store.View(), slot, start, chr);
      hide TreeOf, LevelOk, Lists.Valid, ChrAdded, GattSpec.ChrAdd;
      ok, rc := store.ChrAdd(slot, start, chr);
    }

    /** The same for the service cur_svc points to, which stays where it is. */
    method AddChrToCur(chr: Chr) returns (ok: bool, rc: int)
      requires Valid() && proc.AllChrs?
      modifies store.Repr()
      ensures Valid() && OthersKept(old(store.View()), store.View(), slot)
      ensures var r := ChrAdd(old(View()).tree, old(View()).pools, cur, chr);
              if ok then r.Added? && rc == r.rc && View().tree == r.value && View().pools == r.pools
              else r.Asserted? && View() == old(View())
    {
      hide Store.Valid, TreeOf, MemOk, OthersKept, SvcOf, GattSpec.ChrAdd;
      var start := CurStart();
      ok, rc := AddChr(start, chr);
      SvcOfSame(old(store.View()), store.View(), slot, curSvc, cur);
    }

    /** peer_chr_disced with status 0. */
    method ChrDisced(chr: Chr)
      requires Valid() && Fits(proc, ChrItem(chr))
      modifies this, store.Repr()
      ensures Valid() && View() == Callback(old(View()), ChrItem(chr), 0)
      ensures OthersKept(old(store.View()), store.View(), slot)
    {
      hide Store.Valid, Store.View, Placed, TreeOf, SvcOf, MemOk, OthersKept, GattSpec.ChrAdd, AfterAdd;
      ghost var d := View();
      var ok, rc := AddChrToCur(chr);
      AfterAdding(ok, rc, d, ChrAdd(d.tree, d.pools, d.cur, chr));
    }

    /** peer_dsc_add, seen on the tree. */
    method AddDsc(val: uint16, dsc: Dsc) returns (ok: bool, rc: int)
      requires Placed()
      modifies store.Repr()
      ensures Placed() && OthersKept(old(store.View()), store.View(), slot)
      ensures var r := DscAdd(old(View()).tree, old(View()).pools, val, dsc);
              if ok then r.Added? && rc == r.rc && View().tree == r.value && View().pools == r.pools
              else r.Asserted? && View() == old(View())
    {
      DscAddRefines(store.View(), slot, val, dsc);
      hide TreeOf, LevelOk, Lists.Valid, DscAdded, GattSpec.DscAdd;
      ok, rc := store.DscAdd(slot, val, dsc);
    }

    /** peer_dsc_disced with status 0. */
    method DscDisced(dsc: Dsc)
      requires Valid() && Fits(proc, DscItem(dsc))
      modifies this, store.Repr()
      ensures Valid() && View() == Callback(old(View()), DscItem(dsc), 0)
      ensures OthersKept(old(store.View()), store.View(), slot)
    {
      hide Store.Valid, Store.View, Placed, TreeOf, SvcOf, MemOk, OthersKept, GattSpec.DscAdd, AfterAdd;
      ghost var d := View();
      assert d.proc == proc;
      var ok, rc := AddDsc(proc.val, dsc);
      AfterAdding(ok, rc, d, DscAdd(d.tree, d.pools, proc.val, dsc));
    }

    /** Any callback of the stack for this peer. */
    method Step(r: Report, rc: int)
      requires Valid() && Fits(proc, r)
      modifies this, store.Repr()
      ensures Valid() && View() == Callback(old(View()), r, rc) && OthersKept(old(store.View()), store.View(), slot)
    {
      ItemsStartNothing(View(), r, rc);
      assert OthersKept(store.View(), store.View(), slot);
      hide *;
      match r {
        case SvcItem(svc) => SvcDisced(svc);
        case ChrItem(chr) => ChrDisced(chr);
        case DscItem(dsc) => DscDisced(dsc);
        case Done => ProcedureDone(rc);
        case Error(status) => Abort(status);
      }
    }

    /** Everything discovered so far is given back. */
    method Undiscover()
      requires Placed()
      modifies store.Repr()
      ensures Placed() && OthersKept(old(store.View()), store.View(), slot)
      ensures View() == old(View()).(tree := [], pools := GivenBack(old(View()).pools, old(View()).tree))
    {
      hide TreeOf, LevelOk, Lists.Valid, MemOk, Cleared, GivenBack;
      ClearedGivesBack(store.View(), slot);
      store.Clear(slot);
    }

    /** mesh_peer_disc_all on a known peer. */
    method DiscAll(rc: int)
      requires Valid() && proc.Idle?
      modifies this, store.Repr()
      ensures Valid() && View() == GattSpec.DiscAll(old(View()), rc)
      ensures calls == [] && proc == if rc == 0 then AllSvcs else Idle
      ensures OthersKept(old(store.View()), store.View(), slot)
    {
      hide Store.Valid, Store.View, Peer.View, TreeOf, MemOk, OthersKept, SvcOf, GivenBack;
      Undiscover();
      Begin(rc);
    }

    /** The rest of mesh_peer_disc_all: rc is the stack's answer. */
    method Begin(rc: int)
      requires Placed()
      modifies `discPrevChrVal, `calls, `started, `proc
      ensures View() == if rc != 0 then old(View()).(prevVal := 1, calls := [], started := [])
                        else old(View()).(prevVal := 1, calls := [], started := [AllSvcs], proc := AllSvcs)
      ensures calls == [] && proc == if rc == 0 then AllSvcs else old(proc)
    {
      discPrevChrVal, calls, started := 1, [], [];
      if rc == 0 {
        proc, started := AllSvcs, [AllSvcs];
      }
    }
  }

  lemma NothingToGive(pools: Pools)
    ensures GivenBack(pools, []) == pools
  {
  }

  lemma ReportApplied(v: PeerTable, n: nat, r: Report, rc: int)
    requires n < |v.rows| && Find(v.rows, v.rows[n].conn) == n && Fits(v.rows[n].disc.proc, r)
    ensures Applicable(v, Op.Report(v.rows[n].conn, r, rc))
    ensures Applied(v, Op.Report(v.rows[n].conn, r, rc)) == Changed(v, n, Callback(v.rows[n].disc, r, rc))
  {
  }

  lemma DiscoverApplied(v: PeerTable, n: nat, start: int)
    requires n < |v.rows| && Find(v.rows, v.rows[n].conn) == n && v.rows[n].disc.proc.Idle?
    ensures Applicable(v, Op.Discover(v.rows[n].conn, start))
    ensures Applied(v, Op.Discover(v.rows[n].conn, start)) == Changed(v, n, GattSpec.DiscAll(v.rows[n].disc, start))
  {
  }

  // ---- The table ------------------------------------------------------------------------------------------------

  /** Over all peers, a callback for one of them keeps every block free or reachable exactly if it cuts no list off. */
  lemma CallbackAndCapacity(m: Mem, m': Mem, q: nat, d: Disc, r: Report, rc: int)
    requires OthersKept(m, m', q) && q < |m.svcs.chain| && Fits(d.proc, r)
    requires d.tree == TreeOf(m, q) && d.pools == PoolsOf(m)
    requires Callback(d, r, rc).tree == TreeOf(m', q) && Callback(d, r, rc).pools == PoolsOf(m')
    ensures Total(m', |m.svcs.chain|) == Total(m, |m.svcs.chain|) <==> !LosesBlocks(d, r)
  {
    CapacityOfAllPeers(m, m', q);
    BlocksKeptIffNoneCutOff(d, r, rc);
  }

  lemma DiscoveryAndCapacity(m: Mem, m': Mem, q: nat, d: Disc, start: int)
    requires OthersKept(m, m', q) && q < |m.svcs.chain| && d.tree == TreeOf(m, q) && d.pools == PoolsOf(m)
    requires GattSpec.DiscAll(d, start).tree == TreeOf(m', q) && GattSpec.DiscAll(d, start).pools == PoolsOf(m')
    ensures Total(m', |m.svcs.chain|) == Total(m, |m.svcs.chain|)
  {
    CapacityOfAllPeers(m, m', q);
    RediscoveryGivesAllBack(d, start);
  }

  /** Slots in use and free slots: all different, and nothing is reachable from the free ones. */
  ghost predicate SlotsOk(m: Mem, used: seq<nat>, free: seq<nat>) {
    && MemOk(m)
    && (forall i, j :: 0 <= i < j < |used| ==> used[i] != used[j])
    && (forall i, j :: 0 <= i < j < |free| ==> free[i] != free[j])
    && (forall i, j :: 0 <= i < |used| && 0 <= j < |free| ==> used[i] != free[j])
    && (forall i :: 0 <= i < |used| ==> used[i] < |m.svcs.chain|)
    && forall i :: 0 <= i < |free| ==> free[i] < |m.svcs.chain| && TreeOf(m, free[i]) == []
  }

  lemma SlotTaken(m: Mem, used: seq<nat>, free: seq<nat>)
    requires SlotsOk(m, used, free) && free != []
    ensures SlotsOk(m, [free[0]] + used, free[1..]) && free[0] < |m.svcs.chain| && TreeOf(m, free[0]) == []
  {
  }

  lemma SlotsKept(m: Mem, m': Mem, used: seq<nat>, free: seq<nat>, n: nat)
    requires SlotsOk(m, used, free) && n < |used| && OthersKept(m, m', used[n])
    ensures SlotsOk(m', used, free)
  {
  }

  lemma SlotGivenBack(m: Mem, m': Mem, used: seq<nat>, free: seq<nat>, n: nat)
    requires SlotsOk(m, used, free) && n < |used| && OthersKept(m, m', used[n]) && TreeOf(m', used[n]) == []
    ensures SlotsOk(m', used[..n] + used[n + 1..], [used[n]] + free)
  {
  }

  /** The peers list and the peer pool, whose blocks are the slots. */
  class Table {
    const store: Store
    var peers: seq<Peer>
    var freeSlots: seq<nat>

    ghost predicate Valid()
      reads this, peers, store.Repr()
    {
      && store.Valid() && SlotsOk(store.View(), Slots(), freeSlots)
      && (forall i :: 0 <= i < |peers| ==> InTable(peers[i]))
      && forall i, j :: 0 <= i < j < |peers| ==> peers[i].connHandle != peers[j].connHandle
    }

    ghost function Slots(): (r: seq<nat>)
      reads this
      ensures |r| == |peers| && forall i :: 0 <= i < |peers| ==> r[i] == peers[i].slot
    {
      seq(|peers|, i requires 0 <= i < |peers| reads this => peers[i].slot)
    }

    ghost predicate InTable(p: Peer)
      requires store.Valid()
      reads p, store.Repr()
    {
      && p.store == store && p.slot < |store.View().svcs.chain|
      && (p.proc.AllChrs? ==> SvcOf(store.View(), p.slot, p.curSvc, p.cur))
    }

    /** mesh_peer_init. */
    constructor (maxPeers: nat, maxSvcs: nat, maxChrs: nat, maxDscs: nat)
      ensures Valid() && peers == [] && |freeSlots| == maxPeers
      ensures View() == PeerTable([], Pools(maxSvcs, maxChrs, maxDscs), maxPeers)
    {
      store := new Store(maxPeers, maxSvcs, maxChrs, maxDscs);
      peers := [];
      freeSlots := seq(maxPeers, i => i);
    }

    /** The peers beside memory m. */
    ghost function Rows(m: Mem): (r: seq<Row>)
      requires MemOk(m) && forall i :: 0 <= i < |peers| ==> peers[i].slot < |m.svcs.chain|
      reads this, peers
      ensures |r| == |peers| && forall i :: 0 <= i < |peers| ==> r[i] == Row(peers[i].connHandle, peers[i].Shown(m))
    {
      seq(|peers|, i requires 0 <= i < |peers| && MemOk(m) && peers[i].slot < |m.svcs.chain| reads this, peers =>
        Row(peers[i].connHandle, peers[i].Shown(m)))
    }

    ghost function View(): PeerTable
      requires Valid()
      reads this, peers, store.Repr()
    {
      PeerTable(Rows(store.View()), PoolsOf(store.View()), |freeSlots|)
    }

    /** The position of the peer with this connection handle, or |peers|. */
    ghost function IndexOf(conn: uint16): (n: nat)
      reads this
      ensures n <= |peers| && (n < |peers| ==> peers[n].connHandle == conn)
      ensures forall i :: 0 <= i < n ==> peers[i].connHandle != conn
    {
      FirstWith(peers, conn)
    }

    /** mesh_peer_find, as a position. */
    method Find(conn: uint16) returns (i: nat)
      ensures i == IndexOf(conn)
    {
      i := 0;
      while i < |peers| && peers[i].connHandle != conn
        invariant i <= |peers| && FirstWith(peers, conn) == i + FirstWith(peers[i..], conn)
      {
        assert peers[i..][1..] == peers[i + 1..];
        i := i + 1;
      }
    }

    lemma FindAgrees(conn: uint16)
      requires Valid()
      ensures TableSpec.Find(View().rows, conn) == IndexOf(conn)
    {
    }

    /** The search, after which nothing has changed. */
    method Locate(conn: uint16) returns (i: nat)
      requires Valid()
      ensures Valid() && View() == old(View()) && store.View() == old(store.View())
      ensures i == IndexOf(conn) == TableSpec.Find(View().rows, conn)
      ensures |View().rows| == |peers| && View().slots == |freeSlots|
    {
      FindAgrees(conn);
      i := Find(conn);
    }

    /** mesh_peer_add. */
    method Add(conn: uint16) returns (rc: int)
      requires Valid()
      modifies this
      ensures Valid() && rc == Status(old(View()), Op.Add(conn)) && View() == Applied(old(View()), Op.Add(conn))
      ensures store.View() == old(store.View())
      ensures rc == if old(IndexOf(conn)) < |old(peers)| then EALREADY else if old(freeSlots) == [] then ENOMEM else 0
      ensures rc != 0 ==> peers == old(peers) && freeSlots == old(freeSlots)
      ensures rc == 0 ==> |peers| == |old(peers)| + 1 && peers[1..] == old(peers) && fresh(peers[0])
                          && peers[0].connHandle == conn && peers[0].Valid() && peers[0].proc.Idle?
                          && freeSlots == old(freeSlots)[1..]
    {
      hide Valid, View, Joined, Store.Valid, Store.View, Peer.Valid;
      var i := Locate(conn);
      if i < |peers| {
        return EALREADY;
      }
      if freeSlots == [] {
        return ENOMEM;
      }
      Join(conn);
      rc := 0;
    }

    method InsertPeer(conn: uint16)
      requires Valid() && freeSlots != [] && forall i :: 0 <= i < |peers| ==> peers[i].connHandle != conn
      modifies this
      ensures Valid() && store.View() == old(store.View())
      ensures |peers| == |old(peers)| + 1 && peers[1..] == old(peers) && fresh(peers[0])
      ensures peers[0].connHandle == conn && peers[0].Valid() && peers[0].proc.Idle?
      ensures freeSlots == old(freeSlots)[1..]
      ensures peers[0].slot < |store.View().svcs.chain| && TreeOf(store.View(), peers[0].slot) == []
      ensures peers[0].View() == NEW_PEER.(tree := TreeOf(store.View(), peers[0].slot), pools := PoolsOf(store.View()))
    {
      ghost var slots := Slots();
      SlotTaken(store.View(), slots, freeSlots);
      hide *;
      var p := new Peer(store, freeSlots[0], conn);
      ghost var was := peers;
      freeSlots := freeSlots[1..];
      peers := [p] + peers;
      WithOneMore(p, was, slots);
    }

    /** The same, seen on the table. */
    method Join(conn: uint16)
      requires Valid() && freeSlots != [] && forall i :: 0 <= i < |peers| ==> peers[i].connHandle != conn
      modifies this
      ensures Valid() && store.View() == old(store.View())
      ensures |peers| == |old(peers)| + 1 && peers[1..] == old(peers) && fresh(peers[0])
      ensures peers[0].connHandle == conn && peers[0].Valid() && peers[0].proc.Idle?
      ensures freeSlots == old(freeSlots)[1..]
      ensures old(View()).slots > 0 && View() == Joined(old(View()), conn)
    {
      ghost var v, was := View(), peers;
      hide *;
      RowsShown();
      InsertPeer(conn);
      RowsJoined(v, was);
      PeerValid(0);
    }

    lemma RowsJoined(v: PeerTable, was: seq<Peer>)
      requires Valid() && |peers| == |was| + 1 && peers[1..] == was && |v.rows| == |was| && v.slots == |freeSlots| + 1
      requires v.pools == PoolsOf(store.View())
      requires forall i :: 0 <= i < |was| ==>
                 && was[i].slot < |store.View().svcs.chain|
                 && v.rows[i] == Row(was[i].connHandle, was[i].Shown(store.View()))
      requires peers[0].Placed() && peers[0].View() == NEW_PEER.(pools := v.pools)
      ensures View() == Joined(v, peers[0].connHandle)
    {
      hide Valid, View, Peer.Shown, Peer.View, MemOk, TreeOf, Store.View, Peer.Placed;
      RowsShown();
      FirstShown();
      forall i | 0 <= i < |peers| ensures View().rows[i] == Joined(v, peers[0].connHandle).rows[i] {
        assert i > 0 ==> peers[i] == was[i - 1];
      }
    }

    lemma FirstShown()
      requires Valid() && peers != []
      ensures peers[0].Placed() && peers[0].slot < |store.View().svcs.chain|
      ensures peers[0].Shown(store.View()) == peers[0].View()
    {
    }

    lemma WithOneMore(p: Peer, was: seq<Peer>, slots: seq<nat>)
      requires peers == [p] + was && |was| == |slots| && store.Valid()
      requires forall i :: 0 <= i < |was| ==> slots[i] == was[i].slot && was[i].connHandle != p.connHandle
      requires forall i, j :: 0 <= i < j < |was| ==> was[i].connHandle != was[j].connHandle
      requires forall i :: 0 <= i < |peers| ==> InTable(peers[i])
      requires SlotsOk(store.View(), [p.slot] + slots, freeSlots)
      ensures Valid()
    {
      assert Slots() == [p.slot] + slots;
    }

    /** mesh_peer_delete: the pools get back exactly the blocks of the deleted peer, and its slot is free. */
    method Delete(conn: uint16) returns (rc: int, ghost i: nat)
      requires Valid()
      modifies this, store.Repr()
      ensures Valid() && i == old(IndexOf(conn))
      ensures rc == Status(old(View()), Op.Delete(conn)) && View() == Applied(old(View()), Op.Delete(conn))
      ensures rc == if i < |old(peers)| then 0 else ENOTCONN
      ensures i == |old(peers)| ==> peers == old(peers) && store.View() == old(store.View())
      ensures i < |old(peers)| ==>
                && peers == old(peers)[..i] + old(peers)[i + 1..] && freeSlots == [old(peers)[i].slot] + old(freeSlots)
                && OthersKept(old(store.View()), store.View(), old(peers)[i].slot)
                && TreeOf(store.View(), old(peers)[i].slot) == []
      ensures Total(store.View(), |old(store.View()).svcs.chain|)
              == Total(old(store.View()), |old(store.View()).svcs.chain|)
    {
      hide Valid, View, Left, Store.Valid, Store.View, OthersKept, TreeOf, SlotsOk, MemOk;
      var n := Locate(conn);
      i := n;
      if n == |peers| {
        return ENOTCONN, i;
      }
      Remove(n);
      rc := 0;
    }

    /** A callback of the stack for one of the peers. The others keep their trees; and unless it cuts a list off, the
        free blocks and those reachable from all peers add up to what they did before. */
    method OnCallback(n: nat, r: Report, rc: int)
      requires Valid() && n < |peers| && peers[n].Valid() && Fits(peers[n].proc, r)
      modifies peers[n], store.Repr()
      ensures Valid() && peers[n].Valid() && OthersKept(old(store.View()), store.View(), peers[n].slot)
      ensures peers[n].View() == Callback(old(peers[n].View()), r, rc)
      ensures Applicable(old(View()), Op.Report(peers[n].connHandle, r, rc))
      ensures View() == Applied(old(View()), Op.Report(peers[n].connHandle, r, rc))
      ensures var all := |old(store.View()).svcs.chain|;
              Total(store.View(), all) == Total(old(store.View()), all) <==> !LosesBlocks(old(peers[n].View()), r)
    {
      ghost var v, d, m := View(), peers[n].View(), store.View();
      hide *;
      SlotsDistinct(n);
      RowFound(n);
      ShownInTable(n);
      StepAt(n, r, rc);
      ShownInTable(n);
      CallbackAndCapacity(m, store.View(), peers[n].slot, d, r, rc);
      ReportApplied(v, n, r, rc);
    }

    method StepAt(n: nat, r: Report, rc: int)
      requires Valid() && n < |peers| && peers[n].Valid() && Fits(peers[n].proc, r)
      modifies peers[n], store.Repr()
      ensures Valid() && peers[n].Valid() && OthersKept(old(store.View()), store.View(), peers[n].slot)
      ensures peers[n].View() == Callback(old(peers[n].View()), r, rc)
      ensures n < |old(View()).rows| && View() == Changed(old(View()), n, peers[n].View())
    {
      ghost var v, m := View(), store.View();
      hide *;
      SlotsDistinct(n);
      InTableBefore(n);
      RowsShown();
      peers[n].Step(r, rc);
      StepKeepsTable(m, n);
      RowsChanged(v, m, n);
    }

    method DiscoverAt(n: nat, start: int)
      requires Valid() && n < |peers| && peers[n].Valid() && peers[n].proc.Idle?
      modifies peers[n], store.Repr()
      ensures Valid() && peers[n].Valid() && OthersKept(old(store.View()), store.View(), peers[n].slot)
      ensures peers[n].View() == GattSpec.DiscAll(old(peers[n].View()), start)
      ensures peers[n].calls == [] && peers[n].proc == if start == 0 then AllSvcs else Idle
      ensures n < |old(View()).rows| && View() == Changed(old(View()), n, peers[n].View())
    {
      ghost var v, m := View(), store.View();
      hide *;
      SlotsDistinct(n);
      InTableBefore(n);
      RowsShown();
      peers[n].DiscAll(start);
      StepKeepsTable(m, n);
      RowsChanged(v, m, n);
    }

    /** mesh_peer_disc_all for a peer of the table; start is the stack's answer. */
    method DiscAllAt(n: nat, start: int)
      requires Valid() && n < |peers| && peers[n].Valid() && peers[n].proc.Idle?
      modifies peers[n], store.Repr()
      ensures Valid() && peers[n].Valid() && OthersKept(old(store.View()), store.View(), peers[n].slot)
      ensures peers[n].View() == GattSpec.DiscAll(old(peers[n].View()), start)
      ensures peers[n].calls == [] && peers[n].proc == if start == 0 then AllSvcs else Idle
      ensures Applicable(old(View()), Op.Discover(peers[n].connHandle, start))
      ensures View() == Applied(old(View()), Op.Discover(peers[n].connHandle, start))
      ensures var all := |old(store.View()).svcs.chain|; Total(store.View(), all) == Total(old(store.View()), all)
    {
      ghost var v, d, m := View(), peers[n].View(), store.View();
      hide *;
      SlotsDistinct(n);
      RowFound(n);
      ShownInTable(n);
      DiscoverAt(n, start);
      ShownInTable(n);
      DiscoveryAndCapacity(m, store.View(), peers[n].slot, d, start);
      DiscoverApplied(v, n, start);
    }

    /** mesh_peer_disc_all. */
    method DiscAll(conn: uint16, start: int) returns (rc: int, ghost i: nat)
      requires Valid() && (IndexOf(conn) < |peers| ==> peers[IndexOf(conn)].proc.Idle?)
      modifies peers, store.Repr()
      ensures Valid() && i == IndexOf(conn) && Applicable(old(View()), Op.Discover(conn, start))
      ensures rc == Status(old(View()), Op.Discover(conn, start))
      ensures View() == Applied(old(View()), Op.Discover(conn, start))
      ensures i == |peers| ==> rc == ENOTCONN && store.View() == old(store.View())
      ensures i < |peers| ==> rc == start && peers[i].calls == [] && peers[i].proc == if rc == 0 then AllSvcs else Idle
      ensures var all := |old(store.View()).svcs.chain|; Total(store.View(), all) == Total(old(store.View()), all)
    {
      hide Valid, View, Changed, Store.Valid, Store.View, OthersKept, TreeOf, SlotsOk, MemOk, Peer.Valid, Peer.View,
           GattSpec.DiscAll;
      var n := Locate(conn);
      i := n;
      if n == |peers| {
        return ENOTCONN, i;
      }
      PeerValid(n);
      DiscAllAt(n, start);
      rc := start;
    }

    lemma PeerValid(n: nat)
      requires Valid() && n < |peers|
      ensures peers[n].Valid() && |View().rows| == |peers|
    {
    }

    lemma ShownInTable(n: nat)
      requires Valid() && n < |peers|
      ensures peers[n].Placed() && peers[n].slot < |store.View().svcs.chain| && peers[n].View().proc == peers[n].proc
      ensures peers[n].View().tree == TreeOf(store.View(), peers[n].slot)
      ensures peers[n].View().pools == PoolsOf(store.View())
    {
      peers[n].ViewShows();
    }

    lemma RowFound(n: nat)
      requires Valid() && n < |peers|
      ensures TableSpec.Find(View().rows, peers[n].connHandle) == n && |View().rows| == |peers|
      ensures peers[n].slot < |store.View().svcs.chain| && peers[n].Placed() && peers[n].store == store
      ensures View().rows[n] == Row(peers[n].connHandle, peers[n].View())
    {
    }

    lemma RowsChanged(v: PeerTable, m: Mem, n: nat)
      requires Valid() && n < |peers| && |v.rows| == |peers| && v.slots == |freeSlots|
      requires OthersKept(m, store.View(), peers[n].slot) && v.rows[n].conn == peers[n].connHandle
      requires peers[n].store == store && peers[n].Valid()
      requires forall i :: 0 <= i < |peers| && i != n ==>
                 && peers[i].slot != peers[n].slot && peers[i].slot < |m.svcs.chain|
                 && v.rows[i] == Row(peers[i].connHandle, peers[i].Shown(m))
      ensures View() == Changed(v, n, peers[n].View())
    {
      hide Valid, View, Peer.Shown, OthersKept, MemOk, TreeOf, Store.View, Peer.Valid;
      RowsShown();
      peers[n].ShownAt();
      forall i | 0 <= i < |peers| ensures View().rows[i] == Changed(v, n, peers[n].View()).rows[i] {
        if i != n {
          peers[i].ShownBeside(m, store.View(), peers[n].slot);
        }
      }
    }

    lemma InTableBefore(n: nat)
      requires Valid() && n < |peers|
      ensures SlotsOk(store.View(), Slots(), freeSlots)
      ensures forall i, j :: 0 <= i < j < |peers| ==> peers[i].connHandle != peers[j].connHandle
      ensures forall j :: 0 <= j < |peers| ==>
                && peers[j].store == store && peers[j].slot < |store.View().svcs.chain|
                && (peers[j].proc.AllChrs? ==> SvcOf(store.View(), peers[j].slot, peers[j].curSvc, peers[j].cur))
    {
    }

    lemma StepKeepsTable(m: Mem, n: nat)
      requires store.Valid() && n < |peers| && SlotsOk(m, Slots(), freeSlots)
      requires OthersKept(m, store.View(), peers[n].slot) && peers[n].store == store && peers[n].Valid()
      requires forall i, j :: 0 <= i < j < |peers| ==> peers[i].connHandle != peers[j].connHandle
      requires forall j :: 0 <= j < |peers| && j != n ==>
                 && peers[j].store == store && peers[j].slot < |m.svcs.chain|
                 && (peers[j].proc.AllChrs? ==> SvcOf(m, peers[j].slot, peers[j].curSvc, peers[j].cur))
      ensures Valid()
    {
      SlotsKept(m, store.View(), Slots(), freeSlots, n);
      forall j | 0 <= j < |peers| ensures InTable(peers[j]) {
        if j != n && peers[j].proc.AllChrs? {
          assert Slots()[j] != Slots()[n];
          SvcOfKept(m, store.View(), peers[n].slot, peers[j].slot, peers[j].curSvc, peers[j].cur);
        }
      }
    }

    method RemoveAt(n: nat)
      requires Valid() && n < |peers|
      modifies this, store.Repr()
      ensures Valid() && peers == old(peers)[..n] + old(peers)[n + 1..]
      ensures freeSlots == [old(peers)[n].slot] + old(freeSlots)
      ensures OthersKept(old(store.View()), store.View(), old(peers)[n].slot)
      ensures old(peers)[n].slot < |store.View().svcs.chain| && TreeOf(store.View(), old(peers)[n].slot) == []
      ensures PoolsOf(store.View())
              == GivenBack(PoolsOf(old(store.View())), TreeOf(old(store.View()), old(peers)[n].slot))
    {
      var p := peers[n];
      ghost var was, slots, m := peers, Slots(), store.View();
      SlotsDistinct(n);
      hide *;
      peers := peers[..n] + peers[n + 1..];
      GiveBack(p);
      freeSlots := [p.slot] + freeSlots;
      SlotGivenBack(m, store.View(), slots, old(freeSlots), n);
      StillValid(was, slots, n);
    }

    /** The same, seen on the table and on all blocks. */
    method Remove(n: nat)
      requires Valid() && n < |peers|
      modifies this, store.Repr()
      ensures Valid() && peers == old(peers)[..n] + old(peers)[n + 1..]
      ensures freeSlots == [old(peers)[n].slot] + old(freeSlots)
      ensures OthersKept(old(store.View()), store.View(), old(peers)[n].slot)
      ensures TreeOf(store.View(), old(peers)[n].slot) == [] && View() == Left(old(View()), n)
      ensures Total(store.View(), |old(store.View()).svcs.chain|)
              == Total(old(store.View()), |old(store.View()).svcs.chain|)
    {
      ghost var v, was, m := View(), peers, store.View();
      SlotsDistinct(n);
      RowsShown();
      hide *;
      RemoveAt(n);
      CapacityOfAllPeers(m, store.View(), was[n].slot);
      NothingToGive(PoolsOf(store.View()));
      RowsLeft(v, m, was, n);
    }

    lemma RowsShown()
      requires Valid()
      ensures |View().rows| == |peers| && View().slots == |freeSlots| && View().pools == PoolsOf(store.View())
      ensures forall i :: 0 <= i < |peers| ==>
                && peers[i].slot < |store.View().svcs.chain|
                && View().rows[i] == Row(peers[i].connHandle, peers[i].Shown(store.View()))
                && View().rows[i].disc.tree == TreeOf(store.View(), peers[i].slot)
    {
      hide LevelOk, Lists.Valid, TreeOf;
    }

    lemma RowsLeft(v: PeerTable, m: Mem, was: seq<Peer>, n: nat)
      requires Valid() && n < |was| && peers == was[..n] + was[n + 1..]
      requires |v.rows| == |was| && |freeSlots| == v.slots + 1 && OthersKept(m, store.View(), was[n].slot)
      requires PoolsOf(store.View()) == GivenBack(v.pools, v.rows[n].disc.tree)
      requires forall i :: 0 <= i < |was| && i != n ==>
                 && was[i].slot != was[n].slot && was[i].slot < |m.svcs.chain|
                 && v.rows[i] == Row(was[i].connHandle, was[i].Shown(m))
      ensures View() == Left(v, n)
    {
      hide Valid, View, Peer.Shown, OthersKept, MemOk, TreeOf, GivenBack, Store.View;
      RowsShown();
      forall i | 0 <= i < |peers| ensures View().rows[i] == Left(v, n).rows[i] {
        var j := if i < n then i else i + 1;
        assert peers[i] == was[j];
        was[j].ShownBeside(m, store.View(), was[n].slot);
      }
    }

    lemma SlotsDistinct(n: nat)
      requires Valid() && n < |peers|
      ensures forall j :: 0 <= j < |peers| && j != n ==> peers[j].slot != peers[n].slot
      ensures this !in store.Repr() && forall j :: 0 <= j < |peers| ==> peers[j] !in store.Repr()
    {
      assert forall i, j :: 0 <= i < j < |peers| ==> Slots()[i] != Slots()[j];
    }

    lemma StillValid(was: seq<Peer>, slots: seq<nat>, n: nat)
      requires n < |was| == |slots| && peers == was[..n] + was[n + 1..] && store.Valid()
      requires forall i :: 0 <= i < |was| ==> slots[i] == was[i].slot
      requires forall i, j :: 0 <= i < j < |was| ==> was[i].connHandle != was[j].connHandle
      requires forall i :: 0 <= i < |peers| ==> InTable(peers[i])
      requires SlotsOk(store.View(), slots[..n] + slots[n + 1..], freeSlots)
      ensures Valid()
    {
      assert Slots() == slots[..n] + slots[n + 1..];
    }

    /** The blocks of a peer that is off the list. */
    method GiveBack(p: Peer)
      requires store.Valid() && InTable(p) && this !in store.Repr()
      requires forall j :: 0 <= j < |peers| ==>
                 InTable(peers[j]) && peers[j].slot != p.slot && peers[j] !in store.Repr()
      modifies store.Repr()
      ensures store.Valid() && forall j :: 0 <= j < |peers| ==> InTable(peers[j])
      ensures OthersKept(old(store.View()), store.View(), p.slot) && TreeOf(store.View(), p.slot) == []
      ensures PoolsOf(store.View()) == GivenBack(PoolsOf(old(store.View())), TreeOf(old(store.View()), p.slot))
    {
      hide LevelOk, Lists.Valid, Store.Valid, Store.Repr, MemOk, TreeOf, SvcOf;
      p.Undiscover();
      forall j | 0 <= j < |peers| && peers[j].proc.AllChrs?
        ensures SvcOf(store.View(), peers[j].slot, peers[j].curSvc, peers[j].cur)
      {
        SvcOfKept(old(store.View()), store.View(), p.slot, peers[j].slot, peers[j].curSvc, peers[j].cur);
      }
    }
  }

  ghost function FirstWith(ps: seq<Peer>, conn: uint16): (n: nat)
    ensures n <= |ps| && (n < |ps| ==> ps[n].connHandle == conn)
    ensures forall i :: 0 <= i < n ==> ps[i].connHandle != conn
  {
    if ps == [] || ps[0].connHandle == conn then 0 else 1 + FirstWith(ps[1..], conn)
  }
}
