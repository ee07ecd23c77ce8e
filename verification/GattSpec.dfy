/** The discovered tree of one peer, the block pools and the discovery callbacks of main/mesh_peer.c, as values.
    PeerStore.dfy and Peers.dfy hold the linked lists that represent this tree. */
module GattSpec {
  import opened Types

  const ENOMEM: int := 6
  const ENOTCONN: int := 7

  datatype Svc = Svc(start: uint16, end: uint16, uuid: nat)
  datatype Chr = Chr(def: uint16, val: uint16, uuid: nat)
  datatype Dsc = Dsc(handle: uint16, uuid: nat)

  datatype ChrNode = ChrNode(chr: Chr, dscs: seq<Dsc>)
  datatype SvcNode = SvcNode(svc: Svc, chrs: seq<ChrNode>)
  type Tree = seq<SvcNode>

  /** Free blocks of the service, characteristic and descriptor pools. */
  datatype Pools = Pools(svcs: nat, chrs: nat, dscs: nat)

  // ---- Finding --------------------------------------------------------------------------------------------------

  /** The number of leading keys below h: the *_find_prev loops stop at the first key that is not. */
  function Position(keys: seq<int>, h: int): (n: nat)
    ensures n <= |keys|
    ensures forall i :: 0 <= i < n ==> keys[i] < h
    ensures n < |keys| ==> keys[n] >= h
  {
    if keys == [] || keys[0] >= h then 0 else 1 + Position(keys[1..], h)
  }

  /** The *_find functions look at the entry after `prev` only. */
  predicate FoundAt(keys: seq<int>, n: nat, h: int) {
    n < |keys| && keys[n] == h
  }

  function SvcKeys(t: Tree): seq<int> {
    seq(|t|, i requires 0 <= i < |t| => t[i].svc.start)
  }

  /** Characteristics are kept by value handle. */
  function ChrKeys(cs: seq<ChrNode>): seq<int> {
    seq(|cs|, i requires 0 <= i < |cs| => cs[i].chr.val)
  }

  function DscKeys(ds: seq<Dsc>): seq<int> {
    seq(|ds|, i requires 0 <= i < |ds| => ds[i].handle)
  }

  /** The first service whose handle range contains h, or |t|. */
  function SvcInRange(t: Tree, h: uint16): (n: nat)
    ensures n <= |t|
    ensures forall i :: 0 <= i < n ==> !(t[i].svc.start <= h <= t[i].svc.end)
    ensures n < |t| ==> t[n].svc.start <= h <= t[n].svc.end
  {
    if t == [] || t[0].svc.start <= h <= t[0].svc.end then 0 else 1 + SvcInRange(t[1..], h)
  }

  // ---- Adding ---------------------------------------------------------------------------------------------------

  /** Linking after `prev` without keeping what followed it: at the head the old list stays behind the new entry,
      further on it is lost. */
  function Linked<T>(xs: seq<T>, n: nat, x: T): seq<T>
    requires n <= |xs|
  {
    if n == 0 then [x] + xs else xs[..n] + [x]
  }

  /** Linking that keeps what followed. */
  function Inserted<T>(xs: seq<T>, n: nat, x: T): seq<T>
    requires n <= |xs|
  {
    xs[..n] + [x] + xs[n..]
  }

  /** A status to report, or a failed assertion. */
  datatype Added<T> = Added(rc: int, value: T, pools: Pools) | Asserted

  function SvcAdd(t: Tree, pools: Pools, svc: Svc): Added<Tree> {
    var n := Position(SvcKeys(t), svc.start);
    if FoundAt(SvcKeys(t), n, svc.start) then Added(0, t, pools)
    else if pools.svcs == 0 then Added(ENOMEM, t, pools)
    else Added(0, Inserted(t, n, SvcNode(svc, [])), pools.(svcs := pools.svcs - 1))
  }

  /** Looked up by the definition handle in a list kept by value handle. */
  function ChrInsert(cs: seq<ChrNode>, pools: Pools, chr: Chr): (r: Added<seq<ChrNode>>)
    ensures r.Added?
  {
    var n := Position(ChrKeys(cs), chr.def);
    if FoundAt(ChrKeys(cs), n, chr.def) then Added(0, cs, pools)
    else if pools.chrs == 0 then Added(ENOMEM, cs, pools)
    else Added(0, Linked(cs, n, ChrNode(chr, [])), pools.(chrs := pools.chrs - 1))
  }

  function ChrAdd(t: Tree, pools: Pools, svcStart: uint16, chr: Chr): Added<Tree> {
    var i := Position(SvcKeys(t), svcStart);
    if !FoundAt(SvcKeys(t), i, svcStart) then Asserted
    else
      var r := ChrInsert(t[i].chrs, pools, chr);
      Added(r.rc, t[i := t[i].(chrs := r.value)], r.pools)
  }

  function DscInsert(ds: seq<Dsc>, pools: Pools, dsc: Dsc): (r: Added<seq<Dsc>>)
    ensures r.Added?
  {
    var n := Position(DscKeys(ds), dsc.handle);
    if FoundAt(DscKeys(ds), n, dsc.handle) then Added(0, ds, pools)
    else if pools.dscs == 0 then Added(ENOMEM, ds, pools)
    else Added(0, Linked(ds, n, dsc), pools.(dscs := pools.dscs - 1))
  }

  function DscAdd(t: Tree, pools: Pools, chrVal: uint16, dsc: Dsc): Added<Tree> {
    var i := SvcInRange(t, chrVal);
    if i == |t| then Asserted
    else
      var j := Position(ChrKeys(t[i].chrs), chrVal);
      if !FoundAt(ChrKeys(t[i].chrs), j, chrVal) then Asserted
      else
        var r := DscInsert(t[i].chrs[j].dscs, pools, dsc);
        Added(r.rc, t[i := t[i].(chrs := t[i].chrs[j := t[i].chrs[j].(dscs := r.value)])], r.pools)
  }

  // ---- Counting -------------------------------------------------------------------------------------------------

  function DscsOf(cs: seq<ChrNode>): nat {
    if cs == [] then 0 else |cs[0].dscs| + DscsOf(cs[1..])
  }

  function ChrCount(t: Tree): nat {
    if t == [] then 0 else |t[0].chrs| + ChrCount(t[1..])
  }

  function DscCount(t: Tree): nat {
    if t == [] then 0 else DscsOf(t[0].chrs) + DscCount(t[1..])
  }

  /** The free blocks once a tree has been given back. */
  function GivenBack(pools: Pools, t: Tree): Pools {
    Pools(pools.svcs + |t|, pools.chrs + ChrCount(t), pools.dscs + DscCount(t))
  }

  function Plus(a: Pools, b: Pools): Pools {
    Pools(a.svcs + b.svcs, a.chrs + b.chrs, a.dscs + b.dscs)
  }

  // ---- The discovery state machine ------------------------------------------------------------------------------

  /** A GATT procedure under way. */
  datatype Proc = Idle | AllSvcs | AllChrs(start: uint16, end: uint16) | AllDscs(val: uint16, end: uint16)

  /** struct mesh_peer with its pools: `prevVal` is disc_prev_chr_val, `cur` the start handle of *cur_svc. `started`
      logs the procedures started, `calls` the arguments of disc_cb. */
  datatype Disc = Disc(tree: Tree, pools: Pools, prevVal: uint16, cur: uint16, proc: Proc, started: seq<Proc>,
                       calls: seq<int>, asserted: bool)

  datatype Report = SvcItem(svc: Svc) | ChrItem(chr: Chr) | DscItem(dsc: Dsc) | Done | Error(status: int)

  function Completed(d: Disc, rc: int): Disc {
    d.(prevVal := 0, calls := d.calls + [rc])
  }

  /** Starting a procedure: rc is what the stack answers. */
  function Start(d: Disc, p: Proc, rc: int): Disc {
    if rc != 0 then Completed(d, rc) else d.(proc := p, started := d.started + [p])
  }

  predicate SvcEmpty(s: Svc) {
    s.end <= s.start
  }

  /** The last handle that can belong to characteristic j; 16-bit subtraction. */
  function ChrEnd(n: SvcNode, j: nat): uint16
    requires j < |n.chrs|
  {
    if j + 1 < |n.chrs| then (n.chrs[j + 1].chr.def - 1) % 0x1_0000 else n.svc.end
  }

  predicate ChrEmpty(n: SvcNode, j: nat)
    requires j < |n.chrs|
  {
    ChrEnd(n, j) <= n.chrs[j].chr.val
  }

  /** Characteristic j still needs its descriptors. */
  predicate NeedsDscs(n: SvcNode, j: nat, prevVal: uint16)
    requires j < |n.chrs|
  {
    !ChrEmpty(n, j) && n.chrs[j].dscs == [] && prevVal <= n.chrs[j].chr.def
  }

  /** The first characteristic of a service from j on that does, or the number of characteristics. */
  function NextChr(n: SvcNode, prevVal: uint16, j: nat): (k: nat)
    requires j <= |n.chrs|
    ensures j <= k <= |n.chrs|
    ensures forall i :: j <= i < k ==> !NeedsDscs(n, i, prevVal)
    ensures k < |n.chrs| ==> NeedsDscs(n, k, prevVal)
    decreases |n.chrs| - j
  {
    if j == |n.chrs| || NeedsDscs(n, j, prevVal) then j else NextChr(n, prevVal, j + 1)
  }

  /** The first service from i on with such a characteristic, or |t|. */
  function NextSvc(t: Tree, prevVal: uint16, i: nat): (k: nat)
    requires i <= |t|
    ensures i <= k <= |t|
    ensures forall a :: i <= a < k ==> NextChr(t[a], prevVal, 0) == |t[a].chrs|
    ensures k < |t| ==> NextChr(t[k], prevVal, 0) < |t[k].chrs|
    decreases |t| - i
  {
    if i == |t| || NextChr(t[i], prevVal, 0) < |t[i].chrs| then i else NextSvc(t, prevVal, i + 1)
  }

  /** peer_disc_dscs; disc_prev_chr_val is set even when the start failed. */
  function DiscDscs(d: Disc, rc: int): Disc {
    var i := NextSvc(d.tree, d.prevVal, 0);
    if i == |d.tree| then Completed(d, 0)
    else
      var j := NextChr(d.tree[i], d.prevVal, 0);
      var val := d.tree[i].chrs[j].chr.val;
      Start(d, AllDscs(val, ChrEnd(d.tree[i], j)), rc).(prevVal := val)
  }

  /** The first service from i on that has room for characteristics and none yet, or |t|. */
  function NextBare(t: Tree, i: nat): (k: nat)
    requires i <= |t|
    ensures i <= k <= |t|
    ensures forall a :: i <= a < k ==> SvcEmpty(t[a].svc) || t[a].chrs != []
    ensures k < |t| ==> !SvcEmpty(t[k].svc) && t[k].chrs == []
    decreases |t| - i
  {
    if i == |t| || (!SvcEmpty(t[i].svc) && t[i].chrs == []) then i else NextBare(t, i + 1)
  }

  /** peer_disc_chrs. */
  function DiscChrs(d: Disc, rc: int): Disc {
    var i := NextBare(d.tree, 0);
    if i == |d.tree| then DiscDscs(d, rc)
    else
      var svc := d.tree[i].svc;
      Start(d.(cur := svc.start), AllChrs(svc.start, svc.end), rc)
  }

  /** After an item was added: a status other than 0 ends the procedure and the discovery. */
  function AfterAdd(d: Disc, r: Added<Tree>): Disc {
    match r
    case Asserted => d.(proc := Idle, asserted := true)
    case Added(rc, t, pools) =>
      var d1 := d.(tree := t, pools := pools);
      if rc == 0 then d1 else Completed(d1.(proc := Idle), rc)
  }

  /** The report is one the procedure under way can make. */
  predicate Fits(p: Proc, r: Report) {
    match r
    case SvcItem(_) => p.AllSvcs?
    case ChrItem(_) => p.AllChrs?
    case DscItem(_) => p.AllDscs?
    case Done => !p.Idle?
    case Error(status) => !p.Idle? && status != 0
  }

  /** The three *_disced callbacks; rc is the answer to the procedure the callback may start. */
  function Callback(d: Disc, r: Report, rc: int): Disc
    requires Fits(d.proc, r)
  {
    match r
    case SvcItem(svc) => AfterAdd(d, SvcAdd(d.tree, d.pools, svc))
    case ChrItem(chr) => AfterAdd(d, ChrAdd(d.tree, d.pools, d.cur, chr))
    case DscItem(dsc) => AfterAdd(d, DscAdd(d.tree, d.pools, d.proc.val, dsc))
    case Error(status) => Completed(d.(proc := Idle), status)
    case Done =>
      var d1 := d.(proc := Idle);
      if d.prevVal == 0 then d1
      else if d.proc.AllDscs? then DiscDscs(d1, rc)
      else DiscChrs(d1, rc)
  }

  /** mesh_peer_disc_all on an idle peer, whose result is rc. */
  function DiscAll(d: Disc, rc: int): Disc {
    var d1 := d.(tree := [], pools := GivenBack(d.pools, d.tree), prevVal := 1, calls := [], started := []);
    if rc != 0 then d1 else d1.(proc := AllSvcs, started := [AllSvcs])
  }
}
