/** A discovery against a GATT server: what it asks, what it finds, and when it ends. */
module Discovery {
  import opened Types
  import opened GattSpec
  import opened PoolBlocks
  import opened Server

  // ---- The session ----------------------------------------------------------------------------------------------

  /** The peer and how many items the procedure under way has reported. */
  datatype Session = Session(d: Disc, made: nat)

  /** The server reports the next item, or that there are no more; or the procedure fails. rc answers the start of the
      procedure the callback may start. Or the other users of the pools leave other numbers of free blocks. */
  datatype Move = Answer(rc: int) | Fail(status: int) | Others(pools: Pools)

  /** What the server has to report in a procedure. */
  function Items(t: Tree, p: Proc): seq<Report> {
    match p
    case Idle => []
    case AllSvcs => seq(|t|, i requires 0 <= i < |t| => SvcItem(t[i].svc))
    case AllChrs(lo, hi) => var cs := AllChrsIn(t, lo, hi); seq(|cs|, i requires 0 <= i < |cs| => ChrItem(cs[i]))
    case AllDscs(lo, hi) => var ds := AllDscsIn(t, lo, hi); seq(|ds|, i requires 0 <= i < |ds| => DscItem(ds[i]))
  }

  function Next(t: Tree, s: Session, m: Move): Session
    requires (s.d.proc.Idle? ==> m.Others?) && (m.Fail? ==> m.status != 0)
  {
    match m
    case Others(pools) => Session(s.d.(pools := pools), s.made)
    case Fail(status) => Session(Callback(s.d, Error(status), 0), 0)
    case Answer(rc) =>
      if s.made < |Items(t, s.d.proc)|
      then Session(Callback(s.d, Items(t, s.d.proc)[s.made], rc), s.made + 1)
      else Session(Callback(s.d, Done, rc), 0)
  }

  // ---- The tree on the way --------------------------------------------------------------------------------------

  /** The first k services of the table, without characteristics. */
  function SvcsPart(t: Tree, k: nat): Tree
    requires k <= |t|
  {
    seq(k, a requires 0 <= a < k => SvcNode(t[a].svc, []))
  }

  /** The first k characteristics of a service, without descriptors. */
  function BareSvc(n: SvcNode, k: nat): SvcNode
    requires k <= |n.chrs|
  {
    SvcNode(n.svc, seq(k, b requires 0 <= b < k => ChrNode(n.chrs[b].chr, [])))
  }

  /** All services; those before i with all characteristics, i with k of them. */
  function ChrsPart(t: Tree, i: nat, k: nat): Tree
    requires i <= |t| && (i < |t| ==> k <= |t[i].chrs|)
  {
    seq(|t|, a requires 0 <= a < |t| => BareSvc(t[a], if a < i then |t[a].chrs| else if a == i then k else 0))
  }

  /** All characteristics; those before m with all descriptors. */
  function FilledSvc(n: SvcNode, m: nat): SvcNode {
    SvcNode(n.svc, seq(|n.chrs|, b requires 0 <= b < |n.chrs| =>
                                   if b < m then n.chrs[b] else ChrNode(n.chrs[b].chr, [])))
  }

  /** Everything before characteristic m of service i complete, the rest without descriptors. */
  function Filled(t: Tree, i: nat, m: nat): Tree {
    seq(|t|, a requires 0 <= a < |t| => FilledSvc(t[a], if a < i then |t[a].chrs| else if a == i then m else 0))
  }

  /** The same with k descriptors of that characteristic. */
  function DscsPart(t: Tree, i: nat, m: nat, k: nat): Tree
    requires i < |t| && m < |t[i].chrs| && k <= |t[i].chrs[m].dscs|
  {
    var f := Filled(t, i, m);
    f[i := f[i].(chrs := f[i].chrs[m := ChrNode(t[i].chrs[m].chr, t[i].chrs[m].dscs[..k])])]
  }

  lemma ChrsWhole(t: Tree)
    ensures ChrsPart(t, |t|, 0) == Filled(t, 0, 0)
  {
    forall a | 0 <= a < |t| ensures BareSvc(t[a], |t[a].chrs|) == FilledSvc(t[a], 0) {
      assert BareSvc(t[a], |t[a].chrs|).chrs == FilledSvc(t[a], 0).chrs;
    }
  }

  lemma DscsPartEnds(t: Tree, i: nat, m: nat)
    requires i < |t| && m < |t[i].chrs|
    ensures DscsPart(t, i, m, 0) == Filled(t, i, m)
    ensures DscsPart(t, i, m, |t[i].chrs[m].dscs|) == Filled(t, i, m + 1)
  {
    var f := Filled(t, i, m);
    var c := t[i].chrs[m];
    assert c.dscs[..|c.dscs|] == c.dscs;
    assert f[i].chrs[m := ChrNode(c.chr, [])] == f[i].chrs;
    assert f[i].chrs[m := c] == FilledSvc(t[i], m + 1).chrs;
  }

  // ---- The procedures -------------------------------------------------------------------------------------------

  /** One procedure for every service before n that has room for characteristics. */
  function ChrProcs(t: Tree, n: nat): seq<Proc>
    requires n <= |t|
  {
    if n == 0 then []
    else
      var svc := t[n - 1].svc;
      ChrProcs(t, n - 1) + if svc.start < svc.end then [AllChrs(svc.start, svc.end)] else []
  }

  /** One for every characteristic of a service before m whose descriptor range is not empty. */
  function SvcDscProcs(n: SvcNode, m: nat): seq<Proc>
    requires m <= |n.chrs|
  {
    if m == 0 then []
    else
      var val, end := n.chrs[m - 1].chr.val, ChrEnd(n, m - 1);
      SvcDscProcs(n, m - 1) + if val < end then [AllDscs(val, end)] else []
  }

  function DscProcs(t: Tree, n: nat): seq<Proc>
    requires n <= |t|
  {
    if n == 0 then [] else DscProcs(t, n - 1) + SvcDscProcs(t[n - 1], |t[n - 1].chrs|)
  }

  /** All procedures of a discovery, in order. */
  function Schedule(t: Tree): seq<Proc> {
    [AllSvcs] + ChrProcs(t, |t|) + DscProcs(t, |t|)
  }

  /** Those before characteristic m of service i. */
  function LogAt(t: Tree, i: nat, m: nat): seq<Proc>
    requires i < |t| && m <= |t[i].chrs|
  {
    [AllSvcs] + ChrProcs(t, |t|) + (DscProcs(t, i) + SvcDscProcs(t[i], m))
  }

  lemma LogGrows(t: Tree, i: nat, m: nat)
    requires i < |t| && m < |t[i].chrs| && !ChrEmpty(t[i], m)
    ensures LogAt(t, i, m + 1) == LogAt(t, i, m) + [AllDscs(t[i].chrs[m].chr.val, ChrEnd(t[i], m))]
  {
  }

  lemma {:induction false} ChrProcsPrefix(t: Tree, i: nat, n: nat)
    requires i <= n <= |t|
    ensures ChrProcs(t, i) <= ChrProcs(t, n)
  {
    if i < n {
      ChrProcsPrefix(t, i, n - 1);
    }
  }

  lemma {:induction false} SvcDscProcsPrefix(n: SvcNode, m: nat, k: nat)
    requires m <= k <= |n.chrs|
    ensures SvcDscProcs(n, m) <= SvcDscProcs(n, k)
  {
    if m < k {
      SvcDscProcsPrefix(n, m, k - 1);
    }
  }

  lemma {:induction false} DscProcsPrefix(t: Tree, i: nat, m: nat, n: nat)
    requires i < n <= |t| && m <= |t[i].chrs|
    ensures DscProcs(t, i) + SvcDscProcs(t[i], m) <= DscProcs(t, n)
  {
    if i == n - 1 {
      SvcDscProcsPrefix(t[i], m, |t[i].chrs|);
    } else {
      DscProcsPrefix(t, i, m, n - 1);
    }
  }

  lemma LogIsPrefix(t: Tree, i: nat, m: nat)
    requires i < |t| && m <= |t[i].chrs|
    ensures LogAt(t, i, m) <= Schedule(t)
  {
    DscProcsPrefix(t, i, m, |t|);
  }

  lemma ChrLogIsPrefix(t: Tree, i: nat)
    requires i <= |t|
    ensures [AllSvcs] + ChrProcs(t, i) <= Schedule(t)
  {
    ChrProcsPrefix(t, i, |t|);
  }

  lemma {:induction false} NoChrProcsBetween(t: Tree, i: nat, k: nat)
    requires i <= k <= |t| && forall a :: i <= a < k ==> SvcEmpty(t[a].svc)
    ensures ChrProcs(t, k) == ChrProcs(t, i)
  {
    if i < k {
      NoChrProcsBetween(t, i, k - 1);
    }
  }

  lemma {:induction false} NoSvcDscProcsBetween(n: SvcNode, m: nat, k: nat)
    requires m <= k <= |n.chrs| && forall b :: m <= b < k ==> ChrEmpty(n, b)
    ensures SvcDscProcs(n, k) == SvcDscProcs(n, m)
  {
    if m < k {
      NoSvcDscProcsBetween(n, m, k - 1);
      assert ChrEmpty(n, k - 1);
    }
  }

  // ---- The phases -----------------------------------------------------------------------------------------------

  /** What holds in every phase; `cap` is what free and reachable blocks add up to. */
  ghost predicate Running(t: Tree, s: Session, cap: Pools) {
    s.d.calls == [] && !s.d.asserted && Accounted(s.d) == cap && TableOk(t)
  }

  ghost predicate AtSvcs(t: Tree, s: Session, cap: Pools) {
    && Running(t, s, cap) && s.d.proc == AllSvcs && s.made <= |t|
    && s.d.tree == SvcsPart(t, s.made) && s.d.prevVal == 1 && s.d.started == [AllSvcs]
  }

  /** No service before i has room for characteristics but none. */
  ghost predicate Clear(t: Tree, i: nat)
    requires i <= |t|
  {
    forall a :: 0 <= a < i ==> SvcEmpty(t[a].svc) || t[a].chrs != []
  }

  ghost predicate AtChrs(t: Tree, s: Session, cap: Pools, i: nat) {
    && Running(t, s, cap) && i < |t| && Clear(t, i) && !SvcEmpty(t[i].svc) && s.made <= |t[i].chrs|
    && s.d.proc == AllChrs(t[i].svc.start, t[i].svc.end) && s.d.cur == t[i].svc.start
    && s.d.tree == ChrsPart(t, i, s.made) && s.d.prevVal == 1
    && s.d.started == [AllSvcs] + ChrProcs(t, i + 1)
  }

  ghost predicate AtDscs(t: Tree, s: Session, cap: Pools, i: nat, m: nat) {
    && Running(t, s, cap) && NoHollowService(t) && i < |t| && m < |t[i].chrs| && !ChrEmpty(t[i], m)
    && s.made <= |t[i].chrs[m].dscs|
    && s.d.proc == AllDscs(t[i].chrs[m].chr.val, ChrEnd(t[i], m))
    && s.d.tree == DscsPart(t, i, m, s.made) && s.d.prevVal == t[i].chrs[m].chr.val
    && s.d.started == LogAt(t, i, m + 1)
  }

  /** Service i has room but no characteristic: it is asked for them, again and again. */
  ghost predicate Stuck(t: Tree, s: Session, cap: Pools, i: nat) {
    && Running(t, s, cap) && i < |t| && Clear(t, i) && !SvcEmpty(t[i].svc) && t[i].chrs == [] && s.made == 0
    && s.d.proc == AllChrs(t[i].svc.start, t[i].svc.end) && s.d.tree == ChrsPart(t, i, 0) && s.d.prevVal == 1
  }

  /** The discovery has been reported complete; with status 0 the tree is the table and every procedure was run. */
  ghost predicate AtEnd(t: Tree, s: Session, cap: Pools) {
    && s.d.proc.Idle? && !s.d.asserted && Accounted(s.d) == cap && |s.d.calls| == 1
    && (s.d.calls[0] == 0 ==> NoHollowService(t) && s.d.tree == t && s.d.started == Schedule(t))
    && (NoHollowService(t) ==> s.d.started <= Schedule(t))
  }

  ghost predicate OnTrack(t: Tree, s: Session, cap: Pools) {
    || AtSvcs(t, s, cap)
    || (exists i: nat :: AtChrs(t, s, cap, i))
    || (exists i: nat :: Stuck(t, s, cap, i))
    || (exists i: nat, m: nat :: AtDscs(t, s, cap, i, m))
    || AtEnd(t, s, cap)
  }

  // ---- Adding the next item -------------------------------------------------------------------------------------

  lemma NextSvcAppended(t: Tree, k: nat, pools: Pools)
    requires TableOk(t) && k < |t|
    ensures var r := SvcAdd(SvcsPart(t, k), pools, t[k].svc);
            if pools.svcs == 0 then r == Added(ENOMEM, SvcsPart(t, k), pools)
            else r == Added(0, SvcsPart(t, k + 1), pools.(svcs := pools.svcs - 1))
  {
    var keys := SvcKeys(SvcsPart(t, k));
    forall a | 0 <= a < k ensures keys[a] < t[k].svc.start {
      assert ServiceOk(t[a]);
    }
    assert Position(keys, t[k].svc.start) == k;
    assert Inserted(SvcsPart(t, k), k, SvcNode(t[k].svc, [])) == SvcsPart(t, k + 1);
  }

  lemma ServiceFound(t: Tree, u: Tree, i: nat)
    requires TableOk(t) && i < |t| == |u| && forall a :: 0 <= a < |t| ==> u[a].svc == t[a].svc
    ensures Position(SvcKeys(u), t[i].svc.start) == i && FoundAt(SvcKeys(u), i, t[i].svc.start)
  {
  }

  lemma DefsAbove(t: Tree, i: nat, k: nat)
    requires TableOk(t) && i < |t| && k < |t[i].chrs|
    ensures forall b :: 0 <= b < k ==> t[i].chrs[b].chr.val < t[i].chrs[k].chr.def
  {
    assert ServiceOk(t[i]);
  }

  lemma NextChrAppended(t: Tree, i: nat, k: nat, pools: Pools)
    requires TableOk(t) && i < |t| && k < |t[i].chrs|
    ensures var u := ChrsPart(t, i, k);
            var r := ChrAdd(u, pools, t[i].svc.start, t[i].chrs[k].chr);
            && (if pools.chrs == 0 then r == Added(ENOMEM, u, pools)
                else r == Added(0, ChrsPart(t, i, k + 1), pools.(chrs := pools.chrs - 1)))
            && !CutsOff(ChrKeys(u[i].chrs), t[i].chrs[k].chr.def, pools.chrs)
            && Position(SvcKeys(u), t[i].svc.start) == i
  {
    hide TableOk;
    var u, c := ChrsPart(t, i, k), t[i].chrs[k].chr;
    ServiceFound(t, u, i);
    DefsAbove(t, i, k);
    var cs := u[i].chrs;
    forall b | 0 <= b < k ensures ChrKeys(cs)[b] < c.def {
      assert cs[b].chr == t[i].chrs[b].chr;
    }
    assert Position(ChrKeys(cs), c.def) == k;
    assert Linked(cs, k, ChrNode(c, [])) == BareSvc(t[i], k + 1).chrs;
    assert u[i := u[i].(chrs := cs)] == u;
    assert u[i := BareSvc(t[i], k + 1)] == ChrsPart(t, i, k + 1);
  }

  /** The handle of a characteristic finds its service and itself. */
  lemma CharacteristicFound(t: Tree, u: Tree, i: nat, m: nat)
    requires TableOk(t) && i < |t| == |u| && m < |t[i].chrs| == |u[i].chrs|
    requires forall a :: 0 <= a < |t| ==> u[a].svc == t[a].svc
    requires forall b :: 0 <= b < |t[i].chrs| ==> u[i].chrs[b].chr == t[i].chrs[b].chr
    ensures SvcInRange(u, t[i].chrs[m].chr.val) == i
    ensures Position(ChrKeys(u[i].chrs), t[i].chrs[m].chr.val) == m
    ensures FoundAt(ChrKeys(u[i].chrs), m, t[i].chrs[m].chr.val)
  {
    assert ServiceOk(t[i]);
    var v := t[i].chrs[m].chr.val;
    assert forall a :: 0 <= a < i ==> u[a].svc.end < t[i].svc.start;
    forall b | 0 <= b < m ensures ChrKeys(u[i].chrs)[b] < v {
      assert t[i].chrs[b].chr.val < t[i].chrs[m].chr.def;
    }
    assert ChrKeys(u[i].chrs)[m] == v;
  }

  lemma DscsPartShape(t: Tree, i: nat, m: nat, k: nat)
    requires i < |t| && m < |t[i].chrs| && k <= |t[i].chrs[m].dscs|
    ensures var u := DscsPart(t, i, m, k);
            && |u| == |t| && (forall a :: 0 <= a < |t| ==> u[a].svc == t[a].svc) && |u[i].chrs| == |t[i].chrs|
            && (forall b :: 0 <= b < |t[i].chrs| ==> u[i].chrs[b].chr == t[i].chrs[b].chr)
            && u[i].chrs[m].dscs == t[i].chrs[m].dscs[..k]
  {
  }

  /** One more descriptor. */
  lemma DscsPartGrows(t: Tree, i: nat, m: nat, k: nat)
    requires i < |t| && m < |t[i].chrs| && k < |t[i].chrs[m].dscs|
    ensures var u := DscsPart(t, i, m, k);
            && u[i := u[i].(chrs := u[i].chrs[m := u[i].chrs[m].(dscs := t[i].chrs[m].dscs[..k])])] == u
            && u[i := u[i].(chrs := u[i].chrs[m := u[i].chrs[m].(dscs := t[i].chrs[m].dscs[..k + 1])])]
               == DscsPart(t, i, m, k + 1)
  {
    var u, c, f := DscsPart(t, i, m, k), t[i].chrs[m], Filled(t, i, m);
    assert u[i].chrs[m := u[i].chrs[m]] == u[i].chrs;
    assert f[i].chrs[m := ChrNode(c.chr, c.dscs[..k])][m := ChrNode(c.chr, c.dscs[..k + 1])]
           == f[i].chrs[m := ChrNode(c.chr, c.dscs[..k + 1])];
  }

  lemma NextDscAppended(t: Tree, i: nat, m: nat, k: nat, pools: Pools)
    requires TableOk(t) && i < |t| && m < |t[i].chrs| && k < |t[i].chrs[m].dscs|
    ensures var u := DscsPart(t, i, m, k);
            var r := DscAdd(u, pools, t[i].chrs[m].chr.val, t[i].chrs[m].dscs[k]);
            && (if pools.dscs == 0 then r == Added(ENOMEM, u, pools)
                else r == Added(0, DscsPart(t, i, m, k + 1), pools.(dscs := pools.dscs - 1)))
            && !CutsOff(DscKeys(u[i].chrs[m].dscs), t[i].chrs[m].dscs[k].handle, pools.dscs)
            && SvcInRange(u, t[i].chrs[m].chr.val) == i && Position(ChrKeys(u[i].chrs), t[i].chrs[m].chr.val) == m
            && FoundAt(ChrKeys(u[i].chrs), m, t[i].chrs[m].chr.val)
  {
    hide DscsPart, ChrEnd;
    var u, c := DscsPart(t, i, m, k), t[i].chrs[m];
    DscsPartShape(t, i, m, k);
    DscsPartGrows(t, i, m, k);
    CharacteristicFound(t, u, i, m);
    assert ServiceOk(t[i]) && DscsOk(t[i], m);
    var ds := u[i].chrs[m].dscs;
    assert forall b :: 0 <= b < k ==> DscKeys(ds)[b] < c.dscs[k].handle;
    assert Position(DscKeys(ds), c.dscs[k].handle) == k;
    assert Linked(ds, k, c.dscs[k]) == c.dscs[..k + 1];
  }

  // ---- Starting the next procedure ------------------------------------------------------------------------------

  /** prev separates the characteristics before m of service i from the others. */
  ghost predicate Separates(t: Tree, i: nat, m: nat, prev: uint16) {
    forall a, b :: 0 <= a < |t| && 0 <= b < |t[a].chrs| ==>
      if a < i || (a == i && b < m) then t[a].chrs[b].chr.def < prev else prev <= t[a].chrs[b].chr.def
  }

  /** Within a service the search stops at the first characteristic from m on with a non-empty range; those it passes
      have no descriptors to be found. */
  lemma NextInService(n: SvcNode, m: nat, prev: uint16)
    requires ServiceOk(n) && m <= |n.chrs|
    requires forall b :: 0 <= b < |n.chrs| ==> if b < m then n.chrs[b].chr.def < prev else prev <= n.chrs[b].chr.def
    ensures var k := NextChr(FilledSvc(n, m), prev, 0);
            && m <= k <= |n.chrs| && (forall b :: m <= b < k ==> ChrEmpty(n, b)) && (k < |n.chrs| ==> !ChrEmpty(n, k))
            && FilledSvc(n, k) == FilledSvc(n, m)
  {
    var f := FilledSvc(n, m);
    forall b | 0 <= b < |n.chrs|
      ensures ChrEnd(f, b) == ChrEnd(n, b) && f.chrs[b].chr == n.chrs[b].chr
      ensures NeedsDscs(f, b, prev) <==> m <= b && !ChrEmpty(n, b)
    {
    }
    var k := NextChr(f, prev, 0);
    assert k < |n.chrs| ==> NeedsDscs(f, k, prev);
    forall b | m <= b < k ensures ChrEmpty(n, b) && n.chrs[b].dscs == [] {
      assert !NeedsDscs(f, b, prev);
      ChrEndBounds(n, b);
    }
    assert FilledSvc(n, k).chrs == f.chrs by {
      forall b | 0 <= b < |n.chrs| ensures FilledSvc(n, k).chrs[b] == f.chrs[b] {
        assert m <= b < k ==> n.chrs[b] == ChrNode(n.chrs[b].chr, []);
      }
    }
  }

  /** The number of characteristics of service a before position (i, m). */
  function Before(t: Tree, i: nat, m: nat, a: nat): nat
    requires a < |t|
  {
    if a < i then |t[a].chrs| else if a == i then m else 0
  }

  lemma {:induction false} NoDscProcsBetween(t: Tree, i: nat, m: nat, n: nat)
    requires i < n <= |t| && m <= |t[i].chrs|
    requires forall a, b :: i <= a < n && 0 <= b < |t[a].chrs| && (a > i || b >= m) ==> ChrEmpty(t[a], b)
    ensures DscProcs(t, n) == DscProcs(t, i) + SvcDscProcs(t[i], m)
  {
    if i == n - 1 {
      NoSvcDscProcsBetween(t[i], m, |t[i].chrs|);
    } else {
      NoDscProcsBetween(t, i, m, n - 1);
      NoSvcDscProcsBetween(t[n - 1], 0, |t[n - 1].chrs|);
    }
  }

  /** What the search finds in service a, seen from position (i, m). */
  ghost predicate Searched(t: Tree, i: nat, m: nat, prev: uint16, a: nat)
    requires a < |t|
  {
    var f := FilledSvc(t[a], Before(t, i, m, a));
    var k := NextChr(f, prev, 0);
    && Before(t, i, m, a) <= k <= |t[a].chrs| && (k < |t[a].chrs| ==> !ChrEmpty(t[a], k))
    && (forall b :: Before(t, i, m, a) <= b < k ==> ChrEmpty(t[a], b))
    && FilledSvc(t[a], k) == f
  }

  lemma SearchEach(t: Tree, i: nat, m: nat, prev: uint16)
    requires TableOk(t) && i < |t| && m <= |t[i].chrs| && Separates(t, i, m, prev)
    ensures forall a :: 0 <= a < |t| ==> Searched(t, i, m, prev, a)
  {
    forall a | 0 <= a < |t| ensures Searched(t, i, m, prev, a) {
      NextInService(t[a], Before(t, i, m, a), prev);
    }
  }

  /** Nothing is left from position (i, m) on: the tree is the table. */
  lemma NothingLeft(t: Tree, i: nat, m: nat, prev: uint16)
    requires i < |t| && m <= |t[i].chrs| && forall a :: 0 <= a < |t| ==> Searched(t, i, m, prev, a)
    requires NextSvc(Filled(t, i, m), prev, 0) == |t|
    ensures Filled(t, i, m) == t
    ensures DscProcs(t, |t|) == DscProcs(t, i) + SvcDscProcs(t[i], m)
  {
    var f := Filled(t, i, m);
    forall a | 0 <= a < |t|
      ensures f[a] == t[a] && forall b :: 0 <= b < |t[a].chrs| && b >= Before(t, i, m, a) ==> ChrEmpty(t[a], b)
    {
      assert Searched(t, i, m, prev, a) && NextChr(f[a], prev, 0) == |f[a].chrs|;
      assert FilledSvc(t[a], |t[a].chrs|).chrs == t[a].chrs;
    }
    NoDscProcsBetween(t, i, m, |t|);
  }

  /** The next characteristic is k of service n: everything before it is done. */
  lemma NextFound(t: Tree, i: nat, m: nat, prev: uint16, n: nat, k: nat)
    requires i < |t| && m <= |t[i].chrs| && forall a :: 0 <= a < |t| ==> Searched(t, i, m, prev, a)
    requires n == NextSvc(Filled(t, i, m), prev, 0) && n < |t| && k == NextChr(Filled(t, i, m)[n], prev, 0)
    ensures k < |t[n].chrs| && !ChrEmpty(t[n], k) && Filled(t, n, k) == Filled(t, i, m)
    ensures DscProcs(t, n) + SvcDscProcs(t[n], k) == DscProcs(t, i) + SvcDscProcs(t[i], m)
  {
    var f := Filled(t, i, m);
    assert Searched(t, i, m, prev, n);
    forall a | 0 <= a < n
      ensures FilledSvc(t[a], |t[a].chrs|) == f[a]
      ensures forall b :: 0 <= b < |t[a].chrs| && b >= Before(t, i, m, a) ==> ChrEmpty(t[a], b)
    {
      assert Searched(t, i, m, prev, a) && NextChr(f[a], prev, 0) == |f[a].chrs|;
    }
    assert forall a :: 0 <= a < |t| ==> Filled(t, n, k)[a] == f[a];
    if i < n {
      NoDscProcsBetween(t, i, m, n);
    }
    NoSvcDscProcsBetween(t[n], Before(t, i, m, n), k);
  }

  lemma FilledAt(t: Tree, n: nat, k: nat)
    requires n < |t| && k < |t[n].chrs|
    ensures var f := Filled(t, n, k);
            && |f| == |t| && |f[n].chrs| == |t[n].chrs| && ChrEnd(f[n], k) == ChrEnd(t[n], k)
            && f[n].chrs[k].chr == t[n].chrs[k].chr
  {
  }

  lemma StartDscs(t: Tree, d: Disc, cap: Pools, n: nat, k: nat, rc: int)
    requires TableOk(t) && NoHollowService(t) && n < |t| && k < |t[n].chrs| && !ChrEmpty(t[n], k)
    requires d.proc.Idle? && d.calls == [] && !d.asserted && Accounted(d) == cap && d.tree == Filled(t, n, k)
    requires n == NextSvc(d.tree, d.prevVal, 0) && k == NextChr(d.tree[n], d.prevVal, 0)
    requires d.started == LogAt(t, n, k)
    ensures var s := Session(DiscDscs(d, rc), 0);
            if rc == 0 then AtDscs(t, s, cap, n, k) else AtEnd(t, s, cap)
  {
    hide Filled, DscsPart, Schedule, LogAt, TableOk, NoHollowService, ChrEnd;
    FilledAt(t, n, k);
    DscsPartEnds(t, n, k);
    LogGrows(t, n, k);
    LogIsPrefix(t, n, k);
  }

  /** From position (i, m) on there is nothing left. */
  lemma EndDscs(t: Tree, d: Disc, cap: Pools, i: nat, m: nat, rc: int)
    requires NoHollowService(t) && i < |t| && m <= |t[i].chrs|
    requires forall a :: 0 <= a < |t| ==> Searched(t, i, m, d.prevVal, a)
    requires d.proc.Idle? && d.calls == [] && !d.asserted && Accounted(d) == cap && d.tree == Filled(t, i, m)
    requires d.started == LogAt(t, i, m) && NextSvc(d.tree, d.prevVal, 0) == |t|
    ensures var s := Session(DiscDscs(d, rc), 0); AtEnd(t, s, cap) && s.d.calls == [0]
  {
    NothingLeft(t, i, m, d.prevVal);
    hide Filled, Searched, NoHollowService;
  }

  /** From position (i, m) on: the next characteristic with a non-empty range, or the end. */
  lemma EnterDscs(t: Tree, d: Disc, cap: Pools, i: nat, m: nat, rc: int)
    requires TableOk(t) && NoHollowService(t) && i < |t| && m <= |t[i].chrs| && Separates(t, i, m, d.prevVal)
    requires d.proc.Idle? && d.calls == [] && !d.asserted && Accounted(d) == cap && d.tree == Filled(t, i, m)
    requires d.started == LogAt(t, i, m)
    ensures var s := Session(DiscDscs(d, rc), 0);
            || (AtEnd(t, s, cap) && (s.d.calls == [0] || s.d.calls == [rc]))
            || (rc == 0 && exists n: nat, k: nat :: AtDscs(t, s, cap, n, k))
  {
    SearchEach(t, i, m, d.prevVal);
    var n := NextSvc(d.tree, d.prevVal, 0);
    hide Searched, DiscDscs;
    if n == |t| {
      EndDscs(t, d, cap, i, m, rc);
    } else {
      var k := NextChr(d.tree[n], d.prevVal, 0);
      NextFound(t, i, m, d.prevVal, n, k);
      StartDscs(t, d, cap, n, k, rc);
    }
  }

  lemma HasRoom(n: SvcNode)
    requires ServiceOk(n) && n.chrs != []
    ensures !SvcEmpty(n.svc)
  {
    assert n.svc.start < n.chrs[0].chr.def < n.chrs[0].chr.val <= n.svc.end;
  }

  /** Services without room have no characteristics to be found. */
  lemma ChrsPartSame(t: Tree, i: nat, n: nat)
    requires TableOk(t) && i <= n <= |t| && forall a :: i <= a < n ==> SvcEmpty(t[a].svc)
    ensures ChrsPart(t, n, 0) == ChrsPart(t, i, 0)
  {
    forall a | i <= a < n ensures t[a].chrs == [] {
      if t[a].chrs != [] {
        HasRoom(t[a]);
      }
    }
    assert forall a :: 0 <= a < |t| ==> ChrsPart(t, n, 0)[a] == ChrsPart(t, i, 0)[a];
  }

  lemma StartChrs(t: Tree, d: Disc, cap: Pools, i: nat, n: nat, rc: int)
    requires TableOk(t) && i <= n < |t| && !SvcEmpty(t[n].svc) && Clear(t, i)
    requires forall a :: i <= a < n ==> SvcEmpty(t[a].svc)
    requires d.proc.Idle? && d.calls == [] && !d.asserted && Accounted(d) == cap && d.prevVal == 1
    requires d.tree == ChrsPart(t, i, 0) && n == NextBare(d.tree, 0) && d.started == [AllSvcs] + ChrProcs(t, i)
    ensures var s := Session(DiscChrs(d, rc), 0);
            if rc == 0 then AtChrs(t, s, cap, n) else AtEnd(t, s, cap) && s.d.calls == [rc]
  {
    NoChrProcsBetween(t, i, n);
    ChrsPartSame(t, i, n);
    ChrLogIsPrefix(t, n);
    assert [AllSvcs] + ChrProcs(t, n + 1)
           == [AllSvcs] + ChrProcs(t, n) + [AllChrs(t[n].svc.start, t[n].svc.end)];
  }

  /** All characteristics are there: on to the descriptors. */
  lemma LeaveChrs(t: Tree, d: Disc, cap: Pools, rc: int)
    requires TableOk(t) && NoHollowService(t)
    requires d.proc.Idle? && d.calls == [] && !d.asserted && Accounted(d) == cap && d.prevVal == 1
    requires d.tree == Filled(t, 0, 0) && d.started == [AllSvcs] + ChrProcs(t, |t|)
    ensures var s := Session(DiscDscs(d, rc), 0);
            || (AtEnd(t, s, cap) && (s.d.calls == [0] || s.d.calls == [rc]))
            || (rc == 0 && exists n: nat, k: nat :: AtDscs(t, s, cap, n, k))
  {
    if t != [] {
      assert Separates(t, 0, 0, 1) by {
        assert forall a :: 0 <= a < |t| ==> ServiceOk(t[a]);
      }
      assert LogAt(t, 0, 0) == [AllSvcs] + ChrProcs(t, |t|);
      hide DiscDscs, Filled, TableOk, NoHollowService;
      EnterDscs(t, d, cap, 0, 0, rc);
    } else {
      assert Schedule(t) == [AllSvcs];
    }
  }

  /** From service i on: the next service with room for characteristics, or the descriptors. */
  lemma {:induction false} EnterChrs(t: Tree, d: Disc, cap: Pools, i: nat, rc: int)
    requires TableOk(t) && i <= |t| && Clear(t, i)
    requires d.proc.Idle? && d.calls == [] && !d.asserted && Accounted(d) == cap && d.prevVal == 1
    requires d.tree == ChrsPart(t, i, 0) && d.started == [AllSvcs] + ChrProcs(t, i)
    ensures var s := Session(DiscChrs(d, rc), 0);
            || (AtEnd(t, s, cap) && (s.d.calls == [0] || s.d.calls == [rc]))
            || (rc == 0 && ((exists n: nat :: AtChrs(t, s, cap, n))
                            || exists n: nat, k: nat :: AtDscs(t, s, cap, n, k)))
  {
    hide DiscChrs, DiscDscs, ChrsPart, TableOk, ChrProcs, Clear, SvcEmpty, NoHollowService;
    var n := NextBareFrom(t, i);
    if n < |t| {
      StartChrs(t, d, cap, i, n, rc);
    } else {
      NoChrProcsBetween(t, i, |t|);
      ChrsPartSame(t, i, |t|);
      ChrsWhole(t);
      NoneBare(d, rc);
      LeaveChrs(t, d, cap, rc);
    }
  }

  /** All services before i have their characteristics, the others none: the search stops at the first of these that has
      room. */
  lemma NextBareFrom(t: Tree, i: nat) returns (n: nat)
    requires i <= |t| && Clear(t, i)
    ensures i <= n <= |t| && n == NextBare(ChrsPart(t, i, 0), 0) && |ChrsPart(t, i, 0)| == |t|
    ensures forall a :: i <= a < n ==> SvcEmpty(t[a].svc)
    ensures if n < |t| then !SvcEmpty(t[n].svc) else NoHollowService(t)
  {
    var u := ChrsPart(t, i, 0);
    n := NextBare(u, 0);
    forall a | 0 <= a < i ensures SvcEmpty(u[a].svc) || u[a].chrs != [] {
      assert |u[a].chrs| == |t[a].chrs|;
    }
    forall a | i <= a < n ensures SvcEmpty(t[a].svc) {
      assert u[a].chrs == [];
    }
  }

  lemma NoneBare(d: Disc, rc: int)
    requires NextBare(d.tree, 0) == |d.tree|
    ensures DiscChrs(d, rc) == DiscDscs(d, rc)
  {
  }

  // ---- One move -------------------------------------------------------------------------------------------------

  /** A session that goes on, or was reported complete; with a working stack and memory only with status 0. */
  ghost predicate Continues(t: Tree, s: Session, cap: Pools, rc: int) {
    || (AtEnd(t, s, cap) && (s.d.calls == [0] || s.d.calls == [rc] || s.d.calls == [ENOMEM]))
    || AtSvcs(t, s, cap) || (exists i: nat :: AtChrs(t, s, cap, i)) || (exists i: nat :: Stuck(t, s, cap, i))
    || (exists i: nat, m: nat :: AtDscs(t, s, cap, i, m))
  }

  lemma SvcsMove(t: Tree, s: Session, cap: Pools, rc: int)
    requires AtSvcs(t, s, cap)
    ensures Continues(t, Next(t, s, Answer(rc)), cap, rc)
    ensures Next(t, s, Answer(rc)).d.calls == [ENOMEM] ==> (s.d.pools.svcs == 0 && s.made < |t|) || rc == ENOMEM
  {
    if s.made < |t| {
      NextSvcAppended(t, s.made, s.d.pools);
      SvcAddBlocks(s.d.tree, s.d.pools, t[s.made].svc);
      ChrLogIsPrefix(t, 0);
    } else {
      assert forall a :: 0 <= a < |t| ==> BareSvc(t[a], 0).chrs == [];
      assert s.d.tree == ChrsPart(t, 0, 0);
      assert Next(t, s, Answer(rc)) == Session(DiscChrs(s.d.(proc := Idle), rc), 0);
      hide Next, DiscChrs, Callback, ChrsPart, SvcsPart;
      EnterChrs(t, s.d.(proc := Idle), cap, 0, rc);
    }
  }

  /** The next characteristic is added, or there was no memory for it. */
  lemma ChrsItem(t: Tree, s: Session, cap: Pools, i: nat, rc: int)
    requires AtChrs(t, s, cap, i) && s.made < |t[i].chrs|
    ensures var s' := Next(t, s, Answer(rc));
            if s.d.pools.chrs == 0 then AtEnd(t, s', cap) && s'.d.calls == [ENOMEM] else AtChrs(t, s', cap, i)
  {
    hide TableOk, NoHollowService, ChrAdd, ChrsPart, Schedule, CutsOff, GivenBack, AllChrsIn;
    ServiceAnswers(t, i);
    var c := t[i].chrs[s.made].chr;
    assert Items(t, s.d.proc)[s.made] == ChrItem(c);
    NextChrAppended(t, i, s.made, s.d.pools);
    ChrAddBlocks(s.d.tree, s.d.pools, s.d.cur, c);
    ChrLogIsPrefix(t, i + 1);
  }

  lemma ChrsDone(t: Tree, s: Session, cap: Pools, i: nat, rc: int)
    requires AtChrs(t, s, cap, i) && s.made == |t[i].chrs|
    ensures Next(t, s, Answer(rc)) == Session(DiscChrs(s.d.(proc := Idle), rc), 0)
    ensures s.d.tree == ChrsPart(t, i + 1, 0)
  {
    ServiceAnswers(t, i);
    assert forall a :: 0 <= a < |t| ==> ChrsPart(t, i, |t[i].chrs|)[a] == ChrsPart(t, i + 1, 0)[a];
  }

  /** A service without characteristics is the first one without them again. */
  lemma StuckMove(t: Tree, s: Session, cap: Pools, i: nat, rc: int)
    requires Stuck(t, s, cap, i)
    ensures var s' := Next(t, s, Answer(rc));
            if rc == 0 then Stuck(t, s', cap, i) else AtEnd(t, s', cap) && s'.d.calls == [rc]
  {
    ServiceAnswers(t, i);
    assert Items(t, s.d.proc) == [];
    var u := s.d.tree;
    forall a | 0 <= a < i ensures SvcEmpty(u[a].svc) || u[a].chrs != [] {
      assert |u[a].chrs| == |t[a].chrs|;
    }
    assert u[i].chrs == [] && u[i].svc == t[i].svc;
    assert NextBare(u, 0) == i;
  }

  lemma ChrsMove(t: Tree, s: Session, cap: Pools, i: nat, rc: int)
    requires AtChrs(t, s, cap, i)
    ensures Continues(t, Next(t, s, Answer(rc)), cap, rc)
    ensures Next(t, s, Answer(rc)).d.calls == [ENOMEM] ==> (s.d.pools.chrs == 0 && s.made < |t[i].chrs|) || rc == ENOMEM
  {
    if s.made < |t[i].chrs| {
      ChrsItem(t, s, cap, i, rc);
    } else if t[i].chrs == [] {
      StuckMove(t, s, cap, i, rc);
    } else {
      hide Next, DiscChrs, Callback, ChrsPart;
      ChrsDone(t, s, cap, i, rc);
      EnterChrs(t, s.d.(proc := Idle), cap, i + 1, rc);
    }
  }

  /** The value handle of (i, m) separates what is done from what is not. */
  lemma ValueSeparates(t: Tree, i: nat, m: nat)
    requires TableOk(t) && i < |t| && m < |t[i].chrs|
    ensures Separates(t, i, m + 1, t[i].chrs[m].chr.val)
  {
  }

  /** The next descriptor is added, or there was no memory for it. */
  lemma DscsItem(t: Tree, s: Session, cap: Pools, i: nat, m: nat, rc: int)
    requires AtDscs(t, s, cap, i, m) && s.made < |t[i].chrs[m].dscs|
    ensures var s' := Next(t, s, Answer(rc));
            if s.d.pools.dscs == 0 then AtEnd(t, s', cap) && s'.d.calls == [ENOMEM] else AtDscs(t, s', cap, i, m)
  {
    hide TableOk, NoHollowService, DscAdd, DscsPart, LogAt, Schedule, CutsOff, GivenBack, ChrEnd, ChrEmpty, AllDscsIn;
    CharacteristicAnswers(t, i, m);
    var x := t[i].chrs[m].dscs[s.made];
    assert Items(t, s.d.proc)[s.made] == DscItem(x);
    NextDscAppended(t, i, m, s.made, s.d.pools);
    DscAddBlocks(s.d.tree, s.d.pools, t[i].chrs[m].chr.val, x);
    LogIsPrefix(t, i, m + 1);
  }

  lemma DscsDone(t: Tree, s: Session, cap: Pools, i: nat, m: nat, rc: int)
    requires AtDscs(t, s, cap, i, m) && s.made == |t[i].chrs[m].dscs|
    ensures Next(t, s, Answer(rc)) == Session(DiscDscs(s.d.(proc := Idle), rc), 0)
    ensures s.d.tree == Filled(t, i, m + 1)
  {
    CharacteristicAnswers(t, i, m);
    DscsPartEnds(t, i, m);
    assert s.d.prevVal != 0 by {
      assert ServiceOk(t[i]);
    }
  }

  lemma DscsMove(t: Tree, s: Session, cap: Pools, i: nat, m: nat, rc: int)
    requires AtDscs(t, s, cap, i, m)
    ensures Continues(t, Next(t, s, Answer(rc)), cap, rc)
    ensures Next(t, s, Answer(rc)).d.calls == [ENOMEM] ==>
              (s.d.pools.dscs == 0 && s.made < |t[i].chrs[m].dscs|) || rc == ENOMEM
  {
    if s.made < |t[i].chrs[m].dscs| {
      DscsItem(t, s, cap, i, m, rc);
    } else {
      hide Next, DiscDscs, Callback, DscsPart, Filled, Separates;
      DscsDone(t, s, cap, i, m, rc);
      ValueSeparates(t, i, m);
      EnterDscs(t, s.d.(proc := Idle), cap, i, m + 1, rc);
    }
  }

  lemma OnTrackLog(t: Tree, s: Session, cap: Pools)
    requires OnTrack(t, s, cap) && NoHollowService(t)
    ensures s.d.started <= Schedule(t)
  {
    hide Schedule, DscsPart, ChrsPart;
    if AtSvcs(t, s, cap) {
      ChrLogIsPrefix(t, 0);
    } else if i: nat :| AtChrs(t, s, cap, i) {
      ChrLogIsPrefix(t, i + 1);
    } else if i: nat, m: nat :| AtDscs(t, s, cap, i, m) {
      LogIsPrefix(t, i, m + 1);
    }
  }

  lemma Failed(t: Tree, s: Session, cap: Pools, status: int)
    requires OnTrack(t, s, cap) && !s.d.proc.Idle? && status != 0
    ensures AtEnd(t, Next(t, s, Fail(status)), cap) && Next(t, s, Fail(status)).d.calls == [status]
  {
    assert Running(t, s, cap);
    if NoHollowService(t) {
      OnTrackLog(t, s, cap);
    }
    hide OnTrack, Schedule, NoHollowService;
  }

  lemma OwnMoveOnTrack(t: Tree, s: Session, cap: Pools, m: Move)
    requires OnTrack(t, s, cap) && !s.d.proc.Idle? && (m.Fail? ==> m.status != 0) && !m.Others?
    ensures OnTrack(t, Next(t, s, m), cap)
  {
    match m
    case Fail(status) => Failed(t, s, cap, status);
    case Answer(rc) =>
      hide Next;
      if AtSvcs(t, s, cap) {
        SvcsMove(t, s, cap, rc);
      } else if i: nat :| AtChrs(t, s, cap, i) {
        ChrsMove(t, s, cap, i, rc);
      } else if i: nat :| Stuck(t, s, cap, i) {
        StuckMove(t, s, cap, i, rc);
      } else {
        var i: nat, k: nat :| AtDscs(t, s, cap, i, k);
        DscsMove(t, s, cap, i, k, rc);
      }
  }

  /** What the others do to the pools does not change how far this peer's discovery is. */
  lemma OthersOnTrack(t: Tree, s: Session, cap: Pools, pools: Pools)
    requires OnTrack(t, s, cap)
    ensures OnTrack(t, Next(t, s, Move.Others(pools)), GivenBack(pools, s.d.tree))
  {
    hide TableOk, NoHollowService, Clear, ChrsPart, DscsPart, SvcsPart, Schedule, LogAt, ChrProcs, SvcEmpty, ChrEmpty;
    var s', cap' := Next(t, s, Move.Others(pools)), GivenBack(pools, s.d.tree);
    if AtSvcs(t, s, cap) {
      assert AtSvcs(t, s', cap');
    } else if i: nat :| AtChrs(t, s, cap, i) {
      assert AtChrs(t, s', cap', i);
    } else if i: nat :| Stuck(t, s, cap, i) {
      assert Stuck(t, s', cap', i);
    } else if i: nat, m: nat :| AtDscs(t, s, cap, i, m) {
      assert AtDscs(t, s', cap', i, m);
    } else {
      assert AtEnd(t, s', cap');
    }
  }

  /** On the way cap is what can be accounted for. */
  lemma OnTrackCap(t: Tree, s: Session, cap: Pools)
    requires OnTrack(t, s, cap)
    ensures Accounted(s.d) == cap
  {
  }

  lemma OnTrackKept(t: Tree, s: Session, m: Move)
    requires OnTrack(t, s, Accounted(s.d)) && (s.d.proc.Idle? ==> m.Others?) && (m.Fail? ==> m.status != 0)
    ensures OnTrack(t, Next(t, s, m), Accounted(Next(t, s, m).d))
    ensures !m.Others? ==> Accounted(Next(t, s, m).d) == Accounted(s.d)
  {
    if m.Others? {
      OthersOnTrack(t, s, Accounted(s.d), m.pools);
      OnTrackCap(t, Next(t, s, m), GivenBack(m.pools, s.d.tree));
    } else {
      OwnMoveOnTrack(t, s, Accounted(s.d), m);
      OnTrackCap(t, Next(t, s, m), Accounted(s.d));
    }
  }

  // ---- Whole discoveries ----------------------------------------------------------------------------------------

  predicate MovesOk(ms: seq<Move>) {
    forall m :: m in ms && m.Fail? ==> m.status != 0
  }

  /** The session after a sequence of moves, or None if this peer's discovery was over before one of its own. */
  ghost function Played(t: Tree, s: Session, ms: seq<Move>): Option<Session>
    requires MovesOk(ms)
  {
    if ms == [] then Some(s)
    else
      match Played(t, s, ms[..|ms| - 1])
      case None => None
      case Some(before) =>
        if before.d.proc.Idle? && !ms[|ms| - 1].Others? then None else Some(Next(t, before, ms[|ms| - 1]))
  }

  /** What the others gave back (or, negative, took) during the moves. */
  ghost function Given(t: Tree, s: Session, ms: seq<Move>): Change
    requires MovesOk(ms) && Played(t, s, ms).Some?
  {
    if ms == [] then Change(0, 0, 0)
    else
      var before := ms[..|ms| - 1];
      match ms[|ms| - 1]
      case Others(pools) => Sum(Given(t, s, before), Minus(pools, Played(t, s, before).value.d.pools))
      case _ => Given(t, s, before)
  }

  lemma Begins(t: Tree, d: Disc)
    requires TableOk(t) && !d.asserted
    ensures AtSvcs(t, Session(DiscAll(d, 0), 0), Accounted(d))
    ensures OnTrack(t, Session(DiscAll(d, 0), 0), Accounted(d))
  {
  }

  lemma {:induction false} PlayedOnTrack(t: Tree, s: Session, ms: seq<Move>)
    requires OnTrack(t, s, Accounted(s.d)) && MovesOk(ms) && Played(t, s, ms).Some?
    ensures var e := Played(t, s, ms).value;
            OnTrack(t, e, Accounted(e.d)) && Minus(Accounted(e.d), Accounted(s.d)) == Given(t, s, ms)
  {
    if ms != [] {
      hide OnTrack, Callback, Accounted;
      var before, m := ms[..|ms| - 1], ms[|ms| - 1];
      PlayedOnTrack(t, s, before);
      var b := Played(t, s, before).value;
      OnTrackKept(t, b, m);
      if m.Others? {
        OthersShift(b.d, m.pools);
      }
    }
  }

  /** Against any server with a well-formed table, whatever fails on the way and whatever the other peers do with the
      pools meanwhile: no assertion is reached, no block is lost, completion is reported when nothing runs any more and
      not before, and a discovery reported complete with status 0 has found exactly the table, with one procedure for
      every non-empty range, in ascending order. */
  lemma {:induction false} DiscoveryFindsTheTable(t: Tree, d: Disc, ms: seq<Move>)
    requires TableOk(t) && !d.asserted && MovesOk(ms)
    requires Played(t, Session(DiscAll(d, 0), 0), ms).Some?
    ensures var s := Session(DiscAll(d, 0), 0);
            var e := Played(t, s, ms).value.d;
            && !e.asserted && Minus(Accounted(e), Accounted(d)) == Given(t, s, ms)
            && (e.proc.Idle? <==> |e.calls| == 1) && (!e.proc.Idle? ==> e.calls == [])
            && (e.calls == [0] ==> e.tree == t && e.started == Schedule(t) && NoHollowService(t))
  {
    Begins(t, d);
    RediscoveryGivesAllBack(d, 0);
    PlayedOnTrack(t, Session(DiscAll(d, 0), 0), ms);
    OnTrackSays(t, Played(t, Session(DiscAll(d, 0), 0), ms).value);
  }

  lemma OnTrackSays(t: Tree, s: Session)
    requires OnTrack(t, s, Accounted(s.d))
    ensures !s.d.asserted && (s.d.proc.Idle? <==> |s.d.calls| == 1) && (!s.d.proc.Idle? ==> s.d.calls == [])
    ensures s.d.calls == [0] ==> s.d.tree == t && s.d.started == Schedule(t) && NoHollowService(t)
  {
    hide TableOk, NoHollowService, Clear, ChrsPart, DscsPart, SvcsPart, Schedule, LogAt, ChrProcs, SvcEmpty, ChrEmpty;
  }

  /** Discovering an unchanged server again, with other peers at work before and meanwhile, leaves the same tree and
      costs no block: the free blocks change only by what the others give or take. */
  lemma {:induction false} TwiceIsOnce(t: Tree, d: Disc, ms: seq<Move>, between: Pools, ns: seq<Move>, once: Disc,
                                       twice: Disc, made: nat, made': nat)
    requires TableOk(t) && !d.asserted && MovesOk(ms) && MovesOk(ns)
    requires Played(t, Session(DiscAll(d, 0), 0), ms) == Some(Session(once, made)) && once.calls == [0]
    requires Played(t, Session(DiscAll(once.(pools := between), 0), 0), ns) == Some(Session(twice, made'))
    requires twice.calls == [0]
    ensures twice.tree == once.tree == t
    ensures Minus(twice.pools, between) == Given(t, Session(DiscAll(once.(pools := between), 0), 0), ns)
  {
    DiscoveryFindsTheTable(t, d, ms);
    DiscoveryFindsTheTable(t, once.(pools := between), ns);
  }

  // ---- Termination ----------------------------------------------------------------------------------------------

  /** Moves needed to run some procedures to their end. */
  function Cost(t: Tree, ps: seq<Proc>): nat {
    if ps == [] then 0 else Cost(t, ps[..|ps| - 1]) + |Items(t, ps[|ps| - 1])| + 1
  }

  /** How many of the moves are this peer's own. */
  function Own(ms: seq<Move>): nat {
    if ms == [] then 0 else Own(ms[..|ms| - 1]) + if ms[|ms| - 1].Others? then 0 else 1
  }

  /** n own moves were made; all but the last started procedure ran to the end. */
  ghost predicate Clock(t: Tree, s: Session, n: nat) {
    if s.d.proc.Idle? then n <= Cost(t, s.d.started)
    else
      && s.d.started != [] && s.d.started[|s.d.started| - 1] == s.d.proc && s.made <= |Items(t, s.d.proc)|
      && n + |Items(t, s.d.proc)| + 1 == Cost(t, s.d.started) + s.made
  }

  lemma StartedGrows(d: Disc, r: Report, rc: int)
    requires Fits(d.proc, r)
    ensures var e := Callback(d, r, rc);
            || (e.started == d.started && (e.proc == d.proc || e.proc.Idle?)
                && (r.Done? || r.Error? ==> e.proc.Idle?))
            || (r.Done? && !e.proc.Idle? && e.started == d.started + [e.proc])
  {
    hide SvcAdd, ChrAdd, DscAdd, NextSvc, NextChr, NextBare, ChrEnd;
  }

  lemma ItemsFit(t: Tree, p: Proc)
    ensures forall i :: 0 <= i < |Items(t, p)| ==> Fits(p, Items(t, p)[i]) && !Items(t, p)[i].Done?
  {
  }

  lemma ClockTicks(t: Tree, s: Session, m: Move, n: nat)
    requires Clock(t, s, n) && (s.d.proc.Idle? ==> m.Others?) && (m.Fail? ==> m.status != 0)
    ensures Clock(t, Next(t, s, m), if m.Others? then n else n + 1)
  {
    ItemsFit(t, s.d.proc);
    hide Items, Callback;
    match m
    case Others(_) =>
    case Fail(status) => StartedGrows(s.d, Error(status), 0);
    case Answer(rc) =>
      var r := if s.made < |Items(t, s.d.proc)| then Items(t, s.d.proc)[s.made] else Done;
      StartedGrows(s.d, r, rc);
      var e := Callback(s.d, r, rc);
      assert r.Done? && !e.proc.Idle? ==> e.started[..|e.started| - 1] == s.d.started;
  }

  lemma {:induction false} ClockRuns(t: Tree, s: Session, ms: seq<Move>)
    requires Clock(t, s, 0) && MovesOk(ms) && Played(t, s, ms).Some?
    ensures Clock(t, Played(t, s, ms).value, Own(ms))
  {
    if ms != [] {
      hide Next, Clock;
      ClockRuns(t, s, ms[..|ms| - 1]);
      ClockTicks(t, Played(t, s, ms[..|ms| - 1]).value, ms[|ms| - 1], Own(ms[..|ms| - 1]));
    }
  }

  lemma {:induction false} CostOfPrefix(t: Tree, a: seq<Proc>, b: seq<Proc>)
    requires a <= b
    ensures Cost(t, a) <= Cost(t, b)
  {
    if |a| < |b| {
      CostOfPrefix(t, a, b[..|b| - 1]);
    } else {
      assert a == b;
    }
  }

  /** Every discovery of such a server ends, whatever the others do: this peer makes no more moves than reporting each
      attribute and the end of each procedure takes. */
  lemma {:induction false} DiscoveryEnds(t: Tree, d: Disc, ms: seq<Move>)
    requires TableOk(t) && NoHollowService(t) && !d.asserted && MovesOk(ms)
    requires Played(t, Session(DiscAll(d, 0), 0), ms).Some?
    ensures Own(ms) <= Cost(t, Schedule(t))
  {
    var s := Session(DiscAll(d, 0), 0);
    Begins(t, d);
    RediscoveryGivesAllBack(d, 0);
    PlayedOnTrack(t, s, ms);
    assert Cost(t, [AllSvcs]) == Cost(t, []) + |Items(t, AllSvcs)| + 1;
    ClockRuns(t, s, ms);
    var e := Played(t, s, ms).value;
    hide OnTrack, Played;
    OnTrackLog(t, e, Accounted(e.d));
    CostOfPrefix(t, e.d.started, Schedule(t));
  }

  // ---- Enough memory and a working stack ------------------------------------------------------------------------

  ghost predicate Ample(t: Tree, cap: Pools) {
    cap.svcs >= |t| && cap.chrs >= ChrCount(t) && cap.dscs >= DscCount(t)
  }

  lemma {:induction false} FewerChrs(u: Tree, t: Tree, i: nat)
    requires |u| == |t| && i < |t| && |u[i].chrs| < |t[i].chrs|
    requires forall a :: 0 <= a < |t| ==> |u[a].chrs| <= |t[a].chrs|
    ensures ChrCount(u) < ChrCount(t)
  {
    if i == 0 {
      NoMoreChrs(u[1..], t[1..]);
    } else {
      FewerChrs(u[1..], t[1..], i - 1);
    }
  }

  lemma {:induction false} NoMoreChrs(u: Tree, t: Tree)
    requires |u| == |t| && forall a :: 0 <= a < |t| ==> |u[a].chrs| <= |t[a].chrs|
    ensures ChrCount(u) <= ChrCount(t)
  {
    if t != [] {
      NoMoreChrs(u[1..], t[1..]);
    }
  }

  lemma {:induction false} NoMoreDscsOf(u: seq<ChrNode>, c: seq<ChrNode>)
    requires |u| == |c| && forall b :: 0 <= b < |c| ==> |u[b].dscs| <= |c[b].dscs|
    ensures DscsOf(u) <= DscsOf(c)
  {
    if c != [] {
      NoMoreDscsOf(u[1..], c[1..]);
    }
  }

  lemma {:induction false} FewerDscsOf(u: seq<ChrNode>, c: seq<ChrNode>, m: nat)
    requires |u| == |c| && m < |c| && |u[m].dscs| < |c[m].dscs|
    requires forall b :: 0 <= b < |c| ==> |u[b].dscs| <= |c[b].dscs|
    ensures DscsOf(u) < DscsOf(c)
  {
    if m == 0 {
      NoMoreDscsOf(u[1..], c[1..]);
    } else {
      FewerDscsOf(u[1..], c[1..], m - 1);
    }
  }

  lemma {:induction false} NoMoreDscs(u: Tree, t: Tree)
    requires |u| == |t| && forall a :: 0 <= a < |t| ==> DscsOf(u[a].chrs) <= DscsOf(t[a].chrs)
    ensures DscCount(u) <= DscCount(t)
  {
    if t != [] {
      NoMoreDscs(u[1..], t[1..]);
    }
  }

  lemma {:induction false} FewerDscs(u: Tree, t: Tree, i: nat)
    requires |u| == |t| && i < |t| && DscsOf(u[i].chrs) < DscsOf(t[i].chrs)
    requires forall a :: 0 <= a < |t| ==> DscsOf(u[a].chrs) <= DscsOf(t[a].chrs)
    ensures DscCount(u) < DscCount(t)
  {
    if i == 0 {
      NoMoreDscs(u[1..], t[1..]);
    } else {
      FewerDscs(u[1..], t[1..], i - 1);
    }
  }

  lemma ChrsPartFewer(t: Tree, i: nat, k: nat)
    requires i < |t| && k < |t[i].chrs|
    ensures ChrCount(ChrsPart(t, i, k)) < ChrCount(t)
  {
    FewerChrs(ChrsPart(t, i, k), t, i);
  }

  lemma DscsPartFewer(t: Tree, i: nat, m: nat, k: nat)
    requires i < |t| && m < |t[i].chrs| && k < |t[i].chrs[m].dscs|
    ensures DscCount(DscsPart(t, i, m, k)) < DscCount(t)
  {
    var u := DscsPart(t, i, m, k);
    forall a | 0 <= a < |t| ensures DscsOf(u[a].chrs) <= DscsOf(t[a].chrs) {
      NoMoreDscsOf(u[a].chrs, t[a].chrs);
    }
    FewerDscsOf(u[i].chrs, t[i].chrs, m);
    FewerDscs(u, t, i);
  }

  /** After a move nothing but success has been reported. */
  ghost predicate Fine(s: Session) {
    s.d.calls == [] || s.d.calls == [0]
  }

  lemma SvcsFine(t: Tree, s: Session, cap: Pools)
    requires AtSvcs(t, s, cap) && Ample(t, cap)
    ensures Fine(Next(t, s, Answer(0)))
  {
    SvcsMove(t, s, cap, 0);
    hide Next;
  }

  lemma ChrsFine(t: Tree, s: Session, cap: Pools, i: nat)
    requires AtChrs(t, s, cap, i) && Ample(t, cap)
    ensures Fine(Next(t, s, Answer(0)))
  {
    ChrsMove(t, s, cap, i, 0);
    hide Next;
    if s.made < |t[i].chrs| {
      ChrsPartFewer(t, i, s.made);
    }
  }

  lemma DscsFine(t: Tree, s: Session, cap: Pools, i: nat, m: nat)
    requires AtDscs(t, s, cap, i, m) && Ample(t, cap)
    ensures Fine(Next(t, s, Answer(0)))
  {
    hide Next, TableOk, NoHollowService, DscsPart, LogAt, Schedule, CutsOff, ChrEnd, ChrEmpty, AllDscsIn, DscCount,
         ChrCount;
    DscsMove(t, s, cap, i, m, 0);
    if s.made < |t[i].chrs[m].dscs| {
      DscsPartFewer(t, i, m, s.made);
    }
  }

  /** With memory for the whole table and a stack that starts every procedure nothing but success is reported. */
  lemma OnlySuccess(t: Tree, s: Session, cap: Pools)
    requires OnTrack(t, s, cap) && !s.d.proc.Idle? && Ample(t, cap)
    ensures Fine(Next(t, s, Answer(0)))
  {
    hide Next, AtSvcs, AtChrs, AtDscs, Ample;
    if AtSvcs(t, s, cap) {
      SvcsFine(t, s, cap);
    } else if i: nat :| AtChrs(t, s, cap, i) {
      ChrsFine(t, s, cap, i);
    } else if i: nat :| Stuck(t, s, cap, i) {
      StuckMove(t, s, cap, i, 0);
    } else {
      var i: nat, m: nat :| AtDscs(t, s, cap, i, m);
      DscsFine(t, s, cap, i, m);
    }
  }

  /** The moves are successful answers, and the others always leave enough for the table. */
  ghost predicate Smooth(t: Tree, s: Session, ms: seq<Move>)
    requires MovesOk(ms) && Played(t, s, ms).Some?
  {
    ms == [] ||
    var before := ms[..|ms| - 1];
    && Smooth(t, s, before)
    && match ms[|ms| - 1]
       case Answer(rc) => rc == 0
       case Fail(_) => false
       case Others(pools) => Ample(t, GivenBack(pools, Played(t, s, before).value.d.tree))
  }

  /** Then nothing but success is reported. */
  lemma {:induction false} SmoothIsFine(t: Tree, s: Session, ms: seq<Move>)
    requires OnTrack(t, s, Accounted(s.d)) && Fine(s) && Ample(t, Accounted(s.d))
    requires MovesOk(ms) && Played(t, s, ms).Some? && Smooth(t, s, ms)
    ensures Fine(Played(t, s, ms).value) && Ample(t, Accounted(Played(t, s, ms).value.d))
  {
    if ms != [] {
      hide OnTrack, Callback, Ample;
      var before, m := ms[..|ms| - 1], ms[|ms| - 1];
      SmoothIsFine(t, s, before);
      PlayedOnTrack(t, s, before);
      var b := Played(t, s, before).value;
      if m.Answer? {
        OnlySuccess(t, b, Accounted(b.d));
        OnTrackKept(t, b, m);
      }
    }
  }

  /** As long as a smooth discovery runs, another answer keeps it smooth. */
  lemma {:induction false} SmoothExtends(t: Tree, s: Session, ms: seq<Move>)
    requires MovesOk(ms) && Played(t, s, ms).Some? && Smooth(t, s, ms) && !Played(t, s, ms).value.d.proc.Idle?
    ensures MovesOk(ms + [Answer(0)]) && Played(t, s, ms + [Answer(0)]).Some? && Smooth(t, s, ms + [Answer(0)])
    ensures Own(ms + [Answer(0)]) == Own(ms) + 1
  {
    var longer := ms + [Answer(0)];
    assert longer[..|longer| - 1] == ms;
  }

  ghost predicate Succeeds(t: Tree, s: Session, ms: seq<Move>) {
    MovesOk(ms) && Played(t, s, ms).Some? && Smooth(t, s, ms)
    && Played(t, s, ms).value.d.calls == [0] && Played(t, s, ms).value.d.tree == t
  }

  /** The discovery has been played smoothly so far. */
  ghost predicate SmoothlyTo(t: Tree, d: Disc, ms: seq<Move>, e: Session) {
    var s := Session(DiscAll(d, 0), 0);
    MovesOk(ms) && Played(t, s, ms) == Some(e) && Smooth(t, s, ms)
  }

  ghost predicate MayStart(t: Tree, d: Disc) {
    TableOk(t) && NoHollowService(t) && !d.asserted && Ample(t, Accounted(d))
  }

  lemma {:induction false} AnswerOnce(t: Tree, d: Disc, ms: seq<Move>, e: Session) returns (e': Session)
    requires MayStart(t, d) && SmoothlyTo(t, d, ms, e) && !e.d.proc.Idle?
    ensures SmoothlyTo(t, d, ms + [Answer(0)], e') && Own(ms) < Own(ms + [Answer(0)]) <= Cost(t, Schedule(t))
  {
    SmoothExtends(t, Session(DiscAll(d, 0), 0), ms);
    DiscoveryEnds(t, d, ms + [Answer(0)]);
    e' := Played(t, Session(DiscAll(d, 0), 0), ms + [Answer(0)]).value;
  }

  lemma {:induction false} RestIsSuccess(t: Tree, d: Disc, ms: seq<Move>, e: Session)
    requires MayStart(t, d) && SmoothlyTo(t, d, ms, e) && e.d.proc.Idle?
    ensures Succeeds(t, Session(DiscAll(d, 0), 0), ms)
  {
    DiscoveryFindsTheTable(t, d, ms);
    SmoothFromTheStart(t, d, ms);
  }

  lemma {:induction false} LeadsToSuccess(t: Tree, d: Disc, ms: seq<Move>, e: Session) returns (more: seq<Move>)
    requires MayStart(t, d) && SmoothlyTo(t, d, ms, e)
    ensures Succeeds(t, Session(DiscAll(d, 0), 0), ms + more) && forall m :: m in more ==> m == Answer(0)
    decreases Cost(t, Schedule(t)) - Own(ms)
  {
    hide *;
    if e.d.proc.Idle? {
      RestIsSuccess(t, d, ms, e);
      more := [];
      assert ms + [] == ms;
    } else {
      var e' := AnswerOnce(t, d, ms, e);
      more := LeadsToSuccess(t, d, ms + [Answer(0)], e');
      assert ms + [Answer(0)] + more == ms + ([Answer(0)] + more);
      more := [Answer(0)] + more;
    }
  }

  /** From wherever a smooth discovery has come to, further answers lead to success. */
  lemma {:induction false} DiscoverySucceeds(t: Tree, d: Disc, ms: seq<Move>)
    requires TableOk(t) && NoHollowService(t) && !d.asserted && Ample(t, Accounted(d))
    requires var s := Session(DiscAll(d, 0), 0); MovesOk(ms) && Played(t, s, ms).Some? && Smooth(t, s, ms)
    ensures exists more: seq<Move> ::
              (forall m :: m in more ==> m == Answer(0)) && Succeeds(t, Session(DiscAll(d, 0), 0), ms + more)
  {
    var e := Played(t, Session(DiscAll(d, 0), 0), ms).value;
    assert MayStart(t, d) && SmoothlyTo(t, d, ms, e);
    hide *;
    var more := LeadsToSuccess(t, d, ms, e);
  }

  lemma {:induction false} SmoothFromTheStart(t: Tree, d: Disc, ms: seq<Move>)
    requires TableOk(t) && !d.asserted && Ample(t, Accounted(d))
    requires var s := Session(DiscAll(d, 0), 0); MovesOk(ms) && Played(t, s, ms).Some? && Smooth(t, s, ms)
    ensures Fine(Played(t, Session(DiscAll(d, 0), 0), ms).value)
  {
    Begins(t, d);
    RediscoveryGivesAllBack(d, 0);
    SmoothIsFine(t, Session(DiscAll(d, 0), 0), ms);
  }

  // ---- Hollow services ------------------------------------------------------------------------------------------

  /** A service with room but without characteristics: it is asked for them for ever. */
  lemma {:induction false} HollowNeverEnds(t: Tree, d: Disc, ms: seq<Move>)
    requires TableOk(t) && !NoHollowService(t) && !d.asserted && Ample(t, Accounted(d))
    requires var s := Session(DiscAll(d, 0), 0); MovesOk(ms) && Played(t, s, ms).Some? && Smooth(t, s, ms)
    ensures !Played(t, Session(DiscAll(d, 0), 0), ms).value.d.proc.Idle?
  {
    SmoothFromTheStart(t, d, ms);
    DiscoveryFindsTheTable(t, d, ms);
  }

  /** So there are runs of every length. */
  lemma {:induction false} HollowGoesOn(t: Tree, d: Disc, n: nat) returns (ms: seq<Move>)
    requires TableOk(t) && !NoHollowService(t) && !d.asserted && Ample(t, Accounted(d))
    ensures var s := Session(DiscAll(d, 0), 0); MovesOk(ms) && Played(t, s, ms).Some? && Smooth(t, s, ms)
    ensures Own(ms) == n
  {
    ms := [];
    if n > 0 {
      ms := HollowGoesOn(t, d, n - 1);
      HollowNeverEnds(t, d, ms);
      SmoothExtends(t, Session(DiscAll(d, 0), 0), ms);
      ms := ms + [Answer(0)];
    }
  }

  /** In no discovery of the server does the peer make more than `bound` moves. */
  ghost predicate EndsWithin(t: Tree, d: Disc, bound: nat) {
    forall ms :: MovesOk(ms) && Played(t, Session(DiscAll(d, 0), 0), ms).Some? ==> Own(ms) <= bound
  }

  /** With memory for the whole table, discovery is sure to end exactly when no service is hollow. */
  lemma EndsIffNoHollowService(t: Tree, d: Disc)
    requires TableOk(t) && !d.asserted && Ample(t, Accounted(d))
    ensures NoHollowService(t) <==> exists bound: nat :: EndsWithin(t, d, bound)
  {
    if NoHollowService(t) {
      forall ms | MovesOk(ms) && Played(t, Session(DiscAll(d, 0), 0), ms).Some?
        ensures Own(ms) <= Cost(t, Schedule(t))
      {
        DiscoveryEnds(t, d, ms);
      }
      assert EndsWithin(t, d, Cost(t, Schedule(t)));
    } else if bound: nat :| EndsWithin(t, d, bound) {
      var ms := HollowGoesOn(t, d, bound + 1);
    }
  }
}
