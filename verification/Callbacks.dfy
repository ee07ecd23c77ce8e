/** Completion of a discovery is reported once, whatever the peer and the stack answer. */
module Callbacks {
  import opened Types
  import opened GattSpec

  /** A callback of the stack for this peer, with what it reports and the stack's answer to the procedure the callback
      may start; or others using the shared pools, which then have other numbers of free blocks. */
  datatype Event = Event(report: Report, rc: int) | Others(pools: Pools)

  predicate Possible(d: Disc, e: Event) {
    e.Event? ==> Fits(d.proc, e.report)
  }

  function Happened(d: Disc, e: Event): Disc
    requires Possible(d, e)
  {
    match e
    case Event(report, rc) => Callback(d, report, rc)
    case Others(pools) => d.(pools := pools)
  }

  /** The state after a sequence of events, or None if a callback fitted no procedure under way. */
  ghost function Ran(d: Disc, es: seq<Event>): Option<Disc> {
    if es == [] then Some(d)
    else
      match Ran(d, es[..|es| - 1])
      case None => None
      case Some(before) =>
        if Possible(before, es[|es| - 1]) then Some(Happened(before, es[|es| - 1])) else None
  }

  /** No reported characteristic has the reserved value handle 0. */
  predicate HandlesValid(es: seq<Event>) {
    forall e :: e in es && e.Event? && e.report.ChrItem? ==> e.report.chr.val != 0
  }

  ghost predicate TreeHandlesValid(t: Tree) {
    forall i, j :: 0 <= i < |t| && 0 <= j < |t[i].chrs| ==> t[i].chrs[j].chr.val != 0
  }

  /** As long as a procedure runs nothing has been reported; when none does, exactly one status has. */
  ghost predicate OneCall(d: Disc) {
    && TreeHandlesValid(d.tree)
    && (!d.proc.Idle? ==> d.calls == [] && d.prevVal != 0 && !d.asserted)
    && (d.proc.Idle? && !d.asserted ==> |d.calls| == 1)
    && (d.asserted ==> d.proc.Idle? && d.calls == [])
  }

  lemma SvcAddKeepsHandles(t: Tree, pools: Pools, svc: Svc)
    requires TreeHandlesValid(t)
    ensures SvcAdd(t, pools, svc).Added? && TreeHandlesValid(SvcAdd(t, pools, svc).value)
  {
    hide Position, FoundAt;
  }

  lemma ChrAddKeepsHandles(t: Tree, pools: Pools, start: uint16, chr: Chr)
    requires TreeHandlesValid(t) && chr.val != 0 && ChrAdd(t, pools, start, chr).Added?
    ensures TreeHandlesValid(ChrAdd(t, pools, start, chr).value)
  {
    var i := Position(SvcKeys(t), start);
    forall j | 0 <= j < |ChrInsert(t[i].chrs, pools, chr).value|
      ensures ChrInsert(t[i].chrs, pools, chr).value[j].chr.val != 0
    {
    }
    hide Position, SvcKeys, ChrInsert;
  }

  lemma DscAddKeepsHandles(t: Tree, pools: Pools, val: uint16, dsc: Dsc)
    requires TreeHandlesValid(t) && DscAdd(t, pools, val, dsc).Added?
    ensures TreeHandlesValid(DscAdd(t, pools, val, dsc).value)
  {
    hide Position, SvcInRange, DscInsert;
  }

  lemma AddsKeepHandles(d: Disc, r: Report)
    requires TreeHandlesValid(d.tree) && Fits(d.proc, r) && (r.ChrItem? ==> r.chr.val != 0)
    requires r.SvcItem? || r.ChrItem? || r.DscItem?
    ensures TreeHandlesValid(Callback(d, r, 0).tree)
  {
    hide SvcAdd, ChrAdd, DscAdd, TreeHandlesValid;
    match r
    case SvcItem(svc) => SvcAddKeepsHandles(d.tree, d.pools, svc);
    case ChrItem(chr) =>
      if ChrAdd(d.tree, d.pools, d.cur, chr).Added? {
        ChrAddKeepsHandles(d.tree, d.pools, d.cur, chr);
      }
    case DscItem(dsc) =>
      if DscAdd(d.tree, d.pools, d.proc.val, dsc).Added? {
        DscAddKeepsHandles(d.tree, d.pools, d.proc.val, dsc);
      }
  }

  lemma OneCallKept(d: Disc, e: Event)
    requires OneCall(d) && Possible(d, e) && (e.Event? && e.report.ChrItem? ==> e.report.chr.val != 0)
    ensures OneCall(Happened(d, e))
  {
    if e.Event? {
      match e.report
      case Done => DoneKeepsOneCall(d, e.rc);
      case Error(_) =>
      case _ => AddsKeepHandles(d, e.report);
    }
  }

  lemma DoneKeepsOneCall(d: Disc, rc: int)
    requires OneCall(d) && !d.proc.Idle?
    ensures OneCall(Callback(d, Done, rc))
  {
    hide SvcKeys, ChrKeys, ChrEnd;
  }

  lemma {:induction false} OneCallOverRuns(d: Disc, es: seq<Event>)
    requires OneCall(d) && Ran(d, es).Some? && HandlesValid(es)
    ensures OneCall(Ran(d, es).value)
  {
    if es != [] {
      hide OneCall, Happened, Possible;
      OneCallOverRuns(d, es[..|es| - 1]);
      OneCallKept(Ran(d, es[..|es| - 1]).value, es[|es| - 1]);
    }
  }

  /** After mesh_peer_disc_all returned 0 the completion callback runs exactly once in a run that comes to rest, and
      not before it does: through errors, exhausted pools and procedures that do not start, whatever the other peers
      do. If it returned another value no callback can follow. */
  lemma CompletionReportedOnce(d: Disc, rc: int, es: seq<Event>)
    requires d.proc.Idle? && !d.asserted
    requires Ran(DiscAll(d, rc), es).Some? && HandlesValid(es)
    ensures var end := Ran(DiscAll(d, rc), es).value;
            if rc != 0 then end.calls == [] && forall e :: e in es ==> e.Others?
            else end.asserted || |end.calls| == if end.proc.Idle? then 1 else 0
  {
    if rc == 0 {
      OneCallOverRuns(DiscAll(d, rc), es);
    } else {
      NothingFitsIdle(DiscAll(d, rc), es);
    }
  }

  lemma {:induction false} NothingFitsIdle(d: Disc, es: seq<Event>)
    requires d.proc.Idle? && Ran(d, es).Some?
    ensures forall e :: e in es ==> e.Others?
    ensures Ran(d, es).value.proc.Idle? && Ran(d, es).value.calls == d.calls
  {
    if es != [] {
      NothingFitsIdle(d, es[..|es| - 1]);
      assert es == es[..|es| - 1] + [es[|es| - 1]];
    }
  }

  // ---- Exactly when completion goes unreported ------------------------------------------------------------------

  /** disc_prev_chr_val while a procedure runs. */
  function Marker(p: Proc): int {
    match p
    case AllDscs(val, _) => val
    case _ => 1
  }

  /** The descriptors of a characteristic with value handle 0 have all been reported. */
  predicate StopsSilently(d: Disc, e: Event) {
    e.Event? && e.report.Done? && d.proc.AllDscs? && d.proc.val == 0
  }

  /** That happened during the run. */
  ghost predicate Silenced(d: Disc, es: seq<Event>)
    requires Ran(d, es).Some?
  {
    es != [] && (Silenced(d, es[..|es| - 1]) || StopsSilently(Ran(d, es[..|es| - 1]).value, es[|es| - 1]))
  }

  /** While a procedure runs nothing has been reported; after that one status has, unless the discovery was silenced or
      an assertion failed. */
  ghost predicate Tracked(d: Disc, silenced: bool) {
    && (!d.proc.Idle? ==> !d.asserted && !silenced && d.prevVal == Marker(d.proc))
    && |d.calls| == if !d.proc.Idle? || d.asserted || silenced then 0 else 1
  }

  lemma CallbackTracked(d: Disc, r: Report, rc: int)
    requires Tracked(d, false) && Fits(d.proc, r)
    ensures Tracked(Callback(d, r, rc), StopsSilently(d, Event(r, rc)))
  {
    hide SvcAdd, ChrAdd, DscAdd, NextSvc, NextChr, NextBare, ChrEnd;
  }

  lemma {:induction false} TrackedOverRuns(d: Disc, es: seq<Event>)
    requires Ran(d, es).Some? && Tracked(d, false)
    ensures Tracked(Ran(d, es).value, Silenced(d, es))
  {
    if es != [] {
      hide Callback;
      var before, e := es[..|es| - 1], es[|es| - 1];
      TrackedOverRuns(d, before);
      if e.Event? {
        CallbackTracked(Ran(d, before).value, e.report, e.rc);
      }
    }
  }

  /** With no condition on the handles and whatever the other peers do: a discovery that has come to rest reported
      completion once, unless a callback ended the descriptors of a characteristic with value handle 0; then it is never
      reported. */
  lemma {:induction false} ReportedUnlessHandleZero(d: Disc, es: seq<Event>)
    requires Ran(DiscAll(d, 0), es).Some? && !d.asserted
    ensures var end := Ran(DiscAll(d, 0), es).value;
            |end.calls| == if !end.proc.Idle? || end.asserted || Silenced(DiscAll(d, 0), es) then 0 else 1
  {
    TrackedOverRuns(DiscAll(d, 0), es);
  }

  // ---- What is asked for ----------------------------------------------------------------------------------------

  /** The last handle that can belong to a characteristic: one before the next definition, modulo 2^16, or the end of
      the service. */
  function LastHandle(n: SvcNode, j: nat): int
    requires j < |n.chrs|
  {
    if j == |n.chrs| - 1 then n.svc.end
    else if n.chrs[j + 1].chr.def == 0 then 0xffff
    else n.chrs[j + 1].chr.def - 1
  }

  /** No descriptors are known of a characteristic that has room for some, and the search has not passed it. */
  predicate Lacks(n: SvcNode, j: nat, prev: uint16)
    requires j < |n.chrs|
  {
    var c := n.chrs[j];
    c.chr.val < LastHandle(n, j) && c.dscs == [] && prev <= c.chr.def
  }

  /** When the descriptors of one characteristic have been reported, those of the first one in list order that lacks
      them are asked for. */
  lemma AsksForDescriptors(d: Disc, i: nat, j: nat)
    requires d.proc.AllDscs? && d.prevVal != 0 && i < |d.tree| && j < |d.tree[i].chrs|
    requires Lacks(d.tree[i], j, d.prevVal) && forall b :: 0 <= b < j ==> !Lacks(d.tree[i], b, d.prevVal)
    requires forall a, b :: 0 <= a < i && 0 <= b < |d.tree[a].chrs| ==> !Lacks(d.tree[a], b, d.prevVal)
    ensures var val, p := d.tree[i].chrs[j].chr.val, Callback(d, Done, 0).proc;
            p == AllDscs(val, LastHandle(d.tree[i], j))
            && Callback(d, Done, 0) == d.(proc := p, started := d.started + [p], prevVal := val)
  {
    forall a, b | 0 <= a < |d.tree| && 0 <= b < |d.tree[a].chrs|
      ensures NeedsDscs(d.tree[a], b, d.prevVal) <==> Lacks(d.tree[a], b, d.prevVal)
    {
    }
    hide NeedsDscs, Lacks;
    FirstFound(d.tree, d.prevVal, i, j);
  }

  lemma FirstFound(t: Tree, prev: uint16, i: nat, j: nat)
    requires i < |t| && j < |t[i].chrs|
    requires NeedsDscs(t[i], j, prev) && forall b :: 0 <= b < j ==> !NeedsDscs(t[i], b, prev)
    requires forall a, b :: 0 <= a < i && 0 <= b < |t[a].chrs| ==> !NeedsDscs(t[a], b, prev)
    ensures NextSvc(t, prev, 0) == i && NextChr(t[i], prev, 0) == j
  {
    hide NeedsDscs;
    assert NextChr(t[i], prev, 0) <= j;
  }

  /** When the services, or the characteristics of one service, have been reported, those of the first service in list
      order that has room for characteristics and none yet are asked for. */
  lemma AsksForCharacteristics(d: Disc, i: nat)
    requires (d.proc.AllSvcs? || d.proc.AllChrs?) && d.prevVal != 0 && i < |d.tree|
    requires d.tree[i].svc.start < d.tree[i].svc.end && d.tree[i].chrs == []
    requires forall a :: 0 <= a < i ==> d.tree[a].svc.end <= d.tree[a].svc.start || d.tree[a].chrs != []
    ensures var svc := d.tree[i].svc;
            var p := AllChrs(svc.start, svc.end);
            Callback(d, Done, 0) == d.(proc := p, started := d.started + [p], cur := svc.start)
  {
    assert NextBare(d.tree, 0) == i;
  }

  // ---- What is reported -----------------------------------------------------------------------------------------

  /** Nothing is left to ask for: no service with room is without characteristics, unless those have been seen to
      already, and no characteristic needs its descriptors. */
  ghost predicate AllFound(d: Disc) {
    && (!d.proc.AllDscs? ==>
          forall i :: 0 <= i < |d.tree| ==> d.tree[i].svc.end <= d.tree[i].svc.start || d.tree[i].chrs != [])
    && forall i, j :: 0 <= i < |d.tree| && 0 <= j < |d.tree[i].chrs| ==> !NeedsDscs(d.tree[i], j, d.prevVal)
  }

  /** An add function fails for want of memory. */
  predicate OutOfMemory(r: Added<Tree>) {
    r.Added? && r.rc != 0
  }

  /** The status with which the event ends a discovery that runs: the error of the procedure, 6 for want of memory, the
      stack's refusal to start the next procedure, or 0 when nothing is left to ask for. */
  ghost function EndsWith(d: Disc, e: Event): Option<int> {
    match e
    case Others(_) => None
    case Event(Error(status), _) => Some(status)
    case Event(SvcItem(svc), _) => if OutOfMemory(SvcAdd(d.tree, d.pools, svc)) then Some(6) else None
    case Event(ChrItem(chr), _) => if OutOfMemory(ChrAdd(d.tree, d.pools, d.cur, chr)) then Some(6) else None
    case Event(DscItem(dsc), _) =>
      if d.proc.AllDscs? && OutOfMemory(DscAdd(d.tree, d.pools, d.proc.val, dsc)) then Some(6) else None
    case Event(Done, rc) =>
      if d.prevVal == 0 then None else if AllFound(d) then Some(0) else if rc != 0 then Some(rc) else None
  }

  /** The first such status during a run. */
  ghost function EndedWith(d: Disc, es: seq<Event>): Option<int>
    requires Ran(d, es).Some?
  {
    if es == [] then None
    else
      var before := es[..|es| - 1];
      match EndedWith(d, before)
      case Some(status) => Some(status)
      case None => EndsWith(Ran(d, before).value, es[|es| - 1])
  }

  lemma NothingLeft(d: Disc)
    ensures NextSvc(d.tree, d.prevVal, 0) == |d.tree| <==>
              forall i, j :: 0 <= i < |d.tree| && 0 <= j < |d.tree[i].chrs| ==> !NeedsDscs(d.tree[i], j, d.prevVal)
    ensures NextBare(d.tree, 0) == |d.tree| <==>
              forall i :: 0 <= i < |d.tree| ==> d.tree[i].svc.end <= d.tree[i].svc.start || d.tree[i].chrs != []
  {
    hide NeedsDscs;
    var k := NextSvc(d.tree, d.prevVal, 0);
    if k < |d.tree| {
      assert NeedsDscs(d.tree[k], NextChr(d.tree[k], d.prevVal, 0), d.prevVal);
    }
  }

  lemma CallbackReports(d: Disc, e: Event)
    requires Possible(d, e) && Tracked(d, false) && !d.proc.Idle? && e.Event?
    ensures Happened(d, e).calls == match EndsWith(d, e) { case Some(status) => [status] case None => [] }
  {
    NothingLeft(d);
    hide SvcAdd, ChrAdd, DscAdd, NeedsDscs, NextSvc, NextBare, NextChr, ChrEnd;
    AddsFailWithNoMemory(d, e.report);
  }

  lemma AddsFailWithNoMemory(d: Disc, r: Report)
    ensures r.SvcItem? && OutOfMemory(SvcAdd(d.tree, d.pools, r.svc)) ==> SvcAdd(d.tree, d.pools, r.svc).rc == 6
    ensures r.ChrItem? && OutOfMemory(ChrAdd(d.tree, d.pools, d.cur, r.chr)) ==>
              ChrAdd(d.tree, d.pools, d.cur, r.chr).rc == 6
    ensures r.DscItem? && d.proc.AllDscs? && OutOfMemory(DscAdd(d.tree, d.pools, d.proc.val, r.dsc)) ==>
              DscAdd(d.tree, d.pools, d.proc.val, r.dsc).rc == 6
  {
  }

  /** What a discovery reports is what ended it: at any point of any run the completion callback has been given exactly
      the status of the event that ended the discovery, if one has. */
  lemma {:induction false} ReportsWhatEndedIt(d: Disc, es: seq<Event>)
    requires Ran(DiscAll(d, 0), es).Some? && !d.asserted
    ensures Ran(DiscAll(d, 0), es).value.calls
            == match EndedWith(DiscAll(d, 0), es) { case Some(status) => [status] case None => [] }
  {
    var s := DiscAll(d, 0);
    if es != [] {
      var before, e := es[..|es| - 1], es[|es| - 1];
      ReportsWhatEndedIt(d, before);
      TrackedOverRuns(s, before);
      var b := Ran(s, before).value;
      hide Callback, EndsWith;
      if e.Event? {
        assert Tracked(b, false) && !b.proc.Idle?;
        CallbackReports(b, e);
      }
    }
  }

  /** The first characteristic reported for the only service becomes its only one. */
  lemma FirstChr(s: Svc, c: Chr, pools: Pools)
    requires pools.chrs > 0
    ensures ChrAdd([SvcNode(s, [])], pools, s.start, c)
            == Added(0, [SvcNode(s, [ChrNode(c, [])])], pools.(chrs := pools.chrs - 1))
  {
    var t := [SvcNode(s, [])];
    assert SvcKeys(t)[0] == s.start && Position(SvcKeys(t), s.start) == 0;
    assert Linked([], 0, ChrNode(c, [])) == [ChrNode(c, [])];
    assert ChrInsert([], pools, c) == Added(0, [ChrNode(c, [])], pools.(chrs := pools.chrs - 1));
    assert t[0 := t[0].(chrs := [ChrNode(c, [])])] == [SvcNode(s, [ChrNode(c, [])])];
  }

  /** The service and its characteristic, and the state once the characteristic is known. */
  function OneChr(s: Svc, c: Chr): Tree {
    [SvcNode(s, [ChrNode(c, [])])]
  }

  /** The search for services without characteristics passes it. */
  lemma OneChrNotBare(s: Svc, c: Chr)
    ensures NextBare(OneChr(s, c), 0) == 1
  {
  }

  /** The search for characteristics without descriptors stops at it. */
  lemma OneChrNeedsDscs(s: Svc, c: Chr)
    requires !SvcEmpty(s) && c.val == 0 && c.def != 0
    ensures var t := OneChr(s, c);
            NextSvc(t, 1, 0) == 0 && NextChr(t[0], 1, 0) == 0 && ChrEnd(t[0], 0) == s.end
  {
    assert NeedsDscs(OneChr(s, c)[0], 0, 1);
  }

  /** The first procedure ends and the descriptors are asked for. */
  lemma AsksBehindHandleZero(s: Svc, c: Chr, d: Disc)
    requires !SvcEmpty(s) && c.val == 0 && c.def != 0
    requires d.tree == OneChr(s, c) && d.prevVal == 1 && d.proc.AllChrs?
    ensures Callback(d, Done, 0)
            == d.(proc := AllDscs(0, s.end), started := d.started + [AllDscs(0, s.end)], prevVal := 0)
  {
    hide NextBare, NextSvc, NextChr, ChrEnd;
    OneChrNotBare(s, c);
    OneChrNeedsDscs(s, c);
  }

  lemma {:induction false} RanThree(d: Disc, e1: Event, e2: Event, e3: Event)
    requires Possible(d, e1) && Possible(Happened(d, e1), e2) && Possible(Happened(Happened(d, e1), e2), e3)
    ensures Ran(d, [e1, e2, e3]) == Some(Happened(Happened(Happened(d, e1), e2), e3))
  {
    hide Possible, Happened;
    assert [e1][..0] == [] && [e1, e2][..1] == [e1] && [e1, e2, e3][..2] == [e1, e2];
    assert Ran(d, [e1]) == Some(Happened(d, e1));
    assert Ran(d, [e1, e2]) == Some(Happened(Happened(d, e1), e2));
  }

  /** The condition on handles is needed: when the descriptors of a characteristic with value handle 0 have been
      reported, the discovery stops without a word. */
  lemma SilentOnHandleZero(s: Svc, c: Chr, d: Disc)
    requires !SvcEmpty(s) && c.val == 0 && c.def != 0 && d.pools.chrs > 0
    requires d.tree == [SvcNode(s, [])] && d.cur == s.start && d.prevVal == 1 && d.proc == AllChrs(s.start, s.end)
    ensures Ran(d, [Event(ChrItem(c), 0), Event(Done, 0), Event(Done, 0)])
            == Some(d.(tree := OneChr(s, c), pools := d.pools.(chrs := d.pools.chrs - 1), prevVal := 0,
                       proc := Idle, started := d.started + [AllDscs(0, s.end)]))
  {
    hide ChrAdd, DiscChrs, DiscDscs;
    FirstChr(s, c, d.pools);
    var d1 := d.(tree := OneChr(s, c), pools := d.pools.(chrs := d.pools.chrs - 1));
    assert Callback(d, ChrItem(c), 0) == d1;
    AsksBehindHandleZero(s, c, d1);
    RanThree(d, Event(ChrItem(c), 0), Event(Done, 0), Event(Done, 0));
  }
}
