/** What the three add functions make of services, characteristics and descriptors that arrive in any order, and what
    becomes of the pool blocks. */
module Arrivals {
  import opened Types
  import opened GattSpec

  // ---- Services: an ordered map, for every arrival order --------------------------------------------------------

  ghost predicate Ascending(keys: seq<int>) {
    forall i, j :: 0 <= i < j < |keys| ==> keys[i] < keys[j]
  }

  ghost predicate Holds(t: Tree, h: int, n: SvcNode) {
    exists i :: 0 <= i < |t| && t[i] == n && n.svc.start == h
  }

  /** In an ascending list the search decides membership. */
  lemma SearchIsMembership(keys: seq<int>, h: int)
    requires Ascending(keys)
    ensures FoundAt(keys, Position(keys, h), h) <==> h in keys
  {
  }

  lemma InsertedAscending(keys: seq<int>, h: int)
    requires Ascending(keys) && h !in keys
    ensures Ascending(Inserted(keys, Position(keys, h), h))
  {
    var n := Position(keys, h);
    assert forall i :: n <= i < |keys| ==> keys[i] > h;
    hide Position;
  }

  lemma InsertedHolds(t: Tree, n: nat, x: SvcNode)
    requires n <= |t|
    ensures SvcKeys(Inserted(t, n, x)) == Inserted(SvcKeys(t), n, x.svc.start)
    ensures forall h, y :: Holds(Inserted(t, n, x), h, y) <==> Holds(t, h, y) || (h == x.svc.start && y == x)
  {
    var t' := Inserted(t, n, x);
    assert forall i :: 0 <= i < |t'| ==> t'[i] == if i < n then t[i] else if i == n then x else t[i - 1];
    forall h, y | Holds(t, h, y) ensures Holds(t', h, y) {
      var i :| 0 <= i < |t| && t[i] == y && y.svc.start == h;
      assert t'[if i < n then i else i + 1] == y;
    }
    assert t'[n] == x;
  }

  /** peer_svc_add is insertion-if-absent into a map ordered by start handle, duplicates and memory shortage included.
      */
  lemma SvcAddIsMapInsert(t: Tree, pools: Pools, svc: Svc)
    requires Ascending(SvcKeys(t))
    ensures var r := SvcAdd(t, pools, svc);
            var absent := svc.start as int !in SvcKeys(t);
            && r.Added? && Ascending(SvcKeys(r.value))
            && (r.rc == ENOMEM <==> absent && pools.svcs == 0) && (r.rc != ENOMEM ==> r.rc == 0)
            && (forall h, n :: Holds(r.value, h, n) <==>
                  Holds(t, h, n) || (absent && pools.svcs > 0 && h == svc.start && n == SvcNode(svc, [])))
            && r.pools == if absent && pools.svcs > 0 then pools.(svcs := pools.svcs - 1) else pools
  {
    SearchIsMembership(SvcKeys(t), svc.start);
    var n := Position(SvcKeys(t), svc.start);
    if svc.start as int !in SvcKeys(t) && pools.svcs > 0 {
      InsertedAscending(SvcKeys(t), svc.start);
      InsertedHolds(t, n, SvcNode(svc, []));
    }
  }

  /** The list after a sequence of reported services. */
  function SvcsAfter(pools: Pools, arrivals: seq<Svc>): (r: (Tree, Pools)) {
    if arrivals == [] then ([], pools)
    else
      var (t, p) := SvcsAfter(pools, arrivals[..|arrivals| - 1]);
      var a := SvcAdd(t, p, arrivals[|arrivals| - 1]);
      if a.Added? then (a.value, a.pools) else (t, p)
  }

  /** The service that was reported first with start handle h. */
  function FirstWith(arrivals: seq<Svc>, h: int): Option<Svc> {
    if arrivals == [] then None
    else
      match FirstWith(arrivals[..|arrivals| - 1], h)
      case Some(s) => Some(s)
      case None => if arrivals[|arrivals| - 1].start == h then Some(arrivals[|arrivals| - 1]) else None
  }

  /** Whatever the order, the list ends up ascending and holds for each start handle the service reported first. */
  lemma {:induction false} AnyOrderGivesSortedMap(pools: Pools, arrivals: seq<Svc>)
    requires pools.svcs >= |arrivals|
    ensures var (t, p) := SvcsAfter(pools, arrivals);
            && Ascending(SvcKeys(t)) && p.svcs + |t| == pools.svcs && |t| <= |arrivals|
            && (forall h, n :: Holds(t, h, n) <==>
                  FirstWith(arrivals, h).Some? && n == SvcNode(FirstWith(arrivals, h).value, []))
  {
    if arrivals != [] {
      var before, s := arrivals[..|arrivals| - 1], arrivals[|arrivals| - 1];
      AnyOrderGivesSortedMap(pools, before);
      var (t, p) := SvcsAfter(pools, before);
      SvcAddIsMapInsert(t, p, s);
      FirstHasKey(before, s.start);
      KeyIsHeld(t, s.start);
      assert FirstWith(before, s.start).Some? ==> Holds(t, s.start, SvcNode(FirstWith(before, s.start).value, []));
    }
  }

  lemma KeyIsHeld(t: Tree, h: int)
    ensures h in SvcKeys(t) <==> exists n :: Holds(t, h, n)
  {
    if h in SvcKeys(t) {
      var i :| 0 <= i < |t| && SvcKeys(t)[i] == h;
      assert Holds(t, h, t[i]);
    }
    if n :| Holds(t, h, n) {
      var i :| 0 <= i < |t| && t[i] == n && n.svc.start == h;
      assert SvcKeys(t)[i] == h;
    }
  }

  lemma {:induction false} FirstHasKey(arrivals: seq<Svc>, h: int)
    ensures FirstWith(arrivals, h).Some? ==> FirstWith(arrivals, h).value.start == h
  {
    if arrivals != [] {
      FirstHasKey(arrivals[..|arrivals| - 1], h);
    }
  }

  // ---- Characteristics: an append, exactly for ascending arrival ------------------------------------------------

  function Bare(chrs: seq<Chr>): seq<ChrNode> {
    seq(|chrs|, i requires 0 <= i < |chrs| => ChrNode(chrs[i], []))
  }

  function ChrsAfter(pools: Pools, arrivals: seq<Chr>): (r: (seq<ChrNode>, Pools))
    ensures |r.0| <= |arrivals| && r.1.chrs + |arrivals| >= pools.chrs
    ensures forall i :: 0 <= i < |r.0| ==> r.0[i].chr in arrivals
  {
    if arrivals == [] then ([], pools)
    else
      var (cs, p) := ChrsAfter(pools, arrivals[..|arrivals| - 1]);
      var a := ChrInsert(cs, p, arrivals[|arrivals| - 1]);
      (a.value, a.pools)
  }

  /** Every characteristic is defined after the value handles of all that were reported before it. */
  ghost predicate InHandleOrder(arrivals: seq<Chr>) {
    forall i, j :: 0 <= i < j < |arrivals| ==> arrivals[i].val < arrivals[j].def
  }

  /** A list in which every value handle is below def takes the new entry at its end. */
  lemma AppendsWhenAbove(cs: seq<ChrNode>, pools: Pools, chr: Chr)
    requires pools.chrs > 0 && forall i :: 0 <= i < |cs| ==> cs[i].chr.val < chr.def
    ensures ChrInsert(cs, pools, chr) == Added(0, cs + [ChrNode(chr, [])], pools.(chrs := pools.chrs - 1))
  {
    var n := Position(ChrKeys(cs), chr.def);
    assert forall i :: 0 <= i < |cs| ==> ChrKeys(cs)[i] < chr.def;
    assert cs[..n] == cs;
    assert cs == [] ==> [ChrNode(chr, [])] + cs == cs + [ChrNode(chr, [])];
  }

  ghost predicate AllDifferent(arrivals: seq<Chr>) {
    forall i, j :: 0 <= i < j < |arrivals| ==> arrivals[i] != arrivals[j]
  }

  lemma DifferentBefore(before: seq<Chr>, c: Chr)
    requires AllDifferent(before + [c])
    ensures AllDifferent(before) && c !in before
  {
    var all := before + [c];
    assert all[|before|] == c && forall i :: 0 <= i < |before| ==> all[i] == before[i];
  }

  lemma BareAppends(before: seq<Chr>, c: Chr)
    ensures Bare(before + [c]) == Bare(before) + [ChrNode(c, [])]
  {
  }

  /** An entry that was not in the list before ends up last behind all old entries only if it is above them. */
  lemma LastOnlyWhenAbove(before: seq<Chr>, pools: Pools, chr: Chr)
    requires chr !in before && ChrInsert(Bare(before), pools, chr).value == Bare(before) + [ChrNode(chr, [])]
    ensures forall i :: 0 <= i < |before| ==> before[i].val < chr.def
  {
    var cs := Bare(before);
    var n := Position(ChrKeys(cs), chr.def);
    var cs' := ChrInsert(cs, pools, chr).value;
    assert |cs'| == |cs| + 1;
    assert cs != [] ==> cs'[0] == cs[0] && cs[0].chr == before[0];
    assert n == |cs|;
    assert forall i :: 0 <= i < |cs| ==> ChrKeys(cs)[i] == before[i].val;
  }

  lemma {:induction false} InOrderIsListed(pools: Pools, arrivals: seq<Chr>)
    requires pools.chrs >= |arrivals| && InHandleOrder(arrivals)
    ensures ChrsAfter(pools, arrivals).0 == Bare(arrivals)
  {
    if arrivals != [] {
      var before, c := arrivals[..|arrivals| - 1], arrivals[|arrivals| - 1];
      InOrderIsListed(pools, before);
      AppendsWhenAbove(Bare(before), ChrsAfter(pools, before).1, c);
      assert Bare(arrivals) == Bare(before) + [ChrNode(c, [])];
    }
  }

  lemma OrderExtends(before: seq<Chr>, c: Chr)
    requires InHandleOrder(before) && forall i :: 0 <= i < |before| ==> before[i].val < c.def
    ensures InHandleOrder(before + [c])
  {
  }

  lemma {:induction false} ListedIsInOrder(pools: Pools, arrivals: seq<Chr>)
    requires AllDifferent(arrivals) && ChrsAfter(pools, arrivals).0 == Bare(arrivals)
    ensures InHandleOrder(arrivals)
  {
    if arrivals != [] {
      hide AllDifferent, Bare, ChrInsert, InHandleOrder;
      var before, c := arrivals[..|arrivals| - 1], arrivals[|arrivals| - 1];
      var r := ChrsAfter(pools, before);
      assert arrivals == before + [c];
      DifferentBefore(before, c);
      BareAppends(before, c);
      ListedMeansAppended(r.0, r.1, c, before);
      ListedIsInOrder(pools, before);
      LastOnlyWhenAbove(before, r.1, c);
      OrderExtends(before, c);
    }
  }

  /** Different characteristics end up listed as they were reported exactly if they were reported in handle order;
      otherwise entries are lost or reversed. */
  lemma {:induction false} ListedAsReportedIffInOrder(pools: Pools, arrivals: seq<Chr>)
    requires pools.chrs >= |arrivals| && AllDifferent(arrivals)
    ensures ChrsAfter(pools, arrivals).0 == Bare(arrivals) <==> InHandleOrder(arrivals)
  {
    if InHandleOrder(arrivals) {
      InOrderIsListed(pools, arrivals);
    } else if ChrsAfter(pools, arrivals).0 == Bare(arrivals) {
      ListedIsInOrder(pools, arrivals);
    }
  }

  lemma ListedMeansAppended(cs: seq<ChrNode>, pools: Pools, chr: Chr, before: seq<Chr>)
    requires |cs| <= |before| && chr !in before && forall i :: 0 <= i < |cs| ==> cs[i].chr in before
    requires ChrInsert(cs, pools, chr).value == Bare(before) + [ChrNode(chr, [])]
    ensures cs == Bare(before)
  {
    var n := Position(ChrKeys(cs), chr.def);
    var cs' := ChrInsert(cs, pools, chr).value;
    assert |cs'| == |before| + 1 && cs'[|before|] == ChrNode(chr, []);
    if n > 0 || cs == [] {
      assert cs == cs'[..|before|];
    }
  }

  /** Looking characteristics up by definition handle finds none of a well-formed list: one that is reported again is
      listed a second time at the head, or takes the place of itself and of all behind it. */
  lemma KnownChrIsAddedAgain(cs: seq<ChrNode>, pools: Pools, k: nat)
    requires k < |cs| && pools.chrs > 0
    requires forall i :: 0 <= i < |cs| ==> cs[i].chr.def < cs[i].chr.val
    requires forall i, j :: 0 <= i < j < |cs| ==> cs[i].chr.val < cs[j].chr.def
    ensures var again := ChrNode(cs[k].chr, []);
            ChrInsert(cs, pools, cs[k].chr).value == if k == 0 then [again] + cs else cs[..k] + [again]
  {
    var n := Position(ChrKeys(cs), cs[k].chr.def);
    assert forall i :: 0 <= i < |cs| ==> ChrKeys(cs)[i] == cs[i].chr.val;
    assert n <= k by {
      assert ChrKeys(cs)[k] > cs[k].chr.def;
    }
    assert forall i :: 0 <= i < k ==> cs[i].chr.val < cs[k].chr.def;
  }

  /** A characteristic reported between two others cuts the second off, and its block is lost. */
  lemma {:induction false} ChrsCutOff(pools: Pools)
    requires pools.chrs >= 3
    ensures var first, last, between := Chr(2, 3, 0), Chr(8, 9, 0), Chr(5, 6, 0);
            ChrsAfter(pools, [first, last, between]) == (Bare([first, between]), pools.(chrs := pools.chrs - 3))
  {
    var a, c, b := Chr(2, 3, 0), Chr(8, 9, 0), Chr(5, 6, 0);
    assert [a, c, b][..2] == [a, c] && [a, c][..1] == [a] && [a][..0] == [];
    assert Linked([], 0, ChrNode(a, [])) == [ChrNode(a, [])] && ChrsAfter(pools, []) == ([], pools);
    assert ChrsAfter(pools, [a]) == ([ChrNode(a, [])], pools.(chrs := pools.chrs - 1));
    var two := Bare([a, c]);
    assert ChrKeys([ChrNode(a, [])]) == [3] && Position([3], 8) == 1;
    assert Linked([ChrNode(a, [])], 1, ChrNode(c, [])) == two;
    assert ChrsAfter(pools, [a, c]) == (two, pools.(chrs := pools.chrs - 2));
    assert ChrKeys(two) == [3, 9] && Position([3, 9], 5) == 1;
    assert Linked(two, 1, ChrNode(b, [])) == Bare([a, b]);
  }

  // ---- Descriptors: an append, exactly for ascending arrival ----------------------------------------------------

  function DscsAfter(pools: Pools, arrivals: seq<Dsc>): (r: (seq<Dsc>, Pools))
    ensures |r.0| <= |arrivals| && r.1.dscs + |arrivals| >= pools.dscs
  {
    if arrivals == [] then ([], pools)
    else
      var (ds, p) := DscsAfter(pools, arrivals[..|arrivals| - 1]);
      var a := DscInsert(ds, p, arrivals[|arrivals| - 1]);
      (a.value, a.pools)
  }

  lemma DscAppendsIffAbove(ds: seq<Dsc>, pools: Pools, dsc: Dsc)
    requires pools.dscs > 0
    ensures DscInsert(ds, pools, dsc).value == ds + [dsc] <==> forall i :: 0 <= i < |ds| ==> ds[i].handle < dsc.handle
  {
    var n := Position(DscKeys(ds), dsc.handle);
    assert forall i :: 0 <= i < |ds| ==> DscKeys(ds)[i] == ds[i].handle;
    assert ds != [] ==> (ds + [dsc])[0] == ds[0] && ([dsc] + ds)[0] == dsc;
    assert |Linked(ds, n, dsc)| == if n == 0 then |ds| + 1 else n + 1;
    if forall i :: 0 <= i < |ds| ==> ds[i].handle < dsc.handle {
      assert forall i :: 0 <= i < |ds| ==> DscKeys(ds)[i] < dsc.handle;
      assert ds[..n] == ds;
      assert ds == [] ==> [dsc] + ds == ds + [dsc];
    }
  }

  /** The head has the least handle reported so far. */
  lemma {:induction false} HeadIsLeast(pools: Pools, arrivals: seq<Dsc>)
    requires pools.dscs >= |arrivals|
    ensures forall i :: 0 <= i < |arrivals| ==>
              DscsAfter(pools, arrivals).0 != [] && DscsAfter(pools, arrivals).0[0].handle <= arrivals[i].handle
  {
    if arrivals != [] {
      var before, d := arrivals[..|arrivals| - 1], arrivals[|arrivals| - 1];
      HeadIsLeast(pools, before);
      var ds := DscsAfter(pools, before).0;
      assert ds != [] ==> DscKeys(ds)[0] == ds[0].handle;
      forall i | 0 <= i < |before| ensures ds != [] && ds[0].handle <= arrivals[i].handle {
        assert arrivals[i] == before[i];
      }
    }
  }

  lemma {:induction false} DscsListedMeansAppended(pools: Pools, before: seq<Dsc>, d: Dsc)
    requires pools.dscs > |before|
    requires DscInsert(DscsAfter(pools, before).0, DscsAfter(pools, before).1, d).value == before + [d]
    ensures DscsAfter(pools, before).0 == before
  {
    var (ds, p) := DscsAfter(pools, before);
    var n := Position(DscKeys(ds), d.handle);
    var ds' := DscInsert(ds, p, d).value;
    assert |ds'| == |before| + 1;
    HeadIsLeast(pools, before);
    assert ds != [] ==> DscKeys(ds)[0] == ds[0].handle;
    assert ([d] + ds)[0] == d;
    assert before != [] ==> (before + [d])[0] == before[0];
    assert n > 0 || ds == [];
    assert ds == ds'[..|before|];
  }

  /** Descriptors end up listed as they were reported exactly if their handles ascend. */
  lemma {:induction false} DscsListedIffAscending(pools: Pools, arrivals: seq<Dsc>)
    requires pools.dscs >= |arrivals|
    ensures DscsAfter(pools, arrivals).0 == arrivals <==> Ascending(DscKeys(arrivals))
  {
    if arrivals != [] {
      var before, d := arrivals[..|arrivals| - 1], arrivals[|arrivals| - 1];
      DscsListedIffAscending(pools, before);
      LastKeyAscends(before, d);
      assert arrivals == before + [d];
      var (ds, p) := DscsAfter(pools, before);
      DscAppendsIffAbove(ds, p, d);
      if DscInsert(ds, p, d).value == before + [d] {
        DscsListedMeansAppended(pools, before, d);
      }
    }
  }

  lemma LastKeyAscends(before: seq<Dsc>, d: Dsc)
    ensures Ascending(DscKeys(before + [d])) <==>
              Ascending(DscKeys(before)) && forall i :: 0 <= i < |before| ==> before[i].handle < d.handle
  {
    var all := DscKeys(before + [d]);
    assert forall i :: 0 <= i < |before| ==> all[i] == DscKeys(before)[i] == before[i].handle;
    assert all[|before|] == d.handle;
  }

  lemma {:induction false} DscsCutOff(pools: Pools)
    requires pools.dscs >= 3
    ensures var first, last, between := Dsc(3, 0), Dsc(9, 0), Dsc(6, 0);
            DscsAfter(pools, [first, last, between]) == ([first, between], pools.(dscs := pools.dscs - 3))
  {
    var a, c, b := Dsc(3, 0), Dsc(9, 0), Dsc(6, 0);
    assert [a, c, b][..2] == [a, c] && [a, c][..1] == [a] && [a][..0] == [];
    assert Linked([], 0, a) == [a] && DscsAfter(pools, []) == ([], pools);
    assert DscsAfter(pools, [a]) == ([a], pools.(dscs := pools.dscs - 1));
    assert DscKeys([a]) == [3] && Position([3], 9) == 1;
    assert Linked([a], 1, c) == [a, c];
    assert DscsAfter(pools, [a, c]) == ([a, c], pools.(dscs := pools.dscs - 2));
    assert DscKeys([a, c]) == [3, 9] && Position([3, 9], 6) == 1;
    assert Linked([a, c], 1, b) == [a, b];
  }
}
