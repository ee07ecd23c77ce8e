/** Where the pool blocks are: free, or reachable from the discovered tree, or lost. */
module PoolBlocks {
  import opened Types
  import opened GattSpec
  import opened Callbacks

  // ---- Counting after an update ---------------------------------------------------------------------------------

  lemma {:induction false} ChrCountUpdate(t: Tree, i: nat, n: SvcNode)
    requires i < |t|
    ensures ChrCount(t[i := n]) + |t[i].chrs| == ChrCount(t) + |n.chrs|
  {
    if i == 0 {
      assert t[0 := n][1..] == t[1..];
    } else {
      ChrCountUpdate(t[1..], i - 1, n);
      assert t[i := n][1..] == t[1..][i - 1 := n];
    }
  }

  lemma {:induction false} DscCountUpdate(t: Tree, i: nat, n: SvcNode)
    requires i < |t|
    ensures DscCount(t[i := n]) + DscsOf(t[i].chrs) == DscCount(t) + DscsOf(n.chrs)
  {
    if i == 0 {
      assert t[0 := n][1..] == t[1..];
    } else {
      DscCountUpdate(t[1..], i - 1, n);
      assert t[i := n][1..] == t[1..][i - 1 := n];
    }
  }

  lemma {:induction false} DscsOfUpdate(cs: seq<ChrNode>, j: nat, c: ChrNode)
    requires j < |cs|
    ensures DscsOf(cs[j := c]) + |cs[j].dscs| == DscsOf(cs) + |c.dscs|
  {
    if j == 0 {
      assert cs[0 := c][1..] == cs[1..];
    } else {
      DscsOfUpdate(cs[1..], j - 1, c);
      assert cs[j := c][1..] == cs[1..][j - 1 := c];
    }
  }

  lemma {:induction false} DscsOfConcat(a: seq<ChrNode>, b: seq<ChrNode>)
    ensures DscsOf(a + b) == DscsOf(a) + DscsOf(b)
  {
    if a == [] {
      assert a + b == b;
    } else {
      DscsOfConcat(a[1..], b);
      assert (a + b)[1..] == a[1..] + b;
    }
  }

  lemma {:induction false} CountsConcat(a: Tree, b: Tree)
    ensures ChrCount(a + b) == ChrCount(a) + ChrCount(b) && DscCount(a + b) == DscCount(a) + DscCount(b)
  {
    if a == [] {
      assert a + b == b;
    } else {
      CountsConcat(a[1..], b);
      assert (a + b)[1..] == a[1..] + b;
    }
  }

  /** All blocks that are free or can be reached. */
  function Accounted(d: Disc): Pools {
    GivenBack(d.pools, d.tree)
  }

  predicate AtMost(a: Pools, b: Pools) {
    a.svcs <= b.svcs && a.chrs <= b.chrs && a.dscs <= b.dscs
  }

  /** A new entry goes between two others, and the list behind it is cut off. */
  predicate CutsOff(keys: seq<int>, h: int, free: nat) {
    var n := Position(keys, h);
    !FoundAt(keys, n, h) && free > 0 && 0 < n < |keys|
  }

  predicate LosesBlocks(d: Disc, r: Report)
    requires Fits(d.proc, r)
  {
    match r
    case ChrItem(chr) =>
      var i := Position(SvcKeys(d.tree), d.cur);
      FoundAt(SvcKeys(d.tree), i, d.cur) && CutsOff(ChrKeys(d.tree[i].chrs), chr.def, d.pools.chrs)
    case DscItem(dsc) =>
      var i := SvcInRange(d.tree, d.proc.val);
      i < |d.tree| &&
      var j := Position(ChrKeys(d.tree[i].chrs), d.proc.val);
      && FoundAt(ChrKeys(d.tree[i].chrs), j, d.proc.val)
      && CutsOff(DscKeys(d.tree[i].chrs[j].dscs), dsc.handle, d.pools.dscs)
    case _ => false
  }

  lemma ChrKeysLength(cs: seq<ChrNode>)
    ensures |ChrKeys(cs)| == |cs|
  {
  }

  lemma ChrInsertBlocks(cs: seq<ChrNode>, pools: Pools, chr: Chr)
    ensures var r := ChrInsert(cs, pools, chr);
            && r.pools.svcs == pools.svcs && r.pools.dscs == pools.dscs
            && r.pools.chrs + |r.value| <= pools.chrs + |cs| && DscsOf(r.value) <= DscsOf(cs)
            && (CutsOff(ChrKeys(cs), chr.def, pools.chrs) <==> r.pools.chrs + |r.value| < pools.chrs + |cs|)
            && (!CutsOff(ChrKeys(cs), chr.def, pools.chrs) ==> DscsOf(r.value) == DscsOf(cs))
  {
    hide ChrKeys;
    var n := Position(ChrKeys(cs), chr.def);
    var x := ChrNode(chr, []);
    assert |ChrKeys(cs)| == |cs| by {
      ChrKeysLength(cs);
    }
    assert DscsOf([x]) == 0;
    DscsOfConcat([x], cs);
    DscsOfConcat(cs[..n], [x]);
    DscsOfConcat(cs[..n], cs[n..]);
    assert cs[..n] + cs[n..] == cs;
    assert n == |cs| ==> cs[..n] == cs;
  }

  lemma SvcAddBlocks(t: Tree, pools: Pools, svc: Svc)
    ensures var r := SvcAdd(t, pools, svc);
            r.Added? && GivenBack(r.pools, r.value) == GivenBack(pools, t)
  {
    var n := Position(SvcKeys(t), svc.start);
    var x := SvcNode(svc, []);
    CountsConcat(t[..n], [x] + t[n..]);
    CountsConcat([x], t[n..]);
    CountsConcat(t[..n], t[n..]);
    assert t[..n] + t[n..] == t && t[..n] + [x] + t[n..] == t[..n] + ([x] + t[n..]);
    assert [x][1..] == [];
  }

  lemma ChrAddBlocks(t: Tree, pools: Pools, start: uint16, chr: Chr)
    requires ChrAdd(t, pools, start, chr).Added?
    ensures var r := ChrAdd(t, pools, start, chr);
            var i := Position(SvcKeys(t), start);
            && AtMost(GivenBack(r.pools, r.value), GivenBack(pools, t))
            && (GivenBack(r.pools, r.value) == GivenBack(pools, t) <==>
                  !CutsOff(ChrKeys(t[i].chrs), chr.def, pools.chrs))
  {
    var i := Position(SvcKeys(t), start);
    var n := t[i].(chrs := ChrInsert(t[i].chrs, pools, chr).value);
    ChrInsertBlocks(t[i].chrs, pools, chr);
    ChrCountUpdate(t, i, n);
    DscCountUpdate(t, i, n);
  }

  lemma DscAddBlocks(t: Tree, pools: Pools, val: uint16, dsc: Dsc)
    requires DscAdd(t, pools, val, dsc).Added?
    ensures var r := DscAdd(t, pools, val, dsc);
            var i := SvcInRange(t, val);
            var j := Position(ChrKeys(t[i].chrs), val);
            && AtMost(GivenBack(r.pools, r.value), GivenBack(pools, t))
            && (GivenBack(r.pools, r.value) == GivenBack(pools, t)
                <==> !CutsOff(DscKeys(t[i].chrs[j].dscs), dsc.handle, pools.dscs))
  {
    var i := SvcInRange(t, val);
    var j := Position(ChrKeys(t[i].chrs), val);
    var c := t[i].chrs[j].(dscs := DscInsert(t[i].chrs[j].dscs, pools, dsc).value);
    var n := t[i].(chrs := t[i].chrs[j := c]);
    DscsOfUpdate(t[i].chrs, j, c);
    ChrCountUpdate(t, i, n);
    DscCountUpdate(t, i, n);
  }

  lemma EndOfProcedureKeepsBlocks(d: Disc, r: Report, rc: int)
    requires Fits(d.proc, r) && (r.Done? || r.Error?)
    ensures Callback(d, r, rc).tree == d.tree && Callback(d, r, rc).pools == d.pools
  {
  }

  lemma AddKeepsResult(d: Disc, r: Added<Tree>)
    ensures AfterAdd(d, r).tree == (if r.Added? then r.value else d.tree)
    ensures AfterAdd(d, r).pools == (if r.Added? then r.pools else d.pools)
  {
  }

  /** A callback keeps every block free or reachable exactly if it cuts no list off; it never gains any. */
  lemma BlocksKeptIffNoneCutOff(d: Disc, r: Report, rc: int)
    requires Fits(d.proc, r)
    ensures var d' := Callback(d, r, rc);
            && AtMost(Accounted(d'), Accounted(d))
            && (Accounted(d') == Accounted(d) <==> !LosesBlocks(d, r))
  {
    match r
    case SvcItem(svc) =>
      SvcAddBlocks(d.tree, d.pools, svc);
      AddKeepsResult(d, SvcAdd(d.tree, d.pools, svc));
    case ChrItem(chr) =>
      AddKeepsResult(d, ChrAdd(d.tree, d.pools, d.cur, chr));
      if ChrAdd(d.tree, d.pools, d.cur, chr).Added? {
        ChrAddBlocks(d.tree, d.pools, d.cur, chr);
      }
    case DscItem(dsc) =>
      AddKeepsResult(d, DscAdd(d.tree, d.pools, d.proc.val, dsc));
      if DscAdd(d.tree, d.pools, d.proc.val, dsc).Added? {
        DscAddBlocks(d.tree, d.pools, d.proc.val, dsc);
      }
    case _ => EndOfProcedureKeepsBlocks(d, r, rc);
  }

  /** A difference between two numbers of blocks. */
  datatype Change = Change(svcs: int, chrs: int, dscs: int)

  function Minus(a: Pools, b: Pools): Change {
    Change(a.svcs - b.svcs, a.chrs - b.chrs, a.dscs - b.dscs)
  }

  function Sum(a: Change, b: Change): Change {
    Change(a.svcs + b.svcs, a.chrs + b.chrs, a.dscs + b.dscs)
  }

  predicate NoMore(a: Change, b: Change) {
    a.svcs <= b.svcs && a.chrs <= b.chrs && a.dscs <= b.dscs
  }

  /** What the other users of the pools gave back (or, negative, took) during a run. */
  ghost function GivenByOthers(d: Disc, es: seq<Event>): Change
    requires Ran(d, es).Some?
  {
    if es == [] then Change(0, 0, 0)
    else
      var before := es[..|es| - 1];
      match es[|es| - 1]
      case Event(_, _) => GivenByOthers(d, before)
      case Others(pools) => Sum(GivenByOthers(d, before), Minus(pools, Ran(d, before).value.pools))
  }

  ghost predicate LosesDuring(d: Disc, es: seq<Event>)
    requires Ran(d, es).Some?
  {
    es != [] && (LosesDuring(d, es[..|es| - 1])
                 || (es[|es| - 1].Event? && LosesBlocks(Ran(d, es[..|es| - 1]).value, es[|es| - 1].report)))
  }

  lemma OthersShift(d: Disc, pools: Pools)
    ensures Minus(Accounted(d.(pools := pools)), Accounted(d)) == Minus(pools, d.pools)
  {
  }

  /** Over a whole discovery, the other users of the pools aside, free and reachable blocks add up to the same exactly
      if no report made an add function cut a list off; what was cut off is lost for good. */
  lemma {:induction false} CapacityKeptIffNothingCutOff(d: Disc, es: seq<Event>)
    requires Ran(d, es).Some?
    ensures var change := Minus(Accounted(Ran(d, es).value), Accounted(d));
            && NoMore(change, GivenByOthers(d, es))
            && (change == GivenByOthers(d, es) <==> !LosesDuring(d, es))
  {
    if es != [] {
      hide Accounted, Callback, LosesBlocks;
      var before, e := es[..|es| - 1], es[|es| - 1];
      CapacityKeptIffNothingCutOff(d, before);
      match e
      case Event(report, rc) => BlocksKeptIffNoneCutOff(Ran(d, before).value, report, rc);
      case Others(pools) => OthersShift(Ran(d, before).value, pools);
    }
  }

  /** Discovering again first gives every reachable block back. */
  lemma RediscoveryGivesAllBack(d: Disc, rc: int)
    ensures DiscAll(d, rc).pools == Accounted(d) == Accounted(DiscAll(d, rc)) && DiscAll(d, rc).tree == []
  {
  }
}
