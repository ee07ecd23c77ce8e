/** The services, characteristics and descriptors of all peers in the three shared pools of main/mesh_peer.c: lists of
    blocks that contain the heads of further lists. The add and delete functions are proved to do to the tree of one
    peer and to the pools what GattSpec says, and nothing to the other peers. */
module PeerStore {
  import opened Types
  import opened GattSpec
  import opened BlockLists

  /** The three pools with their lists. Service lists belong to peers, characteristic lists to service blocks,
      descriptor lists to characteristic blocks. */
  datatype Mem = Mem(svcs: Level<Svc>, chrs: Level<Chr>, dscs: Level<Dsc>)

  ghost predicate MemOk(m: Mem) {
    && LevelOk(m.svcs) && LevelOk(m.chrs) && LevelOk(m.dscs)
    && |m.chrs.chain| == |m.svcs.val| && |m.dscs.chain| == |m.chrs.val|
    && (forall b :: b in m.svcs.free ==> b < |m.chrs.chain| && m.chrs.chain[b] == [])
    && forall c :: c in m.chrs.free ==> c < |m.dscs.chain| && m.dscs.chain[c] == []
  }

  ghost function ChrView(m: Mem, c: nat): ChrNode
    requires MemOk(m) && c < |m.chrs.val|
  {
    ChrNode(m.chrs.val[c], Items(m.dscs, c))
  }

  ghost function SvcView(m: Mem, b: nat): SvcNode
    requires MemOk(m) && b < |m.svcs.val|
  {
    var c := m.chrs.chain[b];
    SvcNode(m.svcs.val[b], seq(|c|, j requires 0 <= j < |c| => ChrView(m, c[j])))
  }

  /** What has been discovered of peer q. */
  ghost function TreeOf(m: Mem, q: nat): Tree
    requires MemOk(m) && q < |m.svcs.chain|
  {
    var s := m.svcs.chain[q];
    seq(|s|, i requires 0 <= i < |s| => SvcView(m, s[i]))
  }

  ghost function PoolsOf(m: Mem): Pools {
    Pools(|m.svcs.free|, |m.chrs.free|, |m.dscs.free|)
  }

  /** The other peers keep what was discovered of them, in the same service blocks. */
  ghost predicate OthersKept(m: Mem, m': Mem, q: nat) {
    && MemOk(m) && MemOk(m') && |m'.svcs.chain| == |m.svcs.chain|
    && forall p :: 0 <= p < |m.svcs.chain| && p != q ==>
         TreeOf(m', p) == TreeOf(m, p) && m'.svcs.chain[p] == m.svcs.chain[p]
  }

  /** Peer q's tree and the pools are what `r` says; a failed assertion changes nothing. */
  ghost predicate Becomes(m: Mem, m': Mem, q: nat, r: Added<Tree>)
    requires MemOk(m) && q < |m.svcs.chain|
  {
    && OthersKept(m, m', q)
    && match r
       case Asserted => m' == m
       case Added(_, t, pools) => TreeOf(m', q) == t && PoolsOf(m') == pools
  }

  /** Pointer b is a service of peer q that starts at handle h. */
  ghost predicate SvcOf(m: Mem, q: nat, b: int, h: uint16) {
    && MemOk(m) && q < |m.svcs.chain|
    && exists i :: 0 <= i < |m.svcs.chain[q]| && b == m.svcs.chain[q][i] && b < |m.svcs.val| && m.svcs.val[b].start == h
  }

  /** Another peer's discovery leaves such a pointer valid. */
  lemma SvcOfKept(m: Mem, m': Mem, q: nat, p: nat, b: int, h: uint16)
    requires OthersKept(m, m', q) && p != q && SvcOf(m, p, b, h)
    ensures SvcOf(m', p, b, h)
  {
    var i :| 0 <= i < |m.svcs.chain[p]| && b == m.svcs.chain[p][i] && b < |m.svcs.val| && m.svcs.val[b].start == h;
    assert TreeOf(m', p)[i].svc == TreeOf(m, p)[i].svc;
  }

  lemma SvcOfSame(m: Mem, m': Mem, q: nat, b: int, h: uint16)
    requires SvcOf(m, q, b, h) && MemOk(m') && m'.svcs == m.svcs
    ensures SvcOf(m', q, b, h)
  {
  }

  // ---- What an update of one list does to the tree --------------------------------------------------------------

  /** A service block that is not the changed one, with its characteristics. */
  lemma SvcSame(m: Mem, m': Mem, b: nat)
    requires MemOk(m) && MemOk(m') && b < |m.svcs.val| == |m'.svcs.val| && m'.svcs.val[b] == m.svcs.val[b]
    requires m'.chrs.chain[b] == m.chrs.chain[b]
    requires forall j :: 0 <= j < |m.chrs.chain[b]| ==>
               ChrView(m', m.chrs.chain[b][j]) == ChrView(m, m.chrs.chain[b][j])
    ensures SvcView(m', b) == SvcView(m, b)
  {
  }

  lemma ChrSame(m: Mem, m': Mem, c: nat)
    requires MemOk(m) && MemOk(m') && c < |m.chrs.val| == |m'.chrs.val| && m'.chrs.val[c] == m.chrs.val[c]
    requires m'.dscs.chain[c] == m.dscs.chain[c]
    requires forall k :: 0 <= k < |m.dscs.chain[c]| ==>
               m'.dscs.val[m.dscs.chain[c][k]] == m.dscs.val[m.dscs.chain[c][k]]
    ensures ChrView(m', c) == ChrView(m, c)
  {
    assert Items(m'.dscs, c) == Items(m.dscs, c);
  }

  lemma SvcInserted(m: Mem, q: nat, n: nat, x: nat, svc: Svc)
    requires MemOk(m) && q < |m.svcs.chain| && n <= |m.svcs.chain[q]| && m.svcs.free != [] && x == m.svcs.free[0]
    ensures var m' := m.(svcs := InsertedAt(Written(Taken(m.svcs), x, svc), q, n, x));
            && OthersKept(m, m', q) && TreeOf(m', q) == Inserted(TreeOf(m, q), n, SvcNode(svc, []))
            && PoolsOf(m') == PoolsOf(m).(svcs := PoolsOf(m).svcs - 1)
  {
    var m' := m.(svcs := InsertedAt(Written(Taken(m.svcs), x, svc), q, n, x));
    assert forall b :: b in m'.svcs.free ==> b in m.svcs.free;
    assert MemOk(m');
    assert x in m.svcs.free && m.svcs.owner[x] == NOBODY;
    forall b | 0 <= b < |m.svcs.val| && b != x ensures SvcView(m', b) == SvcView(m, b) {
      SvcSame(m, m', b);
    }
    assert SvcView(m', x) == SvcNode(svc, []);
    NotListed(m.svcs, x);
    hide SvcView, MemOk, LevelOk;
    OneServiceListed(m, m', q, n, x);
  }

  /** A free block is on no list. */
  lemma NotListed<T>(l: Level<T>, x: nat)
    requires LevelOk(l) && x in l.free
    ensures forall o, i :: 0 <= o < |l.chain| && 0 <= i < |l.chain[o]| ==> l.chain[o][i] != x && l.chain[o][i] < |l.val|
  {
  }

  /** Block x came on to peer q's service list, and the view of no other changed. */
  lemma OneServiceListed(m: Mem, m': Mem, q: nat, n: nat, x: nat)
    requires MemOk(m) && MemOk(m') && q < |m.svcs.chain| && n <= |m.svcs.chain[q]| && x < |m.svcs.val| == |m'.svcs.val|
    requires m'.svcs.chain == m.svcs.chain[q := Inserted(m.svcs.chain[q], n, x)]
    requires forall o, i :: 0 <= o < |m.svcs.chain| && 0 <= i < |m.svcs.chain[o]| ==>
               m.svcs.chain[o][i] != x && m.svcs.chain[o][i] < |m.svcs.val|
    requires forall b :: 0 <= b < |m.svcs.val| && b != x ==> SvcView(m', b) == SvcView(m, b)
    ensures OthersKept(m, m', q) && TreeOf(m', q) == Inserted(TreeOf(m, q), n, SvcView(m', x))
  {
    hide SvcView, MemOk, LevelOk;
    forall p | 0 <= p < |m.svcs.chain| && p != q ensures TreeOf(m', p) == TreeOf(m, p) {
    }
  }

  lemma ChrLinked(m: Mem, q: nat, i: nat, n: nat, x: nat, chr: Chr)
    requires MemOk(m) && q < |m.svcs.chain| && i < |m.svcs.chain[q]| && n <= |m.chrs.chain[m.svcs.chain[q][i]]|
    requires m.chrs.free != [] && x == m.chrs.free[0]
    ensures var m' := m.(chrs := LinkedAt(Written(Taken(m.chrs), x, chr), m.svcs.chain[q][i], n, x));
            var t := TreeOf(m, q);
            && OthersKept(m, m', q)
            && TreeOf(m', q) == t[i := t[i].(chrs := Linked(t[i].chrs, n, ChrNode(chr, [])))]
            && PoolsOf(m') == PoolsOf(m).(chrs := PoolsOf(m).chrs - 1)
  {
    var b := m.svcs.chain[q][i];
    var m' := m.(chrs := LinkedAt(Written(Taken(m.chrs), x, chr), b, n, x));
    assert forall c :: c in m'.chrs.free ==> c in m.chrs.free;
    assert MemOk(m');
    assert x in m.chrs.free && m.chrs.owner[x] == NOBODY;
    forall c | 0 <= c < |m.chrs.val| && c != x ensures ChrView(m', c) == ChrView(m, c) {
      ChrSame(m, m', c);
    }
    assert ChrView(m', x) == ChrNode(chr, []);
    forall b' | 0 <= b' < |m.svcs.val| && b' != b ensures SvcView(m', b') == SvcView(m, b') {
      SvcSame(m, m', b');
    }
    assert SvcView(m', b) == SvcView(m, b).(chrs := Linked(SvcView(m, b).chrs, n, ChrNode(chr, [])));
    hide SvcView, ChrView, LevelOk, MemOk;
    OneServiceChanged(m, m', q, i);
  }

  /** The view of one block of peer q's service list changed, and nothing else. */
  lemma OneServiceChanged(m: Mem, m': Mem, q: nat, i: nat)
    requires MemOk(m) && MemOk(m') && m'.svcs == m.svcs && q < |m.svcs.chain| && i < |m.svcs.chain[q]|
    requires forall b :: 0 <= b < |m.svcs.val| && b != m.svcs.chain[q][i] ==> SvcView(m', b) == SvcView(m, b)
    ensures OthersKept(m, m', q) && TreeOf(m', q) == TreeOf(m, q)[i := SvcView(m', m.svcs.chain[q][i])]
  {
  }

  lemma DscLinked(m: Mem, q: nat, i: nat, j: nat, n: nat, x: nat, dsc: Dsc)
    requires MemOk(m) && q < |m.svcs.chain| && i < |m.svcs.chain[q]| && j < |m.chrs.chain[m.svcs.chain[q][i]]|
    requires n <= |m.dscs.chain[m.chrs.chain[m.svcs.chain[q][i]][j]]|
    requires m.dscs.free != [] && x == m.dscs.free[0]
    ensures var m' := m.(dscs := LinkedAt(Written(Taken(m.dscs), x, dsc), m.chrs.chain[m.svcs.chain[q][i]][j], n, x));
            var t := TreeOf(m, q);
            var c := t[i].chrs[j].(dscs := Linked(t[i].chrs[j].dscs, n, dsc));
            && OthersKept(m, m', q) && TreeOf(m', q) == t[i := t[i].(chrs := t[i].chrs[j := c])]
            && PoolsOf(m') == PoolsOf(m).(dscs := PoolsOf(m).dscs - 1)
  {
    var b := m.svcs.chain[q][i];
    var c := m.chrs.chain[b][j];
    var m' := m.(dscs := LinkedAt(Written(Taken(m.dscs), x, dsc), c, n, x));
    assert MemOk(m');
    assert x in m.dscs.free && m.dscs.owner[x] == NOBODY;
    forall c' | 0 <= c' < |m.chrs.val| && c' != c ensures ChrView(m', c') == ChrView(m, c') {
      ChrSame(m, m', c');
    }
    assert ChrView(m', c) == ChrView(m, c).(dscs := Linked(ChrView(m, c).dscs, n, dsc));
    forall b' | 0 <= b' < |m.svcs.val| && b' != b ensures SvcView(m', b') == SvcView(m, b') {
      SvcSame(m, m', b');
    }
    assert SvcView(m', b) == SvcView(m, b).(chrs := SvcView(m, b).chrs[j := ChrView(m', c)]);
    OneServiceChanged(m, m', q, i);
  }

  function SvcKey(s: Svc): int { s.start }

  function ChrKey(c: Chr): int { c.val }

  function DscKey(d: Dsc): int { d.handle }

  lemma KeyAt<T>(l: Level<T>, o: nat, key: T -> int)
    requires LevelOk(l) && o < |l.chain|
    ensures forall i :: 0 <= i < |l.chain[o]| ==> KeysOf(l, o, key)[i] == key(l.val[l.chain[o][i]])
  {
  }

  /** The keys along the three kinds of list are those of the tree. */
  lemma SvcKeysAgree(m: Mem, q: nat)
    requires MemOk(m) && q < |m.svcs.chain|
    ensures KeysOf(m.svcs, q, SvcKey) == SvcKeys(TreeOf(m, q))
  {
    var key: Svc -> int := SvcKey;
    KeyAt(m.svcs, q, key);
    assert forall s: Svc :: key(s) == s.start;
    assert KeysOf(m.svcs, q, key) == SvcKeys(TreeOf(m, q));
  }

  lemma ChrKeysAgree(m: Mem, b: nat)
    requires MemOk(m) && b < |m.svcs.val|
    ensures KeysOf(m.chrs, b, ChrKey) == ChrKeys(SvcView(m, b).chrs)
  {
    var key: Chr -> int := ChrKey;
    KeyAt(m.chrs, b, key);
    assert forall c: Chr :: key(c) == c.val;
    assert KeysOf(m.chrs, b, key) == ChrKeys(SvcView(m, b).chrs);
  }

  lemma DscKeysAgree(m: Mem, c: nat)
    requires MemOk(m) && c < |m.chrs.val|
    ensures KeysOf(m.dscs, c, DscKey) == DscKeys(ChrView(m, c).dscs)
  {
    var key: Dsc -> int := DscKey;
    KeyAt(m.dscs, c, key);
    assert forall d: Dsc :: key(d) == d.handle;
    assert KeysOf(m.dscs, c, key) == DscKeys(ChrView(m, c).dscs);
  }

  // ---- The add functions on memory ------------------------------------------------------------------------------

  /** A status and the memory after it, or a failed assertion. */
  datatype Result = Result(rc: int, mem: Mem) | AssertFailed

  ghost function SvcAdded(m: Mem, q: nat, svc: Svc): (r: Result)
    requires MemOk(m) && q < |m.svcs.chain|
    ensures r.Result? && MemOk(r.mem)
  {
    var keys := KeysOf(m.svcs, q, SvcKey);
    var n := Position(keys, svc.start);
    if FoundAt(keys, n, svc.start) then Result(0, m)
    else if m.svcs.free == [] then Result(ENOMEM, m)
    else
      var x := m.svcs.free[0];
      Result(0, m.(svcs := InsertedAt(Written(Taken(m.svcs), x, svc), q, n, x)))
  }

  lemma SvcAddRefines(m: Mem, q: nat, svc: Svc)
    requires MemOk(m) && q < |m.svcs.chain|
    ensures var r := SvcAdd(TreeOf(m, q), PoolsOf(m), svc);
            && r.Added? && SvcAdded(m, q, svc).rc == r.rc && Becomes(m, SvcAdded(m, q, svc).mem, q, r)
  {
    SvcKeysAgree(m, q);
    var keys := KeysOf(m.svcs, q, SvcKey);
    var n := Position(keys, svc.start);
    if !FoundAt(keys, n, svc.start) && m.svcs.free != [] {
      SvcInserted(m, q, n, m.svcs.free[0], svc);
    }
  }

  /** A characteristic for the service in block b. */
  ghost function ChrPutIn(m: Mem, b: nat, chr: Chr): (r: Result)
    requires MemOk(m) && b < |m.chrs.chain| && b !in m.svcs.free
    ensures r.Result? && MemOk(r.mem) && r.mem.svcs == m.svcs
  {
    var n := Position(KeysOf(m.chrs, b, ChrKey), chr.def);
    if FoundAt(KeysOf(m.chrs, b, ChrKey), n, chr.def) then Result(0, m)
    else if m.chrs.free == [] then Result(ENOMEM, m)
    else
      var x := m.chrs.free[0];
      Result(0, m.(chrs := LinkedAt(Written(Taken(m.chrs), x, chr), b, n, x)))
  }

  ghost function ChrAdded(m: Mem, q: nat, start: uint16, chr: Chr): Result
    requires MemOk(m) && q < |m.svcs.chain|
  {
    var i := Position(KeysOf(m.svcs, q, SvcKey), start);
    if !FoundAt(KeysOf(m.svcs, q, SvcKey), i, start) then AssertFailed
    else ChrPutIn(m, m.svcs.chain[q][i], chr)
  }

  /** The outcome at memory level is the outcome on the tree. */
  ghost predicate Refines(m: Mem, q: nat, res: Result, r: Added<Tree>)
    requires MemOk(m) && q < |m.svcs.chain|
  {
    if res.AssertFailed? then r.Asserted? else r.Added? && res.rc == r.rc && Becomes(m, res.mem, q, r)
  }

  lemma ChrAddRefines(m: Mem, q: nat, start: uint16, chr: Chr)
    requires MemOk(m) && q < |m.svcs.chain|
    ensures Refines(m, q, ChrAdded(m, q, start, chr), ChrAdd(TreeOf(m, q), PoolsOf(m), start, chr))
  {
    SvcKeysAgree(m, q);
    var i := Position(KeysOf(m.svcs, q, SvcKey), start);
    if FoundAt(KeysOf(m.svcs, q, SvcKey), i, start) {
      var b := m.svcs.chain[q][i];
      var t := TreeOf(m, q);
      ChrKeysAgree(m, b);
      var n := Position(KeysOf(m.chrs, b, ChrKey), chr.def);
      assert t[i := t[i].(chrs := t[i].chrs)] == t;
      if !FoundAt(KeysOf(m.chrs, b, ChrKey), n, chr.def) && m.chrs.free != [] {
        ChrLinked(m, q, i, n, m.chrs.free[0], chr);
      }
    }
  }

  /** A descriptor for the characteristic in block c. */
  ghost function DscPutIn(m: Mem, c: nat, dsc: Dsc): (r: Result)
    requires MemOk(m) && c < |m.dscs.chain| && c !in m.chrs.free
    ensures r.Result? && MemOk(r.mem)
  {
    var n := Position(KeysOf(m.dscs, c, DscKey), dsc.handle);
    if FoundAt(KeysOf(m.dscs, c, DscKey), n, dsc.handle) then Result(0, m)
    else if m.dscs.free == [] then Result(ENOMEM, m)
    else
      var x := m.dscs.free[0];
      Result(0, m.(dscs := LinkedAt(Written(Taken(m.dscs), x, dsc), c, n, x)))
  }

  /** A descriptor for the characteristic with value handle `val` of the service in block b. */
  ghost function DscAddedIn(m: Mem, b: nat, val: uint16, dsc: Dsc): Result
    requires MemOk(m) && b < |m.chrs.chain|
  {
    var j := Position(KeysOf(m.chrs, b, ChrKey), val);
    if !FoundAt(KeysOf(m.chrs, b, ChrKey), j, val) then AssertFailed
    else DscPutIn(m, m.chrs.chain[b][j], dsc)
  }

  ghost function DscAdded(m: Mem, q: nat, val: uint16, dsc: Dsc): Result
    requires MemOk(m) && q < |m.svcs.chain|
  {
    var i := SvcInRange(TreeOf(m, q), val);
    if i == |m.svcs.chain[q]| then AssertFailed else DscAddedIn(m, m.svcs.chain[q][i], val, dsc)
  }

  lemma {:induction false} DscAddRefines(m: Mem, q: nat, val: uint16, dsc: Dsc)
    requires MemOk(m) && q < |m.svcs.chain|
    ensures Refines(m, q, DscAdded(m, q, val, dsc), DscAdd(TreeOf(m, q), PoolsOf(m), val, dsc))
  {
    var t := TreeOf(m, q);
    var i := SvcInRange(t, val);
    if i < |m.svcs.chain[q]| {
      var b := m.svcs.chain[q][i];
      ChrKeysAgree(m, b);
      var j := Position(KeysOf(m.chrs, b, ChrKey), val);
      if FoundAt(KeysOf(m.chrs, b, ChrKey), j, val) {
        var c := m.chrs.chain[b][j];
        DscKeysAgree(m, c);
        var n := Position(KeysOf(m.dscs, c, DscKey), dsc.handle);
        assert t[i].chrs[j := t[i].chrs[j].(dscs := t[i].chrs[j].dscs)] == t[i].chrs;
        assert t[i := t[i].(chrs := t[i].chrs)] == t;
        if !FoundAt(KeysOf(m.dscs, c, DscKey), n, dsc.handle) && m.dscs.free != [] {
          DscLinked(m, q, i, j, n, m.dscs.free[0], dsc);
        }
      }
    }
  }

  // ---- The delete functions on memory ---------------------------------------------------------------------------

  /** peer_chr_delete of a characteristic that is off its list. */
  ghost function ChrDeleted(m: Mem, c: nat): (r: Mem)
    requires MemOk(m) && Loose(m.chrs, c)
    ensures MemOk(r) && r.svcs == m.svcs && r.chrs == Released(m.chrs, c)
  {
    m.(dscs := Drained(m.dscs, c), chrs := Released(m.chrs, c))
  }

  /** peer_svc_delete of a service that is off its list. */
  ghost function SvcDeleted(m: Mem, b: nat): (r: Mem)
    requires MemOk(m) && Loose(m.svcs, b)
    ensures MemOk(r) && r.svcs == Released(m.svcs, b)
    decreases |m.chrs.chain[b]|
  {
    if m.chrs.chain[b] == [] then m.(svcs := Released(m.svcs, b))
    else SvcDeleted(ChrDeleted(m.(chrs := HeadRemoved(m.chrs, b)), m.chrs.chain[b][0]), b)
  }

  /** All services of peer q deleted. */
  ghost function Cleared(m: Mem, q: nat): (r: Mem)
    requires MemOk(m) && q < |m.svcs.chain|
    ensures MemOk(r)
    decreases |m.svcs.chain[q]|
  {
    if m.svcs.chain[q] == [] then m
    else Cleared(SvcDeleted(m.(svcs := HeadRemoved(m.svcs, q)), m.svcs.chain[q][0]), q)
  }

  /** Deleting the first characteristic of the service in block b. */
  lemma FirstChrDeleted(m: Mem, b: nat)
    requires MemOk(m) && Loose(m.svcs, b) && m.chrs.chain[b] != []
    ensures var r := ChrDeleted(m.(chrs := HeadRemoved(m.chrs, b)), m.chrs.chain[b][0]);
            && (forall b' :: 0 <= b' < |m.svcs.val| && b' != b ==> SvcView(r, b') == SvcView(m, b'))
            && SvcView(m, b).chrs != [] && SvcView(r, b).chrs == SvcView(m, b).chrs[1..]
            && PoolsOf(r) == Pools(|m.svcs.free|, |m.chrs.free| + 1, |m.dscs.free| + |SvcView(m, b).chrs[0].dscs|)
  {
  }

  /** Deleting a service gives back its whole subtree and leaves every other service as it is. */
  lemma {:induction false} SvcDeletedViews(m: Mem, b: nat)
    requires MemOk(m) && Loose(m.svcs, b)
    ensures var r := SvcDeleted(m, b);
            && (forall b' :: 0 <= b' < |m.svcs.val| && b' != b ==> SvcView(r, b') == SvcView(m, b'))
            && PoolsOf(r) == Pools(|m.svcs.free| + 1, |m.chrs.free| + |SvcView(m, b).chrs|,
                                   |m.dscs.free| + DscsOf(SvcView(m, b).chrs))
    decreases |m.chrs.chain[b]|
  {
    if m.chrs.chain[b] == [] {
      forall b' | 0 <= b' < |m.svcs.val| && b' != b ensures SvcView(SvcDeleted(m, b), b') == SvcView(m, b') {
        SvcSame(m, SvcDeleted(m, b), b');
      }
    } else {
      hide LevelOk, MemOk, SvcView, ChrDeleted;
      FirstChrDeleted(m, b);
      SvcDeletedViews(ChrDeleted(m.(chrs := HeadRemoved(m.chrs, b)), m.chrs.chain[b][0]), b);
    }
  }

  /** Deleting the first service of peer q. */
  lemma FirstDeleted(m: Mem, q: nat)
    requires MemOk(m) && q < |m.svcs.chain| && m.svcs.chain[q] != []
    ensures var r := SvcDeleted(m.(svcs := HeadRemoved(m.svcs, q)), m.svcs.chain[q][0]);
            var t := TreeOf(m, q);
            && OthersKept(m, r, q) && t != [] && TreeOf(r, q) == t[1..]
            && PoolsOf(r) == Pools(|m.svcs.free| + 1, |m.chrs.free| + |t[0].chrs|, |m.dscs.free| + DscsOf(t[0].chrs))
  {
    var b := m.svcs.chain[q][0];
    var m1 := m.(svcs := HeadRemoved(m.svcs, q));
    var r := SvcDeleted(m1, b);
    SvcDeletedViews(m1, b);
    forall b' | 0 <= b' < |m.svcs.val| ensures SvcView(m1, b') == SvcView(m, b') {
      SvcSame(m, m1, b');
    }
    assert r.svcs.chain == m.svcs.chain[q := m.svcs.chain[q][1..]];
    OthersAreElsewhere(m, r, q);
  }

  /** Only the first service of peer q changed or went away. */
  lemma OthersAreElsewhere(m: Mem, r: Mem, q: nat)
    requires MemOk(m) && MemOk(r) && q < |m.svcs.chain| && m.svcs.chain[q] != [] && |r.svcs.val| == |m.svcs.val|
    requires r.svcs.chain == m.svcs.chain[q := m.svcs.chain[q][1..]]
    requires forall b :: 0 <= b < |m.svcs.val| && b != m.svcs.chain[q][0] ==> SvcView(r, b) == SvcView(m, b)
    ensures OthersKept(m, r, q) && TreeOf(r, q) == TreeOf(m, q)[1..]
  {
  }

  lemma GiveBackFirst(p: Pools, t: Tree)
    requires t != []
    ensures GivenBack(Pools(p.svcs + 1, p.chrs + |t[0].chrs|, p.dscs + DscsOf(t[0].chrs)), t[1..]) == GivenBack(p, t)
  {
  }

  lemma OthersKeptTwice(m: Mem, m1: Mem, m2: Mem, q: nat)
    requires OthersKept(m, m1, q) && OthersKept(m1, m2, q)
    ensures OthersKept(m, m2, q)
  {
  }

  /** Clearing a peer gives back exactly its tree, and the other peers keep theirs. */
  lemma {:induction false} ClearedGivesBack(m: Mem, q: nat)
    requires MemOk(m) && q < |m.svcs.chain|
    ensures var r := Cleared(m, q);
            OthersKept(m, r, q) && TreeOf(r, q) == [] && PoolsOf(r) == GivenBack(PoolsOf(m), TreeOf(m, q))
    decreases |m.svcs.chain[q]|
  {
    if m.svcs.chain[q] != [] {
      hide TreeOf, LevelOk, MemOk, SvcDeleted, GivenBack, OthersKept;
      FirstDeleted(m, q);
      var m2 := SvcDeleted(m.(svcs := HeadRemoved(m.svcs, q)), m.svcs.chain[q][0]);
      GiveBackFirst(PoolsOf(m), TreeOf(m, q));
      ClearedGivesBack(m2, q);
      OthersKeptTwice(m, m2, Cleared(m2, q), q);
    }
  }

  // ---- All peers together ---------------------------------------------------------------------------------------

  /** Free blocks and the blocks that can be reached from the first n peers. */
  ghost function Total(m: Mem, n: nat): Pools
    requires MemOk(m) && n <= |m.svcs.chain|
  {
    if n == 0 then PoolsOf(m) else GivenBack(Total(m, n - 1), TreeOf(m, n - 1))
  }

  /** What a change to peer q's tree gains or loses it gains or loses for all peers together. */
  lemma {:induction false} TotalFollows(m: Mem, m': Mem, q: nat, n: nat)
    requires OthersKept(m, m', q) && q < |m.svcs.chain| && n <= |m.svcs.chain|
    ensures if n <= q then Plus(Total(m', n), PoolsOf(m)) == Plus(Total(m, n), PoolsOf(m'))
            else Plus(Total(m', n), GivenBack(PoolsOf(m), TreeOf(m, q)))
                 == Plus(Total(m, n), GivenBack(PoolsOf(m'), TreeOf(m', q)))
  {
    hide TreeOf, LevelOk, MemOk, OthersKept, ChrCount, DscCount;
    if n > 0 {
      TotalFollows(m, m', q, n - 1);
      if n - 1 != q {
        OtherTree(m, m', q, n - 1);
      }
    }
  }

  lemma OtherTree(m: Mem, m': Mem, q: nat, p: nat)
    requires OthersKept(m, m', q) && p < |m.svcs.chain| && p != q
    ensures TreeOf(m', p) == TreeOf(m, p)
  {
  }

  /** Free and reachable blocks of all peers add up to the same as before exactly if they do for the changed peer. */
  lemma CapacityOfAllPeers(m: Mem, m': Mem, q: nat)
    requires OthersKept(m, m', q) && q < |m.svcs.chain|
    ensures Total(m', |m.svcs.chain|) == Total(m, |m.svcs.chain|)
            <==> GivenBack(PoolsOf(m'), TreeOf(m', q)) == GivenBack(PoolsOf(m), TreeOf(m, q))
  {
    hide TreeOf, LevelOk, MemOk, OthersKept, Total, PoolsOf, GivenBack;
    TotalFollows(m, m', q, |m.svcs.chain|);
  }

  lemma LevelsOk(m: Mem)
    requires MemOk(m)
    ensures LevelOk(m.svcs) && LevelOk(m.chrs) && LevelOk(m.dscs)
  {
  }

  /** The block that os_memblock_get returns next contains an empty list. */
  lemma NextFreeEmpty(m: Mem)
    requires MemOk(m)
    ensures m.svcs.free != [] ==> m.svcs.free[0] < |m.chrs.chain| && m.chrs.chain[m.svcs.free[0]] == []
    ensures m.chrs.free != [] ==> m.chrs.free[0] < |m.dscs.chain| && m.dscs.chain[m.chrs.free[0]] == []
  {
    assert m.svcs.free != [] ==> m.svcs.free[0] in m.svcs.free;
    assert m.chrs.free != [] ==> m.chrs.free[0] in m.chrs.free;
  }

  // ---- The store ------------------------------------------------------------------------------------------------

  class Store {
    const svcs: Lists<Svc>
    const chrs: Lists<Chr>
    const dscs: Lists<Dsc>

    ghost function Repr(): set<object> {
      {svcs, svcs.heads, svcs.next, svcs.val,
       chrs, chrs.heads, chrs.next, chrs.val,
       dscs, dscs.heads, dscs.next, dscs.val}
    }

    ghost function View(): Mem
      reads Repr()
    {
      Mem(svcs.View(), chrs.View(), dscs.View())
    }

    ghost predicate Valid()
      reads Repr()
    {
      && svcs.Valid() && chrs.Valid() && dscs.Valid() && MemOk(View()) && Apart()
    }

    /** The pools share no memory. */
    ghost predicate Apart() {
      && svcs.heads != chrs.heads && svcs.heads != chrs.next && svcs.heads != dscs.heads && svcs.heads != dscs.next
      && svcs.next != chrs.heads && svcs.next != chrs.next && svcs.next != dscs.heads && svcs.next != dscs.next
      && chrs.heads != dscs.heads && chrs.heads != dscs.next && chrs.next != dscs.heads && chrs.next != dscs.next
    }

    /** mesh_peer_init with room for nPeers peers. */
    constructor (nPeers: nat, nSvcs: nat, nChrs: nat, nDscs: nat)
      ensures Valid() && PoolsOf(View()) == Pools(nSvcs, nChrs, nDscs)
      ensures |View().svcs.chain| == nPeers && forall q :: 0 <= q < nPeers ==> TreeOf(View(), q) == []
    {
      hide LevelOk;
      svcs := new Lists(nPeers, nSvcs, Svc(0, 0, 0));
      chrs := new Lists(nSvcs, nChrs, Chr(0, 0, 0));
      dscs := new Lists(nChrs, nDscs, Dsc(0, 0));
      new;
      InRange(svcs.View());
      InRange(chrs.View());
    }

    /** peer_svc_add. */
    method SvcAdd(q: nat, svc: Svc) returns (rc: int)
      requires Valid() && q < |View().svcs.chain|
      modifies Repr()
      ensures Valid() && Result(rc, View()) == SvcAdded(old(View()), q, svc)
    {
      hide LevelOk, Lists.Valid, MemOk;
      LevelsOk(View());
      NextFreeEmpty(View());
      var found, prev := svcs.Find(q, SvcKey, svc.start);
      ghost var n := Position(KeysOf(View().svcs, q, SvcKey), svc.start);
      if found != NULL {
        return 0;
      }
      var x := svcs.AddKeeping(q, n, prev, svc);
      assert View() == SvcAdded(old(View()), q, svc).mem;
      if x == NULL {
        return ENOMEM;
      }
      chrs.Init(x);
      rc := 0;
    }

    method ChrPut(b: nat, chr: Chr) returns (rc: int)
      requires Valid() && b < |View().chrs.chain| && b !in View().svcs.free
      modifies Repr()
      ensures Valid() && Result(rc, View()) == ChrPutIn(old(View()), b, chr)
    {
      hide LevelOk, Lists.Valid, MemOk;
      LevelsOk(View());
      NextFreeEmpty(View());
      var found, prev := chrs.Find(b, ChrKey, chr.def);
      ghost var n := Position(KeysOf(View().chrs, b, ChrKey), chr.def);
      if found != NULL {
        return 0;
      }
      var x := chrs.AddLinking(b, n, prev, chr);
      assert View() == ChrPutIn(old(View()), b, chr).mem;
      if x == NULL {
        return ENOMEM;
      }
      dscs.Init(x);
      rc := 0;
    }

    /** peer_chr_add; ok is false where the source asserts that this cannot happen. */
    method ChrAdd(q: nat, start: uint16, chr: Chr) returns (ok: bool, rc: int)
      requires Valid() && q < |View().svcs.chain|
      modifies Repr()
      ensures Valid() && View().svcs == old(View()).svcs
      ensures if ok then Result(rc, View()) == ChrAdded(old(View()), q, start, chr)
              else ChrAdded(old(View()), q, start, chr) == AssertFailed && View() == old(View())
    {
      InRange(svcs.View());
      hide LevelOk, Lists.Valid, ChrPutIn;
      var b, prev := svcs.Find(q, SvcKey, start);
      if b == NULL {
        return false, 0;
      }
      rc := ChrPut(b, chr);
      ok := true;
    }

    method DscPut(c: nat, dsc: Dsc) returns (rc: int)
      requires Valid() && c < |View().dscs.chain| && c !in View().chrs.free
      modifies Repr()
      ensures Valid() && Result(rc, View()) == DscPutIn(old(View()), c, dsc)
    {
      hide LevelOk, Lists.Valid, MemOk;
      LevelsOk(View());
      var found, prev := dscs.Find(c, DscKey, dsc.handle);
      ghost var n := Position(KeysOf(View().dscs, c, DscKey), dsc.handle);
      if found != NULL {
        return 0;
      }
      var x := dscs.AddLinking(c, n, prev, dsc);
      assert View() == DscPutIn(old(View()), c, dsc).mem;
      rc := if x == NULL then ENOMEM else 0;
    }

    /** peer_svc_find_range. */
    method FindRange(q: nat, h: uint16) returns (b: int)
      requires Valid() && q < |View().svcs.chain|
      ensures var i := SvcInRange(TreeOf(View(), q), h); i <= |svcs.chain[q]| && b == At(svcs.chain[q], i)
    {
      ghost var t, i := TreeOf(View(), q), 0;
      b := svcs.First(q);
      while b != NULL && !(svcs.val[b].start <= h <= svcs.val[b].end)
        invariant i <= |svcs.chain[q]| && b == At(svcs.chain[q], i)
        invariant SvcInRange(t, h) == i + SvcInRange(t[i..], h)
        decreases |svcs.chain[q]| - i
      {
        assert t[i].svc == svcs.val[b] && t[i..][1..] == t[i + 1..];
        b := svcs.Follow(q, i, b);
        i := i + 1;
      }
      assert b != NULL ==> t[i].svc == svcs.val[b];
    }

    method DscAddIn(b: nat, val: uint16, dsc: Dsc) returns (ok: bool, rc: int)
      requires Valid() && b < |View().chrs.chain|
      modifies Repr()
      ensures Valid()
      ensures if ok then Result(rc, View()) == DscAddedIn(old(View()), b, val, dsc)
              else DscAddedIn(old(View()), b, val, dsc) == AssertFailed && View() == old(View())
    {
      InRange(chrs.View());
      hide LevelOk, Lists.Valid, DscPutIn;
      var c, prev := chrs.Find(b, ChrKey, val);
      if c == NULL {
        return false, 0;
      }
      rc := DscPut(c, dsc);
      ok := true;
    }

    /** peer_dsc_add. */
    method DscAdd(q: nat, val: uint16, dsc: Dsc) returns (ok: bool, rc: int)
      requires Valid() && q < |View().svcs.chain|
      modifies Repr()
      ensures Valid()
      ensures if ok then Result(rc, View()) == DscAdded(old(View()), q, val, dsc)
              else DscAdded(old(View()), q, val, dsc) == AssertFailed && View() == old(View())
    {
      InRange(svcs.View());
      hide LevelOk, Lists.Valid, DscAddedIn, TreeOf;
      var b := FindRange(q, val);
      if b == NULL {
        return false, 0;
      }
      ok, rc := DscAddIn(b, val, dsc);
    }

    /** peer_chr_delete. */
    method ChrDelete(c: nat)
      requires Valid() && Loose(View().chrs, c)
      modifies Repr()
      ensures Valid() && View() == ChrDeleted(old(View()), c)
    {
      hide LevelOk, Lists.Valid;
      dscs.Drain(c);
      chrs.Put(c);
    }

    method RemoveFirstChr(b: nat) returns (c: nat)
      requires Valid() && b < |View().chrs.chain| && View().chrs.chain[b] != []
      modifies Repr()
      ensures Valid() && c == old(View()).chrs.chain[b][0]
      ensures View() == old(View()).(chrs := HeadRemoved(old(View()).chrs, b))
    {
      hide LevelOk, Lists.Valid;
      c := chrs.RemoveHead(b);
    }

    method RemoveFirstSvc(q: nat) returns (b: nat)
      requires Valid() && q < |View().svcs.chain| && View().svcs.chain[q] != []
      modifies Repr()
      ensures Valid() && b == old(View()).svcs.chain[q][0]
      ensures View() == old(View()).(svcs := HeadRemoved(old(View()).svcs, q))
    {
      hide LevelOk, Lists.Valid;
      b := svcs.RemoveHead(q);
    }

    /** peer_svc_delete. */
    method SvcDelete(b: nat)
      requires Valid() && Loose(View().svcs, b)
      modifies Repr()
      ensures Valid() && View() == SvcDeleted(old(View()), b)
    {
      hide LevelOk, Lists.Valid, ChrDeleted;
      var c := chrs.First(b);
      while c != NULL
        invariant Valid() && Loose(View().svcs, b) && c == At(View().chrs.chain[b], 0)
        invariant SvcDeleted(View(), b) == SvcDeleted(old(View()), b)
        decreases |View().chrs.chain[b]|
      {
        var first := RemoveFirstChr(b);
        ChrDelete(first);
        c := chrs.First(b);
      }
      svcs.Put(b);
    }

    /** The loop that undiscovers everything, in mesh_peer_disc_all and mesh_peer_delete. */
    method Clear(q: nat)
      requires Valid() && q < |View().svcs.chain|
      modifies Repr()
      ensures Valid() && View() == Cleared(old(View()), q)
    {
      hide LevelOk, Lists.Valid, SvcDeleted;
      var b := svcs.First(q);
      while b != NULL
        invariant Valid() && q < |View().svcs.chain| && b == At(View().svcs.chain[q], 0)
        invariant Cleared(View(), q) == Cleared(old(View()), q)
        decreases |View().svcs.chain[q]|
      {
        var first := RemoveFirstSvc(q);
        SvcDelete(first);
        b := svcs.First(q);
      }
    }

    // ---- Searching ----------------------------------------------------------------------------------------------

    /** The loop of peer_disc_chrs: the first service with room for characteristics and none yet. */
    method NextBareSvc(q: nat) returns (b: int)
      requires Valid() && q < |View().svcs.chain|
      ensures var i := NextBare(TreeOf(View(), q), 0);
              && i <= |svcs.chain[q]| && b == At(svcs.chain[q], i)
              && (b != NULL ==> 0 <= b < svcs.val.Length && TreeOf(View(), q)[i].svc == svcs.val[b])
    {
      ghost var t, i := TreeOf(View(), q), 0;
      b := svcs.First(q);
      while b != NULL && (svcs.val[b].end <= svcs.val[b].start || chrs.heads[b] != NULL)
        invariant i <= |svcs.chain[q]| && b == At(svcs.chain[q], i) && NextBare(t, 0) == NextBare(t, i)
        decreases |svcs.chain[q]| - i
      {
        assert t[i] == SvcView(View(), b);
        b := svcs.Follow(q, i, b);
        i := i + 1;
      }
      assert b != NULL ==> t[i] == SvcView(View(), b);
    }

    /** chr_end_handle: 16-bit subtraction. */
    method ChrEndHandle(b: nat, c: nat, ghost j: nat) returns (e: uint16)
      requires Valid() && b < |View().chrs.chain| && j < |View().chrs.chain[b]| && c == View().chrs.chain[b][j]
      ensures e == ChrEnd(SvcView(View(), b), j)
    {
      var next := chrs.Follow(b, j, c);
      e := if next != NULL then (chrs.val[next].def - 1) % 0x1_0000 else svcs.val[b].end;
    }

    /** The condition of peer_disc_dscs. */
    method ChrNeedsDscs(b: nat, c: nat, prev: uint16, ghost j: nat) returns (r: bool)
      requires Valid() && b < |View().chrs.chain| && j < |View().chrs.chain[b]| && c == View().chrs.chain[b][j]
      ensures r == NeedsDscs(SvcView(View(), b), j, prev)
    {
      var e := ChrEndHandle(b, c, j);
      ghost var n := SvcView(View(), b).chrs[j];
      assert n == ChrView(View(), c) && (dscs.heads[c] == NULL <==> n.dscs == []);
      hide LevelOk, Lists.Valid, SvcView, ChrEnd;
      r := !(e <= chrs.val[c].val) && dscs.heads[c] == NULL && prev <= chrs.val[c].def;
    }

    /** The inner loop of peer_disc_dscs. */
    method NextNeedyChr(b: nat, prev: uint16) returns (c: int)
      requires Valid() && b < |View().chrs.chain|
      ensures var j := NextChr(SvcView(View(), b), prev, 0); j <= |chrs.chain[b]| && c == At(chrs.chain[b], j)
    {
      ghost var s, j := SvcView(View(), b), 0;
      c := chrs.First(b);
      while c != NULL
        invariant j <= |chrs.chain[b]| && c == At(chrs.chain[b], j) && NextChr(s, prev, 0) == NextChr(s, prev, j)
        decreases |chrs.chain[b]| - j
      {
        var needed := ChrNeedsDscs(b, c, prev, j);
        if needed {
          return;
        }
        c := chrs.Follow(b, j, c);
        j := j + 1;
      }
    }

    /** Both loops of peer_disc_dscs: the first characteristic that still needs its descriptors, with its service. */
    method NextNeedy(q: nat, prev: uint16) returns (b: int, c: int)
      requires Valid() && q < |View().svcs.chain|
      ensures var t := TreeOf(View(), q);
              var i := NextSvc(t, prev, 0);
              && i <= |svcs.chain[q]| && b == At(svcs.chain[q], i)
              && (b != NULL ==>
                    var j := NextChr(t[i], prev, 0);
                    0 <= b < |chrs.chain| && j < |chrs.chain[b]| && c == chrs.chain[b][j])
    {
      ghost var t, i := TreeOf(View(), q), 0;
      hide LevelOk, Lists.Valid, NeedsDscs, NextChr;
      InRange(svcs.View());
      c := NULL;
      b := svcs.First(q);
      while b != NULL
        invariant i <= |svcs.chain[q]| && b == At(svcs.chain[q], i) && NextSvc(t, prev, 0) == NextSvc(t, prev, i)
        decreases |svcs.chain[q]| - i
      {
        assert t[i] == SvcView(View(), b);
        c := NextNeedyChr(b, prev);
        if c != NULL {
          return;
        }
        b := svcs.Follow(q, i, b);
        i := i + 1;
      }
    }

    /** What peer_disc_dscs asks for next: the descriptors behind `val`, up to `end`. */
    method NextDscProc(q: nat, prev: uint16) returns (found: bool, val: uint16, end: uint16)
      requires Valid() && q < |View().svcs.chain|
      ensures var t := TreeOf(View(), q);
              var i := NextSvc(t, prev, 0);
              && found == (i < |t|)
              && (found ==> var j := NextChr(t[i], prev, 0); val == t[i].chrs[j].chr.val && end == ChrEnd(t[i], j))
    {
      var b, c := NextNeedy(q, prev);
      if b == NULL {
        return false, 0, 0;
      }
      ghost var s := TreeOf(View(), q)[NextSvc(TreeOf(View(), q), prev, 0)];
      assert s == SvcView(View(), b);
      end := ChrEndHandle(b, c, NextChr(s, prev, 0));
      found, val := true, chrs.val[c].val;
    }
  }
}
