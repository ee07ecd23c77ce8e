/** A memory pool and the singly linked lists its blocks are linked into: os_memblock_get and _put with the SLIST
    macros, as main/mesh_peer.c uses them for services, characteristics and descriptors. A pointer is a block number;
    each list belongs to a head, numbered by the block (or peer) that contains it. */
module BlockLists {
  import opened GattSpec

  const NULL: int := -1
  const NOBODY: int := -1

  /** What the pool and its lists hold: the blocks of each list in order, the list each block is on, the contents of the
      blocks, and the free blocks. A block that is neither free nor on a list is in use elsewhere, or lost. */
  datatype Level<T> = Level(chain: seq<seq<nat>>, owner: seq<int>, val: seq<T>, free: seq<nat>)

  /** No block is on two lists, twice on one, or on a list and free. */
  ghost predicate LevelOk<T>(l: Level<T>) {
    && |l.owner| == |l.val|
    && (forall o, i :: 0 <= o < |l.chain| && 0 <= i < |l.chain[o]| ==>
          l.chain[o][i] < |l.val| && l.owner[l.chain[o][i]] == o)
    && (forall o, i, j :: 0 <= o < |l.chain| && 0 <= i < j < |l.chain[o]| ==> l.chain[o][i] != l.chain[o][j])
    && (forall i :: 0 <= i < |l.free| ==> l.free[i] < |l.val| && l.owner[l.free[i]] == NOBODY)
    && (forall i, j :: 0 <= i < j < |l.free| ==> l.free[i] != l.free[j])
  }

  /** Block x is in hand: neither free nor on a list. */
  ghost predicate Loose<T>(l: Level<T>, x: int) {
    0 <= x < |l.val| == |l.owner| && l.owner[x] == NOBODY && x !in l.free
  }

  /** The contents of a list. */
  ghost function Items<T>(l: Level<T>, o: nat): seq<T>
    requires LevelOk(l) && o < |l.chain|
  {
    seq(|l.chain[o]|, i requires 0 <= i < |l.chain[o]| => l.val[l.chain[o][i]])
  }

  /** The keys along a list. */
  ghost function KeysOf<T>(l: Level<T>, o: nat, key: T -> int): seq<int>
    requires LevelOk(l) && o < |l.chain|
  {
    seq(|l.chain[o]|, i requires 0 <= i < |l.chain[o]| => key(l.val[l.chain[o][i]]))
  }

  /** The i-th block of a list, or NULL after the last. */
  ghost function At(c: seq<nat>, i: nat): int {
    if i < |c| then c[i] else NULL
  }

  lemma InRange<T>(l: Level<T>)
    requires LevelOk(l)
    ensures forall o, i :: 0 <= o < |l.chain| && 0 <= i < |l.chain[o]| ==>
              l.chain[o][i] < |l.val| && l.chain[o][i] !in l.free
    ensures forall x :: x in l.free ==> x < |l.val|
  {
  }

  /** The i-th block of list o points to the next one. */
  ghost predicate PointsOn(chain: seq<seq<nat>>, next: seq<int>, o: nat, i: nat) {
    o < |chain| && i < |chain[o]| ==> chain[o][i] < |next| && next[chain[o][i]] == At(chain[o], i + 1)
  }

  /** The pointers in memory link the blocks of each list in order. */
  ghost predicate LinkedUp(chain: seq<seq<nat>>, heads: seq<int>, next: seq<int>) {
    && |heads| == |chain| && (forall o :: 0 <= o < |chain| ==> heads[o] == At(chain[o], 0))
    && forall o: nat, i: nat :: PointsOn(chain, next, o, i)
  }

  // ---- Operations on values -------------------------------------------------------------------------------------

  /** os_memblock_get. */
  ghost function Taken<T>(l: Level<T>): (r: Level<T>)
    requires LevelOk(l) && l.free != []
    ensures LevelOk(r) && Loose(r, l.free[0])
  {
    l.(free := l.free[1..])
  }

  ghost function Written<T>(l: Level<T>, x: nat, v: T): (r: Level<T>)
    requires LevelOk(l) && Loose(l, x)
    ensures LevelOk(r) && Loose(r, x)
  {
    l.(val := l.val[x := v])
  }

  /** SLIST_INSERT_HEAD (n == 0) and SLIST_INSERT_AFTER the block before position n. */
  ghost function InsertedAt<T>(l: Level<T>, o: nat, n: nat, x: nat): (r: Level<T>)
    requires LevelOk(l) && o < |l.chain| && n <= |l.chain[o]| && Loose(l, x)
    ensures LevelOk(r)
  {
    l.(chain := l.chain[o := l.chain[o][..n] + [x] + l.chain[o][n..]], owner := l.owner[x := o])
  }

  /** `SLIST_NEXT(prev, next) = x` with x cleared: the blocks from position n on are on no list any more. */
  ghost function CutAt<T>(l: Level<T>, o: nat, n: nat, x: nat): (r: Level<T>)
    requires LevelOk(l) && o < |l.chain| && n <= |l.chain[o]| && Loose(l, x)
    ensures LevelOk(r)
  {
    var c := l.chain[o];
    l.(chain := l.chain[o := c[..n] + [x]],
       owner := seq(|l.owner|, p requires 0 <= p < |l.owner| =>
                  if p == x then o else if p in c[n..] then NOBODY else l.owner[p]))
  }

  /** How a new characteristic or descriptor is linked: at the head properly, further on by cutting. */
  ghost function LinkedAt<T>(l: Level<T>, o: nat, n: nat, x: nat): (r: Level<T>)
    requires LevelOk(l) && o < |l.chain| && n <= |l.chain[o]| && Loose(l, x)
    ensures LevelOk(r) && r.chain == l.chain[o := Linked(l.chain[o], n, x)] && r.val == l.val && r.free == l.free
  {
    assert [x] + l.chain[o] == l.chain[o][..0] + [x] + l.chain[o][0..];
    if n == 0 then InsertedAt(l, o, 0, x) else CutAt(l, o, n, x)
  }

  /** SLIST_REMOVE_HEAD. */
  ghost function HeadRemoved<T>(l: Level<T>, o: nat): (r: Level<T>)
    requires LevelOk(l) && o < |l.chain| && l.chain[o] != []
    ensures LevelOk(r) && Loose(r, l.chain[o][0])
  {
    l.(chain := l.chain[o := l.chain[o][1..]], owner := l.owner[l.chain[o][0] := NOBODY])
  }

  /** os_memblock_put. */
  ghost function Released<T>(l: Level<T>, x: nat): (r: Level<T>)
    requires LevelOk(l) && Loose(l, x)
    ensures LevelOk(r)
  {
    l.(free := [x] + l.free)
  }

  /** Every block of a list is given back, the first one first. */
  ghost function Drained<T>(l: Level<T>, o: nat): (r: Level<T>)
    requires LevelOk(l) && o < |l.chain|
    ensures LevelOk(r) && r.chain == l.chain[o := []] && r.val == l.val
    ensures |r.free| == |l.free| + |l.chain[o]| && forall x :: x in r.free <==> x in l.free || x in l.chain[o]
    decreases |l.chain[o]|
  {
    if l.chain[o] == [] then l else Drained(Released(HeadRemoved(l, o), l.chain[o][0]), o)
  }

  // ---- Pointers after an operation ------------------------------------------------------------------------------

  ghost predicate InMemory<T>(l: Level<T>, heads: seq<int>, next: seq<int>) {
    LevelOk(l) && |next| == |l.val| && LinkedUp(l.chain, heads, next)
  }

  lemma LooseWritten<T>(l: Level<T>, heads: seq<int>, next: seq<int>, x: nat, v: int)
    requires InMemory(l, heads, next) && Loose(l, x)
    ensures LinkedUp(l.chain, heads, next[x := v])
  {
    var next' := next[x := v];
    forall p: nat, i: nat ensures PointsOn(l.chain, next', p, i) {
      assert PointsOn(l.chain, next, p, i);
    }
  }

  lemma HeadLinked<T>(l: Level<T>, heads: seq<int>, next: seq<int>, o: nat, x: nat)
    requires InMemory(l, heads, next) && o < |l.chain| && Loose(l, x)
    ensures InMemory(InsertedAt(l, o, 0, x), heads[o := x], next[x := heads[o]])
  {
    var chain', next' := InsertedAt(l, o, 0, x).chain, next[x := heads[o]];
    forall p: nat, i: nat ensures PointsOn(chain', next', p, i) {
      assert PointsOn(l.chain, next, p, if p == o && i > 0 then i - 1 else i);
    }
  }

  lemma AfterLinked<T>(l: Level<T>, heads: seq<int>, next: seq<int>, o: nat, n: nat, x: nat)
    requires InMemory(l, heads, next) && o < |l.chain| && 0 < n <= |l.chain[o]| && Loose(l, x)
    ensures var prev := l.chain[o][n - 1];
            && prev < |next| && prev != x
            && InMemory(InsertedAt(l, o, n, x), heads, next[x := next[prev]][prev := x])
  {
    var prev := l.chain[o][n - 1];
    var chain', next' := InsertedAt(l, o, n, x).chain, next[x := next[prev]][prev := x];
    assert PointsOn(l.chain, next, o, n - 1);
    forall p: nat, i: nat ensures PointsOn(chain', next', p, i) {
      assert PointsOn(l.chain, next, p, if p == o && i > n then i - 1 else i);
    }
  }

  lemma CutLinked<T>(l: Level<T>, heads: seq<int>, next: seq<int>, o: nat, n: nat, x: nat)
    requires InMemory(l, heads, next) && o < |l.chain| && 0 < n <= |l.chain[o]| && Loose(l, x) && next[x] == NULL
    ensures l.chain[o][n - 1] < |next| && InMemory(CutAt(l, o, n, x), heads, next[l.chain[o][n - 1] := x])
  {
    var chain', next' := CutAt(l, o, n, x).chain, next[l.chain[o][n - 1] := x];
    forall p: nat, i: nat ensures PointsOn(chain', next', p, i) {
      assert PointsOn(l.chain, next, p, i);
    }
  }

  lemma HeadUnlinked<T>(l: Level<T>, heads: seq<int>, next: seq<int>, o: nat)
    requires InMemory(l, heads, next) && o < |l.chain| && l.chain[o] != []
    ensures heads[o] == l.chain[o][0] < |next| && InMemory(HeadRemoved(l, o), heads[o := next[heads[o]]], next)
  {
    var chain', heads' := HeadRemoved(l, o).chain, heads[o := next[heads[o]]];
    assert PointsOn(l.chain, next, o, 0);
    forall p: nat, i: nat ensures PointsOn(chain', next, p, i) {
      assert PointsOn(l.chain, next, p, if p == o then i + 1 else i);
    }
  }

  /** The lists and the free blocks in memory. */
  class Lists<T> {
    const heads: array<int>
    const next: array<int>
    const val: array<T>
    var free: seq<nat>
    ghost var chain: seq<seq<nat>>
    ghost var owner: seq<int>

    ghost function View(): Level<T>
      reads this, val
    {
      Level(chain, owner, val[..], free)
    }

    ghost predicate Valid()
      reads this, heads, next, val
    {
      && InMemory(View(), heads[..], next[..])
      && heads != next && heads as object != val as object && next as object != val as object
    }

    lemma NextAt(o: nat, i: nat)
      requires Valid() && o < |chain| && i < |chain[o]|
      ensures chain[o][i] < next.Length && next[chain[o][i]] == At(chain[o], i + 1)
    {
      assert PointsOn(chain, next[..], o, i);
    }

    /** os_mempool_init: every block free, every list empty. */
    constructor (nHeads: nat, nBlocks: nat, init: T)
      ensures Valid() && fresh(heads) && fresh(next) && fresh(val)
      ensures |chain| == nHeads && (forall o :: 0 <= o < nHeads ==> chain[o] == [])
      ensures |free| == nBlocks == val.Length
    {
      heads := new int[nHeads](_ => NULL);
      next := new int[nBlocks](_ => NULL);
      val := new T[nBlocks](_ => init);
      free := seq(nBlocks, i => i);
      chain := seq(nHeads, _ => []);
      owner := seq(nBlocks, _ => NOBODY);
    }

    /** SLIST_FIRST. */
    method First(o: nat) returns (x: int)
      requires Valid() && o < |chain|
      ensures x == At(chain[o], 0)
    {
      x := heads[o];
    }

    /** SLIST_NEXT. */
    method Follow(o: nat, ghost i: nat, x: nat) returns (y: int)
      requires Valid() && o < |chain| && i < |chain[o]| && x == chain[o][i]
      ensures y == At(chain[o], i + 1)
    {
      NextAt(o, i);
      y := next[x];
    }

    /** NULL when no block is free. */
    method Get() returns (x: int)
      requires Valid()
      modifies `free
      ensures Valid()
      ensures if old(free) == [] then x == NULL && View() == old(View())
              else x == old(free)[0] && View() == Taken(old(View()))
    {
      if free == [] {
        return NULL;
      }
      x := free[0];
      free := free[1..];
    }

    method Put(x: nat)
      requires Valid() && Loose(View(), x)
      modifies `free
      ensures Valid() && View() == Released(old(View()), x)
    {
      free := [x] + free;
    }

    /** memset and the copy of the contents. */
    method Write(x: nat, v: T)
      requires Valid() && Loose(View(), x)
      modifies val, next
      ensures Valid() && View() == Written(old(View()), x, v) && next[x] == NULL
    {
      LooseWritten(View(), heads[..], next[..], x, NULL);
      ghost var p := next[..];
      next[x] := NULL;
      val[x] := v;
      assert next[..] == p[x := NULL] && View() == Written(old(View()), x, v);
    }

    method InsertHead(o: nat, x: nat)
      requires Valid() && o < |chain| && Loose(View(), x)
      modifies heads, next, `chain, `owner
      ensures Valid() && View() == InsertedAt(old(View()), o, 0, x)
    {
      HeadLinked(View(), heads[..], next[..], o, x);
      ghost var l, h, p := InsertedAt(View(), o, 0, x), heads[..], next[..];
      next[x] := heads[o];
      heads[o] := x;
      chain, owner := l.chain, l.owner;
      assert heads[..] == h[o := x] && next[..] == p[x := h[o]] && View() == l;
    }

    method InsertAfter(o: nat, ghost n: nat, prev: nat, x: nat)
      requires Valid() && o < |chain| && 0 < n <= |chain[o]| && prev == chain[o][n - 1] && Loose(View(), x)
      modifies next, `chain, `owner
      ensures Valid() && View() == InsertedAt(old(View()), o, n, x)
    {
      AfterLinked(View(), heads[..], next[..], o, n, x);
      ghost var l, p := InsertedAt(View(), o, n, x), next[..];
      next[x] := next[prev];
      next[prev] := x;
      chain, owner := l.chain, l.owner;
      assert next[..] == p[x := p[prev]][prev := x] && View() == l;
    }

    /** The new block has been cleared, so that its next pointer is NULL. */
    method LinkAfter(o: nat, ghost n: nat, prev: nat, x: nat)
      requires Valid() && o < |chain| && 0 < n <= |chain[o]| && prev == chain[o][n - 1] && Loose(View(), x)
      requires next[x] == NULL
      modifies next, `chain, `owner
      ensures Valid() && View() == CutAt(old(View()), o, n, x)
    {
      CutLinked(View(), heads[..], next[..], o, n, x);
      ghost var l, p := CutAt(View(), o, n, x), next[..];
      next[prev] := x;
      chain, owner := l.chain, l.owner;
      assert next[..] == p[prev := x] && View() == l;
    }

    /** SLIST_INIT of a list that is empty. */
    method Init(o: nat)
      requires Valid() && o < |chain| && chain[o] == []
      modifies heads
      ensures Valid() && View() == old(View())
    {
      heads[o] := NULL;
    }

    /** A new block with contents v behind prev, keeping what follows; NULL when no block is free. */
    method AddKeeping(o: nat, ghost n: nat, prev: int, v: T) returns (x: int)
      requires Valid() && o < |chain| && n <= |chain[o]| && prev == if n == 0 then NULL else chain[o][n - 1]
      modifies this, heads, next, val
      ensures Valid()
      ensures if old(free) == [] then x == NULL && View() == old(View())
              else x == old(free)[0] && View() == InsertedAt(Written(Taken(old(View())), x, v), o, n, x)
    {
      x := Get();
      if x != NULL {
        Write(x, v);
        if prev == NULL {
          InsertHead(o, x);
        } else {
          InsertAfter(o, n, prev, x);
        }
      }
    }

    /** A new block with contents v linked to prev; what followed prev is cut off. */
    method AddLinking(o: nat, ghost n: nat, prev: int, v: T) returns (x: int)
      requires Valid() && o < |chain| && n <= |chain[o]| && prev == if n == 0 then NULL else chain[o][n - 1]
      modifies this, heads, next, val
      ensures Valid()
      ensures if old(free) == [] then x == NULL && View() == old(View())
              else x == old(free)[0] && View() == LinkedAt(Written(Taken(old(View())), x, v), o, n, x)
    {
      x := Get();
      if x != NULL {
        Write(x, v);
        if prev == NULL {
          InsertHead(o, x);
        } else {
          LinkAfter(o, n, prev, x);
        }
      }
    }

    method RemoveHead(o: nat) returns (x: nat)
      requires Valid() && o < |chain| && chain[o] != []
      modifies heads, `chain, `owner
      ensures Valid() && x == old(chain)[o][0] && View() == HeadRemoved(old(View()), o)
    {
      HeadUnlinked(View(), heads[..], next[..], o);
      ghost var l, h := HeadRemoved(View(), o), heads[..];
      x := heads[o];
      heads[o] := next[x];
      chain, owner := l.chain, l.owner;
      assert heads[..] == h[o := next[x]] && View() == l;
    }

    /** The *_find_prev functions: the last block whose key is below h, and what follows it. */
    method FindPrev(o: nat, key: T -> int, h: int) returns (prev: int, cur: int)
      requires Valid() && o < |chain|
      ensures var n := Position(KeysOf(View(), o, key), h);
              prev == (if n == 0 then NULL else chain[o][n - 1]) && cur == At(chain[o], n)
    {
      ghost var keys, n := KeysOf(View(), o, key), 0;
      prev := NULL;
      cur := First(o);
      while cur != NULL && key(val[cur]) < h
        invariant n <= |chain[o]| && cur == At(chain[o], n) && prev == (if n == 0 then NULL else chain[o][n - 1])
        invariant Position(keys, h) == n + Position(keys[n..], h)
        decreases |chain[o]| - n
      {
        assert keys[n..][1..] == keys[n + 1..];
        prev := cur;
        cur := Follow(o, n, cur);
        n := n + 1;
      }
    }

    /** The *_find functions. */
    method Find(o: nat, key: T -> int, h: int) returns (found: int, prev: int)
      requires Valid() && o < |chain|
      ensures var n := Position(KeysOf(View(), o, key), h);
              && n <= |chain[o]| && prev == (if n == 0 then NULL else chain[o][n - 1])
              && found == if FoundAt(KeysOf(View(), o, key), n, h) then chain[o][n] else NULL
    {
      var cur;
      prev, cur := FindPrev(o, key, h);
      found := if cur != NULL && key(val[cur]) == h then cur else NULL;
    }

    /** SLIST_REMOVE_HEAD and os_memblock_put until the list is empty. */
    method Drain(o: nat)
      requires Valid() && o < |chain|
      modifies this, heads
      ensures Valid() && View() == Drained(old(View()), o)
    {
      while heads[o] != NULL
        invariant Valid() && o < |chain| && Drained(View(), o) == Drained(old(View()), o)
        decreases |chain[o]|
      {
        var x := RemoveHead(o);
        Put(x);
      }
    }
  }
}
