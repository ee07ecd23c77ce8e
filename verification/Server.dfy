/** A GATT server as its attribute table, and what its answers to the three discovery procedures contain (Bluetooth Core
    Specification, Vol 3, Part G, sections 4.4.1, 4.6.1 and 4.7.1). */
module Server {
  import opened Types
  import opened GattSpec

  /** Definition before value before descriptors, all inside the service and in ascending order. */
  ghost predicate ServiceOk(n: SvcNode) {
    && 1 <= n.svc.start <= n.svc.end
    && (forall j :: 0 <= j < |n.chrs| ==> n.svc.start < n.chrs[j].chr.def < n.chrs[j].chr.val <= n.svc.end)
    && (forall j, k :: 0 <= j < k < |n.chrs| ==> n.chrs[j].chr.val < n.chrs[k].chr.def)
    && (forall j :: 0 <= j < |n.chrs| ==> DscsOk(n, j))
  }

  ghost predicate DscsOk(n: SvcNode, j: nat)
    requires j < |n.chrs|
  {
    var ds := n.chrs[j].dscs;
    && (forall k :: 0 <= k < |ds| ==> n.chrs[j].chr.val < ds[k].handle <= ChrEnd(n, j))
    && forall k, l :: 0 <= k < l < |ds| ==> ds[k].handle < ds[l].handle
  }

  ghost predicate TableOk(t: Tree) {
    && (forall i :: 0 <= i < |t| ==> ServiceOk(t[i]))
    && forall i, j :: 0 <= i < j < |t| ==> t[i].svc.end < t[j].svc.start
  }

  /** Every service with room for characteristics has one. */
  ghost predicate NoHollowService(t: Tree) {
    forall i :: 0 <= i < |t| && t[i].svc.start < t[i].svc.end ==> t[i].chrs != []
  }

  // ---- Descriptor ranges ----------------------------------------------------------------------------------------

  /** The descriptor range of a characteristic starts at its value and ends before the next definition. */
  lemma ChrEndBounds(n: SvcNode, j: nat)
    requires ServiceOk(n) && j < |n.chrs|
    ensures n.chrs[j].chr.val <= ChrEnd(n, j) <= n.svc.end
    ensures forall k :: j < k < |n.chrs| ==> ChrEnd(n, j) < n.chrs[k].chr.def
    ensures ChrEmpty(n, j) ==> n.chrs[j].dscs == []
  {
    if j + 1 < |n.chrs| {
      assert n.chrs[j].chr.val < n.chrs[j + 1].chr.def;
      assert forall k :: j + 1 < k < |n.chrs| ==> n.chrs[j + 1].chr.val < n.chrs[k].chr.def;
    }
    assert DscsOk(n, j);
    if n.chrs[j].dscs != [] {
      assert n.chrs[j].dscs[0].handle <= ChrEnd(n, j);
    }
  }

  /** The ranges of two characteristics of a table never meet, and each lies inside its service. */
  lemma DescriptorRangesDisjoint(t: Tree, i: nat, j: nat, a: nat, b: nat, h: uint16)
    requires TableOk(t) && i < |t| && j < |t[i].chrs| && a < |t| && b < |t[a].chrs| && (i != a || j != b)
    requires t[i].chrs[j].chr.val < h <= ChrEnd(t[i], j)
    ensures !(t[a].chrs[b].chr.val < h <= ChrEnd(t[a], b))
    ensures t[i].svc.start < h <= t[i].svc.end
  {
    ChrEndBounds(t[i], j);
    ChrEndBounds(t[a], b);
    assert ServiceOk(t[i]) && ServiceOk(t[a]);
  }

  // ---- Answers --------------------------------------------------------------------------------------------------

  /** The characteristics defined in a handle range, in table order. */
  function ChrsIn(cs: seq<ChrNode>, lo: int, hi: int): seq<Chr> {
    if cs == [] then []
    else (if lo <= cs[0].chr.def <= hi then [cs[0].chr] else []) + ChrsIn(cs[1..], lo, hi)
  }

  function AllChrsIn(t: Tree, lo: int, hi: int): seq<Chr> {
    if t == [] then [] else ChrsIn(t[0].chrs, lo, hi) + AllChrsIn(t[1..], lo, hi)
  }

  /** The descriptors above lo and up to hi, in table order. */
  function DscsIn(ds: seq<Dsc>, lo: int, hi: int): seq<Dsc> {
    if ds == [] then [] else (if lo < ds[0].handle <= hi then [ds[0]] else []) + DscsIn(ds[1..], lo, hi)
  }

  function ChrDscsIn(cs: seq<ChrNode>, lo: int, hi: int): seq<Dsc> {
    if cs == [] then [] else DscsIn(cs[0].dscs, lo, hi) + ChrDscsIn(cs[1..], lo, hi)
  }

  function AllDscsIn(t: Tree, lo: int, hi: int): seq<Dsc> {
    if t == [] then [] else ChrDscsIn(t[0].chrs, lo, hi) + AllDscsIn(t[1..], lo, hi)
  }

  function ChrsOf(n: SvcNode): seq<Chr> {
    seq(|n.chrs|, j requires 0 <= j < |n.chrs| => n.chrs[j].chr)
  }

  lemma {:induction false} ChrsInNone(cs: seq<ChrNode>, lo: int, hi: int)
    requires forall j :: 0 <= j < |cs| ==> !(lo <= cs[j].chr.def <= hi)
    ensures ChrsIn(cs, lo, hi) == []
  {
    if cs != [] {
      ChrsInNone(cs[1..], lo, hi);
    }
  }

  lemma {:induction false} ChrsInAll(cs: seq<ChrNode>, lo: int, hi: int)
    requires forall j :: 0 <= j < |cs| ==> lo <= cs[j].chr.def <= hi
    ensures ChrsIn(cs, lo, hi) == seq(|cs|, j requires 0 <= j < |cs| => cs[j].chr)
  {
    if cs != [] {
      ChrsInAll(cs[1..], lo, hi);
    }
  }

  lemma {:induction false} AllChrsInNone(t: Tree, lo: int, hi: int)
    requires forall i, j :: 0 <= i < |t| && 0 <= j < |t[i].chrs| ==> !(lo <= t[i].chrs[j].chr.def <= hi)
    ensures AllChrsIn(t, lo, hi) == []
  {
    if t != [] {
      ChrsInNone(t[0].chrs, lo, hi);
      assert forall i :: 0 <= i < |t[1..]| ==> t[1..][i] == t[i + 1];
      AllChrsInNone(t[1..], lo, hi);
    }
  }

  /** Asked for the range of a service the server answers with its characteristics, all of them and no others. */
  lemma {:induction false} ServiceAnswers(t: Tree, i: nat)
    requires TableOk(t) && i < |t|
    ensures AllChrsIn(t, t[i].svc.start, t[i].svc.end) == ChrsOf(t[i])
  {
    var lo, hi := t[i].svc.start, t[i].svc.end;
    assert ServiceOk(t[i]) && ServiceOk(t[0]);
    assert forall k :: 0 <= k < |t[1..]| ==> t[1..][k] == t[k + 1];
    if i == 0 {
      ChrsInAll(t[0].chrs, lo, hi);
      forall k, j | 0 <= k < |t[1..]| && 0 <= j < |t[1..][k].chrs| ensures !(lo <= t[1..][k].chrs[j].chr.def <= hi) {
        assert ServiceOk(t[k + 1]);
      }
      AllChrsInNone(t[1..], lo, hi);
    } else {
      ChrsInNone(t[0].chrs, lo, hi);
      assert TableOk(t[1..]);
      ServiceAnswers(t[1..], i - 1);
    }
  }

  lemma {:induction false} DscsInNone(ds: seq<Dsc>, lo: int, hi: int)
    requires forall k :: 0 <= k < |ds| ==> !(lo < ds[k].handle <= hi)
    ensures DscsIn(ds, lo, hi) == []
  {
    if ds != [] {
      DscsInNone(ds[1..], lo, hi);
    }
  }

  lemma {:induction false} DscsInAll(ds: seq<Dsc>, lo: int, hi: int)
    requires forall k :: 0 <= k < |ds| ==> lo < ds[k].handle <= hi
    ensures DscsIn(ds, lo, hi) == ds
  {
    if ds != [] {
      DscsInAll(ds[1..], lo, hi);
    }
  }

  /** No descriptor of these characteristics is in the range. */
  ghost predicate NoneIn(cs: seq<ChrNode>, lo: int, hi: int) {
    forall j, k :: 0 <= j < |cs| && 0 <= k < |cs[j].dscs| ==> !(lo < cs[j].dscs[k].handle <= hi)
  }

  lemma {:induction false} ChrDscsInNone(cs: seq<ChrNode>, lo: int, hi: int)
    requires NoneIn(cs, lo, hi)
    ensures ChrDscsIn(cs, lo, hi) == []
  {
    if cs != [] {
      DscsInNone(cs[0].dscs, lo, hi);
      assert forall j :: 0 <= j < |cs[1..]| ==> cs[1..][j] == cs[j + 1];
      ChrDscsInNone(cs[1..], lo, hi);
    }
  }

  lemma {:induction false} AllDscsInNone(t: Tree, lo: int, hi: int)
    requires forall i :: 0 <= i < |t| ==> NoneIn(t[i].chrs, lo, hi)
    ensures AllDscsIn(t, lo, hi) == []
  {
    if t != [] {
      ChrDscsInNone(t[0].chrs, lo, hi);
      assert forall i :: 0 <= i < |t[1..]| ==> t[1..][i] == t[i + 1];
      AllDscsInNone(t[1..], lo, hi);
    }
  }

  lemma {:induction false} ChrDscsInOne(cs: seq<ChrNode>, j: nat, lo: int, hi: int)
    requires j < |cs| && NoneIn(cs[..j], lo, hi) && NoneIn(cs[j + 1..], lo, hi)
    requires forall k :: 0 <= k < |cs[j].dscs| ==> lo < cs[j].dscs[k].handle <= hi
    ensures ChrDscsIn(cs, lo, hi) == cs[j].dscs
  {
    if j == 0 {
      DscsInAll(cs[0].dscs, lo, hi);
      ChrDscsInNone(cs[1..], lo, hi);
    } else {
      assert cs[..j][0] == cs[0];
      DscsInNone(cs[0].dscs, lo, hi);
      assert cs[1..][..j - 1] == cs[..j][1..] && cs[1..][j..] == cs[j + 1..];
      ChrDscsInOne(cs[1..], j - 1, lo, hi);
    }
  }

  /** Descriptors of one service lie outside the descriptor range of any characteristic of another. */
  lemma OtherServiceNone(t: Tree, i: nat, j: nat, a: nat)
    requires TableOk(t) && i < |t| && j < |t[i].chrs| && a < |t| && a != i
    ensures NoneIn(t[a].chrs, t[i].chrs[j].chr.val, ChrEnd(t[i], j))
  {
    ChrEndBounds(t[i], j);
    assert ServiceOk(t[i]) && ServiceOk(t[a]);
    forall b, k | 0 <= b < |t[a].chrs| && 0 <= k < |t[a].chrs[b].dscs|
      ensures !(t[i].chrs[j].chr.val < t[a].chrs[b].dscs[k].handle <= ChrEnd(t[i], j))
    {
      assert DscsOk(t[a], b);
      ChrEndBounds(t[a], b);
    }
  }

  lemma SameServiceNone(n: SvcNode, j: nat)
    requires ServiceOk(n) && j < |n.chrs|
    ensures NoneIn(n.chrs[..j], n.chrs[j].chr.val, ChrEnd(n, j))
    ensures NoneIn(n.chrs[j + 1..], n.chrs[j].chr.val, ChrEnd(n, j))
  {
    ChrEndBounds(n, j);
    forall b, k | 0 <= b < |n.chrs| && b != j && 0 <= k < |n.chrs[b].dscs|
      ensures !(n.chrs[j].chr.val < n.chrs[b].dscs[k].handle <= ChrEnd(n, j))
    {
      assert DscsOk(n, b);
      ChrEndBounds(n, b);
    }
    var behind := n.chrs[j + 1..];
    assert forall b :: 0 <= b < |behind| ==> behind[b] == n.chrs[b + j + 1];
  }

  lemma TableTail(t: Tree)
    requires TableOk(t) && t != []
    ensures TableOk(t[1..])
  {
  }

  /** Asked for the descriptor range of a characteristic the server answers with its descriptors and no others. */
  lemma {:induction false} CharacteristicAnswers(t: Tree, i: nat, j: nat)
    requires TableOk(t) && i < |t| && j < |t[i].chrs|
    ensures AllDscsIn(t, t[i].chrs[j].chr.val, ChrEnd(t[i], j)) == t[i].chrs[j].dscs
  {
    hide TableOk, NoneIn, ChrEnd, ChrDscsIn;
    var lo, hi := t[i].chrs[j].chr.val, ChrEnd(t[i], j);
    if i == 0 {
      OwnServiceAnswers(t, 0, j);
      forall a | 0 <= a < |t[1..]| ensures NoneIn(t[1..][a].chrs, lo, hi) {
        OtherServiceNone(t, 0, j, a + 1);
      }
      AllDscsInNone(t[1..], lo, hi);
    } else {
      OtherServiceNone(t, i, j, 0);
      ChrDscsInNone(t[0].chrs, lo, hi);
      TableTail(t);
      CharacteristicAnswers(t[1..], i - 1, j);
    }
  }

  lemma OwnServiceAnswers(t: Tree, i: nat, j: nat)
    requires TableOk(t) && i < |t| && j < |t[i].chrs|
    ensures ChrDscsIn(t[i].chrs, t[i].chrs[j].chr.val, ChrEnd(t[i], j)) == t[i].chrs[j].dscs
  {
    hide ChrEnd;
    assert ServiceOk(t[i]) && DscsOk(t[i], j);
    SameServiceNone(t[i], j);
    ChrDscsInOne(t[i].chrs, j, t[i].chrs[j].chr.val, ChrEnd(t[i], j));
  }
}
