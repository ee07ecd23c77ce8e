/** main/mesh_data_packet.c: the packet, its wire format, and the allocation counter. */
module DataPacket {
  import opened Types

  const MIN_SIZE: nat := 7
  const MAX_SIZE: nat := 21
  const TTL_IDX: nat := 2
  const LEN_IDX: nat := 5
  const DATA_IDX: nat := 6
  const MAX_DATA: nat := MAX_SIZE - DATA_IDX

  /** A packet as a value; `data` has data_length bytes. */
  datatype Packet = Packet(source: uint8, dest: uint8, ttl: uint8, key: uint8, ptype: uint8, data: seq<uint8>)

  /** The payload fits the wire buffer; mdp_pack overruns its buffer otherwise. */
  predicate Packable(p: Packet) {
    |p.data| <= MAX_DATA
  }

  /** The bytes mdp_pack writes. */
  function Packed(p: Packet): (b: seq<uint8>)
    requires Packable(p)
  {
    [p.source, p.dest, p.ttl, p.key, p.ptype, |p.data|] + p.data
  }

  /** The packet mdp_unpack reads from memory that starts with the receive buffer; a length byte above MAX_DATA makes it
      read on behind the buffer. */
  function Parsed(mem: seq<uint8>): (p: Packet)
    requires MAX_SIZE <= |mem| && DATA_IDX + mem[LEN_IDX] <= |mem|
  {
    Packet(mem[0], mem[1], mem[2], mem[3], mem[4], mem[DATA_IDX..DATA_IDX + mem[LEN_IDX]])
  }

  /** As much memory behind the receive buffer as a length byte can reach. */
  type Beyond = b: seq<uint8> | |b| == 0xff - MAX_DATA witness seq(0xff - MAX_DATA, _ => 0)

  /** The zero-initialised receive buffer of mn_receive_data after `om` was copied in. */
  function Padded(om: seq<uint8>): (buf: seq<uint8>)
    requires |om| <= MAX_SIZE
  {
    om + seq(MAX_SIZE - |om|, _ => 0)
  }

  /** Received lengths that mn_write_data_to_buf lets through, with a payload length that stays in the buffer. */
  predicate Acceptable(om: seq<uint8>) {
    MIN_SIZE <= |om| <= MAX_SIZE && om[LEN_IDX] <= MAX_DATA
  }

  /** `data_packet.ttl -= 1` on an 8-bit field. */
  function Decremented(t: uint8): (r: uint8) {
    (t - 1) % 0x100
  }

  /** What a forwarding node sends on after receiving `om`. */
  function ForwardedBytes(om: seq<uint8>): (b: seq<uint8>)
    requires Acceptable(om)
  {
    var p := Parsed(Padded(om));
    Packed(p.(ttl := Decremented(p.ttl)))
  }

  /** Where each field lies on the wire. */
  lemma WireLayout(p: Packet)
    requires Packable(p)
    ensures var b := Packed(p);
            && |b| == 6 + |p.data| && b[0] == p.source && b[1] == p.dest && b[2] == p.ttl
            && b[3] == p.key && b[4] == p.ptype && b[5] == |p.data|
            && forall i :: 0 <= i < |p.data| ==> b[6 + i] == p.data[i]
  {
  }

  /** mdp_unpack inverts mdp_pack, whatever follows the packed bytes in the buffer and behind it. */
  lemma WireRoundTrip(p: Packet, rest: seq<uint8>)
    requires Packable(p) && |Packed(p)| + |rest| >= MAX_SIZE
    ensures Parsed(Packed(p) + rest) == p
  {
    assert (Packed(p) + rest)[DATA_IDX..DATA_IDX + |p.data|] == p.data;
  }

  /** One hop changes the ttl byte and nothing else, exactly when the length byte agrees with the received length. */
  lemma HopKeepsBytes(om: seq<uint8>)
    requires Acceptable(om)
    ensures ForwardedBytes(om) == om[TTL_IDX := Decremented(om[TTL_IDX])] <==> om[LEN_IDX] == |om| - DATA_IDX
  {
  }

  function AfterHops(om: seq<uint8>, hops: nat): (b: seq<uint8>)
    requires Acceptable(om) && om[LEN_IDX] == |om| - DATA_IDX
    ensures Acceptable(b) && b[LEN_IDX] == |b| - DATA_IDX
  {
    if hops == 0 then om
    else
      var b := AfterHops(om, hops - 1);
      HopKeepsBytes(b);
      ForwardedBytes(b)
  }

  /** After any number of hops only the ttl byte differs, by the number of hops modulo 256. */
  lemma {:induction false} HopsOnlyLowerTtl(om: seq<uint8>, hops: nat)
    requires Acceptable(om) && om[LEN_IDX] == |om| - DATA_IDX
    ensures AfterHops(om, hops) == om[TTL_IDX := (om[TTL_IDX] - hops) % 0x100]
    ensures AfterHops(om, hops)[TTL_IDX] == om[TTL_IDX] - hops <==> hops <= om[TTL_IDX]
  {
    if hops == 0 {
      assert om[TTL_IDX := om[TTL_IDX]] == om;
    } else {
      HopsOnlyLowerTtl(om, hops - 1);
      HopKeepsBytes(AfterHops(om, hops - 1));
      DecrementAgain(om[TTL_IDX], hops);
    }
    WrapsAfter(om[TTL_IDX], hops);
  }

  lemma DecrementAgain(t: uint8, hops: nat)
    requires hops > 0
    ensures Decremented((t - (hops - 1)) % 0x100) == (t - hops) % 0x100
  {
  }

  lemma WrapsAfter(t: uint8, hops: nat)
    ensures (t - hops) % 0x100 == t - hops <==> hops <= t
  {
  }

  /** memcpy between two distinct buffers. */
  method Memcpy(dst: array<uint8>, at: nat, src: array<uint8>, from: nat, n: nat)
    requires dst != src && at + n <= dst.Length && from + n <= src.Length
    modifies dst
    ensures dst[..] == old(dst[..at]) + src[from..from + n] + old(dst[at + n..])
  {
    var i := 0;
    while i < n
      invariant 0 <= i <= n
      invariant dst[..at] == old(dst[..at]) && dst[at..at + i] == src[from..from + i]
      invariant dst[at + i..] == old(dst[at + i..])
    {
      dst[at + i] := src[from + i];
      i := i + 1;
      assert dst[at..at + i] == dst[at..at + i - 1] + [dst[at + i - 1]];
    }
    assert dst[..] == dst[..at] + dst[at..at + n] + dst[at + n..];
  }

  /** memcpy of a value. */
  method Store(dst: array<uint8>, at: nat, b: seq<uint8>)
    requires at + |b| <= dst.Length
    modifies dst
    ensures dst[..] == old(dst[..at]) + b + old(dst[at + |b|..])
  {
    var i := 0;
    while i < |b|
      invariant 0 <= i <= |b|
      invariant dst[..at] == old(dst[..at]) && dst[at..at + i] == b[..i]
      invariant dst[at + i..] == old(dst[at + i..])
    {
      dst[at + i] := b[i];
      i := i + 1;
      assert dst[at..at + i] == dst[at..at + i - 1] + [dst[at + i - 1]];
    }
    assert dst[..] == dst[..at] + dst[at..at + |b|] + dst[at + |b|..];
  }

  /** struct mesh_data_packet with its separately allocated payload. */
  class MeshDataPacket {
    var source: uint8
    var dest: uint8
    var ttl: uint8
    var key: uint8
    var ptype: uint8
    var dataLength: uint8
    var data: array<uint8>

    ghost predicate Valid()
      reads this
    {
      dataLength <= data.Length
    }

    ghost function View(): (p: Packet)
      requires Valid()
      reads this, data
    {
      Packet(source, dest, ttl, key, ptype, data[..dataLength])
    }

    /** malloc and memset of the struct and of `n` payload bytes. */
    constructor (n: nat)
      ensures Valid() && fresh(data) && data.Length == n && data[..] == seq(n, _ => 0)
      ensures View() == Packet(0, 0, 0, 0, 0, [])
    {
      source, dest, ttl, key, ptype, dataLength := 0, 0, 0, 0, 0, 0;
      data := new uint8[n](_ => 0);
    }

    /** memcpy of `b` into the payload. */
    method SetPayload(b: seq<uint8>)
      requires Valid() && |b| == dataLength == data.Length
      modifies data
      ensures Valid() && View() == old(View()).(data := b)
    {
      Store(data, 0, b);
      assert data[..dataLength] == data[..] == b;
    }
  }

  /** Serialise into the caller's buffer. */
  method Pack(buf: array<uint8>, p: MeshDataPacket) returns (len: nat)
    requires buf.Length == MAX_SIZE && p.Valid() && p.dataLength <= MAX_DATA && buf != p.data
    modifies buf
    ensures len <= MAX_SIZE && buf[..len] == Packed(p.View())
    ensures buf[len..] == old(buf[len..])
  {
    buf[0], buf[1], buf[2], buf[3], buf[4], buf[5] := p.source, p.dest, p.ttl, p.key, p.ptype, p.dataLength;
    label header:
    Memcpy(buf, DATA_IDX, p.data, 0, p.dataLength);
    len := DATA_IDX + p.dataLength;
    assert buf[..DATA_IDX] == old@header(buf[..DATA_IDX]) == [p.source, p.dest, p.ttl, p.key, p.ptype, p.dataLength];
    assert buf[..len] == buf[..DATA_IDX] + buf[DATA_IDX..len];
  }

  /** Parse a receive buffer into `p`, giving it a payload of its own. `beyond` is what lies behind the buffer. */
  method Unpack(buf: array<uint8>, beyond: Beyond, p: MeshDataPacket)
    requires buf.Length == MAX_SIZE
    modifies p
    ensures p.Valid() && fresh(p.data) && p.View() == Parsed(buf[..] + beyond)
  {
    p.source, p.dest, p.ttl, p.key, p.ptype := buf[0], buf[1], buf[2], buf[3], buf[4];
    p.dataLength := buf[LEN_IDX];
    var n: nat := p.dataLength;
    var data := new uint8[n];
    p.data := data;
    var inside := if n <= MAX_DATA then n else MAX_DATA;
    Memcpy(data, 0, buf, DATA_IDX, inside);
    if inside < n {
      Store(data, inside, beyond[..n - inside]);
    }
    assert data[..n] == data[..] == buf[DATA_IDX..DATA_IDX + inside] + beyond[..n - inside];
    assert (buf[..] + beyond)[DATA_IDX..DATA_IDX + n] == data[..];
  }

  /** The heap the packets live on: the static allocated_packets counter with the functions that move it. `blocks` is
      the memory handed out and not yet freed, two blocks for each packet. */
  class PacketHeap {
    var allocatedPackets: nat
    ghost var blocks: set<object>

    ghost predicate Valid()
      reads this
    {
      |blocks| == 2 * allocatedPackets
    }

    /** The packet and its payload are memory of this heap that has not been freed. */
    ghost predicate Live(p: MeshDataPacket)
      reads this, p
    {
      p in blocks && p.data in blocks
    }

    constructor ()
      ensures Valid() && allocatedPackets == 0 && blocks == {}
    {
      allocatedPackets, blocks := 0, {};
    }

    method Alloc(n: nat) returns (p: MeshDataPacket)
      requires Valid()
      modifies this
      ensures Valid() && blocks == old(blocks) + {p, p.data} && allocatedPackets == old(allocatedPackets) + 1
      ensures fresh(p) && fresh(p.data) && p.Valid() && p.data.Length == n && p.data[..] == seq(n, _ => 0)
      ensures p.View() == Packet(0, 0, 0, 0, 0, [])
    {
      p := new MeshDataPacket(n);
      allocatedPackets := allocatedPackets + 1;
      assert p !in blocks && p.data !in blocks + {p};
      assert blocks + {p, p.data} == blocks + {p} + {p.data};
      blocks := blocks + {p, p.data};
    }

    /** A deep copy: equal contents in memory of its own, so that neither a write to one nor freeing it touches the
        other. */
    method Copy(p: MeshDataPacket) returns (c: MeshDataPacket)
      requires Valid() && p.Valid()
      modifies this
      ensures Valid() && blocks == old(blocks) + {c, c.data} && allocatedPackets == old(allocatedPackets) + 1
      ensures fresh(c) && fresh(c.data) && c.Valid() && c.View() == p.View()
    {
      c := Alloc(p.dataLength);
      c.source, c.dest, c.ttl, c.key, c.ptype := p.source, p.dest, p.ttl, p.key, p.ptype;
      c.dataLength := p.dataLength;
      Memcpy(c.data, 0, p.data, 0, p.dataLength);
      assert c.data[..p.dataLength] == p.data[..p.dataLength];
    }

    /** Both blocks of a live packet are given back, which therefore is live no more; all others stay. */
    method Free(p: MeshDataPacket)
      requires Valid() && Live(p)
      modifies this
      ensures Valid() && blocks == old(blocks) - {p, p.data} && allocatedPackets == old(allocatedPackets) - 1
      ensures !Live(p)
    {
      assert blocks == (blocks - {p, p.data}) + {p} + {p.data};
      blocks := blocks - {p, p.data};
      allocatedPackets := allocatedPackets - 1;
    }
  }

  /** ble_hs_mbuf_to_flat into a zeroed receive buffer. */
  method Flatten(om: seq<uint8>) returns (rx: array<uint8>)
    requires |om| <= MAX_SIZE
    ensures fresh(rx) && rx.Length == MAX_SIZE && rx[..] == Padded(om)
  {
    rx := new uint8[MAX_SIZE](_ => 0);
    var i := 0;
    while i < |om|
      invariant 0 <= i <= |om| && rx[..] == om[..i] + seq(MAX_SIZE - i, _ => 0)
    {
      rx[i] := om[i];
      i := i + 1;
    }
  }

  /** A hop on real buffers: receive, unpack, lower the ttl in place, pack. */
  method ForwardHop(om: seq<uint8>, beyond: Beyond) returns (sent: seq<uint8>)
    requires Acceptable(om)
    ensures sent == ForwardedBytes(om)
  {
    var rx := Flatten(om);
    assert rx[LEN_IDX] == rx[..][LEN_IDX] == om[LEN_IDX];
    var p := new MeshDataPacket(0);
    Unpack(rx, beyond, p);
    assert p.View() == Parsed(Padded(om));
    assert p.dataLength == |p.View().data| <= MAX_DATA;
    p.ttl := Decremented(p.ttl);
    var tx := new uint8[MAX_SIZE](_ => 0);
    var len := Pack(tx, p);
    sent := tx[..len];
  }
}
