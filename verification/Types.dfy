/** Machine integers, optional values and the little-endian layout shared by the other modules. */
module Types {

  type uint8 = x: int | 0 <= x < 0x100
  type uint16 = x: int | 0 <= x < 0x1_0000
  type uint32 = x: int | 0 <= x < 0x1_0000_0000
  type uint64 = x: int | 0 <= x < 0x1_0000_0000_0000_0000

  datatype Option<+T> = None | Some(value: T)

  /** The memory of a uint32. */
  type Word = b: seq<uint8> | |b| == 4 witness [0, 0, 0, 0]

  /** The uint32 that memcpy (or a pointer cast) makes of four bytes on the little-endian target. */
  function FromBytes(b: Word): (v: uint32) {
    var b0: int, b1: int, b2: int, b3: int := b[0], b[1], b[2], b[3];
    b0 + 0x100 * b1 + 0x1_0000 * b2 + 0x100_0000 * b3
  }

  /** The memory of a uint32, lowest byte first. */
  function ToBytes(v: uint32): Word {
    [v % 0x100, v / 0x100 % 0x100, v / 0x100 / 0x100 % 0x100, v / 0x100 / 0x100 / 0x100]
  }

  lemma BytesRoundTrip(b: Word, v: uint32)
    ensures ToBytes(FromBytes(b)) == b && FromBytes(ToBytes(v)) == v
  {
    BytesOfNumber(b);
    NumberOfBytes(v);
  }

  lemma BytesOfNumber(b: Word)
    ensures ToBytes(FromBytes(b)) == b
  {
    var b1: int, b2: int, b3: int := b[1], b[2], b[3];
    LowByte(b[0], b1 + 0x100 * b2 + 0x1_0000 * b3);
    LowByte(b[1], b2 + 0x100 * b3);
    LowByte(b[2], b3);
  }

  lemma NumberOfBytes(v: uint32)
    ensures FromBytes(ToBytes(v)) == v
  {
    var high: int := v / 0x100;
    var higher: int := high / 0x100;
    assert v == v % 0x100 + 0x100 * high;
    assert high == high % 0x100 + 0x100 * higher;
    assert higher == higher % 0x100 + 0x100 * (higher / 0x100);
  }

  lemma LowByte(low: uint8, high: nat)
    ensures (low + 0x100 * high) % 0x100 == low && (low + 0x100 * high) / 0x100 == high
  {
  }

  /** A set of bytes has at most 256 members. */
  lemma ByteSetBound(s: set<int>)
    requires forall k :: k in s ==> 0 <= k < 0x100
    ensures |s| <= 0x100
  {
    RangeSetBound(s, 0x100);
  }

  lemma {:induction false} RangeSetBound(s: set<int>, n: nat)
    requires forall k :: k in s ==> 0 <= k < n
    ensures |s| <= n
  {
    if n == 0 {
      assert forall k :: k !in s;
    } else {
      RangeSetBound(s - {n - 1}, n - 1);
    }
  }
}
