/** Bytes of a FlatBuffers buffer: little-endian reads and writes at byte offsets. */
module Memory {

  type byte = x: int | 0 <= x < 256

  type bytes = seq<byte>

  const TWO_TO_THE_32 := 0x1_0000_0000

  /** `size_t` and addresses are below this bound. */
  const TWO_TO_THE_64: nat := 0x1_0000_0000_0000_0000

  /** What is below the bound does not wrap around. */
  lemma Unwrapped(n: nat)
    requires n < TWO_TO_THE_64
    ensures n % TWO_TO_THE_64 == n
  {
  }

  /** The unsigned little-endian value of a byte string. */
  function LittleEndian(b: seq<byte>): nat {
    if b == [] then 0 else b[0] as int + 256 * LittleEndian(b[1..])
  }

  /** `__flatbuffers_uoffset_read_from_pe`: the 32-bit word at byte offset `p`. */
  function ReadU32(m: seq<byte>, p: nat): (v: nat)
    requires p + 4 <= |m|
    ensures v < TWO_TO_THE_32
  {
    m[p] as int + 0x100 * (m[p + 1] as int) + 0x1_0000 * (m[p + 2] as int) + 0x100_0000 * (m[p + 3] as int)
  }

  /** The four bytes `__flatbuffers_uoffset_write_to_pe` stores. */
  function U32Bytes(v: nat): (b: seq<byte>)
    requires v < TWO_TO_THE_32
    ensures |b| == 4
  {
    [v % 0x100, v / 0x100 % 0x100, v / 0x1_0000 % 0x100, v / 0x100_0000]
  }

  /** `m` with the bytes `b` stored at offset `p`. */
  function Store(m: seq<byte>, p: nat, b: seq<byte>): (m': seq<byte>)
    requires p + |b| <= |m|
    ensures |m'| == |m|
  {
    m[..p] + b + m[p + |b|..]
  }

  function WriteU32(m: seq<byte>, p: nat, v: nat): (m': seq<byte>)
    requires p + 4 <= |m| && v < TWO_TO_THE_32
    ensures |m'| == |m|
  {
    Store(m, p, U32Bytes(v))
  }

  lemma WordOfDigits(v: nat)
    requires v < TWO_TO_THE_32
    ensures v % 0x100 + 0x100 * (v / 0x100 % 0x100) + 0x1_0000 * (v / 0x1_0000 % 0x100)
          + 0x100_0000 * (v / 0x100_0000) == v
  {
    assert v / 0x1_0000 == v / 0x100 / 0x100;
    assert v / 0x100_0000 == v / 0x1_0000 / 0x100;
  }

  /** Reading and writing a word are inverse to each other. */
  lemma ReadOfWrite(m: seq<byte>, p: nat, v: nat)
    requires p + 4 <= |m| && v < TWO_TO_THE_32
    ensures ReadU32(WriteU32(m, p, v), p) == v
  {
    WordOfDigits(v);
    var b := U32Bytes(v);
    var m' := WriteU32(m, p, v);
    assert m'[p] == b[0] && m'[p + 1] == b[1] && m'[p + 2] == b[2] && m'[p + 3] == b[3];
  }

  lemma DigitsOfWord(a: byte, b: byte, c: byte, d: byte)
    ensures var v: int := a as int + 0x100 * (b as int) + 0x1_0000 * (c as int) + 0x100_0000 * (d as int);
      v % 0x100 == a && v / 0x100 % 0x100 == b && v / 0x1_0000 % 0x100 == c && v / 0x100_0000 == d
  {
    var v: int := a as int + 0x100 * (b as int) + 0x1_0000 * (c as int) + 0x100_0000 * (d as int);
    assert v == a as int + 0x100 * (b as int + 0x100 * (c as int + 0x100 * (d as int)));
    assert v / 0x100 == b as int + 0x100 * (c as int + 0x100 * (d as int));
    assert v / 0x1_0000 == c as int + 0x100 * (d as int);
  }

  lemma WriteOfRead(m: seq<byte>, p: nat)
    requires p + 4 <= |m|
    ensures WriteU32(m, p, ReadU32(m, p)) == m
  {
    DigitsOfWord(m[p], m[p + 1], m[p + 2], m[p + 3]);
    assert U32Bytes(ReadU32(m, p)) == m[p..p + 4];
  }

  /** The byte at the lowest address is the least significant one. */
  lemma LowByteFirst(m: seq<byte>, p: nat)
    requires p + 4 <= |m|
    ensures ReadU32(m, p) % 0x100 == m[p] && ReadU32(m, p) / 0x100 % 0x100 == m[p + 1]
    ensures ReadU32(m, p) / 0x1_0000 % 0x100 == m[p + 2] && ReadU32(m, p) / 0x100_0000 == m[p + 3]
  {
    DigitsOfWord(m[p], m[p + 1], m[p + 2], m[p + 3]);
  }

  /** Wherever the four bytes of a word are, the word is read there. */
  lemma WordWritten(m: seq<byte>, p: nat, v: nat)
    requires p + 4 <= |m| && v < TWO_TO_THE_32 && m[p..p + 4] == U32Bytes(v)
    ensures ReadU32(m, p) == v
  {
    var b := m[p..p + 4];
    assert m[p] == b[0] && m[p + 1] == b[1] && m[p + 2] == b[2] && m[p + 3] == b[3];
    WordOfDigits(v);
  }

  lemma ReadElsewhere(m: seq<byte>, p: nat, v: nat, q: nat)
    requires p + 4 <= |m| && v < TWO_TO_THE_32 && q + 4 <= |m| && (p + 4 <= q || q + 4 <= p)
    ensures ReadU32(WriteU32(m, p, v), q) == ReadU32(m, q)
  {
    var m' := WriteU32(m, p, v);
    assert m'[q] == m[q] && m'[q + 1] == m[q + 1] && m'[q + 2] == m[q + 2] && m'[q + 3] == m[q + 3];
  }

  /** Memories that differ at most inside `[lo, hi)`. */
  ghost predicate SameOutside(m: seq<byte>, m': seq<byte>, lo: nat, hi: nat) {
    |m| == |m'| && forall p :: 0 <= p < |m| && !(lo <= p < hi) ==> m'[p] == m[p]
  }

  lemma SameOutsideTrans(m: seq<byte>, m': seq<byte>, m'': seq<byte>, lo: nat, hi: nat)
    requires SameOutside(m, m', lo, hi) && SameOutside(m', m'', lo, hi)
    ensures SameOutside(m, m'', lo, hi)
  {
  }

  /** Stores the bytes `b` at offset `p`. */
  method StoreBytes(mem: array<byte>, p: nat, b: seq<byte>)
    requires p + |b| <= mem.Length
    modifies mem
    ensures mem[..] == Store(old(mem[..]), p, b)
  {
    forall i | 0 <= i < |b| {
      mem[p + i] := b[i];
    }
  }
}
