/** The one region of guest memory all cores share (src/xxemul.c, lines 36-54 and 333-383). */
module GuestMemory {
  import opened Arithmetic

  type byte = b: nat | b < 0x100

  /** The bytes of the region, from address base on. */
  datatype Memory = Memory(base: nat, bytes: seq<byte>)

  /** xxemul_region_contains */
  predicate Holds(m: Memory, address: nat, size: nat) {
    m.base <= address && address + size <= m.base + |m.bytes|
  }

  function At(m: Memory, address: nat): byte
    requires Holds(m, address, 1)
  {
    m.bytes[address - m.base]
  }

  function Poke(m: Memory, address: nat, value: byte): (r: Memory)
    requires Holds(m, address, 1)
    ensures r.base == m.base && |r.bytes| == |m.bytes|
  {
    m.(bytes := m.bytes[address - m.base := value])
  }

  function ReadBytes(m: Memory, address: nat, size: nat): seq<byte>
    requires Holds(m, address, size)
  {
    m.bytes[address - m.base..address - m.base + size]
  }

  function WriteBytes(m: Memory, address: nat, data: seq<byte>): (r: Memory)
    requires Holds(m, address, |data|)
    ensures r.base == m.base && |r.bytes| == |m.bytes|
  {
    var i := address - m.base;
    m.(bytes := m.bytes[..i] + data + m.bytes[i + |data|..])
  }

  /** Two adjacent writes are one. */
  lemma WriteTwice(m: Memory, address: nat, x: seq<byte>, y: seq<byte>)
    requires Holds(m, address, |x| + |y|)
    ensures WriteBytes(WriteBytes(m, address, x), address + |x|, y) == WriteBytes(m, address, x + y)
  {
    assert WriteBytes(WriteBytes(m, address, x), address + |x|, y).bytes == WriteBytes(m, address, x + y).bytes;
  }

  lemma WriteBelow(m: Memory, address: nat, x: seq<byte>, y: seq<byte>)
    requires Holds(m, address, |x| + |y|)
    ensures WriteBytes(WriteBytes(m, address + |x|, y), address, x) == WriteBytes(m, address, x + y)
  {
    assert WriteBytes(WriteBytes(m, address + |x|, y), address, x).bytes == WriteBytes(m, address, x + y).bytes;
  }

  lemma ReadTwice(m: Memory, address: nat, j: nat, k: nat)
    requires Holds(m, address, j + k)
    ensures ReadBytes(m, address, j + k) == ReadBytes(m, address, j) + ReadBytes(m, address + j, k)
  {
  }

  lemma ReadElsewhere(m: Memory, address: nat, data: seq<byte>, other: nat, k: nat)
    requires Holds(m, address, |data|) && Holds(m, other, k) && (address + |data| <= other || other + k <= address)
    ensures ReadBytes(WriteBytes(m, address, data), other, k) == ReadBytes(m, other, k)
  {
  }

  // ----------------------------------------------------------------------
  // Little-endian integers
  // ----------------------------------------------------------------------

  function Pow256(n: nat): (p: nat)
    ensures p > 0
  {
    if n == 0 then 1 else 0x100 * Pow256(n - 1)
  }

  function LittleEndian(bytes: seq<byte>): nat {
    if bytes == [] then 0
    else
      var n := |bytes| - 1;
      LittleEndian(bytes[..n]) + bytes[n] * Pow256(n)
  }

  lemma {:induction false} Pow256Sum(m: nat, n: nat)
    ensures Pow256(m + n) == Pow256(m) * Pow256(n)
  {
    if m > 0 {
      Pow256Sum(m - 1, n);
      assert 0x100 * (Pow256(m - 1) * Pow256(n)) == (0x100 * Pow256(m - 1)) * Pow256(n);
    }
  }

  lemma {:induction false} LittleEndianBelow(bytes: seq<byte>)
    ensures LittleEndian(bytes) < Pow256(|bytes|)
  {
    hide Pow256;
    if bytes != [] {
      var n := |bytes| - 1;
      LittleEndianBelow(bytes[..n]);
      Pow256Next(n + 1);
      TopByte(LittleEndian(bytes[..n]), bytes[n], Pow256(n));
    }
  }

  lemma TopByte(low: nat, top: byte, p: nat)
    requires low < p
    ensures low + top * p < 0x100 * p
  {
    var rest: nat := 0xff - top;
    assert 0xff * p == (top + rest) * p == top * p + rest * p;
    ProductIsNatural(rest, p);
  }

  lemma ProductIsNatural(a: nat, b: nat)
    ensures a * b >= 0
  {
  }

  /** Taking an integer apart gives the bytes it was made of. */
  lemma {:induction false} BytesOfLittleEndian(bytes: seq<byte>, k: nat)
    requires k < |bytes|
    ensures LittleEndian(bytes) / Pow256(k) % 0x100 == bytes[k]
  {
    hide Pow256;
    var n := |bytes| - 1;
    var low, top := LittleEndian(bytes[..n]), bytes[n];
    if k < n {
      BytesOfLittleEndian(bytes[..n], k);
      Pow256Sum(k, n - k);
      Pow256Next(n - k);
      assert top * Pow256(n) == top * (Pow256(k) * (0x100 * Pow256(n - k - 1)));
      MultipleOfByte(low, top, Pow256(k), Pow256(n - k - 1));
    } else {
      LittleEndianBelow(bytes[..n]);
      ModuloUnique(LittleEndian(bytes), top, low, Pow256(n));
    }
  }

  lemma Pow256Next(n: nat)
    requires n > 0
    ensures Pow256(n) == 0x100 * Pow256(n - 1)
  {
  }
}
