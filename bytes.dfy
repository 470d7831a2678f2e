/** Optional values, as the iterator and the storage requests return them. */
module Wrappers {
  datatype Option<+T> = None | Some(value: T)
}

/**
 * Fixed-width unsigned integers and their in-memory byte representation.
 *
 * The codec copies integers into the buffer byte by byte in the native order
 * of the target; both targets of the library (x86-64 and ARM macOS) are
 * little-endian, so an n-byte integer is stored least significant byte first.
 */
module Bytes {

  type u8 = x: int | 0 <= x < 0x100
  type u16 = x: int | 0 <= x < 0x1_0000
  type u32 = x: int | 0 <= x < 0x1_0000_0000
  type u64 = x: int | 0 <= x < 0x1_0000_0000_0000_0000

  /** Number of distinct values an n-byte unsigned integer can hold. */
  function Pow256(n: nat): (p: nat)
    ensures p >= 1
  {
    if n == 0 then 1 else 256 * Pow256(n - 1)
  }

  lemma Pow256Widths()
    ensures Pow256(2) == 0x1_0000
    ensures Pow256(4) == 0x1_0000_0000
    ensures Pow256(8) == 0x1_0000_0000_0000_0000
  {
  }

  /** Byte number i of x, counting from the least significant. */
  function ByteAt(x: nat, i: nat): u8
  {
    if i == 0 then x % 256 else ByteAt(x / 256, i - 1)
  }

  /** The n bytes that store x, least significant first. */
  function LeBytes(x: nat, n: nat): (s: seq<u8>)
    requires x < Pow256(n)
    ensures |s| == n
  {
    seq(n, i requires 0 <= i < n => ByteAt(x, i))
  }

  /** Dropping the lowest byte of x's representation leaves that of x / 256. */
  lemma LeBytesTail(x: nat, n: nat)
    requires 0 < n && x < Pow256(n)
    ensures LeBytes(x, n)[0] == x % 256
    ensures LeBytes(x, n)[1..] == LeBytes(x / 256, n - 1)
  {
  }

  /** The unsigned integer stored in the bytes s, least significant first. */
  function LeValue(s: seq<u8>): (x: nat)
    ensures x < Pow256(|s|)
  {
    if s == [] then 0 else s[0] + 256 * LeValue(s[1..])
  }

  /** Reading back the bytes written for x gives x. */
  lemma {:induction false} LeValueOfBytes(x: nat, n: nat)
    requires x < Pow256(n)
    ensures LeValue(LeBytes(x, n)) == x
  {
    if n > 0 {
      LeValueOfBytes(x / 256, n - 1);
      LeBytesTail(x, n);
    }
  }

  /** Writing back the value read from s gives the bytes s. */
  lemma {:induction false} LeBytesOfValue(s: seq<u8>)
    ensures LeBytes(LeValue(s), |s|) == s
  {
    if s != [] {
      LeBytesOfValue(s[1..]);
      var v := LeValue(s[1..]);
      assert (s[0] + 256 * v) % 256 == s[0];
      assert (s[0] + 256 * v) / 256 == v;
      LeBytesTail(LeValue(s), |s|);
      assert s == [s[0]] + s[1..];
    }
  }

  /** Two values with the same representation are equal: the encoding is injective. */
  lemma LeBytesInjective(x: nat, y: nat, n: nat)
    requires x < Pow256(n) && y < Pow256(n)
    requires LeBytes(x, n) == LeBytes(y, n)
    ensures x == y
  {
    LeValueOfBytes(x, n);
    LeValueOfBytes(y, n);
  }

  /** A run of n zero bytes, as a freshly cleared header holds. */
  function Zeros(n: nat): (s: seq<u8>)
    ensures |s| == n && forall i :: 0 <= i < n ==> s[i] == 0
  {
    seq(n, _ => 0)
  }

  /** The zero value is stored as all-zero bytes. */
  lemma LeBytesOfZero(n: nat)
    ensures LeBytes(0, n) == Zeros(n)
  {
    forall i | 0 <= i < n ensures LeBytes(0, n)[i] == 0 {
      ByteAtZero(i);
    }
  }

  lemma {:induction false} ByteAtZero(i: nat)
    ensures ByteAt(0, i) == 0
  {
    if i > 0 {
      ByteAtZero(i - 1);
    }
  }
}
