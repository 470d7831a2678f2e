/**
 * The padding rule between packets. The library picks it at build time from
 * the target architecture: on ARM every packet starts at a multiple of 4 from
 * the list's base, on x86 packets abut. The model threads the choice through
 * as a value instead of branching on the architecture.
 */
module Layouts {

  /** `Packed` stands for the x86 build, `Aligned4` for the ARM build. */
  datatype Layout = Packed | Aligned4

  /** A packet header holds an 8-byte timestamp and a 2-byte data length. */
  const PacketHeaderSize: nat := 10

  /** A packet list starts with a 4-byte packet count. */
  const ListHeaderSize: nat := 4

  /** The smallest multiple of 4 that is at least n: the source's `(n + 3) & !3`. */
  function RoundUp4(n: nat): (r: nat)
    ensures r % 4 == 0
    ensures n <= r < n + 4
  {
    (n + 3) / 4 * 4
  }

  /** RoundUp4 is the one multiple of 4 within three bytes above n. */
  lemma RoundUp4Unique(n: nat, r: nat)
    requires r % 4 == 0 && n <= r < n + 4
    ensures r == RoundUp4(n)
  {
  }

  /** The position the layout lets a packet start at, given where the previous one ended. */
  function Align(layout: Layout, end: nat): (r: nat)
    ensures layout == Packed ==> r == end
    ensures layout == Aligned4 ==> r % 4 == 0 && end <= r < end + 4
  {
    match layout
    case Packed => end
    case Aligned4 => RoundUp4(end)
  }

  /**
   * The number of bytes the builder reserves for a packet with len data bytes:
   * header and data, rounded up to a multiple of 4 on ARM.
   */
  function RecordSize(layout: Layout, len: nat): (r: nat)
    ensures PacketHeaderSize + len <= r
    ensures layout == Packed ==> r == PacketHeaderSize + len
    ensures layout == Aligned4 ==> r % 4 == 0 && r < PacketHeaderSize + len + 4
  {
    Align(layout, PacketHeaderSize + len)
  }

  /**
   * The reader rounds the absolute address of the next packet, the builder the
   * size it reserves. From a 4-aligned position the two agree.
   */
  lemma {:induction false} AlignFromAligned(layout: Layout, pos: nat, len: nat)
    requires layout == Aligned4 ==> pos % 4 == 0
    ensures Align(layout, pos + PacketHeaderSize + len) == pos + RecordSize(layout, len)
  {
  }

  /**
   * The base of a list is 4-aligned, so rounding an absolute address is the
   * same as rounding the offset from the base.
   */
  lemma AbsoluteRounding(base: nat, offset: nat)
    requires base % 4 == 0
    ensures RoundUp4(base + offset) == base + RoundUp4(offset)
  {
  }
}
