/**
 * The byte layout of a CoreMIDI packet list, as Apple's headers define it
 * (both structures packed with 4-byte packing):
 *
 *   offset 0   u32 number of packets
 *   offset 4   the packets, back to back; each one is
 *                u64 timestamp, u16 data length, `length` data bytes,
 *              and on ARM the next packet starts at the next multiple of 4.
 *
 * This module states the layout as predicates over a byte sequence (what a
 * list holding given packets looks like) and gives one canonical encoding
 * (padding bytes zero). Padding bytes have no specified contents: the
 * predicates say nothing about them.
 */
module PacketFormat {
  import opened Bytes
  import opened Layouts

  /** The length field is a u16. */
  const MaxDataLength: nat := 0xFFFF

  /** The packet count is a u32 and wraps around on overflow. */
  const CountLimit: nat := 0x1_0000_0000

  /** One timestamped MIDI event batch: opaque data bytes sent at one time. */
  datatype Packet = Packet(timestamp: u64, data: seq<u8>)

  /** The data length fits in the u16 length field. */
  predicate Encodable(p: Packet) {
    |p.data| <= MaxDataLength
  }

  predicate AllEncodable(ps: seq<Packet>) {
    forall p <- ps :: Encodable(p)
  }

  /** The 10 header bytes of a packet: its timestamp, then its data length. */
  function PacketHeader(p: Packet): (h: seq<u8>)
    requires Encodable(p)
    ensures |h| == PacketHeaderSize
  {
    Pow256Widths();
    LeBytes(p.timestamp, 8) + LeBytes(|p.data|, 2)
  }

  /** The 4 bytes of the count header of a list holding n packets. */
  function CountHeader(n: nat): (h: seq<u8>)
    ensures |h| == ListHeaderSize
  {
    Pow256Widths();
    LeBytes(n % CountLimit, 4)
  }

  /** One packet as the builder lays it out, with its padding (if any) zeroed. */
  function EncodeRecord(layout: Layout, p: Packet): (r: seq<u8>)
    requires Encodable(p)
    ensures |r| == RecordSize(layout, |p.data|)
    ensures r[..PacketHeaderSize] == PacketHeader(p)
    ensures r[PacketHeaderSize..PacketHeaderSize + |p.data|] == p.data
  {
    var raw := PacketHeader(p) + p.data;
    assert raw[PacketHeaderSize..] == p.data;
    raw + Zeros(RecordSize(layout, |p.data|) - |raw|)
  }

  /** Bytes the builder reserves for the packets ps, padding included. */
  function TotalSize(layout: Layout, ps: seq<Packet>): nat
  {
    if ps == [] then 0 else RecordSize(layout, |ps[0].data|) + TotalSize(layout, ps[1..])
  }

  function EncodeRecords(layout: Layout, ps: seq<Packet>): (r: seq<u8>)
    requires AllEncodable(ps)
    ensures |r| == TotalSize(layout, ps)
  {
    if ps == [] then [] else EncodeRecord(layout, ps[0]) + EncodeRecords(layout, ps[1..])
  }

  /** The canonical packet list holding ps: the count header, then every packet. */
  function EncodeList(layout: Layout, ps: seq<Packet>): (r: seq<u8>)
    requires AllEncodable(ps)
    ensures |r| == ListHeaderSize + TotalSize(layout, ps)
  {
    CountHeader(|ps|) + EncodeRecords(layout, ps)
  }

  /** The packet p is stored at offset off of buf (its padding is not looked at). */
  predicate RecordAt(buf: seq<u8>, off: nat, p: Packet) {
    && Encodable(p)
    && off + PacketHeaderSize + |p.data| <= |buf|
    && buf[off..off + PacketHeaderSize] == PacketHeader(p)
    && buf[off + PacketHeaderSize..off + PacketHeaderSize + |p.data|] == p.data
  }

  /** Where the packet after p starts when p starts at off. */
  function NextPos(layout: Layout, off: nat, p: Packet): nat {
    Align(layout, off + PacketHeaderSize + |p.data|)
  }

  /** The packets ps are stored one after the other from offset off of buf. */
  predicate RecordsAt(layout: Layout, buf: seq<u8>, off: nat, ps: seq<Packet>)
    decreases |ps|
  {
    ps == [] || (RecordAt(buf, off, ps[0]) && RecordsAt(layout, buf, NextPos(layout, off, ps[0]), ps[1..]))
  }

  /** The offset just past the last of the packets ps (padding included) when the first starts at off. */
  function EndPos(layout: Layout, off: nat, ps: seq<Packet>): nat
    decreases |ps|
  {
    if ps == [] then off else EndPos(layout, NextPos(layout, off, ps[0]), ps[1..])
  }

  /** The offsets at which the packets ps start, the first one at off. */
  function Positions(layout: Layout, off: nat, ps: seq<Packet>): (r: seq<nat>)
    ensures |r| == |ps|
    decreases |ps|
  {
    if ps == [] then [] else [off] + Positions(layout, NextPos(layout, off, ps[0]), ps[1..])
  }

  /** buf is a packet list holding exactly the packets ps. */
  predicate IsList(layout: Layout, buf: seq<u8>, ps: seq<Packet>) {
    && ListHeaderSize <= |buf|
    && buf[..ListHeaderSize] == CountHeader(|ps|)
    && RecordsAt(layout, buf, ListHeaderSize, ps)
  }

  /** From a 4-aligned start, the reader's positions add up to the builder's reservations. */
  lemma {:induction false} EndPosIsTotalSize(layout: Layout, off: nat, ps: seq<Packet>)
    requires layout == Aligned4 ==> off % 4 == 0
    ensures EndPos(layout, off, ps) == off + TotalSize(layout, ps)
    decreases |ps|
  {
    if ps != [] {
      AlignFromAligned(layout, off, |ps[0].data|);
      EndPosIsTotalSize(layout, NextPos(layout, off, ps[0]), ps[1..]);
    }
  }

  /**
   * Under Aligned4 every packet starts at a multiple of 4; under Packed each
   * packet starts right after the previous packet's data.
   */
  lemma {:induction false} PositionsFollowLayout(layout: Layout, off: nat, ps: seq<Packet>)
    requires layout == Aligned4 ==> off % 4 == 0
    ensures layout == Aligned4 ==> forall i :: 0 <= i < |ps| ==> Positions(layout, off, ps)[i] % 4 == 0
    ensures layout == Packed ==> forall i :: 0 <= i < |ps| - 1 ==>
      Positions(layout, off, ps)[i + 1] == Positions(layout, off, ps)[i] + PacketHeaderSize + |ps[i].data|
    decreases |ps|
  {
    if ps != [] {
      var next := NextPos(layout, off, ps[0]);
      PositionsFollowLayout(layout, next, ps[1..]);
      var r := Positions(layout, off, ps);
      assert r == [off] + Positions(layout, next, ps[1..]);
      if layout == Packed {
        forall i | 0 <= i < |ps| - 1
          ensures r[i + 1] == r[i] + PacketHeaderSize + |ps[i].data|
        {
          if i > 0 {
            assert ps[1..][i - 1] == ps[i];
          }
        }
      }
    }
  }

  /** The packets are read at the positions listed by Positions. */
  lemma {:induction false} RecordsAtPositions(layout: Layout, buf: seq<u8>, off: nat, ps: seq<Packet>)
    requires RecordsAt(layout, buf, off, ps)
    ensures forall i :: 0 <= i < |ps| ==> RecordAt(buf, Positions(layout, off, ps)[i], ps[i])
    decreases |ps|
  {
    if ps != [] {
      var next := NextPos(layout, off, ps[0]);
      RecordsAtPositions(layout, buf, next, ps[1..]);
      forall i | 0 <= i < |ps|
        ensures RecordAt(buf, Positions(layout, off, ps)[i], ps[i])
      {
        if i > 0 {
          assert Positions(layout, off, ps)[i] == Positions(layout, next, ps[1..])[i - 1];
          assert ps[1..][i - 1] == ps[i];
        }
      }
    }
  }

  /** Bytes at or after off are the same in buf and in the longer buffer buf'. */
  predicate SameFrom(buf: seq<u8>, buf': seq<u8>, off: nat) {
    |buf| <= |buf'| && forall i :: off <= i < |buf| ==> buf'[i] == buf[i]
  }

  /** Writing only before off or past the end of buf leaves the packets from off intact. */
  lemma {:induction false} RecordsAtFrame(layout: Layout, buf: seq<u8>, buf': seq<u8>, off: nat, ps: seq<Packet>)
    requires RecordsAt(layout, buf, off, ps)
    requires SameFrom(buf, buf', off)
    ensures RecordsAt(layout, buf', off, ps)
    decreases |ps|
  {
    if ps != [] {
      var p := ps[0];
      assert buf'[off..off + PacketHeaderSize] == buf[off..off + PacketHeaderSize];
      assert buf'[off + PacketHeaderSize..off + PacketHeaderSize + |p.data|]
          == buf[off + PacketHeaderSize..off + PacketHeaderSize + |p.data|];
      var next := NextPos(layout, off, p);
      if ps[1..] != [] {
        RecordsAtFrame(layout, buf, buf', next, ps[1..]);
      }
    }
  }

  /** A packet stored where the packets ps end extends them by one. */
  lemma {:induction false} RecordsAtAppend(layout: Layout, buf: seq<u8>, off: nat, ps: seq<Packet>, p: Packet)
    requires RecordsAt(layout, buf, off, ps)
    requires RecordAt(buf, EndPos(layout, off, ps), p)
    ensures RecordsAt(layout, buf, off, ps + [p])
    decreases |ps|
  {
    if ps == [] {
      assert [p][1..] == [];
    } else {
      RecordsAtAppend(layout, buf, NextPos(layout, off, ps[0]), ps[1..], p);
      assert (ps + [p])[1..] == ps[1..] + [p];
    }
  }

  /** The canonical encoding stores each packet where the layout says it is. */
  lemma {:induction false} EncodedRecordsAt(layout: Layout, pre: seq<u8>, ps: seq<Packet>)
    requires AllEncodable(ps)
    requires layout == Aligned4 ==> |pre| % 4 == 0
    ensures RecordsAt(layout, pre + EncodeRecords(layout, ps), |pre|, ps)
    decreases |ps|
  {
    if ps != [] {
      var rec := EncodeRecord(layout, ps[0]);
      var tail := EncodeRecords(layout, ps[1..]);
      AllEncodableTail(ps);
      EncodedRecordsAt(layout, pre + rec, ps[1..]);
      EncodedStep(layout, pre, rec, tail, ps[0], ps[1..]);
      assert [ps[0]] + ps[1..] == ps;
      assert EncodeRecords(layout, ps) == rec + tail;
    }
  }

  /** One encoded packet in front of stored packets extends them by one. */
  lemma EncodedStep(layout: Layout, pre: seq<u8>, rec: seq<u8>, tail: seq<u8>, p: Packet, ps: seq<Packet>)
    requires Encodable(p) && rec == EncodeRecord(layout, p)
    requires layout == Aligned4 ==> |pre| % 4 == 0
    requires RecordsAt(layout, (pre + rec) + tail, |pre + rec|, ps)
    ensures RecordsAt(layout, pre + (rec + tail), |pre|, [p] + ps)
  {
    var buf := pre + rec + tail;
    assert pre + (rec + tail) == buf;
    EncodedRecordAt(pre, rec, tail, layout, p);
    AlignFromAligned(layout, |pre|, |p.data|);
    RecordsAtCons(layout, buf, |pre|, p, ps);
  }

  /** A stored packet followed by stored packets is a longer run of stored packets. */
  lemma RecordsAtCons(layout: Layout, buf: seq<u8>, off: nat, p: Packet, ps: seq<Packet>)
    requires RecordAt(buf, off, p)
    requires RecordsAt(layout, buf, NextPos(layout, off, p), ps)
    ensures RecordsAt(layout, buf, off, [p] + ps)
  {
  }


  lemma AllEncodableTail(ps: seq<Packet>)
    requires AllEncodable(ps) && ps != []
    ensures AllEncodable(ps[1..])
  {
  }

  lemma EncodedRecordAt(pre: seq<u8>, rec: seq<u8>, post: seq<u8>, layout: Layout, p: Packet)
    requires Encodable(p) && rec == EncodeRecord(layout, p)
    ensures RecordAt(pre + rec + post, |pre|, p)
  {
  }

  /** The canonical encoding of ps is a packet list holding ps. */
  lemma EncodeListIsList(layout: Layout, ps: seq<Packet>)
    requires AllEncodable(ps)
    ensures IsList(layout, EncodeList(layout, ps), ps)
  {
    EncodedRecordsAt(layout, CountHeader(|ps|), ps);
  }

  /**
   * Without padding the layout leaves no byte unspecified: records of ps that
   * fill buf from off to its end are exactly their canonical encoding.
   */
  lemma {:induction false} PackedRecordsUnique(buf: seq<u8>, off: nat, ps: seq<Packet>)
    requires RecordsAt(Packed, buf, off, ps)
    requires off + TotalSize(Packed, ps) == |buf|
    ensures AllEncodable(ps) && buf[off..] == EncodeRecords(Packed, ps)
    decreases |ps|
  {
    if ps != [] {
      var p := ps[0];
      var next := off + PacketHeaderSize + |p.data|;
      PackedRecordsUnique(buf, next, ps[1..]);
      assert AllEncodable(ps) by {
        forall q <- ps ensures Encodable(q) {
          if q != p {
            assert q in ps[1..];
          }
        }
      }
      var rec := EncodeRecord(Packed, p);
      assert buf[off..next] == rec by {
        assert rec == PacketHeader(p) + p.data;
        assert buf[off..next] == buf[off..off + PacketHeaderSize] + buf[off + PacketHeaderSize..next];
      }
      assert buf[off..] == buf[off..next] + buf[next..];
    }
  }

  /** Under Packed a packet list holding ps with no trailing bytes is the canonical encoding of ps. */
  lemma PackedListUnique(buf: seq<u8>, ps: seq<Packet>)
    requires IsList(Packed, buf, ps)
    requires |buf| == ListHeaderSize + TotalSize(Packed, ps)
    ensures AllEncodable(ps) && buf == EncodeList(Packed, ps)
  {
    PackedRecordsUnique(buf, ListHeaderSize, ps);
    assert buf == buf[..ListHeaderSize] + buf[ListHeaderSize..];
  }
}
