/**
 * The zero-copy readers `PacketRef` and `PacketListRef`. In the library they
 * hold a raw pointer into the list's bytes; here they hold the bytes and an
 * offset from the list's base. They read without any bounds check, so each
 * reader requires that the bytes it loads lie inside the buffer: a list
 * handed over by CoreMIDI is trusted to be consistent with its own count and
 * length fields.
 */
module PacketViews {
  import opened Wrappers
  import opened Bytes
  import opened Layouts
  import opened PacketFormat

  /** A view of the packet that starts at offset pos of bytes. */
  datatype PacketRef = PacketRef(bytes: seq<u8>, pos: nat) {

    /** The 10 header bytes lie inside the buffer. */
    predicate HeaderReadable() {
      pos + PacketHeaderSize <= |bytes|
    }

    /** The u64 at the packet's first 8 bytes (an unaligned load). */
    function Timestamp(): (t: u64)
      requires pos + 8 <= |bytes|
      ensures LeBytes(t, 8) == bytes[pos..pos + 8]
    {
      Pow256Widths();
      LeBytesOfValue(bytes[pos..pos + 8]);
      LeValue(bytes[pos..pos + 8])
    }

    /** The u16 at offsets 8 and 9 of the packet (an unaligned load). */
    function DataLength(): (n: u16)
      requires HeaderReadable()
      ensures LeBytes(n, 2) == bytes[pos + 8..pos + PacketHeaderSize]
    {
      Pow256Widths();
      LeBytesOfValue(bytes[pos + 8..pos + PacketHeaderSize]);
      LeValue(bytes[pos + 8..pos + PacketHeaderSize])
    }

    /** The header and the data bytes it announces lie inside the buffer. */
    predicate Readable() {
      HeaderReadable() && pos + PacketHeaderSize + DataLength() <= |bytes|
    }

    /** The data bytes, borrowed: those following the 10-byte header. */
    function Data(): (d: seq<u8>)
      requires Readable()
      ensures |d| == DataLength()
    {
      bytes[pos + PacketHeaderSize..pos + PacketHeaderSize + DataLength()]
    }

    /**
     * The view of the following packet: 10 + length bytes on, rounded up to a
     * multiple of 4 under Aligned4. Only the header has to be readable.
     */
    function Next(layout: Layout): (r: PacketRef)
      requires HeaderReadable()
      ensures r.bytes == bytes
      ensures layout == Packed ==> r.pos == pos + PacketHeaderSize + DataLength()
      ensures layout == Aligned4 ==> r.pos % 4 == 0
      ensures layout == Aligned4 ==> pos + PacketHeaderSize + DataLength() <= r.pos < pos + PacketHeaderSize + DataLength() + 4
    {
      PacketRef(bytes, Align(layout, pos + PacketHeaderSize + DataLength()))
    }

    /** The packet as a value: what the view reads. */
    function ToPacket(): (p: Packet)
      requires Readable()
      ensures Encodable(p)
    {
      Packet(Timestamp(), Data())
    }
  }

  /**
   * The packets the iterator yields when n packets remain and the next one is
   * at r; None when some packet among them is not inside the buffer.
   */
  function DecodeRecords(layout: Layout, r: PacketRef, n: nat): (res: Option<seq<Packet>>)
    ensures res.Some? ==> |res.value| == n
    decreases n
  {
    if n == 0 then Some([])
    else if !r.Readable() then None
    else
      match DecodeRecords(layout, r.Next(layout), n - 1)
      case None => None
      case Some(rest) => Some([r.ToPacket()] + rest)
  }

  /** A view of a whole packet list: the count header at offset 0, then the packets. */
  datatype PacketListRef = PacketListRef(bytes: seq<u8>) {

    predicate HeaderReadable() {
      ListHeaderSize <= |bytes|
    }

    /** The u32 packet count at offset 0 (an aligned load). */
    function Length(): (n: u32)
      requires HeaderReadable()
      ensures LeBytes(n, 4) == bytes[..ListHeaderSize]
    {
      Pow256Widths();
      LeBytesOfValue(bytes[..ListHeaderSize]);
      LeValue(bytes[..ListHeaderSize])
    }

    /** Every packet of the list, if the list is inside its buffer. */
    function Packets(layout: Layout): (res: Option<seq<Packet>>)
      requires HeaderReadable()
      ensures res.Some? ==> |res.value| == Length()
    {
      DecodeRecords(layout, PacketRef(bytes, ListHeaderSize), Length())
    }
  }

  /** A view placed on a stored packet reads back its timestamp, length and data. */
  lemma ReadRecord(buf: seq<u8>, off: nat, p: Packet)
    requires RecordAt(buf, off, p)
    ensures PacketRef(buf, off).Readable()
    ensures PacketRef(buf, off).Timestamp() == p.timestamp
    ensures PacketRef(buf, off).DataLength() == |p.data|
    ensures PacketRef(buf, off).Data() == p.data
    ensures PacketRef(buf, off).ToPacket() == p
  {
    var r := PacketRef(buf, off);
    var h := PacketHeader(p);
    Pow256Widths();
    assert buf[off..off + 8] == h[..8];
    assert buf[off + 8..off + PacketHeaderSize] == h[8..];
    LeBytesInjective(r.Timestamp(), p.timestamp, 8);
    LeBytesInjective(r.DataLength(), |p.data|, 2);
  }

  /**
   * The reader finds the next packet where the builder put it: from a 4-aligned
   * position the step is exactly the size the builder reserved.
   */
  lemma NextMatchesReserved(layout: Layout, buf: seq<u8>, off: nat, p: Packet)
    requires RecordAt(buf, off, p)
    requires layout == Aligned4 ==> off % 4 == 0
    ensures PacketRef(buf, off).Next(layout).pos == off + RecordSize(layout, |p.data|)
  {
    ReadRecord(buf, off, p);
    AlignFromAligned(layout, off, |p.data|);
  }

  /** Decoding stored packets gives them back, in order. */
  lemma {:induction false} DecodeOfRecords(layout: Layout, buf: seq<u8>, off: nat, ps: seq<Packet>)
    requires RecordsAt(layout, buf, off, ps)
    ensures DecodeRecords(layout, PacketRef(buf, off), |ps|) == Some(ps)
    decreases |ps|
  {
    if ps != [] {
      var r := PacketRef(buf, off);
      ReadRecord(buf, off, ps[0]);
      var next := NextPos(layout, off, ps[0]);
      assert r.Next(layout) == PacketRef(buf, next);
      DecodeOfRecords(layout, buf, next, ps[1..]);
      assert DecodeRecords(layout, r, |ps|) == Some([r.ToPacket()] + ps[1..]);
      assert ps == [ps[0]] + ps[1..];
    }
  }

  /** Whatever decodes successfully is stored where the layout says. */
  lemma {:induction false} RecordsOfDecode(layout: Layout, buf: seq<u8>, off: nat, n: nat, ps: seq<Packet>)
    requires DecodeRecords(layout, PacketRef(buf, off), n) == Some(ps)
    ensures |ps| == n && RecordsAt(layout, buf, off, ps)
    decreases n
  {
    if n > 0 {
      var r := PacketRef(buf, off);
      assert r.Readable();
      var next := r.Next(layout);
      var rest := DecodeRecords(layout, next, n - 1).value;
      assert ps == [r.ToPacket()] + rest;
      ReadableRecordAt(layout, buf, off);
      RecordsOfDecode(layout, buf, next.pos, n - 1, rest);
      RecordsAtCons(layout, buf, off, r.ToPacket(), rest);
    }
  }

  /** A readable view sits on a stored packet: the one it reads. */
  lemma ReadableRecordAt(layout: Layout, buf: seq<u8>, off: nat)
    requires PacketRef(buf, off).Readable()
    ensures RecordAt(buf, off, PacketRef(buf, off).ToPacket())
    ensures NextPos(layout, off, PacketRef(buf, off).ToPacket()) == PacketRef(buf, off).Next(layout).pos
  {
    Pow256Widths();
    assert buf[off..off + PacketHeaderSize] == buf[off..off + 8] + buf[off + 8..off + PacketHeaderSize];
  }

  /** A list holding fewer than 2^32 packets decodes to exactly those packets. */
  lemma ListRoundTrip(layout: Layout, buf: seq<u8>, ps: seq<Packet>)
    requires IsList(layout, buf, ps)
    requires |ps| < CountLimit
    ensures PacketListRef(buf).Length() == |ps|
    ensures PacketListRef(buf).Packets(layout) == Some(ps)
  {
    var list := PacketListRef(buf);
    Pow256Widths();
    assert LeBytes(list.Length(), 4) == LeBytes(|ps|, 4);
    LeBytesInjective(list.Length(), |ps|, 4);
    DecodeOfRecords(layout, buf, ListHeaderSize, ps);
  }

  /** Decoding is exactly the inverse of being a list: both directions. */
  lemma DecodeIsList(layout: Layout, buf: seq<u8>, ps: seq<Packet>)
    requires ListHeaderSize <= |buf| && |ps| < CountLimit
    ensures PacketListRef(buf).Packets(layout) == Some(ps) <==> IsList(layout, buf, ps)
  {
    if PacketListRef(buf).Packets(layout) == Some(ps) {
      DecodedIsList(layout, buf, ps);
    }
    if IsList(layout, buf, ps) {
      ListRoundTrip(layout, buf, ps);
    }
  }

  lemma DecodedIsList(layout: Layout, buf: seq<u8>, ps: seq<Packet>)
    requires ListHeaderSize <= |buf|
    requires PacketListRef(buf).Packets(layout) == Some(ps)
    ensures IsList(layout, buf, ps)
  {
    var n := PacketListRef(buf).Length();
    RecordsOfDecode(layout, buf, ListHeaderSize, n, ps);
    CountHeaderOfLength(buf, |ps|);
  }

  /** The count header read as n is the header of a list of n packets. */
  lemma CountHeaderOfLength(buf: seq<u8>, n: nat)
    requires ListHeaderSize <= |buf| && PacketListRef(buf).Length() == n
    ensures buf[..ListHeaderSize] == CountHeader(n)
  {
  }

  /** Decoding the canonical encoding gives the packets back. */
  lemma DecodeEncode(layout: Layout, ps: seq<Packet>)
    requires AllEncodable(ps) && |ps| < CountLimit
    ensures PacketListRef(EncodeList(layout, ps)).Packets(layout) == Some(ps)
  {
    EncodeListIsList(layout, ps);
    ListRoundTrip(layout, EncodeList(layout, ps), ps);
  }

  /**
   * Re-encoding a decoded list gives a list that decodes to the same packets;
   * under Packed a list with no trailing bytes is reproduced byte for byte.
   */
  lemma ReEncode(layout: Layout, buf: seq<u8>, ps: seq<Packet>)
    requires ListHeaderSize <= |buf|
    requires PacketListRef(buf).Packets(layout) == Some(ps)
    ensures AllEncodable(ps)
    ensures PacketListRef(EncodeList(layout, ps)).Packets(layout) == Some(ps)
    ensures layout == Packed && |buf| == ListHeaderSize + TotalSize(Packed, ps) ==> EncodeList(Packed, ps) == buf
  {
    var list := PacketListRef(buf);
    RecordsOfDecode(layout, buf, ListHeaderSize, list.Length(), ps);
    RecordsAllEncodable(layout, buf, ListHeaderSize, ps);
    DecodeEncode(layout, ps);
    if layout == Packed && |buf| == ListHeaderSize + TotalSize(Packed, ps) {
      DecodedIsList(layout, buf, ps);
      PackedListUnique(buf, ps);
    }
  }

  lemma {:induction false} RecordsAllEncodable(layout: Layout, buf: seq<u8>, off: nat, ps: seq<Packet>)
    requires RecordsAt(layout, buf, off, ps)
    ensures AllEncodable(ps)
    decreases |ps|
  {
    if ps != [] {
      RecordsAllEncodable(layout, buf, NextPos(layout, off, ps[0]), ps[1..]);
      forall q <- ps ensures Encodable(q) {
        if q != ps[0] {
          assert q in ps[1..];
        }
      }
    }
  }
}
