/**
 * Concrete uses of the builder and the readers, with their results proved:
 * the library's own unit tests, and the two places where the layouts and the
 * fixed storage differ visibly.
 */
module PacketScenarios {
  import opened Wrappers
  import opened Bytes
  import opened Layouts
  import opened PacketFormat
  import opened PacketViews
  import opened PacketIterators
  import opened PacketStorage
  import opened PacketBuffers

  /** A new dynamic buffer holds the count header alone, zero. */
  method NewBuffer(layout: Layout) returns (bytes: seq<u8>)
    ensures bytes == [0, 0, 0, 0]
  {
    var b := PacketBuffer.Dyn(layout);
    var list := b.AsRef();
    bytes := list.bytes;
  }

  /** Under Packed the whole list is determined by its packets: one packet, 17 bytes. */
  lemma OnePacketBytes(buf: seq<u8>)
    requires IsList(Packed, buf, [Packet(0x0102030405060708, [0x90, 0x40, 0x7f])])
    requires |buf| == ListHeaderSize + TotalSize(Packed, [Packet(0x0102030405060708, [0x90, 0x40, 0x7f])])
    ensures buf == [0x01, 0x00, 0x00, 0x00,
                    0x08, 0x07, 0x06, 0x05, 0x04, 0x03, 0x02, 0x01,
                    0x03, 0x00,
                    0x90, 0x40, 0x7f]
  {
    var p := Packet(0x0102030405060708, [0x90, 0x40, 0x7f]);
    PackedListUnique(buf, [p]);
    Pow256Widths();
    assert CountHeader(1) == [1, 0, 0, 0];
    assert PacketHeader(p) == [0x08, 0x07, 0x06, 0x05, 0x04, 0x03, 0x02, 0x01, 0x03, 0x00];
    assert EncodeRecord(Packed, p) == PacketHeader(p) + p.data;
    assert EncodeRecords(Packed, [p]) == EncodeRecord(Packed, p) + EncodeRecords(Packed, []);
  }

  /** The x86 build of a list holding one 3-byte packet, as the library's test spells it out. */
  method WithDataPacked() returns (bytes: seq<u8>)
    ensures bytes == [0x01, 0x00, 0x00, 0x00,
                      0x08, 0x07, 0x06, 0x05, 0x04, 0x03, 0x02, 0x01,
                      0x03, 0x00,
                      0x90, 0x40, 0x7f]
  {
    var b := PacketBuffer.Dyn(Packed);
    var ok := b.WithData(0x0102030405060708, [0x90, 0x40, 0x7f]);
    var list := b.AsRef();
    bytes := list.bytes;
    OnePacketBytes(bytes);
  }

  /** Four packets pushed: the count header says 4, under either layout. */
  method FourPackets(layout: Layout) returns (n: u32)
    ensures n == 4
  {
    var b := PacketBuffer.Dyn(layout);
    var ok := b.WithData(0, [0x90, 0x40, 0x7f]);
    ok := b.WithData(0, [0x91, 0x40, 0x7f]);
    ok := b.WithData(0, [0x80, 0x40, 0x7f]);
    ok := b.WithData(0, [0x81, 0x40, 0x7f]);
    var list := b.AsRef();
    n := list.Length();
  }

  /**
   * After a packet with 3 data bytes, the next packet starts at offset 17 of
   * the list under Packed and at offset 20 under Aligned4.
   */
  method SecondPacketOffset(layout: Layout) returns (pos: nat)
    ensures layout == Packed ==> pos == 17
    ensures layout == Aligned4 ==> pos == 20
  {
    var p := Packet(0, [0x90, 0x40, 0x7f]);
    var q := Packet(0, [0xf0, 0x7e, 0x7f, 0x06, 0x01]);
    var list := TwoPackets(layout);
    var it := new PacketListIterator(list, layout);
    assert it.Rest() == Some([p, q]);
    var first := it.Next();
    var second := it.Next();
    pos := second.value.pos;
    SecondPosition(layout, first.value, p);
  }

  /** A dynamic buffer after pushing a 3-byte and then a 5-byte packet, viewed as a list. */
  method TwoPackets(layout: Layout) returns (list: PacketListRef)
    ensures list.HeaderReadable()
    ensures list.Packets(layout) == Some([Packet(0, [0x90, 0x40, 0x7f]), Packet(0, [0xf0, 0x7e, 0x7f, 0x06, 0x01])])
  {
    var p := Packet(0, [0x90, 0x40, 0x7f]);
    var q := Packet(0, [0xf0, 0x7e, 0x7f, 0x06, 0x01]);
    var b := PacketBuffer.Dyn(layout);
    var ok := b.PushPacket(p.timestamp, p.data);
    ok := b.PushPacket(q.timestamp, q.data);
    assert b.Packets == [p, q];
    list := b.AsRef();
  }

  /** Where the reader steps to from a 3-byte packet at offset 4. */
  lemma SecondPosition(layout: Layout, r: PacketRef, p: Packet)
    requires r.pos == ListHeaderSize && r.Readable() && r.ToPacket() == p && |p.data| == 3
    ensures layout == Packed ==> r.Next(layout).pos == 17
    ensures layout == Aligned4 ==> r.Next(layout).pos == 20
  {
  }

  /**
   * `fixed(&mut buf)` over a region the caller owns: a 3-byte packet fits in
   * 18 bytes under Packed, and the bytes past the 17 the list uses are left
   * as the caller had them.
   */
  method FixedInCallerRegion(data: array<u8>) returns (ok: bool)
    requires 18 <= data.Length
    modifies data
    ensures ok
    ensures data[17..] == old(data[17..])
  {
    var b := PacketBuffer.Fixed(Packed, data);
    ok := b.PushPacket(0, [0x90, 0x40, 0x7f]);
    assert data[17..] == old(data[17..]);
  }

  /**
   * Fixed storage never hands out its last byte: 17 bytes cannot hold a list
   * of one 3-byte packet under Packed, 18 bytes can.
   */
  method FixedExactFill() returns (fits17: bool, fits18: bool)
    ensures !fits17 && fits18
  {
    var small := new u8[17];
    var b := PacketBuffer.Fixed(Packed, small);
    fits17 := b.PushPacket(0, [0x90, 0x40, 0x7f]);
    var large := new u8[18];
    var c := PacketBuffer.Fixed(Packed, large);
    fits18 := c.PushPacket(0, [0x90, 0x40, 0x7f]);
  }
}
