/**
 * `PacketListIterator`: a two-field state machine over a packet list, the
 * number of packets not yet yielded and a view of the next one.
 */
module PacketIterators {
  import opened Wrappers
  import opened Bytes
  import opened Layouts
  import opened PacketFormat
  import opened PacketViews

  class PacketListIterator {
    var remaining: u32
    var packetRef: PacketRef
    const layout: Layout

    /** The packets still to be yielded, as the list's bytes hold them. */
    ghost function Rest(): Option<seq<Packet>>
      reads this
    {
      DecodeRecords(layout, packetRef, remaining)
    }

    /** `PacketListRef::iter`: start right after the count header with every packet remaining. */
    constructor (list: PacketListRef, layout: Layout)
      requires list.HeaderReadable()
      ensures remaining == list.Length()
      ensures packetRef == PacketRef(list.bytes, ListHeaderSize)
      ensures this.layout == layout
      ensures Rest() == list.Packets(layout)
    {
      remaining := list.Length();
      packetRef := PacketRef(list.bytes, ListHeaderSize);
      this.layout := layout;
    }

    /**
     * Yield the current packet and step to the next one, or yield nothing once
     * every packet has been yielded. Stepping reads the current packet's
     * length field, which therefore has to be inside the buffer.
     */
    method Next() returns (r: Option<PacketRef>)
      requires remaining > 0 ==> packetRef.HeaderReadable()
      modifies this
      ensures old(remaining) == 0 ==> r == None && remaining == 0 && packetRef == old(packetRef)
      ensures old(remaining) > 0 ==> && r == Some(old(packetRef))
                                     && remaining == old(remaining) - 1
                                     && packetRef == old(packetRef).Next(layout)
      ensures old(Rest()).Some? && old(remaining) > 0 ==>
        && r.Some? && r.value.Readable()
        && r.value.ToPacket() == old(Rest()).value[0]
        && Rest() == Some(old(Rest()).value[1..])
      ensures old(Rest()).Some? ==> Rest().Some?
    {
      if remaining > 0 {
        remaining := remaining - 1;
        var current := packetRef;
        packetRef := packetRef.Next(layout);
        r := Some(current);
      } else {
        r := None;
      }
    }
  }
}
