/**
 * `PacketBuffer`: builds a packet list in a storage backend, one packet at a
 * time, keeping the count header equal to the number of packets pushed.
 */
module PacketBuffers {
  import opened Wrappers
  import opened Bytes
  import opened Layouts
  import opened PacketFormat
  import opened PacketViews
  import opened PacketStorage

  /** s with the bytes from offset at replaced by src. */
  function Splice(s: seq<u8>, at: nat, src: seq<u8>): (r: seq<u8>)
    requires at + |src| <= |s|
    ensures |r| == |s|
    ensures r[at..at + |src|] == src
    ensures forall i :: 0 <= i < |s| && !(at <= i < at + |src|) ==> r[i] == s[i]
  {
    assert (s[..at] + src + s[at + |src|..])[at..at + |src|] == src;
    s[..at] + src + s[at + |src|..]
  }

  /** `ptr::copy_nonoverlapping` of src into dst at offset at. */
  method CopyBytes(dst: array<u8>, at: nat, src: seq<u8>)
    requires at + |src| <= dst.Length
    modifies dst
    ensures dst[..] == Splice(old(dst[..]), at, src)
  {
    var i := 0;
    while i < |src|
      invariant 0 <= i <= |src|
      invariant forall k :: 0 <= k < dst.Length && !(at <= k < at + i) ==> dst[k] == old(dst[k])
      invariant forall k :: at <= k < at + i ==> dst[k] == src[k - at]
    {
      dst[at + i] := src[i];
      i := i + 1;
    }
    ghost var want := Splice(old(dst[..]), at, src);
    assert forall k :: at <= k < at + |src| ==> want[k] == want[at..at + |src|][k - at];
  }

  /** The bytes of a buffer holding the packets ps, with p appended after them and the count bumped. */
  lemma AppendRecord(layout: Layout, before: seq<u8>, after: seq<u8>, ps: seq<Packet>, p: Packet)
    requires IsList(layout, before, ps) && |before| == ListHeaderSize + TotalSize(layout, ps)
    requires Encodable(p)
    requires |after| == |before| + RecordSize(layout, |p.data|)
    requires after[..ListHeaderSize] == CountHeader(|ps| + 1)
    requires forall i :: ListHeaderSize <= i < |before| ==> after[i] == before[i]
    requires after[|before|..|before| + PacketHeaderSize] == PacketHeader(p)
    requires after[|before| + PacketHeaderSize..|before| + PacketHeaderSize + |p.data|] == p.data
    ensures IsList(layout, after, ps + [p])
    ensures |after| == ListHeaderSize + TotalSize(layout, ps + [p])
  {
    assert SameFrom(before, after, ListHeaderSize);
    RecordsAtFrame(layout, before, after, ListHeaderSize, ps);
    EndPosIsTotalSize(layout, ListHeaderSize, ps);
    assert RecordAt(after, |before|, p);
    RecordsAtAppend(layout, after, ListHeaderSize, ps, p);
    TotalSizeAppend(layout, ps, p);
  }

  lemma {:induction false} TotalSizeAppend(layout: Layout, ps: seq<Packet>, p: Packet)
    ensures TotalSize(layout, ps + [p]) == TotalSize(layout, ps) + RecordSize(layout, |p.data|)
    decreases |ps|
  {
    if ps == [] {
      assert [p][1..] == [];
    } else {
      TotalSizeAppend(layout, ps[1..], p);
      assert (ps + [p])[1..] == ps[1..] + [p];
    }
  }

  /** The count after one more packet, as the u32 header holds it. */
  lemma CountStep(n: nat)
    ensures (n % CountLimit + 1) % CountLimit == (n + 1) % CountLimit
  {
  }

  /** Two copies to adjacent places are one copy of both. */
  lemma SpliceAdjacent(s: seq<u8>, at: nat, x: seq<u8>, y: seq<u8>)
    requires at + |x| + |y| <= |s|
    ensures Splice(Splice(s, at, x), at + |x|, y) == Splice(s, at, x + y)
  {
  }

  /** The three copies of `push_packet`: timestamp, length, then data, at offset at. */
  method WriteRecord(a: array<u8>, at: nat, timestamp: u64, packet: seq<u8>)
    requires |packet| <= MaxDataLength
    requires at + PacketHeaderSize + |packet| <= a.Length
    modifies a
    ensures a[..] == Splice(old(a[..]), at, PacketHeader(Packet(timestamp, packet)) + packet)
  {
    Pow256Widths();
    ghost var a0 := a[..];
    var ts := LeBytes(timestamp, 8);
    var len := LeBytes(|packet|, 2);
    CopyBytes(a, at, ts);
    CopyBytes(a, at + 8, len);
    SpliceAdjacent(a0, at, ts, len);
    CopyBytes(a, at + PacketHeaderSize, packet);
    SpliceAdjacent(a0, at, ts + len, packet);
  }

  /** The count header after adding one to the count it holds. */
  function CountAfter(header: seq<u8>): (r: seq<u8>)
    requires |header| == ListHeaderSize
    ensures |r| == ListHeaderSize
  {
    Pow256Widths();
    LeBytes((LeValue(header) + 1) % CountLimit, 4)
  }

  /** `*(ptr as *mut u32) += 1` on the count header at offset 0, wrapping at 2^32. */
  method IncrementCount(a: array<u8>)
    requires ListHeaderSize <= a.Length
    modifies a
    ensures a[..] == Splice(old(a[..]), 0, CountAfter(old(a[..ListHeaderSize])))
  {
    Pow256Widths();
    var count := LeValue(a[..ListHeaderSize]);
    var header := LeBytes((count + 1) % CountLimit, 4);
    assert header == CountAfter(a[..ListHeaderSize]);
    CopyBytes(a, 0, header);
  }

  /** Bumping the count header of a list of k packets gives that of k + 1 packets. */
  lemma CountAfterStep(k: nat)
    ensures CountAfter(CountHeader(k)) == CountHeader(k + 1)
  {
    Pow256Widths();
    LeValueOfBytes(k % CountLimit, 4);
    CountStep(k);
  }

  /**
   * Where the bytes of a push land, byte by byte: rec at offset n of region,
   * then a new header over the first 4 bytes; the rest of the first n bytes
   * stays as it was.
   */
  lemma SplicedShape(before: seq<u8>, region: seq<u8>, rec: seq<u8>, header: seq<u8>, used: nat)
    requires ListHeaderSize <= |before| && |header| == ListHeaderSize
    requires |before| + |rec| <= used <= |region|
    requires region[..|before|] == before
    ensures Splice(region, |before|, rec)[..ListHeaderSize] == before[..ListHeaderSize]
    ensures var after := Splice(Splice(region, |before|, rec), 0, header)[..used];
            && |after| == used
            && after[..ListHeaderSize] == header
            && (forall i :: ListHeaderSize <= i < |before| ==> after[i] == before[i])
            && after[|before|..|before| + |rec|] == rec
  {
  }

  /**
   * What one successful push does to the bytes of a list holding ps: the
   * region held before, then the record written at its end, the count bumped.
   */
  lemma PushedBytes(layout: Layout, before: seq<u8>, region: seq<u8>, used: nat, ps: seq<Packet>, p: Packet)
    requires IsList(layout, before, ps) && |before| == ListHeaderSize + TotalSize(layout, ps)
    requires Encodable(p)
    requires used == |before| + RecordSize(layout, |p.data|) <= |region|
    requires region[..|before|] == before
    ensures var written := Splice(region, |before|, PacketHeader(p) + p.data);
            var after := Splice(written, 0, CountAfter(written[..ListHeaderSize]))[..used];
            && IsList(layout, after, ps + [p])
            && |after| == ListHeaderSize + TotalSize(layout, ps + [p])
            && after[ListHeaderSize..|before|] == before[ListHeaderSize..]
  {
    var n := |before|;
    var rec := PacketHeader(p) + p.data;
    var header := CountAfter(before[..ListHeaderSize]);
    SplicedShape(before, region, rec, header, used);
    CountAfterStep(|ps|);
    var after := Splice(Splice(region, n, rec), 0, header)[..used];
    assert after[n..n + PacketHeaderSize] == rec[..PacketHeaderSize];
    assert after[n + PacketHeaderSize..n + PacketHeaderSize + |p.data|] == rec[PacketHeaderSize..];
    AppendRecord(layout, before, after, ps, p);
  }

  /**
   * The writes of one successful push into the region a, whose first |before|
   * bytes hold the list of ps: the record at their end, then the count bumped.
   */
  method WritePush(a: array<u8>, at: nat, layout: Layout, timestamp: u64, packet: seq<u8>,
                   ghost before: seq<u8>, ghost ps: seq<Packet>, ghost used: nat)
    requires IsList(layout, before, ps) && |before| == ListHeaderSize + TotalSize(layout, ps)
    requires |packet| <= MaxDataLength
    requires used == |before| + RecordSize(layout, |packet|) <= a.Length
    requires at == |before| && a[..at] == before
    modifies a
    ensures IsList(layout, a[..used], ps + [Packet(timestamp, packet)])
    ensures used == ListHeaderSize + TotalSize(layout, ps + [Packet(timestamp, packet)])
    ensures a[..used][ListHeaderSize..|before|] == before[ListHeaderSize..]
    ensures a[used..] == old(a[used..])
  {
    ghost var region := a[..];
    assert region[..|before|] == before;
    WriteRecord(a, at, timestamp, packet);
    IncrementCount(a);
    PushedBytes(layout, before, region, used, ps, Packet(timestamp, packet));
    assert a[..used] == a[..][..used];
    assert a[used..] == region[used..];
  }

  class PacketBuffer {
    const buffer: Storage
    const layout: Layout
    /** The packets pushed so far, in order. */
    ghost var Packets: seq<Packet>

    /** The bytes of the packet list built so far. */
    ghost function Bytes(): seq<u8>
      reads buffer.Holder(), buffer.Buffer()
      requires buffer.Valid()
    {
      buffer.Bytes()
    }

    /** The storage holds exactly a packet list of the packets pushed so far. */
    ghost predicate Valid()
      reads this, buffer.Holder(), buffer.Buffer()
    {
      && buffer.Valid()
      && |Bytes()| == ListHeaderSize + TotalSize(layout, Packets)
      && IsList(layout, Bytes(), Packets)
    }

    /**
     * `new_with_buf`: take the first 4 bytes of the storage as the count header
     * and clear it. Fixed storage of 4 bytes or less cannot hold it and panics
     * with "BufferTooSmall"; that case is excluded here.
     */
    constructor NewWithBuf(buffer: Storage, layout: Layout)
      requires buffer.Valid() && buffer.Used() == 0
      requires buffer.FixedStore? ==> ListHeaderSize < buffer.Buffer().Length
      modifies buffer.Holder(), buffer.Buffer()
      ensures this.buffer == buffer && this.layout == layout
      ensures Valid() && Packets == []
      ensures Bytes() == Zeros(ListHeaderSize)
      ensures buffer.FixedStore? ==> buffer.Buffer() == old(buffer.Buffer())
      ensures buffer.FixedStore? ==> buffer.Buffer()[ListHeaderSize..] == old(buffer.Buffer()[ListHeaderSize..])
      ensures buffer.Buffer() == old(buffer.Buffer()) || fresh(buffer.Buffer())
    {
      this.buffer := buffer;
      this.layout := layout;
      Packets := [];
      new;
      var span := buffer.Request(ListHeaderSize);
      Pow256Widths();
      LeBytesOfZero(4);
      CopyBytes(buffer.Buffer(), span.value, LeBytes(0, 4));
      assert Bytes() == Zeros(ListHeaderSize);
      assert RecordsAt(layout, Bytes(), ListHeaderSize, []);
    }

    /** `PacketBuffer::dyn`: an empty list in a fresh vector. */
    static method Dyn(layout: Layout) returns (b: PacketBuffer)
      ensures fresh(b) && fresh(b.buffer.Holder()) && fresh(b.buffer.Buffer())
      ensures b.buffer.DynStore? && b.layout == layout
      ensures b.Valid() && b.Packets == [] && b.Bytes() == Zeros(ListHeaderSize)
    {
      var storage := new DynStorage();
      b := new PacketBuffer.NewWithBuf(DynStore(storage), layout);
    }

    /** `PacketBuffer::fixed`: an empty list at the start of a caller's region. */
    static method Fixed(layout: Layout, data: array<u8>) returns (b: PacketBuffer)
      requires ListHeaderSize < data.Length
      modifies data
      ensures fresh(b) && fresh(b.buffer.Holder())
      ensures b.buffer.FixedStore? && b.buffer.Buffer() == data && b.layout == layout
      ensures b.Valid() && b.Packets == [] && b.Bytes() == Zeros(ListHeaderSize)
      ensures data[ListHeaderSize..] == old(data[ListHeaderSize..])
    {
      var storage := new FixedStorage(data);
      b := new PacketBuffer.NewWithBuf(FixedStore(storage), layout);
    }

    /** `as_ref`: a view of the list built so far. */
    method AsRef() returns (list: PacketListRef)
      requires Valid()
      ensures list.bytes == Bytes()
      ensures list.HeaderReadable()
      ensures |Packets| < CountLimit ==> list.Length() == |Packets| && list.Packets(layout) == Some(Packets)
    {
      list := PacketListRef(buffer.Buffer()[..buffer.Used()]);
      if |Packets| < CountLimit {
        ListRoundTrip(layout, list.bytes, Packets);
      }
    }

    /**
     * `push_packet`: reserve 10 + len bytes (rounded up to a multiple of 4 on
     * ARM), write the timestamp, the length and the data there, and add 1 to
     * the count header. The source asserts len <= 65535 and indexes the first
     * data byte, so an empty packet panics: both are excluded here. When fixed
     * storage cannot grant the bytes the source panics with "BufferTooSmall";
     * here the push fails and changes nothing.
     */
    method PushPacket(timestamp: u64, packet: seq<u8>) returns (ok: bool)
      requires Valid()
      requires 1 <= |packet| <= MaxDataLength
      modifies this, buffer.Holder(), buffer.Buffer()
      ensures Valid()
      ensures buffer.FixedStore? ==> buffer.Buffer() == old(buffer.Buffer())
      ensures buffer.Buffer() == old(buffer.Buffer()) || fresh(buffer.Buffer())
      ensures ok <==> (buffer.FixedStore? ==> old(buffer.Used()) + RecordSize(layout, |packet|) < buffer.Buffer().Length)
      ensures ok ==> Packets == old(Packets) + [Packet(timestamp, packet)]
      ensures ok ==> |Bytes()| == |old(Bytes())| + RecordSize(layout, |packet|)
      ensures ok ==> Bytes()[ListHeaderSize..|old(Bytes())|] == old(Bytes())[ListHeaderSize..]
      ensures !ok ==> Packets == old(Packets) && Bytes() == old(Bytes())
      ensures !ok ==> buffer.Buffer()[..] == old(buffer.Buffer()[..])
      ensures buffer.FixedStore? ==>
        forall i :: |Bytes()| <= i < buffer.Buffer().Length ==> buffer.Buffer()[i] == old(buffer.Buffer()[i])
    {
      var reqSize := PacketHeaderSize + |packet|;
      if layout == Aligned4 {
        reqSize := RoundUp4(reqSize);
      }
      ghost var before := Bytes();
      ghost var p := Packet(timestamp, packet);
      var span := buffer.Request(reqSize);
      if span.None? {
        return false;
      }
      var a := buffer.Buffer();
      ghost var used := buffer.Used();
      assert a[..span.value] == before;
      WritePush(a, span.value, layout, timestamp, packet, before, Packets, used);
      assert Bytes() == a[..used];
      Packets := Packets + [p];
      ok := true;
    }

    /** `with_data` (deprecated): push one packet and hand the buffer on. */
    method WithData(timestamp: u64, data: seq<u8>) returns (ok: bool)
      requires Valid()
      requires 1 <= |data| <= MaxDataLength
      modifies this, buffer.Holder(), buffer.Buffer()
      ensures Valid()
      ensures buffer.FixedStore? ==> buffer.Buffer() == old(buffer.Buffer())
      ensures buffer.Buffer() == old(buffer.Buffer()) || fresh(buffer.Buffer())
      ensures ok <==> (buffer.FixedStore? ==> old(buffer.Used()) + RecordSize(layout, |data|) < buffer.Buffer().Length)
      ensures ok ==> Packets == old(Packets) + [Packet(timestamp, data)]
      ensures ok ==> |Bytes()| == |old(Bytes())| + RecordSize(layout, |data|)
      ensures ok ==> Bytes()[ListHeaderSize..|old(Bytes())|] == old(Bytes())[ListHeaderSize..]
      ensures !ok ==> Packets == old(Packets) && Bytes() == old(Bytes())
      ensures !ok ==> buffer.Buffer()[..] == old(buffer.Buffer()[..])
      ensures buffer.FixedStore? ==>
        forall i :: |Bytes()| <= i < buffer.Buffer().Length ==> buffer.Buffer()[i] == old(buffer.Buffer()[i])
    {
      ok := PushPacket(timestamp, data);
    }
  }
}
