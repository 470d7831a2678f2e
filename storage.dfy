/**
 * The two storage backends of a packet buffer. Each hands out the next
 * unused bytes of one contiguous region on request: `FixedStorage` borrows a
 * caller-owned slice and a `used` cursor, `DynStorage` owns a growable vector
 * (an allocation whose length is its capacity, and a length in use).
 */
module PacketStorage {
  import opened Wrappers
  import opened Bytes

  /** A caller-owned region of fixed size; it never moves. */
  class FixedStorage {
    const data: array<u8>
    var used: nat

    ghost predicate Valid()
      reads this
    {
      used <= data.Length
    }

    constructor (data: array<u8>)
      ensures Valid()
      ensures this.data == data && used == 0
    {
      this.data := data;
      used := 0;
    }

    /**
     * Grant the next length bytes, starting at the old cursor, when they fit.
     * The test is strict: a request that would exactly fill the region is
     * refused, so the last byte of the region is never handed out.
     */
    method Request(length: nat) returns (span: Option<nat>)
      requires Valid()
      modifies this
      ensures Valid()
      ensures old(used) + length < data.Length ==> span == Some(old(used)) && used == old(used) + length
      ensures old(used) + length >= data.Length ==> span == None && used == old(used)
    {
      if used + length < data.Length {
        span := Some(used);
        used := used + length;
      } else {
        span := None;
      }
    }
  }

  /** An owned vector: data is the allocation (its length the capacity), len the elements in use. */
  class DynStorage {
    var data: array<u8>
    var len: nat

    ghost predicate Valid()
      reads this
    {
      len <= data.Length
    }

    /** An empty vector, which has not allocated yet. */
    constructor ()
      ensures Valid()
      ensures len == 0 && data.Length == 0 && fresh(data)
    {
      data := new u8[0];
      len := 0;
    }

    /**
     * Make room for at least additional more bytes, moving the contents to a
     * larger allocation (at least twice the old capacity) when they do not fit.
     */
    method Reserve(additional: nat)
      requires Valid()
      modifies this
      ensures Valid()
      ensures len == old(len) && len + additional <= data.Length
      ensures data == old(data) || fresh(data)
      ensures data[..len] == old(data[..len])
    {
      if data.Length - len < additional {
        var capacity := if 2 * data.Length < len + additional then len + additional else 2 * data.Length;
        var grown := new u8[capacity];
        forall i | 0 <= i < len {
          grown[i] := data[i];
        }
        data := grown;
      }
    }

    /**
     * Grow the vector by length bytes and grant them: they start at the old
     * length. Their contents are whatever the allocation held.
     */
    method Request(length: nat) returns (start: nat)
      requires Valid()
      modifies this
      ensures Valid()
      ensures start == old(len) && len == old(len) + length
      ensures data == old(data) || fresh(data)
      ensures data[..old(len)] == old(data[..len])
    {
      Reserve(length);
      start := len;
      len := len + length;
      assert data[..old(len)] == data[..start];
    }
  }

  /** The backend a packet buffer writes into: one of the two. */
  datatype Storage = FixedStore(fixed: FixedStorage) | DynStore(dyn: DynStorage) {

    function Holder(): object {
      if FixedStore? then fixed else dyn
    }

    /** The region's base: offset 0 of this array is the start of the packet list. */
    function Buffer(): array<u8>
      reads Holder()
    {
      if FixedStore? then fixed.data else dyn.data
    }

    /** The number of bytes handed out so far. */
    function Used(): nat
      reads Holder()
    {
      if FixedStore? then fixed.used else dyn.len
    }

    ghost predicate Valid()
      reads Holder()
    {
      Used() <= Buffer().Length
    }

    /** The bytes handed out so far. */
    ghost function Bytes(): seq<u8>
      reads Holder(), Buffer()
      requires Valid()
    {
      Buffer()[..Used()]
    }

    /**
     * Grant the next length bytes of the region, starting right after the
     * bytes already handed out; only fixed storage can refuse. Nothing already
     * handed out changes, and a refusal changes nothing at all.
     */
    method Request(length: nat) returns (span: Option<nat>)
      requires Valid()
      modifies Holder()
      ensures Valid()
      ensures FixedStore? ==> Buffer() == old(Buffer())
      ensures Buffer() == old(Buffer()) || fresh(Buffer())
      ensures span.Some? <==> (FixedStore? ==> old(Used()) + length < Buffer().Length)
      ensures span.Some? ==> span.value == old(Used()) && Used() == old(Used()) + length
      ensures span.Some? ==> Buffer()[..old(Used())] == old(Bytes())
      ensures span.None? ==> Used() == old(Used()) && Bytes() == old(Bytes())
    {
      if FixedStore? {
        span := fixed.Request(length);
      } else {
        var start := dyn.Request(length);
        span := Some(start);
      }
    }
  }
}
