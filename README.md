# CoreMIDI packet lists, modelled in Dafny

A model of the packet-list codec of the `coremidi` Rust crate (`src/packets.rs`).
A CoreMIDI packet list is one contiguous run of bytes:

- a `u32` packet count;
- then the packets back to back. Each packet is a `u64` timestamp, a `u16` data length and that many data bytes.
- On ARM every packet starts at the next multiple of 4. On x86 the packets abut.

The crate builds such lists in a `PacketBuffer`, over either a caller's fixed slice or a growable vector. It reads them through the zero-copy views `PacketListRef` and `PacketRef` and the `PacketListIterator`.

The model has these parts:

- `bytes.dfy`: fixed-width integers and their little-endian byte representation, with both round trips. Both targets of the crate (x86-64 and ARM macOS) are little-endian, and the crate's own test fixes that byte order.
- `layouts.dfy`: the padding rule. It is a `Layout` value, `Packed` for x86 and `Aligned4` for ARM, instead of a build-time `cfg`. The module also gives the 4-byte rounding and the size a packet reserves.
- `packet_format.dfy`: what a packet list holding given packets looks like, as predicates over bytes (`IsList`). It also gives the canonical encoding (`EncodeList`). Padding bytes are left unspecified, as in the crate.
- `packet_views.dfy`: `PacketRef` and `PacketListRef` as views (bytes plus an offset), and what a list decodes to. It proves that decoding and `IsList` are exact inverses.
- `packet_iterator.dfy`: `PacketListIterator` as a class with the crate's two fields, `remaining` and `packet_ref`.
- `storage.dfy`: `FixedStorage` and `DynStorage` as classes over arrays. The `PacketBufferStorage` trait becomes the `Storage` datatype, one case per backend.
- `packet_buffer.dfy`: `PacketBuffer` as a class. Its invariant is that the storage holds exactly the list of the packets pushed so far.
- `packet_display.dfy`: the `Display` renderings of packets and lists, with read-back lemmas.
- `scenarios.dfy`: the crate's unit tests and two edge cases, as methods with proved results.

## Model

| member | source | states |
|---|---|---|
| Bytes.LeValueOfBytes | src/packets.rs:350-353 | reading back the little-endian bytes stored for an integer gives that integer |
| Bytes.LeBytesOfValue | src/packets.rs:48-59 | storing the value read from n bytes gives the same n bytes, so every byte pattern is a value |
| Bytes.LeBytesInjective | src/packets.rs:350-353 | different values of one width are stored as different bytes |
| Bytes.LeBytesOfZero | src/packets.rs:313-316 | the zero count is stored as four zero bytes |
| Layouts.RoundUp4 | src/packets.rs:340-341 | the rounded size is a multiple of 4, at least the size, and less than the size plus 4 |
| Layouts.RoundUp4Unique | src/packets.rs:340-341 | that multiple of 4 is unique, so the rounding is determined by those three facts |
| Layouts.Align | src/packets.rs:87-101 | under Packed the next packet starts right after the data; under Aligned4 at the next multiple of 4, fewer than 4 bytes on |
| Layouts.RecordSize | src/packets.rs:336-341 | a packet reserves 10 bytes plus its data; under Aligned4 that size is rounded up to a multiple of 4 |
| Layouts.AlignFromAligned | src/packets.rs:87-101 | from a 4-aligned start, the reader's rounding of the end address equals the start plus the size the builder reserved |
| Layouts.AbsoluteRounding | src/packets.rs:91-93 | with a 4-aligned base (checked at src/packets.rs:319), rounding an absolute address is the base plus the rounded offset |
| PacketFormat.EncodeRecord | src/packets.rs:349-354 | one encoded packet is the 10-byte header (timestamp, length) followed by the data, padded to the reserved size |
| PacketFormat.EndPosIsTotalSize | src/packets.rs:87-101 | stepping over the packets with the reader lands exactly at the sum of the sizes the builder reserved |
| PacketFormat.PositionsFollowLayout | src/packets.rs:87-101 | under Aligned4 every packet starts at a multiple of 4; under Packed each starts right after the previous packet's data |
| PacketFormat.RecordsAtPositions | src/packets.rs:87-101 | packet i of a list is stored at position i of the reader's walk |
| PacketFormat.RecordsAtFrame | src/packets.rs:343-360 | writing outside the stored packets (the count header, the space after them) leaves them intact |
| PacketFormat.RecordsAtAppend | src/packets.rs:343-355 | a packet stored where the others end extends the list by that packet |
| PacketFormat.EncodedRecordsAt | src/packets.rs:349-354 | the canonical encoding stores every packet where the layout places it |
| PacketFormat.EncodeListIsList | src/packets.rs:306-363 | the canonical encoding of some packets is a packet list holding exactly those packets |
| PacketFormat.PackedRecordsUnique | src/packets.rs:96-99 | without padding, stored packets that fill the bytes are their canonical encoding |
| PacketFormat.PackedListUnique | src/packets.rs:96-99 | under Packed a list with no trailing bytes is byte for byte the canonical encoding of its packets |
| PacketViews.PacketRef.Timestamp | src/packets.rs:48-52 | the timestamp read is the u64 whose little-endian bytes are the packet's first 8 bytes |
| PacketViews.PacketRef.DataLength | src/packets.rs:54-59 | the length read is the u16 stored at offsets 8 and 9 of the packet |
| PacketViews.PacketRef.Data | src/packets.rs:82-84 | the data has exactly the length the header announces |
| PacketViews.PacketRef.Next | src/packets.rs:87-101 | the next view is on the same bytes, 10 + length on (Packed), or the next multiple of 4 past that (Aligned4) |
| PacketViews.PacketListRef.Length | src/packets.rs:148-152 | the count is the u32 stored in the list's first 4 bytes |
| PacketViews.DecodeRecords | src/packets.rs:198-212 | when it succeeds, the iteration yields exactly as many packets as it was asked for |
| PacketViews.ReadRecord | src/packets.rs:48-84 | a view placed on a stored packet reads back its timestamp, length and data |
| PacketViews.NextMatchesReserved | src/packets.rs:87-101 | from a 4-aligned stored packet, the view steps exactly the number of bytes the builder reserved |
| PacketViews.DecodeOfRecords | src/packets.rs:198-212 | iterating over stored packets yields them, in order |
| PacketViews.RecordsOfDecode | src/packets.rs:198-212 | whatever the iteration yields is stored where the layout says |
| PacketViews.ListRoundTrip | src/packets.rs:148-163 | a list of fewer than 2^32 packets reports that count and iterates to exactly those packets |
| PacketViews.DecodeIsList | src/packets.rs:148-212 | the list iterates to the packets ps if and only if it is a packet list holding ps |
| PacketViews.DecodedIsList | src/packets.rs:148-212 | the bytes of a list that iterates to ps form a packet list holding ps |
| PacketViews.CountHeaderOfLength | src/packets.rs:148-152 | a count field read as n is the header of a list of n packets |
| PacketViews.DecodeEncode | src/packets.rs:148-212 | the canonical encoding iterates back to the encoded packets |
| PacketViews.ReEncode | src/packets.rs:148-212 | a decoded list re-encodes to a list with the same packets; under Packed, one with no trailing bytes re-encodes byte for byte |
| PacketViews.RecordsAllEncodable | src/packets.rs:54-59 | every packet read from a list has a length that fits the u16 field |
| PacketIterators.PacketListIterator.constructor | src/packets.rs:156-163 | `iter`: a new iterator has the list's count remaining, sits at offset 4 right after the count header, and has all of the list's packets still to yield |
| PacketIterators.PacketListIterator.Next | src/packets.rs:198-212 | with packets remaining it yields the current view, decrements the count and steps on, and the rest shrinks by the yielded packet; with none it yields nothing and changes nothing |
| PacketStorage.FixedStorage.constructor | src/packets.rs:294-300 | fixed storage starts with nothing handed out |
| PacketStorage.FixedStorage.Request | src/packets.rs:248-256 | a request is granted at the old cursor if and only if cursor + length is strictly below the capacity; a refusal leaves the cursor alone |
| PacketStorage.DynStorage.constructor | src/packets.rs:286-291 | a new vector is empty |
| PacketStorage.DynStorage.Reserve | src/packets.rs:271-276 | after reserving, the extra bytes fit; the length and the bytes in use are unchanged, possibly in a new allocation |
| PacketStorage.DynStorage.Request | src/packets.rs:270-276 | a request always succeeds: it starts at the old length, grows the length by exactly that much, and keeps the bytes before it |
| PacketStorage.Storage.Request | src/packets.rs:228-276 | either backend grants the bytes right after those handed out; only fixed storage refuses, exactly when used + length is not strictly below the capacity (so a request that would exactly fill the region is refused), and a refusal changes nothing |
| PacketBuffers.CopyBytes | src/packets.rs:351-353 | a non-overlapping copy replaces exactly the destination range and nothing else |
| PacketBuffers.SpliceAdjacent | src/packets.rs:351-353 | two copies into adjacent ranges are one copy of both |
| PacketBuffers.WriteRecord | src/packets.rs:349-354 | the three copies write the header (timestamp, length) then the data at the reserved offset, and nothing else |
| PacketBuffers.IncrementCount | src/packets.rs:357-360 | adding one to the count touches only the first 4 bytes and stores the old count plus one, modulo 2^32 |
| PacketBuffers.CountAfterStep | src/packets.rs:357-360 | bumping the header of a list of k packets gives the header of a list of k + 1 |
| PacketBuffers.AppendRecord | src/packets.rs:335-363 | a list of ps, with p stored after it and the count bumped, is a list of ps + [p] of the summed size |
| PacketBuffers.TotalSizeAppend | src/packets.rs:338-344 | one more packet adds its reserved size to the list's size |
| PacketBuffers.PushedBytes | src/packets.rs:343-360 | the bytes after a push form the list of ps + [p], with the earlier packets' bytes unchanged |
| PacketBuffers.WritePush | src/packets.rs:343-360 | the writes of one push turn the region holding a list of ps into a list of ps + [p]; bytes past the new end are untouched |
| PacketBuffers.PacketBuffer.NewWithBuf | src/packets.rs:306-324 | a new buffer holds the empty list: the count header, four zero bytes; on fixed storage the region past the header is untouched |
| PacketBuffers.PacketBuffer.Dyn | src/packets.rs:286-291 | a new dynamic buffer is empty and holds four zero bytes |
| PacketBuffers.PacketBuffer.Fixed | src/packets.rs:295-301 | a new fixed buffer over a caller's region, with fresh storage, is empty and holds four zero bytes; the region past the header is untouched |
| PacketBuffers.PacketBuffer.AsRef | src/packets.rs:327-332 | the view covers the built bytes, reports the number of packets pushed, and iterates to exactly those packets |
| PacketBuffers.PacketBuffer.PushPacket | src/packets.rs:335-363 | a push appends the packet and keeps the bytes a valid list of everything pushed; the earlier packets' bytes are unchanged; on fixed storage it fails exactly when used + record size is not strictly below the capacity, so a push that would exactly fill the region is refused; a refusal leaves the packets and the whole array unchanged; on fixed storage the region past the new end is untouched |
| PacketBuffers.PacketBuffer.WithData | src/packets.rs:367-370 | `with_data` pushes one packet with the same guarantees as `push_packet`: the packet is appended and the bytes stay a valid list; fixed storage keeps its array; the bytes grow by exactly the record's size and the earlier packets' bytes are unchanged; it fails exactly when fixed storage has used + record size not strictly below its capacity, so a push that would exactly fill the region is refused; a refusal leaves the packets and the whole array unchanged; on fixed storage the region past the new end is untouched |
| PacketDisplay.Hex | src/packets.rs:123 | `{:0Nx}` prints exactly N lower-case hex digits |
| PacketDisplay.HexRoundTrip | src/packets.rs:123-128 | the printed hex digits read back as the printed number |
| PacketDisplay.DigitRoundTrip | src/packets.rs:127 | each hex digit reads back as its value |
| PacketDisplay.ByteTextValue | src/packets.rs:127 | a printed data byte (a space and two digits) reads back as the byte |
| PacketDisplay.DataTextAt | src/packets.rs:124-129 | data byte i is printed at characters 3i to 3i + 3 of the data's text |
| PacketDisplay.PacketText | src/packets.rs:121-131 | a packet prints as 17 + 3 × length characters, with the colon at character 16 |
| PacketDisplay.PacketRefText | src/packets.rs:121-131 | a view prints as the packet it reads, 17 + 3 × its length characters long |
| PacketDisplay.PacketTextByte | src/packets.rs:121-131 | data byte i of a packet is printed at characters 17 + 3i to 20 + 3i |
| PacketDisplay.PacketTextTimestamp | src/packets.rs:123 | the first 16 characters of a packet's text spell its timestamp |
| PacketDisplay.PacketTextFields | src/packets.rs:121-131 | the text of a packet can be read back field by field: timestamp, then every data byte |
| PacketDisplay.PacketTextInjective | src/packets.rs:121-131 | different packets print differently |
| PacketDisplay.PacketTextOneLine | src/packets.rs:121-131 | a packet's text holds no newline |
| PacketDisplay.Decimal | src/packets.rs:183 | `{}` of the count prints only decimal digits |
| PacketDisplay.DecimalRoundTrip | src/packets.rs:183 | the printed count reads back as the count, with a leading zero only for zero |
| PacketDisplay.ListHeaderText | src/packets.rs:183 | the first line of a list's text holds no newline |
| PacketDisplay.ListTextLines | src/packets.rs:181-190 | a list's text holds exactly one newline per packet |
| PacketDisplay.PacketLinesAppend | src/packets.rs:184-189 | one more packet adds one more line at the end |
| PacketDisplay.ListTextAppend | src/packets.rs:184-189 | the text of a list with one more packet is the old text plus that packet's line |
| PacketDisplay.ListToString | src/packets.rs:181-190 | folding over the iterator writes the header line and then every packet the list holds, in order, each on its own line |
| PacketScenarios.NewBuffer | src/packets.rs:381-385 | a new dynamic buffer is the four bytes 0, 0, 0, 0 |
| PacketScenarios.OnePacketBytes | src/packets.rs:388-398 | under Packed, a list of one 3-byte packet is exactly the 17 bytes the test lists |
| PacketScenarios.WithDataPacked | src/packets.rs:388-398 | `with_data(0x0102030405060708, [0x90, 0x40, 0x7f])` on a new x86 buffer gives exactly those 17 bytes |
| PacketScenarios.FourPackets | src/packets.rs:409-416 | after four `with_data` calls the list's length is 4, under either layout |
| PacketScenarios.TwoPackets | src/packets.rs:335-363 | pushing a 3-byte and then a 5-byte packet into a new dynamic buffer gives a list that reads back as exactly those two packets |
| PacketScenarios.SecondPacketOffset | src/packets.rs:87-101 | after a 3-byte packet the next one starts at offset 17 under Packed and at 20 under Aligned4 |
| PacketScenarios.SecondPosition | src/packets.rs:87-101 | the reader steps from a 3-byte packet at offset 4 to offset 17 under Packed and 20 under Aligned4 |
| PacketScenarios.FixedInCallerRegion | src/packets.rs:295-301 | `fixed` over a region the caller passes in can be pushed into: a 3-byte packet fits in 18 bytes under Packed, and the bytes past the 17 the list uses keep the caller's values |
| PacketScenarios.FixedExactFill | src/packets.rs:248-256 | 17 bytes of fixed storage cannot hold a list of one 3-byte packet under Packed (the last byte is never handed out); 18 bytes can |

## Left out

- Raw pointers, lifetimes and `PhantomData` are left out. Views hold a snapshot of the list's bytes plus an offset. This is sound because the crate never writes while a view is alive; aliasing through raw pointers is not modelled.
- The address the list starts at is offset 0 and is taken to be 4-aligned. The check at src/packets.rs:319 ("BufferMisaligned") is not modelled; `Layouts.AbsoluteRounding` shows why the base's alignment is all the reader needs. The assumption also covers every new base that `DynStorage`'s `request` produces when it reallocates (src/packets.rs:272); the source checks alignment only once, at construction (src/packets.rs:319).
- `Layouts.RoundUp4` is the arithmetic form `(n + 3) / 4 * 4` of the source's bit mask `(n + 3) & !3`. The two are not proved equal in bit-vector arithmetic.
- Panics:
  - `PacketBuffer.PushPacket` requires a data length from 1 to 65535. The source asserts the upper bound, and indexing `packet[0]` panics on empty data.
  - When fixed storage is too small, `PacketBuffer.PushPacket` returns `false` and changes nothing, where the source panics with "BufferTooSmall".
  - `PacketBuffer.Fixed` requires more than 4 bytes; with 4 bytes or fewer the source panics.
- `PacketBuffers.IncrementCount` wraps the count at 2^32, as a release build does; a debug build would panic on overflow.
- `PacketIterators.PacketListIterator.Next` reads without bounds checks, as the source does. It requires only that the current header lies in the buffer. The decoded rest (`Rest`) says whether every packet does.
- Bytes that storage hands out are whatever the allocation held. The model does not say what they are, and padding bytes are unspecified in every predicate.
- `PacketStorage.DynStorage.Reserve` grows to at least twice the old capacity. `Vec`'s exact growth policy is not modelled; only that the new bytes fit and the old ones are kept.
- The `Debug` implementations (lines 104-119 and 166-179) print pointer values, which the model does not have. `PacketListRef::from_ptr` and `as_ptr` deal only in pointers, and `ptr`/`ptr_mut` of the storages are the array itself.
- `PacketBuffer::new` is a deprecated alias of `dyn`.
- `fmt::Formatter` errors are not modelled: the text is built as a string.
- The test `packet_buffer_deref` compares pointers, and is not modelled.
- `src/lib.rs`, `src/devices.rs`, `src/coremidi_sys_ext.rs` and `examples/virtual-source.rs` (sending lists to CoreMIDI, endpoints, the FFI declarations) are not part of this model.
