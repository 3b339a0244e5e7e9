/** Segment-relative address translation (rcp.rs, `segmented_address`).
    The source keeps the 16 segment bases in one process-wide table behind
    a lock; here the table is an explicit value. */
module Segment {
  import opened Base

  const NUM_SEGMENTS: nat := 16

  /** 2^24: the segment id is the top byte of an address, the offset its low 24 bits. */
  const SEGMENT_SPAN: nat := 0x100_0000

  type SegmentTable = s: seq<u32> | |s| == NUM_SEGMENTS witness seq(16, _ => 0)

  /** The table as the process starts: every segment unmapped. */
  const INITIAL_SEGMENT_TABLE: SegmentTable := seq(16, _ => 0)

  /** Translates `address`. An address with bit 0 clear is already
      absolute. With bit 0 set, the top byte picks a segment; a mapped
      (nonzero) base is added to the even 24-bit offset, wrapping at 2^32,
      and an unmapped one leaves the address as it was. A segment id of 16
      or more indexes past the table. */
  function SegmentedAddress(table: SegmentTable, address: u32): (r: Result<u32>)
    ensures address % 2 == 0 ==> r == Ok(address)
    ensures address % 2 == 1 && address / SEGMENT_SPAN >= 16 <==> r.Err?
    ensures r.Err? ==> r.error == SegmentOutOfRange(address / SEGMENT_SPAN)
    ensures r.Ok? && r.value != address ==>
      address % 2 == 1 && table[address / SEGMENT_SPAN] != 0
  {
    // The offset is `address & 0x00FF_FFFE`, the address without its top
    // byte and without bit 0.
    if address % 2 == 1 then
      if address / SEGMENT_SPAN >= 16 then
        Err(SegmentOutOfRange(address / SEGMENT_SPAN))
      else if table[address / SEGMENT_SPAN] != 0 then
        Ok((table[address / SEGMENT_SPAN] + (address % SEGMENT_SPAN - 1)) % TWO_32)
      else
        Ok(address)
    else
      Ok(address)
  }

  /** The segment-relative address for an even offset inside segment `id`:
      `(id << 24) | offset | 1`. */
  function MakeSegmented(id: nat, offset: nat): (address: u32)
    requires id < NUM_SEGMENTS && offset < SEGMENT_SPAN && offset % 2 == 0
    ensures address % 2 == 1
    ensures address / SEGMENT_SPAN == id
    ensures address % SEGMENT_SPAN - 1 == offset
  {
    id * SEGMENT_SPAN + offset + 1
  }

  /** Building a segment-relative address and translating it gives the
      segment's base plus the offset (modulo 2^32) when the segment is
      mapped, and the built address itself when it is not. */
  lemma ResolveMadeAddress(table: SegmentTable, id: nat, offset: nat)
    requires id < NUM_SEGMENTS && offset < SEGMENT_SPAN && offset % 2 == 0
    ensures table[id] != 0 ==>
      SegmentedAddress(table, MakeSegmented(id, offset)) == Ok((table[id] + offset) % TWO_32)
    ensures table[id] == 0 ==>
      SegmentedAddress(table, MakeSegmented(id, offset)) == Ok(MakeSegmented(id, offset))
  {
  }

  /** Before any segment is mapped, translation is the identity on every
      address whose segment id is in range, and fails on every other
      segment-relative address. */
  lemma InitialTableIsIdentity(address: u32)
    ensures address % 2 == 0 || address / SEGMENT_SPAN < 16 ==>
      SegmentedAddress(INITIAL_SEGMENT_TABLE, address) == Ok(address)
    ensures address % 2 == 1 && address / SEGMENT_SPAN >= 16 ==>
      SegmentedAddress(INITIAL_SEGMENT_TABLE, address).Err?
  {
  }
}
