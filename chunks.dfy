/** Block and chunk geometry, and how read_data cuts a request into sub-reads
    that never cross a chunk boundary. */
module Chunks {

  /** An unsigned 32-bit quantity (request sizes, inodes). */
  type uint32 = x: int | 0 <= x < 0x1_0000_0000

  /** The filesystem block size: offsets and sizes of a read are multiples of it. */
  const MFSBLOCKSIZE: nat := 0x1_0000

  /** The chunk size: a file is a sequence of chunks of this many bytes. */
  const MFSCHUNKSIZE: nat := 0x400_0000

  /** One sub-read: which chunk, where in it, and how many bytes are asked for. */
  datatype SubRead = SubRead(chunkIndex: nat, offsetInChunk: nat, size: nat)

  /** The sub-read read_data issues when it stands at `offset` with `left` bytes
      still to read: the rest of the current chunk, clamped to what is left. */
  function NextSubRead(offset: nat, left: nat): (r: SubRead)
    ensures r.chunkIndex * MFSCHUNKSIZE + r.offsetInChunk == offset
    ensures r.offsetInChunk < MFSCHUNKSIZE
    ensures r.offsetInChunk + r.size <= MFSCHUNKSIZE
    ensures r.size <= left
    ensures r.size == left || r.offsetInChunk + r.size == MFSCHUNKSIZE
    ensures left > 0 ==> r.size > 0
    ensures offset % MFSBLOCKSIZE == 0 && left % MFSBLOCKSIZE == 0 ==>
              r.offsetInChunk % MFSBLOCKSIZE == 0 && r.size % MFSBLOCKSIZE == 0
  {
    var chunkIndex := offset / MFSCHUNKSIZE;
    var offsetInChunk := offset - chunkIndex * MFSCHUNKSIZE;
    var sizeInChunk := MFSCHUNKSIZE - offsetInChunk;
    SubRead(chunkIndex, offsetInChunk, if sizeInChunk > left then left else sizeInChunk)
  }

  /** After a sub-read that was served in full and did not finish the request,
      the next sub-read starts at the beginning of the following chunk. */
  lemma FullSubReadMovesToNextChunk(offset: nat, left: nat)
    requires NextSubRead(offset, left).size < left
    ensures var r := NextSubRead(offset, left);
            NextSubRead(offset + r.size, left - r.size).chunkIndex == r.chunkIndex + 1
            && NextSubRead(offset + r.size, left - r.size).offsetInChunk == 0
  {
    var r := NextSubRead(offset, left);
    assert offset + r.size == (r.chunkIndex + 1) * MFSCHUNKSIZE;
    var r' := NextSubRead(offset + r.size, left - r.size);
    UniqueChunkPosition(offset + r.size, r'.chunkIndex, r'.offsetInChunk, r.chunkIndex + 1, 0);
  }

  /** A byte position has exactly one (chunk index, offset in chunk) pair. */
  lemma UniqueChunkPosition(pos: nat, c1: nat, o1: nat, c2: nat, o2: nat)
    requires o1 < MFSCHUNKSIZE && o2 < MFSCHUNKSIZE
    requires c1 * MFSCHUNKSIZE + o1 == pos && c2 * MFSCHUNKSIZE + o2 == pos
    ensures c1 == c2 && o1 == o2
  {
  }
}
