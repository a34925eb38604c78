/** Index arithmetic and byte-range I/O of the indexed inode
    (src/filesys/inode.c).

    A file of `length` bytes occupies BytesToSectors(length) data sectors,
    reached through a three-level index: the top inode (level 2) has one
    slot per 100 * 100 data sectors, each level-1 inode one slot per 100
    data sectors, and each level-0 inode one slot per data sector.  The
    module states how inode_create sizes every level, how byte_to_sector
    splits a byte offset into the three slot numbers, and that the two
    agree; then it models the chunking loops of inode_read_at and
    inode_write_at. */
module InodeIndex {
  import opened Base

  /** Slots in one inode's index array (DIRECT_INODE, SINGLE_INDIRECT_INODE). */
  const DirectInode: nat := 100
  const SingleIndirectInode: nat := 100

  /** Length of the inode_index array of struct inode_disk. */
  const IndexSlots: nat := 100

  /** Level of every file's top inode (INODE_MAX_LEVEL). */
  const MaxLevel: nat := 2

  /** bytes_to_sectors: the number of sectors that hold `size` bytes. */
  function BytesToSectors(size: nat): (r: nat)
    ensures r * SectorSize >= size
    ensures r == 0 || (r - 1) * SectorSize < size
  {
    DivRoundUp(size, SectorSize)
  }

  /** The two bounds of DivRoundUp determine it: it is the ceiling. */
  lemma CeilUnique(x: nat, f: nat, r: nat)
    requires f > 0
    requires r * f >= x
    requires r == 0 || (r - 1) * f < x
    ensures r == DivRoundUp(x, f)
  {
    var q := DivRoundUp(x, f);
    if q < r {
      MulMonotone(q, r - 1, f);
    } else if r < q {
      MulMonotone(r, q - 1, f);
    }
  }

  /** A length of n whole sectors needs exactly n sectors: the round trip
      inode_create relies on when it passes size * DISK_SECTOR_SIZE to a
      child it wants to hold `size` sectors. */
  lemma WholeSectors(n: nat)
    ensures BytesToSectors(n * SectorSize) == n
  {
    CeilUnique(n * SectorSize, SectorSize, n);
  }

  /** The slot numbers byte_to_sector reads at each index level; NoSector is
      its -1 for a position at or past the end of the file. */
  datatype SectorSlot = NoSector | Slot(top: nat, mid: nat, leaf: nat)

  /** byte_to_sector, up to the index reads: which slot of the top inode,
      of the level-1 inode, and of the level-0 inode lead to the data sector
      holding byte `pos`. */
  function ByteToSector(length: int, pos: nat): (r: SectorSlot)
    ensures r.NoSector? <==> pos >= length
    ensures r.Slot? ==> r.mid < SingleIndirectInode && r.leaf < DirectInode
    ensures r.Slot? ==>
      r.top * (DirectInode * SingleIndirectInode) + r.mid * SingleIndirectInode + r.leaf == pos / SectorSize
  {
    if pos < length then
      var n := pos / SectorSize;
      var rest := n % (DirectInode * SingleIndirectInode);
      Slot(n / (DirectInode * SingleIndirectInode), rest / SingleIndirectInode, rest % SingleIndirectInode)
    else
      NoSector
  }

  lemma DivModUnique(n: nat, d: nat, q: nat, r: nat)
    requires d > 0 && r < d && n == q * d + r
    ensures q == n / d && r == n % d
  {
    var q', r' := n / d, n % d;
    assert n == q' * d + r';
    if q > q' {
      MulMonotone(1, q - q', d);
    } else if q < q' {
      MulMonotone(1, q' - q, d);
    }
  }

  /** The split is the only one with in-range lower slots, so distinct
      sectors of a file never share a slot triple. */
  lemma SlotUnique(length: int, pos: nat, i: nat, j: nat, k: nat)
    requires pos < length
    requires j < SingleIndirectInode && k < DirectInode
    requires i * (DirectInode * SingleIndirectInode) + j * SingleIndirectInode + k == pos / SectorSize
    ensures ByteToSector(length, pos) == Slot(i, j, k)
  {
    var n := pos / SectorSize;
    DivModUnique(n, DirectInode * SingleIndirectInode, i, j * SingleIndirectInode + k);
    DivModUnique(j * SingleIndirectInode + k, SingleIndirectInode, j, k);
  }

  /** Sectors reached through one index slot of an inode at `level`. */
  function Span(level: nat): (s: nat)
    ensures s > 0
  {
    if level == 0 then 1
    else if level == 1 then DirectInode
    else DirectInode * SingleIndirectInode
  }

  /** `count` of an inode at `level` holding `sectors` data sectors, as
      inode_create sets it. */
  function Count(level: nat, sectors: nat): (c: nat)
    ensures c * Span(level) >= sectors
    ensures c == 0 || (c - 1) * Span(level) < sectors
  {
    if level == 0 then sectors else DivRoundUp(sectors, Span(level))
  }

  /** Data sectors inode_create hands to child `i`: the rest, capped at the
      child's span. */
  function ChildSectors(level: nat, sectors: nat, i: nat): (s: nat)
    requires i < Count(level, sectors)
    ensures 0 < s <= Span(level)
    ensures i + 1 < Count(level, sectors) ==> s == Span(level)
  {
    ChildRemainder(level, sectors, i);
    Min(sectors - Span(level) * i, Span(level))
  }

  /** Before child `i` some sectors are still unassigned, and a full span of
      them when `i` is not the last child. */
  lemma ChildRemainder(level: nat, sectors: nat, i: nat)
    requires i < Count(level, sectors)
    ensures sectors - Span(level) * i > 0
    ensures i + 1 < Count(level, sectors) ==> sectors - Span(level) * i >= Span(level)
  {
    MulMonotone(i, Count(level, sectors) - 1, Span(level));
    if i + 1 < Count(level, sectors) {
      MulMonotone(i + 1, Count(level, sectors) - 1, Span(level));
      assert (i + 1) * Span(level) == i * Span(level) + Span(level);
    }
  }

  /** The byte length inode_create passes to the recursive call for child `i`. */
  function ChildLength(level: nat, sectors: nat, i: nat): nat
    requires i < Count(level, sectors)
  {
    ChildSectors(level, sectors, i) * SectorSize
  }

  /** Every child length round-trips to the intended sector count. */
  lemma ChildLengthSectors(level: nat, sectors: nat, i: nat)
    requires i < Count(level, sectors)
    ensures BytesToSectors(ChildLength(level, sectors, i)) == ChildSectors(level, sectors, i)
  {
    WholeSectors(ChildSectors(level, sectors, i));
  }

  function Sum(s: seq<nat>): nat
  {
    if |s| == 0 then 0 else s[0] + Sum(s[1..])
  }

  /** The child sizes of an inode at `level`, in slot order. */
  function ChildSizes(level: nat, sectors: nat): (cs: seq<nat>)
    ensures |cs| == Count(level, sectors)
  {
    seq(Count(level, sectors), i requires 0 <= i < Count(level, sectors) => ChildSectors(level, sectors, i))
  }

  /** Splitting off the first full child leaves the sizes of the remainder. */
  lemma ChildSizesStep(level: nat, sectors: nat)
    requires sectors > Span(level)
    ensures ChildSizes(level, sectors) == [Span(level)] + ChildSizes(level, sectors - Span(level))
  {
    var f := Span(level);
    var c := Count(level, sectors - f);
    assert Count(level, sectors) == c + 1 by {
      if level == 0 {
      } else {
        assert (c + 1) * f == c * f + f;
        if c > 0 { assert c * f == (c - 1) * f + f; }
        CeilUnique(sectors, f, c + 1);
      }
    }
    var a := ChildSizes(level, sectors);
    var b := [f] + ChildSizes(level, sectors - f);
    forall i | 0 <= i < |a|
      ensures a[i] == b[i]
    {
      if i > 0 {
        assert f * i == f * (i - 1) + f;
      }
    }
  }

  /** The child sizes inode_create computes add up to the inode's sectors:
      no data sector is lost or allocated twice. */
  lemma {:induction false} ChildSizesSum(level: nat, sectors: nat)
    ensures Sum(ChildSizes(level, sectors)) == sectors
    decreases sectors
  {
    var f := Span(level);
    if sectors == 0 {
      assert Count(level, sectors) == 0;
    } else if sectors <= f {
      var c := Count(level, sectors);
      assert c == 1 by {
        if c > 1 { MulMonotone(1, c - 1, f); }
      }
      var cs := ChildSizes(level, sectors);
      assert cs[0] == sectors;
      assert cs[1..] == [];
    } else {
      ChildSizesStep(level, sectors);
      var cs := ChildSizes(level, sectors);
      assert cs[1..] == ChildSizes(level, sectors - f);
      ChildSizesSum(level, sectors - f);
    }
  }

  /** The top inode's index array has IndexSlots slots; the count
      inode_create stores there fits exactly when the file has at most
      IndexSlots * 100 * 100 (one million) sectors. */
  lemma TopCountFits(sectors: nat)
    ensures Count(MaxLevel, sectors) <= IndexSlots <==> sectors <= IndexSlots * Span(MaxLevel)
  {
    var c := Count(MaxLevel, sectors);
    if c <= IndexSlots {
      MulMonotone(c, IndexSlots, Span(MaxLevel));
    } else {
      MulMonotone(IndexSlots, c - 1, Span(MaxLevel));
    }
  }

  /** Every byte before the end of a file lands, through byte_to_sector, on a
      slot that inode_create allocated at each of the three levels: the two
      halves of the inode agree on the index layout. */
  lemma SlotInLayout(length: nat, pos: nat)
    requires pos < length
    ensures var slot := ByteToSector(length, pos);
      var sectors := BytesToSectors(length);
      && slot.Slot?
      && slot.top < Count(2, sectors)
      && var mid := BytesToSectors(ChildLength(2, sectors, slot.top));
         && slot.mid < Count(1, mid)
         && var leaf := BytesToSectors(ChildLength(1, mid, slot.mid));
            slot.leaf < Count(0, leaf)
  {
    var slot := ByteToSector(length, pos);
    var sectors := BytesToSectors(length);
    var n := pos / SectorSize;
    assert n < sectors;
    var top := Count(2, sectors);
    assert slot.top < top;
    ChildLengthSectors(2, sectors, slot.top);
    var mid := BytesToSectors(ChildLength(2, sectors, slot.top));
    assert mid == Min(sectors - Span(2) * slot.top, Span(2));
    assert slot.mid * Span(1) + slot.leaf < mid;
    var c1 := Count(1, mid);
    assert slot.mid < c1;
    ChildLengthSectors(1, mid, slot.mid);
  }

  /** One iteration's transfer: `size` bytes at file position `offset`, which
      is byte `sectorOfs` of its sector. */
  datatype Chunk = Chunk(offset: nat, sectorOfs: nat, size: nat)

  /** A chunk stays within one sector and within the file, and the file
      position it starts at has a data sector. */
  predicate ChunkOk(c: Chunk, length: int)
  {
    && c.size > 0
    && c.sectorOfs == c.offset % SectorSize
    && c.sectorOfs + c.size <= SectorSize
    && c.offset + c.size <= length
    && ByteToSector(length, c.offset).Slot?
  }

  /** A chunk that runs to the end of its sector. */
  predicate EndsSector(c: Chunk)
  {
    c.sectorOfs + c.size == SectorSize
  }

  /** The chunks cover [start, start + total) in order, with no gap or overlap. */
  predicate Tiles(cs: seq<Chunk>, start: int, total: int)
  {
    if |cs| == 0 then total == 0
    else
      var last := cs[|cs| - 1];
      && last.offset == start + total - last.size
      && Tiles(cs[..|cs| - 1], start, total - last.size)
  }

  /** The loop shared by inode_read_at and inode_write_at: copy sector-sized
      or smaller chunks until `size` bytes are done or the file ends. */
  method ChunkLoop(length: int, size: int, offset: nat) returns (done: int, chunks: seq<Chunk>)
    ensures done == Max(0, Min(size, length - offset))
    ensures Tiles(chunks, offset, done)
    ensures forall i :: 0 <= i < |chunks| ==> ChunkOk(chunks[i], length)
    ensures forall i :: 0 <= i < |chunks| - 1 ==> EndsSector(chunks[i])
  {
    done := 0;
    chunks := [];
    var left := size;
    var pos := offset;
    while left > 0
      invariant pos == offset + done
      invariant left == size - done
      invariant 0 <= done
      invariant done > 0 ==> done <= length - offset && done <= size
      invariant Tiles(chunks, offset, done)
      invariant forall i :: 0 <= i < |chunks| ==> ChunkOk(chunks[i], length)
      invariant forall i :: 0 <= i < |chunks| - 1 ==> EndsSector(chunks[i])
      invariant |chunks| > 0 && left > 0 && pos < length ==> EndsSector(chunks[|chunks| - 1])
      decreases left
    {
      var sectorOfs := pos % SectorSize;
      var inodeLeft := length - pos;
      var sectorLeft := SectorSize - sectorOfs;
      var minLeft := Min(inodeLeft, sectorLeft);
      var chunkSize := Min(left, minLeft);
      if chunkSize <= 0 {
        break;
      }
      var c := Chunk(pos, sectorOfs, chunkSize);
      assert ChunkOk(c, length);
      var before := chunks;
      chunks := chunks + [c];
      assert chunks[..|chunks| - 1] == before;
      left := left - chunkSize;
      pos := pos + chunkSize;
      done := done + chunkSize;
    }
  }

  /** inode_read_at: nothing past the end; otherwise as many bytes as were
      asked for and the file still has, each chunk inside one sector. */
  method ReadAt(length: int, size: int, offset: nat) returns (bytesRead: int, chunks: seq<Chunk>)
    ensures offset >= length ==> bytesRead == 0 && chunks == []
    ensures offset < length ==> bytesRead == Max(0, Min(size, length - offset))
    ensures Tiles(chunks, offset, bytesRead)
    ensures forall i :: 0 <= i < |chunks| ==> ChunkOk(chunks[i], length)
    ensures forall i :: 0 <= i < |chunks| - 1 ==> EndsSector(chunks[i])
  {
    if offset >= length {
      return 0, [];
    }
    bytesRead, chunks := ChunkLoop(length, size, offset);
  }

  /** What the growth step of inode_write_at leaves: either go on writing
      with the (possibly extended) length, or give up with 0 bytes written. */
  datatype Growth = Proceed(length: int) | GiveUp(length: int)

  /** The growth step as written.  inode_growth stores the new length into
      the in-memory inode before it tries to allocate anything, so a failed
      growth gives up with the length already extended. */
  function GrowAsWritten(length: int, size: int, offset: nat, growthOk: bool): (g: Growth)
    ensures offset + size <= length ==> g == Proceed(length)
    ensures offset + size > length && growthOk ==> g == Proceed(offset + size)
    ensures offset + size > length && !growthOk ==> g.GiveUp? && g.length > length
  {
    if offset + size > length then
      if growthOk then Proceed(offset + size) else GiveUp(offset + size)
    else
      Proceed(length)
  }

  /** A failed growth of an empty file still makes its first byte readable. */
  lemma FailedGrowthExtendsFile()
    ensures GrowAsWritten(0, 1, 0, false) == GiveUp(1)
    ensures ByteToSector(GrowAsWritten(0, 1, 0, false).length, 0).Slot?
  {
  }

  /** The growth step with a failed growth leaving the length alone, as the
      length assignment after a successful inode_growth shows was meant. */
  function Grow(length: int, size: int, offset: nat, growthOk: bool): (g: Growth)
    ensures g.GiveUp? <==> offset + size > length && !growthOk
    ensures g.GiveUp? ==> g.length == length
    ensures g.Proceed? ==> g.length == Max(length, offset + size)
  {
    if offset + size > length then
      if growthOk then Proceed(offset + size) else GiveUp(length)
    else
      Proceed(length)
  }

  /** inode_write_at as written: the same steps as WriteAt, but a failed
      growth returns 0 with the in-memory length already at offset + size,
      because inode_growth stored it there before allocating. */
  method WriteAtAsWritten(length: int, denyWriteCnt: int, size: int, offset: nat, growthOk: bool)
    returns (written: int, newLength: int, chunks: seq<Chunk>)
    ensures denyWriteCnt != 0 ==> written == 0 && newLength == length && chunks == []
    ensures denyWriteCnt == 0 && offset + size > length && !growthOk ==>
      written == 0 && newLength == offset + size && chunks == []
    ensures denyWriteCnt == 0 && offset + size > length && growthOk ==>
      newLength == offset + size && written == Max(0, size)
    ensures denyWriteCnt == 0 && offset + size <= length ==>
      newLength == length && written == Max(0, Min(size, length - offset))
    ensures Tiles(chunks, offset, written)
    ensures forall i :: 0 <= i < |chunks| ==> ChunkOk(chunks[i], newLength)
    ensures forall i :: 0 <= i < |chunks| - 1 ==> EndsSector(chunks[i])
  {
    if denyWriteCnt != 0 {
      return 0, length, [];
    }
    var g := GrowAsWritten(length, size, offset, growthOk);
    if g.GiveUp? {
      return 0, offset + size, [];
    }
    newLength := g.length;
    written, chunks := ChunkLoop(newLength, size, offset);
  }

  /** A failed write as written leaves the file longer than before although
      nothing was written, while the corrected write leaves it as it was. */
  method FailedWriteDiffers() returns (asWritten: int, corrected: int)
    ensures asWritten == 1 && corrected == 0
  {
    var w1, l1, c1 := WriteAtAsWritten(0, 0, 1, 0, false);
    var w2, l2, c2 := WriteAt(0, 0, 1, 0, false);
    asWritten, corrected := l1, l2;
  }

  /** inode_write_at with the corrected growth step: refused while writes
      are denied; a write past the end first grows the file to
      offset + size (growth success is an input), a failed growth leaves
      the length alone, and otherwise every byte asked for that lies within
      the file is written. */
  method WriteAt(length: int, denyWriteCnt: int, size: int, offset: nat, growthOk: bool)
    returns (written: int, newLength: int, chunks: seq<Chunk>)
    ensures denyWriteCnt != 0 ==> written == 0 && newLength == length && chunks == []
    ensures denyWriteCnt == 0 && offset + size > length && !growthOk ==>
      written == 0 && newLength == length && chunks == []
    ensures denyWriteCnt == 0 && offset + size > length && growthOk ==>
      newLength == offset + size && written == Max(0, size)
    ensures denyWriteCnt == 0 && offset + size <= length ==>
      newLength == length && written == Max(0, Min(size, length - offset))
    ensures Tiles(chunks, offset, written)
    ensures forall i :: 0 <= i < |chunks| ==> ChunkOk(chunks[i], newLength)
    ensures forall i :: 0 <= i < |chunks| - 1 ==> EndsSector(chunks[i])
  {
    if denyWriteCnt != 0 {
      return 0, length, [];
    }
    var g := Grow(length, size, offset, growthOk);
    if g.GiveUp? {
      return 0, g.length, [];
    }
    newLength := g.length;
    written, chunks := ChunkLoop(newLength, size, offset);
  }
}
