/** struct inode_disk as the in-memory object that inode_expand grows in
    place, the file's bytes as its sectors hold them, and inode_create, which
    formats a record and writes it to its sector. */
module DiskInodes {
  import opened Common
  import opened InodeLayout
  import opened BlockDevice

  /** The bytes held by the data sectors `ss`, in file order: byte p lives
      at offset p % SectorSize of sector ss[p / SectorSize]. */
  function FileBytes(blocks: map<Sector, Block>, ss: seq<Sector>): (b: seq<byte>)
    ensures |b| == SectorSize * |ss|
  {
    seq(SectorSize * |ss|, p requires 0 <= p < SectorSize * |ss| => SectorIn(blocks, ss[p / SectorSize])[p % SectorSize])
  }

  /** Sector k of the extent holds bytes SectorSize * k onwards. */
  lemma FileBytesSector(blocks: map<Sector, Block>, ss: seq<Sector>, k: nat)
    requires k < |ss|
    ensures FileBytes(blocks, ss)[SectorSize * k .. SectorSize * (k + 1)] == SectorIn(blocks, ss[k])
  {
    var b := FileBytes(blocks, ss);
    forall j | 0 <= j < SectorSize
      ensures b[SectorSize * k + j] == SectorIn(blocks, ss[k])[j]
    {
      SameSector(SectorSize * k, j);
    }
  }

  /** Writing a block to sector k of an extent whose sectors are distinct
      replaces that sector's bytes and no others. */
  lemma FileBytesSectorWrite(blocks: map<Sector, Block>, ss: seq<Sector>, k: nat, blk: Block)
    requires Distinct(ss) && k < |ss|
    ensures FileBytes(blocks[ss[k] := blk], ss)
            == FileBytes(blocks, ss)[..SectorSize * k] + blk + FileBytes(blocks, ss)[SectorSize * (k + 1)..]
  {
    var b0, b1 := FileBytes(blocks, ss), FileBytes(blocks[ss[k] := blk], ss);
    var r := b0[..SectorSize * k] + blk + b0[SectorSize * (k + 1)..];
    forall p | 0 <= p < |b1|
      ensures b1[p] == r[p]
    {
      var q := p / SectorSize;
      if q == k {
        SameSector(SectorSize * k, p - SectorSize * k);
        assert r[p] == blk[p - SectorSize * k];
      } else {
        assert ss[q] != ss[k];
        if q < k {
          assert p < SectorSize * k;
        } else {
          assert p >= SectorSize * (k + 1);
        }
      }
    }
  }

  /** Writing a sector outside the extent leaves the file's bytes alone. */
  lemma FileBytesAfterWrite(blocks: map<Sector, Block>, ss: seq<Sector>, s: Sector, blk: Block)
    requires s !in ss
    ensures FileBytes(blocks[s := blk], ss) == FileBytes(blocks, ss)
  {
    var b0, b1 := FileBytes(blocks, ss), FileBytes(blocks[s := blk], ss);
    forall p | 0 <= p < |b1|
      ensures b1[p] == b0[p]
    {
      assert ss[p / SectorSize] != s;
    }
  }

  /** Copying bytes into one sector of an extent whose sectors are distinct
      copies them into the file at that sector's offset. */
  lemma SectorPatch(blocks: map<Sector, Block>, ss: seq<Sector>, k: nat, ofs: nat, chunk: seq<byte>)
    requires Distinct(ss) && k < |ss| && ofs + |chunk| <= SectorSize
    ensures FileBytes(blocks[ss[k] := Overwrite(SectorIn(blocks, ss[k]), ofs, chunk)], ss)
            == Overwrite(FileBytes(blocks, ss), SectorSize * k + ofs, chunk)
  {
    var b0, base := FileBytes(blocks, ss), SectorSize * k;
    var blk := Overwrite(SectorIn(blocks, ss[k]), ofs, chunk);
    assert SectorSize * (k + 1) == base + SectorSize;
    FileBytesSector(blocks, ss, k);
    assert blk == Overwrite(b0[base .. base + SectorSize], ofs, chunk);
    FileBytesSectorWrite(blocks, ss, k, blk);
    OverwriteWindow(b0, base, SectorSize, ofs, chunk);
  }

  /** Every sector of `ss` was free in `used` and reads as zeros in `blocks`. */
  ghost predicate FreshZeroed(ss: seq<Sector>, used: set<Sector>, blocks: map<Sector, Block>)
  {
    forall k :: 0 <= k < |ss| ==> ss[k] !in used && SectorIn(blocks, ss[k]) == ZeroBlock
  }

  /** `ss1` is `ss0` followed by sectors that were free in `used` and read as
      zeros in `blocks`. */
  ghost predicate Extends(ss0: seq<Sector>, ss1: seq<Sector>, used: set<Sector>, blocks: map<Sector, Block>)
  {
    |ss0| <= |ss1| && ss1[..|ss0|] == ss0 && FreshZeroed(ss1[|ss0|..], used, blocks)
  }

  /** Every sector of `sectors` holds the same block in `b0` and in `b1`. */
  ghost predicate SameOn(b0: map<Sector, Block>, b1: map<Sector, Block>, sectors: set<Sector>)
  {
    forall s :: s in sectors ==> SectorIn(b1, s) == SectorIn(b0, s)
  }

  /** A write to a sector already in use keeps an extension's new sectors
      fresh and zeroed, also relative to a smaller set of used sectors. */
  lemma ExtendsAfterWrite(
    ss0: seq<Sector>, ss1: seq<Sector>, u0: set<Sector>, u1: set<Sector>,
    blocks: map<Sector, Block>, s: Sector, b: Block)
    requires Extends(ss0, ss1, u1, blocks) && u0 <= u1 && s in u1
    ensures Extends(ss0, ss1, u0, blocks[s := b])
  {
    var tail := ss1[|ss0|..];
    forall k | 0 <= k < |tail|
      ensures tail[k] !in u0 && SectorIn(blocks[s := b], tail[k]) == ZeroBlock
    {
      assert tail[k] != s;
    }
  }

  /** Extending the tail of a sequence extends the whole sequence. */
  lemma ExtendsPrefix(p: seq<Sector>, ss0: seq<Sector>, ss1: seq<Sector>, used: set<Sector>, blocks: map<Sector, Block>)
    requires Extends(ss0, ss1, used, blocks)
    ensures Extends(p + ss0, p + ss1, used, blocks)
  {
    assert (p + ss1)[..|p + ss0|] == p + ss1[..|ss0|];
    assert (p + ss1)[|p + ss0|..] == ss1[|ss0|..];
  }

  /** A write outside `sectors` keeps them as they were. */
  lemma SameOnWrite(b0: map<Sector, Block>, b1: map<Sector, Block>, sectors: set<Sector>, s: Sector, b: Block)
    requires SameOn(b0, b1, sectors) && s !in sectors
    ensures SameOn(b0, b1[s := b], sectors)
  {
  }

  lemma SameOnTrans(b0: map<Sector, Block>, b1: map<Sector, Block>, b2: map<Sector, Block>, s0: set<Sector>, s1: set<Sector>)
    requires SameOn(b0, b1, s0) && SameOn(b1, b2, s1) && s0 <= s1
    ensures SameOn(b0, b2, s0)
  {
  }

  /** The sectors of `used` other than an extent's index block. */
  function Except(used: set<Sector>, hasIndex: bool, indirectPtr: Sector): set<Sector>
  {
    if hasIndex then used - {indirectPtr} else used
  }

  /** Two growth steps compose into one: the sectors the first step added
      belong to the extent, so the second step leaves their zeros alone. */
  lemma ExtendsTrans(
    a: seq<Sector>, b: seq<Sector>, c: seq<Sector>, u0: set<Sector>, u1: set<Sector>,
    b1: map<Sector, Block>, b2: map<Sector, Block>, hasIndex: bool, indirectPtr: Sector)
    requires Extends(a, b, u0, b1) && Extends(b, c, u1, b2) && u0 <= u1
    requires ExtentConsistent(b, hasIndex, indirectPtr, u1)
    requires SameOn(b1, b2, Except(u1, hasIndex, indirectPtr))
    ensures Extends(a, c, u0, b2)
  {
    assert c[..|a|] == b[..|a|];
    forall k | 0 <= k < |c| - |a|
      ensures c[|a|..][k] !in u0 && SectorIn(b2, c[|a|..][k]) == ZeroBlock
    {
      if |a| + k < |b| {
        assert c[|a|..][k] == b[|a|..][k] == b[|a| + k];
        assert b[|a| + k] in Except(u1, hasIndex, indirectPtr);
      } else {
        assert c[|a|..][k] == c[|b|..][|a| + k - |b|];
      }
    }
  }

  /** Growing an extent by appending zeroed sectors, while leaving the blocks
      of the sectors it owned alone, keeps every byte it had and adds only
      zeros. */
  lemma GrowthKeepsBytes(
    ss0: seq<Sector>, ss1: seq<Sector>, b0: map<Sector, Block>, b1: map<Sector, Block>,
    hasIndex: bool, indirectPtr: Sector, used: set<Sector>)
    requires ExtentConsistent(ss0, hasIndex, indirectPtr, used)
    requires Extends(ss0, ss1, used, b1)
    requires SameOn(b0, b1, Except(used, hasIndex, indirectPtr))
    ensures FileBytes(b1, ss1) == FileBytes(b0, ss0) + Zeros(SectorSize * (|ss1| - |ss0|))
  {
    var f0, f1 := FileBytes(b0, ss0), FileBytes(b1, ss1);
    forall p | 0 <= p < |f1|
      ensures f1[p] == (f0 + Zeros(SectorSize * (|ss1| - |ss0|)))[p]
    {
      var k := p / SectorSize;
      if p < |f0| {
        assert k < |ss0|;
        assert ss1[k] == ss1[..|ss0|][k] == ss0[k];
        assert ss0[k] in Except(used, hasIndex, indirectPtr);
      } else {
        assert |ss0| <= k < |ss1|;
        assert ss1[k] == ss1[|ss0|..][k - |ss0|];
      }
    }
  }

  /** The data sectors a record names, reading its index block from `blocks`. */
  function RecordSectors(r: DiskRecord, blocks: map<Sector, Block>): (ss: seq<Sector>)
    requires r.WellShaped() && r.numDirect <= DirectBlockSize && r.numIndirect <= IndirectBlockSize
    ensures |ss| == r.numDirect + r.numIndirect
  {
    ExtentSectors(r.direct, r.numDirect, DecodeIndex(SectorIn(blocks, r.indirectPtr)), r.numIndirect)
  }

  /** Writing a sector the record does not use as its index block leaves the
      sectors it names alone. */
  lemma RecordSectorsAfterWrite(r: DiskRecord, blocks: map<Sector, Block>, s: Sector, b: Block)
    requires r.WellShaped() && r.numDirect <= DirectBlockSize && r.numIndirect <= IndirectBlockSize
    requires r.numIndirect > 0 ==> r.indirectPtr != s
    ensures RecordSectors(r, blocks[s := b]) == RecordSectors(r, blocks)
  {
    if r.numIndirect > 0 {
      assert SectorIn(blocks[s := b], r.indirectPtr) == SectorIn(blocks, r.indirectPtr);
    }
  }

  /** Writing a sector that was already in use keeps fresh sectors zeroed. */
  lemma FreshZeroedAfterWrite(ss: seq<Sector>, used: set<Sector>, blocks: map<Sector, Block>, s: Sector, b: Block)
    requires FreshZeroed(ss, used, blocks) && s in used
    ensures FreshZeroed(ss, used, blocks[s := b])
  {
    forall k | 0 <= k < |ss|
      ensures SectorIn(blocks[s := b], ss[k]) == ZeroBlock
    {
      assert ss[k] != s;
    }
  }

  class DiskInode {
    var start: Sector
    var length: int
    var parent: Sector
    var typeDir: bool
    var magic: uint32
    var numDirect: nat
    var numIndirect: nat
    var numDbIndirect: uint32
    var direct: seq<Sector>
    var indirectPtr: Sector
    var dbIndirectPtr: Sector

    /** The direct array has its declared size and the extent is well formed. */
    ghost predicate Valid()
      reads this
    {
      |direct| == DirectBlockSize && ExtentInvariant(length, numDirect, numIndirect)
    }

    /** The pointers of the index block as the device holds it. */
    function Index(dev: Device): (ptrs: seq<Sector>)
      reads this, dev
      ensures |ptrs| == IndirectBlockSize
    {
      DecodeIndex(dev.Read(indirectPtr))
    }

    /** The file's data sectors in file order. */
    function Sectors(dev: Device): (ss: seq<Sector>)
      reads this, dev
      requires Valid()
      ensures |ss| == numDirect + numIndirect
    {
      ExtentSectors(direct, numDirect, Index(dev), numIndirect)
    }

    /** The extent owns its sectors (distinct, in use, apart from the index
        block). */
    ghost predicate Consistent(dev: Device, used: set<Sector>)
      reads this, dev
    {
      Valid() && ExtentConsistent(Sectors(dev), numIndirect > 0, indirectPtr, used)
    }

    /** The bytes of every allocated sector, in file order. */
    ghost function Bytes(dev: Device): (b: seq<byte>)
      reads this, dev
      requires Valid()
      ensures |b| == SectorSize * (numDirect + numIndirect) && length <= |b|
    {
      FileBytes(dev.blocks, Sectors(dev))
    }

    /** Every allocated byte at or past the length reads as zero. */
    ghost predicate ZeroTail(dev: Device)
      reads this, dev
      requires Valid()
    {
      forall p :: length <= p < |Bytes(dev)| ==> Bytes(dev)[p] == 0
    }

    /** byte_to_sector, looking the offset up in the direct tier and then in
        the index block: the sector holding byte `pos`, for offsets below the
        length bound the caller passes and inside the allocated sectors. */
    function ByteToSector(dev: Device, bound: int, pos: int): (r: Option<Sector>)
      reads this, dev
      requires Valid()
      ensures r.Some? <==> 0 <= pos < bound && pos / SectorSize < numDirect + numIndirect
      ensures r.Some? ==> r.value == Sectors(dev)[pos / SectorSize]
    {
      if 0 <= pos < bound && pos / SectorSize < numDirect + numIndirect then
        var k := pos / SectorSize;
        if k < DirectBlockSize then Some(direct[k]) else Some(Index(dev)[k - DirectBlockSize])
      else
        None
    }

    /** The value block_write stores for this record. */
    function Record(): (r: DiskRecord)
      reads this
      requires Valid()
      ensures r.WellShaped()
    {
      DiskRecord(start, length, parent, typeDir, magic, numDirect, numIndirect, numDbIndirect,
                 direct, indirectPtr, dbIndirectPtr)
    }

    /** One chunk of inode_write_at: look up the sector holding `pos`, read
        it, copy `chunk` into it and write it back. When the chunk covers
        the whole sector the source writes the caller's bytes directly,
        which stores the same block. */
    method WriteChunk(pos: nat, chunk: seq<byte>, dev: Device)
      requires Valid() && 0 < |chunk| && pos + |chunk| <= length && pos % SectorSize + |chunk| <= SectorSize
      requires Distinct(Sectors(dev)) && (numIndirect > 0 ==> indirectPtr !in Sectors(dev))
      modifies dev
      ensures Sectors(dev) == old(Sectors(dev))
      ensures Bytes(dev) == Overwrite(old(Bytes(dev)), pos, chunk)
    {
      ghost var b0, ss := dev.blocks, Sectors(dev);
      assert pos / SectorSize < numDirect + numIndirect;
      var sectorIdx := ByteToSector(dev, length, pos);
      var ofs := pos % SectorSize;
      var block := dev.Read(sectorIdx.value);
      var updated := Overwrite(block, ofs, chunk);
      dev.Write(sectorIdx.value, updated);
      if numIndirect > 0 {
        assert dev.Read(indirectPtr) == SectorIn(b0, indirectPtr);
      }
      assert Sectors(dev) == ss;
      SectorPatch(b0, ss, pos / SectorSize, ofs, chunk);
      assert SectorSize * (pos / SectorSize) + ofs == pos;
    }

    /** block_read of a record into memory. */
    constructor FromRecord(r: DiskRecord)
      requires r.WellShaped() && ExtentInvariant(r.length, r.numDirect, r.numIndirect)
      ensures Valid() && Record() == r
    {
      start, length, parent, typeDir, magic := r.start, r.length, r.parent, r.typeDir, r.magic;
      numDirect, numIndirect, numDbIndirect := r.numDirect, r.numIndirect, r.numDbIndirect;
      direct, indirectPtr, dbIndirectPtr := r.direct, r.indirectPtr, r.dbIndirectPtr;
    }

    /** The record inode_create formats before growing it: calloc'd, so
        every field starts at zero, then the magic, type and parent set; no
        sectors yet. */
    constructor Formatted(typeDir: bool)
      ensures Valid() && numDirect == 0 && numIndirect == 0 && length == 0
      ensures magic == InodeMagic && this.typeDir == typeDir && parent == RootDirSector && start == 0
      ensures numDbIndirect == 0 && indirectPtr == 0 && dbIndirectPtr == 0
      ensures direct == seq(DirectBlockSize, _ => 0)
    {
      start, length, parent, this.typeDir, magic := 0, 0, RootDirSector, typeDir, InodeMagic;
      numDirect, numIndirect, numDbIndirect := 0, 0, 0;
      direct := seq(DirectBlockSize, _ => 0);
      indirectPtr, dbIndirectPtr := 0, 0;
    }

    /** inode_expand: allocate the BytesToSectors(bytes) sectors needed to
        grow the file by `bytes`, into the direct tier first and then into the
        single indirect index block, zeroing each. On success `length` grows
        by `bytes`; on failure it is unchanged and what was allocated stays
        allocated and recorded. */
    method Expand(bytes: nat, fm: FreeMap, dev: Device) returns (success: bool)
      requires Consistent(dev, fm.used) && fm.Valid()
      modifies this, fm, dev
      ensures Consistent(dev, fm.used) && fm.Valid() && old(fm.used) <= fm.used
      ensures success ==> length == old(length) + bytes
      ensures !success ==> length == old(length)
      ensures success ==> (numDirect, numIndirect)
                          == TierCounts(old(numDirect), old(numIndirect), BytesToSectors(bytes))
      ensures success ==> old(numDirect) + old(numIndirect) + BytesToSectors(bytes) <= MaxSectors
      ensures success ==> !(bytes == 0 && old(numDirect) == DirectBlockSize)
      ensures !success ==> || old(numDirect) + old(numIndirect) + BytesToSectors(bytes) > MaxSectors
                           || (bytes == 0 && old(numDirect) == DirectBlockSize)
                           || fm.Full()
      // Appending only: the old sectors keep their places; the new ones are
      // fresh from the free map and zeroed.
      ensures Extends(old(Sectors(dev)), Sectors(dev), old(fm.used), dev.blocks)
      // The device changes only in fresh sectors and in the index block.
      ensures old(numIndirect) > 0 ==> indirectPtr == old(indirectPtr)
      ensures old(numIndirect) == 0 && numIndirect > 0 ==> indirectPtr !in old(fm.used)
      ensures SameOn(old(dev.blocks), dev.blocks, Except(old(fm.used), old(numIndirect) > 0, old(indirectPtr)))
      ensures start == old(start) && parent == old(parent) && typeDir == old(typeDir)
      ensures magic == old(magic) && numDbIndirect == old(numDbIndirect)
      ensures dbIndirectPtr == old(dbIndirectPtr)
    {
      var sectors: nat := BytesToSectors(bytes);
      var tierWasFull := numDirect == DirectBlockSize;
      success := false;
      var remaining := sectors;
      if !tierWasFull {
        var aborted;
        assert Sectors(dev) == direct[..numDirect];
        remaining, aborted := GrowDirect(sectors, fm, dev);
        assert Sectors(dev) == direct[..numDirect];
        if aborted {
          return;
        }
      }
      if remaining == 0 {
        // The direct loop reports success only from inside an iteration, so
        // a request for nothing fails when the direct tier is already full.
        success := !tierWasFull;
      } else {
        ghost var ssM, bM, usedM := Sectors(dev), dev.blocks, fm.used;
        success := GrowIndirect(remaining, fm, dev);
        ExtendsTrans(old(Sectors(dev)), ssM, Sectors(dev), old(fm.used), usedM, bM, dev.blocks,
                     old(numIndirect) > 0, old(indirectPtr));
      }
      if success {
        TierCountsKeepInvariant(length, old(numDirect), old(numIndirect), bytes);
        length := length + bytes;
      }
    }

    /** The direct-tier loop of inode_expand, entered while the direct tier
        has room: one freshly allocated, zeroed sector per free direct slot
        while sectors are still wanted. `aborted` reports a failed
        allocation. */
    method GrowDirect(sectors: nat, fm: FreeMap, dev: Device) returns (remaining: nat, aborted: bool)
      requires Valid() && numDirect < DirectBlockSize && fm.Valid()
      requires ExtentConsistent(direct[..numDirect], false, indirectPtr, fm.used)
      modifies this`numDirect, this`direct, fm, dev
      ensures Valid() && fm.Valid() && old(fm.used) <= fm.used
      ensures ExtentConsistent(direct[..numDirect], false, indirectPtr, fm.used)
      ensures !aborted ==> && numDirect == Min(DirectBlockSize, old(numDirect) + sectors)
                           && remaining == sectors - (numDirect - old(numDirect))
      ensures aborted ==> fm.Full()
      ensures Extends(old(direct[..numDirect]), direct[..numDirect], old(fm.used), dev.blocks)
      ensures SameOn(old(dev.blocks), dev.blocks, old(fm.used))
    {
      remaining, aborted := sectors, false;
      while numDirect < DirectBlockSize && remaining > 0
        invariant old(numDirect) <= numDirect <= DirectBlockSize
        invariant remaining + (numDirect - old(numDirect)) == sectors
        invariant Valid() && fm.Valid() && old(fm.used) <= fm.used
        invariant ExtentConsistent(direct[..numDirect], false, indirectPtr, fm.used)
        invariant Extends(old(direct[..numDirect]), direct[..numDirect], old(fm.used), dev.blocks)
        invariant SameOn(old(dev.blocks), dev.blocks, old(fm.used))
        invariant forall k :: old(numDirect) <= k < numDirect ==> direct[k] in fm.used
        decreases DirectBlockSize - numDirect
      {
        ghost var prev, used := direct[..numDirect], fm.used;
        var s := fm.Allocate();
        if s.None? {
          return remaining, true;
        }
        direct := direct[numDirect := s.value];
        dev.Write(s.value, ZeroBlock);
        remaining := remaining - 1;
        numDirect := numDirect + 1;
        assert direct[..numDirect] == prev + [s.value];
        ConsistentAppend(prev, false, indirectPtr, used, s.value);
      }
    }

    /** The indirect-tier branch of inode_expand: open the index block,
        fill its free slots with freshly allocated, zeroed sectors while
        sectors are still wanted, and write it back. */
    method GrowIndirect(sectors: nat, fm: FreeMap, dev: Device) returns (success: bool)
      requires Consistent(dev, fm.used) && fm.Valid()
      requires numDirect == DirectBlockSize && sectors > 0
      modifies this`numIndirect, this`indirectPtr, fm, dev
      ensures Consistent(dev, fm.used) && fm.Valid() && old(fm.used) <= fm.used
      ensures success ==> numIndirect == old(numIndirect) + sectors
      ensures !success ==> old(numIndirect) + sectors > IndirectBlockSize || fm.Full()
      ensures old(numIndirect) > 0 ==> indirectPtr == old(indirectPtr)
      ensures old(numIndirect) == 0 && numIndirect > 0 ==> indirectPtr !in old(fm.used)
      ensures Extends(old(Sectors(dev)), Sectors(dev), old(fm.used), dev.blocks)
      ensures SameOn(old(dev.blocks), dev.blocks, Except(old(fm.used), old(numIndirect) > 0, old(indirectPtr)))
    {
      var block, ready := OpenIndex(fm, dev);
      if !ready {
        return false;
      }
      ghost var usedO, blocksO, slots := fm.used, dev.blocks, block[..numIndirect];
      success := FillIndexBlock(block, sectors, fm, dev);
      ghost var blocksF := dev.blocks;
      dev.Write(indirectPtr, EncodeIndex(block[..]));
      IndexRoundTrip(block[..]);
      assert Sectors(dev) == direct + block[..numIndirect];
      ExtendsAfterWrite(slots, block[..numIndirect], old(fm.used), usedO, blocksF, indirectPtr, EncodeIndex(block[..]));
      ExtendsPrefix(direct, slots, block[..numIndirect], old(fm.used), dev.blocks);
      SameOnWrite(blocksO, blocksF, usedO - {indirectPtr}, indirectPtr, EncodeIndex(block[..]));
      SameOnTrans(old(dev.blocks), blocksO, dev.blocks, Except(old(fm.used), old(numIndirect) > 0, old(indirectPtr)),
                  usedO - {indirectPtr});
    }

    /** The start of the indirect tier: with no indirect sectors yet, allocate
        an index block and write it out empty; otherwise read the index
        block back. Either way `block` ends up holding its pointers. Fails
        only when the index block cannot be allocated. */
    method OpenIndex(fm: FreeMap, dev: Device) returns (block: array<Sector>, ready: bool)
      requires Consistent(dev, fm.used) && fm.Valid() && numDirect == DirectBlockSize
      modifies this`indirectPtr, fm, dev
      ensures fresh(block) && block.Length == IndirectBlockSize
      ensures Valid() && fm.Valid() && old(fm.used) <= fm.used
      ensures !ready ==> old(numIndirect) == 0 && fm.Full() && fm.used == old(fm.used) && indirectPtr == old(indirectPtr)
      ensures !ready ==> dev.blocks == old(dev.blocks)
      ensures ready ==> block[..numIndirect] == old(Index(dev)[..numIndirect])
      ensures ready ==> ExtentConsistent(direct + block[..numIndirect], true, indirectPtr, fm.used)
      ensures old(numIndirect) > 0 ==> indirectPtr == old(indirectPtr) && fm.used == old(fm.used) && dev.blocks == old(dev.blocks)
      ensures old(numIndirect) == 0 && ready ==> indirectPtr !in old(fm.used)
      ensures SameOn(old(dev.blocks), dev.blocks, fm.used - {indirectPtr})
    {
      block := new Sector[IndirectBlockSize](_ => 0);
      ready := true;
      assert Sectors(dev) == direct + Index(dev)[..numIndirect];
      if numIndirect == 0 {
        var s := fm.Allocate();
        if s.None? {
          return block, false;
        }
        indirectPtr := s.value;
        dev.Write(indirectPtr, EncodeIndex(block[..]));
        assert direct + block[..numIndirect] == direct;
      } else {
        var ptrs := DecodeIndex(dev.Read(indirectPtr));
        forall k | 0 <= k < IndirectBlockSize {
          block[k] := ptrs[k];
        }
        assert block[..numIndirect] == ptrs[..numIndirect];
      }
    }

    /** The slot loop of the indirect tier: one freshly allocated, zeroed
        sector per free slot of the index block `block`, while sectors are
        still wanted. The loop runs only while a slot is free, so a full
        index block takes no more sectors and the growth fails. */
    method FillIndexBlock(block: array<Sector>, sectors: nat, fm: FreeMap, dev: Device)
      returns (placed: bool)
      requires Valid() && fm.Valid()
      requires numDirect == DirectBlockSize && sectors > 0 && block.Length == IndirectBlockSize
      requires ExtentConsistent(direct + block[..numIndirect], true, indirectPtr, fm.used)
      modifies this`numIndirect, block, fm, dev
      ensures Valid() && fm.Valid() && old(fm.used) <= fm.used
      ensures ExtentConsistent(direct + block[..numIndirect], true, indirectPtr, fm.used)
      ensures old(numIndirect) <= numIndirect
      ensures placed ==> numIndirect == old(numIndirect) + sectors
      ensures !placed ==> old(numIndirect) + sectors > IndirectBlockSize || fm.Full()
      ensures old(numIndirect) + sectors > IndirectBlockSize ==> !placed && numIndirect <= IndirectBlockSize
      ensures Extends(old(block[..numIndirect]), block[..numIndirect], old(fm.used), dev.blocks)
      ensures SameOn(old(dev.blocks), dev.blocks, old(fm.used))
    {
      var remaining := sectors;
      while numIndirect < IndirectBlockSize
        invariant old(numIndirect) <= numIndirect <= IndirectBlockSize
        invariant remaining + (numIndirect - old(numIndirect)) == sectors && remaining > 0
        invariant Valid() && fm.Valid() && old(fm.used) <= fm.used
        invariant ExtentConsistent(direct + block[..numIndirect], true, indirectPtr, fm.used)
        invariant Extends(old(block[..numIndirect]), block[..numIndirect], old(fm.used), dev.blocks)
        invariant SameOn(old(dev.blocks), dev.blocks, old(fm.used))
        decreases IndirectBlockSize - numIndirect
      {
        ghost var prev, used := block[..numIndirect], fm.used;
        var s := fm.Allocate();
        if s.None? {
          return false;
        }
        block[numIndirect] := s.value;
        dev.Write(s.value, ZeroBlock);
        remaining := remaining - 1;
        numIndirect := numIndirect + 1;
        assert block[..numIndirect] == prev + [s.value];
        assert direct + block[..numIndirect] == (direct + prev) + [s.value];
        ConsistentAppend(direct + prev, true, indirectPtr, used, s.value);
        if remaining == 0 {
          return true;
        }
      }
      placed := false;
    }

    /** block_write (fs_device, sector, disk_inode): store the record in a
        sector that was in use before the record's own sectors were
        allocated. */
    method Store(sector: Sector, ghost used: set<Sector>, dev: Device)
      requires Valid() && sector in used
      requires FreshZeroed(Sectors(dev), used, dev.blocks)
      requires numIndirect > 0 ==> indirectPtr !in used
      modifies dev
      ensures dev.blocks == old(dev.blocks)[sector := EncodeRecord(Record())]
      ensures DecodeRecord(dev.Read(sector)) == Record()
      ensures RecordSectors(Record(), dev.blocks) == old(Sectors(dev))
      ensures FreshZeroed(RecordSectors(Record(), dev.blocks), used, dev.blocks)
    {
      ghost var b0 := dev.blocks;
      assert Sectors(dev) == RecordSectors(Record(), b0);
      dev.Write(sector, EncodeRecord(Record()));
      RecordRoundTrip(Record());
      RecordSectorsAfterWrite(Record(), b0, sector, EncodeRecord(Record()));
      FreshZeroedAfterWrite(old(Sectors(dev)), used, b0, sector, EncodeRecord(Record()));
    }
  }

  /** inode_create: format a zeroed record (magic, type, parent the root
      directory, no sectors), grow it by `length` bytes, and only if that
      succeeds write it to `sector`, which the caller has already allocated.
      `rec` is the record written. */
  method Create(sector: Sector, length: int32, typeDir: bool, fm: FreeMap, dev: Device)
    returns (success: bool, ghost rec: DiskRecord)
    requires length >= 0 && fm.Valid() && sector in fm.used
    modifies fm, dev
    ensures fm.Valid() && old(fm.used) <= fm.used
    ensures success ==> BytesToSectors(length) <= MaxSectors
    ensures !success ==> BytesToSectors(length) > MaxSectors || fm.Full()
    ensures !success ==> dev.Read(sector) == old(dev.Read(sector))
    ensures success ==> DecodeRecord(dev.Read(sector)) == rec
    ensures success ==> rec.length == length
    ensures rec.magic == InodeMagic && rec.typeDir == typeDir
    ensures rec.parent == RootDirSector && rec.start == 0
    ensures success ==> (rec.numDirect as nat, rec.numIndirect as nat) == TierCounts(0, 0, BytesToSectors(length))
    ensures success ==> FreshZeroed(RecordSectors(rec, dev.blocks), old(fm.used), dev.blocks)
    ensures success ==> ExtentConsistent(RecordSectors(rec, dev.blocks), rec.numIndirect > 0, rec.indirectPtr, fm.used)
  {
    var d := new DiskInode.Formatted(typeDir);
    success := d.Expand(length, fm, dev);
    rec := d.Record();
    if success {
      d.Store(sector, old(fm.used), dev);
    }
  }
}
