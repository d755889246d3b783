/** The on-disk side of the inode layer: sector geometry, the extent tiers,
    the layout of struct inode_disk and of an indirect index block, and the
    translation of a byte offset to the sector that holds it. */
module InodeLayout {
  import opened Common
  import opened Words

  /** BLOCK_SECTOR_SIZE */
  const SectorSize: nat := 512
  /** DIRECT_BLOCK_SIZE as inode.h declares it (the size of direct[]). */
  const DirectBlockSize: nat := 118
  /** INDIRECT_BLOCK_SIZE: pointers held by one index block. */
  const IndirectBlockSize: nat := 128
  /** INODE_MAGIC */
  const InodeMagic: uint32 := 0x494e4f44
  /** FREE_MAP_SECTOR and ROOT_DIR_SECTOR */
  const FreeMapSector: nat := 0
  const RootDirSector: nat := 1

  /** Bytes addressable through the direct tier. */
  const DirectLimit: nat := SectorSize * DirectBlockSize
  /** Data sectors one inode can address (direct plus single indirect). */
  const MaxSectors: nat := DirectBlockSize + IndirectBlockSize

  type Sector = uint32

  /** The contents of one device sector. */
  type Block = b: seq<byte> | |b| == SectorSize witness Zeros(SectorSize)

  const ZeroBlock: Block := Zeros(SectorSize)

  /** bytes_to_sectors: the number of sectors needed to hold `size` bytes,
      that is, the least n with n sectors covering size bytes. */
  function BytesToSectors(size: nat): (n: nat)
    ensures n * SectorSize >= size
    ensures n == 0 || (n - 1) * SectorSize < size
  {
    (size + SectorSize - 1) / SectorSize
  }

  lemma BytesToSectorsMonotone(a: nat, b: nat)
    requires a <= b
    ensures BytesToSectors(a) <= BytesToSectors(b)
  {
  }

  /** Tier discipline of an extent: counts within bounds, the indirect tier
      used only once the direct tier is full, and the length backed by the
      sectors allocated so far. */
  predicate ExtentInvariant(length: int, numDirect: nat, numIndirect: nat)
  {
    && numDirect <= DirectBlockSize
    && numIndirect <= IndirectBlockSize
    && (numIndirect > 0 ==> numDirect == DirectBlockSize)
    && 0 <= length <= SectorSize * (numDirect + numIndirect)
  }

  /** No sector appears twice. */
  predicate Distinct(ss: seq<Sector>)
  {
    forall i, j :: 0 <= i < j < |ss| ==> ss[i] != ss[j]
  }

  /** The data sectors of an extent in file order: the used direct slots,
      then the used slots of the index block. */
  function ExtentSectors(direct: seq<Sector>, numDirect: nat, index: seq<Sector>, numIndirect: nat)
    : (ss: seq<Sector>)
    requires numDirect <= |direct| && numIndirect <= |index|
    ensures |ss| == numDirect + numIndirect
  {
    direct[..numDirect] + index[..numIndirect]
  }

  /** An extent owns its sectors: its data sectors are distinct and marked
      used, and its index block, when it has one, is used and holds no data. */
  predicate ExtentConsistent(ss: seq<Sector>, hasIndex: bool, indirectPtr: Sector, used: set<Sector>)
  {
    && Distinct(ss)
    && (forall i :: 0 <= i < |ss| ==> ss[i] in used)
    && (hasIndex ==> indirectPtr in used && indirectPtr !in ss)
  }

  /** Appending a sector that was free keeps an extent consistent once the
      sector is marked used. */
  lemma ConsistentAppend(ss: seq<Sector>, hasIndex: bool, indirectPtr: Sector, used: set<Sector>, s: Sector)
    requires ExtentConsistent(ss, hasIndex, indirectPtr, used) && s !in used
    ensures ExtentConsistent(ss + [s], hasIndex, indirectPtr, used + {s})
  {
    assert forall i :: 0 <= i < |ss| ==> (ss + [s])[i] == ss[i];
  }

  /** A chunk that stays inside the sector of `pos` covers consecutive bytes
      of that one sector. */
  lemma SameSector(pos: nat, j: nat)
    requires pos % SectorSize + j < SectorSize
    ensures (pos + j) / SectorSize == pos / SectorSize
    ensures (pos + j) % SectorSize == pos % SectorSize + j
  {
    var q, r := pos / SectorSize, pos % SectorSize;
    assert pos + j == q * SectorSize + (r + j);
  }

  /** The counts after a successful growth by n sectors: the direct tier is
      filled first and the rest goes to the indirect tier. */
  function TierCounts(numDirect: nat, numIndirect: nat, n: nat): (r: (nat, nat))
    requires numDirect <= DirectBlockSize
    ensures r.0 + r.1 == numDirect + numIndirect + n
    ensures numDirect <= r.0 <= DirectBlockSize && numIndirect <= r.1
    ensures r.1 > numIndirect ==> r.0 == DirectBlockSize
  {
    var d := Min(DirectBlockSize, numDirect + n);
    (d, numIndirect + n - (d - numDirect))
  }

  /** Growing a well-formed extent by the sectors `extra` bytes need keeps it
      well-formed once the length grows by `extra`, as long as the tiers have
      room. */
  lemma TierCountsKeepInvariant(length: int, numDirect: nat, numIndirect: nat, extra: nat)
    requires ExtentInvariant(length, numDirect, numIndirect)
    requires numDirect + numIndirect + BytesToSectors(extra) <= MaxSectors
    ensures var r := TierCounts(numDirect, numIndirect, BytesToSectors(extra));
            ExtentInvariant(length + extra, r.0, r.1)
  {
    var n := BytesToSectors(extra);
    var r := TierCounts(numDirect, numIndirect, n);
    assert SectorSize * (r.0 + r.1) == SectorSize * (numDirect + numIndirect) + SectorSize * n;
  }

  /** struct inode_disk, field by field. `length` is an off_t. */
  datatype DiskRecord = DiskRecord(
    start: Sector,
    length: int32,
    parent: Sector,
    typeDir: bool,
    magic: uint32,
    numDirect: uint32,
    numIndirect: uint32,
    numDbIndirect: uint32,
    direct: seq<Sector>,
    indirectPtr: Sector,
    dbIndirectPtr: Sector)
  {
    predicate WellShaped()
    {
      |direct| == DirectBlockSize
    }
  }

  function Int32Word(x: int32): uint32
  {
    if x < 0 then x + TwoTo32 else x
  }

  function WordInt32(w: uint32): int32
  {
    if w < 0x8000_0000 then w else w - TwoTo32
  }

  /** The record as the 128 32-bit words of its C layout; the bool type_dir
      occupies the low byte of its word, the rest being padding. */
  function RecordWords(r: DiskRecord): (ws: seq<uint32>)
    requires r.WellShaped()
    ensures |ws| == SectorSize / 4
  {
    [r.start, Int32Word(r.length), r.parent, if r.typeDir then 1 else 0,
     r.magic, r.numDirect, r.numIndirect, r.numDbIndirect]
    + r.direct + [r.indirectPtr, r.dbIndirectPtr]
  }

  function WordsRecord(ws: seq<uint32>): DiskRecord
    requires |ws| == SectorSize / 4
  {
    DiskRecord(ws[0], WordInt32(ws[1]), ws[2], ws[3] % 0x100 != 0, ws[4], ws[5], ws[6], ws[7],
               ws[8..8 + DirectBlockSize], ws[8 + DirectBlockSize], ws[9 + DirectBlockSize])
  }

  /** block_write of a struct inode_disk: its bytes, exactly one sector. */
  function EncodeRecord(r: DiskRecord): (b: Block)
    requires r.WellShaped()
  {
    WordsToBytes(RecordWords(r))
  }

  /** block_read into a struct inode_disk: any sector reads as some record. */
  function DecodeRecord(b: Block): (r: DiskRecord)
    ensures r.WellShaped()
  {
    WordsRecord(BytesToWords(b))
  }

  /** Writing a record to a sector and reading it back gives the same record. */
  lemma RecordRoundTrip(r: DiskRecord)
    requires r.WellShaped()
    ensures DecodeRecord(EncodeRecord(r)) == r
  {
    WordsRoundTrip(RecordWords(r));
    var ws := RecordWords(r);
    assert ws[8..8 + DirectBlockSize] == r.direct;
  }

  /** struct indirect_block: 128 sector numbers, as one sector. */
  function EncodeIndex(ptrs: seq<Sector>): (b: Block)
    requires |ptrs| == IndirectBlockSize
  {
    WordsToBytes(ptrs)
  }

  function DecodeIndex(b: Block): (ptrs: seq<Sector>)
    ensures |ptrs| == IndirectBlockSize
  {
    BytesToWords(b)
  }

  lemma IndexRoundTrip(ptrs: seq<Sector>)
    requires |ptrs| == IndirectBlockSize
    ensures DecodeIndex(EncodeIndex(ptrs)) == ptrs
  {
    WordsRoundTrip(ptrs);
  }

  /** A zeroed sector read as an index block holds no pointers. */
  lemma {:induction false} ZeroBlockIsEmptyIndex()
    ensures DecodeIndex(ZeroBlock) == seq(IndirectBlockSize, _ => 0)
  {
    ZeroWords(SectorSize / 4);
    assert WordsToBytes(seq(IndirectBlockSize, _ => 0)) == ZeroBlock;
    WordsRoundTrip(seq(IndirectBlockSize, _ => 0));
  }

  lemma {:induction false} ZeroWords(n: nat)
    ensures WordsToBytes(seq(n, _ => 0)) == Zeros(4 * n)
  {
    if n > 0 {
      var ws: seq<uint32> := seq(n, _ => 0);
      assert ws[1..] == seq(n - 1, _ => 0);
      ZeroWords(n - 1);
    }
  }
}
