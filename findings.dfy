/** Places where the code does something other than what it evidently
    means to do. Each is modelled here as written, with a lemma naming an
    input that shows the difference; the rest of the model uses the
    corrected behaviour. */
module Findings {
  import opened Common
  import opened InodeLayout
  import opened BlockDevice
  import opened Tokens
  import opened CommandLine
  import opened FilesysPaths
  import Inodes

  // ---------------------------------------------------------------------
  // byte_to_sector (inode.c:32-41) with DIRECT_BLOCK_SIZE 119 (inode.c:10)

  /** What byte_to_sector yields as written: a direct slot, a slot index
      past the end of the direct array, or no value at all (the function
      falls off its end without a return). */
  datatype Lookup = Found(sector: Sector) | PastDirectArray(slot: nat) | NoValue

  /** The bound inode.c uses for the direct tier. */
  const DirectBlockSizeAsWritten: nat := 119

  /** byte_to_sector as written: offsets below both the length bound and
      BLOCK_SECTOR_SIZE * 119 index the direct array; every other offset
      gets no value, whatever the indirect tier holds. */
  function ByteToSectorAsWritten(direct: seq<Sector>, bound: int, pos: nat): (r: Lookup)
    requires |direct| == DirectBlockSize
    ensures r.Found? ==> pos < bound && pos / SectorSize < DirectBlockSize && r.sector == direct[pos / SectorSize]
    ensures r.PastDirectArray? ==> pos < bound && r.slot == pos / SectorSize == DirectBlockSize
    ensures r.NoValue? <==> bound <= pos || SectorSize * DirectBlockSizeAsWritten <= pos
  {
    if pos < bound && pos < SectorSize * DirectBlockSizeAsWritten then
      if pos / SectorSize < |direct| then Found(direct[pos / SectorSize]) else PastDirectArray(pos / SectorSize)
    else
      NoValue
  }

  /** The 119th sector of a file: offset 60416 passes the guard but indexes
      slot 118 of the 118-slot direct array of struct inode_disk. */
  lemma DirectBoundOverrun(direct: seq<Sector>, length: int)
    requires |direct| == DirectBlockSize && length > SectorSize * DirectBlockSize
    ensures ByteToSectorAsWritten(direct, length, SectorSize * DirectBlockSize) == PastDirectArray(DirectBlockSize)
  {
  }

  /** A file longer than 119 sectors has data the lookup never reaches:
      offset 60928 gets no sector although the file holds a byte there. */
  lemma IndirectTierIgnored(direct: seq<Sector>, length: nat)
    requires |direct| == DirectBlockSize && length > SectorSize * DirectBlockSizeAsWritten
    ensures ByteToSectorAsWritten(direct, length, SectorSize * DirectBlockSizeAsWritten) == NoValue
    ensures BytesToSectors(length) > DirectBlockSizeAsWritten
  {
    BytesToSectorsMonotone(SectorSize * DirectBlockSizeAsWritten + 1, length);
  }

  // ---------------------------------------------------------------------
  // inode_expand (inode.c:420-482)

  /** One pass of the direct loop of inode_expand as written: the slot takes
      what free_map_allocate gives, keeps its old value when the allocation
      fails, and is counted and zeroed either way. The result is the sector
      recorded in the slot, which the pass then zeroes. */
  function DirectSlotAsWritten(slot: Sector, grant: Option<Sector>): (recorded: Sector)
    ensures grant.Some? ==> recorded == grant.value
    ensures grant.None? ==> recorded == slot
  {
    if grant.Some? then grant.value else slot
  }

  /** inode_create calloc's the record, so every direct slot starts at 0.
      When the disk is full the first pass records sector 0, the free map's
      own sector, as the file's first data sector and writes zeroes over
      it. */
  lemma FullDiskZeroesFreeMap()
    ensures DirectSlotAsWritten(0, None) == FreeMapSector
  {
  }

  /** The counts the direct loop of inode_expand reaches as written, for
      `sectors` wanted: the loop runs while numDirect is below 119, one more
      than the 118 slots of the direct array. Each pass places a sector if
      one is wanted and reports success once none is. The result is the new
      direct count and whether the loop reported success. */
  function DirectLoopAsWritten(numDirect: nat, sectors: nat): (r: (nat, bool))
    requires numDirect <= DirectBlockSizeAsWritten
    ensures r.0 == numDirect + Min(sectors, DirectBlockSizeAsWritten - numDirect)
    ensures r.1 <==> numDirect + sectors <= DirectBlockSizeAsWritten && numDirect < DirectBlockSizeAsWritten
    decreases DirectBlockSizeAsWritten - numDirect
  {
    if numDirect == DirectBlockSizeAsWritten then (numDirect, false)
    else if sectors == 0 then (numDirect, true)
    else if sectors == 1 then (numDirect + 1, true)
    else DirectLoopAsWritten(numDirect + 1, sectors - 1)
  }

  /** A record whose 118 direct slots are all used still enters the direct
      loop: growing it by one sector fills slot 118, which in struct
      inode_disk is the index pointer, where the corrected growth puts the
      sector in the indirect tier; and growing it by nothing succeeds, where
      the corrected loop is not entered and reports failure. */
  lemma FullDirectTierOverrun()
    ensures DirectLoopAsWritten(DirectBlockSize, 1) == (DirectBlockSize + 1, true)
    ensures TierCounts(DirectBlockSize, 0, 1) == (DirectBlockSize, 1)
    ensures DirectLoopAsWritten(DirectBlockSize, 0) == (DirectBlockSize, true)
  {
  }

  /** The index sector inode_expand reads or fills as written: the
      assignment `indirect_ptr = block.ind_ptrs` replaces the pointer with
      the (truncated) address `stackAddr` of a local array before the tier
      is consulted; only a first indirect expansion then allocates a fresh
      index sector. */
  function IndexSectorAsWritten(numIndirect: nat, indirectPtr: Sector, grant: Option<Sector>, stackAddr: Sector)
    : (s: Sector)
    ensures numIndirect > 0 ==> s == stackAddr
    ensures numIndirect == 0 && grant.Some? ==> s == grant.value
  {
    if numIndirect == 0 && grant.Some? then grant.value else stackAddr
  }

  /** A second expansion into the indirect tier reads the index block from
      wherever the stack address points, not from the file's index sector,
      so the pointers already placed are lost. */
  lemma SecondIndirectGrowthLosesIndex(indirectPtr: Sector, grant: Option<Sector>, stackAddr: Sector)
    requires stackAddr != indirectPtr
    ensures IndexSectorAsWritten(1, indirectPtr, grant, stackAddr) != indirectPtr
  {
  }

  /** Whether the indirect loop of inode_expand writes the index block
      back, and how many slots it leaves counted, as written, pass by pass.
      Each pass restarts `j` at `numIndirect`, fills that slot if sectors
      are still wanted, and writes the block back once none are; the loop
      goes on only while the count is below 128. The first pass runs
      whatever the count, so a full index (128) still fills slot 128, one
      past the array, and counts 129. */
  function IndexWriteBackAsWritten(numIndirect: nat, sectors: nat): (r: (bool, nat))
    requires numIndirect <= IndirectBlockSize
    ensures numIndirect < IndirectBlockSize || sectors == 0 ==>
              (r.0 <==> numIndirect + sectors <= IndirectBlockSize) && r.1 == Min(IndirectBlockSize, numIndirect + sectors)
    ensures numIndirect == IndirectBlockSize && sectors > 0 ==> r == (sectors == 1, IndirectBlockSize + 1)
    decreases IndirectBlockSize - numIndirect
  {
    if sectors == 0 then (true, numIndirect)
    else if sectors == 1 then (true, numIndirect + 1)
    else if numIndirect + 1 < IndirectBlockSize then IndexWriteBackAsWritten(numIndirect + 1, sectors - 1)
    else (false, numIndirect + 1)
  }

  /** Growing an empty indirect tier by 129 sectors fills all 128 slots and
      counts them, but never writes the index block, which stays zero on
      disk: every counted slot then reads back as sector 0. */
  lemma OverfullIndexNotWritten()
    ensures IndexWriteBackAsWritten(0, IndirectBlockSize + 1) == (false, IndirectBlockSize)
  {
  }

  /** Growing a full indirect tier by one sector still places it, in slot
      128 past the end of `ind_ptrs`, and reports success with 129 slots
      counted; by two sectors it counts 129 and fails. */
  lemma FullIndexOverrun()
    ensures IndexWriteBackAsWritten(IndirectBlockSize, 1) == (true, IndirectBlockSize + 1)
    ensures IndexWriteBackAsWritten(IndirectBlockSize, 2) == (false, IndirectBlockSize + 1)
  {
  }

  // ---------------------------------------------------------------------
  // inode_write_at (inode.c:335-338) and inode_read_at (inode.c:276)

  /** The cached length inode_write_at leaves after growing the file as
      written: inode_expand's bool result, 1 or 0. */
  function CachedLengthAsWritten(expanded: bool): (n: int)
    ensures 0 <= n <= 1 && (n == 1 <==> expanded)
  {
    if expanded then 1 else 0
  }

  /** After a write extends an empty file to 100 bytes, inode_read_at still
      passes its length check (against the record's length) but looks
      byte 1 up against the cached length 1, which finds no sector. */
  lemma ExtendedFileUnreadable(direct: seq<Sector>)
    requires |direct| == DirectBlockSize
    ensures ByteToSectorAsWritten(direct, CachedLengthAsWritten(true), 1) == NoValue
  {
  }

  // ---------------------------------------------------------------------
  // inode_close (inode.c:210-237)

  /** What inode_close leaves on the device as written: `bool removed =
      true` inside the release branch declares a new variable, so the outer
      flag stays false and the record is written back even to a sector the
      close has just released. */
  function CloseDeviceAsWritten(blocks: map<Sector, Block>, sector: Sector, rec: Block, released: bool)
    : (r: map<Sector, Block>)
    ensures SectorIn(r, sector) == rec
  {
    blocks[sector := rec]
  }

  /** Closing a removed inode writes its record into the freed sector,
      which the corrected close leaves alone. */
  lemma CloseWritesReleasedSector(blocks: map<Sector, Block>, sector: Sector, rec: Block)
    requires SectorIn(blocks, sector) != rec
    ensures CloseDeviceAsWritten(blocks, sector, rec, true) != Inodes.CloseDevice(blocks, sector, rec, true)
  {
    assert SectorIn(Inodes.CloseDevice(blocks, sector, rec, true), sector) != rec;
  }

  /** The run inode_close also releases for a removed inode as written:
      free_map_release(start, bytes_to_sectors(length)) frees the sectors
      start, start + 1, ... although no code allocates such a run; `start`
      is 0 in every record inode_create writes. */
  function StartRunAsWritten(start: Sector, length: nat): (run: seq<nat>)
    ensures |run| == BytesToSectors(length)
    ensures forall k :: 0 <= k < |run| ==> run[k] == start + k
  {
    seq(BytesToSectors(length), k => start + k)
  }

  /** Removing any non-empty file hands the free map's own sector back to
      the free map, and a file of more than one sector also the root
      directory's; the corrected close (Inodes.Inode.ReleaseBlocks)
      releases only the file's direct sectors and its record's sector. */
  lemma RemovalFreesFreeMapSector(length: nat)
    requires length > 0
    ensures FreeMapSector in StartRunAsWritten(0, length)
    ensures length > SectorSize ==> RootDirSector in StartRunAsWritten(0, length)
  {
    var run := StartRunAsWritten(0, length);
    assert run[0] == FreeMapSector;
    if length > SectorSize {
      assert run[1] == RootDirSector;
    }
  }

  // ---------------------------------------------------------------------
  // filesys_create (filesys.c:83-101)

  /** filesys_create as written: inode_create's result is overwritten by
      dir_add's, so a directory entry added for an inode that was never
      written counts as success. */
  function CreateAsWritten(name: string, found: bool, dirRemoved: bool, alloc: Option<Sector>,
                           created: bool, added: bool): (r: CreateOutcome)
    ensures r.success <==> OpenNameAccepted(name) && DirHandedBack(name, found) && !dirRemoved
                           && alloc.Some? && added
  {
    if name == [] || |LastComponent(name)| > NameMax || !DirHandedBack(name, found) || dirRemoved then
      CreateOutcome(false, None)
    else if alloc.None? then
      CreateOutcome(false, None)
    else
      CreateOutcome(added, if !added && alloc.value != FreeMapSector then alloc else None)
  }

  /** When inode_create fails and dir_add succeeds, the code as written
      reports success and keeps the sector, while the corrected create
      fails and releases it. */
  lemma CreateIgnoresInodeFailure()
    ensures CreateAsWritten("a", true, false, Some(5), false, true).success
    ensures FilesysCreate("a", true, false, Some(5), false, true) == CreateOutcome(false, Some(5))
  {
    SplitAccSingle("a", '/', []);
    ComponentsAreSplit("a");
  }

  /** The removed check of filesys_create as written (filesys.c:76): it
      reads `dir->inode->removed` for every short name, whether or not
      filesys_find_dir stored a directory. None stands for a read through
      the NULL pointer; otherwise the result is the flag read. */
  function RemovedCheckAsWritten(name: string, found: bool, dirRemoved: bool): (r: Option<bool>)
    ensures r.None? <==> !found || name == "/"
    ensures r.Some? ==> r.value == dirRemoved
  {
    if !found then None          // the walk returned before storing a directory
    else if name == "/" then None  // the root has no parent directory
    else Some(dirRemoved)
  }

  /** Creating "/" and creating under a path whose walk fails both read
      the removed flag through NULL, where the corrected create fails
      without allocating. */
  lemma CreateReadsNullDirectory(dirRemoved: bool, alloc: Option<Sector>, created: bool, added: bool)
    ensures RemovedCheckAsWritten("/", true, dirRemoved) == None
    ensures FilesysCreate("/", true, dirRemoved, alloc, created, added) == CreateOutcome(false, None)
    ensures RemovedCheckAsWritten("a/b", false, dirRemoved) == None
    ensures FilesysCreate("a/b", false, dirRemoved, alloc, created, added) == CreateOutcome(false, None)
  {
  }

  // ---------------------------------------------------------------------
  // parse_file_path (filesys.c:438-443), argv declared at filesys.c:305

  /** The name parse_file_path leaves in parsed_name as written: with no
      components, `argv[i - 1]` is argv[1], which nothing has set yet, so
      the name is whatever string the stale slot points at (`stale`), or
      empty when it happens to be NULL. */
  function ParsedNameAsWritten(path: string, stale: Option<string>): (name: string)
    ensures LastComponent(path) != [] ==> name == LastComponent(path)
    ensures LastComponent(path) == [] && stale.Some? ==> name == stale.value
  {
    if LastComponent(path) != [] then LastComponent(path)
    else if stale.Some? then stale.value
    else []
  }

  /** For the path "/" the name comes from the stale slot, while the
      corrected parse gives the empty name. */
  lemma RootPathReadsStaleSlot()
    ensures ParsedNameAsWritten("/", Some("x")) == "x"
    ensures LastComponent("/") == []
  {
  }

  // ---------------------------------------------------------------------
  // parse_command_string with set_first_only (process.c:37-56), called with
  // `char* argv[1]` at process.c:82-83 and process.c:407-408

  /** The argv slots parse_command_string writes with set_first_only, as
      written: argv[0], and when there is a program name also argv[1]
      (the second token or NULL), since the loop stores the next token
      before it breaks. */
  function FirstOnlySlotsAsWritten(command: string): (slots: seq<Option<string>>)
    ensures |slots| == if Args(command) == [] then 1 else 2
    ensures slots[0] == if Args(command) == [] then None else Some(Args(command)[0])
  {
    var ts := Args(command);
    if ts == [] then [None]
    else [Some(ts[0]), if |ts| > 1 then Some(ts[1]) else None]
  }

  /** Every command line with a program name makes it write two slots into
      the one-slot array of process_execute and load; "echo" is one. */
  lemma FirstOnlyOverrunsArgv(command: string)
    requires exists k :: 0 <= k < |command| && command[k] != ' '
    ensures |FirstOnlySlotsAsWritten(command)| == 2
    ensures |FirstOnlySlotsAsWritten("echo")| == 2
  {
    assert "echo"[0] != ' ';
    ArgsNonEmpty(command);
    ArgsNonEmpty("echo");
  }

  /** A command line with a character other than a space has a program
      name. */
  lemma ArgsNonEmpty(command: string)
    requires exists k :: 0 <= k < |command| && command[k] != ' '
    ensures Args(command) != []
  {
    ArgsAreSplit(command);
    SplitAccEmpty(command, ' ', []);
  }
}
