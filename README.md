# Pintos file system and user-program core, modelled in Dafny

This project models the core of a Pintos kernel (project 5, the extensible
file system) written in C:

- the inode layer of `filesys/inode.c`:
  - sector counting and the byte-to-sector lookup;
  - growth of an inode through a direct tier of 118 sector pointers and
    one indirect index block of 128;
  - creation of an on-disk inode;
  - the table of open inodes (open, reopen, close, remove);
  - the chunked read and write loops;
  - write denial and the length query.
- the path handling of `filesys/filesys.c`:
  - `parse_file_path`;
  - the name checks of `filesys_create`, `filesys_open` and
    `filesys_remove`.
- the program loader of `userprog/process.c`:
  - `parse_command_string`;
  - the ELF header test;
  - `validate_segment`;
  - the read/zero byte plan of a `PT_LOAD` segment;
  - `load_segment`;
  - `setup_stack`, which lays out argc, argv and the argument strings on
    the first user page.
- the per-thread file-descriptor table of `userprog/syscall.c`:
  - `add_file_to_fd_table`;
  - `find_fd_element` and `find_child_element`;
  - `close`;
  - the descriptor guards of `read`, `write`, `seek` and `filesize`.

## Modelling choices

**The device and the free map.** The block device is a `map` from sector to
a 512-byte block, held by a `Device` object. The free map is a `FreeMap`
object with a `used` set and first-fit allocation. `free_map_allocate`,
`block_read` and `block_write` become methods on these two.

**On-disk inodes.**
- An on-disk inode (`struct inode_disk`) is the class `DiskInode`, whose
  fields the growth code updates in place.
- Its encoding into one sector is `EncodeRecord`/`DecodeRecord`, with a
  proved round trip.
- The file's bytes are defined by `Bytes`: the concatenation of its data
  sectors in extent order. Every read and write is specified against that
  function.

**Open inodes.** An open inode (`struct inode`) is the class `Inode`. The
list of open inodes is a `seq<Inode>` field of `InodeTable`, with the most
recent first, as `list_push_front` leaves it.

**Strings.** C strings are Dafny strings; `strtok_r` is modelled on
positions (`StrTok`, `NextToken`) and tied to a reference splitter `Split`.

**User memory.** A user page is an `array<byte>` of 4096 bytes, and
addresses are `nat`s. `palloc_get_page` and `install_page` are parameters:
`pageOk` for the stack page, and a predicate `canMap` over a page address
and its protection for `load_segment`.

**Files of the loader.** The executable is a `seq<byte>`, and `file_read`
at the current position is a slice of it.

**Descriptors.** The descriptor and child lists are `seq` fields of
`ThreadFiles`. A `struct file *` is an abstract `FileRef`, and calls into
the file layer (`file_read`, `file_write`, `file_length`) are function
parameters.

**Machine integers.** `off_t` and `int` are `int32`. `uint32_t`
arithmetic of the loader is written out modulo 2^32 (`Add32`, `Sub32`).
`SignedOf` casts an `unsigned` count to `int`.

**Corrections.** Where the code does something other than what it evidently
means, the model follows the intended behaviour. The code as written is
modelled beside it, in module `Findings`, with the input that shows the
difference (see "## Findings"). In particular:
- `byte_to_sector` is modelled with the bound of `inode.h` (118) and with
  the indirect tier.
- The direct loop of `inode_expand` also uses the bound 118, so a full direct
  tier grows into the index block.
- `inode_expand` keeps the index-block pointer and stops on allocation
  failure.
- The indirect loop of `inode_expand` stops filling at 128 slots: growing a
  full index block fails instead of placing a sector in slot 128.
- The cached length stays equal to the record's.
- `inode_close` does not write back a released record, and does not
  release the `start` run.
- `filesys_create` requires `inode_create` to succeed, and fails without
  reading through the directory pointer when `filesys_find_dir` hands back
  none.
- `parse_file_path` gives the empty name for a path without components.
- `parse_command_string` with `set_first_only` writes only `argv[0]`.

## Model

| member | source | states |
|---|---|---|
| InodeLayout.BytesToSectors | filesys/inode.c:19-25 | the count is the least n whose n sectors cover the size |
| InodeLayout.BytesToSectorsMonotone | filesys/inode.c:19-25 | more bytes never need fewer sectors |
| InodeLayout.TierCounts | filesys/inode.c:420-482 | growth fills the direct tier before the indirect one, up to the 118 direct slots of inode.h (the code's loop bound of 119 is Findings.DirectLoopAsWritten), and adds exactly the requested number of sectors |
| InodeLayout.TierCountsKeepInvariant | filesys/inode.c:420-482 | growing by the sectors the new bytes need keeps the extent invariant: counts within tiers, indirect used only after a full direct tier, length backed by the sectors |
| InodeLayout.ExtentSectors | filesys/inode.h:18-32 | the sectors of an extent are its used direct slots followed by its used index slots |
| InodeLayout.ConsistentAppend | filesys/inode.c:430-446 | appending a sector fresh from the free map keeps the extent owning distinct, allocated sectors |
| InodeLayout.SameSector | filesys/inode.c:262-317 | a chunk that stays within one sector addresses that sector at consecutive offsets |
| InodeLayout.RecordWords | filesys/inode.h:18-32 | struct inode_disk fills exactly one 512-byte sector |
| InodeLayout.DecodeRecord | filesys/inode.h:18-32 | a decoded record always has a 118-slot direct array |
| InodeLayout.RecordRoundTrip | filesys/inode.h:18-32 | decoding the sector a record was written to gives the record back |
| InodeLayout.DecodeIndex | filesys/inode.h:48-50 | an index block decodes to 128 sector pointers |
| InodeLayout.IndexRoundTrip | filesys/inode.h:48-50 | decoding a written index block gives its pointers back |
| InodeLayout.ZeroBlockIsEmptyIndex | filesys/inode.c:456-462 | a zeroed sector reads as an index block of 128 zero pointers |
| Words.U16RoundTrip | userprog/process.c:332-348 | a 16-bit field survives its little-endian byte layout |
| Words.U32RoundTrip | userprog/process.c:332-348 | a 32-bit field survives its little-endian byte layout |
| Words.U32BytesRoundTrip | userprog/process.c:332-348 | every 4 bytes are the layout of exactly one word |
| Words.WordsRoundTrip | filesys/inode.h:18-32 | words laid out as bytes read back as the same words |
| Words.BytesRoundTrip | filesys/inode.h:18-32 | bytes read as words and laid out again are unchanged |
| Words.WordAt | userprog/process.c:733-755 | word k of a run occupies bytes 4k to 4k+3 |
| Words.WordsAppend | userprog/process.c:733-755 | laying out two runs of words one after the other is laying out their concatenation |
| BlockDevice.Device.Write | filesys/inode.c:84 | block_write replaces exactly one sector |
| BlockDevice.FreeMap.Allocate | filesys/inode.c:434 | free_map_allocate gives a sector not in use, never the free map's own, and marks it used; failure changes nothing and means the map is full |
| BlockDevice.FreeMap.Release | filesys/inode.c:222 | free_map_release marks exactly that sector free |
| DiskInodes.FileBytesSectorWrite | filesys/inode.c:359 | writing one of the file's sectors changes exactly that sector's 512 bytes of the file |
| DiskInodes.FileBytesAfterWrite | filesys/inode.c:84 | writing a sector outside the extent leaves the file's bytes alone |
| DiskInodes.SectorPatch | filesys/inode.c:372-379 | patching part of one data sector patches the same bytes of the file |
| DiskInodes.GrowthKeepsBytes | filesys/inode.c:420-482 | growth by fresh, zeroed sectors that leaves other used sectors alone keeps the old bytes and appends zeroes |
| DiskInodes.ExtendsTrans | filesys/inode.c:420-482 | growing the direct tier and then the indirect tier is one growth |
| DiskInodes.RecordSectorsAfterWrite | filesys/inode.c:84 | writing the record's own sector does not change the sectors the record lists |
| DiskInodes.DiskInode.Sectors | filesys/inode.h:25-29 | the sectors of an inode are as many as its two tier counts |
| DiskInodes.DiskInode.Bytes | filesys/inode.h:21 | the file bytes span all allocated sectors, and the length never exceeds them |
| DiskInodes.DiskInode.ByteToSector | filesys/inode.c:32-41 | an offset has a sector exactly when it is below the bound and within the allocated sectors, and that sector is the one holding it in extent order |
| DiskInodes.DiskInode.WriteChunk | filesys/inode.c:351-381 | one chunk write keeps the extent and overwrites exactly that chunk of the file's bytes |
| DiskInodes.DiskInode.Formatted | filesys/inode.c:74-81 | a fresh record has length 0, no sectors, the magic number, the root directory as parent and all-zero pointers |
| DiskInodes.DiskInode.Expand | filesys/inode.c:420-482 | inode_expand either grows the length by the bytes and the tiers by the sectors they need, or fails only when the file would exceed 246 sectors, when the free map is full, or when nothing is wanted and the direct tier is already full (the direct loop, which alone reports success for nothing, is then not entered); the old sectors keep their places, new ones are fresh and zeroed, the index pointer is kept once set, and no other used sector changes |
| DiskInodes.DiskInode.GrowDirect | filesys/inode.c:430-446 | the direct loop fills slots in order with fresh zeroed sectors until done, the tier is full, or the map is full |
| DiskInodes.DiskInode.GrowIndirect | filesys/inode.c:448-478 | the indirect tier grows by the requested sectors, or fails because they do not fit in 128 slots or the map is full; the index block is written back and its pointer kept |
| DiskInodes.DiskInode.OpenIndex | filesys/inode.c:456-462 | the index block is read from the kept pointer, or allocated and zeroed for a first indirect growth |
| DiskInodes.DiskInode.FillIndexBlock | filesys/inode.c:464-478 | index slots are filled in order with fresh zeroed sectors, never past slot 127: a request that does not fit in the free slots, a full index block included, fails |
| DiskInodes.DiskInode.Store | filesys/inode.c:84 | the record is written to its sector and reads back as the same record listing the same sectors |
| DiskInodes.Create | filesys/inode.c:66-89 | inode_create succeeds when the length fits in 246 sectors and the map has room; it then writes a record of that length, type, magic and parent, whose sectors are fresh and zeroed; on failure the target sector is unchanged |
| Inodes.Written | filesys/inode.c:324-391 | the bytes a write leaves: the data in its window and the old bytes, zero-padded to the new length, everywhere else |
| Inodes.GrownContents | filesys/inode.c:335-338 | growing a file whose tail is zero shows the old bytes followed by zeroes |
| Inodes.ChunkSize | filesys/inode.c:280-288 | a chunk never exceeds the bytes wanted, the bytes left in the file or the bytes left in the sector, and is positive exactly when bytes are wanted before the end; it stops at one of those three bounds |
| Inodes.CloseDevice | filesys/inode.c:234-237 | closing writes the record back to its own sector unless it released it, and touches no other sector |
| Inodes.Inode.Load | filesys/inode.c:170-181 | a newly opened inode has one opener, no denial, is not removed, and caches the record, length, parent and type read from its sector; no more writers are denied than there are openers |
| Inodes.Inode.LoadedIsValid | filesys/inode.c:170-181 | an inode loaded from a well-formed sector is valid |
| Inodes.Inode.Contents | filesys/inode.c:414-418 | a file's contents are as long as the record's length |
| Inodes.Inode.Length | filesys/inode.c:414-418 | inode_length is the record's length, between 0 and the bytes of 246 sectors |
| Inodes.Inode.GetInumber | filesys/inode.c:194-198 | the inode number is the record's sector |
| Inodes.Inode.Reopen | filesys/inode.c:185-191 | reopening adds one opener and keeps denials at most the openers |
| Inodes.Inode.Remove | filesys/inode.c:252-257 | removal only marks the inode |
| Inodes.Inode.DenyWrite | filesys/inode.c:395-400 | one more denial, never more than there are openers |
| Inodes.Inode.AllowWrite | filesys/inode.c:405-411 | one denial fewer, still at most the openers |
| Inodes.Inode.Released | filesys/inode.c:219-227 | a removed inode gives back its used direct sectors and its own sector |
| Inodes.Inode.ReleaseBlocks | filesys/inode.c:219-227 | the free map loses exactly the released sectors |
| Inodes.Inode.WriteBack | filesys/inode.c:234-237 | the record with the current parent is written to its sector and opens to the same contents |
| Inodes.Inode.Drop | filesys/inode.c:203-248 | inode_close drops one opener, keeping denials at most the openers (none after the last close) when the closing opener allowed writes first, as inode.c:401-403 asks; the last close of a removed inode releases its sectors and leaves the device alone, and every other close writes the record back with contents unchanged |
| Inodes.Inode.Extend | filesys/inode.c:335-338 | growth makes the file exactly the requested bytes longer with zeroes, keeping the cached length equal to the record's, or fails only for size or a full map with contents unchanged |
| Inodes.Inode.ReadAt | filesys/inode.c:262-317 | a read ending past the length reads nothing; otherwise it reads all the requested bytes, which are the file's bytes at that offset, and leaves the rest of the buffer alone |
| Inodes.Inode.ReadChunk | filesys/inode.c:290-307 | one chunk extends the bytes read so far by the file's next bytes and leaves the rest of the buffer alone |
| Inodes.Inode.WriteAt | filesys/inode.c:324-391 | a denied write writes nothing; a write past the end first grows the file to end exactly at the write, or stays put when growth fails; the count is what fits below the length and the contents are the old ones with the data in place |
| Inodes.Inode.GrowAndWrite | filesys/inode.c:335-391 | a write that is allowed first grows the file to end exactly at the write, or stays put when growth fails for size or a full map; it then writes what fits below the length |
| Inodes.Inode.GrowTo | filesys/inode.c:335-338 | growth happens only for a write ending past the end, makes the file end exactly there with zeroes, and fails only for size or a full map |
| Inodes.Inode.WriteWithin | filesys/inode.c:340-388 | the loop writes the part of the data below the length into place and nothing else |
| Inodes.Inode.CopyChunk | filesys/inode.c:340-386 | one pass of the write loop puts the next chunk of the data right after the bytes already written, over the file's bytes before the loop, and keeps the file's sectors |
| Inodes.Inode.CopyStep | filesys/inode.c:340-386 | one pass of the write loop computes the chunk as the loop does; a chunk that is not positive writes nothing, and a positive one extends the data written after the offset by that many bytes, the file's sectors kept |
| Inodes.Inode.CopyIn | filesys/inode.c:340-388 | the chunk loop overwrites exactly the written window of the file's bytes |
| OpenInodes.Without | filesys/inode.c:244-246 | removing an inode from the list keeps every other open inode and only those |
| OpenInodes.WithoutAbsent | filesys/inode.c:244-246 | removing an inode not in the list changes nothing |
| OpenInodes.WithoutPushed | filesys/inode.c:171-172 | removing the inode just pushed gives the list back |
| OpenInodes.InodeTable.Find | filesys/inode.c:155-165 | the walk finds an open inode on that sector exactly when there is one |
| OpenInodes.InodeTable.Open | filesys/inode.c:148-182 | inode_open reopens the inode already open on the sector, or pushes a new one loaded from it at the front; it changes nothing of an open inode but the reopened one's opener count, and every open inode keeps denials at most its openers |
| OpenInodes.InodeTable.Close | filesys/inode.c:203-248 | a NULL close changes nothing; otherwise one opener fewer, and the inode leaves the list exactly when its last opener closes; the last close of a removed inode gives its sectors back to the free map and leaves the device alone, and every other close writes its record back to its sector, free map and contents unchanged; no other open inode changes |
| Tokens.SkipDelims | filesys/filesys.c:431-436 | strtok_r skips a run of delimiters |
| Tokens.TokenEnd | filesys/filesys.c:431-436 | a token runs to the next delimiter or the end |
| Tokens.StrTok | filesys/filesys.c:431-436 | strtok_r yields a non-empty token without delimiters, or NULL when only delimiters remain |
| Tokens.TokensAreSplit | userprog/process.c:42-53 | the tokens strtok_r yields are the non-empty pieces of a reference split |
| Tokens.TokensWellFormed | userprog/process.c:42-53 | no token is empty or holds the delimiter |
| Tokens.SplitAccJoin | filesys/filesys.c:431-436 | splitting `a/b` is splitting a, then b |
| Tokens.SplitAccEmpty | filesys/filesys.c:431-436 | the split is empty exactly when the string has only delimiters |
| Tokens.NextToken | userprog/process.c:43-48 | each strtok_r call yields the next token in order, NULL after the last |
| CommandLine.ArgsAreSplit | userprog/process.c:37-57 | the arguments are the space-separated pieces of the command line, none empty |
| CommandLine.FillArgs | userprog/process.c:42-53 | the loop stores every argument in order and a NULL after the last, and returns their count |
| CommandLine.ParseCommandString | userprog/process.c:37-57 | every argument in order with a NULL and the count; with set_first_only, only argv[0] is set, to the program name or NULL, and the count is 0 or 1 |
| FilesysPaths.ComponentsAreSplit | filesys/filesys.c:431-436 | path components are the '/'-separated pieces |
| FilesysPaths.LastComponent | filesys/filesys.c:438-443 | the parsed name holds no '/' and is empty exactly when the path is all slashes |
| FilesysPaths.LastComponentTrailingSlash | filesys/filesys.c:438-443 | a trailing slash names the same leaf |
| FilesysPaths.LastComponentOfJoin | filesys/filesys.c:438-443 | the leaf of dir/leaf is leaf |
| FilesysPaths.FillComponents | filesys/filesys.c:430-436 | argv[2..] receive the components in order, then NULL |
| FilesysPaths.ParseFilePath | filesys/filesys.c:417-469 | argv[0] holds the index of the terminating NULL, argv[1] the absolute flag; a path is absolute exactly when it starts with '/' and has no "." component; the parsed name is the last component |
| FilesysPaths.OpenNameAccepted | filesys/filesys.c:126-139 | the name checks of filesys_open: not empty, and a last component of at most 14 characters |
| FilesysPaths.OpenAcceptsShortLeaf | filesys/filesys.c:126-139 | a leaf under any directory passes the open checks exactly when it has at most 14 characters; "" fails them and "/" passes |
| FilesysPaths.FilesysCreate | filesys/filesys.c:53-112 | create succeeds exactly when the name passes, filesys_find_dir handed back a directory (the walk succeeded and the name is not "/", for which it gives NULL at filesys.c:391-394) that is not removed, and allocation, inode_create and dir_add all succeed; "/" fails with nothing allocated; an allocated sector is either used or released |
| FilesysPaths.FilesysRemove | filesys/filesys.c:477-504 | remove succeeds only for a name with a non-slash character, a found directory, a short leaf and a successful dir_remove |
| FilesysPaths.RemoveShortLeaf | filesys/filesys.c:477-504 | for a short leaf the outcome is the directory layer's alone |
| Elf.DecodeEhdr | userprog/process.c:332-348 | the header's ident is the first 16 bytes read |
| Elf.HeaderAccepted | userprog/process.c:446-452 | the executable header test: the whole header is read, then the ELF magic, type 2, machine 3, version 1, 32-byte program headers and at most 1024 of them |
| Elf.HeaderTestOnBytes | userprog/process.c:446-452 | the header test on decoded fields accepts exactly the files whose bytes carry the ELF magic, type 2, machine 3, version 1, 32-byte program headers and at most 1024 of them |
| Elf.Add32 | userprog/process.c:586-592 | uint32 addition wraps modulo 2^32 |
| Elf.Sub32 | userprog/process.c:499-500 | uint32 subtraction is exact when it does not go below 0 and otherwise wraps by 2^32 |
| Elf.RoundUp32 | userprog/process.c:499-507 | ROUND_UP in uint32 is a multiple of 4096: the least one at least x when x + 4095 does not wrap, and 0 when it does |
| Elf.PageOffset | userprog/process.c:493 | the page offset is below 4096 |
| Elf.PageStart | userprog/process.c:491-492 | masking gives the page-aligned start with the offset added back |
| Elf.PageCeil | userprog/process.c:500 | ROUND_UP gives the next multiple of 4096 |
| Elf.ValidateSegment | userprog/process.c:563-608 | validate_segment accepts exactly the segments whose file and memory offsets agree within a page, that start within the file, are not empty, whose memory size covers the file size, whose region lies in user space without wrapping, and that do not map page 0 |
| Elf.PlanOfValidSegment | userprog/process.c:487-509 | for a valid segment the plan reads from the segment's page in the file into its page in memory, reads exactly the page offset plus the file size (nothing for a file size of 0), and read plus zero bytes cover the memory size rounded up to whole pages below PHYS_BASE |
| Elf.PlanSegment | userprog/process.c:487-509 | file and memory pages are page aligned |
| Elf.LoadSegment | userprog/process.c:615-663 | load_segment succeeds exactly when the file holds the bytes to read and every page can be mapped with the segment's protection; then the pages are consecutive from upage, each writable exactly when the segment is, and hold the file bytes followed by zeroes |
| Elf.ProgressStuck | userprog/process.c:638-655 | a loop that stops early does so because the file is short or a page cannot be mapped |
| Elf.ProgressDone | userprog/process.c:629-662 | a loop that ran out of bytes mapped every page |
| UserStack.CString | userprog/process.c:713-718 | the copy of an argument is its characters followed by one NUL |
| UserStack.StringAreaSplit | userprog/process.c:711-722 | the argument strings lie one after another in order |
| UserStack.Padding | userprog/process.c:725-732 | padding is under 4 bytes and word-aligns the strings |
| UserStack.ArgAddrs | userprog/process.c:720 | one pointer per argument, each to its copy |
| UserStack.StackImage | userprog/process.c:685-769 | the stack page is exactly one page |
| UserStack.EspAligned | userprog/process.c:733-762 | the final esp is word aligned and within the stack page |
| UserStack.ArgPointsToCopy | userprog/process.c:711-746 | argv[k] points at a NUL-terminated copy of argument k |
| UserStack.WordsReadBack | userprog/process.c:733-755 | reading words up from esp gives the return address slot, argc, argv pointing just above, each argument's address in order, and a NULL |
| UserStack.StoreWord | userprog/process.c:743 | a word store overwrites exactly 4 bytes |
| UserStack.StoreString | userprog/process.c:718 | a string store overwrites exactly its C string |
| UserStack.PushStrings | userprog/process.c:711-722 | the string loop leaves the arguments packed at the top of the page in order and records each one's address |
| UserStack.PushPointers | userprog/process.c:741-746 | the pointer loop lays the addresses below the NULL in argument order |
| UserStack.PushWords | userprog/process.c:733-755 | below the padding: NULL, the pointers, argv, argc and a zero return address |
| UserStack.StackLayout | userprog/process.c:685-769 | what the pushes leave is the stack image, at the final esp |
| UserStack.SetupStack | userprog/process.c:685-769 | on success esp and the page are exactly the stack layout of the command line's arguments; on failure esp is unchanged |
| FdTables.FirstMatch | userprog/syscall.c:650-665 | the first element with the key, with no earlier match, or none when no element has it |
| FdTables.Scan | userprog/syscall.c:650-665 | the list walk finds the first match |
| FdTables.EntryIsFound | userprog/syscall.c:650-665 | in a valid table every entry is found by its own descriptor |
| FdTables.AddKeepsTable | userprog/syscall.c:691-705 | appending the counter's descriptor keeps the table valid, finds the new entry, and finds every other descriptor where it was |
| FdTables.RemoveKeepsTable | userprog/syscall.c:624-641 | removing a found entry keeps the table valid and its descriptor is no longer found |
| FdTables.RemoveKeepsOthers | userprog/syscall.c:624-641 | removing an entry leaves every other descriptor found, at the same entry |
| FdTables.ThreadFiles.constructor | userprog/syscall.c:691-705 | a thread starts with empty tables and its first descriptor number |
| FdTables.ThreadFiles.FindFd | userprog/syscall.c:650-665 | find_fd_element finds the first entry with the descriptor |
| FdTables.ThreadFiles.FindChild | userprog/syscall.c:671-686 | find_child_element finds the first child with the pid |
| FdTables.ThreadFiles.AddFile | userprog/syscall.c:691-705 | the new descriptor is the counter, which advances by one; the entry goes at the end and is then found |
| FdTables.ThreadFiles.Open | userprog/syscall.c:498-512 | a failed open gives -1 and changes nothing; otherwise the file is added |
| FdTables.ThreadFiles.Close | userprog/syscall.c:624-641 | close succeeds exactly when the descriptor is found, removes exactly that entry, and leaves it unfindable |
| FdTables.ThreadFiles.Read | userprog/syscall.c:520-557 | fd 0 reads the keyboard and returns the size; fd 1 and unknown descriptors give -1; otherwise the file layer's result |
| FdTables.ThreadFiles.Write | userprog/syscall.c:565-594 | fd 1 prints the whole buffer and returns its size; fd 0, unknown descriptors and directories give -1, a directory also raising the warning; otherwise the file layer's result |
| FdTables.ThreadFiles.Seek | userprog/syscall.c:600-609 | seek fails exactly for an unknown descriptor, and otherwise moves that descriptor's file |
| FdTables.ThreadFiles.Filesize | userprog/syscall.c:417-424 | an unknown descriptor gives -1; otherwise the file's length |
| FdTables.SignedOf | userprog/syscall.c:532 | an unsigned count below 2^31 returns unchanged; larger counts return negative |
| Findings.ByteToSectorAsWritten | filesys/inode.c:10 | with bound 119, offsets of the 119th sector index past the 118-slot direct array, and offsets beyond get no sector |
| Findings.DirectBoundOverrun | filesys/inode.c:32-41 | offset 60416 of a longer file reads direct slot 118, past the array |
| Findings.IndirectTierIgnored | filesys/inode.c:32-41 | offset 60928 of a file over 119 sectors gets no sector |
| Findings.DirectSlotAsWritten | filesys/inode.c:432-437 | a failed allocation leaves the slot's old value, which is then counted and zeroed |
| Findings.FullDiskZeroesFreeMap | filesys/inode.c:432-437 | on a full disk a fresh record's first slot names the free map's sector |
| Findings.DirectLoopAsWritten | filesys/inode.c:430-446 | with the loop bound 119 the direct count grows by the sectors wanted up to 119, and the loop succeeds exactly when it is entered and they fit below 119 |
| Findings.FullDirectTierOverrun | filesys/inode.c:430-446 | a record with 118 direct slots grown by one sector fills slot 118 (the index pointer's place) where the corrected growth uses the index, and grown by nothing succeeds |
| Findings.IndexSectorAsWritten | filesys/inode.c:450-462 | once the tier is in use, the index sector read is the address of a local array, not the file's index |
| Findings.SecondIndirectGrowthLosesIndex | filesys/inode.c:450-462 | a second indirect growth reads the wrong index sector |
| Findings.IndexWriteBackAsWritten | filesys/inode.c:464-478 | below 128 used slots, the index block is written only when every wanted sector fits, and the count stops at 128; at 128 used slots the first pass still fills slot 128 and counts 129, succeeding for exactly one sector |
| Findings.FullIndexOverrun | filesys/inode.c:464-470 | growing a full index block by one sector succeeds with 129 slots counted; by two it counts 129 and fails |
| Findings.OverfullIndexNotWritten | filesys/inode.c:464-478 | growing an empty indirect tier by 129 sectors counts 128 slots and writes no index |
| Findings.CachedLengthAsWritten | filesys/inode.c:336 | the cached length after growth is 1 or 0 |
| Findings.ExtendedFileUnreadable | filesys/inode.c:276 | byte 1 of a file just grown to 100 bytes has no sector for the read loop |
| Findings.CloseDeviceAsWritten | filesys/inode.c:220-237 | the record is always written back |
| Findings.CloseWritesReleasedSector | filesys/inode.c:220-237 | the last close of a removed inode overwrites its freed sector |
| Findings.StartRunAsWritten | filesys/inode.c:228 | the run released from `start` has one sector per sector of length |
| Findings.RemovalFreesFreeMapSector | filesys/inode.c:228 | removing any non-empty file frees sector 0, and a file over one sector also frees sector 1 |
| Findings.CreateAsWritten | filesys/filesys.c:85-95 | success follows dir_add alone |
| Findings.CreateIgnoresInodeFailure | filesys/filesys.c:85-95 | a failed inode_create followed by a successful dir_add reports success and keeps the sector |
| Findings.RemovedCheckAsWritten | filesys/filesys.c:76 | the removed flag is read through NULL exactly when the walk failed or the name is "/" |
| Findings.CreateReadsNullDirectory | filesys/filesys.c:76 | creating "/" or under a path whose walk fails reads through NULL, where the corrected create fails with nothing allocated |
| Findings.ParsedNameAsWritten | filesys/filesys.c:438-443 | with no components the name is read from the stale argv[1] |
| Findings.RootPathReadsStaleSlot | filesys/filesys.c:438-443 | for "/" the name is the stale slot's string, not empty |
| Findings.FirstOnlySlotsAsWritten | userprog/process.c:42-53 | with set_first_only, argv[1] is also written whenever there is a program name |
| Findings.FirstOnlyOverrunsArgv | userprog/process.c:82-83 | every non-blank command line, such as "echo", writes two slots into a one-slot array |

## Left out

- Locks, concurrency, interrupts and the scheduler are not modelled: `open_close_lock` and the semaphores of the child list are left out.
- `malloc`/`calloc` failures are not modelled:
  - `inode_create` and `inode_open` returning NULL;
  - the bounce buffer of the read and write loops.
  The model always has the memory.
- Device I/O cannot fail, as in Pintos. The device is the `map` of sectors.
- `struct inode_disk`'s doubly indirect tier is not used by the code. Its fields are carried and never grown.
- The index block and the sectors it lists are not released when a removed file is closed. The code has that release commented out, and the model follows the code.
- Directories (`dir_open`, `dir_lookup`, `dir_add`, `dir_remove`) and the walk of `filesys_find_dir` are not part of this model. They enter `FilesysCreate` and `FilesysRemove` as parameters; of the walk, only the NULL directory it hands back for "/" is modelled (`DirHandedBack`).
- `filesys_open` beyond its name checks is not modelled.
- `filesys_find_dir` is not modelled.
- The free map's bitmap file is not modelled. The free map is a set of used sectors with first-fit allocation, as `free_map_allocate(1, …)` uses it.
- `process_execute`, `start_process`, `process_wait`, `process_exit` and the rest of `load` (the program-header walk, `file_deny_write`) are not modelled.
- `palloc_get_page`, `install_page` and `palloc_free_page` are parameters:
  - `pageOk` for the stack page;
  - `canMap` for segment pages.
  Freeing a page on failure is not modelled.
- The system-call dispatcher is not modelled, nor the `get_user`/`put_user` checks of user pointers. Neither are `exec`, `wait`, `exit`, `halt`, `create` and `remove`; the last two are thin wrappers over the file system.
- The console and the keyboard are not modelled:
  - `putbuf` is the `printed` output of `Write`;
  - `input_getc` is not modelled, and `Read` on fd 0 returns only the count.
- `tell` is not modelled. It dereferences the descriptor it finds without a NULL check, so an unknown descriptor is undefined behaviour.
- `file_read`, `file_write`, `file_length` and `file_seek` (file.c) are not part of this model. They enter as function parameters.
- `close` also calls `file_close` or `dir_close` on the removed entry; that is not modelled. The removed entry is returned instead.
- The initial value of `fd_table_counter` is set in thread.c, which is not part of this model. It is the constructor's parameter.
- FdTables.ThreadFiles.AddFile: descriptor overflow past 2^31 is not modelled; the counter is unbounded.
- UserStack.SetupStack requires that the arguments fit in one page and number fewer than 100. The code does not check either; beyond them it writes out of bounds.
- UserStack.CString takes the low 8 bits of each character; the code's strings are bytes already.
- FilesysPaths.ParseFilePath requires at most 17 components, which the code does not check. Beyond them it writes past `argv[MAX_PATH_COUNT]`.
- DiskInodes.DiskInode.ByteToSector gives `None` where the code falls off the end of `byte_to_sector` without a return value.
- Inodes.Inode.ReadAt and Inodes.Inode.WriteAt require `offset + size` to fit in `off_t`. The code's 32-bit sum could wrap.

## Findings

| source | as written | input that shows it | evidently intended | confidence | as-written member | corrected member |
|---|---|---|---|---|---|---|
| filesys/inode.c:10 | `DIRECT_BLOCK_SIZE` is 119 in inode.c, while the direct array of `struct inode_disk` has 118 slots (inode.h:9, :28) | offset 60416 of a file longer than 118 sectors reads `direct[118]`, past the array | the direct tier covers 118 sectors | high, not executed | Findings.ByteToSectorAsWritten | DiskInodes.DiskInode.ByteToSector |
| filesys/inode.c:32-41 | `byte_to_sector` consults only the direct array and returns no value otherwise | offset 60928 of a file of 120 sectors: the indirect tier holds it, the lookup gives nothing | offsets past the direct tier are found through the index block | high, not executed | Findings.IndirectTierIgnored | DiskInodes.DiskInode.ByteToSector |
| filesys/inode.c:430 | the direct loop of `inode_expand` runs while `numDirect` is below 119, one more than the slots of the direct array | a record with all 118 direct slots used, grown by one sector, allocates into `direct[118]`, which is `indirect_ptr` (inode.h:28-29); grown by nothing, it succeeds | the direct tier holds 118 sectors and growth goes on in the index block | high, not executed | Findings.DirectLoopAsWritten | DiskInodes.DiskInode.Expand |
| filesys/inode.c:432-437 | the result of `free_map_allocate` is ignored; the slot is counted and zeroed | a full disk while growing a fresh record: slot 0 still holds 0, so sector 0 (the free map) is zeroed and listed as file data | growth stops and reports failure | high, not executed | Findings.DirectSlotAsWritten | DiskInodes.DiskInode.Expand |
| filesys/inode.c:450 | `inode->indirect_ptr = block.ind_ptrs` stores a stack address in the index pointer | a second growth into the indirect tier reads its index from that address, losing the placed pointers | the index pointer is kept | high, not executed | Findings.IndexSectorAsWritten | DiskInodes.DiskInode.GrowIndirect |
| filesys/inode.c:472-475 | the index block is written back only when all wanted sectors fit | growing an empty indirect tier by 129 sectors counts 128 slots whose pointers never reach the disk | the filled slots are written back | medium, not executed | Findings.IndexWriteBackAsWritten | DiskInodes.DiskInode.GrowIndirect |
| filesys/inode.c:464-470 | the loop sets `j = inode->numIndirect` inside a `for` that starts at 0, so its first pass runs even when all 128 slots of `ind_ptrs` are used | a file with a full index block, grown by one sector, allocates into `ind_ptrs[128]`, one past the array (inode.h:48-50), counts 129 slots and reports success | a full index block takes no more sectors and the growth fails | high, not executed | Findings.FullIndexOverrun | DiskInodes.DiskInode.FillIndexBlock |
| filesys/inode.c:336 | the bool result of `inode_expand` is stored as the cached length | a 100-byte write to an empty file leaves a cached length of 1, so the read loop finds no sector for byte 1 | the cached length is the new record length | high, not executed | Findings.CachedLengthAsWritten | Inodes.Inode.Extend |
| filesys/inode.c:220 | `bool removed = true` declares a new variable, so the write-back at :234-237 always runs | the last close of a removed inode writes its record into the sector it has just freed | no write-back after release | high, not executed | Findings.CloseDeviceAsWritten | Inodes.CloseDevice |
| filesys/inode.c:228 | a removed inode also releases `bytes_to_sectors(length)` sectors from `start`, which is always 0 | removing a 1-byte file frees sector 0, the free map's own | only the inode's own sectors are released | high, not executed | Findings.StartRunAsWritten | Inodes.Inode.ReleaseBlocks |
| filesys/filesys.c:85-95 | `success = dir_add(...)` overwrites the result of `inode_create` | `inode_create` fails, `dir_add` succeeds: create reports success for an unwritten inode | success needs both | high, not executed | Findings.CreateAsWritten | FilesysPaths.FilesysCreate |
| filesys/filesys.c:76 | `dir->inode->removed` is read before the `dir != NULL` test of :86 | creating "/" (`filesys_find_dir` sets `dir` to NULL, filesys.c:391-394) or creating under a path whose walk fails (it returns at :377, leaving `dir` NULL from :66) | no directory means create fails | high, not executed | Findings.RemovedCheckAsWritten | FilesysPaths.FilesysCreate |
| filesys/filesys.c:438-443 | with no components, `argv[i-1]` is `argv[1]`, still unset (filesys.c:305) | the path "/" copies whatever the stale slot points at | the empty name | medium, not executed | Findings.ParsedNameAsWritten | FilesysPaths.ParseFilePath |
| userprog/process.c:42-53 | with `set_first_only` the loop stores the next token in `argv[1]` before it breaks | "echo" passed with `char* argv[1]` (process.c:82-83, :407-408) writes past the array | only `argv[0]` is written | high, not executed | Findings.FirstOnlySlotsAsWritten | CommandLine.ParseCommandString |
