/** struct inode: an open file's in-memory inode (its record, reference
    count, removal flag and write-denial count) and the byte-range reads and
    writes that walk a file sector by sector. */
module Inodes {
  import opened Common
  import opened InodeLayout
  import opened BlockDevice
  import opened DiskInodes

  /** The contents after a write of `data` at `offset` into a file that held
      `c` and is now `len` bytes long: the old bytes, zeros up to the new
      length, and `data` in its window. */
  function Written(c: seq<byte>, len: nat, offset: nat, data: seq<byte>): (r: seq<byte>)
    requires |c| <= len && (data == [] || offset + |data| <= len)
    ensures |r| == len
    ensures forall p :: offset <= p < offset + |data| ==> r[p] == data[p - offset]
    ensures forall p :: 0 <= p < len && !(offset <= p < offset + |data|) ==>
                          r[p] == (if p < |c| then c[p] else 0)
  {
    var padded := c + Zeros(len - |c|);
    if data == [] then padded else Overwrite(padded, offset, data)
  }

  /** Appending zeroed sectors to an extent whose tail past the length is
      zero, then moving the length up, pads the contents with zeros and
      keeps the tail zero. */
  lemma GrownContents(b0: seq<byte>, len0: nat, b1: seq<byte>, len1: nat)
    requires len0 <= |b0| && forall p :: len0 <= p < |b0| ==> b0[p] == 0
    requires |b0| <= |b1| && b1 == b0 + Zeros(|b1| - |b0|) && len0 <= len1 <= |b1|
    ensures b1[..len1] == b0[..len0] + Zeros(len1 - len0)
    ensures forall p :: len1 <= p < |b1| ==> b1[p] == 0
  {
    var l, r := b1[..len1], b0[..len0] + Zeros(len1 - len0);
    forall p | 0 <= p < len1
      ensures l[p] == r[p]
    {
      if p >= |b0| {
        assert b1[p] == Zeros(|b1| - |b0|)[p - |b0|];
      }
    }
  }

  /** Copying bytes into the part of an extent below the length keeps the
      tail zero and copies them into the contents. */
  lemma PatchBelowLength(b: seq<byte>, len: nat, offset: nat, data: seq<byte>)
    requires len <= |b| && offset + |data| <= len
    requires forall p :: len <= p < |b| ==> b[p] == 0
    ensures Overwrite(b, offset, data)[..len] == Overwrite(b[..len], offset, data)
    ensures forall p :: len <= p < |b| ==> Overwrite(b, offset, data)[p] == 0
  {
    var l, r := Overwrite(b, offset, data)[..len], Overwrite(b[..len], offset, data);
    forall p | 0 <= p < len
      ensures l[p] == r[p]
    {
      if offset <= p < offset + |data| {
        assert r[p] == r[offset .. offset + |data|][p - offset];
        assert l[p] == Overwrite(b, offset, data)[offset .. offset + |data|][p - offset];
      }
    }
  }

  /** Bytes ofs .. ofs + c of sector k of an extent are the file's bytes at
      SectorSize * k + ofs onwards. */
  lemma SectorChunk(blocks: map<Sector, Block>, ss: seq<Sector>, k: nat, ofs: nat, c: nat)
    requires k < |ss| && ofs + c <= SectorSize
    ensures FileBytes(blocks, ss)[SectorSize * k + ofs .. SectorSize * k + ofs + c]
            == SectorIn(blocks, ss[k])[ofs .. ofs + c]
  {
    var b, base := FileBytes(blocks, ss), SectorSize * k;
    forall p | base + ofs <= p < base + ofs + c
      ensures b[p] == SectorIn(blocks, ss[k])[p - base]
    {
      SameSector(base, p - base);
    }
  }

  /** The chunk size of one step of inode_read_at and inode_write_at: the
      least of the bytes still wanted, the bytes left in the file and the
      bytes left in the sector of `pos`. It is positive exactly when bytes
      are still wanted and `pos` is inside the file, and a chunk never
      crosses a sector boundary. */
  function ChunkSize(size: int, length: int, pos: nat): (c: int)
    ensures c <= size && c <= length - pos && pos % SectorSize + c <= SectorSize
    ensures c > 0 <==> size > 0 && pos < length
    ensures c > 0 ==> c == size || c == length - pos || pos % SectorSize + c == SectorSize
  {
    var inodeLeft := length - pos;
    var sectorLeft := SectorSize - pos % SectorSize;
    var minLeft := if inodeLeft < sectorLeft then inodeLeft else sectorLeft;
    if size < minLeft then size else minLeft
  }

  /** memcpy (dst + at, src, |src|) */
  method Copy(dst: array<byte>, at: nat, src: seq<byte>)
    requires at + |src| <= dst.Length
    modifies dst
    ensures dst[..at] == old(dst[..at]) && dst[at .. at + |src|] == src
    ensures forall i :: at + |src| <= i < dst.Length ==> dst[i] == old(dst[i])
  {
    forall j | 0 <= j < |src| {
      dst[at + j] := src[j];
    }
  }

  /** Padding the contents with zeros up to the new length before the
      write changes nothing about what the write leaves. */
  lemma WrittenPadded(c: seq<byte>, len: nat, offset: nat, data: seq<byte>)
    requires |c| <= len && (data == [] || offset + |data| <= len)
    ensures Written(c + Zeros(len - |c|), len, offset, data) == Written(c, len, offset, data)
  {
    assert c + Zeros(len - |c|) + Zeros(0) == c + Zeros(len - |c|);
  }

  /** Writing `c` right after the `done` bytes of `src` already written at
      `offset`, when `c` is the next part of `src`, extends the written
      window by |c| bytes. */
  lemma ChunkStep(b: seq<byte>, offset: nat, src: seq<byte>, done: nat, c: seq<byte>, before: seq<byte>, after: seq<byte>)
    requires done + |c| <= |src| && c == src[done .. done + |c|] && offset + done + |c| <= |b|
    requires before == if done == 0 then b else Overwrite(b, offset, src[..done])
    requires after == Overwrite(before, offset + done, c)
    ensures after == Overwrite(b, offset, src[..done + |c|])
  {
    var w := src[..done];
    assert w + c == src[..done + |c|];
    if done == 0 {
      assert w + c == c;
    } else {
      OverwriteAppend(b, offset, w, c);
    }
  }

  /** A slice of a prefix is the same slice of the whole. */
  lemma SliceOfPrefix(s: seq<byte>, len: nat, i: nat, j: nat)
    requires i <= j <= len <= |s|
    ensures s[..len][i..j] == s[i..j]
  {
  }

  /** After `done` bytes of `bytes` from `offset` were copied to the front
      of a buffer, copying the next `chunk` bytes right after them, while
      the front stays as it was, has copied `done + chunk` bytes. */
  lemma ReadStep(bytes: seq<byte>, offset: nat, done: nat, chunk: nat, before: seq<byte>, after: seq<byte>)
    requires offset + done + chunk <= |bytes| && done + chunk <= |before| == |after|
    requires 0 < done ==> before[..done] == bytes[offset .. offset + done]
    requires after[..done] == before[..done]
    requires after[done .. done + chunk] == bytes[offset + done .. offset + done + chunk]
    ensures after[..done + chunk] == bytes[offset .. offset + done + chunk]
  {
    assert after[..done + chunk] == after[..done] + after[done .. done + chunk];
    assert bytes[offset .. offset + done + chunk]
        == bytes[offset .. offset + done] + bytes[offset + done .. offset + done + chunk];
  }

  /** `x` is neither a data sector of the extent nor its index block. */
  predicate Outside(ss: seq<Sector>, hasIndex: bool, indirectPtr: Sector, x: Sector)
  {
    x !in ss && (hasIndex ==> indirectPtr != x)
  }

  /** A sector in use before an extension is outside the sectors it added. */
  lemma ExtendsAvoids(ss0: seq<Sector>, ss1: seq<Sector>, used: set<Sector>, blocks: map<Sector, Block>, x: Sector)
    requires Extends(ss0, ss1, used, blocks) && x in used && x !in ss0
    ensures x !in ss1
  {
    forall k | 0 <= k < |ss1|
      ensures ss1[k] != x
    {
      if k < |ss0| {
        assert ss1[k] == ss1[..|ss0|][k];
      } else {
        assert ss1[k] == ss1[|ss0|..][k - |ss0|];
      }
    }
  }

  /** Sector `sector` holds a record that an inode can be opened on: its
      extent is well formed and owns its sectors, the bytes past its length
      are zero, and neither the record's own sector nor the free map's is
      one of its sectors. */
  ghost predicate Stored(sector: Sector, blocks: map<Sector, Block>, used: set<Sector>)
  {
    var r := DecodeRecord(SectorIn(blocks, sector));
    && ExtentInvariant(r.length, r.numDirect, r.numIndirect)
    && var ss := RecordSectors(r, blocks);
       && ExtentConsistent(ss, r.numIndirect > 0, r.indirectPtr, used)
       && (forall p :: r.length <= p < |FileBytes(blocks, ss)| ==> FileBytes(blocks, ss)[p] == 0)
       && sector in used
       && Outside(ss, r.numIndirect > 0, r.indirectPtr, sector)
       && Outside(ss, r.numIndirect > 0, r.indirectPtr, FreeMapSector)
  }

  /** What inode_close leaves on the device: the record written back to its
      sector, unless the close released that sector. */
  function CloseDevice(blocks: map<Sector, Block>, sector: Sector, rec: Block, released: bool)
    : (r: map<Sector, Block>)
    ensures released ==> r == blocks
    ensures !released ==> SectorIn(r, sector) == rec
    ensures forall s :: s != sector ==> SectorIn(r, s) == SectorIn(blocks, s)
  {
    if released then blocks else blocks[sector := rec]
  }

  class Inode {
    /** Sector of the on-disk record. */
    const sector: Sector
    var parent: Sector
    var typeDir: bool
    /** Number of openers. */
    var openCnt: nat
    /** Deleted once the last opener closes it. */
    var removed: bool
    /** Zero: writes allowed; positive: writes denied. */
    var denyWriteCnt: nat
    /** The cached length, kept equal to data.length. */
    var length: int
    /** The record, held in memory while the inode is open. */
    const data: DiskInode

    /** The record is well formed and owns its sectors, its allocated tail is
        zero, the cache agrees with it, and neither its own sector nor the
        free map's is one of its sectors. */
    ghost predicate Valid(dev: Device, used: set<Sector>)
      reads this, data, dev
    {
      && data.Consistent(dev, used) && data.ZeroTail(dev) && length == data.length
      && sector in used
      && Outside(data.Sectors(dev), data.numIndirect > 0, data.indirectPtr, sector)
      && Outside(data.Sectors(dev), data.numIndirect > 0, data.indirectPtr, FreeMapSector)
    }

    /** No more writers are denied than there are openers: every opener
        denies writes at most once. */
    ghost predicate Counters()
      reads this
    {
      denyWriteCnt <= openCnt
    }

    /** The initialisation half of inode_open: a new inode on the record in
        `sector`, with one opener, writes allowed and not removed. */
    constructor Load(sector: Sector, dev: Device, ghost used: set<Sector>)
      requires Stored(sector, dev.blocks, used)
      ensures data.Valid() && length == data.length && fresh(data)
      ensures this.sector == sector && openCnt == 1 && denyWriteCnt == 0 && !removed
      ensures Counters()
      ensures data.Record() == DecodeRecord(dev.Read(sector))
      ensures parent == data.parent && typeDir == data.typeDir
    {
      var r := DecodeRecord(dev.Read(sector));
      this.sector := sector;
      openCnt, denyWriteCnt, removed := 1, 0, false;
      data := new DiskInode.FromRecord(r);
      length, parent, typeDir := r.length, r.parent, r.typeDir;
    }

    /** An inode loaded from a sector that holds a well-formed inode is
        valid: its extent is consistent with the free map and its bytes past
        the length are zero. */
    lemma LoadedIsValid(dev: Device, used: set<Sector>)
      requires data.Valid() && length == data.length
      requires Stored(sector, dev.blocks, used) && data.Record() == DecodeRecord(dev.Read(sector))
      ensures Valid(dev, used)
    {
      assert data.Sectors(dev) == RecordSectors(data.Record(), dev.blocks);
    }

    /** The file's bytes. */
    ghost function Contents(dev: Device): (c: seq<byte>)
      reads this, data, dev
      requires data.Valid()
      ensures |c| == data.length
    {
      data.Bytes(dev)[..data.length]
    }

    /** inode_length */
    function Length(): (n: int)
      reads this, data
      requires data.Valid()
      ensures 0 <= n <= SectorSize * MaxSectors
    {
      data.length
    }

    /** inode_get_inumber */
    function GetInumber(): (s: Sector)
      ensures s == sector
    {
      sector
    }

    /** inode_reopen */
    method Reopen()
      modifies this`openCnt
      ensures openCnt == old(openCnt) + 1
      ensures old(Counters()) ==> Counters()
    {
      openCnt := openCnt + 1;
    }

    /** inode_remove: mark for deletion at the last close, nothing else. */
    method Remove()
      modifies this`removed
      ensures removed
    {
      removed := true;
    }

    /** inode_deny_write, for an opener that has not denied writes yet. */
    method DenyWrite()
      requires denyWriteCnt < openCnt
      modifies this`denyWriteCnt
      ensures denyWriteCnt == old(denyWriteCnt) + 1 <= openCnt
      ensures Counters()
    {
      denyWriteCnt := denyWriteCnt + 1;
    }

    /** inode_allow_write, for an opener that denied writes. */
    method AllowWrite()
      requires 0 < denyWriteCnt && Counters()
      modifies this`denyWriteCnt
      ensures denyWriteCnt == old(denyWriteCnt) - 1
      ensures Counters()
    {
      denyWriteCnt := denyWriteCnt - 1;
    }

    /** The sectors inode_close hands back to the free map for a removed
        inode: the used direct slots and the record's own sector. */
    ghost function Released(): (rs: set<Sector>)
      reads this, data
      requires data.Valid()
      ensures sector in rs
      ensures forall i :: 0 <= i < data.numDirect ==> data.direct[i] in rs
    {
      (set i | 0 <= i < data.numDirect :: data.direct[i]) + {sector}
    }

    /** The release step of inode_close for a removed inode: the direct
        sectors one by one, then the record's sector. The index block and
        the sectors it lists stay in use. */
    method ReleaseBlocks(fm: FreeMap, dev: Device)
      requires Valid(dev, fm.used) && fm.Valid()
      modifies fm
      ensures fm.used == old(fm.used) - Released()
      ensures sector != FreeMapSector ==> fm.Valid()
    {
      ghost var ss := data.Sectors(dev);
      var i := 0;
      while i < data.numDirect
        invariant 0 <= i <= data.numDirect
        invariant fm.Valid()
        invariant fm.used == old(fm.used) - set j | 0 <= j < i :: data.direct[j]
      {
        assert data.direct[i] == ss[i];
        fm.Release(data.direct[i]);
        assert (set j | 0 <= j < i + 1 :: data.direct[j]) == (set j | 0 <= j < i :: data.direct[j]) + {data.direct[i]};
        i := i + 1;
      }
      fm.Release(sector);
    }

    /** The write-back step of inode_close: the record, carrying the parent
        the open inode holds, goes back to its sector. The file's sectors and
        bytes are untouched, and the sector then holds an inode that opens
        to the same contents. */
    method WriteBack(dev: Device, ghost used: set<Sector>)
      requires Valid(dev, used)
      modifies data`parent, dev
      ensures Valid(dev, used) && Stored(sector, dev.blocks, used)
      ensures data.Record() == old(data.Record()).(parent := parent)
      ensures dev.blocks == old(dev.blocks)[sector := EncodeRecord(data.Record())]
      ensures DecodeRecord(dev.Read(sector)) == data.Record()
      ensures Contents(dev) == old(Contents(dev))
    {
      ghost var b0, ss, bytes := dev.blocks, data.Sectors(dev), data.Bytes(dev);
      assert forall p :: data.length <= p < |bytes| ==> bytes[p] == 0;
      data.parent := parent;
      var r := data.Record();
      dev.Write(sector, EncodeRecord(r));
      RecordRoundTrip(r);
      RecordSectorsAfterWrite(r, b0, sector, EncodeRecord(r));
      FileBytesAfterWrite(b0, ss, sector, EncodeRecord(r));
      assert data.Valid() && data.Sectors(dev) == RecordSectors(r, dev.blocks) == ss;
      assert data.Bytes(dev) == FileBytes(dev.blocks, ss) == bytes;
      assert DecodeRecord(SectorIn(dev.blocks, sector)) == r;
    }

    /** inode_close for an inode with an opener: one opener fewer; at the
        last close of a removed inode its direct sectors and its record's
        sector go back to the free map, and otherwise its record, carrying
        the parent it holds, is written back to its sector. The closing
        opener has allowed writes again if it denied them, so it is not
        among the denying ones. */
    method Drop(fm: FreeMap, dev: Device) returns (last: bool)
      requires Valid(dev, fm.used) && fm.Valid() && denyWriteCnt < openCnt
      modifies this`openCnt, data`parent, fm, dev
      ensures data.Valid() && openCnt == old(openCnt) - 1 && (last <==> openCnt == 0)
      ensures Counters() && (last ==> denyWriteCnt == 0)
      ensures dev.blocks == CloseDevice(old(dev.blocks), sector, EncodeRecord(data.Record()), last && removed)
      ensures last && removed ==>
                && fm.used == old(fm.used) - old(Released())
                && (sector != FreeMapSector ==> fm.Valid())
      ensures !(last && removed) ==>
                && fm.used == old(fm.used)
                && data.Record() == old(data.Record()).(parent := parent)
                && Valid(dev, fm.used) && Stored(sector, dev.blocks, fm.used)
                && Contents(dev) == old(Contents(dev))
    {
      openCnt := openCnt - 1;
      last := openCnt == 0;
      if last && removed {
        ReleaseBlocks(fm, dev);
      } else {
        WriteBack(dev, fm.used);
      }
    }

    /** The growth step of inode_write_at: extend the record by `bytes` and
        refresh the cached length from the record. On success the file is
        `bytes` longer and the new bytes are zero; on failure the contents
        are unchanged. */
    method Extend(bytes: nat, fm: FreeMap, dev: Device) returns (grown: bool)
      requires Valid(dev, fm.used) && fm.Valid()
      modifies this`length, data, fm, dev
      ensures Valid(dev, fm.used) && fm.Valid() && old(fm.used) <= fm.used
      ensures grown ==> length == old(length) + bytes
      ensures !grown ==> length == old(length)
      ensures !grown ==> || old(data.numDirect + data.numIndirect) + BytesToSectors(bytes) > MaxSectors
                         || (bytes == 0 && old(data.numDirect) == DirectBlockSize)
                         || fm.Full()
      ensures Contents(dev) == old(Contents(dev)) + Zeros(length - old(length))
    {
      ghost var ss0, b0, used0 := data.Sectors(dev), dev.blocks, fm.used;
      ghost var bytes0, hasIndex, ptr := data.Bytes(dev), data.numIndirect > 0, data.indirectPtr;
      grown := data.Expand(bytes, fm, dev);
      length := data.length;
      GrowthKeepsBytes(ss0, data.Sectors(dev), b0, dev.blocks, hasIndex, ptr, used0);
      GrownContents(bytes0, old(length), data.Bytes(dev), length);
      ExtendsAvoids(ss0, data.Sectors(dev), used0, dev.blocks, sector);
      ExtendsAvoids(ss0, data.Sectors(dev), used0, dev.blocks, FreeMapSector);
    }

    /** inode_read_at: nothing when the range runs past the end of the file,
        otherwise the `size` bytes at `offset`, copied into `buffer` chunk by
        chunk, no chunk crossing a sector boundary. */
    method ReadAt(buffer: array<byte>, size: int32, offset: int32, dev: Device) returns (n: int32)
      requires data.Valid() && length == data.length
      requires 0 <= offset && size <= buffer.Length && offset + size < 0x8000_0000
      modifies buffer
      ensures n == (if size <= 0 || offset + size > Length() then 0 else size)
      ensures 0 < n ==> buffer[..n] == Contents(dev)[offset .. offset + n]
      ensures forall i :: n <= i < buffer.Length ==> buffer[i] == old(buffer[i])
    {
      if offset + size > data.length {
        return 0;
      }
      ghost var bytes := data.Bytes(dev);
      var left, pos := size as int, offset as int;
      var done := 0;
      while left > 0
        invariant 0 <= done && left == size - done && pos == offset + done
        invariant 0 < done ==> 0 <= left && pos <= data.length
        invariant 0 < left ==> pos + left <= data.length
        invariant 0 < done ==> buffer[..done] == bytes[offset .. pos]
        invariant forall i :: done <= i < buffer.Length ==> buffer[i] == old(buffer[i])
      {
        // left > 0 and pos < length here, so the chunk is positive: the
        // source's early exit never fires.
        var chunk := ChunkSize(left, Length(), pos);
        ReadChunk(buffer, done, pos, chunk, dev, offset as nat);
        left, pos, done := left - chunk, pos + chunk, done + chunk;
      }
      n := done;
      if n > 0 {
        SliceOfPrefix(bytes, data.length, offset as nat, offset as nat + n as nat);
      }
    }

    /** One chunk of inode_read_at: look up the sector of `pos` (through the
        cached length) and copy `chunk` bytes of it into `buffer` at `at`.
        When the buffer already holds the bytes from `offset` up to `pos`,
        it then holds them up to `pos + chunk`. */
    method ReadChunk(buffer: array<byte>, at: nat, pos: nat, chunk: nat, dev: Device, ghost offset: nat)
      requires data.Valid() && length == data.length
      requires pos + chunk <= data.length && pos % SectorSize + chunk <= SectorSize && 0 < chunk
      requires at + chunk <= buffer.Length && pos == offset + at
      requires 0 < at ==> buffer[..at] == data.Bytes(dev)[offset .. pos]
      modifies buffer
      ensures buffer[..at + chunk] == data.Bytes(dev)[offset .. pos + chunk]
      ensures forall i :: at + chunk <= i < buffer.Length ==> buffer[i] == old(buffer[i])
    {
      ghost var before := buffer[..];
      var sectorIdx := data.ByteToSector(dev, length, pos);
      var ofs := pos % SectorSize;
      var block := dev.Read(sectorIdx.value);
      ghost var k := pos / SectorSize;
      Copy(buffer, at, block[ofs .. ofs + chunk]);
      SectorChunk(dev.blocks, data.Sectors(dev), k, ofs, chunk);
      assert SectorSize * k + ofs == pos;
      ReadStep(data.Bytes(dev), offset, at, chunk, before, buffer[..]);
    }

    /** inode_write_at: nothing while writes are denied; otherwise grow the
        file when the range runs past its end, then copy from `buffer` chunk
        by chunk, stopping at the end of the file (which a failed growth
        leaves where it was). */
    method WriteAt(buffer: array<byte>, size: int32, offset: int32, fm: FreeMap, dev: Device) returns (n: int32)
      requires Valid(dev, fm.used) && fm.Valid()
      requires 0 <= offset && size <= buffer.Length && offset + size < 0x8000_0000
      modifies this`length, data, fm, dev
      ensures Valid(dev, fm.used) && fm.Valid() && old(fm.used) <= fm.used
      ensures denyWriteCnt > 0 ==> n == 0 && length == old(length) && Contents(dev) == old(Contents(dev))
      ensures length == old(length) || (denyWriteCnt == 0 && old(length) < offset + size == length)
      ensures denyWriteCnt == 0 && old(length) < offset + size && length == old(length) ==>
                || old(data.numDirect + data.numIndirect) + BytesToSectors(offset + size - old(length)) > MaxSectors
                || fm.Full()
      ensures n == (if denyWriteCnt > 0 || size <= 0 || offset >= length then 0 else Min(size, length - offset))
      ensures Contents(dev) == Written(old(Contents(dev)), length, offset, buffer[..n])
    {
      if denyWriteCnt > 0 {
        return 0;
      }
      n := GrowAndWrite(buffer, size, offset, fm, dev);
    }

    /** inode_write_at while writes are allowed: grow the file when the range
        runs past its end, then write what falls below the length. */
    method GrowAndWrite(buffer: array<byte>, size: int32, offset: int32, fm: FreeMap, dev: Device) returns (n: int32)
      requires Valid(dev, fm.used) && fm.Valid()
      requires 0 <= offset && size <= buffer.Length && offset + size < 0x8000_0000
      modifies this`length, data, fm, dev
      ensures Valid(dev, fm.used) && fm.Valid() && old(fm.used) <= fm.used
      ensures length == old(length) || old(length) < offset + size == length
      ensures old(length) < offset + size && length == old(length) ==>
                || old(data.numDirect + data.numIndirect) + BytesToSectors(offset + size - old(length)) > MaxSectors
                || fm.Full()
      ensures n == (if size <= 0 || offset >= length then 0 else Min(size, length - offset))
      ensures Contents(dev) == Written(old(Contents(dev)), length, offset, buffer[..n])
    {
      GrowTo(offset as int + size as int, fm, dev);
      n := WriteWithin(buffer, size, offset, dev, fm.used);
      WrittenPadded(old(Contents(dev)), length, offset, buffer[..n]);
    }

    /** The growth check of inode_write_at: a write ending at `end` past the
        end of the file first grows the file to end exactly there; a failed
        growth leaves it as it was. */
    method GrowTo(end: int, fm: FreeMap, dev: Device)
      requires Valid(dev, fm.used) && fm.Valid()
      modifies this`length, data, fm, dev
      ensures Valid(dev, fm.used) && fm.Valid() && old(fm.used) <= fm.used
      ensures length == old(length) || old(length) < end == length
      ensures old(length) < end && length == old(length) ==>
                || old(data.numDirect + data.numIndirect) + BytesToSectors(end - old(length)) > MaxSectors
                || fm.Full()
      ensures Contents(dev) == old(Contents(dev)) + Zeros(length - old(length))
    {
      if end > data.length {
        var _ := Extend(end - data.length, fm, dev);
      }
    }

    /** inode_write_at once the file is long enough, or could not grow:
        the bytes of `buffer` that fall below the length are written. */
    method WriteWithin(buffer: array<byte>, size: int32, offset: int32, dev: Device, ghost used: set<Sector>)
      returns (n: int32)
      requires Valid(dev, used)
      requires 0 <= offset && size <= buffer.Length && offset + size < 0x8000_0000
      modifies dev
      ensures Valid(dev, used)
      ensures n == (if size <= 0 || offset >= length then 0 else Min(size, length - offset))
      ensures Contents(dev) == Written(old(Contents(dev)), length, offset, buffer[..n])
    {
      ghost var b1 := data.Bytes(dev);
      assert data.ZeroTail(dev);
      n := CopyIn(buffer, size, offset, dev);
      if n > 0 {
        PatchBelowLength(b1, data.length, offset, buffer[..n]);
      }
    }

    /** The copy loop of inode_write_at has written the first `done` bytes
        of `src` at `offset` and nothing else, keeping the sectors `ss`. */
    ghost predicate Copied(dev: Device, ss: seq<Sector>, b1: seq<byte>, offset: nat, src: seq<byte>, done: nat)
      reads this, data, dev
    {
      && data.Valid() && data.Sectors(dev) == ss && |b1| == |data.Bytes(dev)|
      && done <= |src| && offset + done <= |b1|
      && data.Bytes(dev) == if done == 0 then b1 else Overwrite(b1, offset, src[..done])
    }

    /** One pass of the copy loop of inode_write_at: the next `chunk` bytes
        of `buffer` go to the file right after the `done` already written. */
    method CopyChunk(pos: nat, c: seq<byte>, dev: Device, ghost b1: seq<byte>, ghost offset: nat, ghost src: seq<byte>, ghost done: nat)
      requires data.Valid() && 0 < |c| && pos == offset + done
      requires done + |c| <= |src| && c == src[done .. done + |c|]
      requires pos + |c| <= data.length && pos % SectorSize + |c| <= SectorSize
      requires Distinct(data.Sectors(dev)) && (data.numIndirect > 0 ==> data.indirectPtr !in data.Sectors(dev))
      requires |b1| == |data.Bytes(dev)|
      requires data.Bytes(dev) == if done == 0 then b1 else Overwrite(b1, offset, src[..done])
      modifies dev
      ensures data.Sectors(dev) == old(data.Sectors(dev))
      ensures data.Bytes(dev) == Overwrite(b1, offset, src[..done + |c|])
    {
      ghost var before := data.Bytes(dev);
      data.WriteChunk(pos, c, dev);
      ChunkStep(b1, offset, src, done, c, before, data.Bytes(dev));
    }

    /** One pass of the copy loop of inode_write_at, `done` bytes into the
        data and `left` bytes from its end: the chunk size, and when it is
        positive that many more bytes of the data written to the file. */
    method CopyStep(buffer: array<byte>, left: int, pos: nat, done: nat, dev: Device,
                    ghost ss: seq<Sector>, ghost b1: seq<byte>, ghost offset: nat, ghost src: seq<byte>)
      returns (chunk: int)
      requires Copied(dev, ss, b1, offset, src, done) && buffer[..] == src && length == data.length
      requires Distinct(ss) && (data.numIndirect > 0 ==> data.indirectPtr !in ss)
      requires pos == offset + done && done + left <= |src|
      modifies dev
      ensures chunk == ChunkSize(left, length, pos)
      ensures chunk <= left && pos + chunk <= length && (chunk > 0 <==> left > 0 && pos < length)
      ensures chunk <= 0 ==> dev.blocks == old(dev.blocks)
      ensures chunk > 0 ==> Copied(dev, ss, b1, offset, src, done + chunk)
    {
      chunk := ChunkSize(left, Length(), pos);
      if chunk <= 0 {
        return;
      }
      assert buffer[done .. done + chunk] == src[done .. done + chunk];
      CopyChunk(pos, buffer[done .. done + chunk], dev, b1, offset, src, done);
    }

    /** The copy loop of inode_write_at: chunk by chunk, copy from `buffer`
        into the file at `offset`, stopping at the end of the file. The
        file's sectors and length stay as they are. */
    method CopyIn(buffer: array<byte>, size: int32, offset: int32, dev: Device) returns (n: int32)
      requires data.Valid() && length == data.length
      requires Distinct(data.Sectors(dev)) && (data.numIndirect > 0 ==> data.indirectPtr !in data.Sectors(dev))
      requires 0 <= offset && size <= buffer.Length && offset + size < 0x8000_0000
      modifies dev
      ensures data.Sectors(dev) == old(data.Sectors(dev))
      ensures n == (if size <= 0 || offset >= length then 0 else Min(size, length - offset))
      ensures n == 0 ==> data.Bytes(dev) == old(data.Bytes(dev))
      ensures n > 0 ==> offset + n <= length && data.Bytes(dev) == Overwrite(old(data.Bytes(dev)), offset, buffer[..n])
    {
      if size <= 0 || offset >= Length() {
        // the loop would stop at once: its first chunk is empty
        return 0;
      }
      ghost var ss, b1, src := data.Sectors(dev), data.Bytes(dev), buffer[..];
      ghost var target := Min(size, length - offset);
      var left, pos := size as int, offset as int;
      var done := 0;
      while left > 0
        invariant 0 <= done <= target && left == size - done && pos == offset + done
        invariant Copied(dev, ss, b1, offset as nat, src, done)
        invariant buffer[..] == src
      {
        var chunk := CopyStep(buffer, left, pos, done, dev, ss, b1, offset as nat, src);
        if chunk <= 0 {
          break;
        }
        left, pos, done := left - chunk, pos + chunk, done + chunk;
      }
      n := done;
    }
  }
}
