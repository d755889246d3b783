/** The two collaborators the inode layer stands on, modelled by their
    observable behaviour: the block device as a map from sector to block, and
    the free map as the set of sectors in use with a first-fit allocator. */
module BlockDevice {
  import opened Common
  import opened InodeLayout

  /** The contents of sector `s` on a device whose written sectors are
      `blocks`: a sector that was never written reads as zeros. */
  function SectorIn(blocks: map<Sector, Block>, s: Sector): Block
  {
    if s in blocks then blocks[s] else ZeroBlock
  }

  /** fs_device */
  class Device {
    var blocks: map<Sector, Block>

    constructor ()
      ensures blocks == map[]
    {
      blocks := map[];
    }

    /** block_read */
    function Read(s: Sector): Block
      reads this
    {
      SectorIn(blocks, s)
    }

    /** block_write */
    method Write(s: Sector, b: Block)
      modifies this
      ensures blocks == old(blocks)[s := b]
      ensures Read(s) == b
    {
      blocks := blocks[s := b];
    }
  }

  /** The free map over `capacity` sectors. Sector 0 holds the free map's own
      inode and stays in use, so no allocation ever returns it. */
  class FreeMap {
    var used: set<Sector>
    const capacity: nat

    ghost predicate Valid()
      reads this
    {
      FreeMapSector in used && capacity <= TwoTo32
    }

    /** No sector is left to hand out. */
    ghost predicate Full()
      reads this
    {
      forall s: Sector :: s < capacity ==> s in used
    }

    /** free_map_create: the free-map and root-directory sectors in use. */
    constructor (capacity: nat)
      requires capacity <= TwoTo32
      ensures Valid() && this.capacity == capacity
      ensures used == {FreeMapSector, RootDirSector}
    {
      this.capacity := capacity;
      used := {FreeMapSector, RootDirSector};
    }

    /** free_map_allocate (1, &sector): the lowest free sector, marked used,
        or None when every sector is in use. */
    method Allocate() returns (r: Option<Sector>)
      requires Valid()
      modifies this
      ensures Valid()
      ensures r.Some? ==> && r.value !in old(used) && r.value != FreeMapSector
                          && r.value < capacity && used == old(used) + {r.value}
      ensures r.None? ==> used == old(used) && Full()
    {
      var s: int := 0;
      while s < capacity && s in used
        invariant 0 <= s <= capacity
        invariant forall t: Sector :: t < s ==> t in used
      {
        s := s + 1;
      }
      if s == capacity {
        return None;
      }
      used := used + {s};
      return Some(s);
    }

    /** free_map_release (sector, 1) */
    method Release(s: Sector)
      requires Valid()
      modifies this
      ensures used == old(used) - {s}
      ensures s != FreeMapSector ==> Valid()
    {
      used := used - {s};
    }
  }
}
