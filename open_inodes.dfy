/** The list of open inodes: inode_open hands out the inode already open on
    a sector or loads a new one at the front of the list, and inode_close
    drops an inode from the list once its last opener closes it, releasing
    its sectors if it was removed and writing its record back otherwise. */
module OpenInodes {
  import opened Common
  import opened InodeLayout
  import opened BlockDevice
  import opened DiskInodes
  import opened Inodes

  /** `s` with `x` taken out: list_remove. */
  function Without(s: seq<Inode>, x: Inode): (r: seq<Inode>)
    ensures forall i :: 0 <= i < |r| ==> r[i] != x && r[i] in s
    ensures forall i :: 0 <= i < |s| && s[i] != x ==> s[i] in r
    ensures |r| <= |s|
  {
    if s == [] then [] else (if s[0] == x then [] else [s[0]]) + Without(s[1..], x)
  }

  /** Taking out an inode that is not in the list changes nothing. */
  lemma {:induction false} WithoutAbsent(s: seq<Inode>, x: Inode)
    requires x !in s
    ensures Without(s, x) == s
  {
    if s != [] {
      assert s[0] != x;
      WithoutAbsent(s[1..], x);
      assert [s[0]] + s[1..] == s;
    }
  }

  /** Closing the inode that an open pushed to the front of the list gives
      back the list as it was before the open. */
  lemma WithoutPushed(s: seq<Inode>, x: Inode)
    requires x !in s
    ensures Without([x] + s, x) == s
  {
    assert ([x] + s)[1..] == s;
    WithoutAbsent(s, x);
  }

  /** No two inodes of `s` share a sector. */
  ghost predicate UniqueSectors(s: seq<Inode>)
  {
    forall x, y :: x in s && y in s && x.sector == y.sector ==> x == y
  }

  /** open_inodes */
  class InodeTable {
    /** The open inodes, most recently loaded first. */
    var open: seq<Inode>

    /** No two open inodes share a sector, each has an opener, and none
        denies writes to more openers than it has. */
    ghost predicate Valid()
      reads this, open
    {
      && UniqueSectors(open)
      && (forall x :: x in open ==> x.openCnt > 0 && x.Counters())
    }

    /** The sectors of the open inodes. */
    ghost function Sectors(): set<Sector>
      reads this
    {
      set x | x in open :: x.sector
    }

    /** inode_init */
    constructor ()
      ensures Valid() && open == []
    {
      open := [];
    }

    /** The search loop of inode_open: the open inode on `sector`, if any. */
    method Find(sector: Sector) returns (r: Option<Inode>)
      ensures r.Some? ==> r.value in open && r.value.sector == sector
      ensures r.None? <==> sector !in Sectors()
    {
      var i := 0;
      while i < |open|
        invariant 0 <= i <= |open|
        invariant forall j :: 0 <= j < i ==> open[j].sector != sector
      {
        if open[i].sector == sector {
          assert open[i] in open;
          return Some(open[i]);
        }
        i := i + 1;
      }
      return None;
    }

    /** inode_open: the inode already open on `sector` gets one more opener;
        otherwise the record in `sector` is loaded into a new inode with one
        opener at the front of the list. */
    method Open(sector: Sector, dev: Device, ghost used: set<Sector>) returns (inode: Inode)
      requires Valid()
      requires sector !in Sectors() ==> Stored(sector, dev.blocks, used)
      modifies this`open, (set x | x in open)`openCnt
      ensures Valid() && inode in open && inode.sector == sector
      ensures sector in old(Sectors()) ==>
                && inode in old(open) && open == old(open)
                && inode.openCnt == old(inode.openCnt) + 1
      ensures sector !in old(Sectors()) ==>
                && fresh(inode) && open == [inode] + old(open)
                && inode.openCnt == 1 && inode.denyWriteCnt == 0 && !inode.removed
                && inode.data.Valid() && inode.length == inode.data.length
                && inode.data.Record() == DecodeRecord(dev.Read(sector))
      ensures forall x :: x in old(open) && x != inode ==> x.openCnt == old(x.openCnt)
    {
      var found := Find(sector);
      if found.Some? {
        inode := found.value;
        inode.Reopen();
        return;
      }
      inode := new Inode.Load(sector, dev, used);
      open := [inode] + open;
    }

    /** inode_close. A null inode is ignored; otherwise the inode loses an
        opener (Inode.Drop) and leaves the list at its last close. At the
        last close of a removed inode its sectors go back to the free map and
        the device is untouched; otherwise its record is written back to its
        sector and the free map is untouched. The closing opener must have
        allowed writes again if it denied them. */
    method Close(inode: Inode?, fm: FreeMap, dev: Device)
      requires Valid() && fm.Valid()
      requires inode != null ==> && inode in open && inode.Valid(dev, fm.used)
                                 && inode.denyWriteCnt < inode.openCnt
      modifies this`open, fm, dev
      modifies if inode != null then {inode} else {}, if inode != null then {inode.data} else {}
      ensures Valid()
      ensures inode == null ==> open == old(open) && fm.used == old(fm.used) && dev.blocks == old(dev.blocks)
      ensures inode != null ==>
                && inode.openCnt == old(inode.openCnt) - 1
                && open == (if inode.openCnt == 0 then Without(old(open), inode) else old(open))
                && inode.removed == old(inode.removed) && inode.denyWriteCnt == old(inode.denyWriteCnt)
                && inode.length == old(inode.length)
      ensures inode != null ==> inode.data.Valid()
      ensures inode != null ==>
                dev.blocks == CloseDevice(old(dev.blocks), inode.sector, EncodeRecord(inode.data.Record()),
                                          inode.openCnt == 0 && inode.removed)
      ensures inode != null && inode.openCnt == 0 && inode.removed ==>
                && fm.used == old(fm.used) - old(inode.Released())
                && (inode.sector != FreeMapSector ==> fm.Valid())
      ensures inode != null && !(inode.openCnt == 0 && inode.removed) ==>
                && fm.used == old(fm.used) && fm.Valid()
                && inode.data.Record() == old(inode.data.Record()).(parent := inode.parent)
                && inode.Valid(dev, fm.used) && Stored(inode.sector, dev.blocks, fm.used)
                && inode.Contents(dev) == old(inode.Contents(dev))
      ensures forall x :: x in old(open) && x != inode ==> x.openCnt == old(x.openCnt)
    {
      if inode == null {
        return;
      }
      // The list is updated first; this inode leaves it when its last
      // opener closes it.
      if inode.openCnt == 1 {
        open := Without(open, inode);
      }
      var last := inode.Drop(fm, dev);
    }
  }
}
