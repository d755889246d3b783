/** The per-process tables of syscall.c: the file-descriptor table, a list
    of (fd, file, directory flag) entries that open appends to and close
    removes from, numbered by a per-thread counter; the child list searched
    by pid; and the descriptor checks that read, write, seek and filesize
    make before they reach the file layer. The file layer itself (file_read,
    file_write, file_length, file_seek) enters as function parameters. */
module FdTables {
  import opened Common

  /** A `struct file *` (or, for a directory, a `struct dir *`) as an
      opaque handle. */
  type FileRef = nat

  /** fd_list_element: the descriptor, its file, and the `warning` flag
      that marks a directory. */
  datatype FdEntry = FdEntry(fd: int, file: FileRef, isDir: bool)

  /** child_status_t */
  datatype ChildStatus = Running | Stopped | Done

  /** child_list_elem, without its semaphores and back pointer. */
  datatype ChildEntry = ChildEntry(pid: int, parentPid: int, status: ChildStatus, exitStatus: int)

  function FdOf(e: FdEntry): int { e.fd }

  function PidOf(c: ChildEntry): int { c.pid }

  /** The index of the first element whose key is k, or None when no
      element has that key: what a front-to-back list walk that stops at
      the first match finds. */
  function FirstMatch<T>(s: seq<T>, key: T -> int, k: int): (r: Option<nat>)
    ensures r.Some? ==> r.value < |s| && key(s[r.value]) == k
    ensures r.Some? ==> forall j :: 0 <= j < r.value ==> key(s[j]) != k
    ensures r.None? <==> forall j :: 0 <= j < |s| ==> key(s[j]) != k
  {
    if s == [] then None
    else if key(s[0]) == k then Some(0)
    else
      match FirstMatch(s[1..], key, k)
      case None => None
      case Some(i) => Some(i + 1)
  }

  /** The list walk of find_fd_element and find_child_element. */
  method Scan<T>(s: seq<T>, key: T -> int, k: int) returns (r: Option<nat>)
    ensures r == FirstMatch(s, key, k)
  {
    var i := 0;
    while i < |s|
      invariant 0 <= i <= |s|
      invariant forall j :: 0 <= j < i ==> key(s[j]) != k
    {
      if key(s[i]) == k {
        return Some(i);
      }
      i := i + 1;
    }
    return None;
  }

  /** The table as add_file_to_fd_table builds it: descriptors in strictly
      increasing order of opening, all below the counter. */
  ghost predicate TableValid(table: seq<FdEntry>, counter: int)
  {
    && (forall k :: 0 <= k < |table| ==> table[k].fd < counter)
    && (forall j, k :: 0 <= j < k < |table| ==> table[j].fd < table[k].fd)
  }

  /** In a valid table every entry is the one its descriptor finds: no two
      entries share a descriptor. */
  lemma EntryIsFound(table: seq<FdEntry>, counter: int, k: nat)
    requires TableValid(table, counter) && k < |table|
    ensures FirstMatch(table, FdOf, table[k].fd) == Some(k)
  {
    assert FdOf(table[k]) == table[k].fd;
  }

  /** Appending an entry numbered by the counter keeps the table valid, the
      new descriptor finds the new entry, and every other descriptor finds
      what it found before. */
  lemma {:induction false} AddKeepsTable(table: seq<FdEntry>, counter: int, file: FileRef, isDir: bool, other: int)
    requires TableValid(table, counter) && other != counter
    ensures TableValid(table + [FdEntry(counter, file, isDir)], counter + 1)
    ensures FirstMatch(table + [FdEntry(counter, file, isDir)], FdOf, counter) == Some(|table|)
    ensures FirstMatch(table + [FdEntry(counter, file, isDir)], FdOf, other) == FirstMatch(table, FdOf, other)
  {
    var t := table + [FdEntry(counter, file, isDir)];
    assert forall j :: 0 <= j < |table| ==> t[j] == table[j];
    assert TableValid(t, counter + 1);
    EntryIsFound(t, counter + 1, |table|);
    var r, r' := FirstMatch(t, FdOf, other), FirstMatch(table, FdOf, other);
    if r'.Some? {
      assert t[r'.value] == table[r'.value];
    }
    assert FdOf(t[|table|]) != other;
  }

  /** The table without entry k: the entries before it, then those after. */
  lemma RemovedAt(table: seq<FdEntry>, k: nat)
    requires k < |table|
    ensures var t := table[..k] + table[k + 1..];
      |t| == |table| - 1
      && (forall j :: 0 <= j < k ==> t[j] == table[j])
      && (forall j :: k <= j < |t| ==> t[j] == table[j + 1])
  {
  }

  /** Removing the entry a descriptor finds keeps the table valid and the
      descriptor no longer finds anything. */
  lemma RemoveKeepsTable(table: seq<FdEntry>, counter: int, fd: int, k: nat)
    requires TableValid(table, counter) && FirstMatch(table, FdOf, fd) == Some(k)
    ensures TableValid(table[..k] + table[k + 1..], counter)
    ensures FirstMatch(table[..k] + table[k + 1..], FdOf, fd) == None
  {
    var t := table[..k] + table[k + 1..];
    RemovedAt(table, k);
    forall j | 0 <= j < |t|
      ensures FdOf(t[j]) != fd
    {
      if j >= k {
        assert table[k].fd < table[j + 1].fd;
      }
    }
  }

  /** Removing the entry of one descriptor leaves every other descriptor
      finding its own entry. */
  lemma {:induction false} RemoveKeepsOthers(table: seq<FdEntry>, counter: int, fd: int, k: nat, other: int)
    requires TableValid(table, counter) && FirstMatch(table, FdOf, fd) == Some(k) && other != fd
    ensures var r := FirstMatch(table[..k] + table[k + 1..], FdOf, other);
      r.Some? <==> FirstMatch(table, FdOf, other).Some?
    ensures var r := FirstMatch(table[..k] + table[k + 1..], FdOf, other);
      r.Some? ==> (table[..k] + table[k + 1..])[r.value] == table[FirstMatch(table, FdOf, other).value]
  {
    var t := table[..k] + table[k + 1..];
    RemovedAt(table, k);
    RemoveKeepsTable(table, counter, fd, k);
    var r := FirstMatch(table, FdOf, other);
    if r.Some? {
      var i := if r.value < k then r.value else r.value - 1;
      assert t[i] == table[r.value];
      EntryIsFound(t, counter, i);
    }
    var r' := FirstMatch(t, FdOf, other);
    if r'.Some? {
      var i := r'.value;
      var i0 := if i < k then i else i + 1;
      assert table[i0] == t[i];
      EntryIsFound(table, counter, i0);
    }
  }

  /** One thread's descriptor table, descriptor counter and child list. */
  class ThreadFiles {
    var fdTable: seq<FdEntry>
    var counter: int
    var children: seq<ChildEntry>

    ghost predicate Valid()
      reads this
    {
      TableValid(fdTable, counter)
    }

    /** A thread with no open files and no children whose next descriptor
        is `first`. */
    constructor (first: int)
      ensures Valid() && fdTable == [] && counter == first && children == []
    {
      fdTable, counter, children := [], first, [];
    }

    /** find_fd_element: the position of the entry for fd, if any. */
    method FindFd(fd: int) returns (r: Option<nat>)
      ensures r == FirstMatch(fdTable, FdOf, fd)
    {
      r := Scan(fdTable, FdOf, fd);
    }

    /** find_child_element: the position of the child with this pid, if any. */
    method FindChild(pid: int) returns (r: Option<nat>)
      ensures r == FirstMatch(children, PidOf, pid)
    {
      r := Scan(children, PidOf, pid);
    }

    /** add_file_to_fd_table: the counter's value becomes the new
        descriptor, the entry goes to the back of the table, and the
        counter moves on. */
    method AddFile(file: FileRef, isDir: bool) returns (fd: int)
      requires Valid()
      modifies this
      ensures fd == old(counter) && counter == old(counter) + 1
      ensures fdTable == old(fdTable) + [FdEntry(fd, file, isDir)] && children == old(children)
      ensures Valid() && FirstMatch(fdTable, FdOf, fd) == Some(|fdTable| - 1)
    {
      fd := counter;
      AddKeepsTable(fdTable, counter, file, isDir, counter + 1);
      fdTable := fdTable + [FdEntry(fd, file, isDir)];
      counter := counter + 1;
    }

    /** open after filesys_open: -1 when the file could not be opened,
        otherwise a new descriptor for it. */
    method Open(fp: Option<FileRef>, isDir: bool) returns (fd: int)
      requires Valid()
      modifies this
      ensures fp.None? ==> fd == -1 && unchanged(this)
      ensures fp.Some? ==> fd == old(counter) && counter == old(counter) + 1
      ensures fp.Some? ==> fdTable == old(fdTable) + [FdEntry(fd, fp.value, isDir)]
      ensures children == old(children) && Valid()
    {
      fd := -1;
      if fp.Some? {
        fd := AddFile(fp.value, isDir);
      }
    }

    /** close: false for an unknown descriptor; otherwise its entry leaves
        the table and is returned, so that the caller closes it as a file
        or, when the directory flag is set, as a directory. */
    method Close(fd: int) returns (ok: bool, closed: Option<FdEntry>)
      requires Valid()
      modifies this
      ensures ok <==> FirstMatch(old(fdTable), FdOf, fd).Some?
      ensures ok == closed.Some?
      ensures !ok ==> fdTable == old(fdTable)
      ensures ok ==> var k := FirstMatch(old(fdTable), FdOf, fd).value;
        closed.value == old(fdTable)[k] && fdTable == old(fdTable)[..k] + old(fdTable)[k + 1..]
      ensures counter == old(counter) && children == old(children)
      ensures Valid() && FirstMatch(fdTable, FdOf, fd).None?
    {
      var r := FindFd(fd);
      if r.None? {
        return false, None;
      }
      var k := r.value;
      RemoveKeepsTable(fdTable, counter, fd, k);
      closed := Some(fdTable[k]);
      fdTable := fdTable[..k] + fdTable[k + 1..];
      ok := true;
    }

    /** read: fd 0 reads `size` keys from the keyboard and reports size;
        fd 1 and unknown descriptors give -1; any other descriptor is read
        by the file layer. */
    method Read(fd: int, size: uint32, fileRead: (FileRef, uint32) -> int32) returns (r: int32)
      ensures fd == 0 ==> r == SignedOf(size)
      ensures fd == 1 ==> r == -1
      ensures fd != 0 && fd != 1 && FirstMatch(fdTable, FdOf, fd).None? ==> r == -1
      ensures fd != 0 && fd != 1 && FirstMatch(fdTable, FdOf, fd).Some? ==>
        r == fileRead(fdTable[FirstMatch(fdTable, FdOf, fd).value].file, size)
    {
      r := -1;
      if fd == 0 {
        r := SignedOf(size);
      } else if fd != 1 {
        var e := FindFd(fd);
        if e.Some? {
          r := fileRead(fdTable[e.value].file, size);
        }
      }
    }

    /** write: fd 1 puts the buffer on the console and reports its size;
        fd 0 and unknown descriptors give -1; a directory descriptor sets
        the warning and gives -1; any other descriptor is written by the
        file layer. `printed` is what reaches the console. */
    method Write(fd: int, buffer: seq<byte>, fileWrite: (FileRef, seq<byte>) -> int32)
      returns (r: int32, warning: bool, printed: seq<byte>)
      requires |buffer| < TwoTo32
      ensures fd == 1 ==> r == SignedOf(|buffer|) && printed == buffer
      ensures fd != 1 ==> printed == []
      ensures warning <==> fd != 0 && fd != 1 && FirstMatch(fdTable, FdOf, fd).Some?
                           && fdTable[FirstMatch(fdTable, FdOf, fd).value].isDir
      ensures (fd == 0 || FirstMatch(fdTable, FdOf, fd).None? || warning) && fd != 1 ==> r == -1
      ensures fd != 0 && fd != 1 && FirstMatch(fdTable, FdOf, fd).Some? && !warning ==>
        r == fileWrite(fdTable[FirstMatch(fdTable, FdOf, fd).value].file, buffer)
    {
      r, warning, printed := -1, false, [];
      if fd == 1 {
        printed := buffer;
        r := SignedOf(|buffer|);
      } else if fd != 0 {
        var e := FindFd(fd);
        if e.Some? {
          if fdTable[e.value].isDir {
            warning := true;
          } else {
            r := fileWrite(fdTable[e.value].file, buffer);
          }
        }
      }
    }

    /** seek: false for an unknown descriptor; otherwise the file whose
        position file_seek sets. */
    method Seek(fd: int) returns (ok: bool, target: Option<FileRef>)
      ensures ok <==> FirstMatch(fdTable, FdOf, fd).Some?
      ensures ok ==> target == Some(fdTable[FirstMatch(fdTable, FdOf, fd).value].file)
      ensures !ok ==> target.None?
    {
      var e := FindFd(fd);
      if e.None? {
        return false, None;
      }
      return true, Some(fdTable[e.value].file);
    }

    /** filesize_get: -1 for an unknown descriptor, otherwise the file
        layer's length of its file. */
    method Filesize(fd: int, fileLength: FileRef -> int32) returns (r: int32)
      ensures FirstMatch(fdTable, FdOf, fd).None? ==> r == -1
      ensures FirstMatch(fdTable, FdOf, fd).Some? ==>
        r == fileLength(fdTable[FirstMatch(fdTable, FdOf, fd).value].file)
    {
      var e := FindFd(fd);
      if e.None? {
        return -1;
      }
      r := fileLength(fdTable[e.value].file);
    }
  }

  /** `int return_size = size`: an unsigned count read as a signed int,
      which turns counts of 2^31 and above negative. */
  function SignedOf(size: uint32): (r: int32)
    ensures size < 0x8000_0000 ==> r == size
    ensures size >= 0x8000_0000 ==> r < 0 && r + TwoTo32 == size
  {
    if size < 0x8000_0000 then size else size - TwoTo32
  }
}
