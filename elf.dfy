/** The ELF32 side of load() in process.c: the test of the executable
    header, validate_segment, the split of a PT_LOAD segment into bytes read
    from the file and bytes zeroed, and the page loop of load_segment. The
    arithmetic is the kernel's uint32 arithmetic, written out with explicit
    wrap-around where the code can wrap. */
module Elf {
  import opened Common
  import opened Words

  /** PGSIZE and PHYS_BASE of the i386 Pintos kernel. */
  const PgSize: nat := 4096
  const PhysBase: nat := 0xC000_0000
  /** sizeof (struct Elf32_Ehdr) and sizeof (struct Elf32_Phdr). */
  const EhdrSize: nat := 52
  const PhdrSize: nat := 32
  /** The most program headers load accepts. */
  const MaxPhnum: nat := 1024
  /** "\177ELF\1\1\1": magic, 32-bit class, little-endian, version 1. */
  const ElfMagic: seq<byte> := [0x7f, 0x45, 0x4c, 0x46, 1, 1, 1]

  /** struct Elf32_Ehdr. */
  datatype Ehdr = Ehdr(
    ident: seq<byte>, etype: uint16, machine: uint16, version: uint32, entry: uint32,
    phoff: uint32, shoff: uint32, flags: uint32, ehsize: uint16, phentsize: uint16,
    phnum: uint16, shentsize: uint16, shnum: uint16, shstrndx: uint16)

  /** struct Elf32_Phdr. */
  datatype Phdr = Phdr(
    ptype: uint32, offset: uint32, vaddr: uint32, paddr: uint32,
    filesz: uint32, memsz: uint32, flags: uint32, align: uint32)

  /** The header as file_read leaves it in memory: the first 52 bytes of the
      file, in the field order and byte order of the i386 layout. */
  function DecodeEhdr(b: seq<byte>): (h: Ehdr)
    requires |b| == EhdrSize
    ensures h.ident == b[..16]
  {
    Ehdr(b[..16], BytesU16(b[16..18]), BytesU16(b[18..20]), BytesU32(b[20..24]),
         BytesU32(b[24..28]), BytesU32(b[28..32]), BytesU32(b[32..36]), BytesU32(b[36..40]),
         BytesU16(b[40..42]), BytesU16(b[42..44]), BytesU16(b[44..46]), BytesU16(b[46..48]),
         BytesU16(b[48..50]), BytesU16(b[50..52]))
  }

  /** The test load applies to the executable header: a full-size read,
      the magic bytes, an executable (type 2) for the 80386 (machine 3) of
      ELF version 1, program headers of the expected size, and at most 1024
      of them. `file` is the executable's contents. */
  predicate HeaderAccepted(file: seq<byte>)
  {
    && |file| >= EhdrSize
    && var h := DecodeEhdr(file[..EhdrSize]);
    && h.ident[..7] == ElfMagic
    && h.etype == 2 && h.machine == 3 && h.version == 1
    && h.phentsize == PhdrSize && h.phnum <= MaxPhnum
  }

  /** The same test stated on the raw bytes, field by field. */
  predicate HeaderBytesAccepted(file: seq<byte>)
  {
    && |file| >= EhdrSize
    && file[..7] == ElfMagic
    && file[16..18] == [2, 0] && file[18..20] == [3, 0] && file[20..24] == [1, 0, 0, 0]
    && file[42..44] == [PhdrSize, 0]
    && (file[45] < 4 || file[44..46] == [0, 4])
  }

  lemma U16Is(b: seq<byte>, lo: byte, hi: byte)
    requires |b| == 2
    ensures BytesU16(b) == lo + 0x100 * hi <==> b == [lo, hi]
  {
    if BytesU16(b) == lo + 0x100 * hi {
      assert b[0] == lo && b[1] == hi;
    }
  }

  lemma U32Is(b: seq<byte>, w: uint32)
    requires |b| == 4
    ensures BytesU32(b) == w <==> b == U32Bytes(w)
  {
    U32RoundTrip(w);
    U32BytesRoundTrip(b);
  }

  /** Decoding the header and testing its fields accepts exactly the files
      whose bytes pass the byte-level test. */
  lemma {:induction false} HeaderTestOnBytes(file: seq<byte>)
    ensures HeaderAccepted(file) <==> HeaderBytesAccepted(file)
  {
    if |file| >= EhdrSize {
      var b := file[..EhdrSize];
      assert b[..7] == file[..7] && b[16..18] == file[16..18] && b[18..20] == file[18..20];
      assert b[20..24] == file[20..24] && b[42..44] == file[42..44] && b[44..46] == file[44..46];
      U16Is(file[16..18], 2, 0);
      U16Is(file[18..20], 3, 0);
      U32Is(file[20..24], 1);
      U16Is(file[42..44], PhdrSize, 0);
      U16Is(file[44..46], 0, 4);
      assert DecodeEhdr(b).ident[..7] == file[..7];
    }
  }

  /** a + b in uint32 arithmetic. */
  function Add32(a: uint32, b: uint32): (r: uint32)
    ensures a + b < TwoTo32 ==> r == a + b
    ensures a + b >= TwoTo32 ==> r == a + b - TwoTo32
  {
    (a + b) % TwoTo32
  }

  /** a - b in uint32 arithmetic. */
  function Sub32(a: uint32, b: uint32): (r: uint32)
    ensures a >= b ==> r == a - b
    ensures a < b ==> r == a - b + TwoTo32
  {
    (a - b) % TwoTo32
  }

  /** a & PGMASK: the offset of an address within its page. */
  function PageOffset(a: uint32): (r: nat)
    ensures r < PgSize && r <= a
  {
    a % PgSize
  }

  /** a & ~PGMASK: the start of the page holding an address. */
  function PageStart(a: uint32): (r: uint32)
    ensures r % PgSize == 0 && r + PageOffset(a) == a
  {
    a - a % PgSize
  }

  /** ROUND_UP (x, PGSIZE) as round.h computes it, in uint32: the least
      multiple of PGSIZE that is at least x, unless x + PGSIZE - 1 wraps,
      and then 0. */
  function RoundUp32(x: uint32): (r: uint32)
    ensures r % PgSize == 0
    ensures x + PgSize - 1 < TwoTo32 ==> x <= r < x + PgSize
    ensures x + PgSize - 1 >= TwoTo32 ==> r == 0
  {
    Add32(x, PgSize - 1) / PgSize * PgSize
  }

  /** The least multiple of PGSIZE that is at least x, in unbounded
      arithmetic. */
  function PageCeil(x: nat): (r: nat)
    ensures r % PgSize == 0 && x <= r < x + PgSize
  {
    (x + PgSize - 1) / PgSize * PgSize
  }

  /** is_user_vaddr */
  predicate IsUserVaddr(a: uint32)
  {
    a < PhysBase
  }

  /** What a loadable segment must satisfy, in unbounded arithmetic: file
      and memory page offsets agree, the data starts inside the file, the
      memory size covers the file size and is not zero, and the whole region
      lies in user space above page 0. */
  predicate SegmentFits(p: Phdr, fileLength: nat)
  {
    && PageOffset(p.offset) == PageOffset(p.vaddr)
    && p.offset <= fileLength
    && p.filesz <= p.memsz && p.memsz > 0
    && PgSize <= p.vaddr && p.vaddr + p.memsz < PhysBase
  }

  /** validate_segment. `fileLength` is file_length of the executable. The
      checks in uint32 arithmetic, including the one against wrap-around,
      accept exactly the segments that fit in unbounded arithmetic. */
  function ValidateSegment(p: Phdr, fileLength: nat): (ok: bool)
    ensures ok <==> SegmentFits(p, fileLength)
  {
    if PageOffset(p.offset) != PageOffset(p.vaddr) then false
    else if p.offset > fileLength then false
    else if p.memsz < p.filesz then false
    else if p.memsz == 0 then false
    else if !IsUserVaddr(p.vaddr) then false
    else if !IsUserVaddr(Add32(p.vaddr, p.memsz)) then false
    else if Add32(p.vaddr, p.memsz) < p.vaddr then false
    else if p.vaddr < PgSize then false
    else true
  }

  /** How load hands a PT_LOAD segment to load_segment. */
  datatype SegmentPlan = SegmentPlan(
    writable: bool, filePage: uint32, memPage: uint32, readBytes: uint32, zeroBytes: uint32)

  /** PF_W */
  const PfW: nat := 2

  /** The PT_LOAD branch of load, in uint32 arithmetic: a segment with file
      data reads from the start of its first page to the end of that data
      and zeroes the rest of its last page; a segment without file data is
      all zeroes. */
  function PlanSegment(p: Phdr): (plan: SegmentPlan)
    ensures plan.filePage % PgSize == 0 && plan.memPage % PgSize == 0
    ensures plan.filePage + PageOffset(p.vaddr) == p.offset ==> PageOffset(p.offset) == PageOffset(p.vaddr)
  {
    var pageOffset := PageOffset(p.vaddr);
    var writable := (p.flags / PfW) % 2 == 1;
    if p.filesz > 0 then
      var readBytes := Add32(pageOffset, p.filesz);
      SegmentPlan(writable, PageStart(p.offset), PageStart(p.vaddr), readBytes,
                  Sub32(RoundUp32(Add32(pageOffset, p.memsz)), readBytes))
    else
      SegmentPlan(writable, PageStart(p.offset), PageStart(p.vaddr), 0,
                  RoundUp32(Add32(pageOffset, p.memsz)))
  }

  /** For a segment validate_segment accepts, nothing in the plan wraps:
      the bytes read are the segment's file data preceded by the part of its
      first page before it, read and zeroed bytes together cover whole pages
      up to the end of the segment in memory, and those pages lie in user
      space above page 0. In particular read_bytes + zero_bytes is a
      multiple of PGSIZE, as load_segment asserts. */
  lemma {:induction false} PlanOfValidSegment(p: Phdr, fileLength: nat)
    requires ValidateSegment(p, fileLength)
    ensures var plan := PlanSegment(p);
      && plan.filePage + PageOffset(p.vaddr) == p.offset
      && plan.memPage + PageOffset(p.vaddr) == p.vaddr
      && plan.readBytes == (if p.filesz > 0 then PageOffset(p.vaddr) + p.filesz else 0)
      && plan.readBytes + plan.zeroBytes == PageCeil(PageOffset(p.vaddr) + p.memsz)
      && (plan.readBytes + plan.zeroBytes) % PgSize == 0
      && PgSize <= plan.memPage && plan.memPage + plan.readBytes + plan.zeroBytes <= PhysBase
  {
    var po := PageOffset(p.vaddr);
    var x := po + p.memsz;
    assert x < PhysBase;
    assert Add32(po, p.memsz) == x;
    assert Add32(x, PgSize - 1) == x + PgSize - 1;
    assert RoundUp32(x) == PageCeil(x);
    var m := PageStart(p.vaddr);
    assert m + x == p.vaddr + p.memsz;
    assert PhysBase % PgSize == 0 && m % PgSize == 0;
    CeilBelow(m, x, PhysBase);
    assert PgSize <= m by {
      assert p.vaddr >= PgSize;
      DivMono(p.vaddr, PgSize);
    }
  }

  /** A page-aligned base plus the page ceiling of x stays below a
      page-aligned bound that base + x is below. */
  lemma CeilBelow(m: nat, x: nat, bound: nat)
    requires m % PgSize == 0 && bound % PgSize == 0 && m + x < bound
    ensures m + PageCeil(x) <= bound
  {
    var q := PageCeil(x) / PgSize;
    assert PageCeil(x) == q * PgSize;
    var mq, bq := m / PgSize, bound / PgSize;
    assert m == mq * PgSize && bound == bq * PgSize;
    assert (mq + q - 1) * PgSize < bq * PgSize;
  }

  /** The page start of an address at or above PGSIZE is at or above
      PGSIZE. */
  lemma DivMono(a: nat, step: nat)
    requires step > 0 && a >= step
    ensures a - a % step >= step
  {
  }

  /** The n bytes of the file at `from`; reading nothing succeeds at any
      offset, even past the end. */
  function SegmentBytes(file: seq<byte>, from: nat, n: nat): (r: seq<byte>)
    requires n == 0 || from + n <= |file|
    ensures |r| == n
  {
    if n == 0 then [] else file[from .. from + n]
  }

  lemma SegmentBytesJoin(file: seq<byte>, from: nat, a: nat, b: nat)
    requires a == 0 || from + a <= |file|
    requires b == 0 || from + a + b <= |file|
    ensures SegmentBytes(file, from, a) + SegmentBytes(file, from + a, b) == SegmentBytes(file, from, a + b)
  {
    if a > 0 && b > 0 {
      assert file[from .. from + a] + file[from + a .. from + a + b] == file[from .. from + a + b];
    }
  }

  /** A page that still reads file bytes continues the file bytes mapped
      so far. */
  lemma ReadingStep(got: seq<byte>, more: seq<byte>, whole: seq<byte>, rest: nat)
    requires got + more == whole
    ensures (got + Zeros(0)) + (more + Zeros(rest)) == whole + Zeros(0 + rest)
  {
    assert got + Zeros(0) == got;
  }

  /** A page of zeroes continues the zeroes mapped so far. */
  lemma ZeroingStep(got: seq<byte>, zeroed: nat, rest: nat)
    ensures (got + Zeros(zeroed)) + ([] + Zeros(rest)) == got + Zeros(zeroed + rest)
  {
    ZerosJoin(zeroed, rest);
    assert [] + Zeros(rest) == Zeros(rest);
  }

  /** One page of load_segment appended to the bytes mapped so far: the
      file bytes continue where they stopped, and zeroes follow only once the
      file bytes are done. */
  lemma {:induction false} PageStep(file: seq<byte>, ofs: nat, done: nat, zeroed: nat, pos: nat,
                                    take: nat, rest: nat, memory: seq<byte>)
    requires pos == ofs + done
    requires done == 0 || pos <= |file|
    requires take == 0 || pos + take <= |file|
    requires zeroed > 0 ==> take == 0
    requires memory == SegmentBytes(file, ofs, done) + Zeros(zeroed)
    ensures memory + (SegmentBytes(file, pos, take) + Zeros(rest))
            == SegmentBytes(file, ofs, done + take) + Zeros(zeroed + rest)
  {
    if zeroed == 0 {
      SegmentBytesJoin(file, ofs, done, take);
      ReadingStep(SegmentBytes(file, ofs, done), SegmentBytes(file, pos, take), SegmentBytes(file, ofs, done + take), rest);
    } else {
      ZeroingStep(SegmentBytes(file, ofs, done), zeroed, rest);
    }
  }

  /** The counters of load_segment after `n` pages: `read` and `zero` are
      the bytes still to read and to zero, `left` the pages still to map and
      `pos` the file position. */
  ghost predicate Counted(fileLength: nat, ofs: nat, readBytes: nat, zeroBytes: nat,
                          read: nat, zero: nat, left: nat, pos: nat, n: nat)
  {
    && read <= readBytes && zero <= zeroBytes
    && read + zero == left * PgSize
    && n * PgSize == (readBytes - read) + (zeroBytes - zero)
    && (zero < zeroBytes ==> read == 0)
    && pos == ofs + (readBytes - read) && (read == readBytes || pos <= fileLength)
  }

  /** A user page installed by install_page, with its protection. */
  datatype PageMapping = PageMapping(upage: nat, writable: bool)

  /** The pages so far are mapped in order from `upage`, each with the
      protection `writable`, and `page` is the next user page. */
  ghost predicate Placed(upage: nat, writable: bool, canMap: (nat, bool) -> bool, page: nat,
                         addrs: seq<PageMapping>)
  {
    && page == upage + |addrs| * PgSize
    && (forall k :: 0 <= k < |addrs| ==>
          addrs[k] == PageMapping(upage + k * PgSize, writable) && canMap(addrs[k].upage, writable))
  }

  /** The state of load_segment after some pages: the counters agree, the
      pages are in place and they hold the bytes loaded so far. */
  ghost predicate Progress(file: seq<byte>, ofs: nat, upage: nat, readBytes: nat, zeroBytes: nat,
                           writable: bool, canMap: (nat, bool) -> bool, read: nat, zero: nat, left: nat, pos: nat, page: nat,
                           addrs: seq<PageMapping>, memory: seq<byte>)
  {
    && Counted(|file|, ofs, readBytes, zeroBytes, read, zero, left, pos, |addrs|)
    && Placed(upage, writable, canMap, page, addrs)
    && memory == SegmentBytes(file, ofs, readBytes - read) + Zeros(zeroBytes - zero)
  }

  /** Nothing is loaded yet. */
  lemma ProgressStart(file: seq<byte>, ofs: nat, upage: nat, readBytes: nat, zeroBytes: nat,
                      writable: bool, canMap: (nat, bool) -> bool)
    requires (readBytes + zeroBytes) % PgSize == 0
    ensures Progress(file, ofs, upage, readBytes, zeroBytes, writable, canMap, readBytes, zeroBytes,
                     (readBytes + zeroBytes) / PgSize, ofs, upage, [], [])
  {
    assert SegmentBytes(file, ofs, 0) + Zeros(0) == [];
  }

  lemma CountedStep(fileLength: nat, ofs: nat, readBytes: nat, zeroBytes: nat,
                    read: nat, zero: nat, left: nat, pos: nat, n: nat, take: nat)
    requires Counted(fileLength, ofs, readBytes, zeroBytes, read, zero, left, pos, n)
    requires read > 0 || zero > 0
    requires take == if read < PgSize then read else PgSize
    requires take == 0 || pos + take <= fileLength
    ensures left > 0 && PgSize - take <= zero
    ensures Counted(fileLength, ofs, readBytes, zeroBytes, read - take, zero - (PgSize - take),
                    left - 1, pos + take, n + 1)
  {
  }

  lemma PlacedStep(upage: nat, writable: bool, canMap: (nat, bool) -> bool, page: nat, addrs: seq<PageMapping>)
    requires Placed(upage, writable, canMap, page, addrs) && canMap(page, writable)
    ensures Placed(upage, writable, canMap, page + PgSize, addrs + [PageMapping(page, writable)])
  {
  }

  /** One page read, zeroed and mapped. */
  lemma {:induction false} ProgressStep(file: seq<byte>, ofs: nat, upage: nat, readBytes: nat, zeroBytes: nat,
                     writable: bool, canMap: (nat, bool) -> bool, read: nat, zero: nat, left: nat, pos: nat, page: nat,
                     addrs: seq<PageMapping>, memory: seq<byte>, take: nat)
    requires Progress(file, ofs, upage, readBytes, zeroBytes, writable, canMap, read, zero, left, pos, page, addrs, memory)
    requires read > 0 || zero > 0
    requires take == if read < PgSize then read else PgSize
    requires take == 0 || pos + take <= |file|
    requires canMap(page, writable)
    ensures left > 0 && PgSize - take <= zero
    ensures Progress(file, ofs, upage, readBytes, zeroBytes, writable, canMap, read - take, zero - (PgSize - take),
                     left - 1, pos + take, page + PgSize, addrs + [PageMapping(page, writable)],
                     memory + (SegmentBytes(file, pos, take) + Zeros(PgSize - take)))
  {
    CountedStep(|file|, ofs, readBytes, zeroBytes, read, zero, left, pos, |addrs|, take);
    PlacedStep(upage, writable, canMap, page, addrs);
    PageStep(file, ofs, readBytes - read, zeroBytes - zero, pos, take, PgSize - take, memory);
    assert readBytes - (read - take) == (readBytes - read) + take;
    assert zeroBytes - (zero - (PgSize - take)) == (zeroBytes - zero) + (PgSize - take);
  }

  /** A page that cannot be read in full or mapped fails the segment. */
  lemma ProgressStuck(file: seq<byte>, ofs: nat, upage: nat, readBytes: nat, zeroBytes: nat,
                     writable: bool, canMap: (nat, bool) -> bool, read: nat, zero: nat, left: nat, pos: nat, page: nat,
                     addrs: seq<PageMapping>, memory: seq<byte>, take: nat)
    requires Progress(file, ofs, upage, readBytes, zeroBytes, writable, canMap, read, zero, left, pos, page, addrs, memory)
    requires read > 0 || zero > 0
    requires take == if read < PgSize then read else PgSize
    requires (take > 0 && pos + take > |file|) || !canMap(page, writable)
    ensures !(readBytes == 0 || ofs + readBytes <= |file|)
            || exists k :: 0 <= k < (readBytes + zeroBytes) / PgSize && !canMap(upage + k * PgSize, writable)
  {
    if !canMap(page, writable) {
      assert 0 <= |addrs| < (readBytes + zeroBytes) / PgSize;
    }
  }

  /** Every page is loaded. */
  lemma ProgressDone(file: seq<byte>, ofs: nat, upage: nat, readBytes: nat, zeroBytes: nat,
                     writable: bool, canMap: (nat, bool) -> bool, left: nat, pos: nat, page: nat,
                     addrs: seq<PageMapping>, memory: seq<byte>)
    requires Progress(file, ofs, upage, readBytes, zeroBytes, writable, canMap, 0, 0, left, pos, page, addrs, memory)
    ensures readBytes == 0 || ofs + readBytes <= |file|
    ensures |addrs| == (readBytes + zeroBytes) / PgSize
    ensures forall k :: 0 <= k < (readBytes + zeroBytes) / PgSize ==> canMap(upage + k * PgSize, writable)
  {
    forall k | 0 <= k < (readBytes + zeroBytes) / PgSize
      ensures canMap(upage + k * PgSize, writable)
    {
      assert addrs[k].upage == upage + k * PgSize;
    }
  }

  /** load_segment. Starting at file offset `ofs`, each page reads the next
      min (read_bytes, PGSIZE) bytes of the file and zeroes the rest of the
      page, then is mapped at the next user page, starting at `upage`.
      `canMap` tells, for a user page and a protection, whether getting a
      frame for it and installing it with that protection succeed. The
      result is true exactly when every page gets its file bytes and is
      mapped. Then `addrs` are the pages mapped, in order, each writable by
      the user process exactly when `writable` is set, and `memory` is what
      they hold, page after page: the read_bytes bytes of the file at ofs
      followed by zero_bytes zeroes. */
  method LoadSegment(file: seq<byte>, ofs: nat, upage: nat, readBytes: uint32, zeroBytes: uint32,
                     writable: bool, canMap: (nat, bool) -> bool)
    returns (ok: bool, addrs: seq<PageMapping>, memory: seq<byte>)
    requires (readBytes + zeroBytes) % PgSize == 0
    requires upage % PgSize == 0 && ofs % PgSize == 0
    ensures ok <==> (readBytes == 0 || ofs + readBytes <= |file|)
                    && forall k :: 0 <= k < (readBytes + zeroBytes) / PgSize ==> canMap(upage + k * PgSize, writable)
    ensures ok ==> |addrs| == (readBytes + zeroBytes) / PgSize
    ensures ok ==> forall k :: 0 <= k < |addrs| ==> addrs[k] == PageMapping(upage + k * PgSize, writable)
    ensures ok ==> memory == SegmentBytes(file, ofs, readBytes) + Zeros(zeroBytes)
  {
    var read: nat, zero: nat := readBytes, zeroBytes;
    var pos: nat, page: nat := ofs, upage;
    ghost var left: nat := (readBytes + zeroBytes) / PgSize;
    addrs, memory := [], [];
    ProgressStart(file, ofs, upage, readBytes, zeroBytes, writable, canMap);
    while read > 0 || zero > 0
      invariant Progress(file, ofs, upage, readBytes, zeroBytes, writable, canMap, read, zero, left, pos, page, addrs, memory)
      decreases left
    {
      var pageRead: nat := if read < PgSize then read else PgSize;
      if (pageRead > 0 && pos + pageRead > |file|) || !canMap(page, writable) {
        ProgressStuck(file, ofs, upage, readBytes, zeroBytes, writable, canMap, read, zero, left, pos, page, addrs, memory, pageRead);
        return false, addrs, memory;
      }
      ProgressStep(file, ofs, upage, readBytes, zeroBytes, writable, canMap, read, zero, left, pos, page, addrs, memory, pageRead);
      addrs, memory := addrs + [PageMapping(page, writable)], memory + (SegmentBytes(file, pos, pageRead) + Zeros(PgSize - pageRead));
      read, zero := read - pageRead, zero - (PgSize - pageRead);
      left := left - 1;
      pos, page := pos + pageRead, page + PgSize;
    }
    ProgressDone(file, ofs, upage, readBytes, zeroBytes, writable, canMap, left, pos, page, addrs, memory);
    ok := true;
  }
}
