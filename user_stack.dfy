/** setup_stack: the one page of user stack a new process starts with, just
    below PHYS_BASE, holding its command-line arguments in the layout of the
    80x86 calling convention: the argument strings at the top, padding to a
    word boundary, then from the stack pointer up a fake return address,
    argc, argv, the argv[] pointers and a null pointer. */
module UserStack {
  import opened Common
  import opened Words
  import opened Tokens
  import opened CommandLine
  import Elf

  /** The user address of the stack page's first byte. */
  const PageBase: nat := Elf.PhysBase - Elf.PgSize

  /** A C string: 8-bit characters, none of them NUL. */
  predicate IsCString(s: string)
  {
    forall c :: c in s ==> 0 < c as int < 0x100
  }

  /** The bytes of a string followed by a terminating NUL, each character
      stored as a C char (its low eight bits). For a C string the bytes are
      the characters themselves and the NUL is the first zero byte. */
  function CString(s: string): (b: seq<byte>)
    ensures |b| == |s| + 1 && b[|s|] == 0
    ensures forall k :: 0 <= k < |s| ==> b[k] == s[k] as int % 0x100
    ensures IsCString(s) ==> forall k :: 0 <= k < |s| ==> b[k] == s[k] as int && b[k] != 0
  {
    if s == [] then [0]
    else
      assert s[0] in s && forall c :: c in s[1..] ==> c in s;
      [s[0] as int % 0x100] + CString(s[1..])
  }

  /** The argument strings, each NUL-terminated, one after the other in
      argument order. */
  function StringArea(args: seq<string>): seq<byte>
  {
    if args == [] then [] else CString(args[0]) + StringArea(args[1..])
  }

  /** The string area of all arguments ends with the string area of the
      arguments from k on. */
  lemma {:induction false} StringAreaSplit(args: seq<string>, k: nat)
    requires k <= |args|
    ensures StringArea(args) == StringArea(args[..k]) + StringArea(args[k..])
  {
    if k > 0 {
      StringAreaSplit(args[1..], k - 1);
      assert args[1..][..k - 1] == args[..k][1..];
      assert args[1..][k - 1..] == args[k..];
    } else {
      assert args[..k] == [];
      assert args[k..] == args;
    }
  }

  /** The bytes that bring `total` bytes of strings to a word boundary. */
  function Padding(total: nat): (pad: nat)
    ensures pad < 4 && (total + pad) % 4 == 0
  {
    if total % 4 != 0 then 4 - total % 4 else 0
  }

  /** The bytes the stack uses: the words (return address, argc, argv, one
      pointer per argument and the null pointer), the padding and the
      strings. */
  function StackSize(args: seq<string>): nat
  {
    4 * (|args| + 4) + Padding(|StringArea(args)|) + |StringArea(args)|
  }

  /** Every argument is a C string and the stack fits in its page. */
  predicate ArgsFit(args: seq<string>)
  {
    (forall t :: t in args ==> IsCString(t)) && StackSize(args) <= Elf.PgSize
  }

  /** The initial stack pointer. */
  function Esp(args: seq<string>): nat
    requires ArgsFit(args)
  {
    Elf.PhysBase - StackSize(args)
  }

  /** The address of the copy of argument k: the string area of the
      arguments from k on ends at PHYS_BASE. */
  function ArgAddr(args: seq<string>, k: nat): (a: uint32)
    requires ArgsFit(args) && k < |args|
    ensures a >= Esp(args)
  {
    StringAreaSplit(args, k);
    Elf.PhysBase - |StringArea(args[k..])|
  }

  function ArgAddrs(args: seq<string>): (ptrs: seq<uint32>)
    requires ArgsFit(args)
    ensures |ptrs| == |args| && forall k :: 0 <= k < |args| ==> ptrs[k] == ArgAddr(args, k)
  {
    seq(|args|, k requires 0 <= k < |args| => ArgAddr(args, k))
  }

  /** The words from the stack pointer up: a null return address, argc,
      argv pointing at the argv[] array just above it, argv[0 .. argc - 1]
      and argv[argc] == NULL. */
  function StackWords(args: seq<string>): (ws: seq<uint32>)
    requires ArgsFit(args)
    ensures |ws| == |args| + 4
  {
    [0, |args|, Esp(args) + 12] + ArgAddrs(args) + [0]
  }

  /** The whole stack page as setup_stack leaves it: zeroes below the stack
      pointer, the words, the padding, the strings. */
  function StackImage(args: seq<string>): (page: seq<byte>)
    requires ArgsFit(args)
    ensures |page| == Elf.PgSize
  {
    Zeros(Elf.PgSize - StackSize(args)) + WordsToBytes(StackWords(args))
      + Zeros(Padding(|StringArea(args)|)) + StringArea(args)
  }

  /** The stack pointer is word-aligned. */
  lemma EspAligned(args: seq<string>)
    requires ArgsFit(args)
    ensures Esp(args) % 4 == 0 && Esp(args) >= PageBase
  {
    var n := |StringArea(args)|;
    assert (n + Padding(n)) % 4 == 0;
  }

  /** Each argv[k] points at a NUL-terminated copy of argument k, inside the
      stack page. */
  lemma {:induction false} ArgPointsToCopy(args: seq<string>, k: nat)
    requires ArgsFit(args) && k < |args|
    ensures var off := ArgAddr(args, k) - PageBase;
      off + |args[k]| + 1 <= Elf.PgSize
      && StackImage(args)[off .. off + |args[k]| + 1] == CString(args[k])
  {
    var page := StackImage(args);
    StringAreaSplit(args, k);
    var rest := StringArea(args[k..]);
    assert args[k..][1..] == args[k + 1..];
    assert rest == CString(args[k]) + StringArea(args[k + 1..]);
    var off := ArgAddr(args, k) - PageBase;
    assert off == Elf.PgSize - |rest|;
    var head := Zeros(Elf.PgSize - StackSize(args)) + WordsToBytes(StackWords(args))
                + Zeros(Padding(|StringArea(args)|)) + StringArea(args[..k]);
    assert page == head + rest;
    assert page[off..] == rest;
    assert page[off .. off + |args[k]| + 1] == rest[.. |args[k]| + 1];
  }

  /** Read back as words from the stack pointer, the stack holds argc at
      esp + 4, at esp + 8 the address esp + 12 of argv[], then argv[k] at
      esp + 12 + 4k for each argument, and NULL at esp + 12 + 4 argc. */
  lemma {:induction false} WordsReadBack(args: seq<string>)
    requires ArgsFit(args)
    ensures var off := Esp(args) - PageBase;
      var ws := BytesToWords(StackImage(args)[off .. off + 4 * (|args| + 4)]);
      && ws[1] == |args| && ws[2] == Esp(args) + 12 && ws[3 + |args|] == 0
      && forall k :: 0 <= k < |args| ==> ws[3 + k] == ArgAddr(args, k)
  {
    var off := Esp(args) - PageBase;
    var words := WordsToBytes(StackWords(args));
    assert StackImage(args)[off .. off + 4 * (|args| + 4)] == words;
    WordsRoundTrip(StackWords(args));
  }

  /** *p_word = w: a 32-bit store, little-endian, at byte offset `off` of
      the page. */
  method StoreWord(page: array<byte>, off: nat, w: uint32)
    requires off + 4 <= page.Length
    modifies page
    ensures page[..] == Overwrite(old(page[..]), off, U32Bytes(w))
  {
    var b := U32Bytes(w);
    page[off], page[off + 1], page[off + 2], page[off + 3] := b[0], b[1], b[2], b[3];
    assert page[off .. off + 4] == b;
  }

  /** memcpy of a string with its NUL to byte offset `off` of the page. */
  method StoreString(page: array<byte>, off: nat, s: string)
    requires off + |s| + 1 <= page.Length
    modifies page
    ensures page[..] == Overwrite(old(page[..]), off, CString(s))
  {
    var b := CString(s);
    forall k | 0 <= k < |b| {
      page[off + k] := b[k];
    }
    assert page[off .. off + |b|] == b;
  }

  /** Pushing the string of argument i below the strings of the arguments
      after it gives the strings of the arguments from i on. */
  lemma StringsStep(args: seq<string>, i: nat, sp: nat, image: seq<byte>)
    requires |StringArea(args)| <= Elf.PgSize && i < |args|
    requires sp == Elf.PgSize - |StringArea(args[i + 1..])|
    requires image == Zeros(sp) + StringArea(args[i + 1..])
    ensures |args[i]| + 1 <= sp
    ensures Overwrite(image, sp - (|args[i]| + 1), CString(args[i]))
            == Zeros(sp - (|args[i]| + 1)) + StringArea(args[i..])
    ensures sp - (|args[i]| + 1) == Elf.PgSize - |StringArea(args[i..])|
  {
    StringAreaFrom(args, i);
    StringBelow(sp, CString(args[i]), StringArea(args[i + 1..]), image);
  }

  /** The string area of the arguments from i on: argument i, then those
      after it; it is no longer than the whole string area. */
  lemma StringAreaFrom(args: seq<string>, i: nat)
    requires i < |args|
    ensures StringArea(args[i..]) == CString(args[i]) + StringArea(args[i + 1..])
    ensures |StringArea(args[i..])| <= |StringArea(args)|
  {
    StringAreaSplit(args, i);
    assert args[i..][1..] == args[i + 1..];
  }

  /** Bytes copied just below the bytes pushed so far. */
  lemma StringBelow(sp: nat, cs: seq<byte>, rest: seq<byte>, image: seq<byte>)
    requires |cs| <= sp && image == Zeros(sp) + rest
    ensures Overwrite(image, sp - |cs|, cs) == Zeros(sp - |cs|) + (cs + rest)
  {
    OverwriteBelow(sp, cs, rest);
  }

  /** The strings of the arguments from i + 1 on are pushed so that they
      end at the top of the page, `sp` is the lowest byte they use, and
      the pointer slots from i + 1 on hold their addresses. */
  ghost predicate StringsPushed(image: seq<byte>, ptrs: seq<uint32>, args: seq<string>, i: int, sp: nat)
  {
    && ArgsFit(args) && -1 <= i < |args| && |args| <= |ptrs|
    && sp == Elf.PgSize - |StringArea(args[i + 1..])|
    && image == Zeros(sp) + StringArea(args[i + 1..])
    && forall k :: i < k < |args| ==> ptrs[k] == ArgAddr(args, k)
  }

  lemma StringsPushedDone(image: seq<byte>, ptrs: seq<uint32>, args: seq<string>, sp: nat)
    requires StringsPushed(image, ptrs, args, -1, sp)
    ensures sp == Elf.PgSize - |StringArea(args)| && image == Zeros(sp) + StringArea(args)
    ensures ptrs[..|args|] == ArgAddrs(args)
  {
    assert args[0..] == args;
  }

  lemma StringsPushedStep(image: seq<byte>, ptrs: seq<uint32>, args: seq<string>, i: nat, sp: nat)
    requires StringsPushed(image, ptrs, args, i, sp) && i < |args|
    ensures |args[i]| + 1 <= sp
    ensures PageBase + sp - (|args[i]| + 1) == ArgAddr(args, i)
    ensures var sp' := sp - (|args[i]| + 1);
      StringsPushed(Overwrite(image, sp', CString(args[i])), ptrs[i := ArgAddr(args, i)], args, i - 1, sp')
  {
    StringsStep(args, i, sp, image);
  }

  /** Four bytes stored just below the bytes pushed so far. */
  lemma PushBelow(sp: nat, b: seq<byte>, words: seq<byte>, tail: seq<byte>, image: seq<byte>)
    requires |b| == 4 && image == Zeros(sp + 4) + words + tail
    ensures Overwrite(image, sp, b) == Zeros(sp) + (b + words) + tail
  {
    OverwriteBelow(sp + 4, b, words + tail);
    assert image == Zeros(sp + 4) + (words + tail);
  }

  /** Pushing a word below the words pushed so far. */
  lemma WordStep(sp: nat, w: uint32, ws: seq<uint32>, tail: seq<byte>, image: seq<byte>)
    requires image == Zeros(sp + 4) + WordsToBytes(ws) + tail
    ensures Overwrite(image, sp, U32Bytes(w)) == Zeros(sp) + WordsToBytes([w] + ws) + tail
  {
    WordsCons(w, ws);
    PushBelow(sp, U32Bytes(w), WordsToBytes(ws), tail, image);
  }

  /** The strings pushed, then the padding, seen as the tail below which
      the words go. */
  lemma PaddingStep(top: nat, pad: nat, area: seq<byte>, image: seq<byte>)
    requires image == Zeros(top + pad) + area
    ensures image == Zeros(top) + (Zeros(pad) + area)
  {
    ZerosJoin(top, pad);
  }

  /** The first loop of setup_stack: the argument strings, each with its
      NUL, pushed from the last argument down so that they end at
      PHYS_BASE in argument order, and the address of each copy kept in
      the pointer array. */
  method PushStrings(kpage: array<byte>, argv: array<Option<string>>, argc: nat,
                     argPtrs: array<uint32>, ghost args: seq<string>)
    returns (total: nat)
    requires ArgsFit(args) && argc == |args| && argc <= argv.Length && argc <= argPtrs.Length
    requires forall k :: 0 <= k < argc ==> argv[k] == Some(args[k])
    requires kpage.Length == Elf.PgSize && kpage[..] == Zeros(Elf.PgSize)
    modifies kpage, argPtrs
    ensures total == |StringArea(args)|
    ensures kpage[..] == Zeros(Elf.PgSize - total) + StringArea(args)
    ensures argPtrs[..argc] == ArgAddrs(args)
  {
    total := 0;
    var sp: nat := Elf.PgSize;
    var i: int := argc - 1;
    assert args[argc..] == [];
    while i >= 0
      invariant -1 <= i < argc && total == Elf.PgSize - sp
      invariant StringsPushed(kpage[..], argPtrs[..], args, i, sp)
      decreases i
    {
      var arg := argv[i].value;
      StringsPushedStep(kpage[..], argPtrs[..], args, i, sp);
      total, sp := total + |arg| + 1, sp - (|arg| + 1);
      StoreString(kpage, sp, arg);
      ghost var before := argPtrs[..];
      argPtrs[i] := PageBase + sp;
      assert argPtrs[..] == before[i := ArgAddr(args, i)];
      i := i - 1;
    }
    StringsPushedDone(kpage[..], argPtrs[..], args, sp);
  }

  /** The pointers from index i + 1 on are pushed, with the null pointer
      after them, below `tail`; `sp` is the next free word. */
  ghost predicate PointersPushed(image: seq<byte>, ptrs: seq<uint32>, i: int, sp: nat, tail: seq<byte>)
  {
    -1 <= i < |ptrs| && image == Zeros(sp + 4) + WordsToBytes(ptrs[i + 1..] + [0]) + tail
  }

  lemma PointersStep(image: seq<byte>, ptrs: seq<uint32>, i: nat, sp: nat, tail: seq<byte>)
    requires PointersPushed(image, ptrs, i, sp, tail) && i < |ptrs| && sp >= 4
    ensures PointersPushed(Overwrite(image, sp, U32Bytes(ptrs[i])), ptrs, i - 1, sp - 4, tail)
  {
    WordStep(sp, ptrs[i], ptrs[i + 1..] + [0], tail, image);
    assert [ptrs[i]] + (ptrs[i + 1..] + [0]) == ptrs[i..] + [0];
    assert Zeros(sp) == Zeros(sp - 4 + 4);
  }

  /** The second loop of setup_stack: argv[argc - 1] down to argv[0]
      pushed below the null pointer that ends argv[]. `sp` is the next free
      word, as p_word is. */
  method PushPointers(kpage: array<byte>, argPtrs: array<uint32>, argc: nat, sp0: nat,
                      ghost tail: seq<byte>)
    returns (sp: nat)
    requires argc <= argPtrs.Length && 4 * argc <= sp0
    requires kpage.Length == Elf.PgSize && kpage[..] == Zeros(sp0 + 4) + WordsToBytes([0]) + tail
    modifies kpage
    ensures sp == sp0 - 4 * argc
    ensures kpage[..] == Zeros(sp + 4) + WordsToBytes(argPtrs[..argc] + [0]) + tail
  {
    ghost var ptrs := argPtrs[..argc];
    sp := sp0;
    var i: int := argc - 1;
    assert ptrs[argc..] == [];
    while i >= 0
      invariant -1 <= i < argc && sp == sp0 - 4 * (argc - 1 - i)
      invariant PointersPushed(kpage[..], ptrs, i, sp, tail)
      decreases i
    {
      var w := argPtrs[i];
      PointersStep(kpage[..], ptrs, i, sp, tail);
      StoreWord(kpage, sp, w);
      sp := sp - 4;
      i := i - 1;
    }
    assert ptrs[0..] == ptrs;
  }

  /** The words of setup_stack pushed below `tail`, which starts at byte
      `top`: argv[argc] == NULL, the pointers argv[argc - 1] down to argv[0],
      then argv, argc and a null return address. The result is the final
      stack offset in the page. */
  method PushWords(kpage: array<byte>, argPtrs: array<uint32>, argc: nat, top: nat,
                   ghost tail: seq<byte>)
    returns (sp: nat)
    requires argc < MaxArgsCount && argc <= argPtrs.Length && 4 * (argc + 4) <= top
    requires kpage.Length == Elf.PgSize && kpage[..] == Zeros(top) + tail
    modifies kpage
    ensures sp == top - 4 * (argc + 4)
    ensures kpage[..] == Zeros(sp) + WordsToBytes([0, argc, PageBase + sp + 12] + argPtrs[..argc] + [0]) + tail
  {
    sp := top - 4;
    WordStep(sp, 0, [], tail, kpage[..]);
    StoreWord(kpage, sp, 0);
    sp := PushPointers(kpage, argPtrs, argc, sp - 4, tail);
    ghost var ws := argPtrs[..argc] + [0];
    var argvAddr: uint32 := PageBase + sp + 4;
    WordStep(sp, argvAddr, ws, tail, kpage[..]);
    StoreWord(kpage, sp, argvAddr);
    ws, sp := [argvAddr] + ws, sp - 4;
    WordStep(sp, argc, ws, tail, kpage[..]);
    StoreWord(kpage, sp, argc);
    ws, sp := [argc] + ws, sp - 4;
    WordStep(sp, 0, ws, tail, kpage[..]);
    StoreWord(kpage, sp, 0);
    assert [0] + ws == [0, argc, PageBase + sp + 12] + argPtrs[..argc] + [0];
  }

  /** The page setup_stack builds is StackImage, with the stack pointer at
      Esp. */
  lemma StackLayout(args: seq<string>, ptrs: seq<uint32>, sp: nat, image: seq<byte>)
    requires ArgsFit(args) && |args| < MaxArgsCount && ptrs == ArgAddrs(args)
    requires sp == Elf.PgSize - StackSize(args)
    requires image == Zeros(sp) + WordsToBytes([0, |args|, PageBase + sp + 12] + ptrs + [0])
                      + (Zeros(Padding(|StringArea(args)|)) + StringArea(args))
    ensures PageBase + sp == Esp(args) && image == StackImage(args)
  {
    assert PageBase + sp == Esp(args);
    assert [0, |args|, PageBase + sp + 12] + ptrs + [0] == StackWords(args);
  }

  /** setup_stack. `pageOk` tells whether getting a zeroed frame and
      installing it just below PHYS_BASE succeed; `esp0` is the caller's
      stack pointer, left alone on failure. On success the page holds
      StackImage of the command's arguments and the stack pointer is Esp:
      the strings are pushed from the last argument down, padded to a word
      boundary, and the words pushed below them. */
  method SetupStack(command: string, pageOk: bool, esp0: nat)
    returns (success: bool, esp: nat, kpage: array<byte>)
    requires |Args(command)| < MaxArgsCount && ArgsFit(Args(command))
    ensures fresh(kpage) && kpage.Length == Elf.PgSize
    ensures success == pageOk && (!success ==> esp == esp0)
    ensures success ==> esp == Esp(Args(command)) && kpage[..] == StackImage(Args(command))
  {
    kpage := new byte[Elf.PgSize](_ => 0);
    if !pageOk {
      return false, esp0, kpage;
    }
    success := true;
    ghost var args := Args(command);
    var argv := new Option<string>[MaxArgsCount];
    var argc := ParseCommandString(command, argv, false);
    var argPtrs := new uint32[MaxArgsCount];
    assert kpage[..] == Zeros(Elf.PgSize);
    var total := PushStrings(kpage, argv, argc, argPtrs, args);
    // padding to a word boundary: the page is already zero
    ghost var pad := Padding(total);
    var top: nat := Elf.PgSize - total;
    var remainder := total % 4;
    if remainder != 0 {
      top := top - (4 - remainder);
    }
    assert top + pad == Elf.PgSize - total;
    assert top == Elf.PgSize - StackSize(args) + 4 * (argc + 4);
    ghost var tail := Zeros(pad) + StringArea(args);
    PaddingStep(top, pad, StringArea(args), kpage[..]);
    var sp := PushWords(kpage, argPtrs, argc, top, tail);
    esp := PageBase + sp;
    StackLayout(args, argPtrs[..argc], sp, kpage[..]);
  }
}
