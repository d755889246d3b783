/** Value types shared by every part of the model: an optional result and the
    machine integer ranges the kernel's C code works with. */
module Common {

  /** A result that may be absent (a NULL pointer, or a C function that falls
      off its end without returning a value). */
  datatype Option<+T> = None | Some(value: T)

  /** uint8_t */
  type byte = x: int | 0 <= x < 0x100

  /** uint16_t (Elf32_Half) */
  type uint16 = x: int | 0 <= x < 0x1_0000

  /** uint32_t (block_sector_t, Elf32_Word, Elf32_Addr, Elf32_Off) */
  type uint32 = x: int | 0 <= x < 0x1_0000_0000

  /** off_t and int: a signed 32-bit value. */
  type int32 = x: int | -0x8000_0000 <= x < 0x8000_0000

  const TwoTo32: int := 0x1_0000_0000

  function Min(a: int, b: int): int
  {
    if a < b then a else b
  }

  /** A sequence of n zero bytes (a calloc'd or memset buffer). */
  function Zeros(n: nat): (z: seq<byte>)
    ensures |z| == n && forall i :: 0 <= i < n ==> z[i] == 0
  {
    seq(n, _ => 0)
  }

  lemma ZerosJoin(a: nat, b: nat)
    ensures Zeros(a) + Zeros(b) == Zeros(a + b)
  {
  }

  /** memcpy (dst + off, data, |data|) on a buffer of bytes: `s` with the
      bytes at off .. off + |data| replaced by `data`. */
  function Overwrite(s: seq<byte>, off: nat, data: seq<byte>): (r: seq<byte>)
    requires off + |data| <= |s|
    ensures |r| == |s| && r[off .. off + |data|] == data
    ensures forall p :: 0 <= p < |s| && !(off <= p < off + |data|) ==> r[p] == s[p]
  {
    s[..off] + data + s[off + |data|..]
  }

  /** Data copied just below the used top of a zeroed region extends the
      used top downwards. */
  lemma OverwriteBelow(free: nat, data: seq<byte>, used: seq<byte>)
    requires |data| <= free
    ensures Overwrite(Zeros(free) + used, free - |data|, data) == Zeros(free - |data|) + data + used
  {
    var s := Zeros(free) + used;
    var l, r := Overwrite(s, free - |data|, data), Zeros(free - |data|) + data + used;
    assert |l| == |r|;
    forall p | 0 <= p < |s|
      ensures l[p] == r[p]
    {
      if free - |data| <= p < free {
        assert l[p] == l[free - |data| .. free][p - (free - |data|)];
      }
    }
  }

  /** Two adjacent copies are one copy of their concatenation. */
  lemma OverwriteAppend(s: seq<byte>, off: nat, a: seq<byte>, b: seq<byte>)
    requires off + |a| + |b| <= |s|
    ensures Overwrite(Overwrite(s, off, a), off + |a|, b) == Overwrite(s, off, a + b)
  {
    var l, r := Overwrite(Overwrite(s, off, a), off + |a|, b), Overwrite(s, off, a + b);
    forall p | 0 <= p < |s|
      ensures l[p] == r[p]
    {
      if off <= p < off + |a| {
        assert l[p] == Overwrite(s, off, a)[p] == a[p - off];
        assert r[p] == (a + b)[p - off];
      } else if off + |a| <= p < off + |a| + |b| {
        assert l[p] == l[off + |a| .. off + |a| + |b|][p - off - |a|] == b[p - off - |a|];
        assert r[p] == r[off .. off + |a| + |b|][p - off] == (a + b)[p - off];
      }
    }
  }

  /** A copy into one window of a buffer, seen from the whole buffer. */
  lemma OverwriteWindow(s: seq<byte>, base: nat, width: nat, off: nat, data: seq<byte>)
    requires base + width <= |s| && off + |data| <= width
    ensures s[..base] + Overwrite(s[base .. base + width], off, data) + s[base + width..]
            == Overwrite(s, base + off, data)
  {
    var l, r := s[..base] + Overwrite(s[base .. base + width], off, data) + s[base + width..],
                Overwrite(s, base + off, data);
    forall p | 0 <= p < |s|
      ensures l[p] == r[p]
    {
      if base <= p < base + width {
        assert l[p] == Overwrite(s[base .. base + width], off, data)[p - base];
        if base + off <= p < base + off + |data| {
          assert r[p] == r[base + off .. base + off + |data|][p - base - off];
        }
      }
    }
  }
}
