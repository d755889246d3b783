/** Little-endian encoding of the 16- and 32-bit fields the kernel stores in
    on-disk records, index blocks and ELF headers (the i386 byte order). */
module Words {
  import opened Common

  function U16Bytes(h: uint16): (b: seq<byte>)
    ensures |b| == 2
  {
    [h % 0x100, h / 0x100]
  }

  function BytesU16(b: seq<byte>): uint16
    requires |b| == 2
  {
    b[0] as int + 0x100 * (b[1] as int)
  }

  function U32Bytes(w: uint32): (b: seq<byte>)
    ensures |b| == 4
  {
    [w % 0x100, (w / 0x100) % 0x100, (w / 0x1_0000) % 0x100, w / 0x100_0000]
  }

  function BytesU32(b: seq<byte>): uint32
    requires |b| == 4
  {
    b[0] as int + 0x100 * (b[1] as int) + 0x1_0000 * (b[2] as int) + 0x100_0000 * (b[3] as int)
  }

  lemma U16RoundTrip(h: uint16)
    ensures BytesU16(U16Bytes(h)) == h
  {
  }

  /** Decoding the four bytes of an encoded word gives the word back. */
  lemma U32RoundTrip(w: uint32)
    ensures BytesU32(U32Bytes(w)) == w
  {
    var q1 := w / 0x100;
    var q2 := q1 / 0x100;
    var q3 := q2 / 0x100;
    assert w == w % 0x100 + 0x100 * q1;
    assert q1 == q1 % 0x100 + 0x100 * q2;
    assert q2 == q2 % 0x100 + 0x100 * q3;
    assert q2 == w / 0x1_0000;
    assert q3 == w / 0x100_0000;
  }

  /** Encoding the word that four bytes decode to gives the bytes back. */
  lemma U32BytesRoundTrip(b: seq<byte>)
    requires |b| == 4
    ensures U32Bytes(BytesU32(b)) == b
  {
    var w := BytesU32(b);
    assert w / 0x100 == b[1] as int + 0x100 * (b[2] as int) + 0x1_0000 * (b[3] as int);
    assert w / 0x1_0000 == b[2] as int + 0x100 * (b[3] as int);
    assert w / 0x100_0000 == b[3];
  }

  /** A run of 32-bit words laid out in memory, lowest address first. */
  function WordsToBytes(ws: seq<uint32>): (b: seq<byte>)
    ensures |b| == 4 * |ws|
  {
    if ws == [] then [] else U32Bytes(ws[0]) + WordsToBytes(ws[1..])
  }

  /** The 32-bit words a buffer holds, read back in memory order: word k
      from bytes 4k .. 4k+3. */
  function BytesToWords(b: seq<byte>): (ws: seq<uint32>)
    requires |b| % 4 == 0
    ensures |ws| == |b| / 4
  {
    seq(|b| / 4, k requires 0 <= k < |b| / 4 => BytesU32(b[4 * k .. 4 * k + 4]))
  }

  /** Reading back the bytes of encoded words gives the words. */
  lemma WordsRoundTrip(ws: seq<uint32>)
    ensures BytesToWords(WordsToBytes(ws)) == ws
  {
    forall k | 0 <= k < |ws|
      ensures BytesToWords(WordsToBytes(ws))[k] == ws[k]
    {
      WordAt(ws, k);
      U32RoundTrip(ws[k]);
    }
  }

  /** The first word of a buffer, then the words of the rest. */
  lemma BytesToWordsCons(b: seq<byte>)
    requires |b| % 4 == 0 && b != []
    ensures BytesToWords(b) == [BytesU32(b[..4])] + BytesToWords(b[4..])
  {
    forall k | 1 <= k < |b| / 4
      ensures BytesToWords(b)[k] == BytesToWords(b[4..])[k - 1]
    {
      assert b[4 * k .. 4 * k + 4] == b[4..][4 * (k - 1) .. 4 * (k - 1) + 4];
    }
  }

  /** Encoding the words a buffer holds gives the buffer back. */
  lemma {:induction false} BytesRoundTrip(b: seq<byte>)
    requires |b| % 4 == 0
    ensures WordsToBytes(BytesToWords(b)) == b
  {
    if b != [] {
      BytesToWordsCons(b);
      U32BytesRoundTrip(b[..4]);
      BytesRoundTrip(b[4..]);
      assert b == b[..4] + b[4..];
    }
  }

  /** Word k of an encoded run sits at bytes 4k .. 4k+3. */
  lemma {:induction false} WordAt(ws: seq<uint32>, k: nat)
    requires k < |ws|
    ensures WordsToBytes(ws)[4 * k .. 4 * k + 4] == U32Bytes(ws[k])
  {
    if k > 0 {
      WordAt(ws[1..], k - 1);
      assert WordsToBytes(ws) == U32Bytes(ws[0]) + WordsToBytes(ws[1..]);
    }
  }

  /** A word laid out before a run of words. */
  lemma WordsCons(w: uint32, ws: seq<uint32>)
    ensures WordsToBytes([w] + ws) == U32Bytes(w) + WordsToBytes(ws)
  {
    assert ([w] + ws)[1..] == ws;
  }

  lemma {:induction false} WordsAppend(a: seq<uint32>, b: seq<uint32>)
    ensures WordsToBytes(a + b) == WordsToBytes(a) + WordsToBytes(b)
  {
    if a != [] {
      assert (a + b)[1..] == a[1..] + b;
      WordsAppend(a[1..], b);
    } else {
      assert a + b == b;
    }
  }
}
