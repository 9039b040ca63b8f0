/** Byte buffers as the drivers see them: a write of a run of bytes at an
    offset, its meaning byte by byte, and the store of one BGRA pixel. */
module Buffers {
  import opened Colors

  /** The buffer `buf` after the bytes `run` are stored from offset `off` on. */
  function WriteAt(buf: seq<Byte>, off: int, run: seq<Byte>): (r: seq<Byte>)
    requires 0 <= off && off + |run| <= |buf|
    ensures |r| == |buf|
  {
    buf[..off] + run + buf[off + |run|..]
  }

  /** Byte i after a write is the written byte inside the run and the old
      byte everywhere else. */
  lemma WriteAtIndex(buf: seq<Byte>, off: int, run: seq<Byte>, i: int)
    requires 0 <= off && off + |run| <= |buf|
    requires 0 <= i < |buf|
    ensures WriteAt(buf, off, run)[i] == if off <= i < off + |run| then run[i - off] else buf[i]
  {
  }

  /** Two writes of adjacent runs are one write of the joined run. */
  lemma WriteAtAppend(buf: seq<Byte>, off: int, run: seq<Byte>, more: seq<Byte>)
    requires 0 <= off && off + |run| + |more| <= |buf|
    ensures WriteAt(WriteAt(buf, off, run), off + |run|, more) == WriteAt(buf, off, run + more)
  {
    var lhs := WriteAt(WriteAt(buf, off, run), off + |run|, more);
    var rhs := WriteAt(buf, off, run + more);
    forall i | 0 <= i < |buf| ensures lhs[i] == rhs[i] {
      WriteAtIndex(WriteAt(buf, off, run), off + |run|, more, i);
      WriteAtIndex(buf, off, run, i);
      WriteAtIndex(buf, off, run + more, i);
    }
  }

  /** Stores one pixel, as a `ColorBGRA` assigned through a `ColorBGRA*`
      pointer into a byte buffer does: B, G, R, A at off .. off + 3. */
  method StorePixel(buf: array<Byte>, off: int, c: ColorBGRA)
    requires 0 <= off && off + 4 <= buf.Length
    modifies buf
    ensures buf[..] == WriteAt(old(buf[..]), off, PixelBytes(c))
  {
    buf[off] := c.b;
    buf[off + 1] := c.g;
    buf[off + 2] := c.r;
    buf[off + 3] := c.a;
    forall i | 0 <= i < buf.Length
      ensures buf[..][i] == WriteAt(old(buf[..]), off, PixelBytes(c))[i]
    {
      WriteAtIndex(old(buf[..]), off, PixelBytes(c), i);
    }
  }

  /** Stores one byte. */
  method StoreByte(buf: array<Byte>, off: int, v: Byte)
    requires 0 <= off < buf.Length
    modifies buf
    ensures buf[..] == WriteAt(old(buf[..]), off, [v])
  {
    buf[off] := v;
    forall i | 0 <= i < buf.Length
      ensures buf[..][i] == WriteAt(old(buf[..]), off, [v])[i]
    {
      WriteAtIndex(old(buf[..]), off, [v], i);
    }
  }

  /** Row starts grow with the row number: from row a to row b at least
      (b - a) strides lie in between. */
  lemma RowStartsApart(a: int, b: int, stride: int)
    requires 0 <= a <= b && stride >= 0
    ensures a * stride + (b - a) * stride == b * stride
    ensures 0 <= a * stride <= b * stride
    ensures (b - a) * stride >= 0
    ensures a < b ==> a * stride + stride <= b * stride
  {
    assert b * stride == a * stride + (b - a) * stride;
    if a < b {
      assert (b - a) * stride == stride + (b - a - 1) * stride;
    }
  }
}
