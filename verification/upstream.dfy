/**
 * The byte source the ICY filter wraps: a finite sequence of bytes read from
 * a position, with the read contract of java.io.InputStream.
 */
module Upstream {

  function Min(a: int, b: int): int { if a < b then a else b }
  function Max(a: int, b: int): int { if a < b then b else a }

  /** An unsigned byte, as InputStream.read() returns it. */
  type Byte = b: int | 0 <= b < 256

  class ByteSource {
    /** Everything the source will ever deliver; after it, end of stream. */
    const data: seq<Byte>
    /** How much of `data` has been read. */
    var pos: nat

    ghost predicate Valid()
      reads this
    {
      pos <= |data|
    }

    constructor (data: seq<Byte>)
      ensures Valid() && this.data == data && pos == 0
    {
      this.data := data;
      pos := 0;
    }

    /** What read() returns with `p` bytes read: the next byte, or -1 at end of stream. */
    function ByteAt(p: nat): (b: int)
      requires p <= |data|
      ensures -1 <= b < 256 && (b == -1 <==> p == |data|)
    {
      if p < |data| then data[p] else -1
    }

    /** How much has been read after read() with `p` bytes read. */
    function After(p: nat): (q: nat)
      requires p <= |data|
      ensures q <= |data| && (q == p + 1 <==> p < |data|) && (q == p <==> p == |data|)
    {
      if p < |data| then p + 1 else p
    }

    /** read(): the next byte, or -1 at end of stream. */
    method ReadByte() returns (b: int)
      requires Valid()
      modifies this
      ensures Valid()
      ensures b == ByteAt(old(pos)) && pos == After(old(pos))
    {
      if pos < |data| {
        b := data[pos];
        pos := pos + 1;
      } else {
        b := -1;
      }
    }

    /**
     * The counts read(buf, off, len) may return with `p` bytes read: 0 when
     * `len` is 0, -1 at end of stream, otherwise some count from 1 to `len`
     * (a short read is allowed) that the source still holds.
     */
    ghost predicate Allowed(p: nat, len: int, n: int) {
      (len <= 0 ==> n == 0) &&
      (len > 0 && p >= |data| ==> n == -1) &&
      (len > 0 && p < |data| ==> 1 <= n <= len && p + n <= |data|)
    }

    /** read(buf, off, len): copies the bytes it counts into buf[off..]. */
    method Read(buf: array<Byte>, off: int, len: int) returns (n: int)
      requires Valid()
      requires 0 <= off && 0 <= len && off + len <= buf.Length
      modifies this, buf
      ensures Valid()
      ensures Allowed(old(pos), len, n)
      ensures pos == old(pos) + Max(n, 0)
      ensures buf[..] == Filled(old(buf[..]), off, data[old(pos)..old(pos) + Max(n, 0)])
      ensures n <= 0 ==> buf[..] == old(buf[..])
    {
      if len == 0 {
        n := 0;
      } else if pos == |data| {
        n := -1;
      } else {
        var most := if len < |data| - pos then len else |data| - pos;
        n :| 1 <= n <= most;
        forall i | off <= i < off + n {
          buf[i] := data[pos + i - off];
        }
        assert buf[..] == Filled(old(buf[..]), off, data[pos..pos + n]);
        pos := pos + n;
      }
    }
  }

  /** `before` with `bytes` written over it from index `off` on. */
  function Filled(before: seq<Byte>, off: nat, bytes: seq<Byte>): (after: seq<Byte>)
    requires off + |bytes| <= |before|
    ensures |after| == |before|
  {
    before[..off] + bytes + before[off + |bytes|..]
  }
}
