/**
 * IcyInputStream: a filter over a byte source that passes the audio through
 * and takes out the metadata block that follows every `period` audio bytes,
 * handing each `key=value` pair of the block to an optional listener.
 */
module IcyStream {
  import opened Upstream
  import opened Metadata
  import opened Layout

  /** How a read ends: with its value, or with the exception parseMetadata throws. */
  datatype ReadOutcome = Returned(value: int) | StringIndexOutOfBounds

  const DefaultEncoding: string := "UTF-8"
  const InitialBufferSize: nat := 128

  /** The end of the block text: the first zero byte in a[..size], or size if there is none. */
  method FindStringEnd(a: array<Byte>, size: int) returns (end: int)
    requires 0 <= size <= a.Length
    ensures 0 <= end <= size
    ensures forall i :: 0 <= i < end ==> a[i] != 0
    ensures end < size ==> a[end] == 0
  {
    end := size;
    for i := 0 to size
      invariant end == size
      invariant forall j :: 0 <= j < i ==> a[j] != 0
    {
      if a[i] == 0 {
        end := i;
        break;
      }
    }
  }

  class IcyInputStream {
    /** The wrapped stream (`in`). */
    const input: ByteSource
    /** Audio bytes between two metadata blocks. */
    const period: int
    /** Whether a listener was given (it may be null). */
    const hasListener: bool
    /** The character-set decoder behind `new String(bytes, off, len, charsetName)`. */
    const decode: Decoder
    /** Audio bytes left before the next metadata block. */
    var remaining: int
    /** Scratch space for the block bytes; only ever replaced by a longer one. */
    var buffer: array<Byte>
    /** The character set name of the block text; None stands for null. */
    var characterEncoding: Option<string>

    /** Where in the source this filter started reading. */
    ghost const origin: nat
    /** The audio of the whole stream from `origin` on. */
    ghost const audio: seq<Byte>
    /** The audio bytes taken from the source so far. */
    ghost var passed: seq<Byte>
    /** The listener calls made so far, in order. */
    ghost var notified: seq<Entry>

    ghost predicate Inv()
      reads this`buffer, input
    {
      period > 0 && buffer.Length >= InitialBufferSize && input.Valid() && origin <= input.pos
    }

    /**
     * The audio taken so far followed by the audio still in the source, with
     * `first` bytes due before the next block, is the audio of the whole stream.
     */
    ghost predicate Aligned(first: nat)
      reads this`buffer, this`passed, input
      requires Inv()
    {
      audio == passed + PayloadFrom(input.data, input.pos, first, period)
    }

    /** `audio` is what the layout makes of the source from `origin` on; it never changes. */
    ghost predicate Anchored() {
      period > 0 && origin <= |input.data| && audio == PayloadFrom(input.data, origin, period, period)
    }

    /**
     * Between calls: `remaining` counts down from `period` and stays at least 1;
     * only reads at end of stream push it above `period`.
     */
    ghost predicate Valid()
      reads this`buffer, this`passed, this`remaining, input
    {
      Inv() && remaining >= 1 && (remaining <= period || input.pos == |input.data|) &&
      Aligned(remaining)
    }

    /** The listener calls that `p` turns into for this filter. */
    ghost function Heard(p: Parsed): (heard: seq<Entry>)
      reads this
      ensures hasListener ==> heard == p.entries
      ensures !hasListener ==> heard == []
    {
      if hasListener then p.entries else []
    }

    /**
     * The state after fetchMetadata ran with the source at `at`: `remaining` is
     * `period` again, the block is consumed, the scratch buffer grew only if it
     * was too short, and the listener heard the block's pairs.
     */
    ghost predicate FetchedBlock(at: nat, oldBuffer: array<Byte>, oldNotified: seq<Entry>, failed: bool)
      reads this, input
      requires at <= |input.data|
    {
      var outcome := BlockOutcome(input.data, at, characterEncoding, decode);
      remaining == period &&
      input.pos == at + MetadataSpan(input.data, at) &&
      (oldBuffer.Length >= BlockSize(input.data, at) ==> buffer == oldBuffer) &&
      (oldBuffer.Length < BlockSize(input.data, at) ==> buffer.Length == BlockSize(input.data, at)) &&
      notified == oldNotified + Heard(outcome) &&
      failed == outcome.failed
    }

    /**
     * How read(buf, off, len) ends when the source gave `count` bytes with
     * `due` audio bytes left before the block and the source at `at` after
     * them: a count of exactly `due` fetches the block (and the outcome is
     * the exception or the count); any other count is subtracted.
     */
    ghost predicate Settled(count: int, due: int, at: nat, oldBuffer: array<Byte>,
                            oldNotified: seq<Entry>, r: ReadOutcome)
      reads this, input
      requires at <= |input.data|
    {
      (count == due ==>
         FetchedBlock(at, oldBuffer, oldNotified, r.StringIndexOutOfBounds?) &&
         (r.StringIndexOutOfBounds? || r == Returned(count))) &&
      (count != due ==>
         remaining == due - count && input.pos == at &&
         buffer == oldBuffer && notified == oldNotified && r == Returned(count))
    }

    constructor (input: ByteSource, period: int, hasListener: bool,
                 characterEncoding: Option<string>, decode: Decoder)
      requires input.Valid() && period > 0
      ensures Valid() && Anchored()
      ensures this.input == input && this.period == period
      ensures this.hasListener == hasListener && this.decode == decode
      ensures remaining == period && fresh(buffer) && buffer.Length == InitialBufferSize
      ensures this.characterEncoding ==
        if characterEncoding.None? then Some(DefaultEncoding) else characterEncoding
      ensures origin == input.pos && passed == [] && notified == []
    {
      this.input := input;
      this.period := period;
      this.hasListener := hasListener;
      this.decode := decode;
      this.characterEncoding :=
        if characterEncoding.None? then Some(DefaultEncoding) else characterEncoding;
      origin := input.pos;
      audio := PayloadFrom(input.data, input.pos, period, period);
      remaining := period;
      buffer := new Byte[InitialBufferSize];
      passed := [];
      notified := [];
    }

    method SetCharacterEncoding(encoding: Option<string>)
      requires Valid()
      modifies this`characterEncoding
      ensures Valid() && characterEncoding == encoding
    {
      characterEncoding := encoding;
    }

    /** read(): one audio byte, or -1; the block that follows the period's last byte is fetched. */
    method Read() returns (r: ReadOutcome)
      requires Valid()
      modifies this, input, buffer
      ensures Valid()
      ensures characterEncoding == old(characterEncoding)
      ensures buffer == old(buffer) || fresh(buffer)
      ensures passed == old(passed) + input.data[old(input.pos)..input.After(old(input.pos))]
      ensures old(remaining) != 1 ==>
        remaining == old(remaining) - 1 && input.pos == input.After(old(input.pos)) &&
        buffer == old(buffer) && notified == old(notified) && r == Returned(input.ByteAt(old(input.pos)))
      ensures old(remaining) == 1 ==>
        FetchedBlock(input.After(old(input.pos)), old(buffer), old(notified), r.StringIndexOutOfBounds?) &&
        (r.StringIndexOutOfBounds? || r == Returned(input.ByteAt(old(input.pos))))
    {
      ghost var p0, buffer0, notified0 := input.pos, buffer, notified;
      var readByte := input.ReadByte();
      passed := passed + input.data[p0..input.pos];
      TakeAudio(audio, input.data, p0, input.pos, old(passed), remaining, passed, remaining - 1, period);
      remaining := remaining - 1;
      if remaining == 0 {
        ghost var at := input.pos;
        var failed := FetchMetadata();
        assert FetchedBlock(at, buffer0, notified0, failed);
        if failed {
          return ReadOutcome.StringIndexOutOfBounds;
        }
      }
      return Returned(readByte);
    }

    /**
     * read(buf, off, len): reads at most `remaining` bytes, so a read never
     * runs into a block; when it takes exactly `remaining`, the block is fetched.
     * `count` is what the source returned.
     */
    method ReadInto(buf: array<Byte>, off: int, len: int) returns (r: ReadOutcome, ghost count: int)
      requires Valid() && buf != buffer
      requires 0 <= off && 0 <= len && off + Min(remaining, len) <= buf.Length
      modifies this, input, buf, buffer
      ensures Valid()
      ensures characterEncoding == old(characterEncoding)
      ensures buffer == old(buffer) || fresh(buffer)
      ensures input.Allowed(old(input.pos), Min(old(remaining), len), count)
      ensures passed == old(passed) + input.data[old(input.pos)..old(input.pos) + Max(count, 0)]
      ensures buf[..] == Filled(old(buf[..]), off, input.data[old(input.pos)..old(input.pos) + Max(count, 0)])
      ensures Settled(count, old(remaining), old(input.pos) + Max(count, 0), old(buffer), old(notified), r)
    {
      var ret := ReadAudio(buf, off, len);
      count := ret;
      r := Settle(ret, old(remaining), old(input.pos) + Max(count, 0), old(buffer), old(notified));
    }

    /**
     * The second step of read(buf, off, len): fetches the block when the
     * source gave exactly the `remaining` bytes, otherwise counts them off.
     */
    method Settle(ret: int, ghost due: int, ghost at: nat, ghost buffer0: array<Byte>,
                  ghost notified0: seq<Entry>) returns (r: ReadOutcome)
      requires Inv() && remaining - ret >= 0 && Aligned(remaining - ret)
      requires ret != remaining ==>
        remaining - ret >= 1 && (remaining - ret <= period || input.pos == |input.data|)
      requires due == remaining && at == input.pos && buffer0 == buffer && notified0 == notified
      modifies this, input, buffer
      ensures Valid()
      ensures passed == old(passed) && characterEncoding == old(characterEncoding)
      ensures buffer == buffer0 || fresh(buffer)
      ensures Settled(ret, due, at, buffer0, notified0, r)
    {
      if remaining == ret {
        ghost var at, buffer0, notified0 := input.pos, buffer, notified;
        var failed := FetchMetadata();
        assert FetchedBlock(at, buffer0, notified0, failed);
        r := if failed then ReadOutcome.StringIndexOutOfBounds else Returned(ret);
      } else {
        var due := remaining - ret;
        assert Aligned(due);
        remaining := due;
        assert Aligned(remaining);
        r := Returned(ret);
      }
    }

    /**
     * The first step of read(buf, off, len): asks the source for at most
     * `remaining` bytes and records the audio it gave.
     */
    method ReadAudio(buf: array<Byte>, off: int, len: int) returns (ret: int)
      requires Valid() && buf != buffer
      requires 0 <= off && 0 <= len && off + Min(remaining, len) <= buf.Length
      modifies this`passed, input, buf
      ensures Inv()
      ensures input.Allowed(old(input.pos), Min(remaining, len), ret)
      ensures input.pos == old(input.pos) + Max(ret, 0)
      ensures passed == old(passed) + input.data[old(input.pos)..old(input.pos) + Max(ret, 0)]
      ensures buf[..] == Filled(old(buf[..]), off, input.data[old(input.pos)..old(input.pos) + Max(ret, 0)])
      ensures remaining - ret >= 0 && Aligned(remaining - ret)
      ensures ret != remaining ==>
        remaining - ret >= 1 && (remaining - ret <= period || input.pos == |input.data|)
    {
      ghost var p0 := input.pos;
      ret := input.Read(buf, off, Min(remaining, len));
      passed := passed + input.data[p0..input.pos];
      TakeAudio(audio, input.data, p0, input.pos, old(passed), remaining, passed, remaining - ret, period);
    }

    /**
     * fetchMetadata: resets `remaining`, reads the length byte and, when it is
     * at least 1, the block, then hands the pairs of its text to the listener.
     */
    method FetchMetadata() returns (failed: bool)
      requires Inv() && Aligned(0)
      modifies this, input, buffer
      ensures Valid() && remaining == period
      ensures passed == old(passed) && characterEncoding == old(characterEncoding)
      ensures buffer == old(buffer) || fresh(buffer)
      ensures old(input.pos) <= |input.data|
      ensures FetchedBlock(old(input.pos), old(buffer), old(notified), failed)
      ensures BlockSize(input.data, old(input.pos)) == 0 ==>
        input.pos <= old(input.pos) + 1 && buffer == old(buffer) && notified == old(notified) && !failed
    {
      remaining := period;
      ghost var at := input.pos;
      assert audio == passed + PayloadFrom(input.data, at, 0, period);
      var present, end := ReadBlock();
      var parsed := Parsed([], false);
      // new String(buffer, 0, end, characterEncoding), whose failure abandons the block
      if present && characterEncoding.Some? {
        var text := decode(characterEncoding.value, buffer[..end]);
        if text.Some? {
          parsed := ParseMetadata(text.value);
        }
      }
      assert parsed == BlockOutcome(input.data, at, characterEncoding, decode);
      if hasListener {
        notified := notified + parsed.entries;
      }
      failed := parsed.failed;
      SkipBlock(audio, input.data, at, input.pos, passed, period);
      assert Aligned(period);
    }

    /**
     * The reading half of fetchMetadata: the length byte, then (when it is at
     * least 1) the block into `buffer`, grown if too short, and the end of
     * its text at the first zero byte.
     */
    method ReadBlock() returns (present: bool, end: int)
      requires Inv()
      modifies this`buffer, input, buffer
      ensures Inv()
      ensures buffer == old(buffer) || fresh(buffer)
      ensures input.pos == old(input.pos) + MetadataSpan(input.data, old(input.pos))
      ensures present <==> BlockSize(input.data, old(input.pos)) > 0
      ensures old(buffer.Length) >= BlockSize(input.data, old(input.pos)) ==> buffer == old(buffer)
      ensures old(buffer.Length) < BlockSize(input.data, old(input.pos)) ==>
        buffer.Length == BlockSize(input.data, old(input.pos))
      ensures present ==> 0 <= end <= buffer.Length
      ensures present ==>
        buffer[..end] == TrimAtZero(input.data[old(input.pos) + 1..old(input.pos) + MetadataSpan(input.data, old(input.pos))])
    {
      ghost var p0 := input.pos;
      var size := input.ReadByte();
      // either no metadata or end of stream when size < 1
      if size < 1 {
        return false, 0;
      }
      assert size == input.data[p0] as int && input.pos == p0 + 1;
      size := size * 16;  // size <<= 4
      if buffer.Length < size {
        buffer := new Byte[size];
      }
      end := ReadText(size, p0);
      present := true;
    }

    /**
     * The rest of the reading half of fetchMetadata, the length byte `data[at]`
     * read: the `size` block bytes into `buffer` and the end of their text.
     */
    method ReadText(size: int, ghost at: nat) returns (end: int)
      requires input.Valid() && input.pos == at + 1 && at < |input.data|
      requires size == BlockSize(input.data, at) && size <= buffer.Length
      modifies input, buffer
      ensures input.Valid()
      ensures input.pos == at + MetadataSpan(input.data, at)
      ensures 0 <= end <= buffer.Length
      ensures buffer[..end] == TrimAtZero(input.data[at + 1..at + MetadataSpan(input.data, at)])
    {
      ghost var before := buffer[..];
      var got := ReadFully(buffer, 0, size);
      assert input.pos == at + MetadataSpan(input.data, at);
      BlockRead(before, input.data, at, input.pos, buffer[..]);
      end := FindStringEnd(buffer, got);
      BlockText(buffer[..], input.data, at, got, end);
    }

    /**
     * readFully: reads until `size` bytes are in or the source ends; returns
     * how many came, which is less than `size` only at end of stream.
     */
    method ReadFully(buf: array<Byte>, offset: int, size: int) returns (count: int)
      requires input.Valid()
      requires 0 <= offset && 0 <= size && offset + size <= buf.Length
      modifies input, buf
      ensures input.Valid()
      ensures count == Min(size, |input.data| - old(input.pos))
      ensures input.pos == old(input.pos) + count
      ensures buf[..] == Filled(old(buf[..]), offset, input.data[old(input.pos)..input.pos])
    {
      var off, left := offset, size;
      while left > 0
        invariant input.Valid()
        invariant offset <= off && 0 <= left && off + left == offset + size
        invariant input.pos == old(input.pos) + (off - offset)
        invariant buf[..] == Filled(old(buf[..]), offset, input.data[old(input.pos)..input.pos])
        decreases left
      {
        ghost var before, p := buf[..], input.pos;
        var n := input.Read(buf, off, left);
        if n == -1 {
          assert input.pos == p && buf[..] == before;
          break;
        }
        Refill(old(buf[..]), offset, before, input.data, old(input.pos), p, input.pos, off, buf[..]);
        off, left := off + n, left - n;
      }
      count := off - offset;
    }
  }

  /** Skipping the block at `at`, with no audio due before it, keeps the stream aligned. */
  lemma {:induction false} SkipBlock(audio: seq<Byte>, data: seq<Byte>, at: nat, next: nat, passed: seq<Byte>, period: nat)
    requires period > 0 && at <= |data| && next == at + MetadataSpan(data, at)
    requires audio == passed + PayloadFrom(data, at, 0, period)
    ensures audio == passed + PayloadFrom(data, next, period, period)
  {
    PayloadAtBlock(data, at, period);
  }

  /**
   * Taking the audio bytes from `at` up to `next`, no more than the `first`
   * that are due, keeps the stream aligned with `first - (next - at)` due
   * (any number once the source is exhausted).
   */
  lemma {:induction false} TakeAudio(audio: seq<Byte>, data: seq<Byte>, at: nat, next: nat, passed: seq<Byte>, first: nat,
                  taken: seq<Byte>, due: nat, period: nat)
    requires period > 0 && at <= next <= |data| && next - at <= first
    requires audio == passed + PayloadFrom(data, at, first, period)
    requires taken == passed + data[at..next]
    requires due == first - (next - at) || next == |data|
    ensures audio == taken + PayloadFrom(data, next, due, period)
  {
    PayloadSplit(data, at, first, next - at, period);
    if due != first - (next - at) {
      assert PayloadFrom(data, next, due, period) == PayloadFrom(data, next, first - (next - at), period);
    }
    Regroup(audio, passed, PayloadFrom(data, at, first, period), data[at..next],
            PayloadFrom(data, next, due, period), taken);
  }

  /** `passed + whole`, with `whole` split after `head`, regrouped around `passed + head`. */
  lemma Regroup<T>(audio: seq<T>, passed: seq<T>, whole: seq<T>, head: seq<T>, rest: seq<T>, taken: seq<T>)
    requires audio == passed + whole && whole == head + rest && taken == passed + head
    ensures audio == taken + rest
  {
    assert passed + (head + rest) == (passed + head) + rest;
  }

  /** The block bytes read into a buffer from its start are the source bytes after the length byte. */
  lemma {:induction false} BlockRead(before: seq<Byte>, data: seq<Byte>, p0: nat, p1: nat, after: seq<Byte>)
    requires p0 < p1 <= |data| && p1 - (p0 + 1) <= |before|
    requires after == Filled(before, 0, data[p0 + 1..p1])
    ensures after[..p1 - (p0 + 1)] == data[p0 + 1..p1]
  {
    var block := data[p0 + 1..p1];
    assert after[..|block|] == block;
  }

  /**
   * The bytes fetchMetadata decodes: with the block after the length byte
   * `data[at]` read into the first `got` cells of the buffer and `end` its
   * first zero, they are the block's text.
   */
  lemma {:induction false} BlockText(b: seq<Byte>, data: seq<Byte>, at: nat, got: nat, end: nat)
    requires at < |data| && got <= |b| && got == MetadataSpan(data, at) - 1
    requires b[..got] == data[at + 1..at + MetadataSpan(data, at)]
    requires end <= got && (forall i :: 0 <= i < end ==> b[i] != 0) && (end < got ==> b[end] == 0)
    ensures b[..end] == TrimAtZero(data[at + 1..at + MetadataSpan(data, at)])
  {
    TrimAtZeroUnique(b[..got], end);
    assert b[..got][..end] == b[..end];
  }

  /**
   * One more read of readFully's loop: the buffer still holds its old bytes
   * before `offset`, the source bytes taken so far, then its old bytes again.
   */
  lemma {:induction false} Refill(start: seq<Byte>, offset: nat, before: seq<Byte>, data: seq<Byte>,
               p0: nat, p: nat, p1: nat, off: nat, after: seq<Byte>)
    requires p0 <= p <= p1 <= |data| && off == offset + (p - p0) && off + (p1 - p) <= |start|
    requires before == Filled(start, offset, data[p0..p])
    requires after == Filled(before, off, data[p..p1])
    ensures after == Filled(start, offset, data[p0..p1])
  {
    assert before[..off] == start[..offset] + data[p0..p];
    assert before[off + (p1 - p)..] == start[off + (p1 - p)..];
    assert data[p0..p] + data[p..p1] == data[p0..p1];
  }

  /**
   * At end of a well-formed stream the filter has taken exactly its audio from
   * the source; the bytes of a read that ended in the parse exception count.
   */
  lemma AudioAtEndOfStream(s: IcyInputStream, frames: seq<Frame>)
    requires s.Valid() && s.Anchored() && s.input.pos == |s.input.data|
    requires s.input.data[s.origin..] == Mux(frames)
    requires forall i :: 0 <= i < |frames| ==> WellFormed(frames[i], s.period)
    ensures s.passed == Audio(frames)
  {
    DemuxMux(s.input.data, s.origin, frames, s.period);
  }
}
