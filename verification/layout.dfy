/**
 * The shape of an ICY stream: `period` audio bytes, then one metadata block
 * (a length byte L followed by 16 * L bytes of text, padded with zero bytes),
 * again and again. These functions say what the filter must deliver and what
 * each block means; the class in IcyStream is proved against them.
 */
module Layout {
  import opened Upstream
  import opened Metadata

  /** The decoder for a named character set; None when it cannot decode. */
  type Decoder = (string, seq<Byte>) -> Option<string>

  /** The text of a block: its bytes up to the first zero byte. */
  function TrimAtZero(s: seq<Byte>): (t: seq<Byte>)
    ensures |t| <= |s| && t == s[..|t|]
    ensures 0 !in t
    ensures |t| < |s| ==> s[|t|] == 0
  {
    if |s| == 0 || s[0] == 0 then [] else [s[0]] + TrimAtZero(s[1..])
  }

  /** Any cut with no zero before it and a zero (or the end) at it is the trimmed text. */
  lemma TrimAtZeroUnique(s: seq<Byte>, k: nat)
    requires k <= |s|
    requires forall i :: 0 <= i < k ==> s[i] != 0
    requires k < |s| ==> s[k] == 0
    ensures TrimAtZero(s) == s[..k]
  {
  }

  /** The zero padding at the end of a block never reaches the text. */
  lemma {:induction false} TrimPadded(text: seq<Byte>, padding: seq<Byte>)
    requires 0 !in text
    requires forall i :: 0 <= i < |padding| ==> padding[i] == 0
    ensures TrimAtZero(text + padding) == text
  {
    var s := text + padding;
    assert s[..|text|] == text;
    TrimAtZeroUnique(s, |text|);
  }

  /** How many bytes the block whose length byte is `d[at]` asks for: that byte times 16. */
  function BlockSize(d: seq<Byte>, at: nat): (size: nat)
    ensures size <= 4080 && size % 16 == 0
    ensures size == 0 <==> at >= |d| || d[at] == 0
  {
    if at < |d| then d[at] as int * 16 else 0
  }

  /** How many bytes the block at `d[at]` takes out of the stream, length byte included. */
  function MetadataSpan(d: seq<Byte>, at: nat): (span: nat)
    requires at <= |d|
    ensures at + span <= |d|
    ensures at < |d| ==> span >= 1
    ensures at < |d| && at + 1 + BlockSize(d, at) <= |d| ==> span == 1 + BlockSize(d, at)
  {
    Min(|d| - at, 1 + BlockSize(d, at))
  }

  /**
   * The listener calls one block yields, its length byte at `d[at]`: no
   * block, no character set or text that does not decode yield none;
   * otherwise the calls parsed from the text before the first zero byte.
   */
  function BlockOutcome(d: seq<Byte>, at: nat, encoding: Option<string>, decode: Decoder): (o: Parsed)
    requires at <= |d|
    ensures BlockSize(d, at) == 0 || encoding.None? ==> o == Parsed([], false)
    ensures o.failed ==> BlockSize(d, at) > 0 && encoding.Some?
    ensures forall i :: 0 <= i < |o.entries| ==>
      ValidKey(o.entries[i].0) && ';' !in o.entries[i].0 && ';' !in o.entries[i].1
  {
    if BlockSize(d, at) == 0 || encoding.None? then Parsed([], false)
    else
      match decode(encoding.value, TrimAtZero(d[at + 1..at + MetadataSpan(d, at)]))
      case None => Parsed([], false)
      case Some(text) => ParseMetadata(text)
  }

  /**
   * The audio in `d` from `at` on when `first` audio bytes are due before the
   * next block (0: a block starts at `at`) and `period` between later blocks.
   */
  function PayloadFrom(d: seq<Byte>, at: nat, first: nat, period: nat): seq<Byte>
    requires period > 0 && at <= |d|
    decreases |d| - at, first
  {
    if at == |d| then []
    else if first == 0 then PayloadFrom(d, at + MetadataSpan(d, at), period, period)
    else if at + first >= |d| then d[at..]
    else d[at..at + first] + PayloadFrom(d, at + first, 0, period)
  }

  /** Taking `n` audio bytes (no more than are due) leaves the rest of the layout. */
  lemma {:induction false} PayloadSplit(d: seq<Byte>, at: nat, first: nat, n: nat, period: nat)
    requires period > 0 && n <= first && at + n <= |d|
    ensures PayloadFrom(d, at, first, period) == d[at..at + n] + PayloadFrom(d, at + n, first - n, period)
  {
    var whole, tail := PayloadFrom(d, at, first, period), PayloadFrom(d, at + n, first - n, period);
    if n == 0 {
      assert d[at..at + n] == [];
    } else if at + first >= |d| {
      SliceJoin(d, at, at + n, |d|);
      assert whole == d[at..|d|];
      assert tail == d[at + n..|d|];
    } else if n < first {
      var rest := PayloadFrom(d, at + first, 0, period);
      SliceJoin(d, at, at + n, at + first);
      Concat3(d[at..at + n], d[at + n..at + first], rest, d[at..at + first]);
    }
  }

  /** Adjacent slices join into one. */
  lemma SliceJoin<T>(s: seq<T>, i: nat, j: nat, k: nat)
    requires i <= j <= k <= |s|
    ensures s[i..k] == s[i..j] + s[j..k]
  {
  }

  /** A slice that is the concatenation of two, followed by a third. */
  lemma Concat3<T>(a: seq<T>, b: seq<T>, c: seq<T>, ab: seq<T>)
    requires ab == a + b
    ensures ab + c == a + (b + c)
  {
  }

  /** At a block boundary the block is skipped whole. */
  lemma PayloadAtBlock(d: seq<Byte>, at: nat, period: nat)
    requires period > 0 && at <= |d|
    ensures PayloadFrom(d, at, 0, period) == PayloadFrom(d, at + MetadataSpan(d, at), period, period)
  {
  }

  /** One stretch of a well-formed stream: audio, then a metadata block. */
  datatype Frame = Frame(audio: seq<Byte>, lengthByte: Byte, meta: seq<Byte>)

  predicate WellFormed(f: Frame, period: nat) {
    |f.audio| == period && |f.meta| == f.lengthByte as int * 16
  }

  /** The stream a server sends for `frames`. */
  function Mux(frames: seq<Frame>): seq<Byte> {
    if |frames| == 0 then []
    else frames[0].audio + [frames[0].lengthByte] + frames[0].meta + Mux(frames[1..])
  }

  /** The audio of `frames`, metadata removed. */
  function Audio(frames: seq<Frame>): seq<Byte> {
    if |frames| == 0 then [] else frames[0].audio + Audio(frames[1..])
  }

  /**
   * Removing the blocks from a well-formed stream gives back exactly its
   * audio, in order: `d` holds the stream from `at` on.
   */
  lemma {:induction false} DemuxMux(d: seq<Byte>, at: nat, frames: seq<Frame>, period: nat)
    requires period > 0 && at <= |d| && d[at..] == Mux(frames)
    requires forall i :: 0 <= i < |frames| ==> WellFormed(frames[i], period)
    ensures PayloadFrom(d, at, period, period) == Audio(frames)
    decreases |frames|
  {
    if |frames| > 0 {
      var f := frames[0];
      FrameAt(d, at, f, Mux(frames[1..]));
      var next := at + period + 1 + |f.meta|;
      assert MetadataSpan(d, at + period) == 1 + |f.meta|;
      AudioThenBlock(d, at, period);
      DemuxMux(d, next, frames[1..], period);
      Glue(PayloadFrom(d, at, period, period), d[at..at + period], PayloadFrom(d, next, period, period),
           f.audio, Audio(frames[1..]), Audio(frames));
    }
  }

  /** A whole made of two parts equals another whole made of equal parts. */
  lemma Glue<T>(whole: seq<T>, head: seq<T>, tail: seq<T>, head': seq<T>, tail': seq<T>, whole': seq<T>)
    requires whole == head + tail && head == head' && tail == tail' && whole' == head' + tail'
    ensures whole == whole'
  {
  }

  /** A full period of audio, then a block, then the next period. */
  lemma {:induction false} AudioThenBlock(d: seq<Byte>, at: nat, period: nat)
    requires period > 0 && at + period < |d|
    ensures PayloadFrom(d, at, period, period) ==
      d[at..at + period] + PayloadFrom(d, at + period + MetadataSpan(d, at + period), period, period)
  {
    PayloadAtBlock(d, at + period, period);
  }

  /** Where the stream from `at` on is one frame and then `rest`, the frame's parts sit at fixed offsets. */
  lemma {:induction false} FrameAt(d: seq<Byte>, at: nat, f: Frame, rest: seq<Byte>)
    requires at <= |d| && d[at..] == f.audio + [f.lengthByte] + f.meta + rest
    ensures at + |f.audio| + 1 + |f.meta| <= |d|
    ensures d[at..at + |f.audio|] == f.audio && d[at + |f.audio|] == f.lengthByte
    ensures d[at + |f.audio| + 1 + |f.meta|..] == rest
  {
    var e := d[at..];
    assert d[at..at + |f.audio|] == e[..|f.audio|];
    assert d[at + |f.audio|] == e[|f.audio|];
    assert d[at + |f.audio| + 1 + |f.meta|..] == e[|f.audio| + 1 + |f.meta|..];
  }

  /**
   * A block that carries the padded encoding of `Format(entries)` yields
   * exactly the calls for `entries`, in order.
   */
  lemma FrameBlockOutcome(f: Frame, rest: seq<Byte>, encoding: string, decode: Decoder,
                          text: seq<Byte>, entries: seq<Entry>)
    requires f.lengthByte > 0 && |f.meta| == f.lengthByte as int * 16
    requires |text| <= |f.meta| && f.meta[..|text|] == text && 0 !in text
    requires forall i :: |text| <= i < |f.meta| ==> f.meta[i] == 0
    requires decode(encoding, text) == Some(Format(entries))
    requires forall i :: 0 <= i < |entries| ==> Writable(entries[i])
    ensures BlockOutcome([f.lengthByte] + f.meta + rest, 0, Some(encoding), decode) == Parsed(entries, false)
  {
    var d := [f.lengthByte] + f.meta + rest;
    assert d[1..MetadataSpan(d, 0)] == f.meta;
    var padding := f.meta[|text|..];
    assert f.meta == text + padding;
    TrimPadded(text, padding);
    ParseFormat(entries);
  }
}
