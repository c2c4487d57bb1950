# ICY metadata filter, modelled in Dafny

`IcyInputStream` is a `FilterInputStream` for Shoutcast/Icecast streams. The
server puts a metadata block after every `period` audio bytes: one length
byte L, then 16 * L bytes of text such as `StreamTitle='Song';StreamUrl='u';`,
padded with zero bytes. The filter hands the audio through, takes the blocks
out of the stream, and gives each `key=value` pair of a block to an optional
listener. The repository holds two copies of the class that differ only in
names (`buffer`/`MetadataListener` against `mbuffer`/`PlayerMetadataListener`);
this model covers both.

The project has four modules:

- `Upstream` (upstream.dfy) is the wrapped `InputStream`: a class over a
  finite byte sequence and a read position. `read()` gives the next byte or
  -1. `read(buf, off, len)` may return any count from 1 to `len` that the
  source still holds (a short read), 0 when `len` is 0, and -1 at end of
  stream.
- `Metadata` (metadata.dfy) is `parseMetadata` as pure functions:
  `String.indexOf`, `String.split(";")` (trailing empty strings dropped),
  and the per-segment cut at the first `=` with quote stripping. A segment
  `k='` makes `substring(n + 2, length - 1)` throw; the model exposes this
  as a result, not a precondition. Round-trip lemmas show that parsing the
  text a server writes gives back its pairs, in order.
- `Layout` (layout.dfy) is the specification of the stream:
  - the block size (length byte times 16) and how many bytes a block takes
    from the stream;
  - the text of a block (cut at its first zero byte) and the listener calls
    it yields;
  - `PayloadFrom`, the audio of a stream once the blocks are removed.

  `DemuxMux` proves that removing the blocks from a stream built of frames
  gives back exactly its audio.
- `IcyStream` (icy_stream.dfy) is the class itself:
  - the fields `remaining`, `buffer` (an `array`) and
    `characterEncoding`;
  - `read()`, `read(buf, off, len)`, `fetchMetadata`, `readFully`
    with its `while` loop, and the zero-byte `for` loop.

  The class has four ghost fields: `origin`, where in the source the filter
  started; `audio`, the audio of the whole stream from there on; `passed`,
  the audio taken from the source so far; and `notified`, the listener
  calls made so far. Every read keeps the invariant that `passed` followed
  by the audio still in the source is `audio`.

## Model

| member | source | states |
|---|---|---|
| Upstream.ByteSource.ByteAt | library/src/main/java/net/droidlabs/exoplayer/extensions/streammetadata/IcyInputStream.java:82 | the byte `read()` returns: -1 exactly at end of stream, otherwise a value 0..255 |
| Upstream.ByteSource.After | library/src/main/java/net/droidlabs/exoplayer/extensions/streammetadata/IcyInputStream.java:82 | `read()` advances the position by one exactly when it is not at end of stream |
| Upstream.ByteSource.ReadByte | library/src/main/java/net/droidlabs/exoplayer/extensions/streammetadata/IcyInputStream.java:123 | returns the next byte (or -1) and advances past it, as `in.read()` does |
| Upstream.ByteSource.Read | library/src/main/java/net/droidlabs/exoplayer/extensions/streammetadata/IcyInputStream.java:93 | returns 0 for `len` 0, -1 at end of stream, otherwise 1..`len` bytes it still holds; those bytes are copied to `buf[off..]`, the rest of `buf` is untouched, and the position advances by the count |
| Metadata.IndexOf | library/src/main/java/net/droidlabs/exoplayer/extensions/streammetadata/IcyInputStream.java:172 | `indexOf('=')`: -1 exactly when the character is absent, otherwise an index holding it with no earlier occurrence |
| Metadata.IndexOfFirst | library/src/main/java/net/droidlabs/exoplayer/extensions/streammetadata/IcyInputStream.java:172 | in `a + [c] + b` with no `c` in `a`, the first `c` is at the length of `a` |
| Metadata.Segments | library/src/main/java/net/droidlabs/exoplayer/extensions/streammetadata/IcyInputStream.java:169 | the pieces between `;` separators contain no `;` and join back to the text |
| Metadata.SegmentsCons | library/src/main/java/net/droidlabs/exoplayer/extensions/streammetadata/IcyInputStream.java:169 | the pieces of `a;b` are `a` followed by the pieces of `b` |
| Metadata.DropTrailingEmpty | library/src/main/java/net/droidlabs/exoplayer/extensions/streammetadata/IcyInputStream.java:169 | keeps a prefix, drops only empty strings, and ends on a non-empty one |
| Metadata.Split | library/src/main/java/net/droidlabs/exoplayer/extensions/streammetadata/IcyInputStream.java:169 | `split(";")`: the whole text when it has no `;`, else the pieces with the trailing empty ones dropped; no piece holds `;` |
| Metadata.LoneQuoteShape | library/src/main/java/net/droidlabs/exoplayer/extensions/streammetadata/IcyInputStream.java:177-183 | a segment is `k='` with no `=` in `k` exactly when its first `=` is followed only by one `'` |
| Metadata.LoneQuoteFound | library/src/main/java/net/droidlabs/exoplayer/extensions/streammetadata/IcyInputStream.java:172 | in a segment `k='` with no `=` in `k`, `indexOf('=')` finds the `=` before the quote |
| Metadata.ParseSegment | library/src/main/java/net/droidlabs/exoplayer/extensions/streammetadata/IcyInputStream.java:172-185 | the cut of one segment at its first `=`: a pair's key is non-empty and key, `=` and value fit in the segment; ParseSegmentSkips, ParseSegmentThrows, ParseQuoted and ParsePlain say exactly which segments are skipped, throw, or give which pair |
| Metadata.ParseSegmentSkips | library/src/main/java/net/droidlabs/exoplayer/extensions/streammetadata/IcyInputStream.java:172-175 | a segment is skipped exactly when it has no `=` or starts with one |
| Metadata.ParseSegmentThrows | library/src/main/java/net/droidlabs/exoplayer/extensions/streammetadata/IcyInputStream.java:177-183 | a segment throws exactly when it is `k='` with no `=` in `k` |
| Metadata.ParseSegmentRebuilds | library/src/main/java/net/droidlabs/exoplayer/extensions/streammetadata/IcyInputStream.java:177-185 | a pair's segment is its key, `=`, and its value, with or without the quotes |
| Metadata.ParseSegmentKey | library/src/main/java/net/droidlabs/exoplayer/extensions/streammetadata/IcyInputStream.java:181-185 | a pair's key is non-empty and `=`-free, and neither key nor value gains a character the segment lacks |
| Metadata.ParseQuoted | library/src/main/java/net/droidlabs/exoplayer/extensions/streammetadata/IcyInputStream.java:177-183 | `k='v'` with a valid key parses to the pair (k, v), quotes stripped |
| Metadata.ParsePlain | library/src/main/java/net/droidlabs/exoplayer/extensions/streammetadata/IcyInputStream.java:184-185 | `k=v`, with v not wrapped in quotes, parses to (k, v) |
| Metadata.ParseSegments | library/src/main/java/net/droidlabs/exoplayer/extensions/streammetadata/IcyInputStream.java:171-190 | the loop over the segments: at most one call per segment; ParseSegmentsFails, ParseSegmentsEntries and ParseSegmentsAppend give the order of the calls and the early stop at a segment that throws |
| Metadata.ParseSegmentsFails | library/src/main/java/net/droidlabs/exoplayer/extensions/streammetadata/IcyInputStream.java:171-190 | a block fails exactly when one of its segments throws |
| Metadata.ParseSegmentsEntries | library/src/main/java/net/droidlabs/exoplayer/extensions/streammetadata/IcyInputStream.java:171-190 | at most one call per segment, each with a valid key; with `;`-free segments, no key or value holds `;` |
| Metadata.ParseMetadata | library/src/main/java/net/droidlabs/exoplayer/extensions/streammetadata/IcyInputStream.java:168-191 | every listener call has a non-empty, `=`-free key, and neither key nor value holds `;` |
| Metadata.ParseSegmentsAppend | library/src/main/java/net/droidlabs/exoplayer/extensions/streammetadata/IcyInputStream.java:171-190 | calls follow segment order; a segment that throws stops the ones after it |
| Metadata.Quote | library/src/main/java/net/droidlabs/exoplayer/extensions/streammetadata/IcyInputStream.java:177-183 | a writable pair quotes to a non-empty segment without `;` |
| Metadata.QuoteAll | library/src/main/java/net/droidlabs/exoplayer/extensions/streammetadata/IcyInputStream.java:171 | one quoted segment per pair, in order |
| Metadata.SegmentsTerminated | library/src/main/java/net/droidlabs/exoplayer/extensions/streammetadata/IcyInputStream.java:169 | the pieces of `s1;s2;...;` are the segments and one trailing empty piece |
| Metadata.SplitTerminated | library/src/main/java/net/droidlabs/exoplayer/extensions/streammetadata/IcyInputStream.java:169 | `split(";")` gives back non-empty `;`-free segments written each followed by `;` |
| Metadata.ParseQuoteAll | library/src/main/java/net/droidlabs/exoplayer/extensions/streammetadata/IcyInputStream.java:171-190 | parsing quoted writable pairs gives back those pairs, in order, without failure |
| Metadata.ParseFormat | library/src/main/java/net/droidlabs/exoplayer/extensions/streammetadata/IcyInputStream.java:168-191 | round trip: parsing the text a server writes for some pairs gives back exactly those pairs |
| Metadata.SkipsSegmentWithoutEquals | library/src/main/java/net/droidlabs/exoplayer/extensions/streammetadata/IcyInputStream.java:172-175 | a segment without `=` yields no call and the next segment still reaches the listener |
| Metadata.TitleAndUrlSegments | library/src/main/java/net/droidlabs/exoplayer/extensions/streammetadata/IcyInputStream.java:166 | the example pairs quote to their two segments |
| Metadata.TwoTerminated | library/src/main/java/net/droidlabs/exoplayer/extensions/streammetadata/IcyInputStream.java:169 | two segments written with `;` after each |
| Metadata.TitleAndUrlQuotes | library/src/main/java/net/droidlabs/exoplayer/extensions/streammetadata/IcyInputStream.java:166 | the example text is the two quoted segments, each followed by `;` |
| Metadata.TitleAndUrlText | library/src/main/java/net/droidlabs/exoplayer/extensions/streammetadata/IcyInputStream.java:166 | the text a server writes for the example pairs is `StreamTitle='Song A';StreamUrl='http://x';` |
| Metadata.TitleAndUrlWritable | library/src/main/java/net/droidlabs/exoplayer/extensions/streammetadata/IcyInputStream.java:166 | the example pairs can be written |
| Metadata.StreamTitleAndUrl | library/src/main/java/net/droidlabs/exoplayer/extensions/streammetadata/IcyInputStream.java:166-191 | that text yields the calls (StreamTitle, Song A) then (StreamUrl, http://x) |
| Metadata.BogusThenTitleParts | library/src/main/java/net/droidlabs/exoplayer/extensions/streammetadata/IcyInputStream.java:172-175 | the bogus segment has no `=` and the second pair is writable |
| Metadata.BogusThenTitle | library/src/main/java/net/droidlabs/exoplayer/extensions/streammetadata/IcyInputStream.java:172-185 | `Bogus;StreamTitle=NoQuotes;` yields only (StreamTitle, NoQuotes) |
| Metadata.LoneQuoteValueThrows | library/src/main/java/net/droidlabs/exoplayer/extensions/streammetadata/IcyInputStream.java:177-183 | the block `a='` throws |
| Layout.TrimAtZero | library/src/main/java/net/droidlabs/exoplayer/extensions/streammetadata/IcyInputStream.java:142-147 | the text is a prefix of the block with no zero byte, ending at the first zero or at the end |
| Layout.TrimAtZeroUnique | library/src/main/java/net/droidlabs/exoplayer/extensions/streammetadata/IcyInputStream.java:142-147 | any cut with no zero before it and a zero or the end at it is the text |
| Layout.TrimPadded | library/src/main/java/net/droidlabs/exoplayer/extensions/streammetadata/IcyInputStream.java:142-152 | zero padding after zero-free text leaves exactly that text |
| Layout.BlockSize | library/src/main/java/net/droidlabs/exoplayer/extensions/streammetadata/IcyInputStream.java:131 | length byte times 16: a multiple of 16, at most 4080, zero exactly for a zero length byte or end of stream |
| Layout.MetadataSpan | library/src/main/java/net/droidlabs/exoplayer/extensions/streammetadata/IcyInputStream.java:123-139 | a block takes 1 + its size bytes, or what is left at end of stream, and at least the length byte |
| Layout.BlockOutcome | library/src/main/java/net/droidlabs/exoplayer/extensions/streammetadata/IcyInputStream.java:123-160 | what a block yields: nothing for a length byte below 1; the exception only for a block with a character set; every call with a non-empty `=`-free key and no `;` in key or value; a null character set or text that does not decode yields nothing |
| Layout.PayloadSplit | library/src/main/java/net/droidlabs/exoplayer/extensions/streammetadata/IcyInputStream.java:93-99 | taking `n` audio bytes, no more than are due, leaves the layout of the rest with `first - n` due |
| Layout.PayloadAtBlock | library/src/main/java/net/droidlabs/exoplayer/extensions/streammetadata/IcyInputStream.java:120-139 | with no audio due, the block is skipped whole and a full period is due |
| Layout.DemuxMux | library/src/main/java/net/droidlabs/exoplayer/extensions/streammetadata/IcyInputStream.java:80-139 | removing the blocks from a stream of well-formed frames gives back exactly its audio, in order |
| Layout.AudioThenBlock | library/src/main/java/net/droidlabs/exoplayer/extensions/streammetadata/IcyInputStream.java:120-139 | a full period of audio, then a block, then the next period |
| Layout.FrameAt | library/src/main/java/net/droidlabs/exoplayer/extensions/streammetadata/IcyInputStream.java:120-139 | the parts of a frame sit at fixed offsets in the stream |
| Layout.FrameBlockOutcome | library/src/main/java/net/droidlabs/exoplayer/extensions/streammetadata/IcyInputStream.java:149-191 | a block carrying the padded text for some writable pairs yields exactly those calls |
| IcyStream.FindStringEnd | library/src/main/java/net/droidlabs/exoplayer/extensions/streammetadata/IcyInputStream.java:142-147 | the first zero byte among the first `size`, or `size` when there is none |
| IcyStream.IcyInputStream.Heard | library/src/main/java/net/droidlabs/exoplayer/extensions/streammetadata/IcyInputStream.java:187-189 | the `metadataListener != null` test: a listener hears every call of the block; a null listener none |
| IcyStream.IcyInputStream.constructor | library/src/main/java/net/droidlabs/exoplayer/extensions/streammetadata/IcyInputStream.java:69-78 | `remaining` is `period`, a fresh 128-byte buffer, encoding "UTF-8" when none is given, no audio passed and no calls made |
| IcyStream.IcyInputStream.SetCharacterEncoding | library/src/main/java/net/droidlabs/exoplayer/extensions/streammetadata/IcyInputStream.java:112-114 | sets the encoding (null included) and keeps the invariant |
| IcyStream.IcyInputStream.Read | library/src/main/java/net/droidlabs/exoplayer/extensions/streammetadata/IcyInputStream.java:80-89 | the upstream byte unchanged; `remaining` drops by one, even at end of stream; when it reaches 0 the block is fetched, which may throw |
| IcyStream.IcyInputStream.ReadInto | library/src/main/java/net/droidlabs/exoplayer/extensions/streammetadata/IcyInputStream.java:91-102 | asks the source for `min(len, remaining)` bytes, returns its count, and passes exactly those bytes on; fetches the block when the count equals `remaining`, otherwise subtracts the count (so -1 at end of stream adds one) |
| IcyStream.IcyInputStream.Settle | library/src/main/java/net/droidlabs/exoplayer/extensions/streammetadata/IcyInputStream.java:95-99 | the branch of `read(buf, off, len)`: fetch on a count equal to `remaining`, else subtract |
| IcyStream.IcyInputStream.ReadAudio | library/src/main/java/net/droidlabs/exoplayer/extensions/streammetadata/IcyInputStream.java:93 | the capped upstream read, recording the audio it gave and keeping the stream aligned |
| IcyStream.IcyInputStream.FetchMetadata | library/src/main/java/net/droidlabs/exoplayer/extensions/streammetadata/IcyInputStream.java:120-161 | `remaining` back to `period`; the block consumed; the buffer grown only if too short; the listener hears exactly the block's calls; the invariant restored; a length byte below 1 reads at most that byte, keeps the buffer and makes no call |
| IcyStream.IcyInputStream.ReadBlock | library/src/main/java/net/droidlabs/exoplayer/extensions/streammetadata/IcyInputStream.java:123-147 | reads the length byte and, when it is at least 1, the block: the buffer is replaced only when shorter than the size, and holds the block's text up to its first zero byte |
| IcyStream.IcyInputStream.ReadText | library/src/main/java/net/droidlabs/exoplayer/extensions/streammetadata/IcyInputStream.java:139-147 | reads the block bytes into the buffer and finds the end of their text |
| IcyStream.IcyInputStream.ReadFully | library/src/main/java/net/droidlabs/exoplayer/extensions/streammetadata/IcyInputStream.java:199-209 | returns `min(size, bytes left)` (less than `size` only at end of stream) and copies exactly those bytes into `buf[offset..]` |
| IcyStream.SkipBlock | library/src/main/java/net/droidlabs/exoplayer/extensions/streammetadata/IcyInputStream.java:120-139 | skipping a block with no audio due keeps the stream aligned with a full period due |
| IcyStream.TakeAudio | library/src/main/java/net/droidlabs/exoplayer/extensions/streammetadata/IcyInputStream.java:82-84 | taking the due audio bytes keeps the stream aligned with the rest due (any count at end of stream) |
| IcyStream.BlockRead | library/src/main/java/net/droidlabs/exoplayer/extensions/streammetadata/IcyInputStream.java:139 | the bytes `readFully` put in the buffer are the block's bytes after the length byte |
| IcyStream.BlockText | library/src/main/java/net/droidlabs/exoplayer/extensions/streammetadata/IcyInputStream.java:139-152 | the bytes decoded are the block's text up to its first zero byte |
| IcyStream.Refill | library/src/main/java/net/droidlabs/exoplayer/extensions/streammetadata/IcyInputStream.java:203-206 | one more upstream read in `readFully`'s loop extends the bytes copied so far |
| IcyStream.AudioAtEndOfStream | library/src/main/java/net/droidlabs/exoplayer/extensions/streammetadata/IcyInputStream.java:80-102 | at end of a well-formed stream the filter has taken exactly its audio from the source; this counts the bytes of a read that ended in the parse exception, which the caller never receives |

The icystream copy has the same members at these lines of
library/src/main/java/net/droidlabs/exoplayer/icystream/IcyInputStream.java: the constructor at 52-61, `read()` at 63-72,
`read(buf, off, len)` at 74-85, `setCharacterEncoding` at 95-97,
`fetchMetadata` at 103-144, `parseMetadata` at 151-175 and `readFully`
at 183-193.

## Left out

- `getCharacterEncoding`: a plain getter; the model reads the `characterEncoding` field.
- The two shorter constructors: the two-argument one passes a null listener and a null encoding, the three-argument one its own listener and a null encoding. The model's constructor covers them with `hasListener` false or true and encoding `None`.
- `Log.d` and `Log.e` calls: logging only.
- Charset decoding in `new String(bytes, 0, size, encoding)`: foreign code. It is the constructor parameter `decode`; `None` stands for the exception that abandons the block.
- `IOException` from the wrapped stream: the source is modelled with end of stream (-1) only.
- The listener's own behaviour: the model records the calls in `notified`; a listener that throws is not modelled.
- The 32-bit `int` of `remaining`: modelled as an unbounded integer. It grows only by one per bulk read at end of stream, so wrap-around would take 2^31 − `remaining` such reads, which only a period near `Integer.MAX_VALUE` brings within reach. After a wrap the Java filter passes a negative count to the wrapped `read`, which throws; the model returns -1 again.
- Signed Java bytes: the buffer holds unsigned values 0..255. The zero test and the bytes handed to the decoder are the same.
- IcyStream.IcyInputStream.constructor: requires `period > 0`, which the source does not check. With a period of 0 or less the Java filter never aligns with the blocks.
- IcyStream.IcyInputStream.ReadInto: requires `0 <= off`, `0 <= len` and `off + min(len, remaining) <= buf.Length`. The filter checks none of these itself; it passes the capped count `min(len, remaining)` on, and the wrapped stream's `read` throws `IndexOutOfBoundsException` when they fail. The model imposes that contract of the wrapped stream instead of modelling the exception. It also requires `buf` not to be the private scratch buffer, which no caller can reach.
- IcyStream.IcyInputStream.ReadAudio: the same requires as ReadInto, for the same reason.
- `skip`, `available`, `mark`, `reset` and `markSupported`, inherited from `FilterInputStream`: not modelled. They go straight to the wrapped stream, so a `skip` moves past bytes without counting them off `remaining`, and the filter loses track of where the blocks are.
- Concurrency: the filter is used by one reader.
