/**
 * The text of one ICY metadata block, such as
 *   StreamTitle='Song A';StreamUrl='http://x';
 * and how it is cut into the (key, value) pairs handed to the metadata listener.
 */
module Metadata {

  datatype Option<T> = None | Some(value: T)

  /** One listener call: (key, value). */
  type Entry = (string, string)

  /** What one `;`-separated segment turns into. */
  datatype Segment =
    | Skipped                   // no `=`, or `=` first: no key
    | Pair(key: string, value: string)
    | StringIndexOutOfBounds    // the value is a lone `'`: substring(n + 2, length - 1) throws

  /** The listener calls made for one block, and whether a segment threw part-way. */
  datatype Parsed = Parsed(entries: seq<Entry>, failed: bool)

  /** A key the parser can produce: non-empty and free of `=`. */
  predicate ValidKey(k: string) {
    |k| >= 1 && '=' !in k
  }

  /** String.indexOf(char): the index of the first `c` in `s`, or -1. */
  function IndexOf(s: string, c: char): (n: int)
    ensures -1 <= n < |s|
    ensures n == -1 <==> c !in s
    ensures 0 <= n ==> s[n] == c && c !in s[..n]
  {
    if |s| == 0 then -1
    else if s[0] == c then 0
    else
      var k := IndexOf(s[1..], c);
      assert k >= 0 ==> s[..k + 1] == [s[0]] + s[1..][..k];
      if k == -1 then -1 else k + 1
  }

  lemma {:induction false} IndexOfFirst(a: string, c: char, b: string)
    requires c !in a
    ensures IndexOf(a + [c] + b, c) == |a|
  {
    var s := a + [c] + b;
    assert s[..|a|] == a;
    assert s[|a|] == c;
  }

  /** Joins non-empty lists of pieces with `;` between them. */
  function Join(parts: seq<string>): string
    requires |parts| >= 1
  {
    if |parts| == 1 then parts[0] else parts[0] + ";" + Join(parts[1..])
  }

  /** Every piece of `s` between separators `;`, empty ones included. */
  function Segments(s: string): (parts: seq<string>)
    ensures |parts| >= 1
    ensures forall i :: 0 <= i < |parts| ==> ';' !in parts[i]
    ensures Join(parts) == s
    decreases |s|
  {
    var n := IndexOf(s, ';');
    if n < 0 then [s]
    else
      var rest := Segments(s[n + 1..]);
      assert ([s[..n]] + rest)[1..] == rest;
      assert s == s[..n] + ";" + s[n + 1..];
      [s[..n]] + rest
  }

  lemma {:induction false} SegmentsCons(a: string, b: string)
    requires ';' !in a
    ensures Segments(a + ";" + b) == [a] + Segments(b)
  {
    var s := a + ";" + b;
    IndexOfFirst(a, ';', b);
    assert s[..|a|] == a;
    assert s[|a| + 1..] == b;
  }

  /** Removes the empty strings at the end of `parts`, as String.split does. */
  function DropTrailingEmpty(parts: seq<string>): (kept: seq<string>)
    ensures |kept| <= |parts| && kept == parts[..|kept|]
    ensures forall i :: |kept| <= i < |parts| ==> parts[i] == ""
    ensures |kept| > 0 ==> kept[|kept| - 1] != ""
  {
    if |parts| == 0 || parts[|parts| - 1] != "" then parts
    else DropTrailingEmpty(parts[..|parts| - 1])
  }

  /**
   * String.split(";"): the whole string when it holds no `;` (even when it is
   * empty); otherwise the segments with the trailing empty ones dropped.
   */
  function Split(s: string): (parts: seq<string>)
    ensures forall i :: 0 <= i < |parts| ==> ';' !in parts[i]
    ensures ';' !in s ==> parts == [s]
    ensures ';' in s ==> |parts| <= |Segments(s)| && parts == Segments(s)[..|parts|]
    ensures ';' in s ==> forall i :: |parts| <= i < |Segments(s)| ==> Segments(s)[i] == ""
    ensures ';' in s && |parts| > 0 ==> parts[|parts| - 1] != ""
  {
    if ';' !in s then [s] else DropTrailingEmpty(Segments(s))
  }

  /** A segment `k='` with a valid key `k`: the first `=` is followed by a lone `'`. */
  lemma {:induction false} LoneQuoteShape(kv: string)
    ensures var n := IndexOf(kv, '=');
      (|kv| >= 3 && kv[|kv| - 2..] == "='" && '=' !in kv[..|kv| - 2]) <==>
      (n >= 1 && n + 2 == |kv| && kv[n + 1] == '\'')
  {
    if |kv| >= 3 && kv[|kv| - 2..] == "='" && '=' !in kv[..|kv| - 2] {
      LoneQuoteFound(kv);
    }
    var n := IndexOf(kv, '=');
    if n >= 1 && n + 2 == |kv| && kv[n + 1] == '\'' {
      assert kv[|kv| - 2..] == [kv[n], kv[n + 1]];
    }
  }

  /** In `k='` with no `=` in `k`, the first `=` is the one before the quote. */
  lemma {:induction false} LoneQuoteFound(kv: string)
    requires |kv| >= 3 && kv[|kv| - 2..] == "='" && '=' !in kv[..|kv| - 2]
    ensures IndexOf(kv, '=') == |kv| - 2
  {
    var head := kv[..|kv| - 2];
    assert kv[|kv| - 2] == kv[|kv| - 2..][0];
    assert kv[|kv| - 1] == kv[|kv| - 2..][1];
    assert kv == head + ['='] + ['\''];
    IndexOfFirst(head, '=', ['\'']);
  }

  /**
   * One segment: key before the first `=`, value after it, single quotes
   * stripped; the key is never empty, and key, `=` and value fit in the segment.
   */
  function ParseSegment(kv: string): (r: Segment)
    ensures r.Pair? ==> |r.key| >= 1 && |r.key| + 1 + |r.value| <= |kv|
  {
    var n := IndexOf(kv, '=');
    if n < 1 then Skipped
    else
      var isString := n + 1 < |kv| && kv[|kv| - 1] == '\'' && kv[n + 1] == '\'';
      if isString then
        if n + 2 <= |kv| - 1 then
          Pair(kv[..n], kv[n + 2..|kv| - 1])
        else
          StringIndexOutOfBounds
      else
        Pair(kv[..n], if n + 1 < |kv| then kv[n + 1..] else "")
  }

  /** A segment is skipped exactly when it has no `=` or starts with one. */
  lemma {:induction false} ParseSegmentSkips(kv: string)
    ensures ParseSegment(kv).Skipped? <==> '=' !in kv || kv[0] == '='
  {
    var n := IndexOf(kv, '=');
    if n >= 1 {
      assert kv[..n][0] == kv[0];
    }
  }

  /** A segment throws exactly when it is a key without `=` followed by `='`. */
  lemma {:induction false} ParseSegmentThrows(kv: string)
    ensures ParseSegment(kv).StringIndexOutOfBounds? <==>
      |kv| >= 3 && kv[|kv| - 2..] == "='" && '=' !in kv[..|kv| - 2]
  {
    LoneQuoteShape(kv);
  }

  /** A pair gives back its segment: the key, `=`, then the value, quoted or not. */
  lemma {:induction false} ParseSegmentRebuilds(kv: string)
    requires ParseSegment(kv).Pair?
    ensures var r := ParseSegment(kv);
      kv == r.key + "=" + r.value || kv == r.key + "='" + r.value + "'"
  {
    var n := IndexOf(kv, '=');
    var key := kv[..n];
    if n + 2 <= |kv| - 1 && kv[|kv| - 1] == '\'' && kv[n + 1] == '\'' {
      var value := kv[n + 2..|kv| - 1];
      assert ParseSegment(kv) == Pair(key, value);
      assert kv == key + "='" + value + "'";
    } else {
      var value := kv[n + 1..];
      assert ParseSegment(kv) == Pair(key, value);
      assert kv == key + "=" + value;
    }
  }

  /** The key of a pair is a valid key, and neither key nor value holds a character the segment lacks. */
  lemma {:induction false} ParseSegmentKey(kv: string, c: char)
    ensures var r := ParseSegment(kv);
      r.Pair? ==> ValidKey(r.key) && (c !in kv ==> c !in r.key && c !in r.value)
  {
    if ParseSegment(kv).Pair? {
      ParseSegmentRebuilds(kv);
    }
  }

  lemma {:induction false} ParseQuoted(k: string, v: string)
    requires ValidKey(k)
    ensures ParseSegment(k + "='" + v + "'") == Pair(k, v)
  {
    var kv := k + "='" + v + "'";
    IndexOfFirst(k, '=', "'" + v + "'");
    assert kv == k + ['='] + ("'" + v + "'");
    assert kv[..|k|] == k;
    assert kv[|k| + 2..|kv| - 1] == v;
  }

  lemma {:induction false} ParsePlain(k: string, v: string)
    requires ValidKey(k)
    requires !(|v| >= 1 && v[0] == '\'' && v[|v| - 1] == '\'')
    ensures ParseSegment(k + "=" + v) == Pair(k, v)
  {
    var kv := k + "=" + v;
    IndexOfFirst(k, '=', v);
    assert kv == k + ['='] + v;
    assert kv[..|k|] == k;
    assert kv[|k| + 1..] == v;
  }

  /** The segments in order, at most one call each; a segment that throws ends the block. */
  function ParseSegments(segs: seq<string>): (p: Parsed)
    ensures |p.entries| <= |segs|
  {
    if |segs| == 0 then Parsed([], false)
    else
      var rest := ParseSegments(segs[1..]);
      match ParseSegment(segs[0])
      case Skipped => rest
      case StringIndexOutOfBounds => Parsed([], true)
      case Pair(k, v) => Parsed([(k, v)] + rest.entries, rest.failed)
  }

  /** The block throws exactly when one of its segments does. */
  lemma {:induction false} ParseSegmentsFails(segs: seq<string>)
    ensures ParseSegments(segs).failed <==>
      exists i :: 0 <= i < |segs| && ParseSegment(segs[i]).StringIndexOutOfBounds?
  {
    if |segs| > 0 {
      ParseSegmentsFails(segs[1..]);
      assert forall i :: 1 <= i < |segs| ==> segs[i] == segs[1..][i - 1];
    }
  }

  /**
   * Every listener call carries a valid key; with `;`-free segments, neither
   * key nor value holds a `;`.
   */
  lemma {:induction false} ParseSegmentsEntries(segs: seq<string>)
    ensures var p := ParseSegments(segs);
      |p.entries| <= |segs| &&
      forall i :: 0 <= i < |p.entries| ==> ValidKey(p.entries[i].0)
    ensures var p := ParseSegments(segs);
      (forall i :: 0 <= i < |segs| ==> ';' !in segs[i]) ==>
      forall i :: 0 <= i < |p.entries| ==> ';' !in p.entries[i].0 && ';' !in p.entries[i].1
  {
    if |segs| > 0 {
      ParseSegmentsEntries(segs[1..]);
      assert forall i :: 1 <= i < |segs| ==> segs[i] == segs[1..][i - 1];
      ParseSegmentKey(segs[0], ';');
    }
  }

  /** parseMetadata: the listener calls made for a decoded block text. */
  function ParseMetadata(text: string): (p: Parsed)
    ensures forall i :: 0 <= i < |p.entries| ==>
      ValidKey(p.entries[i].0) && ';' !in p.entries[i].0 && ';' !in p.entries[i].1
  {
    ParseSegmentsEntries(Split(text));
    ParseSegments(Split(text))
  }

  /** Listener calls follow segment order, and a failing segment stops the rest. */
  lemma {:induction false} ParseSegmentsAppend(a: seq<string>, b: seq<string>)
    ensures ParseSegments(a + b) ==
      if ParseSegments(a).failed then ParseSegments(a)
      else Parsed(ParseSegments(a).entries + ParseSegments(b).entries, ParseSegments(b).failed)
  {
    if |a| == 0 {
      assert a + b == b;
    } else {
      assert (a + b)[1..] == a[1..] + b;
      assert (a + b)[0] == a[0];
      ParseSegmentsAppend(a[1..], b);
      var rest, tail := ParseSegments(a[1..]), ParseSegments(b);
      match ParseSegment(a[0])
      case Skipped =>
      case StringIndexOutOfBounds =>
      case Pair(k, v) =>
        assert ([(k, v)] + rest.entries) + tail.entries == [(k, v)] + (rest.entries + tail.entries);
    }
  }

  /** An entry a server can write: `key='value'` with a valid key and no `;` anywhere. */
  predicate Writable(e: Entry) {
    ValidKey(e.0) && ';' !in e.0 && ';' !in e.1
  }

  function Quote(e: Entry): (seg: string)
    ensures Writable(e) ==> ';' !in seg && seg != ""
  {
    e.0 + "='" + e.1 + "'"
  }

  function QuoteAll(entries: seq<Entry>): (segs: seq<string>)
    ensures |segs| == |entries|
    ensures forall i :: 0 <= i < |segs| ==> segs[i] == Quote(entries[i])
  {
    if |entries| == 0 then [] else [Quote(entries[0])] + QuoteAll(entries[1..])
  }

  /** Each segment followed by `;`. */
  function Terminated(segs: seq<string>): string {
    if |segs| == 0 then "" else segs[0] + ";" + Terminated(segs[1..])
  }

  /** The block text a server writes for `entries`: `k1='v1';k2='v2';`. */
  function Format(entries: seq<Entry>): string {
    Terminated(QuoteAll(entries))
  }

  lemma {:induction false} SegmentsTerminated(segs: seq<string>)
    requires forall i :: 0 <= i < |segs| ==> ';' !in segs[i]
    ensures Segments(Terminated(segs)) == segs + [""]
  {
    if |segs| == 0 {
      assert IndexOf("", ';') == -1;
    } else {
      SegmentsCons(segs[0], Terminated(segs[1..]));
      SegmentsTerminated(segs[1..]);
      assert segs + [""] == [segs[0]] + (segs[1..] + [""]);
    }
  }

  /** String.split(";") undoes writing non-empty segments each followed by `;`. */
  lemma {:induction false} SplitTerminated(segs: seq<string>)
    requires |segs| > 0
    requires forall i :: 0 <= i < |segs| ==> ';' !in segs[i] && segs[i] != ""
    ensures Split(Terminated(segs)) == segs
  {
    var s := Terminated(segs);
    SegmentsTerminated(segs);
    assert s == segs[0] + ";" + Terminated(segs[1..]);
    assert s[|segs[0]|] == ';';
    var all := Segments(s);
    assert all[|segs| - 1] == segs[|segs| - 1];
    var parts := Split(s);
    assert |parts| >= |segs|;
    assert parts == all[..|segs|] == segs;
  }

  lemma {:induction false} ParseQuoteAll(entries: seq<Entry>)
    requires forall i :: 0 <= i < |entries| ==> Writable(entries[i])
    ensures ParseSegments(QuoteAll(entries)) == Parsed(entries, false)
  {
    if |entries| > 0 {
      ParseQuoted(entries[0].0, entries[0].1);
      ParseQuoteAll(entries[1..]);
      assert QuoteAll(entries)[1..] == QuoteAll(entries[1..]);
      assert [(entries[0].0, entries[0].1)] + entries[1..] == entries;
    }
  }

  /** Round trip: parsing the text a server writes gives back its entries, in order. */
  lemma {:induction false} ParseFormat(entries: seq<Entry>)
    requires forall i :: 0 <= i < |entries| ==> Writable(entries[i])
    ensures ParseMetadata(Format(entries)) == Parsed(entries, false)
  {
    if |entries| == 0 {
      assert Format(entries) == "";
      assert ParseSegment("") == Skipped;
      assert Split("") == [""];
    } else {
      SplitTerminated(QuoteAll(entries));
      ParseQuoteAll(entries);
    }
  }

  /** A segment without `=` is skipped; the segments after it still reach the listener. */
  lemma {:induction false} SkipsSegmentWithoutEquals(junk: string, k: string, v: string)
    requires junk != "" && '=' !in junk && ';' !in junk
    requires Writable((k, v)) && v != "" && v[0] != '\''
    ensures ParseMetadata(junk + ";" + k + "=" + v + ";") == Parsed([(k, v)], false)
  {
    var kv := k + "=" + v;
    assert ';' !in kv;
    var segs := [junk, kv];
    assert Terminated(segs) == junk + ";" + k + "=" + v + ";" by {
      assert segs[1..] == [kv];
      assert Terminated([kv]) == kv + ";" + "";
    }
    SplitTerminated(segs);
    ParseSegmentSkips(junk);
    ParsePlain(k, v);
    assert segs[1..] == [kv];
    assert ParseSegments([kv]) == Parsed([(k, v)], false) by {
      assert [kv][1..] == [];
    }
  }

  lemma {:induction false} TitleAndUrlSegments()
    ensures QuoteAll([("StreamTitle", "Song A"), ("StreamUrl", "http://x")]) ==
      [Quote(("StreamTitle", "Song A")), Quote(("StreamUrl", "http://x"))]
  {
    var title, url := ("StreamTitle", "Song A"), ("StreamUrl", "http://x");
    assert [title, url][1..] == [url];
    assert QuoteAll([url]) == [Quote(url)] + QuoteAll([]);
  }

  lemma {:induction false} TwoTerminated(a: string, b: string)
    ensures Terminated([a, b]) == a + ";" + b + ";"
  {
    assert [a, b][1..] == [b];
    assert Terminated([b]) == b + ";" + "";
  }

  lemma TitleAndUrlQuotes()
    ensures Quote(("StreamTitle", "Song A")) + ";" + Quote(("StreamUrl", "http://x")) + ";" ==
      "StreamTitle='Song A';StreamUrl='http://x';"
  {
  }

  lemma {:induction false} TitleAndUrlText()
    ensures Format([("StreamTitle", "Song A"), ("StreamUrl", "http://x")]) ==
      "StreamTitle='Song A';StreamUrl='http://x';"
  {
    TitleAndUrlSegments();
    TwoTerminated(Quote(("StreamTitle", "Song A")), Quote(("StreamUrl", "http://x")));
    TitleAndUrlQuotes();
  }

  lemma TitleAndUrlWritable()
    ensures Writable(("StreamTitle", "Song A")) && Writable(("StreamUrl", "http://x"))
  {
  }

  /** The two standard keys, in the order the block lists them. */
  lemma {:induction false} StreamTitleAndUrl()
    ensures ParseMetadata("StreamTitle='Song A';StreamUrl='http://x';") ==
      Parsed([("StreamTitle", "Song A"), ("StreamUrl", "http://x")], false)
  {
    var entries := [("StreamTitle", "Song A"), ("StreamUrl", "http://x")];
    TitleAndUrlText();
    TitleAndUrlWritable();
    ParseFormat(entries);
  }

  lemma BogusThenTitleText()
    ensures "Bogus" + ";" + "StreamTitle" + "=" + "NoQuotes" + ";" == "Bogus;StreamTitle=NoQuotes;"
  {
  }

  lemma BogusThenTitleParts()
    ensures '=' !in "Bogus" && ';' !in "Bogus" && Writable(("StreamTitle", "NoQuotes"))
  {
  }

  /** The listener gets nothing from `Bogus;StreamTitle=NoQuotes;` but the one titled pair. */
  lemma {:induction false} BogusThenTitle()
    ensures ParseMetadata("Bogus;StreamTitle=NoQuotes;") == Parsed([("StreamTitle", "NoQuotes")], false)
  {
    BogusThenTitleParts();
    SkipsSegmentWithoutEquals("Bogus", "StreamTitle", "NoQuotes");
    BogusThenTitleText();
  }

  /** A value that is a single quote makes parseMetadata throw. */
  lemma {:induction false} LoneQuoteValueThrows()
    ensures ParseMetadata("a='").failed
  {
    assert Split("a='") == ["a='"];
    ParseSegmentThrows("a='");
  }
}
