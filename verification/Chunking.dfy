/** Splitting documents into overlapping chunks of words (internal/rag/document_loader.go). */
module Chunking {
  import opened Documents

  const DEFAULT_CHUNK_SIZE: int := 512
  const DEFAULT_OVERLAP: int := 50

  // ------------------------------------------------------------------ words

  /** The white space of bufio.ScanWords. */
  predicate IsSpace(c: char) {
    || c == ' ' || '\t' <= c <= '\r' || c == '\U{85}' || c == '\U{A0}' || c == '\U{1680}'
    || '\U{2000}' <= c <= '\U{200A}' || c == '\U{2028}' || c == '\U{2029}' || c == '\U{202F}' || c == '\U{205F}'
    || c == '\U{3000}'
  }

  predicate IsWord(w: string) {
    w != "" && forall i :: 0 <= i < |w| ==> !IsSpace(w[i])
  }

  function Finish(words: seq<string>, current: string): seq<string> {
    if current == "" then words else words + [current]
  }

  /** The complete words of a text and the word that is still open at its end. */
  function Scan(text: string): (r: (seq<string>, string)) {
    if text == "" then ([], "")
    else
      var n := |text| - 1;
      var (words, current) := Scan(text[..n]);
      if IsSpace(text[n]) then (Finish(words, current), "") else (words, current + [text[n]])
  }

  function WordsOf(text: string): seq<string> {
    Finish(Scan(text).0, Scan(text).1)
  }

  /** tokenizeWords, with the scanner written out. */
  method TokenizeWords(text: string) returns (words: seq<string>)
    ensures words == WordsOf(text)
  {
    words := [];
    var current := "";
    for i := 0 to |text|
      invariant (words, current) == Scan(text[..i])
    {
      assert text[..i + 1][..i] == text[..i];
      if IsSpace(text[i]) {
        if current != "" {
          words := words + [current];
        }
        current := "";
      } else {
        current := current + [text[i]];
      }
    }
    assert text[..|text|] == text;
    if current != "" {
      words := words + [current];
    }
  }

  predicate AllWords(words: seq<string>) {
    forall i :: 0 <= i < |words| ==> IsWord(words[i])
  }

  lemma {:induction false} ScanYieldsWords(text: string)
    ensures AllWords(Scan(text).0) && (Scan(text).1 == "" || IsWord(Scan(text).1))
  {
    if text != "" { ScanYieldsWords(text[..|text| - 1]); }
  }

  /** strings.Join(words, " ") */
  function Join(words: seq<string>): string {
    if words == [] then ""
    else if |words| == 1 then words[0]
    else Join(words[..|words| - 1]) + " " + words[|words| - 1]
  }

  lemma {:induction false} ScanWord(text: string, w: string)
    requires forall i :: 0 <= i < |w| ==> !IsSpace(w[i])
    ensures Scan(text + w) == (Scan(text).0, Scan(text).1 + w)
  {
    if w == "" {
      assert text + w == text;
      assert Scan(text).1 + w == Scan(text).1;
    } else {
      var n := |w| - 1;
      assert (text + w)[..|text + w| - 1] == text + w[..n];
      ScanWord(text, w[..n]);
      assert Scan(text).1 + w == (Scan(text).1 + w[..n]) + [w[n]];
    }
  }

  /** Tokenising undoes joining. */
  lemma {:induction false} WordsOfJoin(words: seq<string>)
    requires AllWords(words)
    ensures WordsOf(Join(words)) == words
    ensures words != [] ==> Scan(Join(words)) == (words[..|words| - 1], words[|words| - 1])
  {
    if words != [] {
      var n := |words| - 1;
      var w := words[n];
      assert words == words[..n] + [w];
      if n == 0 {
        ScanWord("", w);
        assert "" + w == w && [] + [w] == [w];
      } else {
        WordsOfJoin(words[..n]);
        var text := Join(words[..n]) + " ";
        assert text[..|text| - 1] == Join(words[..n]);
        assert Scan(text) == (words[..n], "");
        ScanWord(text, w);
        assert "" + w == w;
      }
    }
  }

  // ------------------------------------------------------------------ chunk ids

  function Digit(d: nat): char
    requires d < 10
  {
    '0' + d as char
  }

  /** %d */
  function Decimal(n: nat): (s: string)
    ensures |s| >= 1 && (|s| == 1 <==> n < 10)
    ensures forall i :: 0 <= i < |s| ==> '0' <= s[i] <= '9'
  {
    if n < 10 then [Digit(n)] else Decimal(n / 10) + [Digit(n % 10)]
  }

  lemma {:induction false} DecimalInjective(a: nat, b: nat)
    requires Decimal(a) == Decimal(b)
    ensures a == b
  {
    var s, t := Decimal(a), Decimal(b);
    assert s[|s| - 1] == t[|t| - 1];
    if a >= 10 {
      assert s[..|s| - 1] == Decimal(a / 10) && t[..|t| - 1] == Decimal(b / 10);
      DecimalInjective(a / 10, b / 10);
    }
  }

  function ChunkId(id: string, index: nat): string {
    id + "_chunk_" + Decimal(index)
  }

  /** The index is the run of digits at the end of the id; an underscore precedes it. */
  lemma IndexOfChunkId(id: string, index: nat)
    ensures var (s, d) := (ChunkId(id, index), |Decimal(index)|);
            && |s| == |id| + 7 + d && s[..|id|] == id && s[|s| - d..] == Decimal(index) && s[|s| - d - 1] == '_'
            && forall k :: |s| - d <= k < |s| ==> '0' <= s[k] <= '9'
  {
    var s, d := ChunkId(id, index), |Decimal(index)|;
    forall k | |s| - d <= k < |s|
      ensures '0' <= s[k] <= '9'
    {
      assert s[k] == Decimal(index)[k - (|s| - d)];
    }
  }

  /** A chunk id determines its document and its index. */
  lemma ChunkIdInjective(a: string, i: nat, b: string, j: nat)
    requires ChunkId(a, i) == ChunkId(b, j)
    ensures a == b && i == j
  {
    IndexOfChunkId(a, i);
    IndexOfChunkId(b, j);
    hide ChunkId;
    hide Decimal;
    assert |Decimal(i)| == |Decimal(j)|;
    DecimalInjective(i, j);
  }

  // ------------------------------------------------------------------ chunking

  /** chunkSize and overlap after defaulting and clamping */
  function Effective(chunkSize: int, overlap: int): (r: (nat, nat))
    ensures r.1 < r.0
  {
    var c := if chunkSize <= 0 then DEFAULT_CHUNK_SIZE else chunkSize;
    var o := if overlap < 0 then DEFAULT_OVERLAP else overlap;
    (c, if o >= c then c / 2 else o)
  }

  function ChunkEnd(n: nat, start: nat, c: nat): nat {
    if start + c > n then n else start + c
  }

  /** The word slices of the chunks from start on; c words each, a step of s words apart. */
  function Slices(words: seq<string>, start: nat, c: nat, s: nat): (r: seq<seq<string>>)
    requires start < |words| && 0 < s <= c
    ensures r != []
    decreases |words| - start
  {
    var end := ChunkEnd(|words|, start, c);
    [words[start..end]] + if end >= |words| then [] else Slices(words, start + s, c, s)
  }

  function ChunkOf(doc: Document, words: seq<string>, index: nat): Document {
    doc.(id := ChunkId(doc.id, index), title := doc.title + " (chunk " + Decimal(index) + ")", content := Join(words))
  }

  function ChunksOf(doc: Document, slices: seq<seq<string>>, first: nat): (r: seq<Document>)
    ensures |r| == |slices|
  {
    seq(|slices|, k requires 0 <= k < |slices| => ChunkOf(doc, slices[k], first + k))
  }

  function Chunks(doc: Document, chunkSize: int, overlap: int): seq<Document> {
    var (c, o) := Effective(chunkSize, overlap);
    var words := WordsOf(doc.content);
    if |words| <= c then [doc] else ChunksOf(doc, Slices(words, 0, c, c - o), 0)
  }

  /** ChunkDocument */
  method ChunkDocument(doc: Document, chunkSize: int, overlap: int) returns (chunks: seq<Document>)
    ensures chunks == Chunks(doc, chunkSize, overlap)
  {
    var c, o := chunkSize, overlap;
    if c <= 0 {
      c := DEFAULT_CHUNK_SIZE;
    }
    if o < 0 {
      o := DEFAULT_OVERLAP;
    }
    if o >= c {
      o := c / 2;
    }
    var words := TokenizeWords(doc.content);
    if |words| <= c {
      return [doc];
    }
    chunks := ChunkWords(doc, words, c, c - o);
  }

  /** The loop of ChunkDocument. */
  method ChunkWords(doc: Document, words: seq<string>, c: nat, step: nat) returns (chunks: seq<Document>)
    requires words != [] && 0 < step <= c
    ensures chunks == ChunksOf(doc, Slices(words, 0, c, step), 0)
  {
    hide *;
    assert ChunksOf(doc, [], 0) == [];
    chunks := [];
    var chunkIndex, start := 0, 0;
    ghost var done := [];
    while true
      invariant 0 <= chunkIndex == |done| && 0 <= start < |words|
      invariant chunks == ChunksOf(doc, done, 0)
      invariant Slices(words, 0, c, step) == done + Slices(words, start, c, step)
      decreases |words| - start
    {
      SlicesStep(words, start, c, step);
      var end := ChunkEnd(|words|, start, c);
      ChunksOfSnoc(doc, done, words[start..end]);
      chunks := chunks + [ChunkOf(doc, words[start..end], chunkIndex)];
      chunkIndex := chunkIndex + 1;
      done := done + [words[start..end]];
      if end >= |words| {
        break;
      }
      start := start + step;
    }
  }

  lemma ChunksOfSnoc(doc: Document, slices: seq<seq<string>>, slice: seq<string>)
    ensures ChunksOf(doc, slices + [slice], 0) == ChunksOf(doc, slices, 0) + [ChunkOf(doc, slice, |slices|)]
  {
    hide ChunkOf;
  }

  lemma SlicesStep(words: seq<string>, start: nat, c: nat, s: nat)
    requires start < |words| && 0 < s <= c
    ensures start < ChunkEnd(|words|, start, c) <= |words|
    ensures var end := ChunkEnd(|words|, start, c);
            if end >= |words| then Slices(words, start, c, s) == [words[start..end]]
            else
              && start + s < |words|
              && Slices(words, start, c, s) == [words[start..end]] + Slices(words, start + s, c, s)
  {
  }

  // ------------------------------------------------------------------ what chunking guarantees

  /** m is the least number with m * b >= a, that is ceil(a / b). */
  predicate IsCeilDiv(m: nat, a: nat, b: nat) {
    a <= m * b && (m > 0 ==> (m - 1) * b < a)
  }

  /** A document of n > c words has ceil((n - c) / s) + 1 chunks. */
  lemma {:induction false} SliceCount(words: seq<string>, start: nat, c: nat, s: nat)
    requires start < |words| && 0 < s <= c
    ensures var rest := |words| - start;
            IsCeilDiv(|Slices(words, start, c, s)| - 1, if rest <= c then 0 else rest - c, s)
    decreases |words| - start
  {
    if start + c < |words| {
      SliceCount(words, start + s, c, s);
      var m := |Slices(words, start + s, c, s)| - 1;
      assert (m + 1) * s == m * s + s && (m > 0 ==> m * s == (m - 1) * s + s);
    }
  }

  predicate AllLonger(slices: seq<seq<string>>, o: nat) {
    forall k :: 0 <= k < |slices| ==> o < |slices[k]|
  }

  /** The slices, each without its first o words, one after the other. */
  function StitchFrom(slices: seq<seq<string>>, o: nat): seq<string>
    requires AllLonger(slices, o)
  {
    if slices == [] then [] else slices[0][o..] + StitchFrom(slices[1..], o)
  }

  lemma StitchCons(slice: seq<string>, rest: seq<seq<string>>, o: nat)
    requires o < |slice| && AllLonger(rest, o)
    ensures AllLonger([slice] + rest, o) && StitchFrom([slice] + rest, o) == slice[o..] + StitchFrom(rest, o)
  {
    assert ([slice] + rest)[1..] == rest;
  }

  lemma Glue(words: seq<string>, a: nat, b: nat, o: nat)
    requires a + o <= b <= |words|
    ensures words[a..b][o..] + words[b..] == words[a + o..]
  {
  }

  /** Every chunk after the first repeats exactly o words and adds at least one; nothing is lost. */
  lemma {:induction false} LaterSlices(words: seq<string>, start: nat, c: nat, o: nat)
    requires o < c && start + o < |words|
    ensures var slices := Slices(words, start, c, c - o);
            AllLonger(slices, o) && StitchFrom(slices, o) == words[start + o..]
    decreases |words| - start
  {
    SlicesStep(words, start, c, c - o);
    EndIs(|words|, start, c);
    hide *;
    if start + c < |words| {
      var next := start + (c - o);
      LaterSlices(words, next, c, o);
      assert next + o == start + c;
      StitchStep(words, start, c, o, Slices(words, next, c, c - o));
    } else {
      StitchOne(words[start..|words|], o);
      assert words[start..|words|][o..] == words[start + o..];
    }
  }

  lemma StitchStep(words: seq<string>, start: nat, c: nat, o: nat, rest: seq<seq<string>>)
    requires o < c && start + c < |words| && AllLonger(rest, o) && StitchFrom(rest, o) == words[start + c..]
    ensures AllLonger([words[start..start + c]] + rest, o)
    ensures StitchFrom([words[start..start + c]] + rest, o) == words[start + o..]
  {
    hide *;
    StitchCons(words[start..start + c], rest, o);
    Glue(words, start, start + c, o);
  }

  lemma StitchOne(slice: seq<string>, o: nat)
    requires o < |slice|
    ensures AllLonger([slice], o) && StitchFrom([slice], o) == slice[o..]
  {
    assert [slice][1..] == [] && slice[o..] + [] == slice[o..];
  }

  lemma EndIs(n: nat, start: nat, c: nat)
    ensures ChunkEnd(n, start, c) == if start + c > n then n else start + c
  {
  }

  /** The k-th slice starts k steps into the words. */
  lemma SliceAt(words: seq<string>, start: nat, c: nat, s: nat, k: nat)
    requires start < |words| && 0 < s <= c && k < |Slices(words, start, c, s)|
    ensures start + k * s < |words|
    ensures Slices(words, start, c, s)[k] == words[start + k * s..ChunkEnd(|words|, start + k * s, c)]
  {
    hide *;
    SliceStartsAt(words, start, c, s, k, start + k * s);
  }

  lemma {:induction false} SliceStartsAt(words: seq<string>, start: nat, c: nat, s: nat, k: nat, p: nat)
    requires start < |words| && 0 < s <= c && k < |Slices(words, start, c, s)| && p == start + k * s
    ensures p < |words| && p <= ChunkEnd(|words|, p, c) <= |words|
    ensures Slices(words, start, c, s)[k] == words[p..ChunkEnd(|words|, p, c)]
    decreases k
  {
    SlicesStep(words, start, c, s);
    hide *;
    if k > 0 {
      OneStepMore(start, k, s);
      SliceStartsAt(words, start + s, c, s, k - 1, p);
    }
  }

  lemma OneStepMore(start: nat, k: nat, s: nat)
    requires k > 0
    ensures start + s + (k - 1) * s == start + k * s
  {
  }

  lemma {:induction false} SlicesAreWords(words: seq<string>, start: nat, c: nat, s: nat)
    requires start < |words| && 0 < s <= c && AllWords(words)
    ensures forall k :: 0 <= k < |Slices(words, start, c, s)| ==> AllWords(Slices(words, start, c, s)[k])
    decreases |words| - start
  {
    SlicesStep(words, start, c, s);
    var end := ChunkEnd(|words|, start, c);
    if end < |words| { SlicesAreWords(words, start + s, c, s); }
  }

  lemma WordsAreWords(text: string)
    ensures AllWords(WordsOf(text))
  {
    ScanYieldsWords(text);
  }

  /**
   Chunking a document of more than c words, after defaulting and clamping to o < c: ceil((n - c)/(c - o)) + 1
   chunks with distinct ids; tokenising a chunk gives back its slice of the words; every chunk after the
   first repeats o words and adds at least one; and the first chunk followed by the later ones without
   their first o words is exactly the document's word list.
   */
  lemma ChunksCoverDocument(doc: Document, chunkSize: int, overlap: int)
    requires |WordsOf(doc.content)| > Effective(chunkSize, overlap).0
    ensures var (c, o) := Effective(chunkSize, overlap);
            var (words, chunks) := (WordsOf(doc.content), Chunks(doc, chunkSize, overlap));
            && |chunks| >= 2 && IsCeilDiv(|chunks| - 1, |words| - c, c - o)
            && (forall i, j :: 0 <= i < j < |chunks| ==> chunks[i].id != chunks[j].id)
            && WordsOf(chunks[0].content) == words[..c]
            && (forall k :: 1 <= k < |chunks| ==> |WordsOf(chunks[k].content)| > o)
            && WordsOf(chunks[0].content) + WordsAfter(chunks[1..], o) == words
  {
    var (c, o) := Effective(chunkSize, overlap);
    var words := WordsOf(doc.content);
    var chunks := Chunks(doc, chunkSize, overlap);
    var slices := Slices(words, 0, c, c - o);
    assert chunks == ChunksOf(doc, slices, 0);
    hide *;
    SlicesCoverWords(words, c, o);
    WordsAreWords(doc.content);
    SlicesAreWords(words, 0, c, c - o);
    ChunksSayTheirSlices(doc, slices);
    LongerLater(slices, o);
    ChunksStitch(doc, slices[1..], 1, o);
  }

  lemma ChunksSayTheirSlices(doc: Document, slices: seq<seq<string>>)
    requires forall k :: 0 <= k < |slices| ==> AllWords(slices[k])
    ensures var chunks := ChunksOf(doc, slices, 0);
            && (forall k :: 0 <= k < |slices| ==> WordsOf(chunks[k].content) == slices[k])
            && (forall i, j :: 0 <= i < j < |slices| ==> chunks[i].id != chunks[j].id)
            && (slices != [] ==> chunks[1..] == ChunksOf(doc, slices[1..], 1))
  {
    var chunks := ChunksOf(doc, slices, 0);
    assert forall k :: 0 <= k < |slices| ==> chunks[k] == ChunkOf(doc, slices[k], k);
    if slices != [] { ChunksUncons(doc, slices, 0); }
    hide *;
    forall k | 0 <= k < |slices| ensures WordsOf(chunks[k].content) == slices[k] && chunks[k].id == ChunkId(doc.id, k) {
      ChunkSaysItsSlice(doc, slices[k], k);
    }
    forall i, j | 0 <= i < j < |slices| ensures chunks[i].id != chunks[j].id {
      if chunks[i].id == chunks[j].id { ChunkIdInjective(doc.id, i, doc.id, j); }
    }
  }

  lemma SlicesCoverWords(words: seq<string>, c: nat, o: nat)
    requires o < c < |words|
    ensures var slices := Slices(words, 0, c, c - o);
            && |slices| >= 2 && IsCeilDiv(|slices| - 1, |words| - c, c - o)
            && slices[0] == words[..c] && AllLonger(slices[1..], o)
            && slices[0] + StitchFrom(slices[1..], o) == words
  {
    SliceCount(words, 0, c, c - o);
    SlicesStep(words, 0, c, c - o);
    EndIs(|words|, 0, c);
    hide *;
    LaterSlices(words, c - o, c, o);
    assert c - o + o == c;
    FirstAndLater(words, c, Slices(words, c - o, c, c - o), Slices(words, 0, c, c - o));
  }

  lemma FirstAndLater(words: seq<string>, c: nat, later: seq<seq<string>>, slices: seq<seq<string>>)
    requires c <= |words| && slices == [words[0..c]] + later
    ensures slices[1..] == later && slices[0] == words[..c] && words[..c] + words[c..] == words
  {
  }

  lemma LongerLater(slices: seq<seq<string>>, o: nat)
    requires slices != [] && AllLonger(slices[1..], o)
    ensures forall k :: 1 <= k < |slices| ==> o < |slices[k]|
  {
    assert forall k :: 1 <= k < |slices| ==> slices[k] == slices[1..][k - 1];
  }

  lemma ChunkSaysItsSlice(doc: Document, slice: seq<string>, index: nat)
    requires AllWords(slice)
    ensures WordsOf(ChunkOf(doc, slice, index).content) == slice
    ensures ChunkOf(doc, slice, index).id == ChunkId(doc.id, index)
  {
    WordsOfJoin(slice);
  }

  lemma {:induction false} ChunksStitch(doc: Document, slices: seq<seq<string>>, first: nat, o: nat)
    requires AllLonger(slices, o) && forall k :: 0 <= k < |slices| ==> AllWords(slices[k])
    ensures WordsAfter(ChunksOf(doc, slices, first), o) == StitchFrom(slices, o)
    decreases |slices|
  {
    hide ChunksOf;
    hide ChunkOf;
    hide WordsOf;
    hide AllWords;
    if slices != [] {
      ChunksUncons(doc, slices, first);
      ChunkSaysItsSlice(doc, slices[0], first);
      ChunksStitch(doc, slices[1..], first + 1, o);
    }
  }

  lemma ChunksUncons(doc: Document, slices: seq<seq<string>>, first: nat)
    requires slices != []
    ensures ChunksOf(doc, slices, first)[0] == ChunkOf(doc, slices[0], first)
    ensures ChunksOf(doc, slices, first)[1..] == ChunksOf(doc, slices[1..], first + 1)
  {
    hide ChunkOf;
  }

  /** The words of the chunks, each without its first o. */
  function WordsAfter(chunks: seq<Document>, o: nat): seq<string> {
    if chunks == [] then []
    else
      var words := WordsOf(chunks[0].content);
      (if o <= |words| then words[o..] else []) + WordsAfter(chunks[1..], o)
  }

  // ------------------------------------------------------------------ what a chunk says

  /** The settings that are used: 512 and 50 for want of better ones, and at most half the chunk repeated. */
  lemma SettingsUsed(chunkSize: int, overlap: int)
    ensures var (c, o) := Effective(chunkSize, overlap);
            && c == (if chunkSize > 0 then chunkSize else 512)
            && (0 <= overlap < c ==> o == overlap)
            && (overlap < 0 ==> o == if c > 50 then 50 else c / 2)
            && (overlap >= c ==> o == c / 2)
  {
  }

  /** A document of at most c words comes back as it is. */
  lemma ShortDocumentIsItsChunk(doc: Document, chunkSize: int, overlap: int)
    requires |WordsOf(doc.content)| <= if chunkSize > 0 then chunkSize else 512
    ensures Chunks(doc, chunkSize, overlap) == [doc]
  {
  }

  /** What chunk k of a longer document says: its own id and title, its words, and the rest as the document has it. */
  predicate SaysPart(chunk: Document, doc: Document, words: seq<string>, k: nat) {
    && chunk.id == doc.id + "_chunk_" + Decimal(k)
    && chunk.title == doc.title + " (chunk " + Decimal(k) + ")"
    && chunk.content == Join(words)
    && chunk.kind == doc.kind && chunk.source == doc.source && chunk.tags == doc.tags
  }

  /** At most c words from the first on. */
  function Part(words: seq<string>, first: nat, c: nat): seq<string>
    requires first <= |words|
  {
    if first + c <= |words| then words[first..first + c] else words[first..]
  }

  /** Chunk k holds the c words from k * (c - o) on, or what is left of them. */
  lemma ChunkSaysPart(doc: Document, chunkSize: int, overlap: int, c: nat, o: nat, k: nat, first: nat)
    requires (c, o) == Effective(chunkSize, overlap) && |WordsOf(doc.content)| > c
    requires k < |Chunks(doc, chunkSize, overlap)| && first == k * (c - o)
    ensures first < |WordsOf(doc.content)|
    ensures SaysPart(Chunks(doc, chunkSize, overlap)[k], doc, Part(WordsOf(doc.content), first, c), k)
  {
    var words := WordsOf(doc.content);
    var slices := Slices(words, 0, c, c - o);
    var chunks := Chunks(doc, chunkSize, overlap);
    assert chunks == ChunksOf(doc, slices, 0) && chunks[k] == ChunkOf(doc, slices[k], k);
    hide *;
    SliceStartsAt(words, 0, c, c - o, k, first);
    EndIs(|words|, first, c);
    PartSays(doc, words, first, c, k);
  }

  lemma PartSays(doc: Document, words: seq<string>, first: nat, c: nat, k: nat)
    requires first <= |words| && first <= ChunkEnd(|words|, first, c) <= |words|
    ensures SaysPart(ChunkOf(doc, words[first..ChunkEnd(|words|, first, c)], k), doc, Part(words, first, c), k)
  {
    var end := ChunkEnd(|words|, first, c);
    assert words[first..end] == Part(words, first, c);
    hide Join;
    hide Decimal;
  }

  /** One space between any two words. */
  lemma JoinIsSpaced(words: seq<string>, w: string)
    ensures Join([w]) == w
    ensures words != [] ==> Join(words + [w]) == Join(words) + " " + w
  {
    assert (words + [w])[..|words|] == words;
  }

  /** Decimal digits as %d prints them: appending one multiplies by ten and adds it. */
  lemma DecimalAppends(v: nat, d: nat)
    requires d < 10
    ensures Decimal(d) == ["0123456789"[d]]
    ensures v > 0 ==> Decimal(10 * v + d) == Decimal(v) + ["0123456789"[d]]
  {
    assert (10 * v + d) / 10 == v && (10 * v + d) % 10 == d;
    assert Digit(d) == "0123456789"[d];
  }

  /** White space separates words, and nothing else does. */
  lemma SpaceSeparates(a: string, c: char, b: string)
    requires c in {' ', '\t', '\n', '\U{B}', '\U{C}', '\r', '\U{85}', '\U{A0}'}
    ensures WordsOf(a + [c] + b) == WordsOf(a) + WordsOf(b)
  {
    assert IsSpace(c);
    assert (a + [c])[..|a|] == a;
    assert Scan(a + [c]) == (WordsOf(a), "");
    hide IsSpace;
    ScanFrom(a + [c], b);
    assert Scan(b).1 != "" ==> WordsOf(a) + (Scan(b).0 + [Scan(b).1]) == WordsOf(a) + Scan(b).0 + [Scan(b).1];
  }

  lemma {:induction false} ScanFrom(a: string, b: string)
    requires Scan(a).1 == ""
    ensures Scan(a + b) == (Scan(a).0 + Scan(b).0, Scan(b).1)
  {
    hide IsSpace;
    if b == "" {
      assert a + b == a && Scan(a).0 + [] == Scan(a).0;
    } else {
      var n := |b| - 1;
      assert (a + b)[..|a + b| - 1] == a + b[..n];
      ScanFrom(a, b[..n]);
      var (words, current) := Scan(b[..n]);
      assert Scan(a).0 + (words + [current]) == Scan(a).0 + words + [current];
    }
  }

  lemma OneWord(w: string)
    requires w != "" && forall i :: 0 <= i < |w| ==> '!' <= w[i] <= '~'
    ensures WordsOf(w) == [w]
  {
    ScanWord("", w);
    assert "" + w == w && [] + [w] == [w];
  }
}
