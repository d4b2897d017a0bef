/** The word-window chunker shared by both services: the text is cut on the
    single character ' ' into words, and windows of `size` words are taken at
    start offsets 0, step, 2 * step, ... while the offset is below the word
    count, where step = size - overlap. Each window is joined back with ' '. */
module Chunker {
  import opened Text

  function Min(a: int, b: int): int { if a <= b then a else b }
  function Max(a: int, b: int): int { if a <= b then b else a }

  /** ceil(m / d) for d > 0. */
  function CeilDiv(m: nat, d: int): nat
    requires d > 0
  {
    (m + d - 1) / d
  }

  /** The words of a text, as `explode(' ', text)`. */
  function Words(text: string): (words: seq<string>)
    ensures |words| >= 1 && Separable(words, ' ')
  {
    SplitSeparated(text, ' ');
    Split(text, ' ')
  }

  /** PHP's `array_slice(words, offset, length)` for a non-negative offset: a
      non-negative `length` takes at most that many words, a negative one stops
      that many words before the end, and an offset past the end gives nothing. */
  function Slice(words: seq<string>, offset: nat, length: int): (r: seq<string>)
    ensures length >= 0 ==> |r| <= length
    ensures offset < |words| && length >= 1 ==> |r| >= 1
  {
    var lo := Min(offset, |words|);
    var hi := if length >= 0 then Min(lo + length, |words|) else Max(lo, |words| + length);
    words[lo..hi]
  }

  /** The offsets `$i` takes from i on: i, i + step, i + 2 * step, ... while
      below n. */
  function Offsets(n: nat, i: nat, step: nat): seq<nat>
    requires step > 0
    decreases n - i
  {
    if i >= n then [] else [i] + Offsets(n, i + step, step)
  }

  /** The chunk the loop body makes at each of the given offsets. */
  function ChunksAt(words: seq<string>, offsets: seq<nat>, size: int): seq<string>
  {
    seq(|offsets|, k requires 0 <= k < |offsets| => Join(Slice(words, offsets[k], size), ' '))
  }

  /** All chunks of a word sequence: one per offset the loop visits. */
  function Chunks(words: seq<string>, size: int, overlap: int): seq<string>
    requires overlap < size
  {
    ChunksAt(words, Offsets(|words|, 0, size - overlap), size)
  }

  /** Chunks at one offset and then at more. */
  lemma ChunksAtCons(words: seq<string>, o: nat, os: seq<nat>, size: int)
    ensures ChunksAt(words, [o] + os, size) == [Join(Slice(words, o, size), ' ')] + ChunksAt(words, os, size)
  {
    var l, r := ChunksAt(words, [o] + os, size), [Join(Slice(words, o, size), ' ')] + ChunksAt(words, os, size);
    forall k | 0 <= k < |l|
      ensures l[k] == r[k]
    {
      if k > 0 {
        assert ([o] + os)[k] == os[k - 1];
      }
    }
  }

  /** The start offset of window k, k * step, written as repeated addition
      (StartIsProduct relates the two). */
  function Start(k: nat, step: nat): nat
  {
    if k == 0 then 0 else Start(k - 1, step) + step
  }

  lemma {:induction false} StartIsProduct(k: nat, step: nat)
    ensures Start(k, step) == k * step
  {
    if k > 0 {
      StartIsProduct(k - 1, step);
      assert (k - 1) * step + step == k * step;
    }
  }

  lemma {:induction false} StartMonotonic(k: nat, k': nat, step: nat)
    requires k <= k'
    ensures Start(k, step) <= Start(k', step)
    decreases k'
  {
    if k < k' {
      StartMonotonic(k, k' - 1, step);
    }
  }

  /** The words of window k: those from offset k * step on, at most `size` of them. */
  function Window(words: seq<string>, k: nat, size: int, overlap: int): seq<string>
    requires overlap < size
  {
    Slice(words, Start(k, size - overlap), size)
  }

  /** `chunkText(text, chunkSize, overlap)`: the loop itself. It only stops
      when the step is positive, so `overlap < chunkSize` is required. */
  method ChunkText(text: string, chunkSize: int, overlap: int) returns (chunks: seq<string>)
    requires overlap < chunkSize
    ensures chunks == Chunks(Words(text), chunkSize, overlap)
  {
    var words := Split(text, ' ');
    chunks := [];
    var i: nat := 0;
    while i < |words|
      invariant chunks + ChunksAt(words, Offsets(|words|, i, chunkSize - overlap), chunkSize)
                == Chunks(words, chunkSize, overlap)
      decreases |words| - i
    {
      var chunk := Slice(words, i, chunkSize);
      var later := Offsets(|words|, i + (chunkSize - overlap), chunkSize - overlap);
      ChunksAtCons(words, i, later, chunkSize);
      SeqAssoc(chunks, [Join(chunk, ' ')], ChunksAt(words, later, chunkSize));
      chunks := chunks + [Join(chunk, ' ')];
      i := i + (chunkSize - overlap);
    }
    assert ChunksAt(words, [], chunkSize) == [];
    assert chunks + [] == chunks;
  }

  // ---------------------------------------------------------------------------
  // The number of chunks

  /** From offset i the loop visits c offsets exactly when c is the least
      count whose next offset reaches past the last word. */
  lemma {:induction false} OffsetsCount(n: nat, i: nat, step: nat)
    requires step > 0
    ensures var c := |Offsets(n, i, step)|;
      if i >= n then c == 0
      else c >= 1 && i + Start(c - 1, step) < n <= i + Start(c, step)
    decreases n - i
  {
    if i < n {
      OffsetsCount(n, i + step, step);
      var c' := |Offsets(n, i + step, step)|;
      assert |Offsets(n, i, step)| == c' + 1;
      if c' > 0 {
        assert Start(c', step) == Start(c' - 1, step) + step;
      }
    }
  }

  /** Integer division is determined by the bracketing multiples. */
  lemma DivUnique(x: nat, d: int, q: nat)
    requires d > 0 && q * d <= x < (q + 1) * d
    ensures x / d == q
  {
    var q' := x / d;
    DivBracket(x, d);
    assert (q + 1) * d == q * d + d && (q' + 1) * d == q' * d + d;
    MulLtCancel(q', q + 1, d);
    MulLtCancel(q, q' + 1, d);
  }

  lemma MulLtCancel(a: int, b: int, d: int)
    requires d > 0 && a * d < b * d
    ensures a < b
  {
  }

  /** The quotient's multiple brackets the dividend. */
  lemma DivBracket(x: nat, d: int)
    requires d > 0
    ensures (x / d) * d <= x < (x / d) * d + d
  {
  }

  /** c is ceil(n / d) when n lies above (c - 1) * d and at most c * d. */
  lemma CeilDivExact(n: nat, d: int, c: nat)
    requires d > 0 && c >= 1 && (c - 1) * d < n <= c * d
    ensures CeilDiv(n, d) == c
  {
    assert (c - 1) * d + d == c * d;
    assert (c + 1) * d == c * d + d;
    DivUnique(n + d - 1, d, c);
  }

  /** There are ceil(n / (size - overlap)) chunks of n words. */
  lemma ChunkCount(words: seq<string>, size: int, overlap: int)
    requires overlap < size
    ensures |Chunks(words, size, overlap)| == CeilDiv(|words|, size - overlap)
  {
    var step := size - overlap;
    var c := |Chunks(words, size, overlap)|;
    OffsetsCount(|words|, 0, step);
    if |words| == 0 {
      DivUnique(step - 1, step, 0);
    } else {
      StartIsProduct(c, step);
      StartIsProduct(c - 1, step);
      CeilDivExact(|words|, step, c);
    }
  }

  // ---------------------------------------------------------------------------
  // The chunks in closed form

  /** The k-th offset visited from i is i + k * step, and is below n. */
  lemma {:induction false} OffsetsAt(n: nat, i: nat, k: nat, step: nat)
    requires step > 0
    requires k < |Offsets(n, i, step)|
    ensures Offsets(n, i, step)[k] == i + Start(k, step) < n
    decreases k
  {
    assert i < n;
    if k > 0 {
      assert Offsets(n, i, step)[k] == Offsets(n, i + step, step)[k - 1];
      OffsetsAt(n, i + step, k - 1, step);
    }
  }

  /** Chunk k starts at word k * step and is the join of window k. */
  lemma ChunkAt(words: seq<string>, k: nat, size: int, overlap: int)
    requires overlap < size
    requires k < |Chunks(words, size, overlap)|
    ensures Start(k, size - overlap) < |words|
    ensures Chunks(words, size, overlap)[k] == Join(Window(words, k, size, overlap), ' ')
  {
    OffsetsAt(|words|, 0, k, size - overlap);
  }

  /** For a positive size, chunk k is `join(' ', words[k*step .. min(k*step+size, n)])`,
      and splitting it on ' ' again gives back exactly that slice, of between
      one and `size` words. */
  lemma ChunkWords(words: seq<string>, k: nat, size: int, overlap: int)
    requires overlap < size && size >= 1
    requires Separable(words, ' ')
    requires k < |Chunks(words, size, overlap)|
    ensures Start(k, size - overlap) == k * (size - overlap) < |words|
    ensures var start := Start(k, size - overlap);
      Window(words, k, size, overlap) == words[start..Min(start + size, |words|)]
    ensures Split(Chunks(words, size, overlap)[k], ' ') == Window(words, k, size, overlap)
    ensures 1 <= |Window(words, k, size, overlap)| <= size
  {
    ChunkAt(words, k, size, overlap);
    StartIsProduct(k, size - overlap);
    var w := Window(words, k, size, overlap);
    assert forall j :: 0 <= j < |w| ==> w[j] in words;
    SplitJoin(w, ' ');
  }

  /** Word j lies in the block of `step` words starting at (j / step) * step. */
  lemma InBlock(j: nat, step: int, k: nat, start: int)
    requires step > 0 && k == j / step && start == k * step
    ensures start <= j < start + step
  {
    DivBracket(j, step);
  }

  /** A window starting inside the words is one of the chunks. */
  lemma StartedWindowIsChunk(words: seq<string>, k: nat, size: int, overlap: int)
    requires overlap < size
    requires Start(k, size - overlap) < |words|
    ensures k < |Chunks(words, size, overlap)|
  {
    var c := |Chunks(words, size, overlap)|;
    OffsetsCount(|words|, 0, size - overlap);
    if k >= c {
      StartMonotonic(c, k, size - overlap);
      assert false;
    }
  }

  /** A window starting inside the words is the slice from its start to
      `size` words further or the end, whichever comes first. */
  lemma WindowSlice(words: seq<string>, k: nat, size: int, overlap: int)
    requires 0 <= overlap < size
    requires Start(k, size - overlap) < |words|
    ensures var start := Start(k, size - overlap);
      Window(words, k, size, overlap) == words[start..Min(start + size, |words|)]
  {
  }

  /** A word inside the block of `step` words that starts window k lies in
      window k, and that window is one of the chunks. */
  lemma CoveredBy(words: seq<string>, j: nat, k: nat, size: int, overlap: int)
    requires 0 <= overlap < size
    requires j < |words|
    requires Start(k, size - overlap) <= j < Start(k, size - overlap) + (size - overlap)
    ensures var start := Start(k, size - overlap);
      && k < |Chunks(words, size, overlap)|
      && start <= j < start + |Window(words, k, size, overlap)|
      && Window(words, k, size, overlap)[j - start] == words[j]
  {
    StartedWindowIsChunk(words, k, size, overlap);
    WindowSlice(words, k, size, overlap);
  }

  /** With a non-negative overlap, word j lies in chunk j / step. */
  lemma Coverage(words: seq<string>, j: nat, size: int, overlap: int)
    requires 0 <= overlap < size
    requires j < |words|
    ensures var k := j / (size - overlap); var start := Start(k, size - overlap);
      && k < |Chunks(words, size, overlap)|
      && start <= j < start + |Window(words, k, size, overlap)|
      && Window(words, k, size, overlap)[j - start] == words[j]
  {
    var step := size - overlap;
    var k := j / step;
    var start := Start(k, step);
    assert start <= j < start + step by {
      StartIsProduct(k, step);
      InBlock(j, step, k, start);
    }
    CoveredBy(words, j, k, size, overlap);
  }

  /** With a non-negative overlap, the last chunk ends at the last word. */
  lemma LastChunkEnds(words: seq<string>, size: int, overlap: int)
    requires 0 <= overlap < size
    requires |words| >= 1
    ensures var c := |Chunks(words, size, overlap)|;
      c >= 1 &&
      var start := Start(c - 1, size - overlap);
      start < |words| && Window(words, c - 1, size, overlap) == words[start..]
  {
    var step := size - overlap;
    var c := |Chunks(words, size, overlap)|;
    OffsetsCount(|words|, 0, step);
    assert Start(c, step) == Start(c - 1, step) + step;
  }

  /** When chunk k is full and another chunk follows, chunk k + 1 begins with
      the last `overlap` words of chunk k; there are at least `overlap` words
      left, so this is min(overlap, n - (k + 1) * step) of them. */
  lemma ChunkOverlap(words: seq<string>, k: nat, size: int, overlap: int)
    requires 0 <= overlap < size
    requires k + 1 < |Chunks(words, size, overlap)|
    requires Start(k, size - overlap) + size <= |words|
    ensures var m := Min(overlap, |words| - Start(k + 1, size - overlap));
      && m == overlap
      && |Window(words, k, size, overlap)| == size
      && m <= |Window(words, k + 1, size, overlap)|
      && Window(words, k + 1, size, overlap)[..m]
         == Window(words, k, size, overlap)[size - m..]
  {
    var step := size - overlap;
    var s := Start(k, step);
    assert Start(k + 1, step) < |words| by { ChunkAt(words, k + 1, size, overlap); }
    NextWindow(words, k, size, overlap);
    SharedWords(words, s, size, overlap);
  }

  /** Window k ends `overlap` words after window k + 1 starts: when window k
      is full, the two are plain slices of `words` that far apart. */
  lemma NextWindow(words: seq<string>, k: nat, size: int, overlap: int)
    requires 0 <= overlap < size
    requires Start(k + 1, size - overlap) < |words|
    requires Start(k, size - overlap) + size <= |words|
    ensures var s := Start(k, size - overlap); var t := s + (size - overlap);
      && Start(k + 1, size - overlap) == t
      && Min(overlap, |words| - t) == overlap
      && Window(words, k, size, overlap) == words[s..s + size]
      && Window(words, k + 1, size, overlap) == words[t..Min(t + size, |words|)]
  {
    WindowSlice(words, k, size, overlap);
    WindowSlice(words, k + 1, size, overlap);
  }

  /** Two slices of `size` words whose starts are `size - overlap` apart share
      `overlap` words: the end of the first is the start of the second. */
  lemma SharedWords(words: seq<string>, s: nat, size: int, overlap: int)
    requires 0 <= overlap < size
    requires s + size <= |words|
    ensures var t := s + (size - overlap); var b := words[t..Min(t + size, |words|)];
      && overlap <= |b|
      && b[..overlap] == words[s..s + size][size - overlap..]
  {
    var t := s + (size - overlap);
    assert words[s..s + size][size - overlap..] == words[t..s + size];
    assert words[t..Min(t + size, |words|)][..overlap] == words[t..t + overlap];
  }


  // ---------------------------------------------------------------------------
  // Reassembly: dropping the shared words puts the text back together

  /** Remove the first m elements, or all of them when there are fewer. */
  function Drop(s: seq<string>, m: nat): seq<string>
  {
    if m <= |s| then s[m..] else []
  }

  /** The first window whole, then each later window without its first `overlap` words. */
  function Stitch(ws: seq<seq<string>>, overlap: nat): seq<string>
  {
    if ws == [] then []
    else if |ws| == 1 then ws[0]
    else Stitch(ws[..|ws| - 1], overlap) + Drop(ws[|ws| - 1], overlap)
  }

  /** The windows of all chunks, in order. */
  function Windows(words: seq<string>, size: int, overlap: int): seq<seq<string>>
    requires overlap < size
  {
    seq(|Chunks(words, size, overlap)|, k requires 0 <= k => Window(words, k, size, overlap))
  }

  /** The end offset of window k. */
  function WindowEnd(n: nat, k: nat, size: int, overlap: int): nat
    requires 0 <= overlap < size
  {
    Min(Start(k, size - overlap) + size, n)
  }

  /** Appending a window whose tail continues the stitched prefix extends it. */
  lemma StitchSnoc(ws: seq<seq<string>>, w: seq<string>, overlap: nat, words: seq<string>, prev: nat, end: nat)
    requires ws != []
    requires prev <= end <= |words|
    requires Stitch(ws, overlap) == words[..prev]
    requires Drop(w, overlap) == words[prev..end]
    ensures Stitch(ws + [w], overlap) == words[..end]
  {
    assert (ws + [w])[..|ws|] == ws;
    assert words[..prev] + words[prev..end] == words[..end];
  }

  /** Window k without its first `overlap` words is the stretch between the
      ends of windows k - 1 and k. */
  lemma WindowTail(words: seq<string>, k: nat, size: int, overlap: int)
    requires 0 <= overlap < size
    requires 1 <= k && Start(k, size - overlap) < |words|
    ensures var prev := WindowEnd(|words|, k - 1, size, overlap);
      var end := WindowEnd(|words|, k, size, overlap);
      0 <= prev <= end <= |words| &&
      Drop(Window(words, k, size, overlap), overlap) == words[prev..end]
  {
    var n := |words|;
    var start := Start(k, size - overlap);
    assert start == Start(k - 1, size - overlap) + (size - overlap);
    var end := WindowEnd(n, k, size, overlap);
    var w := Window(words, k, size, overlap);
    assert w == words[start..end];
  }

  /** Windows whose overlap-free tails are consecutive stretches of `words`,
      the first window whole and each one ending at the next offset of
      `ends`. */
  predicate Tiles(ws: seq<seq<string>>, ends: seq<nat>, words: seq<string>, overlap: nat)
  {
    && 1 <= |ws| == |ends|
    && ends[0] <= |words| && ws[0] == words[..ends[0]]
    && forall k :: 1 <= k < |ws| ==>
         ends[k - 1] <= ends[k] <= |words| && Drop(ws[k], overlap) == words[ends[k - 1]..ends[k]]
  }

  /** Tiling windows stitch, m at a time, to the words up to the end of the
      m-th of them. */
  lemma {:induction false} StitchAll(ws: seq<seq<string>>, ends: seq<nat>, words: seq<string>, overlap: nat, m: nat)
    requires Tiles(ws, ends, words, overlap)
    requires 1 <= m <= |ws|
    ensures Stitch(ws[..m], overlap) == words[..ends[m - 1]]
    decreases m
  {
    if m == 1 {
      assert ws[..1] == [ws[0]];
    } else {
      StitchAll(ws, ends, words, overlap, m - 1);
      assert ws[..m] == ws[..m - 1] + [ws[m - 1]];
      StitchSnoc(ws[..m - 1], ws[m - 1], overlap, words, ends[m - 2], ends[m - 1]);
    }
  }

  /** The end offsets of all windows. */
  function Ends(words: seq<string>, size: int, overlap: int): seq<nat>
    requires 0 <= overlap < size
  {
    seq(|Chunks(words, size, overlap)|, k requires 0 <= k => WindowEnd(|words|, k, size, overlap))
  }

  /** The windows of a nonempty word sequence tile it. */
  lemma WindowsTile(words: seq<string>, size: int, overlap: int)
    requires 0 <= overlap < size && |words| >= 1
    ensures Tiles(Windows(words, size, overlap), Ends(words, size, overlap), words, overlap)
  {
    var n := |words|;
    var ws, ends := Windows(words, size, overlap), Ends(words, size, overlap);
    assert Start(0, size - overlap) < n by { ChunkAt(words, 0, size, overlap); }
    forall k | 1 <= k < |ws|
      ensures ends[k - 1] <= ends[k] <= n && Drop(ws[k], overlap) == words[ends[k - 1]..ends[k]]
    {
      assert Start(k, size - overlap) < n by { ChunkAt(words, k, size, overlap); }
      WindowTail(words, k, size, overlap);
    }
    assert ws[0] == words[..ends[0]];
  }

  /** The first window, followed by every later window without its first
      `overlap` words, is exactly the word sequence. */
  lemma Reassemble(words: seq<string>, size: int, overlap: int)
    requires 0 <= overlap < size
    ensures Stitch(Windows(words, size, overlap), overlap) == words
  {
    var n := |words|;
    var ws := Windows(words, size, overlap);
    OffsetsCount(n, 0, size - overlap);
    if n > 0 {
      var c := |ws|;
      LastChunkEnds(words, size, overlap);
      WindowsTile(words, size, overlap);
      StitchAll(ws, Ends(words, size, overlap), words, overlap, c);
      assert ws[..c] == ws;
    }
  }

  /** Each chunk split back into its words. */
  function SplitEach(chunks: seq<string>): (r: seq<seq<string>>)
    ensures |r| == |chunks|
    ensures forall k :: 0 <= k < |r| ==> r[k] == Split(chunks[k], ' ')
  {
    seq(|chunks|, k requires 0 <= k < |chunks| => Split(chunks[k], ' '))
  }

  /** Splitting every chunk of a text, stitching the windows with the overlap
      removed and joining with ' ' restores the text. */
  lemma ReassembleText(text: string, size: int, overlap: int)
    requires 0 <= overlap < size
    ensures Join(Stitch(SplitEach(Chunks(Words(text), size, overlap)), overlap), ' ') == text
  {
    var words := Words(text);
    var chunks := Chunks(words, size, overlap);
    forall k | 0 <= k < |chunks|
      ensures SplitEach(chunks)[k] == Windows(words, size, overlap)[k]
    {
      ChunkWords(words, k, size, overlap);
    }
    assert SplitEach(chunks) == Windows(words, size, overlap);
    Reassemble(words, size, overlap);
    JoinSplit(text, ' ');
  }

  // ---------------------------------------------------------------------------
  // Edge cases

  /** Even the empty text yields exactly one chunk, the empty string. */
  lemma EmptyTextOneChunk(size: int, overlap: int)
    requires overlap < size
    ensures Chunks(Words(""), size, overlap) == [""]
  {
    assert Words("") == [""];
    assert Slice([""], 0, size) == [] || Slice([""], 0, size) == [""];
  }

  /** "A B C" with two-word windows overlapping by one: the loop also emits a
      last chunk made only of a word the chunk before it already holds. */
  lemma ThreeWordsExample()
    ensures Chunks(Words("A B C"), 2, 1) == ["A B", "B C", "C"]
  {
    ThreeWords();
    ThreeWordsChunks();
  }

  lemma ThreeWords()
    ensures Words("A B C") == ["A", "B", "C"]
  {
    var words := ["A", "B", "C"];
    assert Join(words, ' ') == "A B C" by {
      assert words[1..] == ["B", "C"] && ["B", "C"][1..] == ["C"];
    }
    assert Separable(words, ' ');
    SplitJoin(words, ' ');
  }

  lemma ThreeWordsChunks()
    ensures Chunks(["A", "B", "C"], 2, 1) == ["A B", "B C", "C"]
  {
    var words := ["A", "B", "C"];
    assert Offsets(3, 0, 1) == [0, 1, 2] by {
      assert Offsets(3, 3, 1) == [];
      assert Offsets(3, 2, 1) == [2];
      assert Offsets(3, 1, 1) == [1, 2];
    }
    var chunks := ChunksAt(words, [0, 1, 2], 2);
    assert chunks[0] == "A B" by {
      assert Slice(words, 0, 2) == ["A", "B"];
      assert ["A", "B"][1..] == ["B"];
    }
    assert chunks[1] == "B C" by {
      assert Slice(words, 1, 2) == ["B", "C"];
      assert ["B", "C"][1..] == ["C"];
    }
    assert chunks[2] == "C" by {
      assert Slice(words, 2, 2) == ["C"];
    }
  }
}
