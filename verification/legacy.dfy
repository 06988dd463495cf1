/** The word chunker of the desktop front end (`split_by_size` and `process_large_texts` of
    `main.py`) and its row mode. Unlike the sentence packer of the fragmentation service, it
    cuts the word list of each text into consecutive runs of `target` words, and keeps the
    shorter run left at the end only when it has at least `tolerance` words. */
module LegacyChunker {
  import opened Seqs
  import opened PyText

  // ---------------------------------------------------------------------------
  // The generator loop
  // ---------------------------------------------------------------------------

  /** The chunk the generator yields after the loop: the buffer, when it is non-empty and
      holds at least `tolerance` words. */
  function Leftover(buffer: seq<string>, tolerance: int): seq<seq<string>>
  {
    if buffer != [] && |buffer| >= tolerance then [buffer] else []
  }

  /** The `for word in text_iterable` loop of `split_by_size` from the state `buffer`, with
      `rest` still to read, including the final yield. A word joins the buffer; a buffer
      that has reached `target` words is yielded and emptied. */
  function Chunks(rest: seq<string>, buffer: seq<string>, target: int, tolerance: int): seq<seq<string>>
    decreases |rest|
  {
    if rest == [] then Leftover(buffer, tolerance)
    else
      var b := buffer + [rest[0]];
      if |b| >= target then [b] + Chunks(rest[1..], [], target, tolerance)
      else Chunks(rest[1..], b, target, tolerance)
  }

  /** The generator on a word list; `if not text_iterable: return` yields nothing for an
      empty list. */
  function WordChunks(words: seq<string>, target: int, tolerance: int): seq<seq<string>>
  {
    if words == [] then [] else Chunks(words, [], target, tolerance)
  }

  /** The strings the generator yields: each chunk joined by single spaces. */
  function JoinChunks(chunks: seq<seq<string>>): (r: seq<string>)
    ensures |r| == |chunks|
    ensures forall k :: 0 <= k < |r| ==> r[k] == JoinWith(" ", chunks[k])
  {
    if chunks == [] then [] else [JoinWith(" ", chunks[0])] + JoinChunks(chunks[1..])
  }

  /** `list(split_by_size(words, target, tolerance))`. */
  function LegacySplitBySize(words: seq<string>, target: int, tolerance: int): seq<string>
  {
    JoinChunks(WordChunks(words, target, tolerance))
  }

  // ---------------------------------------------------------------------------
  // Reference definition: fixed-size blocks and a remainder
  // ---------------------------------------------------------------------------

  /** The number of words in a full chunk: `target`, or one when `target` is not positive
      (a buffer of one word already has `len(buffer) >= target`). */
  function BlockSize(target: int): (n: nat)
    ensures n >= 1 && n >= target
    ensures target >= 1 ==> n == target
  {
    if target <= 0 then 1 else target
  }

  /** The consecutive runs of exactly `n` words at the front of `words`. */
  function Blocks(words: seq<string>, n: nat): seq<seq<string>>
    requires n >= 1
    decreases |words|
  {
    if |words| < n then [] else [words[..n]] + Blocks(words[n..], n)
  }

  /** The words after the last full block. */
  function Remainder(words: seq<string>, n: nat): seq<string>
    requires n >= 1
    decreases |words|
  {
    if |words| < n then words else Remainder(words[n..], n)
  }

  /** The blocks and the remainder partition the words: every block has exactly `n` words
      and the remainder is shorter than a block, so the number of blocks and the length of
      the remainder are the quotient and the remainder of `|words|` by `n`. */
  lemma {:induction false} BlocksPartition(words: seq<string>, n: nat)
    requires n >= 1
    ensures Flatten(Blocks(words, n)) + Remainder(words, n) == words
    ensures forall k :: 0 <= k < |Blocks(words, n)| ==> |Blocks(words, n)[k]| == n
    ensures |words| == |Blocks(words, n)| * n + |Remainder(words, n)|
    ensures |Remainder(words, n)| < n
    decreases |words|
  {
    if |words| >= n {
      var tail := words[n..];
      BlocksPartition(tail, n);
      assert Flatten(Blocks(words, n)) == words[..n] + Flatten(Blocks(tail, n));
      assert words == words[..n] + tail;
      var c := |Blocks(tail, n)|;
      assert |Blocks(words, n)| == c + 1;
      MulSucc(c, n);
    }
  }

  lemma MulSucc(c: nat, n: nat)
    ensures (c + 1) * n == n + c * n
  {
  }

  // ---------------------------------------------------------------------------
  // The loop computes the reference
  // ---------------------------------------------------------------------------

  /** From a buffer short of a block, the loop fills the buffer up to exactly one block and
      yields it, then continues from an empty buffer. */
  lemma {:induction false} ChunksFill(rest: seq<string>, buffer: seq<string>, target: int, tolerance: int)
    requires |buffer| < BlockSize(target) <= |buffer| + |rest|
    ensures var k := BlockSize(target) - |buffer|;
      Chunks(rest, buffer, target, tolerance)
        == [buffer + rest[..k]] + Chunks(rest[k..], [], target, tolerance)
    decreases |rest|
  {
    var n := BlockSize(target);
    var k := n - |buffer|;
    var b := buffer + [rest[0]];
    if k == 1 {
      assert rest[..1] == [rest[0]];
    } else {
      ChunksFill(rest[1..], b, target, tolerance);
      assert b + rest[1..][..k - 1] == buffer + rest[..k];
      assert rest[1..][k - 1..] == rest[k..];
    }
  }

  /** From a buffer that the remaining words cannot complete, the loop only collects them
      and yields what `Leftover` keeps. */
  lemma {:induction false} ChunksDrain(rest: seq<string>, buffer: seq<string>, target: int, tolerance: int)
    requires |buffer| + |rest| < BlockSize(target)
    ensures Chunks(rest, buffer, target, tolerance) == Leftover(buffer + rest, tolerance)
    decreases |rest|
  {
    if rest == [] {
      assert buffer + rest == buffer;
    } else {
      var b := buffer + [rest[0]];
      ChunksDrain(rest[1..], b, target, tolerance);
      assert b + rest[1..] == buffer + rest;
    }
  }

  /** The loop from an empty buffer yields the full blocks and then the kept remainder. */
  lemma {:induction false} ChunksAreBlocks(words: seq<string>, target: int, tolerance: int)
    ensures var n := BlockSize(target);
      Chunks(words, [], target, tolerance) == Blocks(words, n) + Leftover(Remainder(words, n), tolerance)
    decreases |words|
  {
    var n := BlockSize(target);
    if |words| < n {
      ChunksDrain(words, [], target, tolerance);
      assert [] + words == words;
    } else {
      ChunksFill(words, [], target, tolerance);
      assert [] + words[..n] == words[..n];
      ChunksAreBlocks(words[n..], target, tolerance);
    }
  }

  /** `split_by_size` on a word list, as blocks: every chunk but a possible last one holds
      exactly `n = max(target, 1)` consecutive words, there are `len(words) // n` of those,
      the last one is the remainder of `len(words) mod n` words and is yielded exactly when
      it is non-empty and has at least `tolerance` words, and the chunks are the words in
      order. */
  lemma WordChunksShape(words: seq<string>, target: int, tolerance: int)
    ensures var n := BlockSize(target);
            var cs := WordChunks(words, target, tolerance);
            var rem := Remainder(words, n);
            var kept := rem != [] && |rem| >= tolerance;
      && cs == Blocks(words, n) + Leftover(rem, tolerance)
      && |cs| == |Blocks(words, n)| + (if kept then 1 else 0)
      && (forall k :: 0 <= k < |Blocks(words, n)| ==> |cs[k]| == n)
      && |words| == |Blocks(words, n)| * n + |rem| && |rem| < n
      && (kept ==> Flatten(cs) == words)
      && (!kept ==> Flatten(cs) + rem == words)
  {
    var n := BlockSize(target);
    var rem := Remainder(words, n);
    BlocksPartition(words, n);
    if words != [] {
      ChunksAreBlocks(words, target, tolerance);
    }
    FlattenAppend(Blocks(words, n), Leftover(rem, tolerance));
    if rem != [] && |rem| >= tolerance {
      assert Flatten([rem]) == rem + Flatten([]);
    }
  }

  /** No word is lost except a short tail: the words of the chunks, in order, are a prefix
      of the word list, and the words left over are fewer than a block and fewer than
      `tolerance`. */
  lemma DroppedTail(words: seq<string>, target: int, tolerance: int)
    ensures var all := Flatten(WordChunks(words, target, tolerance));
      && |all| <= |words| && all == words[..|all|]
      && (|all| < |words| ==> |words| - |all| < BlockSize(target) && |words| - |all| < tolerance)
  {
    WordChunksShape(words, target, tolerance);
    var n := BlockSize(target);
    var rem := Remainder(words, n);
    var all := Flatten(WordChunks(words, target, tolerance));
    if !(rem != [] && |rem| >= tolerance) {
      assert all + rem == words;
      assert words[..|all|] == all;
    } else {
      assert words[..|all|] == words;
    }
  }

  /** Round trip: splitting a yielded string on whitespace gives back its chunk of words,
      so the chunker neither merges nor breaks words. */
  lemma JoinedChunkWords(text: string, target: int, tolerance: int, k: nat)
    requires k < |WordChunks(Words(text), target, tolerance)|
    ensures Words(LegacySplitBySize(Words(text), target, tolerance)[k]) == WordChunks(Words(text), target, tolerance)[k]
  {
    var words := Words(text);
    var cs := WordChunks(words, target, tolerance);
    WordChunksShape(words, target, tolerance);
    ChunksAreWords(words, target, tolerance);
    SplitJoinedWords(cs[k]);
  }

  /** Chunks of words are made of words. */
  lemma ChunksAreWords(words: seq<string>, target: int, tolerance: int)
    requires forall i :: 0 <= i < |words| ==> IsWord(words[i])
    ensures var cs := WordChunks(words, target, tolerance);
      forall k, i :: 0 <= k < |cs| && 0 <= i < |cs[k]| ==> IsWord(cs[k][i])
  {
    var cs := WordChunks(words, target, tolerance);
    DroppedTail(words, target, tolerance);
    var all := Flatten(cs);
    forall k, i | 0 <= k < |cs| && 0 <= i < |cs[k]|
      ensures IsWord(cs[k][i])
    {
      var j := FlattenMember(cs, k, i);
      assert all[j] == words[..|all|][j];
    }
  }

  /** An element of a member of `xss` is an element of its flattening, at a known offset. */
  lemma {:induction false} FlattenMember<T>(xss: seq<seq<T>>, k: nat, i: nat) returns (j: nat)
    requires k < |xss| && i < |xss[k]|
    ensures j < |Flatten(xss)| && Flatten(xss)[j] == xss[k][i]
    decreases k
  {
    if k == 0 {
      j := i;
    } else {
      var j' := FlattenMember(xss[1..], k - 1, i);
      j := |xss[0]| + j';
    }
  }

  // ---------------------------------------------------------------------------
  // Batch and row modes of the front end
  // ---------------------------------------------------------------------------

  /** `fragment_text(text)`: the chunker on `text.split()`. */
  function ChunkText(text: string, target: int, tolerance: int): seq<string>
  {
    LegacySplitBySize(Words(text), target, tolerance)
  }

  /** `process_large_texts`: the chunks of every text, texts in input order
      (`executor.map` keeps the order of its inputs), flattened. */
  function LegacyProcessLargeTexts(texts: seq<string>, target: int, tolerance: int): seq<string>
  {
    if texts == [] then [] else ChunkText(texts[0], target, tolerance) + LegacyProcessLargeTexts(texts[1..], target, tolerance)
  }

  /** The batch is the concatenation of the per-text results: one text's chunks never
      depend on another text. */
  lemma {:induction false} LegacyBatchAppend(a: seq<string>, b: seq<string>, target: int, tolerance: int)
    ensures LegacyProcessLargeTexts(a + b, target, tolerance)
         == LegacyProcessLargeTexts(a, target, tolerance) + LegacyProcessLargeTexts(b, target, tolerance)
    decreases |a|
  {
    if a != [] {
      assert (a + b)[1..] == a[1..] + b;
      LegacyBatchAppend(a[1..], b, target, tolerance);
    } else {
      assert a + b == b;
    }
  }

  /** `list(chain.from_iterable(text.splitlines() for text in selected_texts))`. */
  function LegacyRowSplit(texts: seq<string>): seq<string>
  {
    if texts == [] then [] else SplitLines(texts[0]) + LegacyRowSplit(texts[1..])
  }

  /** Row mode keeps every line, blank ones included, and so every word: the batch holds
      the words of all texts, and it is the concatenation of the per-text results. */
  lemma {:induction false} LegacyRowSplitFacts(a: seq<string>, b: seq<string>)
    ensures LegacyRowSplit(a + b) == LegacyRowSplit(a) + LegacyRowSplit(b)
    ensures SumWordCounts(LegacyRowSplit(a)) == SumWordCounts(a)
    decreases |a|
  {
    if a != [] {
      assert (a + b)[1..] == a[1..] + b;
      LegacyRowSplitFacts(a[1..], b);
      LinesKeepWords(a[0]);
      SumWordCountsAppend(SplitLines(a[0]), LegacyRowSplit(a[1..]));
      assert a == [a[0]] + a[1..];
      SumWordCountsAppend([a[0]], a[1..]);
    } else {
      assert a + b == b;
    }
  }

  /** A word count a size-mode chunk can have: a full block, or a non-empty shorter tail of
      at least `tolerance` words. */
  predicate ChunkSize(count: int, target: int, tolerance: int)
  {
    count == BlockSize(target) || (0 < count < BlockSize(target) && count >= tolerance)
  }

  /** Every string of `r` has a word count a size-mode chunk can have. */
  predicate ChunkSized(r: seq<string>, target: int, tolerance: int)
  {
    forall k :: 0 <= k < |r| ==> ChunkSize(WordCount(r[k]), target, tolerance)
  }

  /** Every string the chunker yields for one text has a full block of words, or is the
      kept tail. */
  lemma TextChunkSizes(text: string, target: int, tolerance: int)
    ensures ChunkSized(ChunkText(text, target, tolerance), target, tolerance)
  {
    var words := Words(text);
    var cs := WordChunks(words, target, tolerance);
    var r := ChunkText(text, target, tolerance);
    var n := BlockSize(target);
    WordChunksShape(words, target, tolerance);
    forall k | 0 <= k < |r|
      ensures ChunkSize(WordCount(r[k]), target, tolerance)
    {
      JoinedChunkWords(text, target, tolerance, k);
      if k >= |Blocks(words, n)| {
        assert cs[k] == Leftover(Remainder(words, n), tolerance)[k - |Blocks(words, n)|];
      }
    }
  }

  /** The same for the whole batch. */
  lemma {:induction false} BatchChunkSizes(texts: seq<string>, target: int, tolerance: int)
    ensures ChunkSized(LegacyProcessLargeTexts(texts, target, tolerance), target, tolerance)
    decreases |texts|
  {
    if texts != [] {
      var c := ChunkText(texts[0], target, tolerance);
      var rest := LegacyProcessLargeTexts(texts[1..], target, tolerance);
      TextChunkSizes(texts[0], target, tolerance);
      BatchChunkSizes(texts[1..], target, tolerance);
      var r := c + rest;
      forall k | 0 <= k < |r|
        ensures ChunkSize(WordCount(r[k]), target, tolerance)
      {
        if k >= |c| {
          assert r[k] == rest[k - |c|];
        } else {
          assert r[k] == c[k];
        }
      }
      assert r == LegacyProcessLargeTexts(texts, target, tolerance);
    }
  }

  /** `_fragment_texts_in_thread`: size mode when its switch is on, otherwise row mode when
      that switch is on, otherwise nothing. In size mode every fragment has a full block of
      words or is a kept tail; in row mode no word is lost. */
  function LegacyFragmentTexts(texts: seq<string>, sizeSplit: bool, rowSplit: bool, target: int, tolerance: int)
    : (r: seq<string>)
    ensures sizeSplit ==> ChunkSized(r, target, tolerance)
    ensures !sizeSplit && rowSplit ==> SumWordCounts(r) == SumWordCounts(texts)
    ensures !sizeSplit && !rowSplit ==> r == []
  {
    if sizeSplit then
      BatchChunkSizes(texts, target, tolerance);
      LegacyProcessLargeTexts(texts, target, tolerance)
    else if rowSplit then
      LegacyRowSplitFacts(texts, []);
      LegacyRowSplit(texts)
    else []
  }
}
