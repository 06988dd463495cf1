/** The fragmentation service (`FragmentationService` and the CLI `main`): size mode packs
    sentences greedily into fragments of at most `target + tolerance` words, row mode makes
    one fragment per non-blank line, and the batch entry point maps the chosen splitter
    over many texts and concatenates the results in input order. */
module Fragmentation {
  import opened Seqs
  import opened PyText
  import opened Segmenter
  import opened Results

  /** One output tuple `(fragment_text, is_successful, word_count)`. */
  datatype Fragment = Fragment(text: string, isSuccessful: bool, wordCount: nat)

  /** A flushed buffer of the size-mode loop: the sentences it held and `buffer_word_count`
      at the moment it was flushed. */
  datatype Group = Group(sentences: seq<string>, wordCount: nat)

  // ---------------------------------------------------------------------------
  // Size mode: the packing loop
  // ---------------------------------------------------------------------------

  /** Flushing the buffer emits it only when it is non-empty. */
  function Flush(buffer: seq<string>, count: nat): seq<Group>
  {
    if buffer == [] then [] else [Group(buffer, count)]
  }

  /** The `for sentence in sentences` loop of `split_by_size` from the state (`buffer`,
      `buffer_word_count` = `count`) with `rest` still to read, including the final flush.
      A sentence joins the buffer when the total stays within `maxWords`; otherwise the
      buffer is flushed and the sentence starts a new one, however long it is. */
  function Pack(rest: seq<string>, buffer: seq<string>, count: nat, maxWords: int): seq<Group>
    decreases |rest|
  {
    if rest == [] then Flush(buffer, count)
    else
      var w := WordCount(rest[0]);
      if count + w <= maxWords then Pack(rest[1..], buffer + [rest[0]], count + w, maxWords)
      else Flush(buffer, count) + Pack(rest[1..], [rest[0]], w, maxWords)
  }

  /** The sentence lists of the groups, in order. */
  function SentenceLists(gs: seq<Group>): (r: seq<seq<string>>)
    ensures |r| == |gs|
    ensures forall k :: 0 <= k < |gs| ==> r[k] == gs[k].sentences
  {
    if gs == [] then [] else [gs[0].sentences] + SentenceLists(gs[1..])
  }

  // ---------------------------------------------------------------------------
  // Size mode: the declarative reading of the loop
  // ---------------------------------------------------------------------------

  /** A group fits when it is a single sentence (of any length) or stays within `maxWords`. */
  predicate Fits(group: seq<string>, maxWords: int)
  {
    |group| <= 1 || SumWordCounts(group) <= maxWords
  }

  /** The next group's first sentence would not have fitted into `group`. */
  predicate Overflows(group: seq<string>, next: seq<string>, maxWords: int)
  {
    next != [] && SumWordCounts(group) + WordCount(next[0]) > maxWords
  }

  /** A greedy packing of `sentences`: the groups are non-empty, contiguous and in order,
      each fits, and each group is maximal (the next sentence would overflow it). */
  ghost predicate IsGreedyPacking(groups: seq<seq<string>>, sentences: seq<string>, maxWords: int)
  {
    && Flatten(groups) == sentences
    && (forall k :: 0 <= k < |groups| ==> groups[k] != [] && Fits(groups[k], maxWords))
    && (forall k :: 0 <= k < |groups| - 1 ==> Overflows(groups[k], groups[k + 1], maxWords))
  }

  /** A flushed group is non-empty, fits, and carries its own word total. */
  predicate GoodGroup(g: Group, maxWords: int)
  {
    g.sentences != [] && g.wordCount == SumWordCounts(g.sentences) && Fits(g.sentences, maxWords)
  }

  /** Consecutive flushed groups: the second one's first sentence overflowed the first. */
  predicate CutBetween(g: Group, h: Group, maxWords: int)
  {
    h.sentences != [] && g.wordCount + WordCount(h.sentences[0]) > maxWords
  }

  /** Groups in a row: each is good, and each is cut where the next one's first sentence
      overflowed it. */
  predicate GoodChain(gs: seq<Group>, maxWords: int)
  {
    && (forall k :: 0 <= k < |gs| ==> GoodGroup(gs[k], maxWords))
    && (forall k :: 0 <= k < |gs| - 1 ==> CutBetween(gs[k], gs[k + 1], maxWords))
  }

  /** A good group followed by a chain it overflowed into is again a chain. */
  lemma ConsGroup(g: Group, tail: seq<Group>, maxWords: int)
    requires GoodGroup(g, maxWords) && GoodChain(tail, maxWords)
    requires tail != [] && CutBetween(g, tail[0], maxWords)
    ensures GoodChain([g] + tail, maxWords)
    ensures Flatten(SentenceLists([g] + tail)) == g.sentences + Flatten(SentenceLists(tail))
  {
    var gs := [g] + tail;
    assert SentenceLists(gs) == [g.sentences] + SentenceLists(tail);
    forall k | 0 < k < |gs|
      ensures gs[k] == tail[k - 1]
    {
    }
  }

  /** The loop emits exactly the buffer and the unread sentences, in order, and its first
      group extends a non-empty buffer. */
  lemma {:induction false} PackKeepsOrder(rest: seq<string>, buffer: seq<string>, count: nat, maxWords: int)
    ensures var gs := Pack(rest, buffer, count, maxWords);
      && Flatten(SentenceLists(gs)) == buffer + rest
      && (buffer != [] ==> gs != [] && buffer <= gs[0].sentences)
    decreases |rest|
  {
    if rest == [] {
      if buffer != [] {
        var gs := [Group(buffer, count)];
        assert Flatten(SentenceLists(gs)) == buffer + Flatten([]);
      }
      assert buffer + rest == buffer;
    } else {
      var s := rest[0];
      var w := WordCount(s);
      assert rest == [s] + rest[1..];
      if count + w <= maxWords {
        PackKeepsOrder(rest[1..], buffer + [s], count + w, maxWords);
        assert Pack(rest, buffer, count, maxWords) == Pack(rest[1..], buffer + [s], count + w, maxWords);
        assert buffer + [s] + rest[1..] == buffer + rest;
        assert buffer <= buffer + [s];
      } else {
        PackKeepsOrder(rest[1..], [s], w, maxWords);
        var tail := Pack(rest[1..], [s], w, maxWords);
        if buffer != [] {
          var gs := [Group(buffer, count)] + tail;
          assert Pack(rest, buffer, count, maxWords) == gs;
          assert SentenceLists(gs) == [buffer] + SentenceLists(tail);
        } else {
          assert Pack(rest, buffer, count, maxWords) == tail;
          assert buffer + rest == rest;
        }
      }
    }
  }

  /** The loop invariant of `split_by_size`, stated for every state the loop can be in:
      `buffer_word_count` is the buffer's word total and the buffer fits. From such a state
      the loop emits exactly the buffer and the unread sentences, in order, as good groups
      each cut where the next sentence overflowed it, the first one extending the buffer. */
  lemma {:induction false} PackInvariant(rest: seq<string>, buffer: seq<string>, count: nat, maxWords: int)
    requires count == SumWordCounts(buffer) && Fits(buffer, maxWords)
    ensures var gs := Pack(rest, buffer, count, maxWords);
      && Flatten(SentenceLists(gs)) == buffer + rest
      && GoodChain(gs, maxWords)
      && (buffer != [] ==> gs != [] && buffer <= gs[0].sentences)
    decreases |rest|
  {
    PackKeepsOrder(rest, buffer, count, maxWords);
    if rest != [] {
      var s := rest[0];
      var w := WordCount(s);
      SumWordCountsAppend(buffer, [s]);
      if count + w <= maxWords {
        PackInvariant(rest[1..], buffer + [s], count + w, maxWords);
        assert Pack(rest, buffer, count, maxWords) == Pack(rest[1..], buffer + [s], count + w, maxWords);
      } else {
        assert SumWordCounts([s]) == w;
        PackInvariant(rest[1..], [s], w, maxWords);
        var tail := Pack(rest[1..], [s], w, maxWords);
        assert tail[0].sentences[0] == s;
        if buffer != [] {
          ConsGroup(Group(buffer, count), tail, maxWords);
          assert Pack(rest, buffer, count, maxWords) == [Group(buffer, count)] + tail;
        } else {
          assert Pack(rest, buffer, count, maxWords) == tail;
        }
      }
    }
  }

  /** Existence: the loop, started empty, computes a greedy packing of the sentences, and
      each group's count is its word total. */
  lemma PackIsGreedy(sentences: seq<string>, maxWords: int)
    ensures var gs := Pack(sentences, [], 0, maxWords);
      && IsGreedyPacking(SentenceLists(gs), sentences, maxWords)
      && (forall k :: 0 <= k < |gs| ==> gs[k].wordCount == SumWordCounts(gs[k].sentences))
  {
    PackInvariant(sentences, [], 0, maxWords);
    var gs := Pack(sentences, [], 0, maxWords);
    var groups := SentenceLists(gs);
    assert [] + sentences == sentences;
    forall k | 0 <= k < |groups| - 1
      ensures Overflows(groups[k], groups[k + 1], maxWords)
    {
      assert CutBetween(gs[k], gs[k + 1], maxWords);
    }
  }

  /** One iteration of the loop when the sentence fits into the buffer. */
  lemma PackAppends(s: string, rest: seq<string>, buffer: seq<string>, count: nat, maxWords: int)
    requires count + WordCount(s) <= maxWords
    ensures Pack([s] + rest, buffer, count, maxWords)
         == Pack(rest, buffer + [s], count + WordCount(s), maxWords)
  {
    assert ([s] + rest)[0] == s && ([s] + rest)[1..] == rest;
  }

  /** The first iteration of the loop: whichever branch is taken, the first sentence ends
      up alone in the buffer and nothing is emitted. */
  lemma PackStarts(s: string, rest: seq<string>, maxWords: int)
    ensures Pack([s] + rest, [], 0, maxWords) == Pack(rest, [s], WordCount(s), maxWords)
  {
    assert ([s] + rest)[0] == s && ([s] + rest)[1..] == rest;
    assert [] + [s] == [s];
    assert Flush([], 0) == [];
  }

  /** Sentences that all fit into the buffer join it one by one, and nothing is emitted. */
  lemma {:induction false} PackLoads(g: seq<string>, rest: seq<string>, buffer: seq<string>, count: nat, maxWords: int)
    requires count + SumWordCounts(g) <= maxWords
    ensures Pack(g + rest, buffer, count, maxWords)
         == Pack(rest, buffer + g, count + SumWordCounts(g), maxWords)
    decreases |g|
  {
    if g == [] {
      assert g + rest == rest && buffer + g == buffer;
    } else {
      var s := g[0];
      var r2 := g[1..] + rest;
      assert g + rest == [s] + r2;
      PackAppends(s, r2, buffer, count, maxWords);
      PackLoads(g[1..], rest, buffer + [s], count + WordCount(s), maxWords);
      assert buffer + [s] + g[1..] == buffer + g;
    }
  }

  /** Reading a fitting group from an empty buffer leaves the loop with the whole group in
      its buffer: the first sentence always starts it, and the others fit. */
  lemma PackLoadsGroup(g: seq<string>, rest: seq<string>, maxWords: int)
    requires g != [] && Fits(g, maxWords)
    ensures Pack(g + rest, [], 0, maxWords) == Pack(rest, g, SumWordCounts(g), maxWords)
  {
    var s := g[0];
    assert g + rest == [s] + (g[1..] + rest);
    PackStarts(s, g[1..] + rest, maxWords);
    assert [s] + g[1..] == g;
    if |g| == 1 {
      assert g[1..] + rest == rest;
    } else {
      PackLoads(g[1..], rest, [s], WordCount(s), maxWords);
    }
  }

  /** A fitting group followed by a sentence that overflows it is emitted as one group, and
      the loop then carries on as if it had started afresh. */
  lemma PackAfterGroup(g: seq<string>, rest: seq<string>, maxWords: int)
    requires g != [] && Fits(g, maxWords)
    requires rest != [] ==> SumWordCounts(g) + WordCount(rest[0]) > maxWords
    ensures Pack(g + rest, [], 0, maxWords)
         == [Group(g, SumWordCounts(g))] + Pack(rest, [], 0, maxWords)
  {
    PackLoadsGroup(g, rest, maxWords);
    if rest == [] {
      assert Pack(rest, [], 0, maxWords) == [];
    } else {
      var s := rest[0];
      var w := WordCount(s);
      assert Pack(rest, g, SumWordCounts(g), maxWords)
          == [Group(g, SumWordCounts(g))] + Pack(rest[1..], [s], w, maxWords);
      assert rest == [s] + rest[1..];
      PackStarts(s, rest[1..], maxWords);
    }
  }

  /** Uniqueness: any greedy packing of the sentences is the one the loop computes. */
  lemma {:induction false} GreedyPackingUnique(groups: seq<seq<string>>, sentences: seq<string>, maxWords: int)
    requires IsGreedyPacking(groups, sentences, maxWords)
    ensures SentenceLists(Pack(sentences, [], 0, maxWords)) == groups
    decreases |groups|
  {
    if groups != [] {
      var g := groups[0];
      var tail := groups[1..];
      var rest := Flatten(tail);
      assert sentences == g + rest;
      assert IsGreedyPacking(tail, rest, maxWords) by {
        forall k | 0 <= k < |tail|
          ensures tail[k] != [] && Fits(tail[k], maxWords)
        {
          assert tail[k] == groups[k + 1];
        }
        forall k | 0 <= k < |tail| - 1
          ensures Overflows(tail[k], tail[k + 1], maxWords)
        {
          assert tail[k] == groups[k + 1] && tail[k + 1] == groups[k + 2];
        }
      }
      GreedyPackingUnique(tail, rest, maxWords);
      if rest != [] {
        assert tail != [];
        assert Overflows(groups[0], groups[1], maxWords);
        assert rest[0] == tail[0][0];
      }
      PackAfterGroup(g, rest, maxWords);
    }
  }

  // ---------------------------------------------------------------------------
  // Size mode: split_by_size
  // ---------------------------------------------------------------------------

  /** The sum of the fragments' word counts. */
  function TotalWords(fs: seq<Fragment>): nat
  {
    if fs == [] then 0 else fs[0].wordCount + TotalWords(fs[1..])
  }

  lemma {:induction false} TotalWordsAppend(a: seq<Fragment>, b: seq<Fragment>)
    ensures TotalWords(a + b) == TotalWords(a) + TotalWords(b)
    decreases |a|
  {
    if a == [] {
      assert a + b == b;
    } else {
      assert (a + b)[1..] == a[1..] + b;
      TotalWordsAppend(a[1..], b);
    }
  }

  /** A flushed buffer as a fragment: the sentences joined by one space, the running count,
      and the success test `min_words <= buffer_word_count <= max_words`. */
  function ToFragment(g: Group, minWords: int, maxWords: int): Fragment
  {
    Fragment(JoinWith(" ", g.sentences), minWords <= g.wordCount <= maxWords, g.wordCount)
  }

  function ToFragments(gs: seq<Group>, minWords: int, maxWords: int): (r: seq<Fragment>)
    ensures |r| == |gs|
    ensures forall k :: 0 <= k < |gs| ==> r[k] == ToFragment(gs[k], minWords, maxWords)
  {
    if gs == [] then [] else [ToFragment(gs[0], minWords, maxWords)] + ToFragments(gs[1..], minWords, maxWords)
  }

  /** The sentences `split_by_size` packs: none for the empty string (the only input that
      returns early), otherwise the segmenter's sentences of the stripped text. */
  function TextSentences(text: string): seq<string>
  {
    if text == [] then [] else Split(Strip(text))
  }

  /** The sentences of a text hold exactly its words. */
  lemma TextSentencesKeepWords(text: string)
    ensures SumWordCounts(TextSentences(text)) == WordCount(text)
  {
    if text == [] {
      assert Words(text) == [];
    } else {
      SplitKeepsWords(Strip(text));
      StripKeepsWords(text);
    }
  }

  /** The groups `split_by_size` flushes: the packing of the text's sentences within
      `target + tolerance` words. */
  function SizeGroups(text: string, maxWords: int): seq<Group>
  {
    Pack(TextSentences(text), [], 0, maxWords)
  }

  /** The word totals of good groups add up to the word total of their sentences. */
  lemma {:induction false} GroupWordsAddUp(gs: seq<Group>, minWords: int, maxWords: int)
    requires forall k :: 0 <= k < |gs| ==> gs[k].wordCount == SumWordCounts(gs[k].sentences)
    ensures TotalWords(ToFragments(gs, minWords, maxWords)) == SumWordCounts(Flatten(SentenceLists(gs)))
    decreases |gs|
  {
    if gs != [] {
      GroupWordsAddUp(gs[1..], minWords, maxWords);
      assert SentenceLists(gs) == [gs[0].sentences] + SentenceLists(gs[1..]);
      SumWordCountsAppend(gs[0].sentences, Flatten(SentenceLists(gs[1..])));
    }
  }

  /** The packing of any sentence list, read as fragments: a greedy packing whose word
      totals add up to the sentences' word total. */
  lemma PackFacts(sentences: seq<string>, minWords: int, maxWords: int)
    ensures var gs := Pack(sentences, [], 0, maxWords);
      && IsGreedyPacking(SentenceLists(gs), sentences, maxWords)
      && (forall k :: 0 <= k < |gs| ==> gs[k].wordCount == SumWordCounts(gs[k].sentences))
      && TotalWords(ToFragments(gs, minWords, maxWords)) == SumWordCounts(sentences)
  {
    PackIsGreedy(sentences, maxWords);
    GroupWordsAddUp(Pack(sentences, [], 0, maxWords), minWords, maxWords);
  }

  /** Facts about the groups of one text: they are a greedy packing of its sentences and
      their word totals add up to the text's word count. */
  lemma SizeGroupsFacts(text: string, minWords: int, maxWords: int)
    ensures var gs := SizeGroups(text, maxWords);
      && IsGreedyPacking(SentenceLists(gs), TextSentences(text), maxWords)
      && (forall k :: 0 <= k < |gs| ==> gs[k].wordCount == SumWordCounts(gs[k].sentences))
      && TotalWords(ToFragments(gs, minWords, maxWords)) == WordCount(text)
  {
    PackFacts(TextSentences(text), minWords, maxWords);
    TextSentencesKeepWords(text);
  }

  /** The size-mode fragments of `text` for the band `minWords..maxWords`. Every fragment's
      count is the number of words in its own text, the success flag is exactly the band
      test, and no word of the text is lost or duplicated. */
  function SizeFragments(text: string, minWords: int, maxWords: int): (r: seq<Fragment>)
    ensures text == [] ==> r == []
    ensures forall k :: 0 <= k < |r| ==> (r[k].isSuccessful <==> minWords <= r[k].wordCount <= maxWords)
    ensures forall k :: 0 <= k < |r| ==> r[k].wordCount == WordCount(r[k].text)
    ensures TotalWords(r) == WordCount(text)
  {
    var gs := SizeGroups(text, maxWords);
    SizeGroupsFacts(text, minWords, maxWords);
    var r := ToFragments(gs, minWords, maxWords);
    assert forall k :: 0 <= k < |r| ==> r[k].wordCount == WordCount(r[k].text) by {
      forall k | 0 <= k < |r|
        ensures r[k].wordCount == WordCount(r[k].text)
      {
        WordsOfJoin(gs[k].sentences);
      }
    }
    r
  }

  /** `split_by_size(text, target, tolerance)`: the band is
      `target - tolerance .. target + tolerance`. */
  function SplitBySize(text: string, target: int, tolerance: int): (r: seq<Fragment>)
    ensures text == [] ==> r == []
    ensures forall k :: 0 <= k < |r| ==>
              (r[k].isSuccessful <==> target - tolerance <= r[k].wordCount <= target + tolerance)
    ensures forall k :: 0 <= k < |r| ==> r[k].wordCount == WordCount(r[k].text)
    ensures TotalWords(r) == WordCount(text)
  {
    SizeFragments(text, target - tolerance, target + tolerance)
  }

  /** The size-mode fragments are the greedy packing of the segmenter's sentences, each
      group joined by single spaces and counted. Together with `GreedyPackingUnique`, this
      pins the output down completely: flattening the fragments' sentence lists gives back
      the sentence list, a fragment of two or more sentences stays within `maxWords`, and
      every fragment but the last would have overflowed with the next fragment's first
      sentence. */
  lemma SizeModeIsGreedy(text: string, minWords: int, maxWords: int)
    ensures var groups := SentenceLists(SizeGroups(text, maxWords));
            var r := SizeFragments(text, minWords, maxWords);
      && IsGreedyPacking(groups, TextSentences(text), maxWords)
      && |r| == |groups|
      && (forall k :: 0 <= k < |r| ==>
            r[k].text == JoinWith(" ", groups[k]) && r[k].wordCount == SumWordCounts(groups[k]))
  {
    SizeGroupsFacts(text, minWords, maxWords);
  }

  /** A fragment above `maxWords` words holds exactly one sentence: the loop never splits a
      sentence and never lets a buffer of two sentences overflow. */
  lemma OverLimitFragmentIsOneSentence(text: string, minWords: int, maxWords: int, k: nat)
    requires k < |SizeFragments(text, minWords, maxWords)|
    requires SizeFragments(text, minWords, maxWords)[k].wordCount > maxWords
    ensures |SentenceLists(SizeGroups(text, maxWords))[k]| == 1
  {
    SizeModeIsGreedy(text, minWords, maxWords);
  }

  /** Only the empty string short-circuits: a non-empty text of whitespace strips to "",
      `re.split` turns that into `[""]`, and the loop emits that empty sentence as one
      fragment of zero words, successful exactly when 0 lies in the band. */
  lemma WhitespaceOnlyText(text: string, minWords: int, maxWords: int)
    requires text != [] && AllSpace(text)
    ensures SizeFragments(text, minWords, maxWords) == [Fragment("", minWords <= 0 <= maxWords, 0)]
  {
    StripEmptyIffAllSpace(text);
    assert Pieces("") == [Piece("", "")];
    assert Split("") == [""];
    assert WordCount("") == 0;
  }

  /** A sentence list of one sentence packs into one group, whatever its length. */
  lemma PackOne(t: string, maxWords: int)
    ensures Pack([t], [], 0, maxWords) == [Group([t], WordCount(t))]
  {
    var w := WordCount(t);
    assert [t][1..] == [];
    if w <= maxWords {
      assert Pack([t], [], 0, maxWords) == Pack([], [] + [t], w, maxWords);
      assert [] + [t] == [t];
    } else {
      assert Pack([t], [], 0, maxWords) == Flush([], 0) + Pack([], [t], w, maxWords);
    }
  }

  /** A text that segments into one sentence becomes exactly one fragment holding the
      stripped text, however many words it has: an oversized sentence is never split and is
      flagged unsuccessful. */
  lemma SingleSentenceText(text: string, minWords: int, maxWords: int)
    requires |TextSentences(text)| == 1
    ensures SizeFragments(text, minWords, maxWords)
         == [Fragment(Strip(text), minWords <= WordCount(text) <= maxWords, WordCount(text))]
  {
    var t := Strip(text);
    assert TextSentences(text) == [t] by {
      SplitOfOne(t);
    }
    assert SizeGroups(text, maxWords) == [Group([t], WordCount(t))] by {
      PackOne(t, maxWords);
    }
    assert WordCount(t) == WordCount(text) by {
      StripKeepsWords(text);
    }
  }

  // ---------------------------------------------------------------------------
  // Row mode: split_by_row
  // ---------------------------------------------------------------------------

  /** The row loop over the lines: a line whose stripped form is non-empty yields
      `(line.strip(), True, len(line.split()))`; blank lines yield nothing. */
  function RowFragments(lines: seq<string>): seq<Fragment>
  {
    if lines == [] then [] else FragmentsOfLine(lines[0]) + RowFragments(lines[1..])
  }

  /** The body of the row loop for one line: the stripped line, unless it is blank. */
  function FragmentsOfLine(line: string): seq<Fragment>
  {
    if Strip(line) != [] then [Fragment(Strip(line), true, WordCount(line))] else []
  }

  /** What a row fragment is: successful, a trimmed single line, counted correctly. */
  predicate RowFragment(f: Fragment)
  {
    && f.isSuccessful
    && Trimmed(f.text)
    && (forall k :: 0 <= k < |f.text| ==> !IsLineBreak(f.text[k]))
    && f.wordCount == WordCount(f.text)
    && f.wordCount >= 1
  }

  /** The fragment of one line, when the line is not blank. */
  lemma LineFragment(line: string)
    requires forall k :: 0 <= k < |line| ==> !IsLineBreak(line[k])
    requires Strip(line) != []
    ensures RowFragment(Fragment(Strip(line), true, WordCount(line)))
  {
    var s := Strip(line);
    StripKeepsWords(line);
    TrimmedHasWords(s);
    var i := StripOffset(line);
    forall k | 0 <= k < |s|
      ensures !IsLineBreak(s[k])
    {
      assert s[k] == line[i + k];
    }
  }

  /** The fragments of one line without line breaks are row fragments holding its words. */
  lemma FragmentsOfLineFacts(line: string)
    requires forall k :: 0 <= k < |line| ==> !IsLineBreak(line[k])
    ensures forall k :: 0 <= k < |FragmentsOfLine(line)| ==> RowFragment(FragmentsOfLine(line)[k])
    ensures TotalWords(FragmentsOfLine(line)) == WordCount(line)
  {
    if Strip(line) != [] {
      LineFragment(line);
      var f := Fragment(Strip(line), true, WordCount(line));
      assert FragmentsOfLine(line) == [f];
      assert TotalWords([f]) == f.wordCount + TotalWords([]);
    } else {
      StripKeepsWords(line);
    }
  }

  /** Row fragments stay row fragments when two lists of them are joined. */
  lemma RowFragmentsJoin(head: seq<Fragment>, tail: seq<Fragment>)
    requires forall k :: 0 <= k < |head| ==> RowFragment(head[k])
    requires forall k :: 0 <= k < |tail| ==> RowFragment(tail[k])
    ensures forall k :: 0 <= k < |head + tail| ==> RowFragment((head + tail)[k])
  {
    forall k | 0 <= k < |head + tail|
      ensures RowFragment((head + tail)[k])
    {
      if k >= |head| {
        assert (head + tail)[k] == tail[k - |head|];
      } else {
        assert (head + tail)[k] == head[k];
      }
    }
  }

  lemma {:induction false} RowFragmentsFacts(lines: seq<string>)
    requires forall i :: 0 <= i < |lines| ==> forall k :: 0 <= k < |lines[i]| ==> !IsLineBreak(lines[i][k])
    ensures forall k :: 0 <= k < |RowFragments(lines)| ==> RowFragment(RowFragments(lines)[k])
    ensures TotalWords(RowFragments(lines)) == SumWordCounts(lines)
    decreases |lines|
  {
    if lines != [] {
      var l := lines[0];
      RowFragmentsFacts(lines[1..]);
      var head := FragmentsOfLine(l);
      var tail := RowFragments(lines[1..]);
      assert RowFragments(lines) == head + tail;
      TotalWordsAppend(head, tail);
      FragmentsOfLineFacts(l);
      RowFragmentsJoin(head, tail);
    }
  }

  /** `split_by_row(text)`: one fragment per non-blank line, each successful, trimmed, free
      of line breaks and holding at least one word; and, since blank lines hold no words
      and line breaks are whitespace, no word of the text is lost. */
  function SplitByRow(text: string): (r: seq<Fragment>)
    ensures forall k :: 0 <= k < |r| ==> RowFragment(r[k])
    ensures TotalWords(r) == WordCount(text)
  {
    LinesWellFormed(text);
    LinesKeepWords(text);
    RowFragmentsFacts(SplitLines(text));
    RowFragments(SplitLines(text))
  }

  /** Row fragments of consecutive line lists concatenate: fragments come in line order. */
  lemma {:induction false} RowFragmentsAppend(a: seq<string>, b: seq<string>)
    ensures RowFragments(a + b) == RowFragments(a) + RowFragments(b)
    decreases |a|
  {
    if a == [] {
      assert a + b == b;
    } else {
      assert (a + b)[0] == a[0] && (a + b)[1..] == a[1..] + b;
      RowFragmentsAppend(a[1..], b);
      assert RowFragments(a + b) == FragmentsOfLine(a[0]) + RowFragments(a[1..] + b);
    }
  }

  /** A line yields a fragment exactly when it is not blank, and that fragment is the
      stripped line. */
  lemma RowFragmentOfLine(line: string)
    ensures RowFragments([line]) == if AllSpace(line) then [] else [Fragment(Strip(line), true, WordCount(line))]
  {
    StripEmptyIffAllSpace(line);
  }

  // ---------------------------------------------------------------------------
  // Batch: process_large_texts, and the CLI dispatch
  // ---------------------------------------------------------------------------

  /** The per-text worker of `process_large_texts`: `"row"` selects the row splitter and
      every other mode the size splitter. */
  function FragmentText(text: string, target: int, tolerance: int, mode: string): seq<Fragment>
  {
    if mode == "row" then SplitByRow(text) else SplitBySize(text, target, tolerance)
  }

  /** The per-text result lists, in input order (`executor.map` keeps input order). */
  function PerText(texts: seq<string>, target: int, tolerance: int, mode: string): (r: seq<seq<Fragment>>)
    ensures |r| == |texts|
    ensures forall k :: 0 <= k < |texts| ==> r[k] == FragmentText(texts[k], target, tolerance, mode)
  {
    if texts == [] then []
    else [FragmentText(texts[0], target, tolerance, mode)] + PerText(texts[1..], target, tolerance, mode)
  }

  /** `process_large_texts(texts, target, tolerance, mode)`: the per-text lists extended
      into one list in input order. In either mode the total word count of the output is
      the total word count of the inputs. */
  function ProcessLargeTexts(texts: seq<string>, target: int, tolerance: int, mode: string): (r: seq<Fragment>)
    ensures TotalWords(r) == SumWordCounts(texts)
  {
    BatchKeepsWords(texts, target, tolerance, mode);
    Flatten(PerText(texts, target, tolerance, mode))
  }

  lemma {:induction false} BatchKeepsWords(texts: seq<string>, target: int, tolerance: int, mode: string)
    ensures TotalWords(Flatten(PerText(texts, target, tolerance, mode))) == SumWordCounts(texts)
    decreases |texts|
  {
    if texts != [] {
      BatchKeepsWords(texts[1..], target, tolerance, mode);
      var head := FragmentText(texts[0], target, tolerance, mode);
      assert PerText(texts, target, tolerance, mode)
          == [head] + PerText(texts[1..], target, tolerance, mode);
      TotalWordsAppend(head, Flatten(PerText(texts[1..], target, tolerance, mode)));
    }
  }

  lemma {:induction false} PerTextAppend(a: seq<string>, b: seq<string>, target: int, tolerance: int, mode: string)
    ensures PerText(a + b, target, tolerance, mode)
         == PerText(a, target, tolerance, mode) + PerText(b, target, tolerance, mode)
    decreases |a|
  {
    if a == [] {
      assert a + b == b;
    } else {
      assert (a + b)[1..] == a[1..] + b;
      PerTextAppend(a[1..], b, target, tolerance, mode);
    }
  }

  /** Order preservation: the batch output for `a + b` is the output for `a` followed by
      the output for `b`, so every fragment of an earlier text precedes every fragment of a
      later one, whatever order the workers finish in. */
  lemma BatchAppend(a: seq<string>, b: seq<string>, target: int, tolerance: int, mode: string)
    ensures ProcessLargeTexts(a + b, target, tolerance, mode)
         == ProcessLargeTexts(a, target, tolerance, mode) + ProcessLargeTexts(b, target, tolerance, mode)
  {
    PerTextAppend(a, b, target, tolerance, mode);
    FlattenAppend(PerText(a, target, tolerance, mode), PerText(b, target, tolerance, mode));
  }

  /** The batch output for a single text is that text's fragment list. */
  lemma BatchOfOne(text: string, target: int, tolerance: int, mode: string)
    ensures ProcessLargeTexts([text], target, tolerance, mode) == FragmentText(text, target, tolerance, mode)
  {
    var f := FragmentText(text, target, tolerance, mode);
    assert PerText([text], target, tolerance, mode) == [f];
    assert Flatten([f]) == f + Flatten([]);
  }

  /** Text `i`'s fragments sit, as one contiguous block, between those of the texts before
      it and those of the texts after it. */
  lemma BatchBlock(texts: seq<string>, i: nat, target: int, tolerance: int, mode: string)
    requires i < |texts|
    ensures ProcessLargeTexts(texts, target, tolerance, mode)
         == ProcessLargeTexts(texts[..i], target, tolerance, mode)
            + FragmentText(texts[i], target, tolerance, mode)
            + ProcessLargeTexts(texts[i + 1..], target, tolerance, mode)
  {
    var before, after := texts[..i], texts[i + 1..];
    assert texts == before + ([texts[i]] + after);
    BatchAppend(before, [texts[i]] + after, target, tolerance, mode);
    BatchAppend([texts[i]], after, target, tolerance, mode);
    BatchOfOne(texts[i], target, tolerance, mode);
  }

  /** The CLI's mode dispatch on one text: `"size"` and `"row"` select their splitter, and
      any other mode is rejected with `Unknown mode: <mode>` (exit status 1). Unlike the
      batch entry point, which falls back to size mode, the CLI accepts only these two. */
  function RunCli(mode: string, target: int, tolerance: int, text: string): (r: Result<seq<Fragment>>)
    ensures r.Err? <==> mode != "size" && mode != "row"
    ensures r.Err? ==> r.msg == "Unknown mode: " + mode
    ensures r.Ok? ==> r.value == ProcessLargeTexts([text], target, tolerance, mode)
  {
    BatchOfOne(text, target, tolerance, mode);
    if mode == "size" then Ok(SplitBySize(text, target, tolerance))
    else if mode == "row" then Ok(SplitByRow(text))
    else Err("Unknown mode: " + mode)
  }
}
