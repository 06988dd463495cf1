/** The sentence segmenter: `SENTENCE_PATTERN.split(text)` with
    `SENTENCE_PATTERN = re.compile(r'(?<=[.!?])\s+')`.

    A match starts at a whitespace character whose predecessor is `.`, `!` or `?`, and the
    greedy `\s+` takes the whole whitespace run from there. The punctuation stays on the
    sentence before the match; the run itself is the gap that the split drops. */
module Segmenter {
  import opened PyText

  /** The characters the look-behind `(?<=[.!?])` accepts. */
  predicate IsTerminal(c: char)
  {
    c == '.' || c == '!' || c == '?'
  }

  /** The pattern can start a match at index `i` of `t`. */
  predicate BoundaryAt(t: string, i: int)
  {
    0 < i < |t| && IsSpace(t[i]) && IsTerminal(t[i - 1])
  }

  /** The pattern matches somewhere in `t`. */
  predicate HasBoundary(t: string)
  {
    exists i :: 0 < i < |t| && BoundaryAt(t, i)
  }

  /** The first index at or after `i` where a match starts, or `|t|` when there is none. */
  function NextBoundary(t: string, i: nat): (j: nat)
    requires i <= |t|
    ensures i <= j <= |t|
    ensures j < |t| ==> BoundaryAt(t, j)
    ensures forall k :: i <= k < j ==> !BoundaryAt(t, k)
    decreases |t| - i
  {
    if i == |t| || BoundaryAt(t, i) then i else NextBoundary(t, i + 1)
  }

  /** The end of the whitespace run starting at `i`: where the greedy `\s+` stops. */
  function SpaceRunEnd(t: string, i: nat): (j: nat)
    requires i <= |t|
    ensures i <= j <= |t|
    ensures forall k :: i <= k < j ==> IsSpace(t[k])
    ensures j < |t| ==> !IsSpace(t[j])
    decreases |t| - i
  {
    if i < |t| && IsSpace(t[i]) then SpaceRunEnd(t, i + 1) else i
  }

  /** One element of the split together with the whitespace run that followed it. */
  datatype Piece = Piece(sentence: string, gap: string)

  /** The split with its gaps kept. After a match the scan resumes at the first non-space
      character; the look-behind can never succeed there, so scanning the remainder on its
      own finds the same matches as scanning on in `t`. A trailing match leaves an empty
      last element, as `re.split` does. */
  function Pieces(t: string): (ps: seq<Piece>)
    ensures |ps| >= 1
    decreases |t|
  {
    var i := NextBoundary(t, 0);
    if i == |t| then [Piece(t, "")]
    else
      var j := SpaceRunEnd(t, i);
      [Piece(t[..i], t[i..j])] + Pieces(t[j..])
  }

  function Sentences(ps: seq<Piece>): (r: seq<string>)
    ensures |r| == |ps|
    ensures forall k :: 0 <= k < |ps| ==> r[k] == ps[k].sentence
  {
    if ps == [] then [] else [ps[0].sentence] + Sentences(ps[1..])
  }

  /** `SENTENCE_PATTERN.split(t)`. */
  function Split(t: string): seq<string>
  {
    Sentences(Pieces(t))
  }

  /** The text the pieces came from: every sentence followed by its gap. */
  function Reassemble(ps: seq<Piece>): string
  {
    if ps == [] then "" else ps[0].sentence + ps[0].gap + Reassemble(ps[1..])
  }

  /** No element of the split contains a match. */
  predicate MatchFree(ps: seq<Piece>)
  {
    forall k :: 0 <= k < |ps| ==> !HasBoundary(ps[k].sentence)
  }

  /** A gap is a non-empty whitespace run that follows a terminal character and is
      followed by a non-space character or the end of the text. */
  predicate GapAfter(p: Piece, next: Piece)
  {
    && p.sentence != []
    && IsTerminal(p.sentence[|p.sentence| - 1])
    && p.gap != [] && AllSpace(p.gap)
    && (next.sentence == [] || !IsSpace(next.sentence[0]))
  }

  /** What the split promises besides the round trip: no sentence contains a match, every
      gap but the last is a maximal whitespace run after a terminal character, and the last
      gap is empty. */
  predicate WellFormedPieces(ps: seq<Piece>)
  {
    && |ps| >= 1
    && MatchFree(ps)
    && (forall k :: 0 <= k < |ps| - 1 ==> GapAfter(ps[k], ps[k + 1]))
    && ps[|ps| - 1].gap == []
  }

  /** Round trip: putting the dropped whitespace runs back gives the text. */
  lemma {:induction false} SplitReassembles(t: string)
    ensures Reassemble(Pieces(t)) == t
    decreases |t|
  {
    var i := NextBoundary(t, 0);
    if i < |t| {
      var j := SpaceRunEnd(t, i);
      var rest := Pieces(t[j..]);
      var ps := [Piece(t[..i], t[i..j])] + rest;
      assert Pieces(t) == ps;
      assert ps[1..] == rest;
      SplitReassembles(t[j..]);
      calc {
        Reassemble(ps);
        t[..i] + t[i..j] + Reassemble(rest);
        t[..i] + t[i..j] + t[j..];
        { assert t == t[..i] + t[i..j] + t[j..]; }
        t;
      }
    }
  }

  /** A prefix of `t` that ends before the next match contains no match. */
  lemma NoBoundaryBefore(t: string, i: nat)
    requires i <= |t|
    requires forall k :: 0 <= k < i ==> !BoundaryAt(t, k)
    ensures !HasBoundary(t[..i])
  {
    if HasBoundary(t[..i]) {
      var m :| 0 < m < |t[..i]| && BoundaryAt(t[..i], m);
      assert t[..i][m] == t[m] && t[..i][m - 1] == t[m - 1];
      assert BoundaryAt(t, m);
    }
  }

  /** One step of `Pieces` when the text contains a match: the first sentence, its gap and
      the remainder, with the facts the lemmas below need about them. */
  lemma PiecesStep(t: string) returns (i: nat, j: nat)
    requires NextBoundary(t, 0) < |t|
    ensures 0 < i <= j < |t| || (0 < i < j == |t|)
    ensures i == NextBoundary(t, 0) && j == SpaceRunEnd(t, i)
    ensures Pieces(t) == [Piece(t[..i], t[i..j])] + Pieces(t[j..])
    ensures !HasBoundary(t[..i]) && IsTerminal(t[i - 1])
    ensures t[i..j] != [] && AllSpace(t[i..j])
    ensures j < |t| ==> !IsSpace(t[j])
    ensures t == t[..i] + t[i..j] + t[j..]
  {
    i := NextBoundary(t, 0);
    j := SpaceRunEnd(t, i);
    NoBoundaryBefore(t, i);
    assert t[i..j][0] == t[i];
    forall k | 0 <= k < j - i
      ensures IsSpace(t[i..j][k])
    {
      assert t[i..j][k] == t[i + k];
    }
  }

  /** The first sentence of a text that does not start with whitespace is empty or starts
      with a non-space character. */
  lemma FirstSentenceStart(u: string)
    requires u == [] || !IsSpace(u[0])
    ensures Pieces(u)[0].sentence == [] || !IsSpace(Pieces(u)[0].sentence[0])
  {
    var i := NextBoundary(u, 0);
    if u != [] && i < |u| {
      assert Pieces(u)[0].sentence == u[..i];
      assert u[..i][0] == u[0];
    }
  }

  /** No element of the split contains a match. */
  lemma {:induction false} PiecesMatchFree(t: string)
    ensures MatchFree(Pieces(t))
    decreases |t|
  {
    var i := NextBoundary(t, 0);
    if i == |t| {
      NoBoundaryBefore(t, i);
      assert t[..i] == t;
      assert Pieces(t) == [Piece(t, "")];
    } else {
      var i, j := PiecesStep(t);
      var rest := Pieces(t[j..]);
      PiecesMatchFree(t[j..]);
      var ps := [Piece(t[..i], t[i..j])] + rest;
      assert Pieces(t) == ps;
      assert MatchFree(ps) by {
        forall k | 0 <= k < |ps|
          ensures !HasBoundary(ps[k].sentence)
        {
          if k > 0 {
            assert ps[k] == rest[k - 1];
          }
        }
      }
    }
  }

  /** The split is well formed in the sense of `WellFormedPieces`. */
  lemma {:induction false} PiecesWellFormed(t: string)
    ensures WellFormedPieces(Pieces(t))
    decreases |t|
  {
    PiecesMatchFree(t);
    var i := NextBoundary(t, 0);
    if i < |t| {
      var i, j := PiecesStep(t);
      var u := t[j..];
      var rest := Pieces(u);
      var ps := Pieces(t);
      PiecesWellFormed(u);
      FirstSentenceStart(u);
      assert ps[0].sentence[|ps[0].sentence| - 1] == t[i - 1];
      assert GapAfter(ps[0], ps[1]);
      forall k | 0 <= k < |ps| - 1
        ensures GapAfter(ps[k], ps[k + 1])
      {
        if k > 0 {
          assert ps[k] == rest[k - 1] && ps[k + 1] == rest[k];
        }
      }
      assert ps[|ps| - 1] == rest[|rest| - 1];
    }
  }

  /** Segmenting keeps every word: the sentences' word counts add up to the text's. */
  lemma {:induction false} SplitKeepsWords(t: string)
    ensures SumWordCounts(Split(t)) == WordCount(t)
    decreases |t|
  {
    var i := NextBoundary(t, 0);
    if i == |t| {
      assert Split(t) == [t];
    } else {
      var i, j := PiecesStep(t);
      assert Split(t) == [t[..i]] + Split(t[j..]);
      SplitKeepsWords(t[j..]);
      WordsAcrossSpaces(t[..i], t[i..j], t[j..]);
    }
  }

  /** Non-empty, and neither starting nor ending with whitespace. */
  predicate Trimmed(s: string)
  {
    s != [] && !IsSpace(s[0]) && !IsSpace(s[|s| - 1])
  }

  /** A trimmed string holds at least one word. */
  lemma TrimmedHasWords(s: string)
    requires Trimmed(s)
    ensures WordCount(s) >= 1
  {
    WordsEmptyIffAllSpace(s);
  }

  /** One step of `Split` when the text contains a match. */
  lemma SplitStep(t: string) returns (i: nat, j: nat)
    requires NextBoundary(t, 0) < |t|
    ensures 0 < i <= j <= |t|
    ensures Split(t) == [t[..i]] + Split(t[j..])
    ensures !HasBoundary(t[..i]) && IsTerminal(t[i - 1])
    ensures t[i..j] != [] && AllSpace(t[i..j])
    ensures j < |t| ==> !IsSpace(t[j])
    ensures t == t[..i] + t[i..j] + t[j..]
  {
    i, j := PiecesStep(t);
    var rest := Pieces(t[j..]);
    assert Pieces(t) == [Piece(t[..i], t[i..j])] + rest;
    assert ([Piece(t[..i], t[i..j])] + rest)[1..] == rest;
  }

  /** On a trimmed text (what `split_by_size` segments) every sentence is trimmed too, so
      each holds at least one word. */
  lemma {:induction false} StrippedSentences(t: string)
    requires Trimmed(t)
    ensures forall k :: 0 <= k < |Split(t)| ==> Trimmed(Split(t)[k])
    decreases |t|
  {
    if NextBoundary(t, 0) == |t| {
      assert Split(t) == [t];
    } else {
      var i, j := SplitStep(t);
      StrippedTail(t, i, j);
      var u := t[j..];
      StrippedSentences(u);
      var ss := [t[..i]] + Split(u);
      forall k | 0 <= k < |ss|
        ensures Trimmed(ss[k])
      {
        if k > 0 {
          assert ss[k] == Split(u)[k - 1];
        }
      }
    }
  }

  /** Splitting a trimmed text at a match leaves a trimmed sentence and a trimmed remainder. */
  lemma StrippedTail(t: string, i: nat, j: nat)
    requires Trimmed(t)
    requires 0 < i <= j <= |t|
    requires IsTerminal(t[i - 1]) && t[i..j] != [] && AllSpace(t[i..j])
    requires j < |t| ==> !IsSpace(t[j])
    ensures Trimmed(t[..i]) && Trimmed(t[j..])
  {
    var u := t[j..];
    assert u[0] == t[j] && u[|u| - 1] == t[|t| - 1];
    assert t[..i][0] == t[0] && t[..i][i - 1] == t[i - 1];
  }

  /** A text the segmenter leaves in one piece comes back unchanged as that one sentence. */
  lemma SplitOfOne(t: string)
    requires |Split(t)| == 1
    ensures Split(t) == [t]
  {
    SplitReassembles(t);
    PiecesWellFormed(t);
    var ps := Pieces(t);
    assert Reassemble(ps) == ps[0].sentence + "" + Reassemble([]);
  }
}
