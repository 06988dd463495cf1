/** The Python string primitives the fragmenters are built from: `str.isspace`,
    `str.split()` (no argument), `str.strip()`, `' '.join(...)` and `str.splitlines()`.
    Strings are sequences of Unicode code points, as Python 3 strings are. */
module PyText {
  import opened Seqs

  /** Python's `str.isspace` set. `str.split()`, `str.strip()` and the regex class `\s`
      (on a `str` pattern) all use exactly this set. */
  predicate IsSpace(c: char)
  {
    || c == ' '
    || '\t' <= c <= '\r'
    || '\U{1C}' <= c <= '\U{1F}'
    || c == '\U{85}'
    || c == '\U{A0}'
    || c == '\U{1680}'
    || '\U{2000}' <= c <= '\U{200A}'
    || c == '\U{2028}'
    || c == '\U{2029}'
    || c == '\U{202F}'
    || c == '\U{205F}'
    || c == '\U{3000}'
  }

  /** The line boundaries of `str.splitlines` (a `\r\n` pair counts as one boundary). */
  predicate IsLineBreak(c: char)
  {
    || c == '\n'
    || c == '\r'
    || c == '\U{0B}'
    || c == '\U{0C}'
    || '\U{1C}' <= c <= '\U{1E}'
    || c == '\U{85}'
    || c == '\U{2028}'
    || c == '\U{2029}'
  }

  predicate AllSpace(s: string)
  {
    forall k :: 0 <= k < |s| ==> IsSpace(s[k])
  }

  /** What `str.split()` can return as one element: a non-empty run of non-space characters. */
  predicate IsWord(w: string)
  {
    w != [] && forall k :: 0 <= k < |w| ==> !IsSpace(w[k])
  }

  // ---------------------------------------------------------------------------
  // str.split()
  // ---------------------------------------------------------------------------

  /** The index of the first whitespace character of `s` at or after `i`, or `|s|`. */
  function WordEnd(s: string, i: nat): (j: nat)
    requires i <= |s|
    ensures i <= j <= |s|
    ensures forall k :: i <= k < j ==> !IsSpace(s[k])
    ensures j < |s| ==> IsSpace(s[j])
    decreases |s| - i
  {
    if i == |s| || IsSpace(s[i]) then i else WordEnd(s, i + 1)
  }

  /** `s.split()`: the maximal runs of non-space characters, in order. */
  function Words(s: string): (ws: seq<string>)
    ensures forall k :: 0 <= k < |ws| ==> IsWord(ws[k])
    decreases |s|
  {
    if s == [] then []
    else if IsSpace(s[0]) then Words(s[1..])
    else
      var j := WordEnd(s, 0);
      [s[..j]] + Words(s[j..])
  }

  /** `len(s.split())`, the word count both fragmenters use. */
  function WordCount(s: string): nat
  {
    |Words(s)|
  }

  /** Any index with the three defining properties is the one `WordEnd` finds. */
  lemma {:induction false} WordEndIs(s: string, i: nat, j: nat)
    requires i <= j <= |s|
    requires forall k :: i <= k < j ==> !IsSpace(s[k])
    requires j < |s| ==> IsSpace(s[j])
    ensures WordEnd(s, i) == j
    decreases |s| - i
  {
    if i < j {
      WordEndIs(s, i + 1, j);
    }
  }

  /** Leading whitespace does not change the split. */
  lemma {:induction false} WordsSkipSpaces(d: string, b: string)
    requires AllSpace(d)
    ensures Words(d + b) == Words(b)
    decreases |d|
  {
    if d != [] {
      assert (d + b)[1..] == d[1..] + b;
      WordsSkipSpaces(d[1..], b);
    } else {
      assert d + b == b;
    }
  }

  /** The first word of `a + x`, when `a` starts with one that ends inside `a` or right
      where `x` starts with whitespace, is the first word of `a`. */
  lemma FirstWordOfConcat(a: string, x: string, ja: nat)
    requires a != [] && !IsSpace(a[0]) && ja == WordEnd(a, 0)
    requires ja < |a| || (x != [] && IsSpace(x[0]))
    ensures Words(a + x) == [(a + x)[..ja]] + Words((a + x)[ja..])
  {
    var s := a + x;
    assert s[ja] == (if ja < |a| then a[ja] else x[0]);
    PrefixWordEnd(a, x, ja);
    WordEndIs(s, 0, ja);
    assert s[0] == a[0];
  }

  /** A run of non-space characters at the front of `a` stays one in `a + x`. */
  lemma PrefixWordEnd(a: string, x: string, j: nat)
    requires j <= |a| && forall k :: 0 <= k < j ==> !IsSpace(a[k])
    ensures forall k :: 0 <= k < j ==> !IsSpace((a + x)[k])
  {
    forall k | 0 <= k < j
      ensures !IsSpace((a + x)[k])
    {
      assert (a + x)[k] == a[k];
    }
  }

  /** A non-empty run of whitespace separates words: splitting `a + d + b` splits `a` and `b`
      independently. This is why joining with a space, and splitting at a gap, keep words. */
  lemma {:induction false} WordsAcrossSpaces(a: string, d: string, b: string)
    requires d != [] && AllSpace(d)
    ensures Words(a + d + b) == Words(a) + Words(b)
    decreases |a|
  {
    var x := d + b;
    assert a + d + b == a + x;
    if a == [] {
      assert a + x == x;
      WordsSkipSpaces(d, b);
    } else if IsSpace(a[0]) {
      assert (a + x)[1..] == a[1..] + x;
      assert a[1..] + x == a[1..] + d + b;
      WordsAcrossSpaces(a[1..], d, b);
    } else {
      var ja := WordEnd(a, 0);
      assert x[0] == d[0];
      FirstWordOfConcat(a, x, ja);
      ConcatSlices(a, x, ja);
      assert a[ja..] + x == a[ja..] + d + b;
      WordsAcrossSpaces(a[ja..], d, b);
    }
  }

  /** Trailing whitespace does not change the split. */
  lemma WordsDropTrailingSpaces(a: string, d: string)
    requires AllSpace(d)
    ensures Words(a + d) == Words(a)
  {
    if d != [] {
      WordsAcrossSpaces(a, d, []);
      assert a + d + [] == a + d;
      assert Words([]) == [];
    } else {
      assert a + d == a;
    }
  }

  /** A string splits into no words exactly when it is all whitespace. */
  lemma {:induction false} WordsEmptyIffAllSpace(s: string)
    ensures Words(s) == [] <==> AllSpace(s)
    decreases |s|
  {
    if s != [] {
      if IsSpace(s[0]) {
        WordsEmptyIffAllSpace(s[1..]);
        if AllSpace(s[1..]) {
          forall k | 0 <= k < |s|
            ensures IsSpace(s[k])
          {
            if k > 0 {
              assert s[k] == s[1..][k - 1];
            }
          }
        }
      }
    }
  }

  // ---------------------------------------------------------------------------
  // ' '.join(...)
  // ---------------------------------------------------------------------------

  /** `sep.join(parts)`. */
  function JoinWith(sep: string, parts: seq<string>): string
  {
    if |parts| == 0 then ""
    else if |parts| == 1 then parts[0]
    else parts[0] + sep + JoinWith(sep, parts[1..])
  }

  /** The sum of the word counts of `parts`. */
  function SumWordCounts(parts: seq<string>): nat
  {
    if parts == [] then 0 else WordCount(parts[0]) + SumWordCounts(parts[1..])
  }

  lemma {:induction false} SumWordCountsAppend(a: seq<string>, b: seq<string>)
    ensures SumWordCounts(a + b) == SumWordCounts(a) + SumWordCounts(b)
    decreases |a|
  {
    if a == [] {
      assert a + b == b;
    } else {
      assert (a + b)[1..] == a[1..] + b;
      SumWordCountsAppend(a[1..], b);
    }
  }

  /** Joining with a single space neither loses nor creates words: the words of the joined
      text are the words of the parts, in order. */
  lemma {:induction false} WordsOfJoin(parts: seq<string>)
    ensures Words(JoinWith(" ", parts)) == Flatten(WordsOfEach(parts))
    ensures WordCount(JoinWith(" ", parts)) == SumWordCounts(parts)
    decreases |parts|
  {
    if |parts| == 0 {
    } else if |parts| == 1 {
      assert Flatten(WordsOfEach(parts)) == Words(parts[0]) + Flatten([]);
    } else {
      WordsOfJoin(parts[1..]);
      WordsAcrossSpaces(parts[0], " ", JoinWith(" ", parts[1..]));
      LengthOfFlatten(WordsOfEach(parts));
      LengthOfFlatten(WordsOfEach(parts[1..]));
    }
  }

  /** The split of each part, in order. */
  function WordsOfEach(parts: seq<string>): (r: seq<seq<string>>)
    ensures |r| == |parts|
  {
    if parts == [] then [] else [Words(parts[0])] + WordsOfEach(parts[1..])
  }

  /** The word total of a sequence of splits. */
  function TotalLength(xss: seq<seq<string>>): nat
  {
    if xss == [] then 0 else |xss[0]| + TotalLength(xss[1..])
  }

  lemma {:induction false} LengthOfFlatten(xss: seq<seq<string>>)
    ensures |Flatten(xss)| == TotalLength(xss)
    decreases |xss|
  {
    if xss != [] {
      LengthOfFlatten(xss[1..]);
    }
  }

  /** A word on its own splits into itself. */
  lemma WordsOfWord(w: string)
    requires IsWord(w)
    ensures Words(w) == [w]
  {
    WordEndIs(w, 0, |w|);
    assert w[..|w|] == w;
    assert w[|w|..] == [];
  }

  /** Round trip: splitting words that were joined with a space gives the words back. */
  lemma {:induction false} SplitJoinedWords(ws: seq<string>)
    requires forall k :: 0 <= k < |ws| ==> IsWord(ws[k])
    ensures Words(JoinWith(" ", ws)) == ws
    decreases |ws|
  {
    if |ws| == 1 {
      WordsOfWord(ws[0]);
    } else if |ws| > 1 {
      WordsOfWord(ws[0]);
      SplitJoinedWords(ws[1..]);
      WordsAcrossSpaces(ws[0], " ", JoinWith(" ", ws[1..]));
      assert ws == [ws[0]] + ws[1..];
    }
  }

  // ---------------------------------------------------------------------------
  // str.strip()
  // ---------------------------------------------------------------------------

  /** The index of the first non-whitespace character of `s` at or after `i`, or `|s|`. */
  function SkipSpaces(s: string, i: nat): (j: nat)
    requires i <= |s|
    ensures i <= j <= |s|
    ensures forall k :: i <= k < j ==> IsSpace(s[k])
    ensures j < |s| ==> !IsSpace(s[j])
    decreases |s| - i
  {
    if i == |s| || !IsSpace(s[i]) then i else SkipSpaces(s, i + 1)
  }

  /** Moving `j` back over whitespace, but not below `i`: the end of `s[i..j]` once its
      trailing whitespace is dropped. */
  function BackOverSpaces(s: string, i: nat, j: nat): (e: nat)
    requires i <= j <= |s|
    ensures i <= e <= j
    ensures forall k :: e <= k < j ==> IsSpace(s[k])
    ensures e > i ==> !IsSpace(s[e - 1])
    decreases j
  {
    if j == i || !IsSpace(s[j - 1]) then j else BackOverSpaces(s, i, j - 1)
  }

  /** How many leading whitespace characters `s.strip()` removes. */
  function StripOffset(s: string): (i: nat)
    ensures i <= |s|
  {
    SkipSpaces(s, 0)
  }

  /** `s.strip()`: `s` is the result surrounded by whitespace only, and the result neither
      starts nor ends with whitespace. */
  function Strip(s: string): (r: string)
    ensures StripOffset(s) + |r| <= |s|
    ensures r == [] || (!IsSpace(r[0]) && !IsSpace(r[|r| - 1]))
    ensures s[StripOffset(s)..StripOffset(s) + |r|] == r
    ensures AllSpace(s[..StripOffset(s)]) && AllSpace(s[StripOffset(s) + |r|..])
  {
    var i := StripOffset(s);
    var e := BackOverSpaces(s, i, |s|);
    assert AllSpace(s[..i]) by {
      forall k | 0 <= k < i
        ensures IsSpace(s[..i][k])
      {
        assert s[..i][k] == s[k];
      }
    }
    assert AllSpace(s[e..]) by {
      forall k | 0 <= k < |s| - e
        ensures IsSpace(s[e..][k])
      {
        assert s[e..][k] == s[e + k];
      }
    }
    assert e > i ==> s[i..e][0] == s[i] && s[i..e][e - i - 1] == s[e - 1];
    s[i..e]
  }

  /** A string is its three consecutive slices. */
  lemma SplitThree(s: string, i: nat, j: nat)
    requires i <= j <= |s|
    ensures s == s[..i] + (s[i..j] + s[j..])
  {
  }

  /** Stripping never changes the words of a string. */
  lemma StripKeepsWords(s: string)
    ensures Words(Strip(s)) == Words(s)
    ensures WordCount(Strip(s)) == WordCount(s)
  {
    var r := Strip(s);
    var i := StripOffset(s);
    SplitThree(s, i, i + |r|);
    WordsSkipSpaces(s[..i], r + s[i + |r|..]);
    WordsDropTrailingSpaces(r, s[i + |r|..]);
  }

  /** A string strips to the empty string exactly when it is all whitespace. */
  lemma StripEmptyIffAllSpace(s: string)
    ensures Strip(s) == [] <==> AllSpace(s)
  {
    StripKeepsWords(s);
    WordsEmptyIffAllSpace(s);
    WordsEmptyIffAllSpace(Strip(s));
  }

  // ---------------------------------------------------------------------------
  // str.splitlines()
  // ---------------------------------------------------------------------------

  /** One line of `s.splitlines(keepends=True)`, with its content and its line ending kept apart. */
  datatype Line = Line(content: string, ending: string)

  /** The index of the first line boundary of `s` at or after `i`, or `|s|`. */
  function LineEnd(s: string, i: nat): (j: nat)
    requires i <= |s|
    ensures i <= j <= |s|
    ensures forall k :: i <= k < j ==> !IsLineBreak(s[k])
    ensures j < |s| ==> IsLineBreak(s[j])
    decreases |s| - i
  {
    if i == |s| || IsLineBreak(s[i]) then i else LineEnd(s, i + 1)
  }

  /** The index just past the line boundary that starts at `i`: a `\r\n` pair is one boundary. */
  function BreakEnd(s: string, i: nat): (k: nat)
    requires i < |s| && IsLineBreak(s[i])
    ensures i < k <= |s| && IsLineEnding(s[i..k]) && AllSpace(s[i..k])
  {
    if s[i] == '\r' && i + 1 < |s| && s[i + 1] == '\n' then
      assert s[i..i + 2] == "\r\n";
      i + 2
    else i + 1
  }

  /** The lines of `s` with their endings. A trailing boundary does not open an empty last
      line, and the empty string has no lines. */
  function LinesWithEnds(s: string): seq<Line>
    decreases |s|
  {
    if s == [] then []
    else
      var i := LineEnd(s, 0);
      if i == |s| then [Line(s, "")]
      else
        var k := BreakEnd(s, i);
        [Line(s[..i], s[i..k])] + LinesWithEnds(s[k..])
  }

  function Contents(ls: seq<Line>): (r: seq<string>)
    ensures |r| == |ls|
    ensures forall k :: 0 <= k < |ls| ==> r[k] == ls[k].content
  {
    if ls == [] then [] else [ls[0].content] + Contents(ls[1..])
  }

  /** `s.splitlines()`. */
  function SplitLines(s: string): seq<string>
  {
    Contents(LinesWithEnds(s))
  }

  /** Concatenation of the lines with their endings put back. */
  function Rejoin(ls: seq<Line>): string
  {
    if ls == [] then "" else ls[0].content + ls[0].ending + Rejoin(ls[1..])
  }

  /** A line ending is `\r\n` or one boundary character. */
  predicate IsLineEnding(e: string)
  {
    e == "\r\n" || (|e| == 1 && IsLineBreak(e[0]))
  }

  /** What `splitlines` promises of each line: no boundary inside, every line but the last
      ends with a boundary, and the last ends with a boundary or with the text. */
  predicate WellFormedLines(ls: seq<Line>)
  {
    && (forall i :: 0 <= i < |ls| ==>
          forall k :: 0 <= k < |ls[i].content| ==> !IsLineBreak(ls[i].content[k]))
    && (forall i :: 0 <= i < |ls| - 1 ==> IsLineEnding(ls[i].ending))
    && (|ls| > 0 ==> ls[|ls| - 1].ending == "" || IsLineEnding(ls[|ls| - 1].ending))
  }

  /** Round trip: `''.join(s.splitlines(keepends=True)) == s`. */
  lemma {:induction false} LinesRejoin(s: string)
    ensures Rejoin(LinesWithEnds(s)) == s
    decreases |s|
  {
    if s != [] {
      var i := LineEnd(s, 0);
      if i < |s| {
        var k := BreakEnd(s, i);
        var rest := LinesWithEnds(s[k..]);
        var ls := [Line(s[..i], s[i..k])] + rest;
        assert LinesWithEnds(s) == ls;
        assert ls[1..] == rest;
        LinesRejoin(s[k..]);
        calc {
          Rejoin(ls);
          s[..i] + s[i..k] + Rejoin(rest);
          s[..i] + s[i..k] + s[k..];
          { assert s == s[..i] + s[i..k] + s[k..]; }
          s;
        }
      }
    }
  }

  /** The lines `splitlines` produces are well formed. */
  lemma {:induction false} LinesWellFormed(s: string)
    ensures WellFormedLines(LinesWithEnds(s))
    decreases |s|
  {
    if s != [] {
      var i := LineEnd(s, 0);
      if i < |s| {
        var k := BreakEnd(s, i);
        LinesWellFormed(s[k..]);
        var ls := LinesWithEnds(s);
        var rest := LinesWithEnds(s[k..]);
        assert ls == [Line(s[..i], s[i..k])] + rest;
        forall j | 0 <= j < |ls|
          ensures forall m :: 0 <= m < |ls[j].content| ==> !IsLineBreak(ls[j].content[m])
        {
          if j > 0 {
            assert ls[j] == rest[j - 1];
          }
        }
        forall j | 0 <= j < |ls| - 1
          ensures IsLineEnding(ls[j].ending)
        {
          if j > 0 {
            assert ls[j] == rest[j - 1];
          }
        }
        if |rest| > 0 {
          assert ls[|ls| - 1] == rest[|rest| - 1];
        }
      }
    }
  }

  /** Every line boundary is whitespace. */
  lemma LineBreakIsSpace(c: char)
    requires IsLineBreak(c)
    ensures IsSpace(c)
  {
  }

  /** Splitting into lines keeps every word: the word counts of the lines add up to the
      word count of the text. */
  lemma {:induction false} LinesKeepWords(s: string)
    ensures SumWordCounts(SplitLines(s)) == WordCount(s)
    decreases |s|
  {
    if s != [] {
      var i := LineEnd(s, 0);
      if i == |s| {
        assert SplitLines(s) == [s];
      } else {
        var k := BreakEnd(s, i);
        var rest := SplitLines(s[k..]);
        LinesKeepWords(s[k..]);
        SplitLinesStep(s, i, k);
        assert SumWordCounts([s[..i]] + rest) == WordCount(s[..i]) + SumWordCounts(rest);
        WordsAroundGap(s, i, k);
      }
    }
  }

  /** A line that ends in a line break is followed by the lines of the rest. */
  lemma SplitLinesStep(s: string, i: nat, k: nat)
    requires s != [] && i == LineEnd(s, 0) && i < |s| && k == BreakEnd(s, i)
    ensures SplitLines(s) == [s[..i]] + SplitLines(s[k..])
  {
    var ls := LinesWithEnds(s[k..]);
    assert LinesWithEnds(s) == [Line(s[..i], s[i..k])] + ls;
    assert Contents([Line(s[..i], s[i..k])] + ls) == [s[..i]] + Contents(ls);
  }

  /** Cutting a string at a run of whitespace splits its words between the two sides. */
  lemma WordsAroundGap(s: string, i: nat, k: nat)
    requires i < k <= |s| && AllSpace(s[i..k])
    ensures WordCount(s) == WordCount(s[..i]) + WordCount(s[k..])
  {
    SplitThree(s, i, k);
    assert s[..i] + (s[i..k] + s[k..]) == s[..i] + s[i..k] + s[k..];
    WordsAcrossSpaces(s[..i], s[i..k], s[k..]);
  }
}
