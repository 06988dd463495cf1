/** The word-frequency dictionary of the desktop front end (`on_create_dictionary` of
    `main.py`): every whitespace-separated token of every stored fragment is cleaned, the
    non-empty cleaned words are counted, the ones not yet in the base dictionary are
    appended to it, and the counts become table rows ordered by decreasing frequency.

    The cleaning step (`re.sub(r'[^\w\-]', '', word).lower()`) depends on Unicode
    character classes and case mapping; it is a parameter `clean` here, so every property
    below holds for any cleaning function. */
module Dictionary {
  import opened Seqs
  import opened PyText
  import opened Decimal

  // ---------------------------------------------------------------------------
  // Inputs: the stored fragments
  // ---------------------------------------------------------------------------

  /** A stored fragment: a plain string, or a tuple whose second field is the text. */
  datatype Entry = Plain(text: string) | Tuple(fields: seq<string>)

  /** A tuple entry has a second field to read. */
  predicate WellFormed(e: Entry)
  {
    e.Tuple? ==> |e.fields| >= 2
  }

  /** `fragment[1]` for a tuple, the string itself otherwise. */
  function EntryText(e: Entry): string
    requires WellFormed(e)
  {
    match e
    case Plain(t) => t
    case Tuple(fields) => fields[1]
  }

  /** The tokens of all fragments, fragment by fragment, each split on whitespace. */
  function Tokens(entries: seq<Entry>): seq<string>
    requires forall k :: 0 <= k < |entries| ==> WellFormed(entries[k])
  {
    if entries == [] then [] else Words(EntryText(entries[0])) + Tokens(entries[1..])
  }

  /** The cleaned tokens that are kept: those that clean to a non-empty word, in order. */
  function Cleaned(tokens: seq<string>, clean: string -> string): (r: seq<string>)
    ensures forall k :: 0 <= k < |r| ==> r[k] != []
  {
    if tokens == [] then []
    else (if clean(tokens[0]) != [] then [clean(tokens[0])] else []) + Cleaned(tokens[1..], clean)
  }

  // ---------------------------------------------------------------------------
  // Ordered insertion without duplicates
  // ---------------------------------------------------------------------------

  /** `if w not in xs: xs.append(w)` — also the way a Python dict orders a new key. */
  function AppendNew(xs: seq<string>, w: string): seq<string>
  {
    if w in xs then xs else xs + [w]
  }

  /** `AppendNew` for every word of `ws`, in order. */
  function AppendAllNew(xs: seq<string>, ws: seq<string>): seq<string>
    decreases |ws|
  {
    if ws == [] then xs else AppendAllNew(AppendNew(xs, ws[0]), ws[1..])
  }

  predicate Distinct(xs: seq<string>)
  {
    forall i, j :: 0 <= i < j < |xs| ==> xs[i] != xs[j]
  }

  /** The position of the first occurrence of `w` in `ws`. */
  function FirstIndex(ws: seq<string>, w: string): (i: nat)
    requires w in ws
    ensures i < |ws| && ws[i] == w && w !in ws[..i]
  {
    if ws[0] == w then 0 else 1 + FirstIndex(ws[1..], w)
  }

  /** `AppendAllNew` only appends, and what it appends is new and taken from `ws`. */
  lemma {:induction false} AppendAllNewExtends(xs: seq<string>, ws: seq<string>)
    ensures var r := AppendAllNew(xs, ws);
      && |xs| <= |r| && r[..|xs|] == xs
      && (forall k :: |xs| <= k < |r| ==> r[k] !in xs && r[k] in ws)
    decreases |ws|
  {
    if ws != [] {
      var w := ws[0];
      var xs' := AppendNew(xs, w);
      var r := AppendAllNew(xs', ws[1..]);
      AppendAllNewExtends(xs', ws[1..]);
      assert r[..|xs|] == r[..|xs'|][..|xs|];
      forall k | |xs| <= k < |r|
        ensures r[k] !in xs && r[k] in ws
      {
        if k >= |xs'| {
          assert r[k] in ws[1..];
        } else {
          assert r[k] == w;
        }
      }
    }
  }

  /** Every word of `ws` ends up in the result. */
  lemma {:induction false} AppendAllNewCovers(xs: seq<string>, ws: seq<string>)
    ensures forall w :: w in ws ==> w in AppendAllNew(xs, ws)
    decreases |ws|
  {
    if ws != [] {
      var w := ws[0];
      var xs' := AppendNew(xs, w);
      var r := AppendAllNew(xs', ws[1..]);
      AppendAllNewCovers(xs', ws[1..]);
      AppendAllNewExtends(xs', ws[1..]);
      assert w in r by {
        assert r[..|xs'|] == xs';
        assert w in xs';
      }
      forall v | v in ws
        ensures v in r
      {
        if v != w {
          assert v in ws[1..];
        }
      }
    }
  }

  /** Appending only new words keeps a duplicate-free list duplicate-free. */
  lemma {:induction false} AppendAllNewDistinct(xs: seq<string>, ws: seq<string>)
    requires Distinct(xs)
    ensures Distinct(AppendAllNew(xs, ws))
    decreases |ws|
  {
    if ws != [] {
      var xs' := AppendNew(xs, ws[0]);
      assert Distinct(xs');
      AppendAllNewDistinct(xs', ws[1..]);
    }
  }

  /** The appended words come in the order of their first occurrence in `ws`. */
  lemma {:induction false} AppendAllNewOrder(xs: seq<string>, ws: seq<string>)
    ensures var r := AppendAllNew(xs, ws);
      forall i, j :: |xs| <= i < j < |r| ==>
        r[i] in ws && r[j] in ws && FirstIndex(ws, r[i]) < FirstIndex(ws, r[j])
    decreases |ws|
  {
    AppendAllNewExtends(xs, ws);
    if ws != [] {
      var w := ws[0];
      var xs' := AppendNew(xs, w);
      var r := AppendAllNew(xs', ws[1..]);
      AppendAllNewOrder(xs', ws[1..]);
      AppendAllNewExtends(xs', ws[1..]);
      assert r[..|xs'|] == xs';
      forall i, j | |xs| <= i < j < |r|
        ensures r[i] in ws && r[j] in ws && FirstIndex(ws, r[i]) < FirstIndex(ws, r[j])
      {
        assert r[j] != w by {
          if j < |xs'| {
            assert false;
          } else {
            assert w in xs';
          }
        }
        if i >= |xs'| {
          assert r[i] != w by {
            assert w in xs';
          }
        } else {
          assert r[i] == w;
        }
      }
    }
  }

  /** The words appended after `xs`: new ones only, each once, in the order of their first
      occurrence in `ws`, and together with `xs` they cover every word of `ws`. */
  lemma AppendAllNewFacts(xs: seq<string>, ws: seq<string>)
    ensures var r := AppendAllNew(xs, ws);
      && |xs| <= |r| && r[..|xs|] == xs
      && (forall k :: |xs| <= k < |r| ==> r[k] !in xs && r[k] in ws)
      && (forall w :: w in ws ==> w in r)
      && (Distinct(xs) ==> Distinct(r))
      && (forall i, j :: |xs| <= i < j < |r| ==> FirstIndex(ws, r[i]) < FirstIndex(ws, r[j]))
  {
    AppendAllNewExtends(xs, ws);
    AppendAllNewCovers(xs, ws);
    if Distinct(xs) {
      AppendAllNewDistinct(xs, ws);
    }
    AppendAllNewOrder(xs, ws);
  }

  // ---------------------------------------------------------------------------
  // The counting loop
  // ---------------------------------------------------------------------------

  /** `word_frequency.get(w, 0)`. */
  function Get(counts: map<string, nat>, w: string): nat
  {
    if w in counts then counts[w] else 0
  }

  /** The loop state: the frequency dict (its keys in insertion order, and the counts) and
      the base dictionary. */
  datatype Tally = Tally(keys: seq<string>, counts: map<string, nat>, base: seq<string>)

  /** One token of the loop: clean it; a non-empty result is counted and joins the base
      dictionary if it is new there. */
  function Step(st: Tally, token: string, clean: string -> string): Tally
  {
    var c := clean(token);
    if c == [] then st
    else Tally(AppendNew(st.keys, c), st.counts[c := Get(st.counts, c) + 1], AppendNew(st.base, c))
  }

  /** The loop over `tokens` from state `st`. */
  function Scan(tokens: seq<string>, clean: string -> string, st: Tally): Tally
    decreases |tokens|
  {
    if tokens == [] then st else Scan(tokens[1..], clean, Step(st, tokens[0], clean))
  }

  /** The loop is the cleaned word list applied three ways: each count grows by the number
      of occurrences of its word, and both the dict keys and the base dictionary gain the
      new words in order. */
  lemma {:induction false} ScanFacts(tokens: seq<string>, clean: string -> string, st: Tally)
    ensures var r := Scan(tokens, clean, st);
            var ws := Cleaned(tokens, clean);
      && r.keys == AppendAllNew(st.keys, ws)
      && r.base == AppendAllNew(st.base, ws)
      && (forall w :: Get(r.counts, w) == Get(st.counts, w) + multiset(ws)[w])
      && (forall w :: w in r.counts <==> w in st.counts || w in ws)
    decreases |tokens|
  {
    if tokens != [] {
      var t := tokens[0];
      var c := clean(t);
      var st' := Step(st, t, clean);
      ScanFacts(tokens[1..], clean, st');
      var ws := Cleaned(tokens, clean);
      var ws' := Cleaned(tokens[1..], clean);
      if c != [] {
        assert ws == [c] + ws';
        assert multiset(ws) == multiset{c} + multiset(ws');
      } else {
        assert ws == ws';
      }
    }
  }

  // ---------------------------------------------------------------------------
  // Sorting the rows
  // ---------------------------------------------------------------------------

  /** An item of `word_frequency.items()`. */
  datatype Item = Item(word: string, freq: nat)

  /** The dict's items in insertion order. */
  function ItemsOf(keys: seq<string>, counts: map<string, nat>): (r: seq<Item>)
    ensures |r| == |keys|
    ensures forall k :: 0 <= k < |r| ==> r[k] == Item(keys[k], Get(counts, keys[k]))
  {
    if keys == [] then [] else [Item(keys[0], Get(counts, keys[0]))] + ItemsOf(keys[1..], counts)
  }

  /** Non-increasing frequency. */
  predicate SortedByFreq(items: seq<Item>)
  {
    forall i, j :: 0 <= i < j < |items| ==> items[i].freq >= items[j].freq
  }

  /** The items of one frequency, in order. */
  function WithFreq(items: seq<Item>, f: nat): seq<Item>
  {
    if items == [] then []
    else (if items[0].freq == f then [items[0]] else []) + WithFreq(items[1..], f)
  }

  /** Places `x` after the items of strictly higher frequency and before the rest, so an
      item inserted earlier stays ahead of later ones of the same frequency. */
  function Insert(x: Item, items: seq<Item>): seq<Item>
  {
    if items == [] || items[0].freq <= x.freq then [x] + items
    else [items[0]] + Insert(x, items[1..])
  }

  /** `sorted(items, key=lambda x: x[1], reverse=True)`: Python's sort is stable, also in
      reverse, so items of equal frequency keep their insertion order. */
  function SortByFreq(items: seq<Item>): seq<Item>
  {
    if items == [] then [] else Insert(items[0], SortByFreq(items[1..]))
  }

  /** Insertion keeps every item exactly once. */
  lemma {:induction false} InsertPermutes(x: Item, items: seq<Item>)
    ensures multiset(Insert(x, items)) == multiset{x} + multiset(items)
    decreases |items|
  {
    if !(items == [] || items[0].freq <= x.freq) {
      InsertPermutes(x, items[1..]);
      assert items == [items[0]] + items[1..];
    }
  }

  /** Insertion into a sorted sequence keeps it sorted. */
  lemma {:induction false} InsertSorted(x: Item, items: seq<Item>)
    requires SortedByFreq(items)
    ensures SortedByFreq(Insert(x, items))
    decreases |items|
  {
    if items == [] || items[0].freq <= x.freq {
      assert forall k :: 0 <= k < |items| ==> items[0].freq >= items[k].freq;
    } else {
      var y := items[0];
      var rest := items[1..];
      InsertSorted(x, rest);
      InsertPermutes(x, rest);
      var ins := Insert(x, rest);
      assert Insert(x, items) == [y] + ins;
      forall k | 0 <= k < |ins|
        ensures y.freq >= ins[k].freq
      {
        assert ins[k] in multiset(ins);
        if ins[k] != x {
          assert ins[k] in multiset(rest);
          var m :| 0 <= m < |rest| && rest[m] == ins[k];
          assert items[m + 1] == rest[m];
        }
      }
    }
  }

  /** Insertion only skips items of strictly higher frequency, so among the items of any
      one frequency the inserted one comes first, as it does in `[x] + items`. */
  lemma {:induction false} InsertStable(x: Item, items: seq<Item>, f: nat)
    ensures WithFreq(Insert(x, items), f) == WithFreq([x] + items, f)
    decreases |items|
  {
    assert ([x] + items)[1..] == items;
    if !(items == [] || items[0].freq <= x.freq) {
      var y := items[0];
      var rest := items[1..];
      InsertStable(x, rest, f);
      assert ([y] + Insert(x, rest))[1..] == Insert(x, rest);
      assert ([x] + rest)[1..] == rest;
      assert WithFreq(Insert(x, items), f) == (if y.freq == f then [y] else []) + WithFreq([x] + rest, f);
    }
  }

  /** The sort orders by non-increasing frequency, keeps every item exactly once, and is
      stable: the items of each frequency appear in their original order. */
  lemma {:induction false} SortByFreqFacts(items: seq<Item>)
    ensures SortedByFreq(SortByFreq(items))
    ensures multiset(SortByFreq(items)) == multiset(items)
    ensures forall f :: WithFreq(SortByFreq(items), f) == WithFreq(items, f)
    decreases |items|
  {
    if items != [] {
      var x := items[0];
      SortByFreqFacts(items[1..]);
      var sorted := SortByFreq(items[1..]);
      InsertSorted(x, sorted);
      InsertPermutes(x, sorted);
      assert items == [x] + items[1..];
      forall f
        ensures WithFreq(SortByFreq(items), f) == WithFreq(items, f)
      {
        InsertStable(x, sorted, f);
        assert ([x] + sorted)[1..] == sorted;
      }
    }
  }

  // ---------------------------------------------------------------------------
  // on_create_dictionary
  // ---------------------------------------------------------------------------

  /** A table row: the word, its frequency and its length in characters, as text. */
  datatype Row = Row(word: string, freq: string, length: string)

  function RowOf(it: Item): Row
  {
    Row(it.word, NatToString(it.freq), NatToString(|it.word|))
  }

  function Rows(items: seq<Item>): (r: seq<Row>)
    ensures |r| == |items|
    ensures forall k :: 0 <= k < |r| ==> r[k] == RowOf(items[k])
  {
    if items == [] then [] else [RowOf(items[0])] + Rows(items[1..])
  }

  /** The outcome: the table rows, the updated base dictionary, and `len(word_frequency)`,
      the number of distinct words. */
  datatype Dictionary = Dictionary(rows: seq<Row>, base: seq<string>, distinct: nat)

  /** `on_create_dictionary` over the stored fragments and the current base dictionary. */
  function CreateDictionary(entries: seq<Entry>, base: seq<string>, clean: string -> string): Dictionary
    requires forall k :: 0 <= k < |entries| ==> WellFormed(entries[k])
  {
    var st := Scan(Tokens(entries), clean, Tally([], map[], base));
    Dictionary(Rows(SortByFreq(ItemsOf(st.keys, st.counts))), st.base, |st.counts|)
  }

  /** The frequency table: one item per distinct non-empty cleaned word, its frequency the
      number of its occurrences; tokens that clean to the empty string are not counted;
      the dict keeps first-occurrence order before the sort. */
  lemma FrequencyTable(tokens: seq<string>, clean: string -> string)
    ensures var st := Scan(tokens, clean, Tally([], map[], []));
            var ws := Cleaned(tokens, clean);
      && Distinct(st.keys)
      && (forall w :: w in st.keys <==> w in ws)
      && (forall w :: w in st.counts <==> w in ws)
      && [] !in st.counts
      && (forall k :: 0 <= k < |st.keys| ==> Get(st.counts, st.keys[k]) == multiset(ws)[st.keys[k]])
      && (forall i, j :: 0 <= i < j < |st.keys| ==> FirstIndex(ws, st.keys[i]) < FirstIndex(ws, st.keys[j]))
      && |st.counts| == |st.keys|
  {
    var st := Scan(tokens, clean, Tally([], map[], []));
    var ws := Cleaned(tokens, clean);
    ScanFacts(tokens, clean, Tally([], map[], []));
    AppendAllNewFacts([], ws);
    assert st.counts.Keys == set k | 0 <= k < |st.keys| :: st.keys[k];
    DistinctCard(st.keys);
  }

  /** A sequence without repetitions has as many distinct elements as it is long. */
  lemma {:induction false} DistinctCard(xs: seq<string>)
    requires Distinct(xs)
    ensures |set k | 0 <= k < |xs| :: xs[k]| == |xs|
    decreases |xs|
  {
    if xs != [] {
      var tail := xs[1..];
      DistinctCard(tail);
      var s := set k | 0 <= k < |xs| :: xs[k];
      var s' := set k | 0 <= k < |tail| :: tail[k];
      assert s == {xs[0]} + s' by {
        forall v | v in s ensures v in {xs[0]} + s' {
          var k :| 0 <= k < |xs| && xs[k] == v;
          if k > 0 { assert tail[k - 1] == v; }
        }
      }
      assert xs[0] !in s';
    }
  }

  /** The base dictionary only grows at its end, gains no duplicates, keeps the new words in
      the order they first occur, and afterwards holds every counted word. */
  lemma BaseDictionary(entries: seq<Entry>, base: seq<string>, clean: string -> string)
    requires forall k :: 0 <= k < |entries| ==> WellFormed(entries[k])
    ensures var d := CreateDictionary(entries, base, clean);
            var ws := Cleaned(Tokens(entries), clean);
      && |base| <= |d.base| && d.base[..|base|] == base
      && (Distinct(base) ==> Distinct(d.base))
      && (forall k :: |base| <= k < |d.base| ==> d.base[k] !in base && d.base[k] in ws)
      && (forall w :: w in ws ==> w in d.base)
      && (forall i, j :: |base| <= i < j < |d.base| ==> FirstIndex(ws, d.base[i]) < FirstIndex(ws, d.base[j]))
  {
    var ws := Cleaned(Tokens(entries), clean);
    ScanFacts(Tokens(entries), clean, Tally([], map[], base));
    AppendAllNewFacts(base, ws);
  }

  /** The rows: ordered by non-increasing frequency, words of equal frequency in the order
      they first occur, one row per distinct counted word with its number of occurrences
      and its length. */
  lemma DictionaryRows(entries: seq<Entry>, base: seq<string>, clean: string -> string)
    requires forall k :: 0 <= k < |entries| ==> WellFormed(entries[k])
    ensures var d := CreateDictionary(entries, base, clean);
            var st := Scan(Tokens(entries), clean, Tally([], map[], base));
            var items := SortByFreq(ItemsOf(st.keys, st.counts));
            var ws := Cleaned(Tokens(entries), clean);
      && d.rows == Rows(items)
      && SortedByFreq(items)
      && multiset(items) == multiset(ItemsOf(st.keys, st.counts))
      && (forall f :: WithFreq(items, f) == WithFreq(ItemsOf(st.keys, st.counts), f))
      && (forall k :: 0 <= k < |st.keys| ==> st.keys[k] in ws && Get(st.counts, st.keys[k]) == multiset(ws)[st.keys[k]])
      && d.distinct == |st.keys|
  {
    var st := Scan(Tokens(entries), clean, Tally([], map[], base));
    var items := ItemsOf(st.keys, st.counts);
    SortByFreqFacts(items);
    ScanFacts(Tokens(entries), clean, Tally([], map[], base));
    FrequencyTable(Tokens(entries), clean);
    ScanKeysIgnoreBase(Tokens(entries), clean, base);
  }

  /** The frequency dict does not depend on the base dictionary the loop also updates. */
  lemma {:induction false} ScanKeysIgnoreBase(tokens: seq<string>, clean: string -> string, base: seq<string>)
    ensures Scan(tokens, clean, Tally([], map[], base)).keys == Scan(tokens, clean, Tally([], map[], [])).keys
    ensures Scan(tokens, clean, Tally([], map[], base)).counts == Scan(tokens, clean, Tally([], map[], [])).counts
  {
    ScanFacts(tokens, clean, Tally([], map[], base));
    ScanFacts(tokens, clean, Tally([], map[], []));
    var a := Scan(tokens, clean, Tally([], map[], base)).counts;
    var b := Scan(tokens, clean, Tally([], map[], [])).counts;
    assert a.Keys == b.Keys;
    forall w | w in a
      ensures a[w] == b[w]
    {
      assert Get(a, w) == Get(b, w);
    }
  }
}
