/** The text list of the Go desktop application (`app.go`): the stored texts and fragments,
    one page of them at a time, selection by ID, deletion, and the replacement of selected
    texts by the fragments the fragmentation service returns. The `App` struct is an
    immutable record here; every method that mutates it returns the new record. */
module TextStore {
  import opened Seqs
  import opened Results
  import opened Decimal
  import Fragmentation

  // ---------------------------------------------------------------------------
  // State
  // ---------------------------------------------------------------------------

  /** A stored text or fragment. */
  datatype TextFragment = TextFragment(id: string, filePath: string, content: string, wordCount: int, displayName: string)

  /** The fragment record the service returns (`text`, `is_successful`, `word_count`). */
  type FragmentMetadata = Fragmentation.Fragment

  /** The application state the modelled methods touch. */
  datatype App = App(texts: seq<TextFragment>, itemsPerPage: int, currentPage: int)

  /** `NewApp()`: no texts, 100 items per page, the first page. */
  function NewApp(): (a: App)
    ensures a.texts == [] && Valid(a) && GetPaginatedData(a) == []
  {
    App([], 100, 0)
  }

  /** The state every method keeps: a positive page size and a current page that exists. */
  predicate Valid(a: App)
  {
    a.itemsPerPage >= 1 && 0 <= a.currentPage < GetTotalPages(a)
  }

  // ---------------------------------------------------------------------------
  // Pagination
  // ---------------------------------------------------------------------------

  /** Go's `/` on `int`: the quotient truncated toward zero. */
  function GoDiv(x: int, y: int): int
    requires y != 0
  {
    var q := (if x < 0 then -x else x) / (if y < 0 then -y else y);
    if (x < 0) != (y < 0) then -q else q
  }

  /** `GetTotalPages()`: 1 for an empty list, otherwise `(len + itemsPerPage - 1) / itemsPerPage`.
      The division panics when the page size is 0. */
  function GetTotalPages(a: App): int
    requires a.texts == [] || a.itemsPerPage != 0
  {
    if a.texts == [] then 1 else GoDiv(|a.texts| + a.itemsPerPage - 1, a.itemsPerPage)
  }

  /** For a positive page size the page count is the least number of pages holding all
      texts, and at least 1. */
  lemma TotalPagesIsCeiling(a: App)
    requires a.itemsPerPage >= 1
    ensures var p, n := GetTotalPages(a), a.itemsPerPage;
      && p >= 1
      && (a.texts != [] ==> (p - 1) * n < |a.texts| <= p * n)
  {
    var n := a.itemsPerPage;
    if a.texts != [] {
      var m := |a.texts| + n - 1;
      var p := m / n;
      assert m == p * n + m % n;
      assert (p - 1) * n == p * n - n;
    }
  }

  function PageStart(a: App): int
  {
    a.currentPage * a.itemsPerPage
  }

  /** The end of the current page, clamped to the list. */
  function PageEnd(a: App): int
  {
    var e := PageStart(a) + a.itemsPerPage;
    if e > |a.texts| then |a.texts| else e
  }

  /** The slice `texts[startIdx:endIdx]` is in bounds (or not reached). */
  predicate PageInBounds(a: App)
  {
    PageStart(a) >= |a.texts| || 0 <= PageStart(a) <= PageEnd(a)
  }

  /** `getPaginatedData()`: the texts of the current page, empty past the end. */
  function GetPaginatedData(a: App): (r: seq<TextFragment>)
    requires PageInBounds(a)
  {
    if PageStart(a) >= |a.texts| then [] else a.texts[PageStart(a)..PageEnd(a)]
  }

  /** In a valid state the page is in bounds, holds at most `itemsPerPage` texts, and is
      empty only when the list is. */
  lemma PageFacts(a: App)
    requires Valid(a)
    ensures PageInBounds(a)
    ensures |GetPaginatedData(a)| <= a.itemsPerPage
    ensures GetPaginatedData(a) == [] <==> a.texts == []
  {
    TotalPagesIsCeiling(a);
    var p, n := a.currentPage, a.itemsPerPage;
    if a.texts != [] {
      assert p * n <= (GetTotalPages(a) - 1) * n;
    }
  }

  /** Multiplying by a positive number preserves strict order, and so does dividing. */
  lemma MulCancel(x: int, y: int, n: int)
    requires n >= 1 && x * n < y * n
    ensures x < y
  {
    assert (y - x) * n == y * n - x * n;
  }

  /** Every text is on exactly the page its index says: text `i` is item `i % n` of page
      `i / n`. */
  lemma PageOfIndex(a: App, i: nat)
    requires a.itemsPerPage >= 1 && i < |a.texts|
    ensures var b := a.(currentPage := i / a.itemsPerPage);
      && Valid(b) && i % a.itemsPerPage < |GetPaginatedData(b)|
      && GetPaginatedData(b)[i % a.itemsPerPage] == a.texts[i]
  {
    var n := a.itemsPerPage;
    var b := a.(currentPage := i / n);
    TotalPagesIsCeiling(a);
    assert i == (i / n) * n + i % n;
    assert (i / n) * n <= i;
    MulCancel(i / n, GetTotalPages(a), n);
    PageFacts(b);
  }

  /** The pages from `p` on, concatenated, are the texts from `p * n` on. */
  function PagesFrom(a: App, p: nat): seq<TextFragment>
    requires a.itemsPerPage >= 1
    decreases |a.texts| - p * a.itemsPerPage
  {
    var b := a.(currentPage := p);
    if PageStart(b) >= |a.texts| then [] else GetPaginatedData(b) + PagesFrom(a, p + 1)
  }

  /** One step of paging: a page that starts inside the list is the next `n` texts or the
      rest of the list, whichever is shorter. */
  lemma PageSlice(a: App, p: nat)
    requires a.itemsPerPage >= 1 && p * a.itemsPerPage < |a.texts|
    ensures var b := a.(currentPage := p);
            var n := a.itemsPerPage;
      && PageInBounds(b)
      && PagesFrom(a, p) == GetPaginatedData(b) + PagesFrom(a, p + 1)
      && GetPaginatedData(b) == a.texts[p * n..PageEnd(b)]
      && PageEnd(b) == (if (p + 1) * n <= |a.texts| then (p + 1) * n else |a.texts|)
  {
    assert (p + 1) * a.itemsPerPage == p * a.itemsPerPage + a.itemsPerPage;
  }

  /** Paging through the list from page `p` on shows every text from `p * n` on once, in
      order; from page 0, the whole list. */
  lemma {:induction false} PagesCoverTexts(a: App, p: nat)
    requires a.itemsPerPage >= 1
    ensures p * a.itemsPerPage <= |a.texts| ==> PagesFrom(a, p) == a.texts[p * a.itemsPerPage..]
    decreases |a.texts| - p * a.itemsPerPage
  {
    var n := a.itemsPerPage;
    if p * n < |a.texts| {
      var b := a.(currentPage := p);
      PageSlice(a, p);
      var q := (p + 1) * n;
      if q <= |a.texts| {
        PagesCoverTexts(a, p + 1);
        assert a.texts[p * n..] == a.texts[p * n..q] + a.texts[q..];
      } else {
        var c := a.(currentPage := p + 1);
        assert PageStart(c) >= |a.texts|;
        assert PagesFrom(a, p + 1) == [];
      }
    } else if p * n == |a.texts| {
      assert PageStart(a.(currentPage := p)) >= |a.texts|;
    }
  }

  /** `SetCurrentPage(page)`: moves to an existing page, or reports "page out of range" and
      changes nothing. */
  function SetCurrentPage(a: App, page: int): (r: (App, Outcome))
    requires a.texts == [] || a.itemsPerPage != 0
    ensures r.1 == Pass <==> 0 <= page < GetTotalPages(a)
    ensures r.1 == Pass ==> r.0 == a.(currentPage := page)
    ensures r.1 != Pass ==> r.0 == a && r.1 == Fail("page out of range")
  {
    if page < 0 || page >= GetTotalPages(a) then (a, Fail("page out of range"))
    else (a.(currentPage := page), Pass)
  }

  /** A page `SetCurrentPage` accepts keeps the state valid and shows texts, unless the list
      is empty. */
  lemma SetCurrentPageValid(a: App, page: int)
    requires Valid(a)
    ensures Valid(SetCurrentPage(a, page).0)
    ensures SetCurrentPage(a, page).1 == Pass && a.texts != [] ==> GetPaginatedData(SetCurrentPage(a, page).0) != []
  {
    PageFacts(SetCurrentPage(a, page).0);
  }

  // ---------------------------------------------------------------------------
  // Lookup and selection
  // ---------------------------------------------------------------------------

  /** `GetText(index)`: the text at `index`, or "index out of range". */
  function GetText(a: App, index: int): (r: Result<TextFragment>)
    ensures r.Ok? <==> 0 <= index < |a.texts|
    ensures r.Ok? ==> r.value == a.texts[index]
    ensures r.Err? ==> r.msg == "index out of range"
  {
    if index < 0 || index >= |a.texts| then Err("index out of range") else Ok(a.texts[index])
  }

  /** The texts whose ID is selected, in stored order. */
  function Selected(texts: seq<TextFragment>, ids: seq<string>): (r: seq<TextFragment>)
    ensures forall k :: 0 <= k < |r| ==> r[k].id in ids
  {
    if texts == [] then []
    else (if texts[0].id in ids then [texts[0]] else []) + Selected(texts[1..], ids)
  }

  /** The texts whose ID is not selected, in stored order. */
  function Kept(texts: seq<TextFragment>, ids: seq<string>): (r: seq<TextFragment>)
    ensures forall k :: 0 <= k < |r| ==> r[k].id !in ids
  {
    if texts == [] then []
    else (if texts[0].id !in ids then [texts[0]] else []) + Kept(texts[1..], ids)
  }

  /** Selecting commutes with concatenation, so the selection keeps the stored order. */
  lemma {:induction false} SelectedAppend(a: seq<TextFragment>, b: seq<TextFragment>, ids: seq<string>)
    ensures Selected(a + b, ids) == Selected(a, ids) + Selected(b, ids)
    decreases |a|
  {
    if a == [] {
      assert a + b == b;
    } else {
      assert (a + b)[1..] == a[1..] + b;
      SelectedAppend(a[1..], b, ids);
    }
  }

  /** Keeping commutes with concatenation, so the kept texts stay in stored order. */
  lemma {:induction false} KeptAppend(a: seq<TextFragment>, b: seq<TextFragment>, ids: seq<string>)
    ensures Kept(a + b, ids) == Kept(a, ids) + Kept(b, ids)
    decreases |a|
  {
    if a == [] {
      assert a + b == b;
    } else {
      assert (a + b)[1..] == a[1..] + b;
      KeptAppend(a[1..], b, ids);
    }
  }

  /** The selection splits the list: every text with a selected ID is selected as often
      as it is stored, every other one is kept as often as it is stored, and nothing else
      is selected or kept. */
  lemma SelectionCounts(a: seq<TextFragment>, ids: seq<string>, t: TextFragment)
    ensures multiset(Selected(a, ids))[t] == (if t.id in ids then multiset(a)[t] else 0)
    ensures multiset(Kept(a, ids))[t] == (if t.id in ids then 0 else multiset(a)[t])
  {
    SelectedCount(a, ids, t);
    KeptCount(a, ids, t);
  }

  lemma {:induction false} SelectedCount(a: seq<TextFragment>, ids: seq<string>, t: TextFragment)
    ensures multiset(Selected(a, ids))[t] == (if t.id in ids then multiset(a)[t] else 0)
    decreases |a|
  {
    if a != [] {
      SelectedCount(a[1..], ids, t);
      var head := if a[0].id in ids then [a[0]] else [];
      assert Selected(a, ids) == head + Selected(a[1..], ids);
      assert multiset(Selected(a, ids)) == multiset(head) + multiset(Selected(a[1..], ids));
      assert a == [a[0]] + a[1..];
      assert multiset(a) == multiset{a[0]} + multiset(a[1..]);
    }
  }

  lemma {:induction false} KeptCount(a: seq<TextFragment>, ids: seq<string>, t: TextFragment)
    ensures multiset(Kept(a, ids))[t] == (if t.id in ids then 0 else multiset(a)[t])
    decreases |a|
  {
    if a != [] {
      KeptCount(a[1..], ids, t);
      var head := if a[0].id !in ids then [a[0]] else [];
      assert Kept(a, ids) == head + Kept(a[1..], ids);
      assert multiset(Kept(a, ids)) == multiset(head) + multiset(Kept(a[1..], ids));
      assert a == [a[0]] + a[1..];
      assert multiset(a) == multiset{a[0]} + multiset(a[1..]);
    }
  }

  /** Selected and kept texts together are the list, up to order. */
  lemma SelectionSplits(a: seq<TextFragment>, ids: seq<string>)
    ensures multiset(Selected(a, ids)) + multiset(Kept(a, ids)) == multiset(a)
  {
    forall t
      ensures (multiset(Selected(a, ids)) + multiset(Kept(a, ids)))[t] == multiset(a)[t]
    {
      SelectionCounts(a, ids, t);
    }
  }

  function Contents(texts: seq<TextFragment>): (r: seq<string>)
    ensures |r| == |texts|
    ensures forall k :: 0 <= k < |r| ==> r[k] == texts[k].content
  {
    if texts == [] then [] else [texts[0].content] + Contents(texts[1..])
  }

  /** `getSelectedTexts(selectedIDs)`: the contents of the selected texts in stored order;
      the order and repetitions of the selection do not matter. */
  function GetSelectedTexts(a: App, ids: seq<string>): (r: seq<string>)
    ensures |r| <= |a.texts|
  {
    SelectionSplits(a.texts, ids);
    var s := Selected(a.texts, ids);
    assert |s| <= |a.texts| by {
      assert |multiset(s)| <= |multiset(a.texts)|;
    }
    Contents(s)
  }

  /** The selected contents are exactly those of the stored texts whose ID is selected:
      every such text contributes its content, and every returned string comes from one. */
  lemma GetSelectedTextsFacts(a: App, ids: seq<string>)
    ensures forall k :: 0 <= k < |a.texts| && a.texts[k].id in ids ==>
              a.texts[k].content in GetSelectedTexts(a, ids)
    ensures forall s :: s in GetSelectedTexts(a, ids) ==>
              exists k :: 0 <= k < |a.texts| && a.texts[k].id in ids && a.texts[k].content == s
  {
    var sel := Selected(a.texts, ids);
    var r := GetSelectedTexts(a, ids);
    assert r == Contents(sel);
    forall k | 0 <= k < |a.texts| && a.texts[k].id in ids
      ensures a.texts[k].content in r
    {
      SelectionCounts(a.texts, ids, a.texts[k]);
      assert a.texts[k] in multiset(sel);
      var j :| 0 <= j < |sel| && sel[j] == a.texts[k];
      assert r[j] == a.texts[k].content;
    }
    forall s | s in r
      ensures exists k :: 0 <= k < |a.texts| && a.texts[k].id in ids && a.texts[k].content == s
    {
      var j :| 0 <= j < |r| && r[j] == s;
      var t := sel[j];
      SelectionCounts(a.texts, ids, t);
      assert t in multiset(sel);
      assert t in a.texts;
      var k :| 0 <= k < |a.texts| && a.texts[k] == t;
      assert a.texts[k].content == s;
    }
  }

  /** Only the set of selected IDs matters. */
  lemma {:induction false} SelectionBySet(texts: seq<TextFragment>, ids: seq<string>, ids': seq<string>)
    requires forall x :: x in ids <==> x in ids'
    ensures Selected(texts, ids) == Selected(texts, ids')
    ensures Kept(texts, ids) == Kept(texts, ids')
    decreases |texts|
  {
    if texts != [] {
      SelectionBySet(texts[1..], ids, ids');
    }
  }

  // ---------------------------------------------------------------------------
  // Removal and replacement
  // ---------------------------------------------------------------------------

  /** `DeleteFragments(selectedIDs)`: goes back to the first page and never fails. A text
      stays, as often as it is stored, exactly when its ID is not selected; the order of
      what stays is stated by `KeptAppend`. */
  function DeleteFragments(a: App, ids: seq<string>): (r: App)
    ensures forall t :: multiset(r.texts)[t] == (if t.id in ids then 0 else multiset(a.texts)[t])
    ensures forall k :: 0 <= k < |r.texts| ==> r.texts[k].id !in ids
    ensures r.itemsPerPage == a.itemsPerPage && r.currentPage == 0
  {
    var kept := Kept(a.texts, ids);
    assert forall t :: multiset(kept)[t] == (if t.id in ids then 0 else multiset(a.texts)[t]) by {
      forall t
        ensures multiset(kept)[t] == (if t.id in ids then 0 else multiset(a.texts)[t])
      {
        KeptCount(a.texts, ids, t);
      }
    }
    App(kept, a.itemsPerPage, 0)
  }

  /** `fmt.Sprintf("fragment_%d_%d", base, j)`. */
  function FragmentId(base: nat, j: nat): string
  {
    "fragment_" + NatToString(base) + "_" + NatToString(j)
  }

  /** The record built for fragment `f` at loop index `i` while the list under construction
      holds `n` texts: ID and path `fragment_<n>_<i+1>`, display name `Fragment <n+i+1>`. */
  function GoItem(n: nat, i: nat, f: FragmentMetadata): TextFragment
  {
    var id := FragmentId(n, i + 1);
    TextFragment(id, id, f.text, f.wordCount, "Fragment " + NatToString(n + i + 1))
  }

  /** The loop that appends the fragments, from loop index `i` on. Every record reads
      `len(newTexts)` afresh, so it counts the records appended before it. */
  function AppendFragments(texts: seq<TextFragment>, frags: seq<FragmentMetadata>, i: nat): (r: seq<TextFragment>)
    ensures |r| == |texts| + |frags|
    decreases |frags|
  {
    if frags == [] then texts
    else AppendFragments(texts + [GoItem(|texts|, i, frags[0])], frags[1..], i + 1)
  }

  /** The loop appends one record per fragment after the texts, and record `k` is built
      while the list holds `|texts| + k` texts. */
  lemma {:induction false} AppendFragmentsShape(texts: seq<TextFragment>, frags: seq<FragmentMetadata>, i: nat)
    ensures var r := AppendFragments(texts, frags, i);
      && |r| == |texts| + |frags|
      && r[..|texts|] == texts
      && (forall k :: 0 <= k < |frags| ==> r[|texts| + k] == GoItem(|texts| + k, i + k, frags[k]))
    decreases |frags|
  {
    if frags != [] {
      var t := texts + [GoItem(|texts|, i, frags[0])];
      AppendFragmentsShape(t, frags[1..], i + 1);
      var r := AppendFragments(texts, frags, i);
      assert r[..|t|] == t;
      assert r[..|texts|] == t[..|texts|] == texts;
      forall k | 0 <= k < |frags|
        ensures r[|texts| + k] == GoItem(|texts| + k, i + k, frags[k])
      {
        if k == 0 {
          assert r[|texts|] == t[|texts|];
        } else {
          assert frags[1..][k - 1] == frags[k];
          assert r[|t| + (k - 1)] == GoItem(|t| + (k - 1), i + 1 + (k - 1), frags[1..][k - 1]);
        }
      }
    }
  }

  /** `replaceTextsWithFragments(selectedIDs, fragments)` as written: the unselected texts,
      then the fragments appended one by one, and the first page. */
  function ReplaceTextsWithFragments(a: App, ids: seq<string>, frags: seq<FragmentMetadata>): App
  {
    App(AppendFragments(Kept(a.texts, ids), frags, 0), a.itemsPerPage, 0)
  }

  /** What the replacement keeps and adds: the kept texts first, in order, then one record
      per fragment in fragment order carrying its text and word count. As the list grows
      with every record, fragment `i` (0-based) gets ID and path `fragment_<kept+i>_<i+1>`
      and display name `Fragment <kept+2i+1>`. The page goes back to 0. */
  lemma ReplaceFacts(a: App, ids: seq<string>, frags: seq<FragmentMetadata>)
    ensures var r := ReplaceTextsWithFragments(a, ids, frags);
            var kept := Kept(a.texts, ids);
      && |r.texts| == |kept| + |frags|
      && r.texts[..|kept|] == kept
      && (forall i :: 0 <= i < |frags| ==>
            && r.texts[|kept| + i].content == frags[i].text
            && r.texts[|kept| + i].wordCount == frags[i].wordCount
            && r.texts[|kept| + i].id == FragmentId(|kept| + i, i + 1)
            && r.texts[|kept| + i].filePath == r.texts[|kept| + i].id
            && r.texts[|kept| + i].displayName == "Fragment " + NatToString(|kept| + 2 * i + 1))
      && r.currentPage == 0 && r.itemsPerPage == a.itemsPerPage
  {
    AppendFragmentsShape(Kept(a.texts, ids), frags, 0);
  }

  /** As written, display numbers skip one per record: after `kept` texts the new records
      are called `Fragment <kept+1>`, `Fragment <kept+3>`, and so on. With two fragments or
      more the last record is not called by its position: its number is past the end of
      the list. */
  lemma DisplayNumbersSkip(a: App, ids: seq<string>, frags: seq<FragmentMetadata>)
    requires |frags| >= 2
    ensures var r := ReplaceTextsWithFragments(a, ids, frags).texts;
      && r[|r| - 1].displayName == "Fragment " + NatToString(|r| + |frags| - 1)
      && r[|r| - 1].displayName != "Fragment " + NatToString(|r|)
  {
    var kept := Kept(a.texts, ids);
    ReplaceFacts(a, ids, frags);
    var r := ReplaceTextsWithFragments(a, ids, frags).texts;
    var i := |frags| - 1;
    assert r[|kept| + i].displayName == "Fragment " + NatToString(|kept| + 2 * i + 1);
    assert |r| - 1 == |kept| + i && |kept| + 2 * i + 1 == |r| + |frags| - 1;
    var p := "Fragment ";
    var s1, s2 := NatToString(|r| + |frags| - 1), NatToString(|r|);
    if s1 == s2 {
      NatToStringInjective(|r| + |frags| - 1, |r|);
      assert false;
    }
    assert (p + s1)[|p|..] == s1 && (p + s2)[|p|..] == s2;
  }

  // ---------------------------------------------------------------------------
  // Unique IDs
  // ---------------------------------------------------------------------------

  /** Every stored text has its own ID, which selection relies on. */
  predicate UniqueIds(texts: seq<TextFragment>)
  {
    forall i, j :: 0 <= i < j < |texts| ==> texts[i].id != texts[j].id
  }

  /** Fragment IDs with the same first number differ in their second number. */
  lemma FragmentIdInjective(b: nat, j: nat, k: nat)
    requires FragmentId(b, j) == FragmentId(b, k)
    ensures j == k
  {
    var p := "fragment_" + NatToString(b) + "_";
    assert FragmentId(b, j) == p + NatToString(j);
    assert FragmentId(b, k) == p + NatToString(k);
    assert NatToString(j) == FragmentId(b, j)[|p|..];
    assert NatToString(k) == FragmentId(b, k)[|p|..];
    NatToStringInjective(j, k);
  }

  /** Keeping a part of a list with unique IDs keeps them unique. */
  lemma {:induction false} KeptUnique(texts: seq<TextFragment>, ids: seq<string>)
    requires UniqueIds(texts)
    ensures UniqueIds(Kept(texts, ids))
    decreases |texts|
  {
    if texts != [] {
      var rest := Kept(texts[1..], ids);
      KeptUnique(texts[1..], ids);
      if texts[0].id !in ids {
        forall k | 0 <= k < |rest|
          ensures rest[k].id != texts[0].id
        {
          var t := rest[k];
          KeptCount(texts[1..], ids, t);
          assert t in multiset(rest);
          var m :| 0 <= m < |texts[1..]| && texts[1..][m] == t;
          assert texts[m + 1] == t;
        }
        assert Kept(texts, ids) == [texts[0]] + rest;
        ConsUnique(texts[0], rest);
      } else {
        assert Kept(texts, ids) == rest;
      }
    }
  }

  /** A record whose ID no record of a unique list has can go in front of it. */
  lemma ConsUnique(t: TextFragment, rest: seq<TextFragment>)
    requires UniqueIds(rest)
    requires forall k :: 0 <= k < |rest| ==> rest[k].id != t.id
    ensures UniqueIds([t] + rest)
  {
    var l := [t] + rest;
    forall i, j | 0 <= i < j < |l|
      ensures l[i].id != l[j].id
    {
      assert l[j] == rest[j - 1];
      if i > 0 {
        assert l[i] == rest[i - 1];
      }
    }
  }

  /** One step of `Kept`. */
  lemma KeptCons(t: TextFragment, rest: seq<TextFragment>, ids: seq<string>)
    ensures Kept([t] + rest, ids) == (if t.id !in ids then [t] else []) + Kept(rest, ids)
  {
    assert ([t] + rest)[0] == t && ([t] + rest)[1..] == rest;
  }

  /** As written, the first new record is numbered with the count of kept texts, so a kept
      record that already carries `fragment_<kept>_1` collides with it. */
  lemma ReplaceCollides(a: App, ids: seq<string>, frags: seq<FragmentMetadata>, k: nat)
    requires frags != []
    requires k < |Kept(a.texts, ids)|
    requires Kept(a.texts, ids)[k].id == FragmentId(|Kept(a.texts, ids)|, 1)
    ensures !UniqueIds(ReplaceTextsWithFragments(a, ids, frags).texts)
  {
    var kept := Kept(a.texts, ids);
    var t := ReplaceTextsWithFragments(a, ids, frags).texts;
    ReplaceFacts(a, ids, frags);
    assert t[k] == t[..|kept|][k];
    assert t[|kept| + 0].id == FragmentId(|kept| + 0, 0 + 1);
  }

  /** The first selection of the scenario keeps `a.txt` and `b.txt`. */
  lemma ScenarioFirstKept(x: TextFragment, y: TextFragment, z: TextFragment)
    requires x.id != "c.txt" && y.id != "c.txt" && z.id == "c.txt"
    ensures Kept([x, y, z], ["c.txt"]) == [x, y]
  {
    var ids := ["c.txt"];
    KeptCons(z, [], ids);
    KeptCons(y, [z], ids);
    KeptCons(x, [y, z], ids);
    assert [x] + [y, z] == [x, y, z] && [y] + [z] == [y, z] && [z] + [] == [z];
  }

  /** The numerals the scenario uses. */
  lemma SmallNumerals()
    ensures NatToString(1) == "1" && NatToString(2) == "2" && NatToString(3) == "3" && NatToString(5) == "5"
  {
  }

  /** The first replacement of the scenario: after `a.txt` and `b.txt`, the two fragments
      of `c.txt` become `fragment_2_1` ("Fragment 3") and `fragment_3_2` ("Fragment 5"). */
  lemma ScenarioFirstStep(x: TextFragment, y: TextFragment, z: TextFragment, f: FragmentMetadata)
    requires x.id != "c.txt" && y.id != "c.txt" && z.id == "c.txt"
    ensures var r := ReplaceTextsWithFragments(App([x, y, z], 100, 0), ["c.txt"], [f, f]).texts;
      && r == [x, y, GoItem(2, 0, f), GoItem(3, 1, f)]
      && r[2].id == "fragment_2_1" && r[2].displayName == "Fragment 3"
      && r[3].id == "fragment_3_2" && r[3].displayName == "Fragment 5"
  {
    ScenarioFirstKept(x, y, z);
    AppendFragmentsShape([x, y], [f, f], 0);
    var r := AppendFragments([x, y], [f, f], 0);
    assert r[2] == GoItem(2 + 0, 0 + 0, f) && r[3] == GoItem(2 + 1, 0 + 1, f);
    assert r[0] == r[..2][0] && r[1] == r[..2][1];
    assert r == [x, y, GoItem(2, 0, f), GoItem(3, 1, f)];
    SmallNumerals();
  }

  /** The second selection of the scenario keeps `b.txt` and `fragment_2_1`. */
  lemma ScenarioSecondKept(x: TextFragment, y: TextFragment, f1: TextFragment, f2: TextFragment, sel: seq<string>)
    requires x.id in sel && y.id !in sel && f1.id !in sel && f2.id in sel
    ensures Kept([x, y, f1, f2], sel) == [y, f1]
  {
    KeptCons(f2, [], sel);
    KeptCons(f1, [f2], sel);
    KeptCons(y, [f1, f2], sel);
    KeptCons(x, [y, f1, f2], sel);
    assert [x] + [y, f1, f2] == [x, y, f1, f2] && [y] + [f1, f2] == [y, f1, f2];
    assert [f1] + [f2] == [f1, f2] && [f2] + [] == [f2];
  }

  /** The as-written replacement can give two records the same ID: three loaded files
      become `a.txt`, `b.txt`, `fragment_2_1` and `fragment_3_2`; replacing `a.txt` and
      `fragment_3_2` by one fragment keeps `b.txt` and `fragment_2_1` and then appends a
      second `fragment_2_1`. */
  lemma ReplaceDuplicatesIds(f: FragmentMetadata)
    ensures var a := App([TextFragment("a.txt", "a.txt", "", 0, "a.txt"),
                          TextFragment("b.txt", "b.txt", "", 0, "b.txt"),
                          TextFragment("c.txt", "c.txt", "", 0, "c.txt")], 100, 0);
            var a1 := ReplaceTextsWithFragments(a, ["c.txt"], [f, f]);
            var a2 := ReplaceTextsWithFragments(a1, ["a.txt", "fragment_3_2"], [f]);
      && UniqueIds(a.texts) && UniqueIds(a1.texts) && !UniqueIds(a2.texts)
      && |a2.texts| == 3 && a2.texts[1].id == "fragment_2_1" && a2.texts[2].id == "fragment_2_1"
  {
    var x := TextFragment("a.txt", "a.txt", "", 0, "a.txt");
    var y := TextFragment("b.txt", "b.txt", "", 0, "b.txt");
    var z := TextFragment("c.txt", "c.txt", "", 0, "c.txt");
    assert "a.txt"[0] == 'a' && "b.txt"[0] == 'b' && "c.txt"[0] == 'c';
    var a := App([x, y, z], 100, 0);
    assert UniqueIds(a.texts);
    ScenarioFirstStep(x, y, z, f);
    var a1 := ReplaceTextsWithFragments(a, ["c.txt"], [f, f]);
    var f1, f2 := GoItem(2, 0, f), GoItem(3, 1, f);
    assert "fragment_2_1"[0] == 'f' && "fragment_3_2"[0] == 'f';
    assert "fragment_2_1"[9] == '2' && "fragment_3_2"[9] == '3';
    assert UniqueIds(a1.texts);
    var sel := ["a.txt", "fragment_3_2"];
    ScenarioSecondKept(x, y, f1, f2, sel);
    ReplaceCollides(a1, sel, [f], 1);
    ReplaceFacts(a1, sel, [f]);
    var a2 := ReplaceTextsWithFragments(a1, sel, [f]);
    assert a2.texts[1] == a2.texts[..2][1];
    assert a2.texts[2 + 0].id == FragmentId(2 + 0, 0 + 1);
    assert FragmentId(2, 1) == "fragment_2_1" by {
      assert NatToString(1) == "1" && NatToString(2) == "2";
    }
  }

  /** The greatest ID length in a list. */
  function MaxIdLength(texts: seq<TextFragment>): (m: nat)
    ensures forall k :: 0 <= k < |texts| ==> |texts[k].id| <= m
  {
    if texts == [] then 0
    else
      var m := MaxIdLength(texts[1..]);
      if |texts[0].id| > m then |texts[0].id| else m
  }

  function Pow10(k: nat): (p: nat)
    ensures p >= 1
  {
    if k == 0 then 1 else 10 * Pow10(k - 1)
  }

  /** `10^k` has `k + 1` digits. */
  lemma {:induction false} Pow10Digits(k: nat)
    ensures |NatToString(Pow10(k))| == k + 1
  {
    if k > 0 {
      Pow10Digits(k - 1);
      var p := Pow10(k);
      assert p / 10 == Pow10(k - 1) && p % 10 == 0;
    }
  }

  /** A first number for new fragment IDs that no kept ID can already use: its numeral is
      longer than every kept ID. */
  function FreshBase(kept: seq<TextFragment>): (b: nat)
    ensures forall k, j :: 0 <= k < |kept| ==> kept[k].id != FragmentId(b, j)
  {
    var b := Pow10(MaxIdLength(kept));
    Pow10Digits(MaxIdLength(kept));
    b
  }

  /** The record the corrected replacement builds for fragment `i` after `kept` texts: its
      IDs take the first number `idBase`, and its display number is its position. */
  function FixedItem(idBase: nat, kept: nat, i: nat, f: FragmentMetadata): TextFragment
  {
    var id := FragmentId(idBase, i + 1);
    TextFragment(id, id, f.text, f.wordCount, "Fragment " + NatToString(kept + i + 1))
  }

  function FixedItems(idBase: nat, kept: nat, frags: seq<FragmentMetadata>): seq<TextFragment>
  {
    seq(|frags|, i requires 0 <= i < |frags| => FixedItem(idBase, kept, i, frags[i]))
  }

  /** The records of one corrected replacement have distinct IDs. */
  lemma FixedItemsUnique(idBase: nat, kept: nat, frags: seq<FragmentMetadata>)
    ensures UniqueIds(FixedItems(idBase, kept, frags))
  {
    var items := FixedItems(idBase, kept, frags);
    forall i, j | 0 <= i < j < |items|
      ensures items[i].id != items[j].id
    {
      if items[i].id == items[j].id {
        FragmentIdInjective(idBase, i + 1, j + 1);
      }
    }
  }

  /** The replacement as evidently intended: new IDs share a first number no kept ID can
      carry, and every new record is called `Fragment <its position>`. */
  function ReplaceCorrected(a: App, ids: seq<string>, frags: seq<FragmentMetadata>): App
  {
    var kept := Kept(a.texts, ids);
    App(kept + FixedItems(FreshBase(kept), |kept|, frags), a.itemsPerPage, 0)
  }

  /** The corrected replacement names every new record by its position, so no two new
      records share a display name. */
  lemma ReplaceCorrectedNames(a: App, ids: seq<string>, frags: seq<FragmentMetadata>)
    ensures var r := ReplaceCorrected(a, ids, frags).texts;
            var n := |Kept(a.texts, ids)|;
      && (forall k :: n <= k < |r| ==> r[k].displayName == "Fragment " + NatToString(k + 1))
      && (forall i, j :: n <= i < j < |r| ==> r[i].displayName != r[j].displayName)
  {
    var kept := Kept(a.texts, ids);
    var items := FixedItems(FreshBase(kept), |kept|, frags);
    var t := kept + items;
    var p := "Fragment ";
    forall k | |kept| <= k < |t|
      ensures t[k].displayName == p + NatToString(k + 1)
    {
      assert t[k] == items[k - |kept|];
    }
    forall i, j | |kept| <= i < j < |t|
      ensures t[i].displayName != t[j].displayName
    {
      assert t[i] == items[i - |kept|] && t[j] == items[j - |kept|];
      if t[i].displayName == t[j].displayName {
        assert (p + NatToString(i + 1))[|p|..] == NatToString(i + 1);
        assert (p + NatToString(j + 1))[|p|..] == NatToString(j + 1);
        NatToStringInjective(i + 1, j + 1);
        assert false;
      }
    }
  }

  /** The corrected replacement keeps unique IDs unique. */
  lemma ReplaceCorrectedUnique(a: App, ids: seq<string>, frags: seq<FragmentMetadata>)
    requires UniqueIds(a.texts)
    ensures UniqueIds(ReplaceCorrected(a, ids, frags).texts)
  {
    var kept := Kept(a.texts, ids);
    var b := FreshBase(kept);
    var items := FixedItems(b, |kept|, frags);
    KeptUnique(a.texts, ids);
    FixedItemsUnique(b, |kept|, frags);
    JoinUnique(kept, items);
  }

  /** Two lists with unique IDs, none shared, join into one. */
  lemma JoinUnique(p: seq<TextFragment>, q: seq<TextFragment>)
    requires UniqueIds(p) && UniqueIds(q)
    requires forall i, j :: 0 <= i < |p| && 0 <= j < |q| ==> p[i].id != q[j].id
    ensures UniqueIds(p + q)
  {
    var t := p + q;
    forall i, j | 0 <= i < j < |t|
      ensures t[i].id != t[j].id
    {
      if i >= |p| {
        assert t[i] == q[i - |p|] && t[j] == q[j - |p|];
      } else if j >= |p| {
        assert t[i] == p[i] && t[j] == q[j - |p|];
      } else {
        assert t[i] == p[i] && t[j] == p[j];
      }
    }
  }

  /** The corrected replacement differs from the as-written one only in the ID, path and
      display name of the new records. */
  lemma ReplaceCorrectedAgrees(a: App, ids: seq<string>, frags: seq<FragmentMetadata>)
    ensures var r := ReplaceCorrected(a, ids, frags);
            var w := ReplaceTextsWithFragments(a, ids, frags);
      && |r.texts| == |w.texts| && r.currentPage == w.currentPage && r.itemsPerPage == w.itemsPerPage
      && r.texts[..|Kept(a.texts, ids)|] == w.texts[..|Kept(a.texts, ids)|]
      && (forall k :: 0 <= k < |r.texts| ==>
            r.texts[k] == w.texts[k].(id := r.texts[k].id, filePath := r.texts[k].filePath,
                                      displayName := r.texts[k].displayName))
  {
    var kept := Kept(a.texts, ids);
    var items := FixedItems(FreshBase(kept), |kept|, frags);
    var t := kept + items;
    var w := ReplaceTextsWithFragments(a, ids, frags).texts;
    ReplaceFacts(a, ids, frags);
    assert t[..|kept|] == kept;
    forall k | 0 <= k < |t|
      ensures t[k] == w[k].(id := t[k].id, filePath := t[k].filePath, displayName := t[k].displayName)
    {
      if k < |kept| {
        assert t[k] == kept[k] && w[k] == w[..|kept|][k];
      } else {
        var i := k - |kept|;
        assert t[k] == items[i];
        assert w[|kept| + i].content == frags[i].text;
      }
    }
  }

  // ---------------------------------------------------------------------------
  // Fragmentation through the service
  // ---------------------------------------------------------------------------

  /** `callPythonFragmentation`: the service runs once per text, with the text on its
      standard input, and the fragments of all texts are concatenated. A run that fails
      (an unknown mode makes the script exit with status 1) fails the whole call. */
  function CallFragmentation(texts: seq<string>, mode: string, target: int, tolerance: int)
    : (r: Result<seq<FragmentMetadata>>)
  {
    if texts == [] then Ok([])
    else
      match Fragmentation.RunCli(mode, target, tolerance, texts[0])
      case Err(_) => Err("python service error: exit status 1")
      case Ok(fs) =>
        match CallFragmentation(texts[1..], mode, target, tolerance)
        case Err(e) => Err(e)
        case Ok(rest) => Ok(fs + rest)
  }

  /** Running the service text by text is the service's own batch operation: for the modes
      it knows, the call returns the fragments `process_large_texts` computes, and for any
      other mode it fails as soon as there is a text. */
  lemma {:induction false} CallIsBatch(texts: seq<string>, mode: string, target: int, tolerance: int)
    ensures (mode == "size" || mode == "row") ==>
      CallFragmentation(texts, mode, target, tolerance) == Ok(Fragmentation.ProcessLargeTexts(texts, target, tolerance, mode))
    ensures mode != "size" && mode != "row" && texts != [] ==>
      CallFragmentation(texts, mode, target, tolerance) == Err("python service error: exit status 1")
    decreases |texts|
  {
    if texts != [] && (mode == "size" || mode == "row") {
      CallIsBatch(texts[1..], mode, target, tolerance);
      Fragmentation.BatchAppend([texts[0]], texts[1..], target, tolerance, mode);
      assert [texts[0]] + texts[1..] == texts;
    }
  }

  /** `FragmentTexts(selectedIDs, mode, target, tolerance)`: the selected contents go
      through the service; on success the selected texts are replaced by the fragments
      with `replaceTextsWithFragments` as written, otherwise the state is unchanged. */
  function FragmentTexts(a: App, ids: seq<string>, mode: string, target: int, tolerance: int)
    : (r: (App, Result<seq<FragmentMetadata>>))
  {
    var selected := GetSelectedTexts(a, ids);
    if selected == [] then (a, Err("no texts selected"))
    else
      match CallFragmentation(selected, mode, target, tolerance)
      case Err(e) => (a, Err(e))
      case Ok(frags) => (ReplaceTextsWithFragments(a, ids, frags), Ok(frags))
  }

  /** The whole operation: with nothing selected it reports "no texts selected"; with an
      unknown mode it reports the service error; otherwise the selected texts make way for
      the fragments of the service's batch operation. The state stays valid. */
  lemma FragmentTextsFacts(a: App, ids: seq<string>, mode: string, target: int, tolerance: int)
    requires Valid(a)
    ensures var (b, r) := FragmentTexts(a, ids, mode, target, tolerance);
            var selected := GetSelectedTexts(a, ids);
      && (selected == [] ==> b == a && r == Err("no texts selected"))
      && (selected != [] && mode != "size" && mode != "row" ==>
            b == a && r == Err("python service error: exit status 1"))
      && (selected != [] && (mode == "size" || mode == "row") ==>
            && r == Ok(Fragmentation.ProcessLargeTexts(selected, target, tolerance, mode))
            && b == ReplaceTextsWithFragments(a, ids, r.value))
      && Valid(b)
  {
    CallIsBatch(GetSelectedTexts(a, ids), mode, target, tolerance);
    var (b, r) := FragmentTexts(a, ids, mode, target, tolerance);
    TotalPagesIsCeiling(b);
  }

  /** `FragmentTexts` with the corrected replacement. */
  function FragmentTextsFixed(a: App, ids: seq<string>, mode: string, target: int, tolerance: int)
    : (r: (App, Result<seq<FragmentMetadata>>))
  {
    var selected := GetSelectedTexts(a, ids);
    if selected == [] then (a, Err("no texts selected"))
    else
      match CallFragmentation(selected, mode, target, tolerance)
      case Err(e) => (a, Err(e))
      case Ok(frags) => (ReplaceCorrected(a, ids, frags), Ok(frags))
  }

  /** With the corrected replacement the operation reports the same outcome and stores the
      same contents in the same order, keeps the state valid, and keeps unique IDs unique. */
  lemma FragmentTextsFixedFacts(a: App, ids: seq<string>, mode: string, target: int, tolerance: int)
    requires Valid(a)
    ensures var (b, r) := FragmentTextsFixed(a, ids, mode, target, tolerance);
            var (w, rw) := FragmentTexts(a, ids, mode, target, tolerance);
      && r == rw
      && (r.Err? ==> b == a)
      && |b.texts| == |w.texts|
      && (forall k :: 0 <= k < |b.texts| ==>
            b.texts[k].content == w.texts[k].content && b.texts[k].wordCount == w.texts[k].wordCount)
      && Valid(b)
      && (UniqueIds(a.texts) ==> UniqueIds(b.texts))
  {
    var (b, r) := FragmentTextsFixed(a, ids, mode, target, tolerance);
    TotalPagesIsCeiling(b);
    var selected := GetSelectedTexts(a, ids);
    if selected != [] && CallFragmentation(selected, mode, target, tolerance).Ok? {
      var frags := CallFragmentation(selected, mode, target, tolerance).value;
      ReplaceCorrectedAgrees(a, ids, frags);
      if UniqueIds(a.texts) {
        ReplaceCorrectedUnique(a, ids, frags);
      }
    }
  }

  /** Deleting and replacing keep the state valid. */
  lemma MutationsKeepValid(a: App, ids: seq<string>, frags: seq<FragmentMetadata>)
    requires Valid(a)
    ensures Valid(DeleteFragments(a, ids))
    ensures Valid(ReplaceTextsWithFragments(a, ids, frags))
    ensures Valid(ReplaceCorrected(a, ids, frags))
  {
    TotalPagesIsCeiling(ReplaceCorrected(a, ids, frags));
    TotalPagesIsCeiling(DeleteFragments(a, ids));
    TotalPagesIsCeiling(ReplaceTextsWithFragments(a, ids, frags));
  }
}
