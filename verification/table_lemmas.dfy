/** Properties of the table's selection bookkeeping over single events and
    over sequences of events. */
module TableLemmas {
  import opened Wrappers
  import opened PageMap
  import opened Paging
  import opened ArtworksTable

  /** The state at mount already satisfies the invariant. */
  lemma InitialValid()
    ensures Valid(Initial())
    ensures TotalSelected(Initial().pageSelections) == 0
  {
  }

  /** A selection edit stores exactly the new value under the current page,
      leaves every other page's entry alone, and shows the stored value; the
      effect that follows has nothing left to change. */
  lemma SelectionEditStores(s: State, value: seq<Record>)
    requires Valid(s)
    ensures Step(s, SelectionChange(value)) == Handle(s, SelectionChange(value))
    ensures Step(s, SelectionChange(value)).pageSelections == s.pageSelections[s.currentPage := value]
    ensures Step(s, SelectionChange(value)).selectedRows == value
    ensures Step(s, SelectionChange(value)).currentPage == s.currentPage
  {
  }

  /** A page change moves to page `e.page + 1`, never alters the stored
      selections, and shows what was stored for the new page. */
  lemma PageChangeKeepsSelections(s: State, e: PageChangeEvent)
    requires Valid(s) && PaginatorEvent(e)
    ensures Step(s, PageChange(e)).currentPage == e.page + 1
    ensures Step(s, PageChange(e)).pageSelections == s.pageSelections
    ensures Step(s, PageChange(e)).selectedRows == Lookup(s.pageSelections, e.page + 1)
    ensures Step(s, PageChange(e)).rows == e.rows
  {
  }

  /** A count that is NaN, zero or negative clears every page's selection,
      whatever was selected before and without fetching. */
  lemma BulkInvalidCountClears(s: State, count: Option<int>, fetched: Result<seq<Record>, FetchError>)
    requires Valid(s) && ClearsSelection(count)
    ensures Step(s, CustomSelection(count, fetched)).pageSelections == map[]
    ensures Step(s, CustomSelection(count, fetched)).selectedRows == []
    ensures TotalSelected(Step(s, CustomSelection(count, fetched)).pageSelections) == 0
  {
  }

  /** A failed bulk fetch changes nothing. */
  lemma BulkFailureKeepsState(s: State, n: int, err: FetchError)
    requires Valid(s) && n > 0
    ensures Step(s, CustomSelection(Some(n), Failure(err))) == s
  {
  }

  /** A successful bulk selection replaces the stored selections wholesale by
      the fetched list regrouped into pages of the current size: no earlier
      entry survives, every page holds its own run of the list, the total is
      the list's length, and the effect after the handler changes nothing. */
  lemma BulkSuccessReplaces(s: State, n: int, items: seq<Record>)
    requires Valid(s) && n > 0
    ensures Step(s, CustomSelection(Some(n), Success(items))).pageSelections == Partition(items, s.rows)
    ensures Step(s, CustomSelection(Some(n), Success(items))) == Handle(s, CustomSelection(Some(n), Success(items)))
    ensures forall p :: p in Partition(items, s.rows) ==>
              && 0 <= Start(p, s.rows) < End(p, s.rows, |items|) <= |items|
              && Partition(items, s.rows)[p] == items[Start(p, s.rows)..End(p, s.rows, |items|)]
    ensures TotalSelected(Step(s, CustomSelection(Some(n), Success(items))).pageSelections) == |items|
    ensures Step(s, CustomSelection(Some(n), Success(items))).selectedRows
            == Lookup(Partition(items, s.rows), s.currentPage)
  {
    PartitionContents(items, s.rows);
    PartitionRoundTrip(items, s.rows);
  }

  /** Worked example: the first 15 records with ten rows per page, viewed on
      page 2, show records 11 to 15 as selected, and 15 rows are counted. */
  lemma BulkExample(s: State, items: seq<Record>)
    requires Valid(s) && s.rows == 10 && s.currentPage == 2
    requires |items| == 15 && forall i :: 0 <= i < 15 ==> items[i].id == i + 1
    ensures |Step(s, CustomSelection(Some(15), Success(items))).selectedRows| == 5
    ensures forall k :: 0 <= k < 5 ==>
              Step(s, CustomSelection(Some(15), Success(items))).selectedRows[k].id == 11 + k
    ensures TotalSelected(Step(s, CustomSelection(Some(15), Success(items))).pageSelections) == 15
  {
    assert PageCount(15, 10) == 2;
    assert Start(2, 10) == 10 && End(2, 10, 15) == 15;
    var t := Step(s, CustomSelection(Some(15), Success(items)));
    assert t.selectedRows == items[10..15];
  }

  /** Applying the same selection edit twice leaves the same state as once. */
  lemma SelectionEditIdempotent(s: State, value: seq<Record>)
    requires Valid(s)
    ensures Step(Step(s, SelectionChange(value)), SelectionChange(value)) == Step(s, SelectionChange(value))
  {
  }

  /** The selected-row count after an edit: the edited page's old entry is
      replaced by the new value and no other page's contribution moves. */
  lemma SelectionEditTotal(s: State, value: seq<Record>)
    requires Valid(s)
    ensures TotalSelected(Step(s, SelectionChange(value)).pageSelections)
            == TotalSelected(s.pageSelections) - |s.selectedRows| + |value|
  {
    TotalSelectedUpdate(s.pageSelections, s.currentPage, value);
  }

  /** Selections on pages not currently visible survive: select `a` on one
      page, move to another page and select `b` there, come back, and `a` is
      shown again. */
  lemma CrossPageRestore(s: State, a: seq<Record>, away: PageChangeEvent, b: seq<Record>, back: PageChangeEvent)
    requires Valid(s) && PaginatorEvent(away) && PaginatorEvent(back)
    requires back.page + 1 == s.currentPage && away.page + 1 != s.currentPage
    ensures Step(Step(Step(Step(s, SelectionChange(a)), PageChange(away)), SelectionChange(b)), PageChange(back)).selectedRows == a
  {
    var s1 := Step(s, SelectionChange(a));
    SelectionEditStores(s, a);
    StepPreservesValid(s, SelectionChange(a));
    var s2 := Step(s1, PageChange(away));
    PageChangeKeepsSelections(s1, away);
    StepPreservesValid(s1, PageChange(away));
    var s3 := Step(s2, SelectionChange(b));
    SelectionEditStores(s2, b);
    StepPreservesValid(s2, SelectionChange(b));
    assert s3.pageSelections[s.currentPage] == a;
    PageChangeKeepsSelections(s3, back);
  }

  /** Selecting on two different pages, starting from nothing selected,
      counts the rows of both selections. */
  lemma TwoPagesTotal(s: State, a: seq<Record>, away: PageChangeEvent, b: seq<Record>)
    requires Valid(s) && s.pageSelections == map[] && PaginatorEvent(away)
    requires away.page + 1 != s.currentPage
    ensures TotalSelected(Step(Step(Step(s, SelectionChange(a)), PageChange(away)), SelectionChange(b)).pageSelections)
            == |a| + |b|
  {
    var s1 := Step(s, SelectionChange(a));
    SelectionEditTotal(s, a);
    StepPreservesValid(s, SelectionChange(a));
    var s2 := Step(s1, PageChange(away));
    PageChangeKeepsSelections(s1, away);
    StepPreservesValid(s1, PageChange(away));
    assert s2.selectedRows == [];
    SelectionEditTotal(s2, b);
  }

  /** The invariant holds after any sequence of well-formed events: at every
      point `selectedRows` is the current page's stored entry, or empty. */
  lemma {:induction false} RunPreservesValid(s: State, evs: seq<Event>)
    requires Valid(s)
    requires forall i :: 0 <= i < |evs| ==> WellFormed(evs[i])
    ensures Valid(Run(s, evs))
    ensures Run(s, evs).selectedRows == Lookup(Run(s, evs).pageSelections, Run(s, evs).currentPage)
    decreases |evs|
  {
    if evs != [] {
      StepPreservesValid(s, evs[0]);
      RunPreservesValid(Step(s, evs[0]), evs[1..]);
    }
  }
}
