/** The selection bookkeeping of the artworks table: the state the component
    keeps, its three selection-relevant event handlers, and the effect that
    copies the current page's entry into `selectedRows`. Rendering, fetching
    and dialog handling are not part of this model. */
module ArtworksTable {
  import opened Wrappers
  import opened PageMap
  import opened Paging

  /** Component state relevant to selection. `rows` is the page size and
      `first` the index of the first visible row, both as the paginator
      reports them; `currentPage` is 1-based. */
  datatype State = State(
    pageSelections: PageMap,
    selectedRows: seq<Record>,
    currentPage: int,
    rows: int,
    first: int
  )

  /** State at mount: nothing selected, page 1, ten rows per page. */
  function Initial(): (s: State)
  {
    State(map[], [], 1, 10, 0)
  }

  /** `selectedRows` mirrors the entry of the current page. */
  predicate Synced(s: State)
  {
    s.selectedRows == Lookup(s.pageSelections, s.currentPage)
  }

  /** What every reachable state satisfies: the paginator only reports
      positive page sizes and 0-based page indices, and the effect keeps
      `selectedRows` in step with the current page's entry. */
  predicate Valid(s: State)
  {
    s.rows > 0 && s.currentPage >= 1 && Synced(s)
  }

  /** The effect run after `currentPage` or `pageSelections` changes: show
      the current page's stored selection, or nothing when there is none. */
  function SyncSelectedRows(s: State): (t: State)
    ensures Synced(t)
    ensures t.pageSelections == s.pageSelections && t.currentPage == s.currentPage
    ensures t.rows == s.rows && t.first == s.first
    ensures Synced(s) ==> t == s
  {
    s.(selectedRows := Lookup(s.pageSelections, s.currentPage))
  }

  /** What the paginator reports on a page change: index of the first row,
      0-based page index and page size. */
  datatype PageChangeEvent = PageChangeEvent(first: int, page: int, rows: int)

  /** The paginator's promise about its events. */
  predicate PaginatorEvent(e: PageChangeEvent)
  {
    e.page >= 0 && e.rows > 0
  }

  /** Page-change handler, selection-relevant part: records the new page
      (1-based), page size and first row. It never touches the stored
      selections, and leaves `selectedRows` to the effect. */
  function OnPageChange(s: State, e: PageChangeEvent): (t: State)
    ensures t.currentPage == e.page + 1
    ensures t.rows == e.rows && t.first == e.first
    ensures t.pageSelections == s.pageSelections
    ensures t.selectedRows == s.selectedRows
  {
    s.(first := e.first, rows := e.rows, currentPage := e.page + 1)
  }

  /** Per-page selection edit: `value` is the complete new selection of the
      visible page. It is shown at once and stored under the current page;
      every other page's entry stays as it was. */
  function OnSelectionChange(s: State, value: seq<Record>): (t: State)
    ensures t.selectedRows == value
    ensures t.pageSelections.Keys == s.pageSelections.Keys + {s.currentPage}
    ensures t.pageSelections[s.currentPage] == value
    ensures forall p :: p in s.pageSelections && p != s.currentPage ==>
              t.pageSelections[p] == s.pageSelections[p]
    ensures Synced(t)
    ensures t.currentPage == s.currentPage && t.rows == s.rows && t.first == s.first
  {
    s.(selectedRows := value,
       pageSelections := s.pageSelections[s.currentPage := value])
  }

  /** The bulk count the user typed is treated as a request to clear when it
      is NaN (`None`), zero or negative. */
  predicate ClearsSelection(count: Option<int>)
  {
    count.None? || count.value <= 0
  }

  /** Why a bulk fetch failed; the handler only logs it. */
  datatype FetchError = FetchError

  /** Bulk "select the first N rows across all pages". `count` is the typed
      count after numeric parsing and `fetched` is what requesting the first
      `count` records produced; it is not consulted when the count clears. */
  function ApplyCustomSelection(s: State, count: Option<int>, fetched: Result<seq<Record>, FetchError>): (t: State)
    requires s.rows > 0
    ensures ClearsSelection(count) ==>
              && t.pageSelections == map[] && t.selectedRows == []
              && t.currentPage == s.currentPage && t.rows == s.rows && t.first == s.first
    ensures !ClearsSelection(count) && fetched.Failure? ==> t == s
    ensures !ClearsSelection(count) && fetched.Success? ==>
              t.currentPage == s.currentPage && t.rows == s.rows && t.first == s.first
    ensures !ClearsSelection(count) && fetched.Success? ==>
              forall p :: p in t.pageSelections <==> 1 <= p <= PageCount(|fetched.value|, s.rows)
    ensures !ClearsSelection(count) && fetched.Success? ==>
              Flatten(t.pageSelections) == fetched.value && TotalSelected(t.pageSelections) == |fetched.value|
    ensures !ClearsSelection(count) && fetched.Success? && 1 <= s.currentPage <= PageCount(|fetched.value|, s.rows) ==>
              && 0 <= Start(s.currentPage, s.rows) < End(s.currentPage, s.rows, |fetched.value|) <= |fetched.value|
              && t.selectedRows == fetched.value[Start(s.currentPage, s.rows)..End(s.currentPage, s.rows, |fetched.value|)]
    ensures !ClearsSelection(count) && fetched.Success? && !(1 <= s.currentPage <= PageCount(|fetched.value|, s.rows)) ==>
              t.selectedRows == []
    ensures (ClearsSelection(count) || fetched.Success?) ==> Synced(t)
  {
    if ClearsSelection(count) then
      s.(pageSelections := map[], selectedRows := [])
    else
      match fetched
      case Failure(_) => s
      case Success(items) =>
        var m := Partition(items, s.rows);
        PartitionKeys(items, s.rows);
        PartitionLookup(items, s.rows, s.currentPage);
        PartitionRoundTrip(items, s.rows);
        s.(pageSelections := m, selectedRows := Lookup(m, s.currentPage))
  }

  /** The events that affect selection. */
  datatype Event =
    | PageChange(e: PageChangeEvent)
    | SelectionChange(value: seq<Record>)
    | CustomSelection(count: Option<int>, fetched: Result<seq<Record>, FetchError>)

  predicate WellFormed(ev: Event)
  {
    ev.PageChange? ==> PaginatorEvent(ev.e)
  }

  /** The state right after an event's handler has run. Only a page change
      moves the page or the page size, and only a bulk selection touches the
      entries of pages other than the current one. */
  function Handle(s: State, ev: Event): (t: State)
    requires s.rows > 0
    ensures !ev.PageChange? ==> t.currentPage == s.currentPage && t.rows == s.rows && t.first == s.first
    ensures ev.PageChange? ==> t.pageSelections == s.pageSelections
    ensures !ev.CustomSelection? ==>
              forall p :: p in s.pageSelections && p != s.currentPage ==>
                p in t.pageSelections && t.pageSelections[p] == s.pageSelections[p]
  {
    match ev
    case PageChange(e) => OnPageChange(s, e)
    case SelectionChange(value) => OnSelectionChange(s, value)
    case CustomSelection(count, fetched) => ApplyCustomSelection(s, count, fetched)
  }

  /** A handler followed by the effect, which runs when the handler changed
      the current page or the stored selections. The effect only replaces
      the shown selection, and leaves an already synced state alone. */
  function Step(s: State, ev: Event): (t: State)
    requires s.rows > 0
    ensures t.pageSelections == Handle(s, ev).pageSelections
    ensures t.currentPage == Handle(s, ev).currentPage
    ensures t.rows == Handle(s, ev).rows && t.first == Handle(s, ev).first
    ensures Synced(Handle(s, ev)) ==> t == Handle(s, ev)
  {
    var t := Handle(s, ev);
    if t.currentPage != s.currentPage || t.pageSelections != s.pageSelections
    then SyncSelectedRows(t)
    else t
  }

  /** A sequence of well-formed events applied in order. */
  function Run(s: State, evs: seq<Event>): (t: State)
    requires Valid(s)
    requires forall i :: 0 <= i < |evs| ==> WellFormed(evs[i])
    decreases |evs|
  {
    if evs == [] then s
    else
      StepPreservesValid(s, evs[0]);
      Run(Step(s, evs[0]), evs[1..])
  }

  /** Every event keeps the state valid; in particular `selectedRows` is the
      current page's entry, or empty, after each of them. */
  lemma StepPreservesValid(s: State, ev: Event)
    requires Valid(s) && WellFormed(ev)
    ensures Valid(Step(s, ev))
    ensures Step(s, ev).selectedRows == Lookup(Step(s, ev).pageSelections, Step(s, ev).currentPage)
  {
  }
}
