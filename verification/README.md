# Cross-page row selection of the artworks table

The artworks table shows a server-paginated list of artworks with a checkbox
column. The user can tick rows on any page, move between pages and come back
to find the ticks still there. They can also ask for "the first N rows across
all pages". The running number of selected rows is shown above the table.

This project models that selection bookkeeping as a pure state machine:

- **State** (`ArtworksTable.State`):
  - `pageSelections`: a map from a 1-based page number to the list of records selected on that page.
  - `selectedRows`: the selection the table shows.
  - `currentPage`.
  - `rows`: the page size.
  - `first`: the index of the first visible row.

  The code stores whole records per page number, not a set of record ids. The
  model follows the code. A record carries only its `id`, which is the table's
  data key.
- **Events**:
  - the per-page selection edit (`OnSelectionChange`);
  - the selection-relevant part of a page change (`OnPageChange`);
  - the bulk selection (`ApplyCustomSelection`). It receives the parsed count as
    `Option<int>`, where `None` stands for NaN. It receives the result of the
    fetch as a `Result` value instead of performing the request.
- **Paginator guarantees**: page-change events carry a 0-based page index and
  a positive page size (`PaginatorEvent`). The code relies on this without
  checking it, so the invariant `Valid` assumes it: positive `rows`,
  `currentPage` of at least 1, and `selectedRows` in step with the map.
- **Effect**: `SyncSelectedRows` copies `pageSelections[currentPage]` (or the
  empty list) into `selectedRows`. `Step` runs a handler and then this effect
  whenever the handler changed `currentPage` or `pageSelections`.
- **Partition** (`Paging.Partition`): the bulk result is regrouped so that the
  item at index `i` is stored under page `i / rows + 1`. The groups are built
  by appending, in the same way as the `forEach` in the code.
- **Count** (`PageMap.TotalSelected`): the length of all entries concatenated
  in ascending page order (`Object.values(...).flat().length`).

Modules: `Wrappers` (Option, Result), `PageMap` (records, the page map and its
derived views), `Paging` (page arithmetic and the partition),
`ArtworksTable` (state, handlers, effect, steps), `TableLemmas` (properties of
events and event sequences).

## Model

| member | source | states |
|---|---|---|
| ArtworksTable.SyncSelectedRows | src/components/DataTable.tsx:74-76 | afterwards `selectedRows` is the current page's stored entry, or empty when there is none; nothing else changes, and an already synced state is left as it is |
| ArtworksTable.OnPageChange | src/components/DataTable.tsx:94-104 | the new current page is the paginator's 0-based index plus one; page size and first row are taken from the event; the stored selections are not modified |
| ArtworksTable.OnSelectionChange | src/components/DataTable.tsx:106-112 | the edited value is shown and stored under the current page; the set of stored pages gains only the current page; every other page's entry is unchanged; the result is synced |
| ArtworksTable.ApplyCustomSelection | src/components/DataTable.tsx:114-150 | a NaN, zero or negative count empties both the map and the shown selection; a failed fetch changes nothing; after a successful fetch the stored pages are exactly 1..ceil(len/rows), reading them in order gives back the fetched list, the total equals its length, and the current page shows its own run of the list (or nothing when the list does not reach it) |
| ArtworksTable.Initial | src/components/DataTable.tsx:36-45 | the state at mount; described by `TableLemmas.InitialValid`: valid, with no page stored and a count of zero |
| ArtworksTable.ClearsSelection | src/components/DataTable.tsx:116 | a NaN, zero or negative count is a request to clear; described by `TableLemmas.BulkInvalidCountClears` and the clear clause of `ApplyCustomSelection` |
| ArtworksTable.Handle | src/components/DataTable.tsx:94-150 | only a page change moves the current page, page size or first row; a page change leaves the stored selections as they are; only a bulk selection changes the entries of pages other than the current one |
| ArtworksTable.Step | src/components/DataTable.tsx:74-76 | the effect after a handler only replaces the shown selection: the stored selections, the page, the page size and the first row are the handler's; a state already in step is left unchanged |
| ArtworksTable.Run | src/components/DataTable.tsx:74-76 | events applied one after another, each followed by the effect; described by `TableLemmas.RunPreservesValid` |
| ArtworksTable.StepPreservesValid | src/components/DataTable.tsx:74-76 | every event keeps the state valid: positive page size, current page at least 1, and `selectedRows` equal to the current page's entry or empty |
| TableLemmas.RunPreservesValid | src/components/DataTable.tsx:74-76 | the same invariant holds after any sequence of events |
| TableLemmas.InitialValid | src/components/DataTable.tsx:36-45 | the state at mount is valid and counts zero selected rows |
| TableLemmas.SelectionEditStores | src/components/DataTable.tsx:106-112 | after an edit, the map is the old map with the current page's entry set to the value, and the shown selection is that value; the effect that follows changes nothing |
| TableLemmas.SelectionEditIdempotent | src/components/DataTable.tsx:106-112 | repeating the same edit gives the same state as doing it once |
| TableLemmas.PageChangeKeepsSelections | src/components/DataTable.tsx:99-102 | a page change leaves the stored selections unchanged and shows the entry stored for the new page |
| TableLemmas.CrossPageRestore | src/components/DataTable.tsx:106-111 | select on a page, move away and select elsewhere, come back: the first selection is shown again |
| TableLemmas.BulkInvalidCountClears | src/components/DataTable.tsx:115-121 | a NaN, zero or negative count clears every page's selection and the count becomes zero, whatever was selected before |
| TableLemmas.BulkFailureKeepsState | src/components/DataTable.tsx:143-144 | a failed bulk fetch leaves the whole state unchanged |
| TableLemmas.BulkSuccessReplaces | src/components/DataTable.tsx:125-141 | a successful bulk selection replaces the map wholesale by the partition of the fetched list: every stored page p holds exactly the items from index (p-1)*rows up to min(p*rows, len); the effect that follows changes nothing; the count is the list's length; the shown selection is the current page's group |
| TableLemmas.BulkExample | src/components/DataTable.tsx:132-141 | with 15 fetched records, ten rows per page and page 2 visible, records 11 to 15 are shown as selected and 15 rows are counted |
| TableLemmas.SelectionEditTotal | src/components/DataTable.tsx:166-168 | an edit changes the count by the new value's length minus the old entry's length |
| TableLemmas.TwoPagesTotal | src/components/DataTable.tsx:166-168 | starting from no selection, selecting on two different pages counts the rows of both |
| PageMap.Lookup | src/components/DataTable.tsx:75 | a page's stored entry, or the empty list when the page has none; described by `ArtworksTable.SyncSelectedRows` and `Paging.PartitionLookup` |
| PageMap.Flatten | src/components/DataTable.tsx:166-167 | the entries concatenated in ascending page order; the result is empty exactly when every stored entry is empty; `PageMap.FlattenContiguous` and `Paging.PartitionRoundTrip` give its contents |
| PageMap.TotalSelected | src/components/DataTable.tsx:166-168 | the count is zero exactly when every stored entry is empty; `PageMap.TotalSelectedRemove` and `PageMap.TotalSelectedUpdate` relate it to the entries |
| PageMap.TotalSelectedRemove | src/components/DataTable.tsx:166-168 | the count includes every page's entry exactly once: removing any page lowers it by that entry's length |
| PageMap.TotalSelectedUpdate | src/components/DataTable.tsx:166-168 | replacing one page's entry changes the count by the difference of the lengths |
| PageMap.FlattenContiguous | src/components/DataTable.tsx:166-167 | when the pages are exactly lo..hi-1, the ascending-order concatenation is pages lo, lo+1, ..., hi-1 in turn |
| Paging.Partition | src/components/DataTable.tsx:132-138 | the fetched items grouped by page, each appended to its page's list; described by `Paging.PartitionContents`, `Paging.PartitionPlacement` and `Paging.PartitionShape` |
| Paging.PartitionContents | src/components/DataTable.tsx:132-138 | a page is present exactly when some item falls on it, and page p holds exactly the items from index (p-1)*rows up to min(p*rows, len) |
| Paging.PartitionKeys | src/components/DataTable.tsx:132-138 | the pages of the partition are exactly 1..ceil(len/rows) |
| Paging.PartitionPlacement | src/components/DataTable.tsx:133-137 | the item at index i is in page i/rows + 1, at position i mod rows |
| Paging.PartitionShape | src/components/DataTable.tsx:132-138 | every page but the last holds exactly `rows` items, and the last holds between 1 and `rows` |
| Paging.PartitionSuffix | src/components/DataTable.tsx:132-138 | pages lo..ceil(len/rows) concatenated give the fetched list from page lo's first item onwards |
| Paging.PartitionRoundTrip | src/components/DataTable.tsx:132-140 | concatenating the pages in key order gives back the fetched list, with the same order and nothing lost or repeated; the count equals its length |
| Paging.PartitionLookup | src/components/DataTable.tsx:141 | the selection shown after a bulk selection is the current page's run of the fetched list, or empty when the list does not reach that page |
| Paging.PageCountRange | src/components/DataTable.tsx:133 | page p (at least 1) is among the first ceil(n/rows) pages exactly when its first index is below n |

## Left out

- Fetching (`apiCall`, `fetchArtworks`, JSON decoding, the artworks list and `totalRecords`) is network I/O. The bulk fetch's outcome is a parameter of `ApplyCustomSelection`. When the count clears the selection, that parameter is ignored, since the code fetches nothing in that case.
- Text-to-number parsing of the typed count is not modelled. The count arrives parsed, with `None` for NaN. Fractional and infinite counts are not modelled.
- The `loading` flag, the dialog's open/close state, the reset of the typed count and the click-outside listener are UI plumbing and have no effect on selection.
- The effect that refetches page 1 when the page size changes is asynchronous fetching. It does not touch the stored selections, and the model does not either. Stored entries keep the page numbers of the page size in force when they were made.
- Overlapping in-flight fetches and stale closures are left out. Each handler reads the state as it stands when the handler runs.
- The effect's dependency check is written with structural equality. React compares references, so a new map that is structurally equal still triggers the effect. The result is the same either way: every handler that stores a map also shows that map's current-page entry.
- The count concatenates the entries in ascending page order (`PageMap.Flatten`). This is the order `Object.values` uses for non-negative integer keys, and only page numbers of 1 or more ever arise. Only the length is shown, so the order does not affect the count.
- Rendering (cell formatting, the paginator template, the JSX) and the whole of `src/components/Popbox.tsx` are presentation with no selection logic.
