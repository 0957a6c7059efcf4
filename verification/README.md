# ArtTable selection and pagination model

A Dafny model of the `ArtTable` React component of the art-app repository: a paginated,
multi-select table of artworks from the Art Institute of Chicago catalog. The model covers
the component's state bookkeeping. Rendering, the widget library and the HTTP client are not modelled.

- **State** (`ArtTable.State`): the current row buffer, the total record count, the loading flag,
  the paginator offset and page size, and `selectedIds`. `selectedIds` maps an artwork id to a
  "selected" flag and lives across page changes.
- **Reconciliation** (`Selection.Reconcile`): this is what `onSelectionChange` does. The loop runs
  over the ids of the current page, in order. An id the table reports as selected is set to `true`.
  Any other id of the current page is deleted. Ids of other pages are copied untouched.
- **Visible selection** (`Selection.Visible`): the rows of the buffer whose id is selected,
  in buffer order. Count (`Selection.Count`): the number of `true` flags. Clear (`ArtTable.ClearAll`):
  the map becomes empty.
- **Page arithmetic** (`Pagination.PageOf`): `floor(first / rows) + 1`.
- **Fetch** (`ArtTable.StartFetch`, `ArtTable.FinishFetch`): a pure transition. The response is an
  abstract `FetchOutcome`, either `Success(rows, total)` or `Failure`.

Files: `wrappers.dfy` (Option), `artworks.dfy` (the record), `selection.dfy`, `pagination.dfy`,
`art_table.dfy`.

Two behaviours of the fetch worth noting:
- A failed fetch stores an empty buffer and total 0. It records no error message, because the
  catch block at `src/components/ArtTable.tsx:39-42` sets none.
- A successful response whose body has no `pagination` object throws at line 38, after line 37
  has already stored the rows. The catch block then overwrites them, so this case ends exactly like
  `Failure`.

## Model

| member | source | states |
|---|---|---|
| Artworks.Ids | src/components/ArtTable.tsx:60-61 | The id list has one entry per row, and entry i is row i's id, in row order |
| Selection.Reconcile | src/components/ArtTable.tsx:63-73 | An id on the current page ends up in the map exactly when the table reports it selected, and is then stored as true. An id off the page keeps both its presence and its value |
| Selection.ReconcileMeetsSpec | src/components/ArtTable.tsx:63-73 | The ordered loop over page ids equals a declarative map. Page ids that are reported map to true. Page ids that are not reported are absent. Every other entry is copied |
| Selection.ReconcileKeepsAllTrue | src/components/ArtTable.tsx:66-69 | Deselection deletes the key rather than storing false, so a map holding only true flags still holds only true flags |
| Selection.ReconcileIdempotent | src/components/ArtTable.tsx:63-73 | Applying the same selection change twice gives the same map as applying it once |
| Selection.ReconcileIgnoresOffPageIncoming | src/components/ArtTable.tsx:65-66 | Incoming selected ids that are not on the current page have no effect. Two incoming selections that agree on the page ids give the same map |
| Selection.Visible | src/components/ArtTable.tsx:57 | A row is in the visible selection exactly when it is in the buffer and its id maps to true. The visible selection is an order-preserving subsequence of the buffer |
| Selection.VisibleAppend | src/components/ArtTable.tsx:57 | The visible selection of a concatenation is the concatenation of the visible selections, so the filter works row by row and keeps order |
| Selection.VisibleSingleton | src/components/ArtTable.tsx:57 | A single row is kept exactly when its id is selected |
| Selection.VisibleCongruent | src/components/ArtTable.tsx:57 | The visible selection depends on the map only through the ids of the rows in the buffer |
| Selection.VisibleAllSelected | src/components/ArtTable.tsx:57 | When every row's id is selected, the visible selection is the whole buffer |
| Selection.VisibleNoneSelected | src/components/ArtTable.tsx:57 | When no row's id is selected, the visible selection is empty |
| Selection.VisibleAfterReconcile | src/components/ArtTable.tsx:57-73 | After a selection change, the visible rows are exactly the buffer rows whose id was reported. They do not depend on what the map held before |
| Selection.Count | src/components/ArtTable.tsx:77 | The count is at most the map size. It is 0 exactly when no flag is true. It equals the map size when every flag is true |
| Pagination.PageOf | src/components/ArtTable.tsx:53 | For a positive page size, the page is at least 1 and its row range (p-1)*rows to p*rows contains the offset. A zero page size gives no page number |
| Pagination.PageUnique | src/components/ArtTable.tsx:53 | The computed page is the only page whose row range contains the offset |
| Pagination.FirstOfPage | src/components/ArtTable.tsx:53 | The first offset of a page maps back to that page, and no smaller offset lies on that page: the inverse of the page arithmetic |
| Pagination.BoundaryOffsetRoundTrip | src/components/ArtTable.tsx:50-53 | An offset on a page boundary equals (page-1)*rows of its computed page |
| ArtTable.Init | src/components/ArtTable.tsx:20-25 | The component mounts with an empty buffer, total 0, not loading, offset 0 and page size 12. Nothing is selected or counted |
| ArtTable.StartFetch | src/components/ArtTable.tsx:28 | Starting a fetch raises the loading flag and changes nothing else |
| ArtTable.FinishFetch | src/components/ArtTable.tsx:37-43 | Success stores exactly the returned rows and total. Failure stores an empty buffer and total 0. Loading is false afterwards, and the selection, offset and page size are unchanged |
| ArtTable.OnPageChange | src/components/ArtTable.tsx:50-55 | The new offset and page size are stored and loading starts. The buffer and selection are unchanged. The request asks for the page whose row range contains the offset, with the new page size as limit |
| ArtTable.OnSelectionChange | src/components/ArtTable.tsx:59-74 | Only the selection map changes. The rows shown as selected afterwards are exactly the buffer rows the table reported. Ids not on the current page keep their presence and value. Only-true maps stay only-true |
| ArtTable.ClearAll | src/components/ArtTable.tsx:82 | After Clear All the map is empty, so nothing is selected, the count is 0, the visible selection is empty and every other field is unchanged |
| ArtTable.ValidCountIsSize | src/components/ArtTable.tsx:77 | When the map stores only true flags, the count shown equals the number of keys |
| ArtTable.TransitionsPreserveValid | src/components/ArtTable.tsx:20-82 | The initial state and every transition (fetch start and finish, page change, selection change, clear) keep the map storing only true flags |
| ArtTable.SelectionChangeIdempotent | src/components/ArtTable.tsx:59-74 | Reporting the same selection twice gives the same state as reporting it once |
| ArtTable.DeselectOneRow | src/components/ArtTable.tsx:63-70 | Unchecking one row on the current page removes exactly that id from the map and nothing else |
| ArtTable.CrossPagePersistence | src/components/ArtTable.tsx:57-73 | Select every row of page A, load page B and select nothing there, then load page A again: all of page A is still shown as selected |
| ArtTable.ReconcileExample | src/components/ArtTable.tsx:63-73 | Start from {5: true, 9: true} with page ids [5, 6, 7, 8] and the table reporting [6]. The result is {6: true, 9: true} |

## Left out

- The catalog HTTP call (`src/components/ArtTable.tsx:30-36`) is left out: the URL, query
  parameters, field projection and response parsing are network I/O through a library that is
  not part of this model. Only the abstract `Success`/`Failure` outcome and the outgoing
  `PageRequest` are modelled.
- The `useEffect` that refetches page 1 when `rows` changes (lines 46-48) is left out. It is React
  effect scheduling.
- Overlapping, unsequenced fetches are left out. When two are in flight, whichever resolves last
  wins. This is concurrency; the model treats each fetch as one start followed by one finish.
- JSX rendering, the PrimeReact `DataTable`/`Column` configuration and the CSS imports are left
  out (lines 1-7 and 78-118). So is the rule that the Clear All button only appears when the
  count is positive: that is a rendering choice, and the clear action itself is unconditional.
- No server behaviour is assumed. In particular, nothing bounds the number of rows a successful
  response carries by the page size.
- Pagination.PageOf: `first / rows` is a floating-point division in the source. The model uses
  exact integer division, which gives the same page for offsets below 2^52. When the page size
  is 0, the source produces Infinity or NaN; the model returns `None` for both.
- Selection.Reconcile: object keys in the source are strings converted from numeric ids. The model
  keys by integer id, which is a one-to-one renaming for integer ids.
