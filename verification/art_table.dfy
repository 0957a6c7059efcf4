/** The table component's state and its transitions, as pure functions from state to state.
    The catalog request itself is not modelled: a fetch is a request value going out and an
    abstract outcome coming back. */
module ArtTable {
  import opened Wrappers
  import opened Artworks
  import opened Selection
  import opened Pagination

  /** The component's state hooks. */
  datatype State = State(
    artworks: seq<Art>,
    totalRecords: int,
    loading: bool,
    first: nat,
    rows: nat,
    selectedIds: SelectionMap
  )

  /** What the catalog request resolved to. Any thrown error (network, status, a body without
      `pagination`) lands in the same catch block and is `Failure`. */
  datatype FetchOutcome = Success(data: seq<Art>, total: int) | Failure

  /** The page and page size sent to the catalog; `page` is `None` when the page arithmetic
      produced no finite number. */
  datatype PageRequest = PageRequest(page: Option<nat>, limit: nat)

  /** Default page size of the paginator. */
  const DefaultRows: nat := 12

  /** The state the component mounts with. */
  function Init(): (s: State)
    ensures s.artworks == [] && s.totalRecords == 0 && !s.loading
    ensures s.first == 0 && s.rows == DefaultRows
    ensures SelectionCount(s) == 0 && VisibleSelection(s) == []
  {
    State([], 0, false, 0, DefaultRows, map[])
  }

  /** The selection the table is told to show. */
  function VisibleSelection(s: State): seq<Art>
  {
    Visible(s.artworks, s.selectedIds)
  }

  /** The number shown as "N items selected". */
  function SelectionCount(s: State): nat
  {
    Count(s.selectedIds)
  }

  /** The start of a fetch: only the loading flag changes. */
  function StartFetch(s: State): (s': State)
    ensures s'.loading
    ensures s'.artworks == s.artworks && s'.totalRecords == s.totalRecords
    ensures s'.first == s.first && s'.rows == s.rows && s'.selectedIds == s.selectedIds
  {
    s.(loading := true)
  }

  /** The end of a fetch: a success stores the returned rows and total, a failure an empty
      buffer and total 0; either way loading ends and nothing else changes. */
  function FinishFetch(s: State, outcome: FetchOutcome): (s': State)
    ensures !s'.loading
    ensures outcome.Success? ==> s'.artworks == outcome.data && s'.totalRecords == outcome.total
    ensures outcome.Failure? ==> s'.artworks == [] && s'.totalRecords == 0
    ensures s'.selectedIds == s.selectedIds && s'.first == s.first && s'.rows == s.rows
  {
    match outcome
    case Success(data, total) => s.(artworks := data, totalRecords := total, loading := false)
    case Failure => s.(artworks := [], totalRecords := 0, loading := false)
  }

  /** A page event: the new page size and offset are stored, the fetch starts, and the request
      names the one-based page holding the offset. */
  function OnPageChange(s: State, first: nat, rows: nat): (r: (State, PageRequest))
    ensures r.0.first == first && r.0.rows == rows && r.0.loading
    ensures r.0.artworks == s.artworks && r.0.totalRecords == s.totalRecords
    ensures r.0.selectedIds == s.selectedIds
    ensures r.1.limit == rows
    ensures rows > 0 ==> r.1.page.Some? && (r.1.page.value - 1) * rows <= first < r.1.page.value * rows
    ensures rows == 0 ==> r.1.page.None?
  {
    (StartFetch(s.(first := first, rows := rows)), PageRequest(PageOf(first, rows), rows))
  }

  /** A selection event: the table reports the rows it now shows as selected. */
  function OnSelectionChange(s: State, value: seq<Art>): (s': State)
    ensures s' == s.(selectedIds := s'.selectedIds)
    ensures forall a :: a in VisibleSelection(s') <==> a in s.artworks && a.id in Ids(value)
    ensures AllTrue(s.selectedIds) ==> AllTrue(s'.selectedIds)
    // ids of other pages keep their presence and their value
    ensures forall id :: id !in Ids(s.artworks) ==> (id in s'.selectedIds <==> id in s.selectedIds)
    ensures forall id :: id !in Ids(s.artworks) && id in s.selectedIds ==> s'.selectedIds[id] == s.selectedIds[id]
  {
    var s' := s.(selectedIds := Reconcile(s.selectedIds, Ids(s.artworks), Ids(value)));
    VisibleAfterReconcile(s.artworks, s.selectedIds, Ids(value));
    s'
  }

  /** "Clear All": the map becomes empty, so nothing is counted and nothing is visible. */
  function ClearAll(s: State): (s': State)
    ensures |s'.selectedIds| == 0
    ensures SelectionCount(s') == 0 && VisibleSelection(s') == []
    ensures s' == s.(selectedIds := s'.selectedIds)
    ensures forall id :: !IsSelected(s'.selectedIds, id)
  {
    var s' := s.(selectedIds := map[]);
    VisibleNoneSelected(s'.artworks, s'.selectedIds);
    s'
  }

  /** The invariant every reachable state keeps: the map stores only `true` flags. */
  predicate Valid(s: State)
  {
    AllTrue(s.selectedIds)
  }

  /** In a valid state the count equals the number of keys in the map. */
  lemma ValidCountIsSize(s: State)
    requires Valid(s)
    ensures SelectionCount(s) == |s.selectedIds|
  {
  }

  /** Every transition preserves the invariant. */
  lemma TransitionsPreserveValid(s: State, first: nat, rows: nat, value: seq<Art>, outcome: FetchOutcome)
    requires Valid(s)
    ensures Valid(Init())
    ensures Valid(StartFetch(s)) && Valid(FinishFetch(s, outcome))
    ensures Valid(OnPageChange(s, first, rows).0)
    ensures Valid(OnSelectionChange(s, value))
    ensures Valid(ClearAll(s))
  {
  }

  /** Reporting the same selection twice changes nothing the second time. */
  lemma SelectionChangeIdempotent(s: State, value: seq<Art>)
    ensures OnSelectionChange(OnSelectionChange(s, value), value) == OnSelectionChange(s, value)
  {
    ReconcileIdempotent(s.selectedIds, Ids(s.artworks), Ids(value));
  }

  /** Deselecting one row of the current page removes exactly that row's id from the map. */
  lemma DeselectOneRow(s: State, x: Art, value: seq<Art>)
    requires Valid(s)
    requires x in s.artworks
    requires forall a :: a in value <==> a in VisibleSelection(s) && a.id != x.id
    ensures OnSelectionChange(s, value).selectedIds == s.selectedIds - {x.id}
  {
    var m := s.selectedIds;
    var pageIds := Ids(s.artworks);
    var r := OnSelectionChange(s, value).selectedIds;
    IdsMembership(s.artworks, x.id);
    forall id | id in pageIds
      ensures id in r <==> id in m && id != x.id
    {
      IdsMembership(s.artworks, id);
      IdsMembership(value, id);
      var i :| 0 <= i < |s.artworks| && s.artworks[i].id == id;
      if id in m && id != x.id {
        assert s.artworks[i] in VisibleSelection(s);
        assert s.artworks[i] in value;
      }
    }
    assert r.Keys == (m - {x.id}).Keys;
  }

  /** Rows selected on one page survive a visit to another page where nothing is selected:
      select every row of page A, go to page B, select none, come back to page A. */
  lemma CrossPagePersistence(s: State, pageA: seq<Art>, pageB: seq<Art>,
                             firstA: nat, firstB: nat, rows: nat, totalA: int, totalB: int)
    requires s.artworks == pageA
    requires forall i, j :: 0 <= i < |pageA| && 0 <= j < |pageB| ==> pageA[i].id != pageB[j].id
    ensures
      var s1 := OnSelectionChange(s, pageA);
      var s2 := FinishFetch(OnPageChange(s1, firstB, rows).0, Success(pageB, totalB));
      var s3 := OnSelectionChange(s2, []);
      var s4 := FinishFetch(OnPageChange(s3, firstA, rows).0, Success(pageA, totalA));
      VisibleSelection(s4) == pageA
  {
    var s1 := OnSelectionChange(s, pageA);
    var s2 := FinishFetch(OnPageChange(s1, firstB, rows).0, Success(pageB, totalB));
    var s3 := OnSelectionChange(s2, []);
    var s4 := FinishFetch(OnPageChange(s3, firstA, rows).0, Success(pageA, totalA));
    forall i | 0 <= i < |pageA|
      ensures IsSelected(s4.selectedIds, pageA[i].id)
    {
      var id := pageA[i].id;
      assert Ids(pageA)[i] == id;
      IdsMembership(pageB, id);
      assert id !in Ids(pageB);
    }
    VisibleAllSelected(pageA, s4.selectedIds);
  }

  /** An example: with `{5: true, 9: true}`, page ids `[5, 6, 7, 8]` and the table
      reporting `[6]`, id 5 is dropped, 6 is added and the off-page 9 is kept. */
  lemma ReconcileExample()
    ensures Reconcile(map[5 := true, 9 := true], [5, 6, 7, 8], [6]) == map[6 := true, 9 := true]
  {
    var r := Reconcile(map[5 := true, 9 := true], [5, 6, 7, 8], [6]);
    assert 5 in [5, 6, 7, 8] && 6 in [5, 6, 7, 8] && 9 !in [5, 6, 7, 8];
    assert r.Keys == {6, 9};
  }
}
