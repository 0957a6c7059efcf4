/** Cross-page selection bookkeeping: the map from artwork id to "selected" flag,
    its reconciliation against the rows of the current page, the visible selection
    derived from it, and the selection count. */
module Selection {
  import opened Artworks

  /** Artwork id to "selected" flag; ids of pages not loaded keep their entries. */
  type SelectionMap = map<int, bool>

  /** Truthiness of `selectedIds[id]`: a missing key reads as undefined, which is falsy. */
  predicate IsSelected(m: SelectionMap, id: int)
  {
    id in m && m[id]
  }

  /** Every flag stored in the map is `true`, so a key is present exactly when it is selected. */
  predicate AllTrue(m: SelectionMap)
  {
    forall id :: id in m ==> m[id]
  }

  /** One iteration of the loop over the current page's ids: mark the id selected
      when the table reports it, otherwise delete its key. */
  function ReconcileOne(updated: SelectionMap, id: int, selectedOnPage: seq<int>): SelectionMap
  {
    if id in selectedOnPage then updated[id := true] else updated - {id}
  }

  /** The loop over `currentPageIds`, in order, starting from a copy of the previous map. */
  function Reconcile(updated: SelectionMap, currentPageIds: seq<int>, selectedOnPage: seq<int>): (r: SelectionMap)
    // an id of the current page is present exactly when the table reports it selected ...
    ensures forall id :: id in currentPageIds ==> (id in r <==> id in selectedOnPage)
    // ... and is then stored as `true`
    ensures forall id :: id in currentPageIds && id in r ==> r[id]
    // an id of another page keeps its presence ...
    ensures forall id :: id !in currentPageIds ==> (id in r <==> id in updated)
    // ... and its value
    ensures forall id :: id !in currentPageIds && id in updated ==> r[id] == updated[id]
    decreases |currentPageIds|
  {
    if |currentPageIds| == 0 then updated
    else Reconcile(ReconcileOne(updated, currentPageIds[0], selectedOnPage), currentPageIds[1..], selectedOnPage)
  }

  /** An independent, declarative statement of what reconciliation should produce:
      ids of the current page map to `true` when reported selected and are absent otherwise;
      all other entries are copied. */
  ghost function ReconcileSpec(prev: SelectionMap, currentPageIds: seq<int>, selectedOnPage: seq<int>): SelectionMap
  {
    map id | id in (prev.Keys - set p | p in currentPageIds) + (set p | p in currentPageIds && p in selectedOnPage)
      :: if id in currentPageIds then true else prev[id]
  }

  /** The loop computes exactly the declarative map. */
  lemma ReconcileMeetsSpec(prev: SelectionMap, currentPageIds: seq<int>, selectedOnPage: seq<int>)
    ensures Reconcile(prev, currentPageIds, selectedOnPage) == ReconcileSpec(prev, currentPageIds, selectedOnPage)
  {
    var r := Reconcile(prev, currentPageIds, selectedOnPage);
    var s := ReconcileSpec(prev, currentPageIds, selectedOnPage);
    assert r.Keys == s.Keys;
  }

  /** Reconciliation only ever stores `true`, so a map of `true` flags stays one. */
  lemma ReconcileKeepsAllTrue(prev: SelectionMap, currentPageIds: seq<int>, selectedOnPage: seq<int>)
    requires AllTrue(prev)
    ensures AllTrue(Reconcile(prev, currentPageIds, selectedOnPage))
  {
  }

  /** Applying the same selection change twice has the effect of applying it once. */
  lemma ReconcileIdempotent(prev: SelectionMap, currentPageIds: seq<int>, selectedOnPage: seq<int>)
    ensures var once := Reconcile(prev, currentPageIds, selectedOnPage);
            Reconcile(once, currentPageIds, selectedOnPage) == once
  {
  }

  /** Only the incoming ids that are on the current page matter: two incoming selections
      that agree on the page's ids give the same map. */
  lemma ReconcileIgnoresOffPageIncoming(prev: SelectionMap, currentPageIds: seq<int>, sel1: seq<int>, sel2: seq<int>)
    requires forall id :: id in currentPageIds ==> (id in sel1 <==> id in sel2)
    ensures Reconcile(prev, currentPageIds, sel1) == Reconcile(prev, currentPageIds, sel2)
  {
    var r1 := Reconcile(prev, currentPageIds, sel1);
    var r2 := Reconcile(prev, currentPageIds, sel2);
    forall id | id in r1 || id in r2
      ensures id in r1 && id in r2
    {
      if id in currentPageIds {
        assert id in sel1 <==> id in sel2;
      }
    }
    assert r1.Keys == r2.Keys;
  }

  /** The rows of `artworks` whose id is selected, in their original order
      (`artworks.filter(artwork => selectedIds[artwork.id])`). */
  function Visible(artworks: seq<Art>, m: SelectionMap): (r: seq<Art>)
    ensures forall a :: a in r <==> a in artworks && IsSelected(m, a.id)
    ensures IsSubsequence(r, artworks)
    decreases |artworks|
  {
    if |artworks| == 0 then []
    else if IsSelected(m, artworks[0].id) then [artworks[0]] + Visible(artworks[1..], m)
    else Visible(artworks[1..], m)
  }

  /** The visible selection of a concatenation is the concatenation of the visible selections:
      together with the one-row case this pins `Visible` down as an order-preserving filter. */
  lemma {:induction false} VisibleAppend(a: seq<Art>, b: seq<Art>, m: SelectionMap)
    ensures Visible(a + b, m) == Visible(a, m) + Visible(b, m)
    decreases |a|
  {
    if |a| == 0 {
      assert a + b == b;
    } else {
      assert (a + b)[1..] == a[1..] + b;
      VisibleAppend(a[1..], b, m);
    }
  }

  /** A single row is visible exactly when its id is selected. */
  lemma VisibleSingleton(x: Art, m: SelectionMap)
    ensures Visible([x], m) == (if IsSelected(m, x.id) then [x] else [])
  {
    assert [x][1..] == [];
  }

  /** The visible selection depends on the map only through the ids of the buffer. */
  lemma {:induction false} VisibleCongruent(artworks: seq<Art>, m1: SelectionMap, m2: SelectionMap)
    requires forall i :: 0 <= i < |artworks| ==> (IsSelected(m1, artworks[i].id) <==> IsSelected(m2, artworks[i].id))
    ensures Visible(artworks, m1) == Visible(artworks, m2)
    decreases |artworks|
  {
    if |artworks| > 0 {
      assert IsSelected(m1, artworks[0].id) <==> IsSelected(m2, artworks[0].id);
      VisibleCongruent(artworks[1..], m1, m2);
    }
  }

  /** When every row of the buffer is selected, the whole buffer is visible. */
  lemma {:induction false} VisibleAllSelected(artworks: seq<Art>, m: SelectionMap)
    requires forall i :: 0 <= i < |artworks| ==> IsSelected(m, artworks[i].id)
    ensures Visible(artworks, m) == artworks
    decreases |artworks|
  {
    if |artworks| > 0 {
      VisibleAllSelected(artworks[1..], m);
      assert [artworks[0]] + artworks[1..] == artworks;
    }
  }

  /** With nothing selected on the buffer, nothing is visible. */
  lemma {:induction false} VisibleNoneSelected(artworks: seq<Art>, m: SelectionMap)
    requires forall i :: 0 <= i < |artworks| ==> !IsSelected(m, artworks[i].id)
    ensures Visible(artworks, m) == []
    decreases |artworks|
  {
    if |artworks| > 0 {
      VisibleNoneSelected(artworks[1..], m);
    }
  }

  /** After a selection change on the current page, the visible selection is determined by the
      incoming selection alone: whatever the map held for those ids before no longer shows. */
  lemma VisibleAfterReconcile(artworks: seq<Art>, prev: SelectionMap, selectedOnPage: seq<int>)
    ensures Visible(artworks, Reconcile(prev, Ids(artworks), selectedOnPage))
         == Visible(artworks, Reconcile(map[], Ids(artworks), selectedOnPage))
    ensures forall a :: a in Visible(artworks, Reconcile(prev, Ids(artworks), selectedOnPage))
                     <==> a in artworks && a.id in selectedOnPage
  {
    var ids := Ids(artworks);
    var r1 := Reconcile(prev, ids, selectedOnPage);
    var r2 := Reconcile(map[], ids, selectedOnPage);
    forall i | 0 <= i < |artworks|
      ensures IsSelected(r1, artworks[i].id) <==> IsSelected(r2, artworks[i].id)
    {
      assert artworks[i].id == ids[i];
    }
    VisibleCongruent(artworks, r1, r2);
    forall a | a in artworks
      ensures IsSelected(r1, a.id) <==> a.id in selectedOnPage
    {
      var i :| 0 <= i < |artworks| && artworks[i] == a;
      assert ids[i] == a.id;
    }
  }

  /** `xs` can be obtained from `ys` by deleting elements, keeping the order of the rest. */
  ghost predicate IsSubsequence<T>(xs: seq<T>, ys: seq<T>)
    decreases |ys|
  {
    if |xs| == 0 then true
    else if |ys| == 0 then false
    else (xs[0] == ys[0] && IsSubsequence(xs[1..], ys[1..])) || IsSubsequence(xs, ys[1..])
  }

  /** The number of `true` flags in the map (`Object.values(selectedIds).filter(Boolean).length`). */
  function Count(m: SelectionMap): (n: nat)
    ensures n <= |m|
    ensures n == 0 <==> forall id :: id in m ==> !m[id]
    ensures AllTrue(m) ==> n == |m|
  {
    var trueIds := set id | id in m && m[id];
    SubsetCardinality(trueIds, m.Keys);
    assert |m.Keys| == |m|;
    assert AllTrue(m) ==> trueIds == m.Keys by {
      if AllTrue(m) {
        forall id | id in m.Keys ensures id in trueIds {
          assert m[id];
        }
      }
    }
    assert (exists id :: id in m && m[id]) ==> |trueIds| > 0 by {
      if exists id :: id in m && m[id] {
        var id :| id in m && m[id];
        assert id in trueIds;
      }
    }
    |trueIds|
  }

  /** A subset is no larger than its superset. */
  lemma {:induction false} SubsetCardinality<T>(a: set<T>, b: set<T>)
    requires a <= b
    ensures |a| <= |b|
    decreases |b|
  {
    if a != {} {
      var x :| x in a;
      SubsetCardinality(a - {x}, b - {x});
    }
  }
}
