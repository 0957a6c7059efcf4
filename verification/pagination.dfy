/** The paginator arithmetic: the table reports a zero-based row offset and a page size,
    the catalog expects a one-based page number. */
module Pagination {
  import opened Wrappers

  /** `Math.floor(first / rows) + 1`. With `rows == 0` the quotient is Infinity or NaN,
      which is not a page number: that case is `None`. */
  function PageOf(first: nat, rows: nat): (p: Option<nat>)
    ensures p.Some? <==> rows > 0
    ensures p.Some? ==> p.value >= 1
    ensures p.Some? ==> (p.value - 1) * rows <= first < p.value * rows
  {
    if rows == 0 then None
    else
      var q := first / rows;
      assert q * rows <= first < (q + 1) * rows by {
        DivBracket(first, rows);
      }
      Some(q + 1)
  }

  /** Floor division brackets its dividend. */
  lemma DivBracket(first: nat, rows: nat)
    requires rows > 0
    ensures (first / rows) * rows <= first < (first / rows + 1) * rows
  {
    var q, r := first / rows, first % rows;
    assert first == q * rows + r;
    assert (q + 1) * rows == q * rows + rows;
  }

  /** The offset of the first row of a one-based page: the inverse of `PageOf`. */
  function FirstOfPage(page: nat, rows: nat): (first: nat)
    requires page >= 1
    ensures PageOf(first, rows) == (if rows > 0 then Some(page) else None)
    // no smaller offset lies on the same page
    ensures rows > 0 ==> forall f: nat :: f < first ==> PageOf(f, rows) != Some(page)
  {
    var first := (page - 1) * rows;
    if rows > 0 then
      PageUnique(first, rows, page);
      first
    else
      first
  }

  /** The page number is the one page whose row range contains the offset. */
  lemma PageUnique(first: nat, rows: nat, page: nat)
    requires rows > 0 && page >= 1
    requires (page - 1) * rows <= first < page * rows
    ensures PageOf(first, rows) == Some(page)
  {
    var p := PageOf(first, rows).value;
    if p < page {
      assert p * rows <= (page - 1) * rows by { MulMono(p, page - 1, rows); }
    } else if p > page {
      assert page * rows <= (p - 1) * rows by { MulMono(page, p - 1, rows); }
    }
  }

  lemma MulMono(a: nat, b: nat, c: nat)
    requires a <= b
    ensures a * c <= b * c
  {
  }

  /** An offset on a page boundary is recovered exactly from its page number. */
  lemma BoundaryOffsetRoundTrip(first: nat, rows: nat)
    requires rows > 0 && first % rows == 0
    ensures PageOf(first, rows).Some?
    ensures FirstOfPage(PageOf(first, rows).value, rows) == first
  {
    var p := PageOf(first, rows).value;
    assert first == (first / rows) * rows;
  }
}
