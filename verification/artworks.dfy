/** The artwork record the catalog returns, one row of the table. */
module Artworks {

  /** One artwork as requested through the fixed field projection. */
  datatype Art = Art(
    id: int,
    title: string,
    placeOfOrigin: string,
    artistDisplay: string,
    inscriptions: string,
    dateStart: int,
    dateEnd: int
  )

  /** The ids of a row buffer, in row order (`rows.map(a => a.id)`). */
  function Ids(rows: seq<Art>): (r: seq<int>)
    ensures |r| == |rows|
    ensures forall i :: 0 <= i < |rows| ==> r[i] == rows[i].id
  {
    seq(|rows|, i requires 0 <= i < |rows| => rows[i].id)
  }

  /** An id occurs among the ids of a buffer exactly when some row of the buffer carries it. */
  lemma IdsMembership(rows: seq<Art>, id: int)
    ensures id in Ids(rows) <==> exists i :: 0 <= i < |rows| && rows[i].id == id
  {
    if id in Ids(rows) {
      var k :| 0 <= k < |Ids(rows)| && Ids(rows)[k] == id;
      assert rows[k].id == id;
    }
  }
}
