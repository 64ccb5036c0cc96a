/**
 * The part of `save_to_database` in practice.py that does not depend on
 * the database driver: the guard for an empty list, and turning the books
 * into the rows of one batched INSERT. Whether a connection is available and
 * what the driver answers are inputs.
 */
module Persistence {
  import opened Wrappers
  import opened Extraction

  /** One INSERT row: (title, image_url, price, rating, detail_url). */
  type Row = (Option<string>, Option<string>, string, string, Option<string>)

  function ToRow(b: Book): Row {
    (b.title, b.imageUrl, b.price, b.rating, b.detailUrl)
  }

  /** The rows of the batch, one per book, in list order. */
  function BookTuples(books: seq<Book>): (rows: seq<Row>)
    ensures |rows| == |books|
    ensures forall i :: 0 <= i < |books| ==> rows[i] == ToRow(books[i])
  {
    if books == [] then [] else [ToRow(books[0])] + BookTuples(books[1..])
  }

  /** Reading a row back as a book. */
  function FromRow(row: Row): (b: Book)
    ensures ToRow(b) == row
  {
    Book(row.0, row.1, row.2, row.3, row.4)
  }

  /** Reading a batch back gives the books it was built from: the projection loses nothing. */
  lemma {:induction false} RowsRoundTrip(books: seq<Book>)
    ensures |BookTuples(books)| == |books|
    ensures forall i :: 0 <= i < |books| ==> FromRow(BookTuples(books)[i]) == books[i]
  {
    forall i | 0 <= i < |books| ensures FromRow(BookTuples(books)[i]) == books[i] {
      var b := books[i];
      assert BookTuples(books)[i] == (b.title, b.imageUrl, b.price, b.rating, b.detailUrl);
    }
  }

  /** Two book lists with the same batch are the same list. */
  lemma BookTuplesInjective(a: seq<Book>, b: seq<Book>)
    requires BookTuples(a) == BookTuples(b)
    ensures a == b
  {
    RowsRoundTrip(a);
    RowsRoundTrip(b);
    assert forall i :: 0 <= i < |a| ==> a[i] == FromRow(BookTuples(a)[i]) == b[i];
  }

  /** What the driver reports for `executemany` and `commit`. */
  datatype DriverReply = RowCount(count: int) | DriverError

  /**
   * One call of `save_to_database`: whether a connection was asked for, the
   * batch handed to the driver (if any), and the count returned.
   */
  datatype SaveRun = SaveRun(connectionRequested: bool, batch: Option<seq<Row>>, returned: int)

  function SaveToDatabase(books: seq<Book>, connectionOpen: bool, reply: DriverReply): (r: SaveRun)
    ensures books == [] ==> r == SaveRun(false, None, 0)
    ensures books != [] ==> r.connectionRequested
    ensures r.batch.Some? <==> books != [] && connectionOpen
    ensures r.batch.Some? ==> |r.batch.value| == |books| && r.batch.value == BookTuples(books)
    ensures r.returned != 0 ==> r.batch.Some? && reply == RowCount(r.returned)
    ensures r.batch.Some? && reply.RowCount? ==> r.returned == reply.count
    ensures r.batch.Some? && reply.DriverError? ==> r.returned == 0
  {
    if books == [] then SaveRun(false, None, 0)
    else if !connectionOpen then SaveRun(true, None, 0)
    else
      var rows := BookTuples(books);
      match reply
      case RowCount(n) => SaveRun(true, Some(rows), n)
      case DriverError => SaveRun(true, Some(rows), 0)
  }
}
